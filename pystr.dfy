/**
 * The Python string and bytes operations the codec relies on: `find`, slicing with
 * negative and out-of-range bounds, `strip`, `str(n)`, and `int(s)`.
 */
module PyStr {
  import opened Wrappers

  // ---- find --------------------------------------------------------------------

  /** `pat` occurs in `s` starting at position `j`. */
  predicate OccursAt<T(==)>(s: seq<T>, pat: seq<T>, j: int) {
    0 <= j && j + |pat| <= |s| && s[j..j + |pat|] == pat
  }

  /** `s.find(pat, i)`: the first position at or after `i` where `pat` occurs, or -1. */
  function FindFrom<T(==)>(s: seq<T>, pat: seq<T>, i: nat): int
    decreases |s| - i
  {
    if i + |pat| > |s| then -1
    else if s[i..i + |pat|] == pat then i
    else FindFrom(s, pat, i + 1)
  }

  /** `s.find(pat)`: the first occurrence (FindFirst), or -1 when there is none. */
  function Find<T(==)>(s: seq<T>, pat: seq<T>): int {
    FindFrom(s, pat, 0)
  }

  /** `find` from `i` returns -1 or an occurrence at or after `i`, and nothing occurs between `i` and it. */
  lemma {:induction false} FindFromFirst<T>(s: seq<T>, pat: seq<T>, i: nat)
    ensures var r := FindFrom(s, pat, i);
            (r == -1 || (i <= r && OccursAt(s, pat, r))) &&
            forall j :: i <= j && (r == -1 || j < r) ==> !OccursAt(s, pat, j)
    decreases |s| - i
  {
    if i + |pat| > |s| {
    } else if s[i..i + |pat|] == pat {
    } else {
      FindFromFirst(s, pat, i + 1);
    }
  }

  /** A first occurrence is what `find` returns. */
  lemma FindFirst<T>(s: seq<T>, pat: seq<T>, k: nat)
    requires OccursAt(s, pat, k)
    requires forall j :: 0 <= j < k ==> !OccursAt(s, pat, j)
    ensures Find(s, pat) == k
  {
    FindFromFirst(s, pat, 0);
  }

  // ---- slicing -------------------------------------------------------------------

  /** A slice bound as Python normalises it: negative counts from the end, then clamped. */
  function Clamp(i: int, n: nat): (r: nat)
    ensures r <= n
  {
    if i < 0 then (if i + n < 0 then 0 else i + n) else if i > n then n else i
  }

  /** `s[i:j]` */
  function PySlice<T>(s: seq<T>, i: int, j: int): (r: seq<T>)
    ensures |r| <= |s|
    ensures 0 <= i <= j <= |s| ==> r == s[i..j]
  {
    var a, b := Clamp(i, |s|), Clamp(j, |s|);
    if a < b then s[a..b] else []
  }

  /** `s[i:]` */
  function From<T>(s: seq<T>, i: int): (r: seq<T>)
    ensures |r| <= |s|
    ensures 0 <= i <= |s| ==> r == s[i..]
    ensures i > 0 && |s| > 0 ==> |r| < |s|
  {
    PySlice(s, i, |s|)
  }

  // ---- strip ---------------------------------------------------------------------

  /** `c.isspace()` as Python defines it for one character. */
  predicate IsSpace(c: char) {
    var n := c as int;
    (9 <= n <= 13) || (28 <= n <= 32) || n == 0x85 || n == 0xA0 || n == 0x1680
    || (0x2000 <= n <= 0x200A) || n == 0x2028 || n == 0x2029 || n == 0x202F
    || n == 0x205F || n == 0x3000
  }

  /** `s.lstrip()` */
  function LStrip(s: string): (r: string)
    ensures |r| <= |s|
    ensures r == [] || !IsSpace(r[0])
  {
    if s != [] && IsSpace(s[0]) then LStrip(s[1..]) else s
  }

  /** `s.rstrip()` */
  function RStrip(s: string): (r: string)
    ensures |r| <= |s|
    ensures r == [] || !IsSpace(r[|r| - 1])
  {
    if s != [] && IsSpace(s[|s| - 1]) then RStrip(s[..|s| - 1]) else s
  }

  /** `s.strip()` */
  function Strip(s: string): (r: string)
    ensures |r| <= |s|
    ensures r == [] || (!IsSpace(r[0]) && !IsSpace(r[|r| - 1]))
  {
    LStripSuffix(RStrip(s));
    LStrip(RStrip(s))
  }

  /** `lstrip` only removes characters from the front. */
  lemma {:induction false} LStripSuffix(s: string)
    ensures LStrip(s) == s[|s| - |LStrip(s)|..]
    decreases |s|
  {
    if s != [] && IsSpace(s[0]) {
      LStripSuffix(s[1..]);
    }
  }

  /** Trailing whitespace is stripped from the end of `b` alone when `a + b` has a
      non-space character after `a`'s last one, or `a` itself ends in one. */
  lemma {:induction false} RStripAppend(a: string, b: string)
    requires RStrip(b) != [] || (a != [] && !IsSpace(a[|a| - 1]))
    ensures RStrip(a + b) == a + RStrip(b)
    decreases |b|
  {
    if b == [] {
      assert a + b == a;
    } else if IsSpace(b[|b| - 1]) {
      assert (a + b)[..|a + b| - 1] == a + b[..|b| - 1];
      RStripAppend(a, b[..|b| - 1]);
    }
  }

  lemma RStripIdempotent(s: string)
    ensures RStrip(RStrip(s)) == RStrip(s)
  {
  }

  // ---- digits and integers -------------------------------------------------------

  /** An ASCII decimal digit. */
  predicate IsDigit(c: char) {
    '0' <= c <= '9'
  }

  predicate AllDigits(s: string) {
    forall i :: 0 <= i < |s| ==> IsDigit(s[i])
  }

  /** The match of the regular expression `^\d+` (ASCII digits), or empty. */
  function DigitPrefix(s: string): (r: string)
    ensures AllDigits(r) && r <= s
    ensures r == s || !IsDigit(s[|r|])
  {
    if s != [] && IsDigit(s[0]) then [s[0]] + DigitPrefix(s[1..]) else []
  }

  lemma {:induction false} DigitPrefixOf(a: string, b: string)
    requires AllDigits(a)
    requires b == [] || !IsDigit(b[0])
    ensures DigitPrefix(a + b) == a
    decreases |a|
  {
    if a == [] {
      assert a + b == b;
    } else {
      assert (a + b)[1..] == a[1..] + b;
      DigitPrefixOf(a[1..], b);
    }
  }

  function DigitChar(d: nat): (c: char)
    requires d < 10
    ensures IsDigit(c)
  {
    ('0' as int + d) as char
  }

  /** `str(n)` for a non-negative integer. */
  function NatToDecimal(n: nat): (s: string)
    ensures |s| > 0 && AllDigits(s)
    decreases n
  {
    if n < 10 then [DigitChar(n)] else NatToDecimal(n / 10) + [DigitChar(n % 10)]
  }

  /** The value of a run of decimal digits, most significant first. */
  function DigitsValue(s: string): nat
    requires AllDigits(s)
  {
    if s == [] then 0 else DigitsValue(s[..|s| - 1]) * 10 + (s[|s| - 1] as int - '0' as int)
  }

  /** `int(s)`: surrounding whitespace, an optional sign, then at least one digit. */
  function ParseInt(s: string): (r: Result<int>)
    ensures r.Err? ==> r.error == ValueError
  {
    var t := Strip(s);
    var negative := |t| > 0 && t[0] == '-';
    var digits := if |t| > 0 && (t[0] == '-' || t[0] == '+') then t[1..] else t;
    if |digits| > 0 && AllDigits(digits) then
      var v: int := DigitsValue(digits);
      Ok(if negative then -v else v)
    else Err(ValueError)
  }

  lemma {:induction false} DecimalValue(n: nat)
    ensures DigitsValue(NatToDecimal(n)) == n
    decreases n
  {
    if n >= 10 {
      var s := NatToDecimal(n);
      assert s[..|s| - 1] == NatToDecimal(n / 10);
      DecimalValue(n / 10);
    }
  }

  /** `int(str(n)) == n` */
  lemma ParseIntOfDecimal(n: nat)
    ensures ParseInt(NatToDecimal(n)) == Ok(n)
  {
    var s := NatToDecimal(n);
    assert RStrip(s) == s;
    assert LStrip(s) == s;
    DecimalValue(n);
  }
}
