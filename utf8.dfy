/**
 * UTF-8, as `str.encode()` and the strict `bytes.decode()` apply it to the header:
 * encoding of Unicode scalar values, and a decoder that refuses overlong forms,
 * surrogates, values above U+10FFFF and truncated or malformed sequences.
 */
module Utf8 {
  import opened Wrappers

  type byte = b: int | 0 <= b < 256

  predicate IsAscii(s: string) {
    forall i :: 0 <= i < |s| ==> s[i] as int < 0x80
  }

  predicate IsCont(b: byte) {
    0x80 <= b < 0xC0
  }

  /** The UTF-8 bytes of one character: one byte below U+0080, all bytes at least 0x80 above. */
  function EncodeChar(c: char): (b: seq<byte>)
    ensures 1 <= |b| <= 4
    ensures c as int < 0x80 ==> b == [c as int]
    ensures c as int >= 0x80 ==> forall i :: 0 <= i < |b| ==> b[i] >= 0x80
  {
    var n := c as int;
    if n < 0x80 then [n]
    else if n < 0x800 then [0xC0 + n / 64, 0x80 + n % 64]
    else if n < 0x10000 then [0xE0 + n / 4096, 0x80 + (n / 64) % 64, 0x80 + n % 64]
    else [0xF0 + n / 262144, 0x80 + (n / 4096) % 64, 0x80 + (n / 64) % 64, 0x80 + n % 64]
  }

  /** `s.encode()` */
  function Encode(s: string): (b: seq<byte>)
    ensures |b| >= |s|
  {
    if s == [] then [] else EncodeChar(s[0]) + Encode(s[1..])
  }

  /** The code point a two-, three- or four-byte sequence carries: the payload bits, high first. */
  function Value2(b0: int, b1: int): int {
    (b0 - 0xC0) * 64 + (b1 - 0x80)
  }

  function Value3(b0: int, b1: int, b2: int): int {
    (b0 - 0xE0) * 4096 + (b1 - 0x80) * 64 + (b2 - 0x80)
  }

  function Value4(b0: int, b1: int, b2: int, b3: int): int {
    (b0 - 0xF0) * 262144 + (b1 - 0x80) * 4096 + (b2 - 0x80) * 64 + (b3 - 0x80)
  }

  /**
   * The first character of `b` and the number of bytes it takes, or None when `b` does
   * not start with a well-formed UTF-8 sequence.
   */
  function DecodeFirst(b: seq<byte>): (r: Option<(char, nat)>)
    requires |b| > 0
    ensures r.Some? ==> 1 <= r.value.1 <= |b|
  {
    var b0: int := b[0];
    if b0 < 0x80 then Some((b0 as char, 1))
    else if 0xC2 <= b0 < 0xE0 && |b| >= 2 && IsCont(b[1]) then
      Some((Value2(b0, b[1]) as char, 2))
    else if 0xE0 <= b0 < 0xF0 && |b| >= 3 && IsCont(b[1]) && IsCont(b[2]) then
      var n := Value3(b0, b[1], b[2]);
      if 0x800 <= n && !(0xD800 <= n < 0xE000) then Some((n as char, 3)) else None
    else if 0xF0 <= b0 < 0xF5 && |b| >= 4 && IsCont(b[1]) && IsCont(b[2]) && IsCont(b[3]) then
      var n := Value4(b0, b[1], b[2], b[3]);
      if 0x10000 <= n <= 0x10FFFF then Some((n as char, 4)) else None
    else None
  }

  /** `b.decode()`: the text, or UnicodeDecodeError when `b` is not well-formed UTF-8. */
  function Decode(b: seq<byte>): (r: Result<string>)
    ensures r.Err? ==> r.error == UnicodeDecodeError
    decreases |b|
  {
    if b == [] then Ok([])
    else match DecodeFirst(b)
      case None => Err(UnicodeDecodeError)
      case Some((c, k)) =>
        match Decode(b[k..])
        case Err(e) => Err(e)
        case Ok(s) => Ok([c] + s)
  }

  // ---- properties -------------------------------------------------------------------

  lemma {:induction false} EncodeAppend(a: string, b: string)
    ensures Encode(a + b) == Encode(a) + Encode(b)
  {
    if a != [] {
      assert (a + b)[0] == a[0] && (a + b)[1..] == a[1..] + b;
      EncodeAppend(a[1..], b);
    } else {
      assert a + b == b;
    }
  }

  /** ASCII text encodes byte for byte. */
  lemma {:induction false} EncodeAscii(s: string)
    requires IsAscii(s)
    ensures |Encode(s)| == |s| && forall i :: 0 <= i < |s| ==> Encode(s)[i] == s[i] as int
  {
    if s != [] {
      EncodeAscii(s[1..]);
    }
  }

  /** The decoder reads back the first character of an encoding, whatever follows it. */
  lemma DecodeFirstChar(c: char, rest: seq<byte>)
    ensures DecodeFirst(EncodeChar(c) + rest) == Some((c, |EncodeChar(c)|))
  {
    var n := c as int;
    var b := EncodeChar(c) + rest;
    if n < 0x80 {
    } else if n < 0x800 {
      Split2(n);
      assert b[0] == 0xC0 + n / 64 && b[1] == 0x80 + n % 64;
    } else if n < 0x10000 {
      Split3(n);
      assert b[0] == 0xE0 + n / 4096 && b[1] == 0x80 + (n / 64) % 64 && b[2] == 0x80 + n % 64;
    } else {
      Split4(n);
      assert b[0] == 0xF0 + n / 262144 && b[1] == 0x80 + (n / 4096) % 64;
      assert b[2] == 0x80 + (n / 64) % 64 && b[3] == 0x80 + n % 64;
    }
  }

  lemma Split2(n: int)
    requires 0x80 <= n < 0x800
    ensures 0xC2 <= 0xC0 + n / 64 < 0xE0
    ensures Value2(0xC0 + n / 64, 0x80 + n % 64) == n
  {
  }

  lemma Split3(n: int)
    requires 0x800 <= n < 0x10000
    ensures 0xE0 <= 0xE0 + n / 4096 < 0xF0
    ensures Value3(0xE0 + n / 4096, 0x80 + (n / 64) % 64, 0x80 + n % 64) == n
  {
    var q := n / 64;
    assert n == q * 64 + n % 64;
    assert q == (q / 64) * 64 + q % 64;
    assert q / 64 == n / 4096;
  }

  lemma Split4(n: int)
    requires 0x10000 <= n < 0x110000
    ensures 0xF0 <= 0xF0 + n / 262144 < 0xF5
    ensures Value4(0xF0 + n / 262144, 0x80 + (n / 4096) % 64, 0x80 + (n / 64) % 64, 0x80 + n % 64) == n
  {
    var q := n / 64;
    var r := q / 64;
    assert n == q * 64 + n % 64;
    assert q == r * 64 + q % 64;
    assert r == (r / 64) * 64 + r % 64;
    assert r == n / 4096;
    assert r / 64 == n / 262144;
  }

  /** Decoding undoes encoding. */
  lemma {:induction false} DecodeEncode(s: string)
    ensures Decode(Encode(s)) == Ok(s)
  {
    if s != [] {
      var e := EncodeChar(s[0]);
      DecodeFirstChar(s[0], Encode(s[1..]));
      assert (e + Encode(s[1..]))[|e|..] == Encode(s[1..]);
      DecodeEncode(s[1..]);
      assert [s[0]] + s[1..] == s;
    }
  }

  /** ASCII bytes decode one character per byte. */
  lemma {:induction false} DecodeAscii(b: seq<byte>)
    requires forall i :: 0 <= i < |b| ==> b[i] < 0x80
    ensures Decode(b).Ok? && |Decode(b).value| == |b|
    ensures forall i :: 0 <= i < |b| ==> Decode(b).value[i] as int == b[i]
  {
    if b != [] {
      DecodeAscii(b[1..]);
    }
  }
}
