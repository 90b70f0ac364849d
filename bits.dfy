/**
 * The payload side of `write_output` (main.py): the encoded size, the bit string made
 * by concatenating the codes of the input, and the MSB-first packing of that bit
 * string into bytes (`bitarray(bit_str).tobytes()`), with its inverse `frombytes`.
 */
module Bits {
  import opened Wrappers
  import opened Dicts
  import opened Utf8
  import opened CodeTable
  import opened Frequency
  import opened Seqs

  // ---- the encoded size and the bit string -------------------------------------------

  /** The length of a symbol's code, 0 for a symbol without one. */
  function CodeLength(table: Dict<char, string>): char -> nat {
    c => |GetOr(table, c, "")|
  }

  /** Every symbol of `s` has a code. */
  predicate Covers(table: Dict<char, string>, s: string) {
    forall i :: 0 <= i < |s| ==> HasKey(table, s[i])
  }

  /** Every symbol counted in `counter` has a code. */
  predicate CoversCounts(table: Dict<char, string>, counter: Dict<char, nat>) {
    forall i :: 0 <= i < |counter| ==> HasKey(table, counter[i].0)
  }

  /** `''.join(table[c] for c in s)`, with no contribution from a symbol that has no code. */
  function Codes(s: string, table: Dict<char, string>): string {
    if s == [] then [] else Codes(s[..|s| - 1], table) + GetOr(table, s[|s| - 1], "")
  }

  /**
   * The size loop of `write_output`: `size += count * len(table[char])` over the counter,
   * which raises `KeyError` at the first counted symbol without a code.
   */
  method EncodedSize(counter: Dict<char, nat>, table: Dict<char, string>) returns (r: Result<nat>)
    ensures r.Err? <==> !CoversCounts(table, counter)
    ensures r.Err? ==> r.error == KeyError
    ensures r.Ok? ==> r.value == Total(counter, CodeLength(table))
  {
    var size := 0;
    for i := 0 to |counter|
      invariant CoversCounts(table, counter[..i])
      invariant size == Total(counter[..i], CodeLength(table))
    {
      var (c, count) := counter[i];
      if !HasKey(table, c) {
        return Err(KeyError);
      }
      TakeLast(counter, i + 1);
      TotalAppend(counter[..i], counter[i], CodeLength(table));
      size := size + count * |Get(table, c)|;
    }
    assert counter[..|counter|] == counter;
    r := Ok(size);
  }

  /** The bit-string loop of `write_output`: `bit_str += table[char]` for each symbol in turn. */
  method BitString(chunk: string, table: Dict<char, string>) returns (r: Result<string>)
    ensures r.Err? <==> !Covers(table, chunk)
    ensures r.Err? ==> r.error == KeyError
    ensures r.Ok? ==> r.value == Codes(chunk, table)
  {
    var bitStr := "";
    for i := 0 to |chunk|
      invariant Covers(table, chunk[..i])
      invariant bitStr == Codes(chunk[..i], table)
    {
      var c := chunk[i];
      if !HasKey(table, c) {
        return Err(KeyError);
      }
      assert chunk[..i + 1][..i] == chunk[..i];
      bitStr := bitStr + Get(table, c);
    }
    assert chunk[..|chunk|] == chunk;
    r := Ok(bitStr);
  }

  /** The bit string is as long as the code lengths summed over the input. */
  lemma {:induction false} CodesLength(s: string, table: Dict<char, string>)
    ensures |Codes(s, table)| == SumOver(s, CodeLength(table))
    decreases |s|
  {
    if s != [] {
      CodesLength(s[..|s| - 1], table);
    }
  }

  /**
   * The size `write_output` puts in the header, count times code length over the
   * counter, is the length of the bit string it then writes.
   */
  lemma SizeIsBitLength(s: string, table: Dict<char, string>)
    ensures Total(CountOf(s), CodeLength(table)) == |Codes(s, table)|
  {
    TotalCountOf(s, CodeLength(table));
    CodesLength(s, table);
  }

  /** Concatenating binary codes gives a binary string. */
  lemma {:induction false} CodesBinary(s: string, table: Dict<char, string>)
    requires forall i :: 0 <= i < |table| ==> IsBinary(table[i].1)
    ensures IsBinary(Codes(s, table))
    decreases |s|
  {
    if s != [] {
      CodesBinary(s[..|s| - 1], table);
      var c := s[|s| - 1];
      if HasKey(table, c) {
        assert IsBinary(table[IndexOf(table, c)].1);
      }
    }
  }

  /** The codes of `a + b` are the codes of `a` followed by the codes of `b`. */
  lemma {:induction false} CodesAppend(a: string, b: string, table: Dict<char, string>)
    ensures Codes(a + b, table) == Codes(a, table) + Codes(b, table)
    decreases |b|
  {
    if b == [] {
      assert a + b == a;
    } else {
      assert (a + b)[..|a + b| - 1] == a + b[..|b| - 1];
      CodesAppend(a, b[..|b| - 1], table);
    }
  }

  // ---- bits ----------------------------------------------------------------------

  /** The bits of a string over '0' and '1'. */
  function Bools(s: string): (b: seq<bool>)
    ensures |b| == |s|
  {
    seq(|s|, i requires 0 <= i < |s| => s[i] == '1')
  }

  /** The character `bitarray` prints for a bit. */
  function BitChar(b: bool): char {
    if b then '1' else '0'
  }

  /** `bitarray(s)` for a string of '0' and '1'; any other character raises `ValueError`. */
  function BitsOf(s: string): (r: Result<seq<bool>>)
    ensures r.Ok? <==> IsBinary(s)
    ensures r.Err? ==> r.error == ValueError
    ensures r.Ok? ==> r.value == Bools(s)
  {
    if IsBinary(s) then Ok(Bools(s)) else Err(ValueError)
  }

  lemma BoolsAppend(a: string, b: string)
    ensures Bools(a + b) == Bools(a) + Bools(b)
  {
  }

  /** A binary string is spelled back by the characters of its bits. */
  lemma BoolsChars(s: string)
    requires IsBinary(s)
    ensures forall i :: 0 <= i < |s| ==> BitChar(Bools(s)[i]) == s[i]
  {
  }

  // ---- packing ---------------------------------------------------------------------

  function Pow2(n: nat): (r: nat)
    ensures r >= 1
  {
    if n == 0 then 1 else 2 * Pow2(n - 1)
  }

  /** The number whose binary digits, most significant first, are `b`. */
  function BitValue(b: seq<bool>): (r: nat)
    ensures r < Pow2(|b|)
  {
    if b == [] then 0 else 2 * BitValue(b[..|b| - 1]) + (if b[|b| - 1] then 1 else 0)
  }

  /** The low `k` binary digits of `n`, most significant first. */
  function ByteBits(n: nat, k: nat): (r: seq<bool>)
    ensures |r| == k
  {
    if k == 0 then [] else ByteBits(n / 2, k - 1) + [n % 2 == 1]
  }

  /** `k` zero bits. */
  function Zeros(k: nat): (r: seq<bool>)
    ensures |r| == k && forall i :: 0 <= i < k ==> !r[i]
  {
    if k == 0 then [] else [false] + Zeros(k - 1)
  }

  /** How many zero bits `tobytes` appends to fill the last byte. */
  function PadLength(n: nat): nat {
    (8 - n % 8) % 8
  }

  lemma PadShort(n: nat)
    requires 0 < n < 8
    ensures PadLength(n) == 8 - n
  {
    assert n % 8 == n;
  }

  lemma PadShift(n: nat)
    ensures PadLength(n + 8) == PadLength(n)
  {
    assert (n + 8) % 8 == n % 8;
  }

  /** The byte holding eight bits, the first one most significant. */
  function ByteOf(b: seq<bool>): byte
    requires |b| == 8
  {
    BitValue(b)
  }

  /**
   * `bitarray.tobytes()`: each group of eight bits becomes one byte, the first bit most
   * significant, and a last incomplete group is filled with zero bits.
   */
  function Pack(bits: seq<bool>): (r: seq<byte>)
    ensures |r| == (|bits| + 7) / 8
    decreases |bits|
  {
    if bits == [] then []
    else if |bits| < 8 then [ByteOf(bits + Zeros(8 - |bits|))]
    else [ByteOf(bits[..8])] + Pack(bits[8..])
  }

  /** `bitarray().frombytes(data)`: eight bits per byte, most significant first. */
  function Unpack(data: seq<byte>): (r: seq<bool>)
    ensures |r| == 8 * |data|
  {
    if data == [] then [] else ByteBits(data[0], 8) + Unpack(data[1..])
  }

  /** Reading the digits of a value back gives the digits. */
  lemma {:induction false} ByteBitsOfValue(b: seq<bool>)
    ensures ByteBits(BitValue(b), |b|) == b
    decreases |b|
  {
    if b != [] {
      var init, last := b[..|b| - 1], b[|b| - 1];
      var v := BitValue(b);
      assert v / 2 == BitValue(init) && (v % 2 == 1) == last;
      ByteBitsOfValue(init);
      assert b == init + [last];
    }
  }

  lemma UnpackCons(x: byte, rest: seq<byte>)
    ensures Unpack([x] + rest) == ByteBits(x, 8) + Unpack(rest)
  {
    assert ([x] + rest)[1..] == rest;
  }

  lemma PackShort(bits: seq<bool>)
    requires 0 < |bits| < 8
    ensures Pack(bits) == [ByteOf(bits + Zeros(8 - |bits|))]
  {
  }

  lemma UnpackOne(x: byte)
    ensures Unpack([x]) == ByteBits(x, 8)
  {
    assert [x][1..] == [];
  }

  /** A last group of fewer than eight bits comes back followed by its padding. */
  lemma LastByte(bits: seq<bool>)
    requires 0 < |bits| < 8
    ensures Unpack(Pack(bits)) == bits + Zeros(PadLength(|bits|))
  {
    var full := bits + Zeros(8 - |bits|);
    PackShort(bits);
    UnpackOne(ByteOf(full));
    ByteBitsOfValue(full);
    PadShort(|bits|);
  }

  /**
   * Unpacking what was packed gives the bits back followed by the zero padding: bit `i`
   * of the packed bytes is bit `i` of the input for every `i` below its length, and the
   * unused low bits of the last byte are zero.
   */
  lemma {:induction false} UnpackPack(bits: seq<bool>)
    ensures Unpack(Pack(bits)) == bits + Zeros(PadLength(|bits|))
    decreases |bits|
  {
    if bits == [] {
    } else if |bits| < 8 {
      LastByte(bits);
    } else {
      var head, tail := bits[..8], bits[8..];
      ByteBitsOfValue(head);
      UnpackPack(tail);
      UnpackCons(ByteOf(head), Pack(tail));
      PadShift(|tail|);
      assert bits == head + tail;
    }
  }

  /** The first `n` unpacked bits of a packing of `n` bits are those bits. */
  lemma PackedPrefix(bits: seq<bool>)
    ensures |bits| <= |Unpack(Pack(bits))| && Unpack(Pack(bits))[..|bits|] == bits
  {
    UnpackPack(bits);
  }
}
