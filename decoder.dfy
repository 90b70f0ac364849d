/**
 * The decoding loop of `write_decoded` (main.py): the payload is unpacked into bits, and
 * for each of the first `size` bits the accumulated prefix grows by one character; when
 * the prefix is a code of the table, its symbol is written and the prefix starts again.
 */
module Decoder {
  import opened Wrappers
  import opened Dicts
  import opened Utf8
  import opened CodeTable
  import opened Header
  import opened Bits
  import opened Seqs

  /** What decoding writes, the prefix it is left holding, and the error that stopped it. */
  datatype Decoded = Decoded(out: string, leftover: string, error: Option<Exception>)

  /** One iteration: extend the prefix by the bit; on a code, write its symbol and reset. */
  function Step(st: (string, string), bit: bool, table: Dict<string, string>): (string, string) {
    var prefix := st.1 + [BitChar(bit)];
    if HasKey(table, prefix) then (st.0 + Get(table, prefix), "") else (st.0, prefix)
  }

  /** The iterations over `bits`, in order, from the state `st`. */
  function FeedFrom(st: (string, string), bits: seq<bool>, table: Dict<string, string>): (string, string)
    decreases |bits|
  {
    if bits == [] then st else FeedFrom(Step(st, bits[0], table), bits[1..], table)
  }

  /**
   * What `write_decoded` leaves behind: the loop runs over `range(size)`, so nothing at
   * all for `size <= 0`; `bit_array[i]` raises `IndexError` once `i` reaches the number
   * of unpacked bits, after everything before it has been written.
   */
  function Decoding(data: seq<byte>, size: int, table: Dict<string, string>): Decoded {
    var bits := Unpack(data);
    if size <= |bits| then
      var st := FeedFrom(("", ""), bits[..if size < 0 then 0 else size], table);
      Decoded(st.0, st.1, None)
    else
      var st := FeedFrom(("", ""), bits, table);
      Decoded(st.0, st.1, Some(IndexError))
  }

  lemma {:induction false} FeedAppend(st: (string, string), a: seq<bool>, b: seq<bool>, table: Dict<string, string>)
    ensures FeedFrom(st, a + b, table) == FeedFrom(FeedFrom(st, a, table), b, table)
    decreases |a|
  {
    if a == [] {
      assert a + b == b;
    } else {
      assert (a + b)[0] == a[0] && (a + b)[1..] == a[1..] + b;
      FeedAppend(Step(st, a[0], table), a[1..], b, table);
    }
  }

  /** `write_decoded` on the bytes after the header, writing into `out`. */
  method WriteDecoded(data: seq<byte>, size: int, table: Dict<string, string>) returns (d: Decoded)
    ensures d == Decoding(data, size, table)
    ensures d.error.None? <==> size <= 8 * |data|
  {
    var bits := Unpack(data);
    var out, prefix := "", "";
    var i := 0;
    while i < size
      invariant 0 <= i <= |bits| && (i <= size || i == 0)
      invariant (out, prefix) == FeedFrom(("", ""), bits[..i], table)
    {
      if i >= |bits| {
        assert bits[..i] == bits;
        return Decoded(out, prefix, Some(IndexError));
      }
      var bit := bits[i];
      if bit {
        prefix := prefix + "1";
      } else {
        prefix := prefix + "0";
      }
      if HasKey(table, prefix) {
        out := out + Get(table, prefix);
        prefix := "";
      }
      assert bits[..i + 1] == bits[..i] + [bits[i]];
      FeedAppend(("", ""), bits[..i], [bits[i]], table);
      FeedOne(FeedFrom(("", ""), bits[..i], table), bits[i], table);
      i := i + 1;
    }
    d := Decoded(out, prefix, None);
  }

  // ---- decoding the concatenated codes ----------------------------------------------

  /** A proper prefix of a code in a prefix-free table is no code of the inverted table. */
  lemma ProperPrefixNoCode(table: Dict<char, string>, k: nat, j: nat)
    requires WellFormedTable(table) && k < |table| && j < |table[k].1|
    ensures !HasKey(Swap(table), table[k].1[..j])
  {
    var inv, p := Swap(table), table[k].1[..j];
    forall m | 0 <= m < |inv| ensures inv[m].0 != p {
      if m != k {
        assert !(table[m].1 <= table[k].1);
      }
    }
    HasKeyIff(inv, p);
  }

  /** The inverted table maps each code back to its symbol. */
  lemma SwapGet(table: Dict<char, string>, k: nat)
    requires WellFormedTable(table) && k < |table|
    ensures HasKey(Swap(table), table[k].1) && Get(Swap(table), table[k].1) == [table[k].0]
  {
    var inv := Swap(table);
    forall l | 0 <= l < k ensures inv[l].0 != table[k].1 {
      assert !(table[l].1 <= table[k].1);
    }
    IndexOfAt(inv, table[k].1, k);
  }

  /** Feeding the first `j` bits of a code only accumulates them. */
  lemma {:induction false} FeedPrefix(table: Dict<char, string>, k: nat, out: string, j: nat)
    requires WellFormedTable(table) && k < |table| && j < |table[k].1|
    ensures FeedFrom((out, ""), Bools(table[k].1)[..j], Swap(table)) == (out, table[k].1[..j])
    decreases j
  {
    var code := table[k].1;
    var bits := Bools(code);
    if j == 0 {
      assert bits[..0] == [];
    } else {
      FeedPrefix(table, k, out, j - 1);
      TakeLast(bits, j);
      FeedAppend((out, ""), bits[..j - 1], [bits[j - 1]], Swap(table));
      FeedOne((out, code[..j - 1]), bits[j - 1], Swap(table));
      BoolsChars(code);
      assert code[..j - 1] + [BitChar(bits[j - 1])] == code[..j];
      ProperPrefixNoCode(table, k, j);
    }
  }

  lemma FeedOne(st: (string, string), x: bool, table: Dict<string, string>)
    ensures FeedFrom(st, [x], table) == Step(st, x, table)
  {
    assert [x][1..] == [];
  }

  /** The last bit of a code completes it: its symbol is written and the prefix reset. */
  lemma StepLast(table: Dict<char, string>, k: nat, out: string)
    requires WellFormedTable(table) && k < |table|
    ensures var code := table[k].1;
            Step((out, code[..|code| - 1]), Bools(code)[|code| - 1], Swap(table)) == (out + [table[k].0], "")
  {
    var code := table[k].1;
    var n := |code| - 1;
    BoolsChars(code);
    assert code[..n] + [BitChar(Bools(code)[n])] == code;
    SwapGet(table, k);
  }

  /** Feeding a whole code writes its symbol and leaves the prefix empty. */
  lemma FeedCode(table: Dict<char, string>, k: nat, out: string)
    requires WellFormedTable(table) && k < |table|
    ensures FeedFrom((out, ""), Bools(table[k].1), Swap(table)) == (out + [table[k].0], "")
  {
    var code := table[k].1;
    var bits := Bools(code);
    var n := |code| - 1;
    FeedPrefix(table, k, out, n);
    TakeLast(bits, |bits|);
    assert bits[..|bits|] == bits;
    FeedAppend((out, ""), bits[..n], [bits[n]], Swap(table));
    FeedOne((out, code[..n]), bits[n], Swap(table));
    StepLast(table, k, out);
  }

  /**
   * Decoding is correct under a prefix-free table: the bits of the concatenated codes of
   * `s` write exactly `s`, and no prefix is left over.
   */
  lemma {:induction false} FeedCodes(table: Dict<char, string>, s: string, out: string)
    requires WellFormedTable(table) && Covers(table, s)
    ensures FeedFrom((out, ""), Bools(Codes(s, table)), Swap(table)) == (out + s, "")
    decreases |s|
  {
    if s == [] {
      assert out + s == out;
    } else {
      var init, c := s[..|s| - 1], s[|s| - 1];
      var k := IndexOf(table, c);
      FeedCodes(table, init, out);
      BoolsAppend(Codes(init, table), table[k].1);
      FeedAppend((out, ""), Bools(Codes(init, table)), Bools(table[k].1), Swap(table));
      FeedCode(table, k, out + init);
      AppendLast(out, s);
    }
  }
}
