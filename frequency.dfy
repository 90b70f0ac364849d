/**
 * Symbol counting and the sorted leaf list (`get_frequency`, main.py).
 */
module Frequency {
  import opened Wrappers
  import opened Dicts
  import opened HuffmanTree

  /** `Counter(s)`: one increment per symbol, keys in order of first occurrence. */
  function CountOf(s: string): Dict<char, nat> {
    if s == [] then []
    else
      Increment(CountOf(s[..|s| - 1]), s[|s| - 1])
  }

  /** `counter[c] += 1` on a `Counter`, where a missing key counts as 0. */
  function Increment(d: Dict<char, nat>, c: char): Dict<char, nat> {
    Put(d, c, GetOr(d, c, 0) + 1)
  }

  /** The counter has one key per distinct symbol and counts its occurrences. */
  lemma {:induction false} CountOfCorrect(s: string)
    ensures DistinctKeys(CountOf(s))
    ensures forall c :: HasKey(CountOf(s), c) <==> c in s
    ensures forall c :: GetOr(CountOf(s), c, 0) == multiset(s)[c]
  {
    if s != [] {
      var s', x := s[..|s| - 1], s[|s| - 1];
      assert s == s' + [x];
      CountOfCorrect(s');
      var d := CountOf(s');
      PutProps(d, x, GetOr(d, x, 0) + 1);
      forall c ensures HasKey(CountOf(s), c) <==> c in s {
        assert c in s <==> c in s' || c == x;
      }
    }
  }

  /** `sum(n * w(c) for c, n in d.items())` */
  function Total(d: Dict<char, nat>, w: char -> nat): nat {
    if d == [] then 0 else d[0].1 * w(d[0].0) + Total(d[1..], w)
  }

  /** The weight of one occurrence. */
  function One(c: char): nat {
    1
  }

  /** `sum(w(c) for c in s)` */
  function SumOver(s: string, w: char -> nat): nat {
    if s == [] then 0 else SumOver(s[..|s| - 1], w) + w(s[|s| - 1])
  }

  lemma {:induction false} TotalAppend(d: Dict<char, nat>, e: (char, nat), w: char -> nat)
    ensures Total(d + [e], w) == Total(d, w) + e.1 * w(e.0)
    decreases |d|
  {
    if d != [] {
      assert (d + [e])[1..] == d[1..] + [e];
      TotalAppend(d[1..], e, w);
    }
  }

  lemma {:induction false} TotalUpdate(d: Dict<char, nat>, i: nat, e: (char, nat), w: char -> nat)
    requires i < |d|
    ensures Total(d[i := e], w) + d[i].1 * w(d[i].0) == Total(d, w) + e.1 * w(e.0)
    decreases i
  {
    if i > 0 {
      assert d[i := e][1..] == d[1..][i - 1 := e];
      TotalUpdate(d[1..], i - 1, e, w);
    }
  }

  /** Counting then weighting each symbol gives the same sum as weighting every position. */
  lemma {:induction false} TotalCountOf(s: string, w: char -> nat)
    ensures Total(CountOf(s), w) == SumOver(s, w)
    decreases |s|
  {
    if s != [] {
      TotalCountOf(s[..|s| - 1], w);
      TotalCountStep(s, w);
    }
  }

  /** Counting one more symbol adds its weight to the total. */
  lemma TotalCountStep(s: string, w: char -> nat)
    requires s != []
    ensures Total(CountOf(s), w) == Total(CountOf(s[..|s| - 1]), w) + w(s[|s| - 1])
  {
    var d, c := CountOf(s[..|s| - 1]), s[|s| - 1];
    assert CountOf(s) == Increment(d, c);
    TotalIncrement(d, c, w);
  }

  /** Incrementing the count of `c` adds the weight of `c` to the total. */
  lemma TotalIncrement(d: Dict<char, nat>, c: char, w: char -> nat)
    ensures Total(Increment(d, c), w) == Total(d, w) + w(c)
  {
    var i := IndexOf(d, c);
    if i < |d| {
      var n := d[i].1;
      assert GetOr(d, c, 0) == n;
      TotalUpdate(d, i, (c, n + 1), w);
      assert (n + 1) * w(c) == n * w(c) + w(c);
    } else {
      TotalAppend(d, (c, 1), w);
    }
  }

  lemma {:induction false} SumOverOnes(s: string)
    ensures SumOver(s, One) == |s|
    decreases |s|
  {
    if s != [] { SumOverOnes(s[..|s| - 1]); }
  }

  /** `[Node(num, char) for char, num in counter.items()]` */
  function LeavesOf(d: Dict<char, nat>): (r: seq<Node>)
    ensures |r| == |d|
    ensures forall i :: 0 <= i < |d| ==> r[i] == Leaf(d[i].1, d[i].0)
  {
    if d == [] then [] else [Leaf(d[0].1, d[0].0)] + LeavesOf(d[1..])
  }

  /** The weights of the leaves add up to the number of symbols counted. */
  lemma {:induction false} LeavesOfWeight(d: Dict<char, nat>)
    ensures Weight(LeavesOf(d)) == Total(d, One)
    decreases |d|
  {
    if d != [] {
      LeavesOfWeight(d[1..]);
      var l := LeavesOf(d);
      assert l[0].freq == d[0].1 && l[1..] == LeavesOf(d[1..]);
      assert Total(d, One) == d[0].1 + Total(d[1..], One);
    }
  }

  /** The leaves carry the counter's keys, once each. */
  lemma {:induction false} LeavesOfSyms(d: Dict<char, nat>)
    ensures ForestSyms(LeavesOf(d)) == multiset(Keys(d))
    decreases |d|
  {
    if d != [] {
      LeavesOfSyms(d[1..]);
      var l := LeavesOf(d);
      assert l[0] == Leaf(d[0].1, d[0].0);
      assert l[1..] == LeavesOf(d[1..]);
      assert LeafSyms(Some(l[0])) == multiset{d[0].0};
      assert Keys(d) == [d[0].0] + Keys(d[1..]);
    }
  }

  lemma LeavesOfFull(d: Dict<char, nat>)
    ensures AllFull(LeavesOf(d))
  {
  }

  lemma LeavesAreFull(nodes: seq<Node>, leaves: seq<Node>)
    requires AllFull(leaves) && multiset(nodes) == multiset(leaves)
    ensures AllFull(nodes)
  {
    forall i | 0 <= i < |nodes| ensures Full(nodes[i]) {
      assert nodes[i] in multiset(leaves);
    }
  }

  predicate SortedByFreq(s: seq<Node>) {
    forall i, j :: 0 <= i < j < |s| ==> s[i].freq <= s[j].freq
  }

  /** Inserts `x` after every node that is not heavier, which keeps equal weights in order. */
  function InsertByFreq(x: Node, s: seq<Node>): (r: seq<Node>)
    ensures multiset(r) == multiset(s) + multiset{x}
  {
    if s == [] then [x]
    else if x.freq < s[0].freq then [x] + s
    else
      assert s == [s[0]] + s[1..];
      [s[0]] + InsertByFreq(x, s[1..])
  }

  lemma {:induction false} InsertSorted(x: Node, s: seq<Node>)
    requires SortedByFreq(s)
    ensures SortedByFreq(InsertByFreq(x, s))
    decreases |s|
  {
    if s != [] && x.freq >= s[0].freq {
      var t := InsertByFreq(x, s[1..]);
      InsertSorted(x, s[1..]);
      forall j | 0 <= j < |t| ensures s[0].freq <= t[j].freq {
        assert t[j] in multiset(s[1..]) + multiset{x};
        if t[j] != x {
          assert t[j] in s[1..];
        }
      }
    }
  }

  /** `sorted(nodes)`: a sort on weight (the order among equal weights is not stated). */
  function SortByFreq(s: seq<Node>): (r: seq<Node>)
    ensures multiset(r) == multiset(s)
    ensures SortedByFreq(r)
  {
    if s == [] then []
    else
      assert s == s[..|s| - 1] + [s[|s| - 1]];
      InsertSorted(s[|s| - 1], SortByFreq(s[..|s| - 1]));
      InsertByFreq(s[|s| - 1], SortByFreq(s[..|s| - 1]))
  }

  /** The counting loop behind `Counter(contents)`. */
  method CountSymbols(contents: string) returns (counter: Dict<char, nat>)
    ensures counter == CountOf(contents)
    ensures DistinctKeys(counter)
    ensures forall c :: HasKey(counter, c) <==> c in contents
    ensures forall c :: GetOr(counter, c, 0) == multiset(contents)[c]
  {
    counter := [];
    for i := 0 to |contents|
      invariant counter == CountOf(contents[..i])
    {
      var c := contents[i];
      assert contents[..i + 1][..i] == contents[..i];
      counter := Increment(counter, c);
    }
    assert contents[..|contents|] == contents;
    CountOfCorrect(contents);
  }

  /**
   * `get_frequency` on the file's contents: the leaves sorted by count, and the counter.
   * Every symbol of the input is the symbol of exactly one leaf, and the weights add up
   * to the length of the input.
   */
  method GetFrequency(contents: string) returns (nodes: seq<Node>, counter: Dict<char, nat>)
    ensures counter == CountOf(contents)
    ensures SortedByFreq(nodes) && multiset(nodes) == multiset(LeavesOf(counter))
    ensures AllFull(nodes)
    ensures Weight(nodes) == |contents|
    ensures forall c :: ForestSyms(nodes)[c] == if c in contents then 1 else 0
    ensures |nodes| == 0 <==> |contents| == 0
  {
    counter := CountSymbols(contents);
    nodes := SortByFreq(LeavesOf(counter));
    LeavesOfWeight(counter);
    LeavesOfSyms(counter);
    LeavesOfFull(counter);
    ForestPermutation(nodes, LeavesOf(counter));
    TotalCountOf(contents, One);
    SumOverOnes(contents);
    forall c ensures ForestSyms(nodes)[c] == if c in contents then 1 else 0 {
      KeysOnce(counter, c);
    }
    LeavesAreFull(nodes, LeavesOf(counter));
    if |contents| > 0 {
      assert contents[0] in contents;
      assert multiset(nodes) != multiset{};
    }
  }
}
