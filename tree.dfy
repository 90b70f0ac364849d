/**
 * The prefix tree and the greedy builder (`Node` and `generate_tree`, main.py).
 */
module HuffmanTree {
  import opened Wrappers

  /**
   * A tree node. Leaves carry a symbol (`symbol`, the original `char`), internal nodes carry children. Node
   * ordering in the original compares `freq` only.
   */
  datatype Node = Node(freq: nat, symbol: Option<char>, left: Option<Node>, right: Option<Node>)

  function Leaf(freq: nat, c: char): Node {
    Node(freq, Some(c), None, None)
  }

  /**
   * The shape the merge loop produces: a leaf, or an internal node with both children,
   * whose weight is the sum of theirs and whose lighter child is on the left.
   */
  predicate Full(n: Node) {
    match n
    case Node(_, Some(_), None, None) => true
    case Node(f, None, Some(l), Some(r)) => f == l.freq + r.freq && l.freq <= r.freq && Full(l) && Full(r)
    case _ => false
  }

  /** Every tree in the work list has the merge loop's shape. */
  predicate AllFull(s: seq<Node>) {
    forall i :: 0 <= i < |s| ==> Full(s[i])
  }

  /** The symbols of the leaves below `t`, a node with a symbol being a leaf. */
  function LeafSyms(t: Option<Node>): multiset<char> {
    match t
    case None => multiset{}
    case Some(n) =>
      if n.symbol.Some? then multiset{n.symbol.value} else LeafSyms(n.left) + LeafSyms(n.right)
  }

  /** The total weight of a work list. */
  function Weight(s: seq<Node>): nat {
    if s == [] then 0 else s[0].freq + Weight(s[1..])
  }

  /** The leaf symbols of all trees of a work list. */
  function ForestSyms(s: seq<Node>): multiset<char> {
    if s == [] then multiset{} else LeafSyms(Some(s[0])) + ForestSyms(s[1..])
  }

  lemma {:induction false} ForestAppend(a: seq<Node>, b: seq<Node>)
    ensures Weight(a + b) == Weight(a) + Weight(b)
    ensures ForestSyms(a + b) == ForestSyms(a) + ForestSyms(b)
    decreases |a|
  {
    if a == [] {
      assert a + b == b;
    } else {
      assert (a + b)[1..] == a[1..] + b;
      ForestAppend(a[1..], b);
    }
  }

  /** `s` without its element at position `k`. */
  function RemoveAt(s: seq<Node>, k: nat): (r: seq<Node>)
    requires k < |s|
    ensures |r| == |s| - 1
    ensures forall j :: 0 <= j < k ==> r[j] == s[j]
    ensures forall j :: k <= j < |r| ==> r[j] == s[j + 1]
    ensures multiset(r) + multiset{s[k]} == multiset(s)
  {
    assert s == s[..k] + [s[k]] + s[k + 1..];
    s[..k] + s[k + 1..]
  }

  lemma {:induction false} RemoveAtSums(s: seq<Node>, k: nat)
    requires k < |s|
    ensures Weight(s) == s[k].freq + Weight(RemoveAt(s, k))
    ensures ForestSyms(s) == LeafSyms(Some(s[k])) + ForestSyms(RemoveAt(s, k))
  {
    assert s == s[..k] + ([s[k]] + s[k + 1..]);
    ForestAppend(s[..k], [s[k]] + s[k + 1..]);
    ForestAppend(s[..k], s[k + 1..]);
    assert ([s[k]] + s[k + 1..])[1..] == s[k + 1..];
  }

  /**
   * One round of the merge loop: the work list without positions `k1` and then `k2`,
   * plus the merged node, keeps its weight, its leaf symbols and its shape.
   */
  lemma {:induction false} MergeStep(heap: seq<Node>, k1: nat, k2: nat)
    requires k1 < |heap| && k2 < |heap| - 1
    requires forall j :: 0 <= j < |heap| ==> heap[k1].freq <= heap[j].freq
    ensures var rest := RemoveAt(heap, k1);
            var merged := Node(heap[k1].freq + rest[k2].freq, None, Some(heap[k1]), Some(rest[k2]));
            var next := RemoveAt(rest, k2) + [merged];
            && Weight(next) == Weight(heap)
            && ForestSyms(next) == ForestSyms(heap)
            && (AllFull(heap) ==> AllFull(next))
  {
    var rest := RemoveAt(heap, k1);
    var b1, b2 := heap[k1], rest[k2];
    var merged := Node(b1.freq + b2.freq, None, Some(b1), Some(b2));
    var rest2 := RemoveAt(rest, k2);
    RemoveAtSums(heap, k1);
    RemoveAtSums(rest, k2);
    ForestAppend(rest2, [merged]);
    assert Weight([merged]) == merged.freq;
    assert ForestSyms([merged]) == LeafSyms(Some(merged));
    if AllFull(heap) {
      assert b1.freq <= b2.freq by {
        if k2 < k1 { assert b2 == heap[k2]; } else { assert b2 == heap[k2 + 1]; }
      }
      assert AllFull(rest);
      assert AllFull(rest2);
    }
  }

  /** Weight and leaf symbols of a work list do not depend on its order. */
  lemma {:induction false} ForestPermutation(a: seq<Node>, b: seq<Node>)
    requires multiset(a) == multiset(b)
    ensures Weight(a) == Weight(b) && ForestSyms(a) == ForestSyms(b)
    decreases |a|
  {
    if a != [] {
      assert a == [a[0]] + a[1..];
      assert multiset(a) == multiset{a[0]} + multiset(a[1..]);
      assert a[0] in multiset(b);
      var k :| 0 <= k < |b| && b[k] == a[0];
      var b' := RemoveAt(b, k);
      assert multiset(b') == multiset(b) - multiset{b[k]};
      assert multiset(a[1..]) == multiset(a) - multiset{a[0]};
      ForestPermutation(a[1..], b');
      RemoveAtSums(b, k);
    } else {
      assert b == [];
    }
  }

  /**
   * `heapq.heappop` modelled as extract-minimum: the position of the first node of
   * least weight.
   */
  function MinIndex(s: seq<Node>): (k: nat)
    requires |s| > 0
    ensures k < |s|
    ensures forall j :: 0 <= j < |s| ==> s[k].freq <= s[j].freq
  {
    if |s| == 1 then 0
    else
      var k := MinIndex(s[1..]) + 1;
      if s[0].freq <= s[k].freq then 0 else k
  }

  /**
   * `generate_tree`: merges the two lightest nodes of the work list until one is left.
   * A single node is wrapped under a root with only a left child; an empty list fails
   * on `frequency[0]`.
   */
  method GenerateTree(frequency: seq<Node>) returns (r: Result<Node>)
    ensures r.Err? <==> |frequency| == 0
    ensures r.Err? ==> r.error == IndexError
    ensures r.Ok? ==> r.value.freq == Weight(frequency)
    ensures r.Ok? ==> LeafSyms(Some(r.value)) == ForestSyms(frequency)
    ensures |frequency| == 1 ==> r == Ok(Node(frequency[0].freq, None, Some(frequency[0]), None))
    ensures |frequency| >= 2 && AllFull(frequency) ==>
              r.Ok? && Full(r.value) && r.value.symbol.None?
  {
    if |frequency| == 1 {
      assert frequency == [frequency[0]] + [];
      return Ok(Node(frequency[0].freq, None, Some(frequency[0]), None));
    }
    var heap := frequency;
    ghost var merges := 0;
    while |heap| > 1
      invariant |heap| + merges == |frequency|
      invariant |frequency| >= 1 ==> |heap| >= 1
      invariant Weight(heap) == Weight(frequency)
      invariant ForestSyms(heap) == ForestSyms(frequency)
      invariant AllFull(frequency) ==> AllFull(heap)
      invariant merges > 0 ==> heap != [] && heap[|heap| - 1].symbol.None?
      decreases |heap|
    {
      var k1 := MinIndex(heap);
      var bottom1 := heap[k1];
      var rest := RemoveAt(heap, k1);
      var k2 := MinIndex(rest);
      var bottom2 := rest[k2];
      MergeStep(heap, k1, k2);
      heap := RemoveAt(rest, k2) + [Node(bottom1.freq + bottom2.freq, None, Some(bottom1), Some(bottom2))];
      merges := merges + 1;
    }
    if |heap| == 0 {
      return Err(IndexError);
    }
    assert heap == [heap[0]];
    r := Ok(heap[0]);
  }
}
