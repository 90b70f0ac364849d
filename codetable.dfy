/**
 * The code table: the depth-first walk of `generate_table` (main.py), and what it
 * guarantees about the codes.
 */
module CodeTable {
  import opened Wrappers
  import opened Dicts
  import opened HuffmanTree

  /** A string over '0' and '1'. */
  predicate IsBinary(s: string) {
    forall i :: 0 <= i < |s| ==> s[i] == '0' || s[i] == '1'
  }

  /** No code is a prefix of another entry's code (nor equal to it). */
  predicate PrefixFree(d: Dict<char, string>) {
    forall i, j :: 0 <= i < |d| && 0 <= j < |d| && i != j ==> !(d[i].1 <= d[j].1)
  }

  /** Every code starts with `p`. */
  predicate Extends(d: Dict<char, string>, p: string) {
    forall i :: 0 <= i < |d| ==> p <= d[i].1
  }

  /** A table the decoder can use: one code per symbol, binary, non-empty, prefix-free. */
  predicate WellFormedTable(d: Dict<char, string>) {
    && DistinctKeys(d)
    && PrefixFree(d)
    && forall i :: 0 <= i < |d| ==> IsBinary(d[i].1) && |d[i].1| > 0
  }

  /**
   * The (symbol, code) pairs that `dfs` records below `t` when called with `prefix`,
   * in the order it records them: a node with a symbol records its path and stops,
   * otherwise the walk goes left with '0' and then right with '1'.
   */
  function Paths(t: Option<Node>, prefix: string): Dict<char, string> {
    match t
    case None => []
    case Some(n) =>
      if n.symbol.Some? then [(n.symbol.value, prefix)]
      else Paths(n.left, prefix + "0") + Paths(n.right, prefix + "1")
  }

  /** The symbol reached by following `q` from `t` ('0' left, '1' right), if `q` ends at a leaf. */
  function Follow(t: Option<Node>, q: string): Option<char> {
    match t
    case None => None
    case Some(n) =>
      if n.symbol.Some? then (if q == [] then n.symbol else None)
      else if q == [] then None
      else if q[0] == '0' then Follow(n.left, q[1..])
      else if q[0] == '1' then Follow(n.right, q[1..])
      else None
  }

  /** The symbols of the tree's leaves are each distinct. */
  predicate DistinctLeaves(t: Node) {
    forall c :: LeafSyms(Some(t))[c] <= 1
  }

  // ---- the walk --------------------------------------------------------------------

  lemma {:induction false} PutAllAppend<K, V>(d: Dict<K, V>, a: seq<(K, V)>, b: seq<(K, V)>)
    ensures PutAll(d, a + b) == PutAll(PutAll(d, a), b)
    decreases |a|
  {
    if a != [] {
      assert (a + b)[0] == a[0] && (a + b)[1..] == a[1..] + b;
      PutAllAppend(Put(d, a[0].0, a[0].1), a[1..], b);
    } else {
      assert a + b == b;
    }
  }

  /** `dfs(root, prefix)`, recording into `table` and handing the table back. */
  method Dfs(root: Option<Node>, prefix: string, table: Dict<char, string>)
    returns (table': Dict<char, string>)
    ensures table' == PutAll(table, Paths(root, prefix))
    decreases root
  {
    if root.None? {
      return table;
    }
    var n := root.value;
    if n.symbol.Some? {
      return Put(table, n.symbol.value, prefix);
    }
    var t1 := Dfs(n.left, prefix + "0", table);
    table' := Dfs(n.right, prefix + "1", t1);
    PutAllAppend(table, Paths(n.left, prefix + "0"), Paths(n.right, prefix + "1"));
  }

  /**
   * `generate_table`: the walk from the root with the empty prefix. When the leaf
   * symbols are distinct, the table is exactly the list of root-to-leaf paths.
   */
  method GenerateTable(tree: Node) returns (table: Dict<char, string>)
    ensures table == PutAll([], Paths(Some(tree), ""))
    ensures DistinctLeaves(tree) ==> table == Paths(Some(tree), "")
  {
    table := Dfs(Some(tree), "", []);
    if DistinctLeaves(tree) {
      PathsDistinct(tree);
      PutAllDistinct(Paths(Some(tree), ""));
    }
  }

  // ---- what the walk guarantees ---------------------------------------------------------

  /** The walk lists each leaf symbol as often as the tree holds it. */
  lemma {:induction false} PathsKeys(t: Option<Node>, p: string)
    ensures multiset(Keys(Paths(t, p))) == LeafSyms(t)
    decreases t
  {
    if t.Some? && t.value.symbol.None? {
      var n := t.value;
      var a, b := Paths(n.left, p + "0"), Paths(n.right, p + "1");
      PathsKeys(n.left, p + "0");
      PathsKeys(n.right, p + "1");
      KeysAppend(a, b);
      calc {
        multiset(Keys(Paths(t, p)));
        multiset(Keys(a) + Keys(b));
        multiset(Keys(a)) + multiset(Keys(b));
      }
    } else if t.Some? {
      assert Keys(Paths(t, p)) == [t.value.symbol.value];
    } else {
      assert Keys(Paths(t, p)) == [];
    }
  }

  lemma KeysAppend<K, V>(a: Dict<K, V>, b: Dict<K, V>)
    ensures Keys(a + b) == Keys(a) + Keys(b)
  {
  }

  lemma DistinctFromCounts<K, V>(d: Dict<K, V>)
    requires forall k :: multiset(Keys(d))[k] <= 1
    ensures DistinctKeys(d)
  {
    forall i, j | 0 <= i < j < |d| ensures d[i].0 != d[j].0 {
      var ks := Keys(d);
      assert ks == ks[..j] + [ks[j]] + ks[j + 1..];
      assert ks[i] in ks[..j];
      assert multiset(ks)[ks[j]] >= multiset(ks[..j])[ks[j]] + 1;
    }
  }

  lemma PathsDistinct(tree: Node)
    requires DistinctLeaves(tree)
    ensures DistinctKeys(Paths(Some(tree), ""))
  {
    PathsKeys(Some(tree), "");
    DistinctFromCounts(Paths(Some(tree), ""));
  }

  /** Every code extends the prefix, is binary when the prefix is, and is longer below an internal node. */
  lemma {:induction false} PathsExtend(t: Option<Node>, p: string)
    ensures Extends(Paths(t, p), p)
    ensures IsBinary(p) ==> forall i :: 0 <= i < |Paths(t, p)| ==> IsBinary(Paths(t, p)[i].1)
    ensures t.Some? && t.value.symbol.None? ==>
              forall i :: 0 <= i < |Paths(t, p)| ==> |Paths(t, p)[i].1| > |p|
    decreases t
  {
    if t.Some? && t.value.symbol.None? {
      var n := t.value;
      PathsExtend(n.left, p + "0");
      PathsExtend(n.right, p + "1");
      var a, b := Paths(n.left, p + "0"), Paths(n.right, p + "1");
      var d: Dict<char, string> := a + b;
      forall i | 0 <= i < |d|
        ensures p <= d[i].1 && |d[i].1| > |p|
        ensures IsBinary(p) ==> IsBinary(d[i].1)
      {
        if i < |a| {
          assert d[i] == a[i];
          assert p + "0" <= a[i].1;
        } else {
          assert d[i] == b[i - |a|];
          assert p + "1" <= b[i - |a|].1;
        }
      }
    }
  }

  /** Codes under the '0' branch and codes under the '1' branch are never prefixes of each other. */
  lemma Diverge(a: string, b: string, p: string)
    requires p + "0" <= a && p + "1" <= b
    ensures !(a <= b) && !(b <= a)
  {
    assert a[|p|] == '0' && b[|p|] == '1';
  }

  /** The table the walk records is prefix-free: recursion stops at the leaves. */
  lemma {:induction false} PathsPrefixFree(t: Option<Node>, p: string)
    ensures PrefixFree(Paths(t, p))
    decreases t
  {
    if t.Some? && t.value.symbol.None? {
      var n := t.value;
      var a, b := Paths(n.left, p + "0"), Paths(n.right, p + "1");
      PathsPrefixFree(n.left, p + "0");
      PathsPrefixFree(n.right, p + "1");
      PathsExtend(n.left, p + "0");
      PathsExtend(n.right, p + "1");
      var d := a + b;
      forall i, j | 0 <= i < |d| && 0 <= j < |d| && i != j ensures !(d[i].1 <= d[j].1) {
        if i < |a| && j < |a| {
          assert d[i] == a[i] && d[j] == a[j];
        } else if i >= |a| && j >= |a| {
          assert d[i] == b[i - |a|] && d[j] == b[j - |a|];
        } else if i < |a| {
          Diverge(a[i].1, b[j - |a|].1, p);
        } else {
          Diverge(a[j].1, b[i - |a|].1, p);
        }
      }
    }
  }

  /** Each recorded code, after the prefix, is a path from `t` to a leaf with that symbol. */
  lemma {:induction false} PathsFollow(t: Option<Node>, p: string, i: nat)
    requires i < |Paths(t, p)|
    ensures p <= Paths(t, p)[i].1
    ensures Follow(t, Paths(t, p)[i].1[|p|..]) == Some(Paths(t, p)[i].0)
    decreases t
  {
    PathsExtend(t, p);
    var n := t.value;
    if n.symbol.None? {
      var a, b := Paths(n.left, p + "0"), Paths(n.right, p + "1");
      if i < |a| {
        assert Paths(t, p)[i] == a[i];
        PathsFollow(n.left, p + "0", i);
        PathsExtend(n.left, p + "0");
        var code := a[i].1;
        assert code[|p|..][1..] == code[|p| + 1..];
        assert code[|p|] == '0';
      } else {
        assert Paths(t, p)[i] == b[i - |a|];
        PathsFollow(n.right, p + "1", i - |a|);
        PathsExtend(n.right, p + "1");
        var code := b[i - |a|].1;
        assert code[|p|..][1..] == code[|p| + 1..];
        assert code[|p|] == '1';
      }
    }
  }

  /** Every path from `t` to a leaf is recorded, with the symbol of that leaf. */
  lemma {:induction false} FollowPaths(t: Option<Node>, p: string, q: string)
    requires Follow(t, q).Some?
    ensures (Follow(t, q).value, p + q) in Paths(t, p)
    decreases t
  {
    var n := t.value;
    if n.symbol.Some? {
      assert p + q == p;
    } else {
      var a, b := Paths(n.left, p + "0"), Paths(n.right, p + "1");
      assert p + q == (p + [q[0]]) + q[1..];
      if q[0] == '0' {
        FollowPaths(n.left, p + "0", q[1..]);
      } else {
        FollowPaths(n.right, p + "1", q[1..]);
      }
    }
  }

  /**
   * A tree with distinct leaf symbols and an internal root gives a table the decoder can
   * use, whose symbols are exactly the leaf symbols.
   */
  lemma TreeTable(tree: Node)
    requires DistinctLeaves(tree) && tree.symbol.None?
    ensures WellFormedTable(Paths(Some(tree), ""))
    ensures forall c :: HasKey(Paths(Some(tree), ""), c) <==> c in LeafSyms(Some(tree))
  {
    var d := Paths(Some(tree), "");
    PathsDistinct(tree);
    PathsPrefixFree(Some(tree), "");
    PathsExtend(Some(tree), "");
    PathsKeys(Some(tree), "");
    forall c ensures HasKey(d, c) <==> c in LeafSyms(Some(tree)) {
      KeysOnce(d, c);
    }
  }

  /** One distinct symbol: the root has only a left child, so the table is `{c: "0"}`. */
  lemma SingleSymbolTable(leaf: Node, c: char)
    requires leaf.symbol == Some(c)
    ensures Paths(Some(Node(leaf.freq, None, Some(leaf), None)), "") == [(c, "0")]
  {
    assert "" + "0" == "0";
  }
}
