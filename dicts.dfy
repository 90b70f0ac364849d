/**
 * Python dictionaries as the codec uses them: insertion-ordered, an update of an
 * existing key keeps that key's position, a new key goes to the end.
 */
module Dicts {

  type Dict<K, V> = seq<(K, V)>

  function Keys<K, V>(d: Dict<K, V>): (ks: seq<K>)
    ensures |ks| == |d|
  {
    seq(|d|, i requires 0 <= i < |d| => d[i].0)
  }

  /** The position of key `k` in `d`, or `|d|` when it is absent. */
  function IndexOf<K(==), V>(d: Dict<K, V>, k: K): (r: nat)
    ensures r <= |d|
    ensures r < |d| ==> d[r].0 == k
    ensures forall j :: 0 <= j < r ==> d[j].0 != k
  {
    if d == [] then 0 else if d[0].0 == k then 0 else 1 + IndexOf(d[1..], k)
  }

  /** `k in d` */
  predicate HasKey<K(==), V>(d: Dict<K, V>, k: K) {
    IndexOf(d, k) < |d|
  }

  predicate DistinctKeys<K(==), V>(d: Dict<K, V>) {
    forall i, j :: 0 <= i < j < |d| ==> d[i].0 != d[j].0
  }

  /** `d[k]`, which the source only evaluates for a key that is present. */
  function Get<K(==), V>(d: Dict<K, V>, k: K): V
    requires HasKey(d, k)
  {
    d[IndexOf(d, k)].1
  }

  /** `d.get(k, default)` */
  function GetOr<K(==), V>(d: Dict<K, V>, k: K, default: V): V {
    if HasKey(d, k) then Get(d, k) else default
  }

  /** `d[k] = v`: replaces the value in place when `k` is present, otherwise appends. */
  function Put<K(==), V>(d: Dict<K, V>, k: K, v: V): (r: Dict<K, V>)
    ensures |r| == if HasKey(d, k) then |d| else |d| + 1
  {
    var i := IndexOf(d, k);
    if i < |d| then d[i := (k, v)] else d + [(k, v)]
  }

  lemma HasKeyIff<K, V>(d: Dict<K, V>, k: K)
    ensures HasKey(d, k) <==> exists i :: 0 <= i < |d| && d[i].0 == k
  {
  }

  /** The first position holding `k` is the one `IndexOf` finds. */
  lemma IndexOfAt<K, V>(d: Dict<K, V>, k: K, j: nat)
    requires j < |d| && d[j].0 == k
    requires forall l :: 0 <= l < j ==> d[l].0 != k
    ensures IndexOf(d, k) == j
  {
  }

  /** With distinct keys, every key is listed once. */
  lemma {:induction false} KeysOnce<K, V>(d: Dict<K, V>, k: K)
    requires DistinctKeys(d)
    ensures multiset(Keys(d))[k] == if HasKey(d, k) then 1 else 0
    decreases |d|
  {
    if d != [] {
      assert Keys(d) == [d[0].0] + Keys(d[1..]);
      KeysOnce(d[1..], k);
      if d[0].0 == k {
        assert !HasKey(d[1..], k) by {
          forall i | 0 <= i < |d| - 1 ensures d[1..][i].0 != k {
            assert d[i + 1].0 != d[0].0;
          }
        }
      } else {
        assert HasKey(d, k) <==> HasKey(d[1..], k) by {
          HasKeyIff(d, k);
          HasKeyIff(d[1..], k);
          if HasKey(d, k) {
            var i :| 0 <= i < |d| && d[i].0 == k;
            assert d[1..][i - 1].0 == k;
          }
        }
      }
    }
  }

  lemma PutProps<K, V>(d: Dict<K, V>, k: K, v: V)
    ensures HasKey(Put(d, k, v), k) && Get(Put(d, k, v), k) == v
    ensures forall x :: x != k ==> (HasKey(Put(d, k, v), x) <==> HasKey(d, x))
    ensures forall x :: x != k && HasKey(d, x) ==> Get(Put(d, k, v), x) == Get(d, x)
    ensures DistinctKeys(d) ==> DistinctKeys(Put(d, k, v))
  {
    var i := IndexOf(d, k);
    var r := Put(d, k, v);
    IndexOfAt(r, k, i);
    forall x | x != k
      ensures HasKey(r, x) <==> HasKey(d, x)
      ensures HasKey(d, x) ==> Get(r, x) == Get(d, x)
    {
      HasKeyIff(d, x);
      HasKeyIff(r, x);
      if HasKey(d, x) {
        IndexOfAt(r, x, IndexOf(d, x));
      }
    }
  }

  /** The dictionary after assigning every pair of `entries`, in order. */
  function PutAll<K(==), V>(d: Dict<K, V>, entries: seq<(K, V)>): Dict<K, V>
    decreases |entries|
  {
    if entries == [] then d else PutAll(Put(d, entries[0].0, entries[0].1), entries[1..])
  }

  /** Assigning pairs whose keys are new and distinct only appends them. */
  lemma {:induction false} PutAllFresh<K, V>(d: Dict<K, V>, entries: seq<(K, V)>)
    requires DistinctKeys(d + entries)
    ensures PutAll(d, entries) == d + entries
    decreases |entries|
  {
    if entries != [] {
      var k := entries[0].0;
      forall i | 0 <= i < |d| ensures d[i].0 != k {
        assert (d + entries)[i].0 != (d + entries)[|d|].0;
      }
      var d' := Put(d, k, entries[0].1);
      assert d' == d + [entries[0]];
      assert d' + entries[1..] == d + entries;
      PutAllFresh(d', entries[1..]);
    }
  }

  lemma PutAllDistinct<K, V>(entries: seq<(K, V)>)
    requires DistinctKeys(entries)
    ensures PutAll([], entries) == entries
  {
    assert [] + entries == entries;
    PutAllFresh([], entries);
  }
}
