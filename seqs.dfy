/**
 * Two facts about sequences that the loop and induction proofs use to peel off the
 * last element.
 */
module Seqs {
  lemma TakeLast<T>(s: seq<T>, j: nat)
    requires 0 < j <= |s|
    ensures s[..j] == s[..j - 1] + [s[j - 1]]
  {
  }

  lemma AppendLast<T>(a: seq<T>, s: seq<T>)
    requires s != []
    ensures a + s[..|s| - 1] + [s[|s| - 1]] == a + s
  {
    assert s == s[..|s| - 1] + [s[|s| - 1]];
  }
}
