/** Counting facts about finite sets of integers, shared by the trie and
    the hash table. */
module Cardinality {

  /** A set of integers within `[0, n)` has at most `n` members. */
  lemma {:induction false} RangeCard(ids: set<int>, n: nat)
    requires forall q :: q in ids ==> 0 <= q < n
    ensures |ids| <= n
    decreases n
  {
    if n > 0 {
      RangeCard(ids - {n - 1}, n - 1);
    } else {
      assert ids == {} by {
        forall q | q in ids ensures false {}
      }
    }
  }
}
