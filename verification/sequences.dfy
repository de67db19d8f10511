/** Generic facts about sequences of records: keys that are pairwise distinct, and removal of one position. */
module Sequences {

  /** No two positions of `xs` carry the same key: what a unique column guarantees of a table. */
  predicate DistinctBy<T, K(==)>(xs: seq<T>, key: T -> K) {
    forall i, j :: 0 <= i < j < |xs| ==> key(xs[i]) != key(xs[j])
  }

  /** `xs` without its element at position `k`; everything else keeps its order. */
  function RemoveAt<T>(xs: seq<T>, k: nat): (r: seq<T>)
    requires k < |xs|
    ensures |r| == |xs| - 1
    ensures forall i :: 0 <= i < k ==> r[i] == xs[i]
    ensures forall i :: k <= i < |r| ==> r[i] == xs[i + 1]
  {
    xs[..k] + xs[k + 1..]
  }

  /** Appending an element whose key is new keeps the keys distinct. */
  lemma DistinctByAppend<T, K>(xs: seq<T>, x: T, key: T -> K)
    requires DistinctBy(xs, key)
    requires forall i :: 0 <= i < |xs| ==> key(xs[i]) != key(x)
    ensures DistinctBy(xs + [x], key)
  {
    var ys := xs + [x];
    forall i, j | 0 <= i < j < |ys|
      ensures key(ys[i]) != key(ys[j])
    {
      if j < |xs| {
        assert ys[i] == xs[i] && ys[j] == xs[j];
      } else {
        assert ys[i] == xs[i] && ys[j] == x;
      }
    }
  }

  /** Removing one position keeps the keys distinct. */
  lemma DistinctByRemoveAt<T, K>(xs: seq<T>, k: nat, key: T -> K)
    requires k < |xs|
    requires DistinctBy(xs, key)
    ensures DistinctBy(RemoveAt(xs, k), key)
  {
    var r := RemoveAt(xs, k);
    forall i, j | 0 <= i < j < |r|
      ensures key(r[i]) != key(r[j])
    {
      var i' := if i < k then i else i + 1;
      var j' := if j < k then j else j + 1;
      assert r[i] == xs[i'] && r[j] == xs[j'];
    }
  }
}
