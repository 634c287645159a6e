/** Sizes of finite sets. */
module Cardinality {

  /** The `size` integers from `lo` on. */
  function Range(lo: int, size: nat): (s: set<int>)
    ensures |s| == size
    ensures forall x :: x in s <==> lo <= x < lo + size
  {
    if size == 0 then {} else Range(lo, size - 1) + {lo + size - 1}
  }

  lemma SubsetCardinality<T>(a: set<T>, b: set<T>)
    requires a <= b
    ensures |a| <= |b|
  {
    assert b == a + (b - a);
  }
}
