/**
 The ordering contract the sorting code relies on. The comparator is the
 boolean "strictly less than" predicate that `selection_sort` calls as
 `compare(x, y)`; the code never checks it, so every correctness result
 below is stated under hypotheses on it.
 */
module Comparator {

  /** No element is strictly less than itself. */
  ghost predicate Irreflexive<T(!new)>(less: (T, T) -> bool) {
    forall x :: !less(x, x)
  }

  ghost predicate Transitive<T(!new)>(less: (T, T) -> bool) {
    forall x, y, z :: less(x, y) && less(y, z) ==> less(x, z)
  }

  /** Neither less than the other. */
  predicate Incomparable<T>(less: (T, T) -> bool, x: T, y: T) {
    !less(x, y) && !less(y, x)
  }

  ghost predicate IncomparabilityTransitive<T(!new)>(less: (T, T) -> bool) {
    forall x, y, z :: Incomparable(less, x, y) && Incomparable(less, y, z) ==> Incomparable(less, x, z)
  }

  /** What sortedness and the minimum scan need. */
  ghost predicate StrictOrder<T(!new)>(less: (T, T) -> bool) {
    Irreflexive(less) && Transitive(less)
  }

  /** The contract a well-behaved comparator meets. */
  ghost predicate StrictWeakOrder<T(!new)>(less: (T, T) -> bool) {
    StrictOrder(less) && IncomparabilityTransitive(less)
  }

  /** Sorted under `less`: no later element is strictly less than an earlier one. */
  ghost predicate Sorted<T>(s: seq<T>, less: (T, T) -> bool) {
    forall i, j :: 0 <= i < j < |s| ==> !less(s[j], s[i])
  }

  /**
   Negative transitivity of a strict weak order: if `x` is below `y` and `z`
   is not below `y`, then `x` is below `z`.
   */
  lemma LessThroughNotLess<T(!new)>(less: (T, T) -> bool, x: T, y: T, z: T)
    requires StrictWeakOrder(less)
    requires less(x, y) && !less(z, y)
    ensures less(x, z)
  {
    assert Incomparable(less, x, z) && Incomparable(less, z, y) ==> Incomparable(less, x, y);
  }
}
