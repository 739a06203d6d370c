/** What the sorting algorithms ask of their comparison. */
module Ordering {

  /** A strict weak order, section 25.8 [alg.sorting] of ISO/IEC 14882:2020. */
  ghost predicate StrictWeak<T(!new)>(less: (T, T) -> bool) {
    && (forall x :: !less(x, x))
    && (forall x, y, z :: less(x, y) && less(y, z) ==> less(x, z))
    && (forall x, y, z :: Equivalent(less, x, y) && Equivalent(less, y, z) ==> Equivalent(less, x, z))
  }

  predicate Equivalent<T>(less: (T, T) -> bool, x: T, y: T) {
    !less(x, y) && !less(y, x)
  }

  lemma NotLessTransitive<T(!new)>(less: (T, T) -> bool, x: T, y: T, z: T)
    requires StrictWeak(less) && !less(x, y) && !less(y, z)
    ensures !less(x, z)
  {
    assert less(x, z) && less(z, y) ==> less(x, y);
    assert less(y, x) && less(x, z) ==> less(y, z);
    assert Equivalent(less, x, y) && Equivalent(less, y, z) ==> Equivalent(less, x, z);
  }

  lemma Asymmetric<T(!new)>(less: (T, T) -> bool, x: T, y: T)
    requires StrictWeak(less) && less(x, y)
    ensures !less(y, x)
  {
    assert less(x, y) && less(y, x) ==> less(x, x);
  }

  lemma LessThenNotLess<T(!new)>(less: (T, T) -> bool, x: T, y: T, z: T)
    requires StrictWeak(less) && less(x, y) && !less(z, y)
    ensures less(x, z)
  {
    if !less(x, z) {
      NotLessTransitive(less, x, z, y);
    }
  }

  /** No later element is less than an earlier one. */
  ghost predicate Sorted<T>(less: (T, T) -> bool, s: seq<T>) {
    forall i, j | 0 <= i < j < |s| :: !less(s[j], s[i])
  }

  /** No element of `s` is greater than any of `t`. */
  ghost predicate AtMost<T>(less: (T, T) -> bool, s: seq<T>, t: seq<T>) {
    forall x, y | x in s && y in t :: !less(y, x)
  }

  lemma NothingSorted<T>(less: (T, T) -> bool, nothing: seq<T>, s: seq<T>)
    requires nothing == []
    ensures Sorted(less, nothing) && AtMost(less, s, nothing)
  {
  }

  /** It is enough to compare neighbours. */
  lemma {:induction false} NeighboursSorted<T(!new)>(less: (T, T) -> bool, s: seq<T>)
    requires StrictWeak(less) && forall i | 0 <= i < |s| - 1 :: !less(s[i + 1], s[i])
    ensures Sorted(less, s)
  {
    forall i, j | 0 <= i < j < |s| ensures !less(s[j], s[i]) {
      Reach(less, s, i, j);
    }
  }

  lemma {:induction false} Reach<T(!new)>(less: (T, T) -> bool, s: seq<T>, i: nat, j: nat)
    requires StrictWeak(less) && i < j < |s|
    requires forall k | 0 <= k < |s| - 1 :: !less(s[k + 1], s[k])
    ensures !less(s[j], s[i])
  {
    assert !less(s[j - 1 + 1], s[j - 1]);
    if i < j - 1 {
      Reach(less, s, i, j - 1);
      NotLessTransitive(less, s[j], s[j - 1], s[i]);
    }
  }
}
