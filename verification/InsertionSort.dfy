/** `upper_bound` and the insertion sort that rotates each element to its upper bound. */
module InsertionSort {
  import opened Ordering
  import opened Ranges
  import opened Rotation
  import opened Stability

  /** `upper_bound` by halving: the first position whose element is greater than `value`. */
  method UpperBound<T>(a: array<T>, first: nat, last: nat, value: T, less: (T, T) -> bool) returns (bound: nat)
    requires first <= last <= a.Length
    requires forall i, j | first <= i < j < last :: less(value, a[i]) ==> less(value, a[j])
    ensures first <= bound <= last
    ensures forall i | first <= i < bound :: !less(value, a[i])
    ensures forall i | bound <= i < last :: less(value, a[i])
  {
    bound := first;
    var count: nat := last - first;
    while count > 0
      invariant first <= bound && bound + count <= last
      invariant forall i | first <= i < bound :: !less(value, a[i])
      invariant forall i | bound + count <= i < last :: less(value, a[i])
      decreases count
    {
      var itr := bound;
      var step: nat := count / 2;
      itr := itr + step;
      if !less(value, a[itr]) {
        itr := itr + 1;
        bound := itr;
        count := count - (step + 1);
      } else {
        count := step;
      }
    }
  }

  /** Where `UpperBound` splits a sorted sequence, an element may be inserted. */
  lemma InsertSorted<T(!new)>(less: (T, T) -> bool, s: seq<T>, k: nat, v: T)
    requires StrictWeak(less) && Sorted(less, s) && k <= |s|
    requires forall i | 0 <= i < k :: !less(v, s[i])
    requires forall i | k <= i < |s| :: less(v, s[i])
    ensures Sorted(less, s[..k] + [v] + s[k..])
  {
    var t := s[..k] + [v] + s[k..];
    forall i, j | 0 <= i < j < |t| ensures !less(t[j], t[i]) {
      if i == k {
        Asymmetric(less, v, s[j - 1]);
      } else if j != k {
        var i', j' := if i < k then i else i - 1, if j < k then j else j - 1;
        assert t[i] == s[i'] && t[j] == s[j'];
      }
    }
  }

  lemma Pieces<T>(s: seq<T>, first: nat, mid: nat, end: nat, last: nat)
    requires first <= mid <= end <= last <= |s|
    ensures s[first..end] == s[..mid][first..] + s[mid..end]
    ensures s[first..last] == s[..mid][first..] + s[mid..end] + s[end..][..last - end]
    ensures s[..first] == s[..mid][..first] && s[last..] == s[end..][last - end..]
  {
  }

  lemma RotatedLast<T>(q: seq<T>, v: T)
    ensures Rotated(q + [v], |q|) == [v] + q
  {
  }

  /** Rotating the element at `itr` to `bound`, seen as an exchange of neighbouring parts. */
  lemma RoundParts<T>(before: seq<T>, after: seq<T>, first: nat, bound: nat, itr: nat, last: nat, p: seq<T>,
      q: seq<T>, rest: seq<T>)
    requires first <= bound <= itr < last <= |before|
    requires Replaced(before, after, bound, itr + 1, Rotated(before[bound..itr + 1], itr - bound))
    requires p == before[first..bound] && q == before[bound..itr] && rest == before[itr + 1..last]
    ensures |after| == |before| && after[..first] == before[..first] && after[last..] == before[last..]
    ensures before[first..last] == p + q + [before[itr]] + rest && before[first..itr] == p + q
    ensures after[first..last] == p + [before[itr]] + q + rest && after[first..itr + 1] == p + [before[itr]] + q
  {
    hide Replaced, Rotated;
    assert before[bound..itr + 1] == q + [before[itr]];
    RotatedLast(q, before[itr]);
    ReplacedRange(before, after, bound, itr + 1, [before[itr]] + q);
    Pieces(before, first, bound, itr + 1, last);
    Pieces(after, first, bound, itr + 1, last);
    assert before[..bound][first..] == p && before[itr + 1..][..last - itr - 1] == rest;
  }

  /** One round of the insertion sort: the element at `itr` goes to its upper bound. */
  lemma Round<T(!new)>(less: (T, T) -> bool, before: seq<T>, after: seq<T>, first: nat, bound: nat, itr: nat, last: nat)
    requires StrictWeak(less) && first <= bound <= itr < last <= |before|
    requires Sorted(less, before[first..itr])
    requires forall i | first <= i < bound :: !less(before[itr], before[i])
    requires forall i | bound <= i < itr :: less(before[itr], before[i])
    requires Replaced(before, after, bound, itr + 1, Rotated(before[bound..itr + 1], itr - bound))
    ensures Sorted(less, after[first..itr + 1])
    ensures Stable(less, before[first..last], after[first..last])
    ensures after[..first] == before[..first] && after[last..] == before[last..]
  {
    hide StrictWeak, Sorted, Stable, Replaced, Rotated;
    var p, q, rest := before[first..bound], before[bound..itr], before[itr + 1..last];
    RoundParts(before, after, first, bound, itr, last, p, q, rest);
    assert (p + q)[..|p|] == p && (p + q)[|p|..] == q;
    InsertSorted(less, p + q, |p|, before[itr]);
    StableMove(less, p, q, before[itr], rest);
  }

  /** `insertion_sort` */
  method InsertionSort<T(!new)>(a: array<T>, first: nat, last: nat, less: (T, T) -> bool, cat: Category, cpp20: bool)
    requires StrictWeak(less) && first <= last <= a.Length
    modifies a
    ensures Sorted(less, a[first..last])
    ensures Stable(less, old(a[first..last]), a[first..last])
    ensures a[..first] == old(a[..first]) && a[last..] == old(a[last..])
  {
    hide StrictWeak, Sorted, Stable, Replaced, Rotated;
    ghost var start := a[..];
    assert a[first..last] == start[first..last];
    NothingSorted(less, a[first..first], []);
    StableSame(less, start[first..last]);
    for itr := first to last
      invariant Sorted(less, a[..][first..itr])
      invariant Stable(less, start[first..last], a[..][first..last])
      invariant a[..][..first] == start[..first] && a[..][last..] == start[last..]
    {
      ghost var s := a[..];
      SortedBound(less, s, first, itr);
      var bound := UpperBound(a, first, itr, a[itr], less);
      var _ := Rotate(a, bound, itr, itr + 1, cat, cpp20);
      Round(less, s, a[..], first, bound, itr, last);
      StableAgain(less, start[first..last], s[first..last], a[..][first..last]);
    }
  }

  lemma StableSame<T(!new)>(less: (T, T) -> bool, s: seq<T>)
    ensures Stable(less, s, s)
  {
  }

  /** A sorted range is split by every value into a part not above it and a part above it. */
  lemma SortedBound<T(!new)>(less: (T, T) -> bool, s: seq<T>, first: nat, last: nat)
    requires StrictWeak(less) && first <= last <= |s| && Sorted(less, s[first..last])
    ensures forall v, i, j | first <= i < j < last :: less(v, s[i]) ==> less(v, s[j])
  {
    forall v, i, j | first <= i < j < last && less(v, s[i]) ensures less(v, s[j]) {
      assert !less(s[first..last][j - first], s[first..last][i - first]);
      LessThenNotLess(less, v, s[i], s[j]);
    }
  }
}
