/** The shell sort, whose inner loop never stops early. */
module ShellSort {
  import opened Ordering
  import opened Ranges

  /** Neighbours at distance `gap` are in order, as far as `end`. */
  ghost predicate GapSorted<T>(less: (T, T) -> bool, s: seq<T>, gap: nat, end: nat) {
    forall p: nat | p + gap < end <= |s| :: !less(s[p + gap], s[p])
  }

  /** The same except for the pair at `k`, across which the order holds. */
  ghost predicate GapBut<T>(less: (T, T) -> bool, s: seq<T>, gap: nat, end: nat, k: int) {
    && end <= |s|
    && (forall p: nat | p + gap < end && p != k :: !less(s[p + gap], s[p]))
    && (0 <= k && k + 2 * gap < end ==> !less(s[k + 2 * gap], s[k]))
  }

  lemma BubbleStep<T(!new)>(less: (T, T) -> bool, s: seq<T>, gap: nat, end: nat, k: nat)
    requires StrictWeak(less) && gap > 0 && k + gap < end && GapBut(less, s, gap, end, k)
    ensures less(s[k + gap], s[k]) ==> GapBut(less, Swapped(s, k, k + gap), gap, end, k - gap)
    ensures !less(s[k + gap], s[k]) ==> GapBut(less, s, gap, end, k - gap)
  {
    var low := k - gap;
    if less(s[k + gap], s[k]) {
      var t := Swapped(s, k, k + gap);
      Asymmetric(less, s[k + gap], s[k]);
      forall p: nat | p + gap < end && p != low ensures !less(t[p + gap], t[p]) {
        if p == k + gap {
          assert !less(s[k + 2 * gap], s[k]);
        } else if p != k {
          assert !less(s[p + gap], s[p]);
        }
      }
      if low >= 0 {
        assert !less(s[low + gap], s[low]);
      }
    } else if low >= 0 {
      assert !less(s[low + gap], s[low]);
      NotLessTransitive(less, s[k + gap], s[k], s[low]);
    }
  }

  lemma GapStart<T>(less: (T, T) -> bool, s: seq<T>, gap: nat, j: nat)
    requires 0 < gap <= j < |s| && GapSorted(less, s, gap, j)
    ensures GapBut(less, s, gap, j + 1, j - gap)
  {
  }

  lemma GapEnd<T>(less: (T, T) -> bool, s: seq<T>, gap: nat, end: nat, k: int)
    requires GapBut(less, s, gap, end, k) && k < 0
    ensures GapSorted(less, s, gap, end)
  {
  }

  lemma OneGap<T(!new)>(less: (T, T) -> bool, s: seq<T>)
    requires StrictWeak(less) && GapSorted(less, s, 1, |s|)
    ensures Sorted(less, s)
  {
    forall i | 0 <= i < |s| - 1 ensures !less(s[i + 1], s[i]) {
      var p: nat := i;
      assert !less(s[p + 1], s[p]);
    }
    NeighboursSorted(less, s);
  }

  /** The innermost loop: every pair at distance `gap` down from `j` is compared, and exchanged where out of order. */
  method Bubble<T(!new)>(a: array<T>, first: nat, last: nat, gap: nat, j: nat, less: (T, T) -> bool)
    requires StrictWeak(less) && first <= last <= a.Length && 0 < gap <= j < last - first
    requires GapSorted(less, a[first..last], gap, j)
    modifies a
    ensures GapSorted(less, a[first..last], gap, j + 1)
    ensures Rearranged(old(a[..]), a[..], first, last)
  {
    hide StrictWeak, GapSorted, GapBut, Rearranged, Swapped;
    GapStart(less, a[first..last], gap, j);
    RearrangedSame(a[..], first, last);
    var k := j - gap;
    while k >= 0
      invariant k <= j - gap
      invariant GapBut(less, a[..][first..last], gap, j + 1, k)
      invariant Rearranged(old(a[..]), a[..], first, last)
    {
      ghost var s := a[..];
      BubbleStep(less, s[first..last], gap, j + 1, k);
      if less(a[first + k + gap], a[first + k]) {
        Swap(a, first + k, first + k + gap);
        SwappedRange(s, first, last, k, k + gap);
        SwapKeeps(old(a[..]), s, first + k, first + k + gap, first, last);
      }
      k := k - gap;
    }
    GapEnd(less, a[..][first..last], gap, j + 1, k);
    assert a[..][first..last] == a[first..last];
  }

  lemma ShortSorted<T>(less: (T, T) -> bool, s: seq<T>)
    requires |s| <= 1
    ensures Sorted(less, s)
  {
  }

  /** `shell_sort`: only the last round, with neighbours one apart, decides the order. */
  method Sort<T(!new)>(a: array<T>, first: nat, last: nat, less: (T, T) -> bool)
    requires StrictWeak(less) && first <= last <= a.Length
    modifies a
    ensures Sorted(less, a[first..last])
    ensures Rearranged(old(a[..]), a[..], first, last)
  {
    hide StrictWeak, GapSorted, Rearranged, Sorted;
    RearrangedSame(a[..], first, last);
    var n: nat := last - first;
    if n <= 1 {
      ShortSorted(less, a[first..last]);
    }
    if first == last {
      return;
    }
    var i: nat := n / 2;
    while i > 0
      invariant Rearranged(old(a[..]), a[..], first, last)
      invariant i == 0 ==> Sorted(less, a[first..last])
    {
      NoGap(less, a[first..last], i);
      for j := i to n
        invariant Rearranged(old(a[..]), a[..], first, last)
        invariant i <= n && GapSorted(less, a[first..last], i, j)
      {
        ghost var s := a[..];
        Bubble(a, first, last, i, j, less);
        RearrangedAgain(old(a[..]), s, a[..], first, last);
      }
      if i == 1 {
        OneGap(less, a[first..last]);
      }
      i := i / 2;
    }
  }

  lemma NoGap<T>(less: (T, T) -> bool, s: seq<T>, gap: nat)
    ensures GapSorted(less, s, gap, gap)
  {
  }
}
