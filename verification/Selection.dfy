/** `nth_element` by repeated partition around the last element. */
module Selection {
  import opened Ordering
  import opened Ranges

  /** `[first, i)` is not above the pivot, `[i, j)` is above it. */
  ghost predicate Parted<T>(less: (T, T) -> bool, s: seq<T>, first: nat, i: nat, j: nat, pivot: T) {
    && first <= i <= j <= |s|
    && (forall p | first <= p < i :: !less(pivot, s[p]))
    && (forall p | i <= p < j :: less(pivot, s[p]))
  }

  lemma PartStep<T>(less: (T, T) -> bool, s: seq<T>, first: nat, i: nat, j: nat, last: nat, pivot: T)
    requires Parted(less, s, first, i, j, pivot) && j < last < |s|
    ensures !less(pivot, s[j]) ==> Parted(less, Swapped(s, i, j), first, i + 1, j + 1, pivot)
    ensures Swapped(s, i, j)[last] == s[last]
    ensures less(pivot, s[j]) ==> Parted(less, s, first, i, j + 1, pivot)
  {
  }

  lemma PartEnd<T>(less: (T, T) -> bool, s: seq<T>, first: nat, i: nat, last: nat)
    requires last < |s| && Parted(less, s, first, i, last, s[last])
    ensures Swapped(s, i, last)[i] == s[last]
    ensures Parted(less, Swapped(s, i, last), first, i, i, s[last])
    ensures Parted(less, Swapped(s, i, last), i + 1, i + 1, last + 1, s[last])
  {
  }

  /** `nth_partition`; `last` is the last position of the range, and its element the pivot. */
  method NthPartition<T>(a: array<T>, first: nat, last: nat, less: (T, T) -> bool) returns (i: nat)
    requires first <= last < a.Length
    modifies a
    ensures first <= i <= last && a[i] == old(a[last])
    ensures Parted(less, a[..], first, i, i, a[i])
    ensures Parted(less, a[..], i + 1, i + 1, last + 1, a[i])
    ensures Rearranged(old(a[..]), a[..], first, last + 1)
  {
    hide Rearranged, Parted, Swapped;
    RearrangedSame(a[..], first, last + 1);
    var pivotValue := a[last];
    i := first;
    var j: nat := first;
    NothingParted(less, a[..], first, pivotValue);
    while j < last
      invariant first <= i <= j <= last && a[last] == pivotValue
      invariant Parted(less, a[..], first, i, j, pivotValue)
      invariant Rearranged(old(a[..]), a[..], first, last + 1)
    {
      PartStep(less, a[..], first, i, j, last, pivotValue);
      if !less(pivotValue, a[j]) {
        SwapKeeps(old(a[..]), a[..], i, j, first, last + 1);
        Swap(a, i, j);
        i := i + 1;
      }
      j := j + 1;
    }
    PartEnd(less, a[..], first, i, last);
    SwapKeeps(old(a[..]), a[..], i, last, first, last + 1);
    Swap(a, i, last);
  }

  lemma NothingParted<T>(less: (T, T) -> bool, s: seq<T>, first: nat, pivot: T)
    requires first <= |s|
    ensures Parted(less, s, first, first, first, pivot)
  {
  }

  /** No element of `[b, c)` is less than one of `[a, b)`. */
  ghost predicate Split<T>(less: (T, T) -> bool, s: seq<T>, a: nat, b: nat, c: nat) {
    && a <= b <= c <= |s|
    && forall i, j | a <= i < b && b <= j < c :: !less(s[j], s[i])
  }

  /** The part `[lo, end)` still to be partitioned has no greater elements before it and no smaller ones after it. */
  ghost predicate Bracketed<T>(less: (T, T) -> bool, s: seq<T>, first: nat, lo: nat, end: nat, last: nat) {
    Split(less, s, first, lo, end) && Split(less, s, lo, end, last)
  }

  /** The element at `nth` is where sorting would put it, section 25.8.3 [alg.nth.element] of ISO/IEC 14882:2020. */
  ghost predicate Selected<T>(less: (T, T) -> bool, s: seq<T>, first: nat, nth: nat, last: nat) {
    nth < last && Split(less, s, first, nth, last) && Split(less, s, first, nth + 1, last)
  }

  /** Rearranging the part leaves the bracket in place. */
  lemma BracketKept<T>(less: (T, T) -> bool, s: seq<T>, t: seq<T>, first: nat, lo: nat, end: nat, last: nat)
    requires Bracketed(less, s, first, lo, end, last) && Rearranged(s, t, lo, end)
    ensures Bracketed(less, t, first, lo, end, last)
  {
    forall j | lo <= j < end
      ensures (forall i | first <= i < lo :: !less(t[j], t[i])) && (forall i | end <= i < last :: !less(t[i], t[j]))
    {
      assert t[lo..end][j - lo] in multiset(s[lo..end]);
      var k :| 0 <= k < end - lo && s[lo..end][k] == t[j];
      assert s[lo + k] == t[j];
      forall i | first <= i < lo ensures !less(t[j], t[i]) {
        assert t[i] == t[..lo][i] == s[i];
      }
      forall i | end <= i < last ensures !less(t[i], t[j]) {
        assert t[i] == t[end..][i - end] == s[i];
      }
    }
  }

  /** Partitioning a bracketed part at `p` gives a smaller bracket on either side, and puts `p` in its place. */
  lemma PivotPlaced<T(!new)>(less: (T, T) -> bool, s: seq<T>, first: nat, lo: nat, p: nat, end: nat, last: nat)
    requires StrictWeak(less) && Bracketed(less, s, first, lo, end, last) && lo <= p < end
    requires Parted(less, s, lo, p, p, s[p]) && Parted(less, s, p + 1, p + 1, end, s[p])
    ensures Bracketed(less, s, first, lo, p, last) && Bracketed(less, s, first, p + 1, end, last)
    ensures Selected(less, s, first, p, last)
  {
    forall i, j | first <= i <= p && p <= j < last ensures !less(s[j], s[i]) {
      assert !less(s[p], s[i]) by {
        assert !less(s[p], s[p]);
      }
      assert !less(s[j], s[p]) by {
        if p < j < end {
          Asymmetric(less, s[p], s[j]);
        }
        assert !less(s[p], s[p]);
      }
      NotLessTransitive(less, s[j], s[p], s[i]);
    }
  }

  lemma WholeBracketed<T>(less: (T, T) -> bool, s: seq<T>, first: nat, last: nat)
    requires first <= last <= |s|
    ensures Bracketed(less, s, first, first, last, last)
  {
  }

  lemma RearrangedPart<T>(a: seq<T>, b: seq<T>, c: seq<T>, first: nat, lo: nat, end: nat, last: nat)
    requires Rearranged(a, b, first, last) && Rearranged(b, c, lo, end) && first <= lo && end <= last
    ensures Rearranged(a, c, first, last)
  {
    RearrangedWithin(b, c, first, lo, end, last);
    RearrangedAgain(a, b, c, first, last);
  }

  lemma NthStep<T(!new)>(less: (T, T) -> bool, s0: seq<T>, s: seq<T>, t: seq<T>, first: nat, lo: nat, p: nat,
      end: nat, last: nat)
    requires StrictWeak(less) && first <= lo <= p < end <= last && p < |t|
    requires Rearranged(s0, s, first, last) && Rearranged(s, t, lo, end) && Bracketed(less, s, first, lo, end, last)
    requires Parted(less, t, lo, p, p, t[p]) && Parted(less, t, p + 1, p + 1, end, t[p])
    ensures Rearranged(s0, t, first, last)
    ensures Bracketed(less, t, first, lo, p, last) && Bracketed(less, t, first, p + 1, end, last)
    ensures Selected(less, t, first, p, last)
  {
    hide StrictWeak, Rearranged, Bracketed, Selected, Parted;
    RearrangedPart(s0, s, t, first, lo, end, last);
    BracketKept(less, s, t, first, lo, end, last);
    PivotPlaced(less, t, first, lo, p, end, last);
  }

  /** `nth_element`; `end` is one past the source's `last` once that points to the last element. */
  method NthElement<T(!new)>(a: array<T>, first: nat, nth: nat, last: nat, less: (T, T) -> bool)
    requires StrictWeak(less) && first <= nth <= last <= a.Length
    modifies a
    ensures Rearranged(old(a[..]), a[..], first, last)
    ensures nth < last ==> Selected(less, a[..], first, nth, last)
  {
    hide StrictWeak, Rearranged, Bracketed, Selected, Parted;
    RearrangedSame(a[..], first, last);
    if first == last {
      return;
    }
    WholeBracketed(less, a[..], first, last);
    var lo, hi := first, last - 1;
    while lo <= hi
      invariant first <= lo <= hi + 1 <= last
      invariant lo <= nth && (nth <= hi || hi == last - 1)
      invariant Bracketed(less, a[..], first, lo, hi + 1, last)
      invariant Rearranged(old(a[..]), a[..], first, last)
      decreases hi - lo
    {
      ghost var s := a[..];
      var p := NthPartition(a, lo, hi, less);
      NthStep(less, old(a[..]), s, a[..], first, lo, p, hi + 1, last);
      if p == nth {
        return;
      } else if p > nth {
        hi := p - 1;
      } else {
        lo := p + 1;
      }
    }
  }
}
