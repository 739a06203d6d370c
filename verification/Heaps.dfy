/** The heap algorithms of `etl/algorithm.h` and the heap sort built from them. */
module Heaps {
  import opened Ordering
  import opened Ranges

  function Parent(i: int): (p: nat)
    requires i >= 0
    ensures i > 0 ==> p < i
  {
    if i == 0 then 0 else (i - 1) / 2
  }

  /** The element at `i` is not above its parent. */
  predicate InOrder<T>(less: (T, T) -> bool, s: seq<T>, i: nat)
    requires 0 < i < |s|
  {
    !less(s[Parent(i)], s[i])
  }

  /** A heap below the positions from `top` on; with `top` zero, section 25.8.8 [alg.heap.operations]
      of ISO/IEC 14882:2020. */
  ghost predicate HeapFrom<T>(less: (T, T) -> bool, s: seq<T>, top: nat) {
    forall i: nat | 0 < i < |s| && Parent(i) >= top :: InOrder(less, s, i)
  }

  /** `h` lies below `top`, or is `top`. */
  predicate Below(top: nat, h: nat) {
    h == top || (h > top && Below(top, Parent(h)))
  }

  lemma {:induction false} BelowParent(top: nat, h: nat)
    requires Below(top, h) && h != top
    ensures h > top && Parent(h) >= top
  {
  }

  /** The children of `h` are not above the parent of `h`. */
  ghost predicate Grandchildren<T>(less: (T, T) -> bool, s: seq<T>, h: nat)
    requires h < |s|
  {
    forall i: nat | 0 < i < |s| && Parent(i) == h :: !less(s[Parent(h)], s[i])
  }

  /** A heap from `top` on but for the element at `h`, which may be below its children. */
  ghost predicate Sinking<T>(less: (T, T) -> bool, s: seq<T>, top: nat, h: nat) {
    && h < |s| && Below(top, h)
    && (forall i: nat | 0 < i < |s| && Parent(i) >= top && i != h && Parent(i) != h :: InOrder(less, s, i))
    && (h > top ==> Grandchildren(less, s, h))
  }

  /** A heap from `top` on but for the element at `h`, which may be above its parent. */
  ghost predicate Rising<T>(less: (T, T) -> bool, s: seq<T>, top: nat, h: nat) {
    && h < |s| && Below(top, h)
    && (forall i: nat | 0 < i < |s| && Parent(i) >= top && i != h :: InOrder(less, s, i))
    && (h > top ==> Grandchildren(less, s, h))
  }

  lemma RiseStep<T(!new)>(less: (T, T) -> bool, s: seq<T>, top: nat, h: nat)
    requires StrictWeak(less) && Rising(less, s, top, h) && h > top && less(s[Parent(h)], s[h])
    ensures Rising(less, Swapped(s, h, Parent(h)), top, Parent(h))
  {
    var p := Parent(h);
    var t := Swapped(s, h, p);
    BelowParent(top, h);
    Asymmetric(less, s[p], s[h]);
    forall i: nat | 0 < i < |t| && Parent(i) >= top && i != p ensures InOrder(less, t, i) {
      if i != h && Parent(i) == p {
        assert InOrder(less, s, i);
        NotLessTransitive(less, s[h], s[p], s[i]);
      } else if i != h && Parent(i) != h {
        assert InOrder(less, s, i);
      }
    }
    if p > top {
      BelowParent(top, p);
      forall i: nat | 0 < i < |t| && Parent(i) == p ensures !less(t[Parent(p)], t[i]) {
        assert InOrder(less, s, p);
        if i != h {
          assert InOrder(less, s, i);
          NotLessTransitive(less, s[Parent(p)], s[p], s[i]);
        }
      }
    }
  }

  lemma RiseEnd<T(!new)>(less: (T, T) -> bool, s: seq<T>, top: nat, h: nat)
    requires Rising(less, s, top, h) && (h == top || InOrder(less, s, h))
    ensures HeapFrom(less, s, top)
  {
    forall i: nat | 0 < i < |s| && Parent(i) >= top ensures InOrder(less, s, i) {
    }
  }

  lemma SinkStart<T>(less: (T, T) -> bool, s: seq<T>, top: nat, v: T)
    requires top < |s| && HeapFrom(less, s, top + 1)
    ensures Sinking(less, s[top := v], top, top)
  {
    var t := s[top := v];
    forall i: nat | 0 < i < |t| && Parent(i) >= top && i != top && Parent(i) != top ensures InOrder(less, t, i) {
      assert InOrder(less, s, i);
    }
  }

  lemma SinkStep<T(!new)>(less: (T, T) -> bool, s: seq<T>, top: nat, h: nat, c: nat)
    requires StrictWeak(less) && Sinking(less, s, top, h)
    requires 0 < c < |s| && Parent(c) == h
    requires forall i: nat | 0 < i < |s| && Parent(i) == h :: !less(s[c], s[i])
    ensures Sinking(less, Swapped(s, h, c), top, c)
  {
    var t := Swapped(s, h, c);
    BelowTop(top, h);
    forall i: nat | 0 < i < |t| && Parent(i) >= top && i != c && Parent(i) != c ensures InOrder(less, t, i) {
      if i != h && Parent(i) != h {
        assert InOrder(less, s, i);
      }
    }
    forall i: nat | 0 < i < |t| && Parent(i) == c ensures !less(t[h], t[i]) {
      assert InOrder(less, s, i);
    }
  }

  lemma {:induction false} BelowTop(top: nat, h: nat)
    requires Below(top, h)
    ensures h >= top
  {
  }

  /** At a leaf nothing is left to sink past. */
  lemma SinkEnd<T>(less: (T, T) -> bool, s: seq<T>, top: nat, h: nat)
    requires Sinking(less, s, top, h) && 2 * h + 1 >= |s|
    ensures Rising(less, s, top, h)
  {
    forall i: nat | 0 < i < |s| && Parent(i) >= top && i != h ensures InOrder(less, s, i) {
    }
  }

  /** The top of a heap is not less than any element of it. */
  lemma {:induction false} TopGreatest<T(!new)>(less: (T, T) -> bool, s: seq<T>, i: nat)
    requires StrictWeak(less) && HeapFrom(less, s, 0) && i < |s|
    ensures !less(s[0], s[i])
  {
    if i > 0 {
      TopGreatest(less, s, Parent(i));
      assert InOrder(less, s, i);
      NotLessTransitive(less, s[0], s[Parent(i)], s[i]);
    }
  }

  // ----- the hole that moves through the array

  /** The range of `n` elements at `first` holds `t`, but for the element `h`, which is kept aside. */
  ghost predicate Holed<T>(before: seq<T>, s: seq<T>, first: nat, t: seq<T>, h: nat) {
    && h < |t| && first + |t| <= |s| == |before|
    && forall p {:trigger s[p]} | 0 <= p < |s| && p != first + h ::
         s[p] == if first <= p < first + |t| then t[p - first] else before[p]
  }

  lemma OpenHole<T>(s: seq<T>, first: nat, n: nat, h: nat, v: T)
    requires h < n && first + n <= |s|
    ensures Holed(s, s, first, s[first..first + n][h := v], h)
  {
  }

  lemma MoveHole<T>(before: seq<T>, s: seq<T>, first: nat, t: seq<T>, h: nat, c: nat)
    requires Holed(before, s, first, t, h) && c < |t| && c != h
    ensures s[first + c] == t[c]
    ensures Holed(before, s[first + h := s[first + c]], first, Swapped(t, h, c), c)
    ensures multiset(Swapped(t, h, c)) == multiset(t) && Swapped(t, h, c)[c] == t[h]
  {
    assert s[first + c] == t[c];
  }

  /** Putting the element back: the range has been rearranged, compared with putting it back at once. */
  lemma CloseHole<T>(before: seq<T>, s: seq<T>, first: nat, n: nat, t: seq<T>, h: nat, index: nat, value: T)
    requires Holed(before, s, first, t, h) && |t| == n && index < n && t[h] == value
    requires multiset(t) == multiset(before[first..first + n][index := value])
    ensures Rearranged(before[first + index := value], s[first + h := value], first, first + n)
    ensures s[first + h := value][first..first + n] == s[first..first + n][h := value] == t
  {
    var after := s[first + h := value];
    var b := before[first + index := value];
    assert after[first..first + n] == t && b[first..first + n] == before[first..first + n][index := value];
    assert after[..first] == b[..first] && after[first + n..] == b[first + n..];
  }

  lemma RiseHole<T(!new)>(less: (T, T) -> bool, before: seq<T>, s: seq<T>, first: nat, t: seq<T>, top: nat, h: nat)
    requires StrictWeak(less) && Holed(before, s, first, t, h) && Rising(less, t, top, h)
    requires h > top
    ensures Parent(h) >= top && s[first + Parent(h)] == t[Parent(h)]
    ensures less(t[Parent(h)], t[h]) ==> Rising(less, Swapped(t, h, Parent(h)), top, Parent(h))
    ensures !less(t[Parent(h)], t[h]) ==> InOrder(less, t, h)
  {
    hide StrictWeak;
    BelowParent(top, h);
    if less(t[Parent(h)], t[h]) {
      RiseStep(less, t, top, h);
    }
  }

  /** The `push_heap` helper: the hole at `index` rises to where `value` belongs in the heap of `n` elements. */
  method PushHeapHelper<T(!new)>(a: array<T>, first: nat, index: nat, top: nat, value: T, less: (T, T) -> bool,
      ghost n: nat)
    requires StrictWeak(less) && top <= index < n && first + n <= a.Length
    requires Rising(less, a[first..first + n][index := value], top, index)
    modifies a
    ensures Rearranged(old(a[..])[first + index := value], a[..], first, first + n)
    ensures HeapFrom(less, a[first..first + n], top)
  {
    hide StrictWeak, Holed, Rising, HeapFrom, Rearranged, Swapped, Parent, InOrder;
    ghost var before := a[..];
    ghost var t := a[first..first + n][index := value];
    OpenHole(a[..], first, n, index, value);
    assert a[first..first + n] == before[first..first + n];
    var h: nat := index;
    var parent := Parent(h);
    while h > top && less(a[first + parent], value)
      invariant top <= h < n == |t| && t[h] == value && parent == Parent(h)
      invariant Holed(before, a[..], first, t, h) && Rising(less, t, top, h)
      invariant multiset(t) == multiset(before[first..first + n][index := value])
      decreases h
    {
      RiseHole(less, before, a[..], first, t, top, h);
      MoveHole(before, a[..], first, t, h, parent);
      a[first + h] := a[first + parent];
      t := Swapped(t, h, parent);
      h := parent;
      parent := Parent(h);
    }
    if h > top {
      RiseHole(less, before, a[..], first, t, top, h);
    }
    RiseEnd(less, t, top, h);
    CloseHole(before, a[..], first, n, t, h, index, value);
    a[first + h] := value;
  }

  /** The state of the sinking loop: `t` is the range with `value` in the hole, a rearrangement of `goal`. */
  ghost predicate SinkState<T>(less: (T, T) -> bool, before: seq<T>, s: seq<T>, first: nat, t: seq<T>, top: nat, h: nat,
      value: T, goal: seq<T>) {
    && Holed(before, s, first, t, h) && Sinking(less, t, top, h)
    && t[h] == value && |t| == |goal| && multiset(t) == multiset(goal)
  }

  lemma SinkHole<T(!new)>(less: (T, T) -> bool, before: seq<T>, s: seq<T>, first: nat, t: seq<T>, top: nat, h: nat,
      c: nat,
      value: T, goal: seq<T>)
    requires StrictWeak(less) && SinkState(less, before, s, first, t, top, h, value, goal)
    requires c == 2 * h + 1 || c == 2 * h + 2
    requires c < |t| && first + |t| <= |s|
    requires c == 2 * h + 1 && 2 * h + 2 < |t| ==> less(s[first + 2 * h + 2], s[first + 2 * h + 1])
    requires c == 2 * h + 2 ==> !less(s[first + 2 * h + 2], s[first + 2 * h + 1])
    ensures h < |t| && SinkState(less, before, s[first + h := s[first + c]], first, Swapped(t, h, c), top, c, value, goal)
  {
    HoleAt(before, s, first, t, h);
    hide Sinking, Holed;
    forall i: nat | 0 < i < |t| && Parent(i) == h ensures !less(t[c], t[i]) {
      assert i == 2 * h + 1 || i == 2 * h + 2;
      if c == 2 * h + 1 && i == 2 * h + 2 {
        Asymmetric(less, t[i], t[c]);
      } else {
        assert !less(t[c], t[c]);
      }
    }
    SinkStep(less, t, top, h, c);
    MoveHole(before, s, first, t, h, c);
    hide Swapped;
  }

  lemma HoleAt<T>(before: seq<T>, s: seq<T>, first: nat, t: seq<T>, h: nat)
    requires Holed(before, s, first, t, h)
    ensures h < |t| && first + |t| <= |s|
    ensures forall c: nat | c < |t| && c != h :: s[first + c] == t[c]
  {
  }

  lemma OpenSink<T(!new)>(less: (T, T) -> bool, s: seq<T>, first: nat, n: nat, top: nat, value: T)
    requires top < n && first + n <= |s| && HeapFrom(less, s[first..first + n], top + 1)
    ensures SinkState(less, s, s, first, s[first..first + n][top := value], top, top, value, s[first..first + n][top := value])
  {
    OpenHole(s, first, n, top, value);
    SinkStart(less, s[first..first + n], top, value);
  }

  lemma CloseSink<T(!new)>(less: (T, T) -> bool, before: seq<T>, s: seq<T>, first: nat, n: nat, t: seq<T>, top: nat,
      h: nat,
      value: T, goal: seq<T>)
    requires top < n && first + n <= |before| && 2 * h + 1 >= n && goal == before[first..first + n][top := value]
    requires SinkState(less, before, s, first, t, top, h, value, goal)
    ensures h < n && first + n <= |s| && Rising(less, s[first..first + n][h := value], top, h)
    ensures Rearranged(before[first + top := value], s[first + h := value], first, first + n)
  {
    SinkEnd(less, t, top, h);
    CloseHole(before, s, first, n, t, h, top, value);
  }

  /** The number of elements `adjust_heap` writes to: with `length` zero it still writes the first one. */
  function Extent(length: nat): (n: nat)
    ensures n > 0 && n >= length
    ensures n == length || (length == 0 && n == 1)
  {
    if length == 0 then 1 else length
  }

  /** The first half of `adjust_heap`: the hole at `index` sinks to a leaf along the greater children. */
  method SinkToLeaf<T(!new)>(a: array<T>, first: nat, index: nat, length: nat, ghost value: T, less: (T, T) -> bool)
    returns (leaf: nat, ghost t: seq<T>)
    requires StrictWeak(less) && index < Extent(length) && first + Extent(length) <= a.Length
    requires HeapFrom(less, a[first..first + Extent(length)], index + 1)
    modifies a
    ensures index <= leaf < Extent(length) <= 2 * leaf + 1
    ensures SinkState(less, old(a[..]), a[..], first, t, index, leaf, value, old(a[..])[first..first + Extent(length)][index := value])
  {
    hide StrictWeak, SinkState, HeapFrom, Swapped, Extent;
    ghost var before := a[..];
    ghost var n := Extent(length);
    assert a[first..first + n] == before[first..first + n];
    ghost var goal := before[first..first + n][index := value];
    t := goal;
    OpenSink(less, before, first, n, index, value);
    var h: nat := index;
    var child2nd: nat := 2 * h + 2;
    while child2nd < length
      invariant index <= h < n == |t| && child2nd == 2 * h + 2
      invariant SinkState(less, before, a[..], first, t, index, h, value, goal)
      decreases length - h
    {
      if less(a[first + child2nd], a[first + child2nd - 1]) {
        child2nd := child2nd - 1;
      }
      SinkHole(less, before, a[..], first, t, index, h, child2nd, value, goal);
      a[first + h] := a[first + child2nd];
      t := Swapped(t, h, child2nd);
      h := child2nd;
      child2nd := 2 * (child2nd + 1);
    }
    if child2nd == length {
      SinkHole(less, before, a[..], first, t, index, h, child2nd - 1, value, goal);
      a[first + h] := a[first + child2nd - 1];
      t := Swapped(t, h, child2nd - 1);
      h := child2nd - 1;
    }
    leaf := h;
  }

  /** `adjust_heap`: from the leaf that the hole sank to, `value` rises to where it belongs. */
  method AdjustHeap<T(!new)>(a: array<T>, first: nat, index: nat, length: nat, value: T, less: (T, T) -> bool)
    requires StrictWeak(less) && index < Extent(length) && first + Extent(length) <= a.Length
    requires HeapFrom(less, a[first..first + Extent(length)], index + 1)
    modifies a
    ensures Rearranged(old(a[..])[first + index := value], a[..], first, first + Extent(length))
    ensures HeapFrom(less, a[first..first + Extent(length)], index)
  {
    hide StrictWeak, Rising, HeapFrom, Rearranged, Extent, SinkState;
    ghost var n, before := Extent(length), a[..];
    var leaf, t := SinkToLeaf(a, first, index, length, value, less);
    CloseSink(less, before, a[..], first, n, t, index, leaf, value, before[first..first + n][index := value]);
    assert a[first..first + n] == a[..][first..first + n];
    ghost var sunk := a[..][first + leaf := value];
    PushHeapHelper(a, first, leaf, index, value, less, n);
    RearrangedAgain(before[first + index := value], sunk, a[..], first, first + n);
  }

  lemma HeapPart<T>(less: (T, T) -> bool, s: seq<T>, n: nat, top: nat)
    requires HeapFrom(less, s, 0) && n <= |s|
    ensures HeapFrom(less, s[..n], top)
  {
    forall i: nat | 0 < i < n && Parent(i) >= top ensures InOrder(less, s[..n], i) {
      assert InOrder(less, s, i);
    }
  }

  lemma PopRearranges<T>(before: seq<T>, after: seq<T>, first: nat, m: nat, last: nat)
    requires first < m <= last <= |before| && (m == last - 1 || (m == last && first == last - 1))
    requires Rearranged(before[last - 1 := before[first]][first := before[last - 1]], after, first, m)
    ensures Rearranged(before, after, first, last)
  {
    hide Rearranged;
    var b := Swapped(before, last - 1, first);
    SwapRearranges(before, last - 1, first, first, last);
    RearrangedWider(b, after, first, m, last);
    RearrangedAgain(before, b, after, first, last);
  }

  lemma PopLast<T>(before: seq<T>, after: seq<T>, first: nat, m: nat, last: nat)
    requires first < m <= last <= |before| && (m == last - 1 || (m == last && first == last - 1))
    requires Rearranged(before[last - 1 := before[first]][first := before[last - 1]], after, first, m)
    ensures |after| == |before| && after[last - 1] == before[first]
  {
    var b := Swapped(before, last - 1, first);
    if m == last {
      assert after[first..m] == [after[first]] && b[first..m] == [before[first]];
      assert after[first] in multiset(after[first..m]);
    } else {
      assert after[last - 1] == after[m..][0] == b[m..][0];
    }
  }

  /** `pop_heap`: the greatest element goes to the end, the others form a heap again. */
  method PopHeap<T(!new)>(a: array<T>, first: nat, last: nat, less: (T, T) -> bool)
    requires StrictWeak(less) && first < last <= a.Length
    requires HeapFrom(less, a[first..last], 0)
    modifies a
    ensures Rearranged(old(a[..]), a[..], first, last)
    ensures HeapFrom(less, a[first..last - 1], 0)
    ensures a[last - 1] == old(a[first])
  {
    hide StrictWeak, HeapFrom, Rearranged, Extent;
    ghost var before := a[..];
    ghost var n, m := last - first - 1, first + Extent(last - first - 1);
    HeapPart(less, a[first..last], m - first, 1);
    var value := a[last - 1];
    a[last - 1] := a[first];
    assert a[first..m] == before[first..last][..m - first];
    AdjustHeap(a, first, 0, last - first - 1, value, less);
    PopRearranges(before, a[..], first, m, last);
    PopLast(before, a[..], first, m, last);
    HeapPart(less, a[first..m], n, 0);
    assert a[first..m][..n] == a[first..last - 1];
  }

  lemma PushStart<T>(less: (T, T) -> bool, s: seq<T>)
    requires |s| > 0 && HeapFrom(less, s[..|s| - 1], 0)
    ensures Rising(less, s, 0, |s| - 1)
  {
    BelowZero(|s| - 1);
    forall i: nat | 0 < i < |s| && i != |s| - 1 ensures InOrder(less, s, i) {
      assert InOrder(less, s[..|s| - 1], i);
    }
  }

  lemma {:induction false} BelowZero(h: nat)
    ensures Below(0, h)
  {
    if h > 0 {
      BelowZero(Parent(h));
    }
  }

  /** `push_heap`: the last element joins the heap of the others. */
  method PushHeap<T(!new)>(a: array<T>, first: nat, last: nat, less: (T, T) -> bool)
    requires StrictWeak(less) && first < last <= a.Length
    requires HeapFrom(less, a[first..last - 1], 0)
    modifies a
    ensures Rearranged(old(a[..]), a[..], first, last)
    ensures HeapFrom(less, a[first..last], 0)
  {
    hide StrictWeak, HeapFrom, Rearranged, Rising;
    var index: nat := last - first - 1;
    assert a[first..last][..index] == a[first..last - 1];
    assert a[first..last][index := a[last - 1]] == a[first..last];
    assert a[..][first + index := a[last - 1]] == a[..];
    PushStart(less, a[first..last]);
    PushHeapHelper(a, first, index, 0, a[last - 1], less, last - first);
  }

  lemma SameValue<T>(s: seq<T>, i: nat, value: T)
    requires i < |s| && s[i] == value
    ensures s[i := value] == s
  {
  }

  lemma NoParents<T>(less: (T, T) -> bool, s: seq<T>, top: nat)
    requires 2 * top + 1 >= |s|
    ensures HeapFrom(less, s, top)
  {
  }

  /** `make_heap`: the parents are adjusted from the last one down to the first. */
  method MakeHeap<T(!new)>(a: array<T>, first: nat, last: nat, less: (T, T) -> bool)
    requires StrictWeak(less) && first <= last <= a.Length
    modifies a
    ensures Rearranged(old(a[..]), a[..], first, last)
    ensures HeapFrom(less, a[first..last], 0)
  {
    hide StrictWeak, HeapFrom, Rearranged;
    RearrangedSame(a[..], first, last);
    if last - first < 2 {
      NoParents(less, a[first..last], 0);
      return;
    }
    var length: nat := last - first;
    var parent: nat := (length - 2) / 2;
    NoParents(less, a[first..last], parent + 1);
    while true
      invariant parent < length && HeapFrom(less, a[first..last], parent + 1)
      invariant Rearranged(old(a[..]), a[..], first, last)
      decreases parent
    {
      ghost var s := a[..];
      var value := a[first + parent];
      SameValue(s, first + parent, value);
      AdjustHeap(a, first, parent, length, value, less);
      RearrangedAgain(old(a[..]), s, a[..], first, last);
      if parent == 0 {
        return;
      }
      parent := parent - 1;
    }
  }

  /** `is_heap`: `parent` follows `child` at half its speed. */
  method IsHeap<T>(a: array<T>, first: nat, last: nat, less: (T, T) -> bool) returns (result: bool)
    requires first <= last <= a.Length
    ensures result <==> HeapFrom(less, a[first..last], 0)
  {
    var n: nat := last - first;
    ghost var s := a[first..last];
    var parent: nat := 0;
    var child: nat := 1;
    while child < n
      invariant child >= 1 && parent == Parent(child)
      invariant forall i: nat | 0 < i < child && i < n :: InOrder(less, s, i)
      decreases n - child
    {
      assert InOrder(less, s, child) <==> !less(a[first + parent], a[first + child]);
      if less(a[first + parent], a[first + child]) {
        return false;
      }
      if child % 2 == 0 {
        parent := parent + 1;
      }
      child := child + 1;
    }
    return true;
  }

  /** Taking the greatest of the rest and putting it in front of the sorted part. */
  lemma SortStep<T(!new)>(less: (T, T) -> bool, s: seq<T>, t: seq<T>, x: T, sorted: seq<T>)
    requires StrictWeak(less) && HeapFrom(less, s, 0) && |s| > 0 && x == s[0]
    requires multiset(t + [x]) == multiset(s)
    requires AtMost(less, s, sorted) && Sorted(less, sorted)
    ensures AtMost(less, t, [x] + sorted) && Sorted(less, [x] + sorted)
  {
    forall y, z | y in t && z in [x] + sorted ensures !less(z, y) {
      assert y in multiset(t + [x]);
      if z == x {
        var i :| 0 <= i < |s| && s[i] == y;
        TopGreatest(less, s, i);
      }
    }
    assert x in s;
  }

  /** The elements from `end` on are in place; the others are a heap of elements not greater than them. */
  ghost predicate Sorting<T>(less: (T, T) -> bool, start: seq<T>, s: seq<T>, first: nat, end: nat, last: nat) {
    && first <= end <= last <= |s|
    && HeapFrom(less, s[first..end], 0) && Rearranged(start, s, first, last)
    && Sorted(less, s[end..last]) && AtMost(less, s[first..end], s[end..last])
  }

  lemma SortingStart<T>(less: (T, T) -> bool, s: seq<T>, first: nat, last: nat)
    requires first <= last <= |s| && HeapFrom(less, s[first..last], 0)
    ensures Sorting(less, s, s, first, last, last)
  {
    hide HeapFrom, Sorted, AtMost, Rearranged;
    RearrangedSame(s, first, last);
    NothingSorted(less, s[last..last], s[first..last]);
  }

  lemma SortingStep<T(!new)>(less: (T, T) -> bool, start: seq<T>, s: seq<T>, s': seq<T>, first: nat, end: nat, last: nat)
    requires StrictWeak(less) && Sorting(less, start, s, first, end, last) && first < end
    requires Rearranged(s, s', first, end) && |s'| == |s| && HeapFrom(less, s'[first..end - 1], 0) && s'[end - 1] == s[first]
    ensures Sorting(less, start, s', first, end - 1, last)
  {
    hide StrictWeak, HeapFrom, Rearranged, Sorted, AtMost;
    PoppedPart(s, s', first, end, last);
    SortStep(less, s[first..end], s'[first..end - 1], s'[end - 1], s[end..last]);
    RearrangedAgain(start, s, s', first, last);
  }

  /** `sort_heap`: the greatest element of the rest goes to the end of the rest, again and again. */
  method SortHeap<T(!new)>(a: array<T>, first: nat, last: nat, less: (T, T) -> bool)
    requires StrictWeak(less) && first <= last <= a.Length
    requires HeapFrom(less, a[first..last], 0)
    modifies a
    ensures Rearranged(old(a[..]), a[..], first, last)
    ensures Sorted(less, a[first..last])
  {
    hide StrictWeak, HeapFrom, Rearranged, Sorted, AtMost;
    var end := last;
    SortingStart(less, a[..], first, last);
    while first != end
      invariant first <= end <= last && Sorting(less, old(a[..]), a[..], first, end, last)
      decreases end - first
    {
      ghost var s := a[..];
      PopHeap(a, first, end, less);
      SortingStep(less, old(a[..]), s, a[..], first, end, last);
      end := end - 1;
    }
  }

  lemma PoppedPart<T>(before: seq<T>, after: seq<T>, first: nat, end: nat, last: nat)
    requires first < end <= last <= |before| && Rearranged(before, after, first, end)
    ensures Rearranged(before, after, first, last)
    ensures after[end - 1..last] == [after[end - 1]] + before[end..last]
    ensures multiset(after[first..end - 1] + [after[end - 1]]) == multiset(before[first..end])
  {
    RearrangedWider(before, after, first, end, last);
    assert after[first..end - 1] + [after[end - 1]] == after[first..end];
    assert after[end..last] == after[end..][..last - end] == before[end..last];
  }

  /** `heap_sort` */
  method HeapSort<T(!new)>(a: array<T>, first: nat, last: nat, less: (T, T) -> bool)
    requires StrictWeak(less) && first <= last <= a.Length
    modifies a
    ensures Rearranged(old(a[..]), a[..], first, last)
    ensures Sorted(less, a[first..last])
  {
    hide StrictWeak, HeapFrom, Rearranged, Sorted;
    RearrangedSame(a[..], first, last);
    var heap := IsHeap(a, first, last, less);
    if !heap {
      MakeHeap(a, first, last, less);
    }
    ghost var s := a[..];
    SortHeap(a, first, last, less);
    RearrangedAgain(old(a[..]), s, a[..], first, last);
  }
}
