/** What the in-place algorithms of `etl/algorithm.h` do to a range of an array. */
module Ranges {

  /** The contents of `[first, last)` were replaced by `s`, and nothing else changed. */
  ghost predicate Replaced<T>(before: seq<T>, after: seq<T>, first: nat, last: nat, s: seq<T>) {
    && first <= last <= |before| == |after| && |s| == last - first
    && forall p {:trigger after[p]} | 0 <= p < |after| ::
         after[p] == if first <= p < last then s[p - first] else before[p]
  }

  lemma ReplacedRange<T>(before: seq<T>, after: seq<T>, first: nat, last: nat, s: seq<T>)
    requires Replaced(before, after, first, last, s)
    ensures |after| == |before| && after[..first] == before[..first] && after[first..last] == s && after[last..] == before[last..]
  {
  }

  /** Only the elements of `[first, last)` were rearranged. */
  ghost predicate Rearranged<T>(before: seq<T>, after: seq<T>, first: nat, last: nat) {
    && first <= last <= |before| == |after|
    && after[..first] == before[..first] && after[last..] == before[last..]
    && multiset(after[first..last]) == multiset(before[first..last])
  }

  lemma RearrangedSame<T>(s: seq<T>, first: nat, last: nat)
    requires first <= last <= |s|
    ensures Rearranged(s, s, first, last)
  {
  }

  lemma RearrangedAgain<T>(a: seq<T>, b: seq<T>, c: seq<T>, first: nat, last: nat)
    requires Rearranged(a, b, first, last) && Rearranged(b, c, first, last)
    ensures Rearranged(a, c, first, last)
  {
  }

  lemma RearrangedWider<T>(a: seq<T>, b: seq<T>, first: nat, mid: nat, last: nat)
    requires Rearranged(a, b, first, mid) && mid <= last <= |a|
    ensures Rearranged(a, b, first, last)
  {
    assert a[first..last] == a[first..mid] + a[mid..][..last - mid];
    assert b[first..last] == b[first..mid] + b[mid..][..last - mid];
    assert a[last..] == a[mid..][last - mid..] && b[last..] == b[mid..][last - mid..];
  }

  lemma RearrangedWithin<T>(a: seq<T>, b: seq<T>, first: nat, lo: nat, end: nat, last: nat)
    requires Rearranged(a, b, lo, end) && first <= lo && end <= last <= |a|
    ensures Rearranged(a, b, first, last)
  {
    RearrangedWider(a, b, lo, end, last);
    assert a[first..last] == a[..lo][first..] + a[lo..last];
    assert b[first..last] == b[..lo][first..] + b[lo..last];
    assert a[..first] == a[..lo][..first] && b[..first] == b[..lo][..first];
  }

  function Swapped<T>(s: seq<T>, i: nat, j: nat): (r: seq<T>)
    requires i < |s| && j < |s|
    ensures |r| == |s|
  {
    s[i := s[j]][j := s[i]]
  }

  lemma SwapRearranges<T>(s: seq<T>, i: nat, j: nat, first: nat, last: nat)
    requires first <= i < last <= |s| && first <= j < last
    ensures Rearranged(s, Swapped(s, i, j), first, last)
  {
    var t := Swapped(s, i, j);
    assert t[first..last] == s[first..last][i - first := s[j]][j - first := s[i]];
  }

  lemma SwapKeeps<T>(before: seq<T>, s: seq<T>, i: nat, j: nat, first: nat, last: nat)
    requires Rearranged(before, s, first, last) && first <= i < last <= |s| && first <= j < last
    ensures Rearranged(before, Swapped(s, i, j), first, last)
  {
    hide Rearranged, Swapped;
    SwapRearranges(s, i, j, first, last);
    RearrangedAgain(before, s, Swapped(s, i, j), first, last);
  }

  lemma SwappedRange<T>(s: seq<T>, first: nat, last: nat, i: nat, j: nat)
    requires first <= last <= |s| && i < last - first && j < last - first
    ensures Swapped(s, first + i, first + j)[first..last] == Swapped(s[first..last], i, j)
  {
    assert s[first + i := s[first + j]][first..last] == s[first..last][i := s[first + j]];
    var t := s[first + i := s[first + j]];
    assert t[first + j := s[first + i]][first..last] == t[first..last][j := s[first + i]];
  }

  /** `iter_swap` */
  method Swap<T>(a: array<T>, i: nat, j: nat)
    requires i < a.Length && j < a.Length
    modifies a
    ensures a[..] == Swapped(old(a[..]), i, j)
  {
    a[i], a[j] := a[j], a[i];
  }
}
