/** The three forms of `etl::rotate` for general ranges, and rotation by one. */
module Rotation {
  import opened Collections
  import opened Ranges
  import opened Words
  import Gcd

  /** What a rotation leaves: the part from `m` on first. */
  function Rotated<T>(s: seq<T>, m: nat): (r: seq<T>)
    requires m <= |s|
    ensures |r| == |s|
  {
    s[m..] + s[..m]
  }

  /** Where the element that ends up at `j` comes from. */
  function Source(j: nat, m: nat, n: nat): nat
    requires j < n && m <= n
  {
    if j + m < n then j + m else j + m - n
  }

  // ----- the cycles of j -> j + m modulo n

  lemma SourceModulo(y: nat, m: nat, n: nat)
    requires 0 < m < n
    ensures Source(y % n, m, n) == (y + m) % n
  {
    var q, r := y / n, y % n;
    assert y == q * n + r;
    if r + m < n {
      DivModUnique(y + m, n, q, r + m);
    } else {
      assert (q + 1) * n == q * n + n;
      DivModUnique(y + m, n, q + 1, r + m - n);
    }
  }

  ghost predicate ClosedSet(v: set<nat>, m: nat, n: nat)
    requires m <= n
  {
    forall j | j in v :: j < n && Source(j, m, n) in v
  }

  lemma {:induction false} Reach(v: set<nat>, m: nat, n: nat, x: nat, k: nat)
    requires 0 < m < n && ClosedSet(v, m, n) && x in v
    ensures (x + k * m) % n in v
  {
    if k == 0 {
      DivModUnique(x, n, 0, x);
    } else {
      Reach(v, m, n, x, k - 1);
      SourceModulo(x + (k - 1) * m, m, n);
      assert x + (k - 1) * m + m == x + k * m;
    }
  }

  /** Some number of steps of `m` amounts to a step of the divisor. */
  lemma StepsToDivisor(n: nat, m: nat) returns (u: nat, w: nat)
    requires 0 < m < n
    ensures u * m == Gcd.Euclid(n, m) + w * n
  {
    var x, y := Gcd.Bezout(n, m);
    DivisorBelow(n, m);
    u := y % n;
    var q := y / n;
    assert y == q * n + u;
    var w' := -x - q * m;
    Reduced(x, y, n, m, q, u, Gcd.Euclid(n, m));
    MulSign(w', n);
    MulSign(u, m);
    w := w';
  }

  lemma Reduced(x: int, y: int, n: int, m: int, q: int, u: int, g: int)
    requires x * n + y * m == g && y == q * n + u
    ensures u * m == g + (-x - q * m) * n
  {
    assert y * m == (q * n) * m + u * m;
    assert (q * n) * m == (q * m) * n;
    assert (-x - q * m) * n == -(x * n) - (q * m) * n;
  }

  lemma DivisorBelow(n: nat, m: nat)
    requires 0 < m < n
    ensures 0 < Gcd.Euclid(n, m) <= m
  {
    Gcd.EuclidPositive(n, m);
    Gcd.EuclidDivides(n, m);
    var g := Gcd.Euclid(n, m);
    var q: int :| m == q * g;
    MulSign(q, g);
  }

  /** A set closed under the steps contains the whole residue class of each of its elements. */
  lemma {:induction false} CoversClass(v: set<nat>, m: nat, n: nat, i: nat, t: nat)
    requires 0 < m < n && ClosedSet(v, m, n) && i in v
    requires i + t * Gcd.Euclid(n, m) < n
    ensures i + t * Gcd.Euclid(n, m) in v
  {
    var g := Gcd.Euclid(n, m);
    if t > 0 {
      assert t * g == (t - 1) * g + g;
      DivisorBelow(n, m);
      CoversClass(v, m, n, i, t - 1);
      var x := i + (t - 1) * g;
      var u, w := StepsToDivisor(n, m);
      Reach(v, m, n, x, u);
      DivModUnique(x + u * m, n, w, x + g);
    }
  }

  /** Steps stay in their residue class modulo the divisor. */
  lemma StepKeepsClass(j: nat, m: nat, n: nat)
    requires 0 < m < n && j < n
    ensures Gcd.Euclid(n, m) > 0
    ensures Source(j, m, n) % Gcd.Euclid(n, m) == j % Gcd.Euclid(n, m)
  {
    DivisorBelow(n, m);
    Gcd.EuclidDivides(n, m);
    var g := Gcd.Euclid(n, m);
    var p: int :| m == p * g;
    var q: int :| n == q * g;
    KeepsClass(j, m, n, g, p, q);
  }

  lemma KeepsClass(j: nat, m: nat, n: nat, g: nat, p: int, q: int)
    requires m <= n && j < n && g > 0 && m == p * g && n == q * g
    ensures Source(j, m, n) % g == j % g
  {
    ModuloMultiple(j, p, g);
    ModuloMultiple(Source(j, m, n), q, g);
  }

  lemma ModuloMultiple(x: int, k: int, g: nat)
    requires g > 0
    ensures (x + k * g) % g == x % g
  {
    var q, r := x / g, x % g;
    assert x + k * g == (q + k) * g + r;
    DivModUnique(x + k * g, g, q + k, r);
  }

  lemma NothingToRotate<T>(s: seq<T>, first: nat, middle: nat, last: nat)
    requires first <= middle <= last <= |s| && (first == middle || middle == last)
    ensures Replaced(s, s, first, last, Rotated(s[first..last], middle - first))
  {
    var t := s[first..last];
    assert Rotated(t, middle - first) == t;
  }

  // ----- random access: one cycle for each residue class

  /** The positions in `v` hold what a rotation brings there, all others what was there before. */
  ghost predicate Moved<T>(before: seq<T>, after: seq<T>, first: nat, n: nat, m: nat, v: set<nat>)
    requires m <= n && first + n <= |before|
  {
    && |after| == |before|
    && forall p {:trigger after[p]} | 0 <= p < |after| ::
      after[p] == if first <= p < first + n && p - first in v then before[first + Source(p - first, m, n)] else before[p]
  }

  ghost function Classes(n: nat, g: nat, i: nat): set<nat>
    requires g > 0
  {
    set j: nat | j < n && j % g < i
  }

  ghost function ClassOf(n: nat, g: nat, i: nat): set<nat>
    requires g > 0
  {
    set j: nat | j < n && j % g == i
  }

  function Before(j: nat, m: nat, n: nat): nat
    requires j < n && m <= n
  {
    if j >= m then j - m else j - m + n
  }

  lemma BeforeSource(j: nat, m: nat, n: nat)
    requires m <= n && j < n
    ensures Source(j, m, n) < n && Before(Source(j, m, n), m, n) == j
  {
  }

  /** Where the cycle from `i` stands: `w` is done, `j` comes next. */
  ghost predicate Cycling(w: set<nat>, i: nat, j: nat, m: nat, n: nat, g: nat)
    requires 0 < m < n && 0 < g
  {
    && j < n && j % g == i && j !in w
    && w <= ClassOf(n, g, i)
    && (i in w || (w == {} && j == i))
    && (forall x | x in w :: Source(x, m, n) in w + {j})
    && (forall x | x in w + {j} :: x == i || (x < n && Before(x, m, n) in w))
  }

  lemma CycleStep(w: set<nat>, i: nat, j: nat, m: nat, n: nat)
    requires 0 < m < n && i < Gcd.Euclid(n, m) && Cycling(w, i, j, m, n, Gcd.Euclid(n, m))
    requires Source(j, m, n) != i
    ensures Cycling(w + {j}, i, Source(j, m, n), m, n, Gcd.Euclid(n, m))
    ensures Source(j, m, n) < n && Source(j, m, n) !in Classes(n, Gcd.Euclid(n, m), i) + w
  {
    hide Gcd.Euclid, Source, Before, Classes, ClassOf;
    StepKeepsClass(j, m, n);
    BeforeSource(j, m, n);
    ClassMember(j, n, Gcd.Euclid(n, m), i);
    ClassMember(Source(j, m, n), n, Gcd.Euclid(n, m), i);
  }

  lemma ClassMember(j: nat, n: nat, g: nat, i: nat)
    requires 0 < g && j < n && j % g == i
    ensures j in ClassOf(n, g, i) && j !in Classes(n, g, i)
  {
  }

  lemma InClass(v: set<nat>, x: nat, i: nat, m: nat, n: nat)
    requires 0 < m < n && ClosedSet(v, m, n) && i in v
    requires x < n && Gcd.Euclid(n, m) > 0 && x % Gcd.Euclid(n, m) == i
    ensures x in v
  {
    hide Gcd.Euclid, Source, ClosedSet;
    var g := Gcd.Euclid(n, m);
    assert x == (x / g) * g + x % g;
    var t: nat := x / g;
    CoversClass(v, m, n, i, t);
  }

  lemma CycleEnd(w: set<nat>, i: nat, j: nat, m: nat, n: nat)
    requires 0 < m < n && i < Gcd.Euclid(n, m) && Cycling(w, i, j, m, n, Gcd.Euclid(n, m))
    requires Source(j, m, n) == i
    ensures w + {j} == ClassOf(n, Gcd.Euclid(n, m), i)
  {
    hide Gcd.Euclid, Source, Before;
    var g, v := Gcd.Euclid(n, m), w + {j};
    assert ClosedSet(v, m, n);
    forall x | x in ClassOf(n, g, i) ensures x in v {
      InClass(v, x, i, m, n);
    }
  }

  /** One more position of the cycle gets its element, which had not been overwritten yet. */
  lemma MoveStep<T>(before: seq<T>, s: seq<T>, first: nat, n: nat, m: nat, i: nat, g: nat, w: set<nat>, j: nat)
    requires 0 < m < n && first + n <= |before| && 0 < g && j < n
    requires Source(j, m, n) < n && Source(j, m, n) !in Classes(n, g, i) + w
    requires Moved(before, s, first, n, m, Classes(n, g, i) + w)
    ensures |s| == |before| && first + j < |s|
    ensures Moved(before, s[first + j := s[first + Source(j, m, n)]], first, n, m, Classes(n, g, i) + (w + {j}))
  {
    hide Source, Classes;
    var k := Source(j, m, n);
    assert s[first + k] == before[first + k];
  }

  /** The last position of the cycle gets the element that was saved first. */
  lemma MoveLast<T>(before: seq<T>, s: seq<T>, first: nat, n: nat, m: nat, i: nat, g: nat, w: set<nat>, j: nat)
    requires 0 < m < n && first + n <= |before| && 0 < g && i < n
    requires j < n && Source(j, m, n) == i
    requires w + {j} == ClassOf(n, g, i)
    requires Moved(before, s, first, n, m, Classes(n, g, i) + w)
    ensures |s| == |before|
    ensures Moved(before, s[first + j := before[first + i]], first, n, m, Classes(n, g, i + 1))
  {
    hide Source;
    assert Classes(n, g, i + 1) == Classes(n, g, i) + ClassOf(n, g, i);
    assert Classes(n, g, i + 1) == (Classes(n, g, i) + w) + {j};
  }

  lemma CycleStart<T>(before: seq<T>, s: seq<T>, first: nat, n: nat, m: nat, i: nat)
    requires 0 < m < n && first + n <= |before| && i < Gcd.Euclid(n, m)
    requires Moved(before, s, first, n, m, Classes(n, Gcd.Euclid(n, m), i))
    ensures i < n && |s| == |before| && s[first + i] == before[first + i]
    ensures Cycling({}, i, i, m, n, Gcd.Euclid(n, m))
    ensures Moved(before, s, first, n, m, Classes(n, Gcd.Euclid(n, m), i) + {})
  {
    hide Gcd.Euclid;
    var g := Gcd.Euclid(n, m);
    DivisorBelow(n, m);
    DivModUnique(i, g, 0, i);
    assert Classes(n, g, i) + {} == Classes(n, g, i);
  }

  lemma CycleRoom(w: set<nat>, i: nat, j: nat, m: nat, n: nat, g: nat)
    requires 0 < m < n && 0 < g && Cycling(w, i, j, m, n, g)
    ensures |w| < n && |w + {j}| == |w| + 1
  {
    hide Source, Before;
    BelowCount(w + {j}, n);
  }

  method RotateCycle<T>(a: array<T>, first: nat, n: nat, m: nat, i: nat, ghost before: seq<T>)
    requires 0 < m < n && first + n <= a.Length == |before|
    requires i < Gcd.Euclid(n, m)
    requires Moved(before, a[..], first, n, m, Classes(n, Gcd.Euclid(n, m), i))
    modifies a
    ensures Moved(before, a[..], first, n, m, Classes(n, Gcd.Euclid(n, m), i + 1))
  {
    hide Gcd.Euclid, Moved, Classes, ClassOf, Cycling;
    ghost var g := Gcd.Euclid(n, m);
    CycleStart(before, a[..], first, n, m, i);
    var temp := a[first + i];
    var j: nat := i;
    ghost var w: set<nat> := {};
    while true
      invariant j < n
      invariant Cycling(w, i, j, m, n, g)
      invariant Moved(before, a[..], first, n, m, Classes(n, g, i) + w)
      decreases n - |w|
    {
      CycleRoom(w, i, j, m, n, g);
      var k: nat := j + m;
      if k >= n {
        k := k - n;
      }
      if k == i {
        break;
      }
      CycleStep(w, i, j, m, n);
      MoveStep(before, a[..], first, n, m, i, g, w, j);
      a[first + j] := a[first + k];
      w := w + {j};
      j := k;
    }
    CycleEnd(w, i, j, m, n);
    MoveLast(before, a[..], first, n, m, i, g, w, j);
    a[first + j] := temp;
  }

  lemma AllMoved<T>(before: seq<T>, after: seq<T>, first: nat, n: nat, m: nat, g: nat)
    requires 0 < g && m <= n && first + n <= |before|
    requires Moved(before, after, first, n, m, Classes(n, g, g))
    ensures Replaced(before, after, first, first + n, Rotated(before[first..first + n], m))
  {
  }

  lemma StartMoving<T>(s: seq<T>, first: nat, n: nat, m: nat, g: nat)
    requires 0 < g && m <= n && first + n <= |s|
    ensures Moved(s, s, first, n, m, Classes(n, g, 0))
  {
  }

  method RotateRandomAccess<T>(a: array<T>, first: nat, middle: nat, last: nat) returns (result: nat)
    requires first <= middle <= last <= a.Length
    modifies a
    ensures Replaced(old(a[..]), a[..], first, last, Rotated(old(a[first..last]), middle - first))
    ensures result == if first == middle then first else first + (last - middle)
  {
    hide Gcd.Euclid, Classes, Rotated, Replaced, Moved;
    assert a[first..last] == old(a[..])[first..last];
    if first == middle || middle == last {
      NothingToRotate(a[..], first, middle, last);
      return first;
    }
    var n, m := last - first, middle - first;
    var g := Gcd.Compute(n, m);
    DivisorBelow(n, m);
    result := first + (last - middle);
    StartMoving(a[..], first, n, m, g);
    for i := 0 to g
      invariant Moved(old(a[..]), a[..], first, n, m, Classes(n, g, i))
    {
      RotateCycle(a, first, n, m, i, old(a[..]));
    }
    AllMoved(old(a[..]), a[..], first, n, m, g);
  }

  // ----- bidirectional: three reversals

  /** The positions of `[b, x)` and `[y, e)` were exchanged. */
  ghost predicate Mirrored<T>(before: seq<T>, after: seq<T>, b: nat, x: nat, y: nat, e: nat) {
    && b <= x <= y <= e <= |before| == |after| && x - b == e - y
    && forall p {:trigger after[p]} | 0 <= p < |after| ::
         after[p] == if b <= p < x || y <= p < e then before[b + e - 1 - p] else before[p]
  }

  lemma MirrorStep<T>(before: seq<T>, s: seq<T>, b: nat, x: nat, y: nat, e: nat)
    requires Mirrored(before, s, b, x, y, e) && x < y - 1
    ensures Mirrored(before, Swapped(s, x, y - 1), b, x + 1, y - 1, e)
  {
  }

  lemma MirrorEnd<T>(before: seq<T>, s: seq<T>, b: nat, x: nat, y: nat, e: nat)
    requires Mirrored(before, s, b, x, y, e) && y <= x + 1
    ensures Replaced(before, s, b, e, Reversed(before[b..e]))
  {
  }

  lemma MirrorStart<T>(s: seq<T>, b: nat, e: nat)
    requires b <= e <= |s|
    ensures Mirrored(s, s, b, b, e, e)
  {
  }

  /** The loop for pointers, which compares before each swap. */
  method ReversePointers<T>(a: array<T>, b: nat, e: nat)
    requires b <= e <= a.Length
    modifies a
    ensures Replaced(old(a[..]), a[..], b, e, Reversed(old(a[b..e])))
  {
    hide Mirrored, Reversed, Replaced, Swapped;
    ghost var before := a[..];
    assert a[b..e] == before[b..e];
    MirrorStart(before, b, e);
    if b == e {
      MirrorEnd(before, before, b, b, e, e);
    } else {
      var x, y: nat := b, e - 1;
      while x < y
        invariant b <= x <= y + 1 <= e
        invariant Mirrored(before, a[..], b, x, y + 1, e)
      {
        MirrorStep(before, a[..], b, x, y + 1, e);
        Swap(a, x, y);
        x, y := x + 1, y - 1;
      }
      MirrorEnd(before, a[..], b, x, y + 1, e);
    }
  }

  /** The loop for other iterators, which tells only whether they are equal. */
  method ReverseIterators<T>(a: array<T>, b: nat, e: nat)
    requires b <= e <= a.Length
    modifies a
    ensures Replaced(old(a[..]), a[..], b, e, Reversed(old(a[b..e])))
  {
    hide Mirrored, Reversed, Replaced, Swapped;
    ghost var before := a[..];
    assert a[b..e] == before[b..e];
    MirrorStart(before, b, e);
    var x, y: nat := b, e;
    while x != y
      invariant b <= x <= y <= e
      invariant Mirrored(before, a[..], b, x, y, e)
      decreases y - x
    {
      if x == y - 1 {
        MirrorEnd(before, a[..], b, x, y, e);
        return;
      }
      MirrorStep(before, a[..], b, x, y, e);
      y := y - 1;
      Swap(a, x, y);
      x := x + 1;
    }
    MirrorEnd(before, a[..], b, x, y, e);
  }

  /** Reversing both parts and then the whole exchanges the parts. */
  lemma ThreeReversals<T>(s: seq<T>, m: nat)
    requires m <= |s|
    ensures Reversed(Reversed(s[..m]) + Reversed(s[m..])) == Rotated(s, m)
  {
    var t, r := Reversed(s[..m]) + Reversed(s[m..]), Rotated(s, m);
    forall k | 0 <= k < |s| ensures Reversed(t)[k] == r[k] {
      assert Reversed(t)[k] == t[|s| - 1 - k];
    }
  }

  lemma ReversalsRotate<T>(s0: seq<T>, s1: seq<T>, s2: seq<T>, s3: seq<T>, first: nat, middle: nat, last: nat)
    requires first <= middle <= last <= |s0|
    requires Replaced(s0, s1, first, middle, Reversed(s0[first..middle]))
    requires |s1| == |s0| && Replaced(s1, s2, middle, last, Reversed(s1[middle..last]))
    requires |s2| == |s0| && Replaced(s2, s3, first, last, Reversed(s2[first..last]))
    ensures Replaced(s0, s3, first, last, Rotated(s0[first..last], middle - first))
  {
    hide Reversed;
    var s, m := s0[first..last], middle - first;
    assert s1[middle..last] == s[m..] && s0[first..middle] == s[..m];
    assert s2[first..last] == Reversed(s[..m]) + Reversed(s[m..]);
    ThreeReversals(s, m);
  }

  method RotateBidirectional<T>(a: array<T>, first: nat, middle: nat, last: nat) returns (result: nat)
    requires first <= middle <= last <= a.Length
    modifies a
    ensures Replaced(old(a[..]), a[..], first, last, Rotated(old(a[first..last]), middle - first))
    ensures result == if first == middle then first else first + (last - middle)
  {
    hide Replaced, Reversed, Rotated;
    if first == middle || middle == last {
      NothingToRotate(a[..], first, middle, last);
      return first;
    }
    result := first + (last - middle);
    ghost var s0 := a[..];
    ReverseIterators(a, first, middle);
    ghost var s1 := a[..];
    ReverseIterators(a, middle, last);
    ghost var s2 := a[..];
    ReverseIterators(a, first, last);
    ReversalsRotate(s0, s1, s2, a[..], first, middle, last);
  }

  // ----- forward: swapping blocks

  /** With `first` at `f`, the two cursors at `mid` and `nx`: what the range will hold in the end. */
  ghost function Outcome<T>(s: seq<T>, first: nat, f: nat, mid: nat, nx: nat, last: nat): seq<T>
    requires first <= f <= mid <= nx <= last <= |s|
  {
    s[first..f] + (s[nx..last] + s[mid..nx] + s[f..mid])
  }

  ghost predicate Progress<T>(before: seq<T>, s: seq<T>, first: nat, middle: nat, f: nat, mid: nat, nx: nat,
      last: nat) {
    && first <= f <= mid <= nx <= last <= |s| == |before| && first <= middle <= last
    && s[..first] == before[..first] && s[last..] == before[last..]
    && Outcome(s, first, f, mid, nx, last) == Rotated(before[first..last], middle - first)
  }

  lemma StartSwapping<T>(s: seq<T>, first: nat, middle: nat, last: nat)
    requires first <= middle <= last <= |s|
    ensures Progress(s, s, first, middle, first, middle, middle, last)
  {
  }

  lemma SwapOutcome<T>(s: seq<T>, first: nat, f: nat, mid: nat, nx: nat, last: nat)
    requires first <= f < mid <= nx < last <= |s|
    ensures Outcome(Swapped(s, f, nx), first, f + 1, mid, nx + 1, last) == Outcome(s, first, f, mid, nx, last)
  {
    var t := Swapped(s, f, nx);
    assert t[first..f + 1] == s[first..f] + [s[nx]];
    assert t[nx + 1..last] == s[nx + 1..last];
    assert t[mid..nx + 1] == s[mid..nx] + [s[f]];
    assert t[f + 1..mid] == s[f + 1..mid];
    assert s[nx..last] == [s[nx]] + s[nx + 1..last];
    assert s[f..mid] == [s[f]] + s[f + 1..mid];
  }

  lemma SwapStep<T>(before: seq<T>, s: seq<T>, first: nat, middle: nat, f: nat, mid: nat, nx: nat, last: nat)
    requires first <= f < mid <= nx < last && Progress(before, s, first, middle, f, mid, nx, last)
    ensures Progress(before, Swapped(s, f, nx), first, middle, f + 1, mid, nx + 1, last)
  {
    SwapOutcome(s, first, f, mid, nx, last);
    hide Outcome;
  }

  lemma BackToMiddle<T>(before: seq<T>, s: seq<T>, first: nat, middle: nat, f: nat, mid: nat, last: nat)
    requires Progress(before, s, first, middle, f, mid, last, last)
    ensures Progress(before, s, first, middle, f, mid, mid, last)
  {
  }

  lemma NewMiddle<T>(before: seq<T>, s: seq<T>, first: nat, middle: nat, f: nat, nx: nat, last: nat)
    requires Progress(before, s, first, middle, f, f, nx, last)
    ensures Progress(before, s, first, middle, f, nx, nx, last)
  {
  }

  lemma AllSwapped<T>(before: seq<T>, s: seq<T>, first: nat, middle: nat, f: nat, last: nat)
    requires Progress(before, s, first, middle, f, f, f, last)
    ensures Replaced(before, s, first, last, Rotated(before[first..last], middle - first))
  {
    assert Outcome(s, first, f, f, f, last) == s[first..last];
  }

  method RotateForward<T>(a: array<T>, first: nat, middle: nat, last: nat) returns (result: nat)
    requires first <= middle <= last <= a.Length
    modifies a
    ensures Replaced(old(a[..]), a[..], first, last, Rotated(old(a[first..last]), middle - first))
    ensures result == if first == middle then first else first + (last - middle)
  {
    hide Progress, Outcome, Rotated, Swapped, Replaced;
    ghost var before := a[..];
    assert a[first..last] == before[first..last];
    if first == middle || middle == last {
      NothingToRotate(before, first, middle, last);
      return first;
    }
    result := first + (last - middle);
    SwapBlocks(a, first, middle, last);
  }

  method SwapBlocks<T>(a: array<T>, first: nat, middle: nat, last: nat)
    requires first < middle < last <= a.Length
    modifies a
    ensures Replaced(old(a[..]), a[..], first, last, Rotated(old(a[..])[first..last], middle - first))
  {
    hide Progress, Outcome, Rotated, Swapped, Replaced;
    var f, mid, nx := first, middle, middle;
    ghost var before := a[..];
    StartSwapping(before, first, middle, last);
    while f != nx
      invariant first <= f && (f < mid <= nx < last || f == mid == nx <= last)
      invariant Progress(before, a[..], first, middle, f, mid, nx, last)
      decreases last - f
    {
      SwapStep(before, a[..], first, middle, f, mid, nx, last);
      Swap(a, f, nx);
      f, nx := f + 1, nx + 1;
      if nx == last {
        BackToMiddle(before, a[..], first, middle, f, mid, last);
        nx := mid;
      } else if f == mid {
        NewMiddle(before, a[..], first, middle, f, nx, last);
        mid := nx;
      }
    }
    AllSwapped(before, a[..], first, middle, f, last);
  }

  // ----- rotation by one place

  lemma OneMoreMoved<T>(before: seq<T>, s: seq<T>, dest: nat, from: nat, sb: nat)
    requires dest <= from <= sb < |before| && Replaced(before, s, dest, dest + (sb - from), before[from..sb])
    ensures |s| == |before|
    ensures Replaced(before, s[dest + (sb - from) := s[sb]], dest, dest + (sb - from) + 1, before[from..sb + 1])
  {
    assert s[sb] == before[sb];
    assert before[from..sb + 1] == before[from..sb] + [before[sb]];
  }

  lemma OneMoreMovedBack<T>(before: seq<T>, s: seq<T>, start: nat, destEnd: nat, se: nat, to: nat)
    requires 0 < se <= start && se <= to <= destEnd <= |before| && Replaced(before, s, start, destEnd, before[se..to])
    ensures |s| == |before|
    ensures Replaced(before, s[start - 1 := s[se - 1]], start - 1, destEnd, before[se - 1..to])
  {
    assert s[se - 1] == before[se - 1];
    assert before[se - 1..to] == [before[se - 1]] + before[se..to];
  }

  lemma NothingReplaced<T>(s: seq<T>, at: nat, t: seq<T>)
    requires at <= |s| && t == []
    ensures Replaced(s, s, at, at, t)
  {
  }

  /** Moves a range towards the front. */
  method MoveRange<T>(a: array<T>, from: nat, to: nat, dest: nat) returns (end: nat)
    requires dest <= from <= to <= a.Length
    modifies a
    ensures end == dest + (to - from)
    ensures Replaced(old(a[..]), a[..], dest, end, old(a[..])[from..to])
  {
    hide Replaced;
    ghost var before := a[..];
    var sb := from;
    end := dest;
    NothingReplaced(before, dest, before[from..from]);
    while sb != to
      invariant from <= sb <= to && end == dest + (sb - from)
      invariant Replaced(before, a[..], dest, end, before[from..sb])
    {
      OneMoreMoved(before, a[..], dest, from, sb);
      a[end] := a[sb];
      end, sb := end + 1, sb + 1;
    }
  }

  /** Moves a range towards the back, last element first. */
  method MoveRangeBackward<T>(a: array<T>, from: nat, to: nat, destEnd: nat) returns (start: nat)
    requires from <= to <= destEnd <= a.Length
    modifies a
    ensures start == destEnd - (to - from)
    ensures Replaced(old(a[..]), a[..], start, destEnd, old(a[..])[from..to])
  {
    hide Replaced;
    ghost var before := a[..];
    var se := to;
    start := destEnd;
    NothingReplaced(before, destEnd, before[to..to]);
    while se != from
      invariant from <= se <= to && start == destEnd - (to - se)
      invariant Replaced(before, a[..], start, destEnd, before[se..to])
    {
      OneMoreMovedBack(before, a[..], start, destEnd, se, to);
      se, start := se - 1, start - 1;
      a[start] := a[se];
    }
  }

  method RotateLeftByOne<T>(a: array<T>, first: nat, last: nat) returns (result: nat)
    requires first < last <= a.Length
    modifies a
    ensures Replaced(old(a[..]), a[..], first, last, Rotated(old(a[first..last]), 1))
    ensures result == last - 1
  {
    var temp := a[first];
    result := MoveRange(a, first + 1, last, first);
    a[result] := temp;
  }

  method RotateRightByOne<T>(a: array<T>, first: nat, last: nat) returns (result: nat)
    requires first < last <= a.Length
    modifies a
    ensures Replaced(old(a[..]), a[..], first, last, Rotated(old(a[first..last]), last - first - 1))
    ensures result == first + 1
  {
    var previous := last - 1;
    var temp := a[previous];
    result := MoveRangeBackward(a, first, previous, last);
    a[first] := temp;
  }

  // ----- the public entry

  datatype Category = Forward | Bidirectional | RandomAccess

  /** Whether the returned position is the one section 25.7.11 [alg.rotate] of ISO/IEC 14882:2020 asks for. */
  predicate ReturnsStandardPosition(cat: Category, cpp20: bool, first: nat, middle: nat, last: nat) {
    first != middle || middle == last || (last - first == 1 && cpp20 && cat != Forward)
  }

  method Rotate<T>(a: array<T>, first: nat, middle: nat, last: nat, cat: Category, cpp20: bool) returns (result: nat)
    requires first <= middle <= last <= a.Length
    modifies a
    ensures Replaced(old(a[..]), a[..], first, last, Rotated(old(a[first..last]), middle - first))
    ensures first <= result <= last
    ensures result == first + (last - middle) <==> ReturnsStandardPosition(cat, cpp20, first, middle, last)
  {
    if first + 1 == middle {
      result := RotateLeftByOne(a, first, last);
    } else if middle + 1 == last && cpp20 && cat != Forward {
      result := RotateRightByOne(a, first, last);
    } else {
      match cat
      case Forward => result := RotateForward(a, first, middle, last);
      case Bidirectional => result := RotateBidirectional(a, first, middle, last);
      case RandomAccess => result := RotateRandomAccess(a, first, middle, last);
    }
  }
}
