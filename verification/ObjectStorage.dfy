/** Storage for objects with lifetimes, and the standard algorithms that move objects through it. */
module ObjectStorage {

  /** Unconstructed memory, an object that was moved from, or an object with a value. */
  datatype Cell<T> = Raw | Husk | Live(value: T)

  ghost predicate AllRaw<T>(s: seq<Cell<T>>, b: nat, e: nat) {
    b <= e <= |s| && forall i | b <= i < e :: s[i].Raw?
  }

  ghost predicate Constructed<T>(s: seq<Cell<T>>, b: nat, e: nat) {
    b <= e <= |s| && forall i | b <= i < e :: !s[i].Raw?
  }

  function Lives<T>(values: seq<T>): (s: seq<Cell<T>>)
    ensures |s| == |values| && forall i | 0 <= i < |s| :: s[i] == Live(values[i])
  {
    seq(|values|, i requires 0 <= i < |values| => Live(values[i]))
  }

  /** Placement new: only over unconstructed memory. */
  method Construct<T>(a: array<Cell<T>>, i: nat, c: Cell<T>)
    requires i < a.Length && a[i].Raw? && !c.Raw?
    modifies a
    ensures a[..] == old(a[..])[i := c]
  {
    a[i] := c;
  }

  /** Move assignment: only onto an object. Of an object to itself it keeps the value only where its type says so. */
  method MoveAssign<T>(a: array<Cell<T>>, to: nat, from: nat, keeps: bool)
    requires to < a.Length && from < a.Length && !a[to].Raw? && !a[from].Raw?
    modifies a
    ensures to != from ==> a[..] == old(a[..])[to := old(a[from])][from := Husk]
    ensures to == from ==> a[..] == if keeps then old(a[..]) else old(a[..])[to := Husk]
  {
    if to != from || !keeps {
      a[to] := a[from];
      a[from] := Husk;
    }
  }

  /** Nothing is left in `[b, e)`. */
  ghost predicate Destroyed<T>(before: seq<Cell<T>>, s: seq<Cell<T>>, b: nat, e: nat) {
    && |before| == |s|
    && forall i {:trigger s[i]} | 0 <= i < |s| :: s[i] == if b <= i < e then Raw else before[i]
  }

  /** `std::destroy` */
  method Destroy<T>(a: array<Cell<T>>, b: nat, e: nat)
    requires b <= e && Constructed(a[..], b, e)
    modifies a
    ensures Destroyed(old(a[..]), a[..], b, e)
  {
    ghost var before := a[..];
    for x := b to e
      invariant Destroyed(before, a[..], b, x)
    {
      a[x] := Raw;
    }
  }

  /** `std::uninitialized_copy` of values given by the caller. */
  method UninitializedCopy<T>(a: array<Cell<T>>, d: nat, values: seq<T>)
    requires AllRaw(a[..], d, d + |values|)
    modifies a
    ensures forall i {:trigger a[i]} | 0 <= i < a.Length ::
      a[i] == if d <= i < d + |values| then Live(values[i - d]) else old(a[i])
  {
    ghost var before := a[..];
    for x := 0 to |values|
      invariant forall i {:trigger a[i]} {:trigger before[i]} | 0 <= i < a.Length ::
        a[i] == if d <= i < d + x then Live(values[i - d]) else before[i]
    {
      assert before[d + x].Raw?;
      Construct(a, d + x, Live(values[x]));
    }
  }

  /** The objects of `[b, e)` were moved to `d` in the same storage; the sources remain as husks. */
  ghost predicate MovedUp<T>(before: seq<Cell<T>>, s: seq<Cell<T>>, b: nat, e: nat, d: nat) {
    && b <= e <= d && d + (e - b) <= |before| == |s|
    && forall i {:trigger s[i]} | 0 <= i < |s| ::
         s[i] == if b <= i < e then Husk else if d <= i < d + (e - b) then before[i - d + b] else before[i]
  }

  /** `std::uninitialized_move` into later memory of the same array */
  method UninitializedMoveWithin<T>(a: array<Cell<T>>, b: nat, e: nat, d: nat)
    requires b <= e <= d && Constructed(a[..], b, e) && AllRaw(a[..], d, d + (e - b))
    modifies a
    ensures MovedUp(old(a[..]), a[..], b, e, d)
  {
    ghost var before := a[..];
    for x := b to e
      invariant MovedUp(before, a[..], b, x, d)
    {
      assert before[d + (x - b)].Raw? && !before[x].Raw? && a[..][x] == before[x] && a[..][d + (x - b)] == before[d + (x - b)];
      Construct(a, d + (x - b), a[x]);
      a[x] := Husk;
    }
  }

  /** `std::uninitialized_move` into another array. */
  method UninitializedMoveAcross<T>(src: array<Cell<T>>, b: nat, e: nat, dst: array<Cell<T>>, d: nat)
    requires src != dst && b <= e && Constructed(src[..], b, e) && AllRaw(dst[..], d, d + (e - b))
    modifies src, dst
    ensures forall i {:trigger src[i]} | 0 <= i < src.Length :: src[i] == if b <= i < e then Husk else old(src[i])
    ensures forall i {:trigger dst[i]} | 0 <= i < dst.Length ::
      dst[i] == if d <= i < d + (e - b) then old(src[..])[i - d + b] else old(dst[i])
  {
    ghost var from, to := src[..], dst[..];
    for x := b to e
      invariant forall i {:trigger src[i]} {:trigger from[i]} | 0 <= i < src.Length ::
        src[i] == if b <= i < x then Husk else from[i]
      invariant forall i {:trigger dst[i]} {:trigger to[i]} | 0 <= i < dst.Length ::
        dst[i] == if d <= i < d + (x - b) then from[i - d + b] else to[i]
    {
      assert to[d + (x - b)].Raw? && !from[x].Raw?;
      Construct(dst, d + (x - b), src[x]);
      src[x] := Husk;
    }
  }

  /** What moving onto `[d, d + n)` from `[b, b + n)` leaves there, element by element: a move in place may lose values. */
  function Arrived<T>(s: seq<Cell<T>>, i: nat, b: nat, d: nat, keeps: bool): Cell<T>
    requires i >= d && i - d + b < |s|
  {
    if b == d && !keeps then Husk else s[i - d + b]
  }

  /** The range `[b, e)` has been moved so that it ends at `de`, as far back as `x`. */
  ghost predicate MovedBack<T>(before: seq<Cell<T>>, s: seq<Cell<T>>, b: nat, x: nat, e: nat, de: nat, keeps: bool) {
    && b <= x <= e <= de <= |before| == |s|
    && forall i {:trigger s[i]} | 0 <= i < |s| ::
         s[i] == if de - (e - x) <= i < de then Arrived(before, i, b, de - (e - b), keeps)
                 else if x <= i < e then Husk else before[i]
  }

  lemma MoveBackStep<T>(before: seq<Cell<T>>, s: seq<Cell<T>>, t: seq<Cell<T>>, b: nat, x: nat, e: nat, de: nat,
      keeps: bool)
    requires MovedBack(before, s, b, x, e, de, keeps) && b < x
    requires e != de ==> t == s[de - (e - x) - 1 := s[x - 1]][x - 1 := Husk]
    requires e == de ==> t == if keeps then s else s[x - 1 := Husk]
    ensures MovedBack(before, t, b, x - 1, e, de, keeps)
  {
  }

  /** `std::move_backward` */
  method MoveBackward<T>(a: array<Cell<T>>, b: nat, e: nat, de: nat, keeps: bool)
    requires b <= e <= de && Constructed(a[..], b, e) && Constructed(a[..], de - (e - b), de)
    modifies a
    ensures MovedBack(old(a[..]), a[..], b, b, e, de, keeps)
  {
    ghost var before := a[..];
    MoveBackStart(before, b, e, de, keeps);
    var x, d: nat := e, de;
    while x != b
      invariant b <= x <= e && d == de - (e - x)
      invariant MovedBack(before, a[..], b, x, e, de, keeps)
    {
      ghost var s := a[..];
      MoveBackRoom(before, s, b, x, e, de, keeps);
      x, d := x - 1, d - 1;
      MoveAssign(a, d, x, keeps);
      MoveBackStep(before, s, a[..], b, x + 1, e, de, keeps);
    }
  }

  lemma MoveBackStart<T>(s: seq<Cell<T>>, b: nat, e: nat, de: nat, keeps: bool)
    requires b <= e <= de <= |s|
    ensures MovedBack(s, s, b, e, e, de, keeps)
  {
  }

  lemma MoveBackRoom<T>(before: seq<Cell<T>>, s: seq<Cell<T>>, b: nat, x: nat, e: nat, de: nat, keeps: bool)
    requires MovedBack(before, s, b, x, e, de, keeps) && b < x
    requires Constructed(before, b, e) && Constructed(before, de - (e - b), de)
    ensures !s[x - 1].Raw? && !s[de - (e - x) - 1].Raw?
  {
  }

  /** `std::move` of a range to the front */
  method MoveForward<T>(a: array<Cell<T>>, b: nat, e: nat, d: nat, keeps: bool)
    requires d <= b <= e && Constructed(a[..], d, e)
    modifies a
    ensures forall i {:trigger a[i]} | 0 <= i < a.Length ::
        a[i] == if d <= i < d + (e - b) then Arrived(old(a[..]), i, b, d, keeps) else if b <= i < e then Husk else old(a[i])
  {
    ghost var before := a[..];
    var x, y: nat := b, d;
    while x != e
      invariant b <= x <= e && y == d + (x - b)
      invariant forall i {:trigger a[i]} {:trigger before[i]} | 0 <= i < a.Length ::
        a[i] == if d <= i < y then Arrived(before, i, b, d, keeps) else if b <= i < x then Husk else before[i]
    {
      assert !before[x].Raw? && !before[y].Raw?;
      MoveAssign(a, y, x, keeps);
      x, y := x + 1, y + 1;
    }
  }
}
