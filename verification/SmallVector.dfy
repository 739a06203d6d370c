/** The small vector of `svector.h`: elements live in the vector itself or in one block of memory. */
module SmallVector {
  import opened Entries
  import opened InlineCapacity
  import opened ObjectStorage
  import opened Words

  const MAX_SIZE: nat := 0x7fff_ffff_ffff_ffff

  // ----- capacity

  function Doubled(c: nat, size: nat): nat
    requires c > 0
    decreases size - c
  {
    if c >= size then c else Doubled(2 * c, size)
  }

  /** The first capacity that suffices, in doubling from `start` up to the greatest one. */
  function Least(start: nat, size: nat): nat {
    if size == 0 then start else
      var c := Doubled(if start > 1 then start else 1, size);
      if c < MAX_SIZE then c else MAX_SIZE
  }

  lemma {:induction false} DoubledOrder(c: nat, size: nat, more: nat)
    requires c > 0 && size <= more
    ensures c <= Doubled(c, size) <= Doubled(c, more) && size <= Doubled(c, size)
    ensures Doubled(c, Doubled(c, size)) == Doubled(c, size)
    ensures c >= size || Doubled(c, size) < 2 * size
    decreases more - c
  {
    if c < more {
      DoubledOrder(2 * c, size, more);
    }
  }

  /** `r` is the first of `c`, `2 * c`, `4 * c` and so on that is not below `size`. */
  ghost predicate FirstDoubling(c: nat, size: nat, r: nat) {
    exists j: nat :: r == c * Pow2(j) && size <= r && (j == 0 || r < 2 * size)
  }

  lemma {:induction false} DoubledPower(c: nat, size: nat) returns (j: nat)
    requires c > 0
    ensures Doubled(c, size) == c * Pow2(j) && size <= c * Pow2(j) && (j == 0 || c * Pow2(j) < 2 * size)
    decreases size - c
  {
    if c >= size {
      j := 0;
    } else {
      var k := DoubledPower(2 * c, size);
      DoubledOrder(2 * c, size, size);
      TwicePow2(c, k);
      j := k + 1;
    }
  }

  /** The capacity is the first sufficient doubling of the start, or of one, unless that exceeds the maximum. */
  lemma LeastExactly(start: nat, size: nat) returns (r: nat)
    requires size > 0
    ensures FirstDoubling(if start > 1 then start else 1, size, r)
    ensures Least(start, size) == if r < MAX_SIZE then r else MAX_SIZE
  {
    var c := if start > 1 then start else 1;
    var j := DoubledPower(c, size);
    r := Doubled(c, size);
  }

  lemma {:induction false} DoubledNext(m: nat, c: nat)
    requires 0 < m && c > 0 && Doubled(m, c) == c
    ensures Doubled(m, 2 * c) == 2 * c
    decreases c - m
  {
    if m < c {
      DoubledNext(2 * m, c);
    } else {
      assert Doubled(2 * c, 2 * c) == 2 * c;
    }
  }

  lemma {:induction false} DoubledChain(m: nat, c: nat, size: nat)
    requires 0 < m && c > 0 && Doubled(m, c) == c
    ensures Doubled(m, Doubled(c, size)) == Doubled(c, size)
    decreases size - c
  {
    if c < size {
      DoubledNext(m, c);
      DoubledChain(m, 2 * c, size);
    }
  }

  /** Growing in steps from `n` goes through the same capacities. */
  lemma LeastChain(n: nat, c: nat, size: nat)
    requires c == Least(n, c)
    ensures Least(n, Least(c, size)) == Least(c, size)
  {
    var m := if n > 1 then n else 1;
    hide Doubled;
    DoubledOrder(m, size, MAX_SIZE + size);
    DoubledOrder(m, MAX_SIZE, MAX_SIZE);
    if c > 0 {
      DoubledOrder(c, size, size);
      if Doubled(m, c) == c {
        DoubledChain(m, c, size);
      }
    }
  }

  lemma InlineLeast(n: nat)
    requires n <= MAX_SIZE
    ensures Least(n, n) == n
  {
  }

  lemma LeastEnough(c: nat, size: nat)
    requires c <= MAX_SIZE
    ensures size <= c ==> Least(c, size) == c
  {
  }

  lemma LeastOrder(n: nat, size: nat, c: nat)
    requires c == Least(n, c) && size <= c && n <= MAX_SIZE
    ensures Least(n, size) <= c
  {
    hide Doubled;
    DoubledOrder(if n > 1 then n else 1, size, c);
    DoubledOrder(if n > 1 then n else 1, c, c);
  }

  /** `calculate_new_capacity`: doubling in 64-bit words until the size fits; no result where the source throws. */
  method CalculateNewCapacity(sizeToFit: nat, start: nat) returns (capacity: Option<nat>)
    requires start <= MAX_SIZE
    ensures capacity.None? <==> sizeToFit > MAX_SIZE
    ensures capacity.Some? ==> capacity.value == Least(start, sizeToFit)
    ensures capacity.Some? ==> sizeToFit <= capacity.value <= MAX_SIZE && start <= capacity.value
    ensures capacity.Some? && capacity.value != start ==> start < sizeToFit && capacity.value < 2 * sizeToFit
    ensures capacity.Some? && capacity.value != start ==> capacity.value >= 2 * start || capacity.value == MAX_SIZE
  {
    if sizeToFit > MAX_SIZE {
      return None;
    }
    if sizeToFit == 0 {
      return Some(start);
    }
    var c := if start > 1 then start else 1;
    while c < sizeToFit && (c * 2) % WORD64 > c
      invariant 1 <= c && start <= c
      invariant Doubled(c, sizeToFit) == Doubled(if start > 1 then start else 1, sizeToFit)
      invariant c == start || (c < 2 * sizeToFit && (c >= 2 * start || c == 1))
      invariant c == start || start < sizeToFit
      decreases sizeToFit - c
    {
      c := (c * 2) % WORD64;
    }
    if c < sizeToFit {
      c := MAX_SIZE;
    }
    return Some(if c < MAX_SIZE then c else MAX_SIZE);
  }

  /** The test for growth adds in 64-bit words. */
  predicate Grows(size: nat, count: nat, capacity: nat) {
    (size + count) % WORD64 > capacity
  }

  /** It is right exactly as long as the sum does not wrap around. */
  lemma GrowsExactly(size: nat, count: nat, capacity: nat)
    requires size <= capacity <= MAX_SIZE && count < WORD64
    ensures (Grows(size, count, capacity) <==> size + count > capacity) <==> size + count < WORD64
  {
  }

  // ----- the cells of a vector

  ghost predicate Holds<T>(s: seq<Cell<T>>, n: nat) {
    Constructed(s, 0, n) && AllRaw(s, n, |s|)
  }

  /** The elements `c` with exactly the `count` cells at `pos` unconstructed between them. */
  ghost predicate Opened<T>(s: seq<Cell<T>>, c: seq<Cell<T>>, pos: nat, count: nat) {
    && pos <= |c| && |c| + count <= |s|
    && Constructed(c, 0, |c|)
    && forall i {:trigger s[i]} | 0 <= i < |s| ::
         s[i] == if i < pos then c[i] else if i < pos + count then Raw else if i < |c| + count then c[i - count] else Raw
  }

  /** Opening a gap of no elements moves the tail onto itself, which may cost it its values. */
  function Disturbed<T>(c: seq<Cell<T>>, pos: nat, count: nat, keeps: bool): (r: seq<Cell<T>>)
    requires pos <= |c|
    ensures |r| == |c|
  {
    if count == 0 && !keeps then c[..pos] + seq(|c| - pos, i => Husk) else c
  }

  /** That is harmless exactly where there is a gap, where the type keeps its values, and where no tail has values. */
  lemma UndisturbedExactly<T>(c: seq<Cell<T>>, pos: nat, count: nat, keeps: bool)
    requires pos <= |c|
    ensures Disturbed(c, pos, count, keeps) == c <==> count > 0 || keeps || forall i | pos <= i < |c| :: c[i].Husk?
  {
    var r := Disturbed(c, pos, count, keeps);
    if count == 0 && !keeps {
      assert forall i | pos <= i < |c| :: r[i] == Husk;
      if forall i | pos <= i < |c| :: c[i].Husk? {
        assert r == c;
      }
    }
  }

  lemma FillGap<T>(s: seq<Cell<T>>, t: seq<Cell<T>>, c: seq<Cell<T>>, pos: nat, values: seq<T>)
    requires Opened(s, c, pos, |values|) && |t| == |s|
    requires forall i {:trigger t[i]} | 0 <= i < |t| :: t[i] == if pos <= i < pos + |values| then Live(values[i - pos]) else s[i]
    ensures Holds(t, |c| + |values|)
    ensures t[..|c| + |values|] == c[..pos] + Lives(values) + c[pos..]
  {
  }

  /** The elements of `[b, e)` were moved up to `t`, and nothing remains of those in front of `t`. */
  ghost predicate Shifted<T>(before: seq<Cell<T>>, s: seq<Cell<T>>, b: nat, e: nat, t: nat, keeps: bool) {
    && b <= e && b <= t && t + (e - b) <= |before| == |s|
    && forall i {:trigger s[i]} | 0 <= i < |s| ::
         s[i] == if t <= i < t + (e - b) then Arrived(before, i, b, t, keeps) else if b <= i < t then Raw else before[i]
  }

  /** The three steps together, with the last `u` elements moved first. */
  lemma ShiftSteps<T>(s0: seq<Cell<T>>, s1: seq<Cell<T>>, s2: seq<Cell<T>>, s3: seq<Cell<T>>, b: nat, e: nat, t: nat,
      u: nat,
      keeps: bool)
    requires b <= e && b <= t && AllRaw(s0, e, t + (e - b))
    requires u == if e <= t then e - b else t - b
    requires MovedUp(s0, s1, e - u, e, t + (e - b) - u)
    requires MovedBack(s1, s2, b, b, e - u, t + (e - b) - u, keeps)
    requires Destroyed(s2, s3, b, if e <= t then e else t)
    ensures Shifted(s0, s3, b, e, t, keeps)
  {
    forall i | 0 <= i < |s3|
      ensures s3[i] == if t <= i < t + (e - b) then Arrived(s0, i, b, t, keeps) else if b <= i < t then Raw else s0[i]
    {
      if t <= i < t + (e - u - b) {
        assert s1[i - t + b] == s0[i - t + b];
      }
    }
  }

  lemma ReadyToAssign<T>(s0: seq<Cell<T>>, s1: seq<Cell<T>>, b: nat, e: nat, t: nat, u: nat)
    requires b <= e && b <= t && Constructed(s0, b, e)
    requires u == if e <= t then e - b else t - b
    requires MovedUp(s0, s1, e - u, e, t + (e - b) - u)
    ensures Constructed(s1, b, e - u) && Constructed(s1, t, t + (e - b) - u)
  {
  }

  lemma ReadyToDestroy<T>(s0: seq<Cell<T>>, s1: seq<Cell<T>>, s2: seq<Cell<T>>, b: nat, e: nat, t: nat, u: nat,
      keeps: bool)
    requires b <= e && b <= t && Constructed(s0, b, e)
    requires u == if e <= t then e - b else t - b
    requires MovedUp(s0, s1, e - u, e, t + (e - b) - u)
    requires MovedBack(s1, s2, b, b, e - u, t + (e - b) - u, keeps)
    ensures Constructed(s2, b, if e <= t then e else t)
  {
  }

  /** `shift_right`: opens a gap in front of `[b, e)`, which moves up to `t`. */
  method ShiftRight<T>(a: array<Cell<T>>, b: nat, e: nat, t: nat, keeps: bool)
    requires b <= e && b <= t && Constructed(a[..], b, e) && AllRaw(a[..], e, t + (e - b))
    modifies a
    ensures Shifted(old(a[..]), a[..], b, e, t, keeps)
  {
    hide MovedUp, MovedBack, Destroyed, Shifted;
    var moves := e - b;
    var targetEnd := t + moves;
    var uninitialized := if moves <= targetEnd - e then moves else targetEnd - e;
    ghost var s0 := a[..];
    UninitializedMoveWithin(a, e - uninitialized, e, targetEnd - uninitialized);
    ghost var s1 := a[..];
    ReadyToAssign(s0, s1, b, e, t, uninitialized);
    MoveBackward(a, b, e - uninitialized, targetEnd - uninitialized, keeps);
    ghost var s2 := a[..];
    ReadyToDestroy(s0, s1, s2, b, e, t, uninitialized, keeps);
    Destroy(a, b, if e <= t then e else t);
    ShiftSteps(s0, s1, s2, a[..], b, e, t, uninitialized, keeps);
  }

  /** `uninitialized_move_and_destroy` of all objects in one storage into another, empty one. */
  method MoveAndDestroy<T>(src: array<Cell<T>>, dst: array<Cell<T>>, size: nat)
    requires src != dst && Holds(src[..], size) && size <= dst.Length && AllRaw(dst[..], 0, dst.Length)
    modifies src, dst
    ensures AllRaw(src[..], 0, src.Length)
    ensures Holds(dst[..], size) && dst[..size] == old(src[..size])
  {
    UninitializedMoveAcross(src, 0, size, dst, 0);
    Destroy(src, 0, size);
  }

  /** The two moves of `make_uninitialized_space_new`: in front of the gap and behind it. */
  method MoveAround<T>(a: array<Cell<T>>, size: nat, pos: nat, b: array<Cell<T>>, count: nat)
    requires a != b && pos <= size && Holds(a[..], size) && size + count <= b.Length && AllRaw(b[..], 0, b.Length)
    modifies a, b
    ensures Holds(a[..], size)
    ensures Opened(b[..], old(a[..size]), pos, count)
  {
    UninitializedMoveAcross(a, 0, pos, b, 0);
    UninitializedMoveAcross(a, pos, size, b, pos + count);
  }

  lemma OpenedInPlace<T>(before: seq<Cell<T>>, after: seq<Cell<T>>, size: nat, pos: nat, count: nat, keeps: bool)
    requires Holds(before, size) && pos <= size && Shifted(before, after, pos, size, pos + count, keeps)
    ensures Opened(after, Disturbed(before[..size], pos, count, keeps), pos, count)
  {
  }

  /** The block of an indirect vector. */
  class Block<T> {
    var size: nat
    const cells: array<Cell<T>>

    constructor (capacity: nat)
      ensures size == 0 && cells.Length == capacity && AllRaw(cells[..], 0, capacity) && fresh(cells)
    {
      size := 0;
      cells := new Cell<T>[capacity](_ => Raw);
    }
  }

  class SVector<T> {
    const inlineCapacity: nat
    const inline: array<Cell<T>>
    var isDirect: bool
    var directSize: nat
    var block: Block?<T>

    ghost function Repr(): set<object>
      reads this
    {
      {this, inline} + if block == null then {} else {block, block.cells}
    }

    /** One of the two modes, with room for the size that is stored. */
    ghost predicate Shaped()
      reads this, block
    {
      && inline.Length == inlineCapacity <= MAX_DIRECT
      && if isDirect then
           block == null && directSize <= inlineCapacity
         else
           block != null && block.cells != inline && inlineCapacity < block.cells.Length <= MAX_SIZE
           && block.cells.Length == Least(inlineCapacity, block.cells.Length)
           && block.size <= block.cells.Length
    }

    function Size(): (s: nat)
      requires Shaped()
      reads this, block
      ensures s <= Cells().Length
    {
      if isDirect then directSize else block.size
    }

    function Cells(): array<Cell<T>>
      requires Shaped()
      reads this, block
    {
      if isDirect then inline else block.cells
    }

    ghost predicate Valid()
      reads this, inline, block, if block == null then {} else {block.cells}
    {
      && Shaped()
      && Holds(Cells()[..], Size())
      && (!isDirect ==> AllRaw(inline[..], 0, inline.Length))
    }

    ghost function Contents(): (c: seq<Cell<T>>)
      requires Shaped()
      reads this, inline, block, if block == null then {} else {block.cells}
    {
      Cells()[..Size()]
    }

    function Capacity(): nat
      requires Shaped()
      reads this, block
    {
      Cells().Length
    }

    /** The size of a direct vector can be read back from the byte it is kept in, next to the mode bit. */
    lemma DirectSizeExact()
      requires Shaped() && isDirect
      ensures DirectByte(directSize) % 2 == 1 && DirectByte(directSize) / 2 == directSize
    {
    }

    constructor (n: nat)
      requires n <= MAX_DIRECT
      ensures Valid() && Contents() == [] && isDirect && inlineCapacity == n
      ensures fresh(Repr())
    {
      inlineCapacity := n;
      inline := new Cell<T>[n](_ => Raw);
      isDirect := true;
      directSize := 0;
      block := null;
    }

    /** `realloc`; `memory` tells whether the allocation succeeds. */
    method Realloc(newCapacity: nat, memory: bool) returns (ok: bool)
      requires Valid() && Size() <= newCapacity <= MAX_SIZE && newCapacity == Least(inlineCapacity, newCapacity)
      modifies Repr()
      ensures Valid() && Contents() == old(Contents()) && fresh(Repr() - old(Repr()))
      ensures ok <==> newCapacity <= inlineCapacity || memory
      ensures Cells() != old(Cells()) ==> AllRaw(old(Cells())[..], 0, old(Cells()).Length)
      ensures ok ==> Capacity() == if newCapacity <= inlineCapacity then inlineCapacity else newCapacity
      ensures !ok ==> Capacity() == old(Capacity())
    {
      hide Holds, AllRaw;
      if newCapacity <= inlineCapacity {
        if isDirect {
          return true;
        }
        var storage := block;
        MoveAndDestroy(storage.cells, inline, storage.size);
        isDirect, directSize, block := true, storage.size, null;
      } else {
        if !memory {
          return false;
        }
        var storage := new Block<T>(newCapacity);
        if isDirect {
          MoveAndDestroy(inline, storage.cells, directSize);
          storage.size := directSize;
        } else {
          MoveAndDestroy(block.cells, storage.cells, block.size);
          storage.size := block.size;
        }
        isDirect, block := false, storage;
      }
      return true;
    }

    /** `reserve` */
    method Reserve(size: nat, memory: bool) returns (ok: bool)
      requires Valid()
      modifies Repr()
      ensures Valid() && Contents() == old(Contents()) && fresh(Repr() - old(Repr()))
      ensures ok <==> size <= MAX_SIZE && (size <= old(Capacity()) || memory)
      ensures Cells() != old(Cells()) ==> AllRaw(old(Cells())[..], 0, old(Cells()).Length)
      ensures ok ==> Capacity() == Least(old(Capacity()), size) && Capacity() >= size && Capacity() >= old(Capacity())
      ensures !ok ==> Capacity() == old(Capacity())
      ensures size > inlineCapacity && ok ==> !isDirect
    {
      hide Holds, AllRaw, Least;
      InlineLeast(inlineCapacity);
      var oldCapacity := Capacity();
      var newCapacity := CalculateNewCapacity(size, oldCapacity);
      if newCapacity.None? {
        return false;
      }
      LeastChain(inlineCapacity, oldCapacity, size);
      LeastEnough(oldCapacity, size);
      if newCapacity.value > oldCapacity {
        ok := Realloc(newCapacity.value, memory);
      } else {
        ok := true;
      }
    }

    /** `shrink_to_fit` */
    method ShrinkToFit(memory: bool)
      requires Valid()
      modifies Repr()
      ensures Valid() && Contents() == old(Contents()) && fresh(Repr() - old(Repr()))
      ensures Cells() != old(Cells()) ==> AllRaw(old(Cells())[..], 0, old(Cells()).Length)
      ensures Capacity() <= old(Capacity())
      ensures var least := Least(inlineCapacity, Size());
        Capacity() == if memory || least <= inlineCapacity then least else old(Capacity())
    {
      hide Holds, AllRaw, Least;
      InlineLeast(inlineCapacity);
      var s, c := Size(), Capacity();
      LeastOrder(inlineCapacity, s, c);
      LeastChain(inlineCapacity, inlineCapacity, s);
      if s >= c {
        return;
      }
      var newCapacity := CalculateNewCapacity(s, inlineCapacity);
      if newCapacity.Some? && newCapacity.value != c {
        var _ := Realloc(newCapacity.value, memory);
      }
    }

    /** `emplace_back` */
    method EmplaceBack(value: T, memory: bool) returns (ok: bool)
      requires Valid()
      modifies Repr()
      ensures Valid() && fresh(Repr() - old(Repr()))
      ensures Cells() != old(Cells()) ==> AllRaw(old(Cells())[..], 0, old(Cells()).Length)
      ensures ok <==> old(Size()) < old(Capacity()) || (old(Size()) < MAX_SIZE && memory)
      ensures Contents() == if ok then old(Contents()) + [Live(value)] else old(Contents())
      ensures ok ==> Capacity() == Least(old(Capacity()), Size())
    {
      hide Holds, AllRaw, Least;
      InlineLeast(inlineCapacity);
      var s, c := Size(), Capacity();
      LeastEnough(c, s + 1);
      if s == c {
        LeastChain(inlineCapacity, c, s + 1);
        var newCapacity := CalculateNewCapacity(s + 1, c);
        if newCapacity.None? {
          return false;
        }
        ok := Realloc(newCapacity.value, memory);
        if !ok {
          return;
        }
      }
      AppendCell(Cells()[..], s, Live(value));
      if isDirect {
        directSize := s + 1;
      } else {
        block.size := s + 1;
      }
      Construct(Cells(), s, Live(value));
      return true;
    }

    /** `destroy` */
    method DestroyAll()
      requires Valid()
      modifies Repr()
      ensures Valid() && isDirect && Contents() == [] && fresh(Repr() - old(Repr()))
      ensures AllRaw(old(Cells())[..], 0, old(Cells()).Length)
    {
      Destroy(Cells(), 0, Size());
      isDirect, directSize, block := true, 0, null;
    }

    /** The elements `c` with a gap of `count` unconstructed cells at `pos`, all counted in the size. */
    ghost predicate Gapped(c: seq<Cell<T>>, pos: nat, count: nat)
      reads this, inline, block, if block == null then {} else {block.cells}
    {
      && Shaped() && Size() == |c| + count && Opened(Cells()[..], c, pos, count)
      && (!isDirect ==> AllRaw(inline[..], 0, inline.Length))
    }

    /** `do_move_assign`: takes over the block of an indirect vector as it is, or moves the elements of a direct one. */
    method DoMoveAssign(other: SVector<T>)
      requires this != other && inline != other.inline && inlineCapacity == other.inlineCapacity
      requires Valid() && isDirect && Size() == 0
      requires other.Shaped() && (other.isDirect ==> other.Valid()) && (!other.isDirect ==> other.block.cells != inline)
      requires !other.isDirect ==> AllRaw(other.inline[..], 0, other.inline.Length)
      modifies this, inline, other, other.inline
      ensures other.Valid() && other.isDirect && other.Size() == 0
      ensures Shaped() && Size() == old(other.Size())
      ensures old(other.isDirect) ==> isDirect && Valid() && Contents() == old(other.Contents())
      ensures !old(other.isDirect) ==> !isDirect && block == old(other.block) && AllRaw(inline[..], 0, inline.Length)
      ensures Capacity() == old(other.Capacity())
    {
      hide Holds, AllRaw;
      NothingHeld(inline[..]);
      if !other.isDirect {
        isDirect, block := false, other.block;
      } else {
        MoveAndDestroy(other.inline, inline, other.directSize);
        directSize := other.directSize;
      }
      other.isDirect, other.directSize, other.block := true, 0, null;
      NothingHeld(other.inline[..]);
    }

    /** The move assignment operator; a vector assigned to itself stays as it is. */
    method MoveFrom(other: SVector<T>)
      requires Valid()
      requires this != other ==> inlineCapacity == other.inlineCapacity && Repr() !! other.Repr()
      requires other.Shaped() && (other.isDirect ==> other.Valid())
      requires !other.isDirect ==> AllRaw(other.inline[..], 0, other.inline.Length)
      modifies Repr(), other, other.inline
      ensures this == other ==> Repr() == old(Repr()) && unchanged(Repr())
      ensures this != other ==> other.Valid() && other.isDirect && other.Size() == 0
      ensures Shaped() && Size() == old(other.Size())
      ensures old(other.isDirect) ==> isDirect && Valid() && Contents() == old(other.Contents())
      ensures !old(other.isDirect) ==> !isDirect && block == old(other.block) && AllRaw(inline[..], 0, inline.Length)
      ensures Capacity() == old(other.Capacity())
      ensures Cells() != old(Cells()) ==> AllRaw(old(Cells())[..], 0, old(Cells()).Length)
    {
      hide Holds, AllRaw;
      if other == this {
        return;
      }
      DestroyAll();
      DoMoveAssign(other);
    }

    /** The elements move into the block of a new vector, around a gap; this one is left with husks. */
    method MoveToNew(pos: nat, count: nat, memory: bool) returns (ok: bool, target: SVector<T>)
      requires Valid() && pos <= Size() && Size() + count > Capacity()
      modifies Cells()
      ensures ok <==> Size() + count <= MAX_SIZE && memory
      ensures Valid() && fresh(target.Repr()) && (!ok ==> unchanged(Cells()))
      ensures ok ==> target.Shaped() && !target.isDirect && target.inlineCapacity == inlineCapacity
      ensures ok ==> AllRaw(target.inline[..], 0, target.inline.Length) && target.Size() == Size() + count
      ensures ok ==> Opened(target.Cells()[..], old(Contents()), pos, count)
      ensures ok ==> target.Capacity() == Least(inlineCapacity, target.Size())
    {
      hide Holds, AllRaw, Opened, Least;
      LeastEnough(inlineCapacity, 0);
      var s, a := Size(), Cells();
      target := new SVector<T>(inlineCapacity);
      ok := target.Reserve(s + count, memory);
      if ok {
        FreshBlock(target.block.cells[..], target.Size());
        MoveAround(a, s, pos, target.block.cells, count);
        target.block.size := s + count;
      }
    }

    /** `make_uninitialized_space_new`: the new vector replaces this one. */
    method MakeUninitializedSpaceNew(pos: nat, count: nat, memory: bool) returns (ok: bool)
      requires Valid() && pos <= Size() && Size() + count > Capacity()
      modifies Repr()
      ensures fresh(Repr() - old(Repr()))
      ensures ok <==> old(Size()) + count <= MAX_SIZE && memory
      ensures ok ==> Gapped(old(Contents()), pos, count)
      ensures ok ==> Capacity() == Least(inlineCapacity, Size())
      ensures !ok ==> Valid() && Contents() == old(Contents())
      ensures Cells() != old(Cells()) ==> AllRaw(old(Cells())[..], 0, old(Cells()).Length)
    {
      hide Holds, AllRaw, Opened, Least;
      var target;
      ok, target := MoveToNew(pos, count, memory);
      if ok {
        MoveFrom(target);
      }
    }

    /** `make_uninitialized_space`: in place where there is room, else in new storage. */
    method MakeUninitializedSpace(pos: nat, count: nat, keeps: bool, memory: bool) returns (ok: bool)
      requires Valid() && pos <= Size() && Size() + count < WORD64
      modifies Repr()
      ensures fresh(Repr() - old(Repr()))
      ensures ok <==> old(Size()) + count <= old(Capacity()) || (old(Size()) + count <= MAX_SIZE && memory)
      ensures ok ==> Gapped(Disturbed(old(Contents()), pos, count, keeps), pos, count)
      ensures old(Size()) + count <= old(Capacity()) ==> ok && Cells() == old(Cells())
      ensures ok && Size() > old(Capacity()) ==> Capacity() == Least(inlineCapacity, Size())
      ensures !ok ==> Valid() && Contents() == old(Contents())
      ensures Cells() != old(Cells()) ==> AllRaw(old(Cells())[..], 0, old(Cells()).Length)
    {
      hide Holds, AllRaw, Opened, Constructed, Shifted;
      var s := Size();
      if Grows(s, count, Capacity()) {
        ok := MakeUninitializedSpaceNew(pos, count, memory);
        return;
      }
      ghost var before := Cells()[..];
      RoomToShift(before, s, pos, count);
      ShiftRight(Cells(), pos, s, pos + count, keeps);
      OpenedInPlace(before, Cells()[..], s, pos, count, keeps);
      if isDirect {
        directSize := s + count;
      } else {
        block.size := s + count;
      }
      return true;
    }

    /** `insert` of given values, and with one value `emplace`. */
    method Insert(pos: nat, values: seq<T>, keeps: bool, memory: bool) returns (ok: bool)
      requires Valid() && pos <= Size() && Size() + |values| < WORD64
      modifies Repr()
      ensures Valid() && fresh(Repr() - old(Repr()))
      ensures ok <==> old(Size()) + |values| <= old(Capacity()) || (old(Size()) + |values| <= MAX_SIZE && memory)
      ensures Cells() != old(Cells()) ==> AllRaw(old(Cells())[..], 0, old(Cells()).Length)
      ensures ok ==> var c := Disturbed(old(Contents()), pos, |values|, keeps);
        Contents() == c[..pos] + Lives(values) + c[pos..]
      ensures !ok ==> Contents() == old(Contents())
      ensures old(Size()) + |values| <= old(Capacity()) ==> ok && Cells() == old(Cells())
      ensures ok && Size() > old(Capacity()) ==> Capacity() == Least(inlineCapacity, Size())
    {
      ok := MakeUninitializedSpace(pos, |values|, keeps, memory);
      if ok {
        ghost var c, gap := Disturbed(old(Contents()), pos, |values|, keeps), Cells()[..];
        UninitializedCopy(Cells(), pos, values);
        FillGap(gap, Cells()[..], c, pos, values);
      }
    }

    /** `erase_checked_end` */
    method Erase(first: nat, last: nat, keeps: bool)
      requires Valid() && first <= Size() && first <= last
      modifies Repr()
      ensures Valid() && Repr() == old(Repr())
      ensures var end := if last <= old(Size()) then last else old(Size());
        var c := Disturbed(old(Contents()), first, end - first, keeps);
        Contents() == c[..first] + c[end..]
    {
      var a, s := Cells(), Size();
      ghost var before := a[..];
      var end := if last <= s then last else s;
      MoveForward(a, end, s, first, keeps);
      ghost var moved := a[..];
      var erased := end - first;
      Destroy(a, s - erased, s);
      if isDirect {
        directSize := s - erased;
      } else {
        block.size := s - erased;
      }
      ErasedCells(before, moved, a[..], first, end, s, keeps);
    }
  }

  lemma AppendCell<T>(s: seq<Cell<T>>, n: nat, c: Cell<T>)
    requires Holds(s, n) && n < |s| && !c.Raw?
    ensures s[n].Raw? && Holds(s[n := c], n + 1) && s[n := c][..n + 1] == s[..n] + [c]
  {
  }

  lemma RoomToShift<T>(s: seq<Cell<T>>, size: nat, pos: nat, count: nat)
    requires Holds(s, size) && pos <= size && size + count <= |s|
    ensures Constructed(s, pos, size) && AllRaw(s, size, size + count)
  {
  }

  lemma FreshBlock<T>(s: seq<Cell<T>>, n: nat)
    requires Holds(s, n) && n == 0
    ensures AllRaw(s, 0, |s|)
  {
  }

  lemma NothingHeld<T>(s: seq<Cell<T>>)
    ensures Holds(s, 0) <==> AllRaw(s, 0, |s|)
  {
  }

  lemma ErasedCells<T>(before: seq<Cell<T>>, moved: seq<Cell<T>>, after: seq<Cell<T>>, first: nat, end: nat,
      size: nat, keeps: bool)
    requires Holds(before, size) && first <= end <= size && |after| == |before| == |moved|
    requires forall i {:trigger moved[i]} | 0 <= i < |moved| ::
      moved[i] == if first <= i < first + (size - end) then Arrived(before, i, end, first, keeps)
                  else if end <= i < size then Husk else before[i]
    requires Destroyed(moved, after, size - (end - first), size)
    ensures Holds(after, size - (end - first))
    ensures var c := Disturbed(before[..size], first, end - first, keeps);
      after[..size - (end - first)] == c[..first] + c[end..]
  {
  }
}
