/**
  `robin_hood::detail::BulkPoolAllocator`: blocks of slots threaded on one free
  list whose links live in the free slots themselves.
*/
module BulkPool {
  import opened Collections
  import opened Words

  /** A block of memory the pool owns, with the number of slots behind its header. */
  datatype Block = Block(ptr: nat, size: nat, count: nat)

  /** Following the words from `head` leads through exactly the addresses `s`, and then to null. */
  predicate Chain(mem: map<nat, nat>, head: nat, s: seq<nat>)
    decreases s
  {
    if s == [] then head == 0
    else head == s[0] != 0 && head in mem && Chain(mem, mem[head], s[1..])
  }

  lemma {:induction false} ChainFrame(mem: map<nat, nat>, mem': map<nat, nat>, head: nat, s: seq<nat>)
    requires Chain(mem, head, s)
    requires forall a | a in s :: a in mem ==> a in mem' && mem'[a] == mem[a]
    ensures Chain(mem', head, s)
    decreases s
  {
    if s != [] {
      ChainFrame(mem, mem', mem[head], s[1..]);
    }
  }

  lemma NoDuplicatesJoin(s: seq<nat>, t: seq<nat>)
    requires NoDuplicates(s) && NoDuplicates(t) && forall x | x in s :: x !in t
    ensures NoDuplicates(s + t)
  {
    var u := s + t;
    forall i, j | 0 <= i < j < |u| ensures u[i] != u[j] {
      if i < |s| <= j {
        assert s[i] in s && t[j - |s|] in t;
      }
    }
  }

  // ----- the slots of a block

  /** The addresses of `n` slots of `z` bytes from `a` on. */
  function Slots(a: nat, z: nat, n: nat): (s: seq<nat>)
    ensures |s| == n
    decreases n
  {
    if n == 0 then [] else [a] + Slots(a + z, z, n - 1)
  }

  lemma {:induction false} SlotAt(a: nat, z: nat, n: nat, i: nat)
    requires i < n
    ensures Slots(a, z, n)[i] == a + i * z
    decreases n
  {
    if i > 0 {
      SlotAt(a + z, z, n - 1, i - 1);
      assert a + z + (i - 1) * z == a + i * z;
    }
  }

  lemma {:induction false} SlotRange(a: nat, z: nat, n: nat, x: nat)
    requires x in Slots(a, z, n)
    ensures a <= x && x + z <= a + n * z
    decreases n
  {
    if x == a {
      assert n * z == (n - 1) * z + z;
    } else {
      SlotRange(a + z, z, n - 1, x);
      assert a + z + (n - 1) * z == a + n * z;
    }
  }

  lemma {:induction false} SlotsApart(a: nat, z: nat, n: nat)
    requires z > 0
    ensures NoDuplicates(Slots(a, z, n))
    decreases n
  {
    if n > 0 {
      SlotsApart(a + z, z, n - 1);
      var rest := Slots(a + z, z, n - 1);
      forall j | 0 <= j < |rest| ensures rest[j] != a {
        SlotRange(a + z, z, n - 1, rest[j]);
      }
    }
  }

  /** Two slots of one block do not overlap. */
  lemma {:induction false} SlotsDisjoint(a: nat, z: nat, n: nat, x: nat, y: nat)
    requires x in Slots(a, z, n) && y in Slots(a, z, n) && x != y
    ensures x + z <= y || y + z <= x
    decreases n
  {
    if x == a {
      SlotRange(a + z, z, n - 1, y);
    } else if y == a {
      SlotRange(a + z, z, n - 1, x);
    } else {
      SlotsDisjoint(a + z, z, n - 1, x, y);
    }
  }

  // ----- threading the slots of a new block

  /** The words after the first `n` slots from `a` on were pointed at their successors. */
  function Linked(mem: map<nat, nat>, a: nat, z: nat, n: nat): (m: map<nat, nat>)
    decreases n
  {
    if n == 0 then mem else Linked(mem, a, z, n - 1)[a + (n - 1) * z := a + n * z]
  }

  lemma {:induction false} LinkedAt(mem: map<nat, nat>, a: nat, z: nat, n: nat, k: nat)
    requires z > 0 && k < n
    ensures a + k * z in Linked(mem, a, z, n) && Linked(mem, a, z, n)[a + k * z] == a + k * z + z
    decreases n
  {
    assert (k + 1) * z == k * z + z;
    if k < n - 1 {
      LinkedAt(mem, a, z, n - 1, k);
      MulMonotone(k + 1, n - 1, z);
    }
  }

  lemma {:induction false} LinkedElsewhere(mem: map<nat, nat>, a: nat, z: nat, n: nat, x: nat)
    requires z > 0 && (x < a || x >= a + n * z)
    ensures x in Linked(mem, a, z, n) <==> x in mem
    ensures x in mem ==> Linked(mem, a, z, n)[x] == mem[x]
    decreases n
  {
    if n > 0 {
      assert n * z == (n - 1) * z + z;
      LinkedElsewhere(mem, a, z, n - 1, x);
    }
  }

  /** With its last slot pointed at the old head, the new run continues into the old list. */
  lemma {:induction false} RunChain(mem: map<nat, nat>, a: nat, z: nat, n: nat, i: nat, head: nat, rest: seq<nat>)
    requires z > 0 && i < n && a > 0 && Chain(mem, head, rest)
    requires forall k | i <= k < n :: a + k * z in mem && mem[a + k * z] == if k == n - 1 then head else a + k * z + z
    ensures Chain(mem, a + i * z, Slots(a + i * z, z, n - i) + rest)
    decreases n - i
  {
    var here, more := a + i * z, Slots(a + i * z, z, n - i) + rest;
    assert here in mem;
    if i == n - 1 {
      assert Slots(here, z, 1) == [here] + Slots(here + z, z, 0);
      assert more[1..] == rest;
    } else {
      assert a + (i + 1) * z == here + z;
      RunChain(mem, a, z, n, i + 1, head, rest);
      assert more[1..] == Slots(here + z, z, n - i - 1) + rest;
    }
  }

  function Ptrs(bs: seq<Block>): (s: seq<nat>)
    ensures |s| == |bs| && forall i | 0 <= i < |bs| :: s[i] == bs[i].ptr
  {
    if bs == [] then [] else [bs[0].ptr] + Ptrs(bs[1..])
  }

  lemma Exact(n: nat, d: nat)
    requires d > 0
    ensures n * d / d == n
  {
    var q := n * d / d;
    assert n * d == q * d + n * d % d;
    if q < n {
      MulMonotone(q + 1, n, d);
    } else if q > n {
      MulMonotone(n + 1, q, d);
    }
  }

  /** No two blocks overlap. */
  ghost predicate Apart(bs: seq<Block>) {
    forall i, j | 0 <= i < j < |bs| :: bs[i].ptr + bs[i].size <= bs[j].ptr || bs[j].ptr + bs[j].size <= bs[i].ptr
  }

  lemma ApartMore(b: Block, bs: seq<Block>)
    requires Apart(bs) && forall c | c in bs :: b.ptr + b.size <= c.ptr || c.ptr + c.size <= b.ptr
    ensures Apart([b] + bs)
  {
    var more := [b] + bs;
    forall i, j | 0 <= i < j < |more|
      ensures more[i].ptr + more[i].size <= more[j].ptr || more[j].ptr + more[j].size <= more[i].ptr
    {
      assert more[j] == bs[j - 1] && (i > 0 ==> more[i] == bs[i - 1]);
    }
  }

  class Pool {
    const alignment: nat
    const slotSize: nat
    const minAllocs: nat
    const maxAllocs: nat

    var mem: map<nat, nat>
    var head: nat
    var listForFree: nat

    ghost var blocks: seq<Block>
    ghost var free: seq<nat>
    ghost var live: set<nat>

    ghost function SlotsOf(b: Block): seq<nat> {
      Slots(b.ptr + alignment, slotSize, b.count)
    }

    /** How many slots fit into `size` bytes behind the header. */
    ghost function NewBlock(ptr: nat, size: nat): Block
      requires slotSize > 0 && size >= alignment
    {
      Block(ptr, size, (size - alignment) / slotSize)
    }

    /** The slots of a block fit behind its header. */
    ghost predicate Sized(b: Block) {
      b.ptr > 0 && b.count > 0 && alignment + b.count * slotSize <= b.size
    }

    ghost predicate Owned(x: nat)
      reads this`blocks
    {
      exists b :: b in blocks && x in SlotsOf(b)
    }

    /** No byte of `[ptr, ptr + size)` belongs to an owned block. */
    ghost predicate Foreign(ptr: nat, size: nat)
      reads this`blocks
    {
      forall b | b in blocks :: ptr + size <= b.ptr || b.ptr + b.size <= ptr
    }

    ghost predicate BlocksApart()
      reads this`blocks
    {
      Apart(blocks)
    }

    /** The memory once `n` slots behind the header at `ptr` are threaded onto both lists. */
    ghost function Threaded(ptr: nat, n: nat): map<nat, nat>
      reads this
      requires n > 0
    {
      var a := ptr + alignment;
      Linked(mem[ptr := listForFree], a, slotSize, n)[a + (n - 1) * slotSize := head]
    }

    lemma LaidBasics()
      requires Laid()
      ensures alignment >= WORD_BYTES && slotSize >= WORD_BYTES && 1 <= minAllocs <= maxAllocs
    {
    }

    /** Every slot of every owned block is free, exactly once on the list, or live. */
    ghost predicate Partition(fr: seq<nat>, lv: set<nat>)
      reads this`blocks
    {
      && NoDuplicates(fr)
      && (forall x | x in fr :: x !in lv && Owned(x))
      && (forall x | x in lv :: Owned(x))
      && (forall b, x | b in blocks && x in SlotsOf(b) :: x in fr || x in lv)
    }

    /** The blocks have room for their slots and do not overlap. */
    ghost predicate Laid()
      reads this`blocks
    {
      && alignment >= WORD_BYTES && slotSize >= WORD_BYTES && 1 <= minAllocs <= maxAllocs
      && (forall b | b in blocks :: Sized(b)) && BlocksApart()
    }

    ghost predicate Valid()
      reads this
    {
      && Laid()
      && Chain(mem, listForFree, Ptrs(blocks)) && Chain(mem, head, free)
      && Partition(free, live)
    }

    lemma PartitionTake()
      requires Partition(free, live) && free != []
      ensures Partition(free[1..], live + {free[0]}) && free[0] !in live && Owned(free[0])
    {
      hide Slots;
      assert free[0] in free && free == [free[0]] + free[1..];
    }

    lemma PartitionGive(x: nat)
      requires Partition(free, live) && x in live
      ensures Partition([x] + free, live - {x})
    {
      hide Slots;
      assert x !in free;
    }

    /** A slot of a block lies inside it, behind the header. */
    lemma SlotInside(b: Block, x: nat)
      requires Sized(b) && alignment > 0 && slotSize > 0 && x in SlotsOf(b)
      ensures b.ptr + alignment <= x && x + slotSize <= b.ptr + b.size
    {
      SlotRange(b.ptr + alignment, slotSize, b.count, x);
    }

    lemma BlocksDiffer(b: Block, c: Block)
      requires BlocksApart() && b in blocks && c in blocks && b != c
      ensures b.ptr + b.size <= c.ptr || c.ptr + c.size <= b.ptr
    {
      var i :| 0 <= i < |blocks| && blocks[i] == b;
      var j :| 0 <= j < |blocks| && blocks[j] == c;
      assert i < j || j < i;
    }

    /** No two slots of the pool overlap, in one block or in two. */
    lemma NoOverlap(x: nat, y: nat)
      requires Valid() && Owned(x) && Owned(y) && x != y
      ensures x + slotSize <= y || y + slotSize <= x
    {
      hide Pool.Sized, Pool.BlocksApart, Pool.Partition, Slots, Chain, NoDuplicates;
      var b :| b in blocks && x in SlotsOf(b);
      var c :| c in blocks && y in SlotsOf(c);
      SlotInside(b, x);
      SlotInside(c, y);
      if b == c {
        SlotsDisjoint(b.ptr + alignment, slotSize, b.count, x, y);
      } else {
        BlocksDiffer(b, c);
      }
    }

    /** The word at `a` has a byte in the slot at `x`. */
    predicate Touches(a: nat, x: nat) {
      a < x + slotSize && x < a + WORD_BYTES
    }

    /** The first word of a block is outside all slots. */
    lemma HeaderApart(b: Block, x: nat)
      requires Valid() && b in blocks && Owned(x)
      ensures !Touches(b.ptr, x)
    {
      hide Pool.Partition, Pool.BlocksApart, Slots, Chain, NoDuplicates;
      var c :| c in blocks && x in SlotsOf(c);
      SlotInside(c, x);
      SizedPositive(b);
      if b != c {
        BlocksDiffer(b, c);
      }
    }

    lemma {:induction false} PtrIsHeader(bs: seq<Block>, p: nat)
      requires p in Ptrs(bs)
      ensures exists b :: b in bs && b.ptr == p
    {
      var i :| 0 <= i < |bs| && Ptrs(bs)[i] == p;
      assert bs[i] in bs;
    }

    /** Whatever clients write into the bytes of live slots, both lists of the pool stay intact. */
    lemma ClientWritesHarmless(mem': map<nat, nat>)
      requires Valid()
      requires forall a | a in mem && (forall x | x in live :: !Touches(a, x)) :: a in mem' && mem'[a] == mem[a]
      ensures Chain(mem', head, free) && Chain(mem', listForFree, Ptrs(blocks))
    {
      hide Pool.Sized, Pool.BlocksApart, Slots;
      LaidBasics();
      forall f, x | f in free && x in live ensures !Touches(f, x) {
        NoOverlap(f, x);
      }
      ChainFrame(mem, mem', head, free);
      forall p, x | p in Ptrs(blocks) && x in live ensures !Touches(p, x) {
        PtrIsHeader(blocks, p);
        var b :| b in blocks && b.ptr == p;
        HeaderApart(b, x);
      }
      ChainFrame(mem, mem', listForFree, Ptrs(blocks));
    }

    constructor (alignment: nat, slotSize: nat, minAllocs: nat, maxAllocs: nat)
      requires alignment >= WORD_BYTES && slotSize >= WORD_BYTES && 1 <= minAllocs <= maxAllocs
      ensures Valid() && free == [] && live == {} && blocks == []
      ensures this.alignment == alignment && this.slotSize == slotSize
      ensures this.minAllocs == minAllocs && this.maxAllocs == maxAllocs
    {
      this.alignment, this.slotSize, this.minAllocs, this.maxAllocs := alignment, slotSize, minAllocs, maxAllocs;
      mem, head, listForFree := map[], 0, 0;
      blocks, free, live := [], [], {};
    }

    /** Addresses of slots and headers lie outside a foreign block. */
    lemma Outside(ptr: nat, size: nat, x: nat)
      requires Valid() && size > 0 && Foreign(ptr, size)
      requires Owned(x) || x in Ptrs(blocks)
      ensures x < ptr || x >= ptr + size
    {
      hide Pool.Sized, Slots;
      if Owned(x) {
        var b :| b in blocks && x in SlotsOf(b);
        SlotInside(b, x);
      } else {
        PtrIsHeader(blocks, x);
        var b :| b in blocks && b.ptr == x;
        SizedPositive(b);
      }
    }

    lemma SizedPositive(b: Block)
      requires Sized(b) && alignment > 0
      ensures b.ptr > 0 && b.size > 0 && b.count > 0
    {
    }

    /** The threaded memory: untouched outside the block, the header and the links inside. */
    lemma ThreadedWords(b: Block)
      requires Sized(b) && alignment > 0 && slotSize > 0
      ensures var m, a := Threaded(b.ptr, b.count), b.ptr + alignment;
        && (forall x: nat | x < b.ptr || x >= b.ptr + b.size :: x in mem ==> x in m && m[x] == mem[x])
        && b.ptr in m && m[b.ptr] == listForFree
        && (forall k | 0 <= k < b.count :: a + k * slotSize in m && m[a + k * slotSize] == if k == b.count - 1 then head else a + k * slotSize + slotSize)
    {
      hide Linked;
      forall x: nat | x <= b.ptr || x >= b.ptr + b.size
        ensures x in mem[b.ptr := listForFree] ==>
          x in Threaded(b.ptr, b.count) && Threaded(b.ptr, b.count)[x] == mem[b.ptr := listForFree][x]
      {
        ThreadedElsewhere(b, x);
      }
      forall k | 0 <= k < b.count
        ensures var m, a := Threaded(b.ptr, b.count), b.ptr + alignment;
          a + k * slotSize in m && m[a + k * slotSize] == if k == b.count - 1 then head else a + k * slotSize + slotSize
      {
        ThreadedSlot(b, k);
      }
    }

    lemma ThreadedElsewhere(b: Block, x: nat)
      requires Sized(b) && alignment > 0 && slotSize > 0 && (x <= b.ptr || x >= b.ptr + b.size)
      ensures x in mem[b.ptr := listForFree] ==>
        x in Threaded(b.ptr, b.count) && Threaded(b.ptr, b.count)[x] == mem[b.ptr := listForFree][x]
    {
      hide Linked;
      var a, n := b.ptr + alignment, b.count;
      assert (n - 1) * slotSize + slotSize == n * slotSize;
      LinkedElsewhere(mem[b.ptr := listForFree], a, slotSize, n, x);
    }

    lemma ThreadedSlot(b: Block, k: nat)
      requires Sized(b) && alignment > 0 && slotSize > 0 && k < b.count
      ensures var m, a := Threaded(b.ptr, b.count), b.ptr + alignment;
        a + k * slotSize in m && m[a + k * slotSize] == if k == b.count - 1 then head else a + k * slotSize + slotSize
    {
      hide Linked;
      var a, n := b.ptr + alignment, b.count;
      LinkedAt(mem[b.ptr := listForFree], a, slotSize, n, k);
      if k < n - 1 {
        MulMonotone(k + 1, n - 1, slotSize);
        assert (k + 1) * slotSize == k * slotSize + slotSize;
      }
    }

    /** Threading a block does not touch the links of the others. */
    lemma ListsKept(b: Block)
      requires Valid() && Sized(b) && Foreign(b.ptr, b.size)
      ensures var m := Threaded(b.ptr, b.count); Chain(m, head, free) && Chain(m, listForFree, Ptrs(blocks))
    {
      hide Pool.Sized, Slots, Chain;
      SizedPositive(b);
      var m := Threaded(b.ptr, b.count);
      ThreadedWords(b);
      forall x | x in free || x in Ptrs(blocks) ensures x < b.ptr || x >= b.ptr + b.size {
        Outside(b.ptr, b.size, x);
      }
      hide Pool.Partition, Pool.Laid, Pool.Threaded;
      ChainFrame(mem, m, head, free);
      ChainFrame(mem, m, listForFree, Ptrs(blocks));
    }

    lemma AddChains(b: Block)
      requires Valid() && Sized(b) && Foreign(b.ptr, b.size)
      ensures var m := Threaded(b.ptr, b.count);
        Chain(m, b.ptr + alignment, SlotsOf(b) + free) && Chain(m, b.ptr, [b.ptr] + Ptrs(blocks))
    {
      hide Pool.Sized, Pool.Partition, Pool.BlocksApart, Pool.Threaded, Slots, NoDuplicates;
      SizedPositive(b);
      var m := Threaded(b.ptr, b.count);
      ThreadedWords(b);
      ListsKept(b);
      RunChain(m, b.ptr + alignment, slotSize, b.count, 0, head, free);
      assert ([b.ptr] + Ptrs(blocks))[1..] == Ptrs(blocks);
    }

    lemma AddApart(b: Block)
      requires Valid() && Sized(b) && Foreign(b.ptr, b.size)
      ensures (forall x | x in SlotsOf(b) :: x !in free && x !in live) && NoDuplicates(SlotsOf(b) + free)
    {
      hide Pool.Sized, Slots;
      SizedPositive(b);
      SlotsApart(b.ptr + alignment, slotSize, b.count);
      forall x | x in SlotsOf(b) ensures x !in free && x !in live {
        SlotInside(b, x);
        if Owned(x) {
          Outside(b.ptr, b.size, x);
        }
      }
      NoDuplicatesJoin(SlotsOf(b), free);
    }

    /** Threads a block onto both lists. */
    method Add(ptr: nat, size: nat)
      requires Valid() && ptr > 0 && size >= alignment + slotSize && Foreign(ptr, size)
      modifies this`mem, this`head, this`listForFree, this`blocks, this`free
      ensures Valid() && blocks == [NewBlock(ptr, size)] + old(blocks)
      ensures free == SlotsOf(NewBlock(ptr, size)) + old(free)
    {
      hide Pool.Sized, Pool.Laid, Pool.Partition, Pool.NewBlock, Slots, NoDuplicates, Chain, Linked;
      LaidBasics();
      var n := SlotCount(size);
      ghost var b := NewBlock(ptr, size);
      AddChains(b);
      AddApart(b);
      mem := mem[ptr := listForFree];
      listForFree := ptr;
      var headT := ptr + alignment;
      ghost var mem1 := mem;
      LinkSlots(headT, n);
      mem := mem[headT + (n - 1) * slotSize := head];
      head := headT;
      AddBlock(b);
    }

    method LinkSlots(a: nat, n: nat)
      modifies this`mem
      ensures mem == Linked(old(mem), a, slotSize, n)
    {
      for i := 0 to n
        invariant mem == Linked(old(mem), a, slotSize, i)
      {
        mem := mem[a + i * slotSize := a + (i + 1) * slotSize];
      }
    }

    method SlotCount(size: nat) returns (n: nat)
      requires size >= alignment + slotSize && slotSize > 0
      ensures n > 0 && forall ptr: nat | ptr > 0 :: NewBlock(ptr, size) == Block(ptr, size, n) && Sized(NewBlock(ptr, size))
    {
      n := (size - alignment) / slotSize;
      assert size - alignment == n * slotSize + (size - alignment) % slotSize;
    }

    /** The ghost side of adding a block. */
    ghost method AddBlock(b: Block)
      requires Laid() && Partition(free, live) && Sized(b) && Foreign(b.ptr, b.size)
      requires (forall x | x in SlotsOf(b) :: x !in free && x !in live) && NoDuplicates(SlotsOf(b) + free)
      requires Chain(mem, head, SlotsOf(b) + free) && Chain(mem, listForFree, [b.ptr] + Ptrs(blocks))
      modifies this`blocks, this`free
      ensures Valid() && blocks == [b] + old(blocks) && free == SlotsOf(b) + old(free)
    {
      hide Pool.Sized, Slots, Chain, NoDuplicates, Apart;
      ghost var blocks0 := blocks;
      ApartMore(b, blocks);
      blocks := [b] + blocks;
      free := SlotsOf(b) + free;
      assert Ptrs(blocks) == [b.ptr] + Ptrs(blocks0);
      forall x | x in free || x in live ensures Owned(x) {
        if x in SlotsOf(b) {
          assert b in blocks;
        } else {
          var c :| c in blocks0 && x in SlotsOf(c);
          assert c in blocks;
        }
      }
    }

    /** Takes over a block handed in from outside, if at least one slot fits; otherwise the block is freed at once. */
    method AddOrFree(ptr: nat, numBytes: nat) returns (freed: bool)
      requires Valid() && ptr > 0 && Foreign(ptr, numBytes)
      modifies this`mem, this`head, this`listForFree, this`blocks, this`free
      ensures Valid() && (freed <==> numBytes < alignment + slotSize)
      ensures freed ==> unchanged(this)
      ensures !freed ==> blocks == [NewBlock(ptr, numBytes)] + old(blocks)
      ensures !freed ==> free == SlotsOf(blocks[0]) + old(free)
    {
      freed := numBytes < alignment + slotSize;
      if !freed {
        Add(ptr, numBytes);
      }
    }

    /** Doubles once per owned block, as long as the maximum allows. */
    ghost function NumToAlloc(n: nat, owned: nat): (r: nat)
      decreases owned
    {
      if 2 * n <= maxAllocs && owned > 0 then NumToAlloc(2 * n, owned - 1) else n
    }

    lemma {:induction false} NumToAllocRange(n: nat, owned: nat)
      requires 1 <= n <= maxAllocs
      ensures n <= NumToAlloc(n, owned) <= maxAllocs
      decreases owned
    {
      if 2 * n <= maxAllocs && owned > 0 {
        NumToAllocRange(2 * n, owned - 1);
      }
    }

    /** The number is doubled once per owned block, unless a further doubling would exceed the maximum. */
    lemma {:induction false} NumToAllocPower(n: nat, owned: nat) returns (j: nat)
      requires 1 <= n <= maxAllocs
      ensures j <= owned && NumToAlloc(n, owned) == n * Pow2(j)
      ensures j == owned || 2 * (n * Pow2(j)) > maxAllocs
      decreases owned
    {
      hide Pow2;
      if 2 * n <= maxAllocs && owned > 0 {
        var k := NumToAllocPower(2 * n, owned - 1);
        TwicePow2(n, k);
        j := k + 1;
      } else {
        j := 0;
        assert n * Pow2(0) == n by {
          NoDoubling(n);
        }
      }
    }

    lemma NoDoubling(n: nat)
      ensures n * Pow2(0) == n
    {
    }

    /** `r` is the smallest number doubled once for each of the `owned` blocks, or as often as the maximum allows. */
    ghost predicate DoubledFor(r: nat, owned: nat) {
      exists j: nat :: j <= owned && r == minAllocs * Pow2(j) && r <= maxAllocs && (j == owned || 2 * r > maxAllocs)
    }

    lemma NumToAllocExactly(owned: nat)
      requires 1 <= minAllocs <= maxAllocs
      ensures DoubledFor(NumToAlloc(minAllocs, owned), owned) && NumToAlloc(minAllocs, owned) >= minAllocs
    {
      var j := NumToAllocPower(minAllocs, owned);
      NumToAllocRange(minAllocs, owned);
    }

    method CalcNumElementsToAlloc() returns (n: nat)
      requires Valid()
      ensures n == NumToAlloc(minAllocs, |blocks|) && minAllocs <= n <= maxAllocs
      ensures DoubledFor(n, |blocks|)
    {
      NumToAllocExactly(|blocks|);
      ghost var rest := Ptrs(blocks);
      var tmp := listForFree;
      n := minAllocs;
      while n * 2 <= maxAllocs && tmp != 0
        invariant 1 <= n <= maxAllocs && Chain(mem, tmp, rest)
        invariant NumToAlloc(n, |rest|) == NumToAlloc(minAllocs, |blocks|)
        decreases |rest|
      {
        tmp, rest := mem[tmp], rest[1..];
        n := n * 2;
      }
      NumToAllocRange(minAllocs, |blocks|);
    }

    /** The room a new block needs for the number of slots the pool would allocate now. */
    ghost function BytesToAlloc(): nat
      reads this`blocks
    {
      alignment + slotSize * NumToAlloc(minAllocs, |blocks|)
    }

    /** `chunk` is what malloc returns, should it be called. */
    method Allocate(chunk: nat) returns (slot: nat)
      requires Valid() && (head == 0 ==> chunk > 0 && Foreign(chunk, BytesToAlloc()))
      modifies this
      ensures Valid() && Owned(slot) && slot !in old(live) && live == old(live) + {slot}
      ensures old(head) != 0 ==> blocks == old(blocks) && old(free) == [slot] + free
      ensures old(head) == 0 ==> blocks == [old(NextBlock(chunk))] + old(blocks) && [slot] + free == SlotsOf(blocks[0])
      ensures old(head) == 0 ==> DoubledFor(blocks[0].count, |old(blocks)|)
    {
      hide Pool.Laid, Pool.Partition, Pool.NextBlock, Pool.BytesToAlloc, Pool.DoubledFor, Slots, Ptrs, NoDuplicates;
      if head == 0 {
        PerformAllocation(chunk);
      }
      slot := head;
      PartitionTake();
      head := mem[slot];
      free, live := free[1..], live + {slot};
    }

    /** The block that the next allocation of memory would make of `chunk`. */
    ghost function NextBlock(chunk: nat): Block
      reads this`blocks
    {
      Block(chunk, BytesToAlloc(), NumToAlloc(minAllocs, |blocks|))
    }

    method PerformAllocation(chunk: nat)
      requires Valid() && head == 0 && chunk > 0 && Foreign(chunk, BytesToAlloc())
      modifies this`mem, this`head, this`listForFree, this`blocks, this`free
      ensures Valid() && head != 0
      ensures blocks == [old(NextBlock(chunk))] + old(blocks) && free == SlotsOf(blocks[0])
      ensures DoubledFor(blocks[0].count, |old(blocks)|)
    {
      hide Pool.Laid, Pool.Partition, Pool.DoubledFor, Slots, Ptrs, NoDuplicates;
      LaidBasics();
      var n := CalcNumElementsToAlloc();
      var bytes := alignment + slotSize * n;
      ExactCount(n);
      EmptyList();
      Add(chunk, bytes);
    }

    lemma EmptyList()
      requires Chain(mem, head, free) && head == 0
      ensures free == []
    {
    }

    lemma ExactCount(n: nat)
      requires slotSize > 0 && n > 0
      ensures slotSize * n >= slotSize && slotSize * n / slotSize == n
    {
      MulMonotone(1, n, slotSize);
      assert slotSize * n == n * slotSize;
      Exact(n, slotSize);
    }

    lemma NotNull(x: nat)
      requires Valid() && x in live
      ensures x != 0 && x !in free
    {
      hide Slots;
      var b :| b in blocks && x in SlotsOf(b);
      SlotInside(b, x);
    }

    method Deallocate(obj: nat)
      requires Valid() && obj in live
      modifies this`mem, this`head, this`free, this`live
      ensures Valid() && free == [obj] + old(free) && live == old(live) - {obj}
    {
      hide Pool.Laid, Pool.Partition, Slots, Ptrs, NoDuplicates;
      ghost var mem' := mem[obj := head];
      LaidBasics();
      assert Touches(obj, obj);
      ClientWritesHarmless(mem');
      PartitionGive(obj);
      NotNull(obj);
      mem := mem[obj := head];
      head := obj;
      free, live := [obj] + free, live - {obj};
    }

    /** Frees every owned block once, newest first; only then are the slots gone. */
    method Reset() returns (freed: seq<nat>)
      requires Valid()
      modifies this`head, this`listForFree, this`blocks, this`free, this`live
      ensures Valid() && blocks == [] && free == [] && live == {}
      ensures freed == Ptrs(old(blocks)) && NoDuplicates(freed)
    {
      PtrsApart();
      freed := FreeAll(Ptrs(blocks));
      head := 0;
      blocks, free, live := [], [], {};
    }

    method FreeAll(ghost ptrs: seq<nat>) returns (freed: seq<nat>)
      requires Chain(mem, listForFree, ptrs)
      modifies this`listForFree
      ensures freed == ptrs && listForFree == 0
    {
      freed := [];
      ghost var rest := ptrs;
      while listForFree != 0
        invariant Chain(mem, listForFree, rest) && freed + rest == ptrs
        decreases |rest|
      {
        var tmp := mem[listForFree];
        freed := freed + [listForFree];
        listForFree, rest := tmp, rest[1..];
      }
    }

    lemma PtrsApart()
      requires Valid()
      ensures NoDuplicates(Ptrs(blocks))
    {
      forall i, j | 0 <= i < j < |blocks| ensures blocks[i].ptr != blocks[j].ptr {
        SizedPositive(blocks[i]);
        SizedPositive(blocks[j]);
      }
    }
  }
}
