/**
  `robin_hood::detail::Table` with flat nodes: info bytes beside a node array,
  an overflow buffer instead of wrap-around, and a sentinel.
*/
module RobinHoodTable {
  import opened Collections
  import opened Words
  import opened Entries
  import opened Slots
  import opened InfoBytes
  import opened RobinHoodNodes
  import opened Crowding
  import opened ByteLanes
  import opened HashMixing

  // ----- the table

  /** A bound on how often a table grows before it takes another element, while no new bytes run full. */
  function GrowthsFrom(elements: nat, maxAllowed: nat, mask: nat, infoInc: nat, percent: nat): (g: nat)
    ensures g <= 4
  {
    if elements < maxAllowed then 0
    else if mask == 0 then 4
    else if elements < MaxAllowed(mask + 1, percent) then (if infoInc > 2 then 1 else 2)
    else 3
  }

  /** The arrays after a rehash have room. */
  lemma RoomAfter(elements: nat, mask0: nat, mask: nat, percent: nat)
    requires 10 < percent < 100 && mask0 + 1 >= INITIAL_NUM_ELEMENTS && elements <= MaxAllowed(mask0 + 1, percent)
    requires mask + 1 == SizeAfter(elements, mask0 + 1, percent)
    ensures elements < MaxAllowed(mask + 1, percent)
  {
    hide MaxAllowed;
    MaxAllowedStrict(mask0 + 1, percent);
  }

  lemma GrowthsAtMost(elements: nat, maxAllowed: nat, mask: nat, infoInc: nat, percent: nat)
    requires mask > 0 && elements < MaxAllowed(mask + 1, percent)
    ensures GrowthsFrom(elements, maxAllowed, mask, infoInc, percent) <= 2
    ensures elements < maxAllowed || infoInc > 2 ==> GrowthsFrom(elements, maxAllowed, mask, infoInc, percent) <= 1
  {
  }

  lemma GrowthsAtLeast(elements: nat, maxAllowed: nat, mask: nat, infoInc: nat, percent: nat)
    requires mask > 0 && elements >= maxAllowed
    requires elements < MaxAllowed(mask + 1, percent) ==> infoInc <= 2
    ensures GrowthsFrom(elements, maxAllowed, mask, infoInc, percent) >= 2
  {
  }

  /** How often an insertion searches for a place, and makes the table grow if there is none. */
  const ATTEMPTS: nat := 256

  datatype InsertionState = OverflowError | KeyFound | NewNode | OverwriteNode | Thrown

  /** How the sizes of an allocated table hang together. */
  ghost predicate Layout(mask: nat, percent: nat, slots: nat, mult: uint64, rounds: nat) {
    && 10 < percent < 100
    && mask + 1 >= INITIAL_NUM_ELEMENTS && PowerOfTwo(mask + 1) && slots == WithBuffer(mask + 1, percent)
    && mult == Multiplier(rounds)
  }

  class Table<K(==), V(==)> {
    const hash: K -> uint64
    const percent: nat

    var mult: uint64
    var info: array<uint8>
    var nodes: array<Slot<K, V>>
    var numElements: nat
    var mask: nat
    var maxAllowed: nat
    var infoInc: nat
    var shift: Shift
    ghost var rounds: nat  // how often the multiplier was changed

    /** Nothing allocated yet: the info pointer stands on the eight zero bytes of `mMask` itself. */
    ghost predicate Unallocated()
      reads this, info
    {
      && 10 < percent < 100
      && mask == 0 && nodes.Length == 0
      && info.Length == 8 && (forall i | 0 <= i < 8 :: info[i] == 0)
      && numElements == 0 && maxAllowed == 0 && infoInc == Inc(shift)
      && mult == Multiplier(rounds)
    }

    /** The scalar fields, and what they say about the bytes. */
    ghost predicate Fits()
      reads this, info
    {
      && Layout(mask, percent, nodes.Length, mult, rounds) && info.Length == nodes.Length + 8
      && infoInc == Inc(shift)
      && numElements == Count(info[..], nodes.Length)
      && numElements <= MaxAllowed(mask + 1, percent)
      && (maxAllowed == 0
          || (maxAllowed == MaxAllowed(mask + 1, percent) && RoomToShift(info[..], shift, nodes.Length)))
    }

    ghost predicate Allocated()
      reads this, info, nodes
      ensures Allocated() ==> Distinct(nodes[..]) && info.Length == nodes.Length + 8
    {
      Fits() && Sound(info[..], nodes[..], hash, mult, mask + 1, shift) && Distinct(nodes[..])
    }

    ghost predicate Valid()
      reads this, info, nodes
    {
      Unallocated() || Allocated()
    }

    ghost function Model(): map<K, V>
      reads this, nodes
    {
      SlotMap(nodes[..])
    }

    constructor (hash: K -> uint64, percent: nat)
      requires 10 < percent < 100
      ensures Valid() && Model() == map[] && fresh(info) && fresh(nodes)
      ensures this.hash == hash && this.percent == percent
    {
      this.hash, this.percent := hash, percent;
      mult, rounds := INITIAL_MULTIPLIER, 0;
      info := new uint8[8](_ => 0);
      nodes := new Slot<K, V>[0];
      numElements, mask, maxAllowed, infoInc, shift := 0, 0, 0, INITIAL_INFO_INC, 0;
    }

    // ----- hashing

    ghost function KeyTag(key: K): Tag
      reads this
    {
      TagOf(Mixed(hash(key), mult), mask + 1)
    }

    method KeyToIdx(key: K) returns (idx: nat, w: nat)
      requires infoInc == Inc(shift)
      ensures idx == KeyTag(key).home < mask + 1 && KeyTag(key).bits < 32
      ensures idx == Mixed(hash(key), mult) / 32 % (mask + 1) && w == infoInc + Mixed(hash(key), mult) % 32 / Unit(shift)
      ensures w == InfoAt(KeyTag(key), idx, shift)
    {
      var h := hash(key) * mult % WORD64;
      h := Xor(h, Shr(h, 33));
      w := infoInc + Shr(h % 32, shift);
      idx := (h / 32) % (mask + 1);
      ShiftByUnit(h % 32, shift);
    }

    // ----- searching for a key

    /** A search for `key` at slot `i` with info value `w` has not gone past the key. */
    ghost predicate Scanning(key: K, i: nat, w: nat)
      reads this, nodes
    {
      && Standing(KeyTag(key), mask + 1, shift, i, w)
      && forall q: nat | HasKey(nodes[..], q, key) :: i <= q
    }

    method StartScan(key: K) returns (idx: nat, w: nat)
      requires Valid()
      ensures Scanning(key, idx, w) && idx == KeyTag(key).home && idx <= mask
    {
      hide TagOf, Mixed, Layout, MaxAllowed, SlotMap;
      idx, w := KeyToIdx(key);
      forall q: nat | HasKey(nodes[..], q, key) ensures idx <= q {
        HolderInfo(info[..], nodes[..], hash, mult, mask + 1, shift, key, q);
      }
    }

    /** An info byte that equals a probe's value belongs to a slot with a live node. */
    lemma Hit(key: K, i: nat, w: nat)
      requires Valid() && Scanning(key, i, w) && i < info.Length && info[i] == w
      ensures i < nodes.Length && nodes[i].Live?
    {
      hide TagOf, Mixed, Layout, MaxAllowed, SlotMap;
      InfoRange(KeyTag(key), i, shift);
      if i < nodes.Length {
        assert Agree(info[..], nodes[..], i);
      }
    }

    /** The slot at `i` does not hold the key, as the info value or the key itself shows. */
    ghost predicate Differs(key: K, i: nat, w: nat)
      reads this, info, nodes
      requires i < info.Length
    {
      info[i] == w ==> i >= nodes.Length || !nodes[i].Live? || nodes[i].entry.key != key
    }

    lemma Miss(key: K, i: nat, w: nat)
      requires Valid() && Scanning(key, i, w) && i < info.Length && Differs(key, i, w)
      ensures Scanning(key, i + 1, w + infoInc)
    {
      hide TagOf, Mixed, Layout, MaxAllowed, SlotMap;
      InfoStep(KeyTag(key), i, shift);
      forall q: nat | HasKey(nodes[..], q, key) ensures i + 1 <= q {
        HolderInfo(info[..], nodes[..], hash, mult, mask + 1, shift, key, q);
      }
    }

    /** A probe that a byte does not stop is on a slot before the last one. */
    lemma GoesOn(key: K, i: nat, w: nat)
      requires Valid() && Standing(KeyTag(key), mask + 1, shift, i, w) && i < info.Length && w <= info[i]
      ensures Allocated() && i < nodes.Length
      ensures Probing(info[..], KeyTag(key), mask + 1, shift, i + 1, w + infoInc)
    {
      hide TagOf, Mixed, Layout, MaxAllowed, SlotMap;
      InfoRange(KeyTag(key), i, shift);
      Unstopped(info[..], TagsOf(nodes[..], hash, mult, mask + 1), shift, mask + 1, KeyTag(key), i, w);
    }

    /** A probe that is stopped proves the key absent. */
    lemma Stopped(key: K, i: nat, w: nat)
      requires Valid() && Scanning(key, i, w) && i < info.Length && info[i] < w
      ensures key !in Model()
    {
      hide TagOf, Mixed, Layout, MaxAllowed;
      if key in Model() {
        var q := MapFrom(nodes[..], key);
        HolderInfo(info[..], nodes[..], hash, mult, mask + 1, shift, key, q);
        NotStopped(info[..], TagsOf(nodes[..], hash, mult, mask + 1), shift, mask + 1, KeyTag(key), i, q);
      }
    }

    /** The do-while loop of `findIdx`: two probes a round, the stop test after both. */
    method FindIdx(key: K) returns (pos: nat)
      requires Valid()
      ensures pos <= nodes.Length
      ensures pos < nodes.Length <==> key in Model()
      ensures pos < nodes.Length ==> nodes[pos].Live? && nodes[pos].entry == Entry(key, Model()[key])
    {
      hide TagOf, Mixed, Layout, MaxAllowed, SlotMap, Sound;
      var idx: nat, w: nat := StartScan(key);
      StartBounds(idx);
      var more := true;
      while more
        invariant Scanning(key, idx, w) && idx < info.Length
        invariant more ==> idx + 8 <= info.Length
        invariant !more ==> info[idx] < w
        decreases more, info.Length - idx
      {
        if w == info[idx] {
          Hit(key, idx, w);
          if key == nodes[idx].entry.key {
            MapHas(nodes[..], idx);
            return idx;
          }
        }
        Miss(key, idx, w);
        idx, w := idx + 1, w + infoInc;
        if w == info[idx] {
          Hit(key, idx, w);
          if key == nodes[idx].entry.key {
            MapHas(nodes[..], idx);
            return idx;
          }
        }
        Miss(key, idx, w);
        idx, w := idx + 1, w + infoInc;
        more := w <= info[idx];
        if more {
          GoesOn(key, idx, w);
        }
      }
      Stopped(key, idx, w);
      pos := nodes.Length;
    }

    lemma StartBounds(idx: nat)
      requires Valid() && idx <= mask
      ensures idx + 8 <= info.Length && mask < info.Length
      ensures Allocated() ==> idx < nodes.Length
    {
      WithBufferBounds(mask + 1, percent);
    }

    // ----- moving nodes about

    method MoveConstruct(dst: nat, src: nat)
      requires dst < nodes.Length && src < nodes.Length && nodes[dst].Raw? && nodes[src].Live?
      modifies nodes
      ensures nodes[..] == old(nodes[..])[dst := old(nodes[src])][src := Husk]
    {
      nodes[dst] := nodes[src];
      nodes[src] := Husk;
    }

    method MoveAssign(dst: nat, src: nat)
      requires dst < nodes.Length && src < nodes.Length && dst != src && !nodes[dst].Raw? && nodes[src].Live?
      modifies nodes
      ensures nodes[..] == old(nodes[..])[dst := old(nodes[src])][src := Husk]
    {
      nodes[dst] := nodes[src];
      nodes[src] := Husk;
    }

    /** The first half of `shiftUp`: nodes move up by one into the raw slot `e`; the one at `p` is left moved from. */
    method ShiftNodesUp(e: nat, p: nat)
      requires p < e < nodes.Length
      requires nodes[e].Raw? && forall i | p <= i < e :: nodes[i].Live?
      modifies nodes
      ensures SlotsUp(old(nodes[..]), nodes[..], p, e, Husk)
    {
      var idx: nat := e;
      MoveConstruct(idx, idx - 1);
      idx := idx - 1;
      while idx != p
        invariant p <= idx < e
        invariant SlotsUp(old(nodes[..]), nodes[..], idx, e, Husk)
      {
        MoveAssign(idx, idx - 1);
        idx := idx - 1;
      }
    }

    /** The second half: the bytes follow, one distance step further, and no cast truncates. */
    method ShiftInfoUp(e: nat, p: nat)
      requires p < e < nodes.Length <= info.Length && infoInc == Inc(shift)
      requires RoomToShift(info[..], shift, nodes.Length) && forall i | p <= i < e :: info[i] != 0
      modifies this`maxAllowed, info
      ensures BytesUp(old(info[..]), info[..], shift, p, e, old(info[p]))
      ensures maxAllowed == if forall i | p < i <= e :: info[i] + infoInc <= 0xFF then old(maxAllowed) else 0
    {
      var idx: nat := e;
      ghost var full: nat := p;  // a byte that can no longer grow, once there is one
      while idx != p
        invariant p <= idx <= e
        invariant forall i | 0 <= i < info.Length && !(idx < i <= e) :: info[i] == old(info[i])
        invariant forall i | idx < i <= e :: info[i] == old(info[i - 1]) + infoInc
        invariant full == p ==> maxAllowed == old(maxAllowed) && forall i | idx < i <= e :: info[i] + infoInc <= 0xFF
        invariant full != p ==> maxAllowed == 0 && idx < full <= e && info[full] + infoInc > 0xFF
      {
        assert old(info[..])[idx - 1] == info[idx - 1];
        info[idx] := (info[idx - 1] + infoInc) % 0x100;
        if info[idx] + infoInc > 0xFF {
          maxAllowed := 0;
          full := idx;
        }
        idx := idx - 1;
      }
    }

    /** `shiftUp` */
    method ShiftUp(e: nat, p: nat)
      requires p < e < nodes.Length <= info.Length && infoInc == Inc(shift)
      requires nodes[e].Raw? && forall i | p <= i < e :: info[i] != 0 && nodes[i].Live?
      requires RoomToShift(info[..], shift, nodes.Length)
      modifies this`maxAllowed, info, nodes
      ensures SlotsUp(old(nodes[..]), nodes[..], p, e, Husk)
      ensures BytesUp(old(info[..]), info[..], shift, p, e, old(info[p]))
      ensures maxAllowed == if forall i | p < i <= e :: info[i] + infoInc <= 0xFF then old(maxAllowed) else 0
    {
      hide BytesUp, RoomToShift, SlotsUp;
      ShiftNodesUp(e, p);
      ShiftInfoUp(e, p);
    }

    // ----- opening a spot

    /** A spot at `p` for tag `t`: counted and encoded, but without a live node yet. */
    ghost predicate Open(p: nat, t: Tag)
      reads this, info, nodes
    {
      Fits() && SoundBut(info[..], nodes[..], hash, mult, mask + 1, shift, p, t)
    }

    /** Where an insertion of tag `t` may take place: stopped at `p` with info value `w`. */
    ghost predicate Insertable(p: nat, w: nat, t: Tag)
      reads this, info, nodes
    {
      && Allocated() && numElements < MaxAllowed(mask + 1, percent) && maxAllowed > 0
      && p < info.Length && Probing(info[..], t, mask + 1, shift, p, w) && info[p] < w
    }

    /** The search for an empty slot ends before the last slot, and the new byte is not truncated. */
    lemma SpotExists(p: nat, w: nat, t: Tag) returns (e: nat)
      requires Insertable(p, w, t)
      ensures p <= e && e + 1 < nodes.Length && info[e] == 0 && nodes[e].Raw?
      ensures forall i | p <= i < e :: info[i] != 0 && nodes[i].Live?
      ensures w <= 0xFF
    {
      hide TagOf, Mixed, SlotMap, MaxAllowed, PowerOfTwo, Distinct, Wf;
      var bytes, tags := info[..], TagsOf(nodes[..], hash, mult, mask + 1);
      e := EmptyBeforeLast(bytes, tags, shift, mask + 1, MaxAllowed(mask + 1, percent), t.home);
      NotTruncated(bytes, tags, shift, mask + 1, p, w, t);
      assert p <= e;
      forall i | p <= i <= e ensures if info[i] == 0 then nodes[i].Raw? else nodes[i].Live? {
        assert Agree(bytes, nodes[..], i);
      }
      assert forall i | p <= i < e :: bytes[i] == info[i];
    }

    /** Shifts the run from `p` to the empty slot `e` out of the way and writes the byte of the new slot. */
    method MakeRoom(p: nat, e: nat, w: nat)
      requires p <= e < nodes.Length <= info.Length && infoInc == Inc(shift) && 0 < w <= 0xFF
      requires nodes[e].Raw? && forall i | p <= i < e :: info[i] != 0 && nodes[i].Live?
      requires RoomToShift(info[..], shift, nodes.Length)
      modifies this`maxAllowed, info, nodes
      ensures SlotsUp(old(nodes[..]), nodes[..], p, e, if p == e then Raw else Husk)
      ensures BytesUp(old(info[..]), info[..], shift, p, e, w)
      ensures maxAllowed == if RoomToShift(info[..], shift, nodes.Length) then old(maxAllowed) else 0
    {
      hide BytesUp, RoomToShift;
      ghost var info0 := info[..];
      if w + infoInc > 0xFF {
        maxAllowed := 0;
      }
      if e != p {
        ShiftUp(e, p);
      }
      ghost var info1 := info[..];
      WrittenLast(info0, info1, shift, p, e, w, nodes.Length);
      info[p] := w % 0x100;
      assert info[..] == info1[p := info[p]];
    }

    /** The common end of `insertKeyPrepareEmptySpot` and `insert_move`. */
    method OpenSpot(p: nat, w: nat, ghost t: Tag) returns (isNew: bool, ghost e: nat)
      requires Insertable(p, w, t)
      modifies this`maxAllowed, this`numElements, info, nodes
      ensures Open(p, t) && p < nodes.Length && isNew == nodes[p].Raw?
      ensures numElements == old(numElements) + 1
      ensures maxAllowed == if RoomToShift(info[..], shift, nodes.Length) then old(maxAllowed) else 0
      ensures e < nodes.Length && SlotsUp(old(nodes[..]), nodes[..], p, e, nodes[p]) && old(nodes[e].Raw?)
    {
      hide TagOf, Mixed, SlotMap, MaxAllowed, Layout, Sound, SoundBut, Distinct, Probing, BytesUp;
      e := SpotExists(p, w, t);
      var idx: nat := p;
      while info[idx] != 0
        invariant p <= idx <= e
        decreases e - idx
      {
        idx := idx + 1;
      }
      isNew := idx == p;
      MakeRoom(p, idx, w);
      numElements := numElements + 1;
      Opened(old(info[..]), old(nodes[..]), info[..], nodes[..], hash, mult, mask + 1, shift, p, e, w, t);
    }

    method Construct(p: nat, e: Entry<K, V>)
      requires p < nodes.Length && nodes[p].Raw?
      modifies nodes
      ensures nodes[..] == old(nodes[..])[p := Live(e)]
    {
      nodes[p] := Live(e);
    }

    method Assign(p: nat, e: Entry<K, V>)
      requires p < nodes.Length && !nodes[p].Raw?
      modifies nodes
      ensures nodes[..] == old(nodes[..])[p := Live(e)]
    {
      nodes[p] := Live(e);
    }

    /** An open spot for a new key, and how the nodes got there from `before`. */
    ghost predicate Ready(key: K, p: nat, before: seq<Slot<K, V>>, e: nat)
      reads this, info, nodes
    {
      && Open(p, KeyTag(key)) && p < nodes.Length
      && Distinct(before) && key !in SlotMap(before)
      && SlotsUp(before, nodes[..], p, e, nodes[p]) && !before[e].Live?
    }

    /** The caller's part: construct the node in raw storage, or assign over a moved-from one. */
    method FillSpot(p: nat, entry: Entry<K, V>, isNew: bool, ghost before: seq<Slot<K, V>>, ghost e: nat)
      requires Ready(entry.key, p, before, e) && isNew == nodes[p].Raw?
      modifies nodes
      ensures Allocated() && nodes[p] == Live(entry)
      ensures Model() == SlotMap(before)[entry.key := entry.value]
    {
      hide TagOf, Mixed, SlotMap, MaxAllowed, Layout, Sound, SoundBut, Distinct;
      ghost var nodes0 := nodes[..];
      if isNew {
        Construct(p, entry);
      } else {
        Assign(p, entry);
      }
      Filled(info[..], nodes0, hash, mult, mask + 1, shift, p, entry);
      UpMap(before, nodes[..], p, e, entry);
    }

    // ----- one bit less of hash

    method HalveInfo()
      requires nodes.Length + 8 == info.Length
      modifies info
      ensures forall j | 0 <= j < nodes.Length :: info[j] == old(info[j]) / 2
      ensures forall j | nodes.Length < j < info.Length :: old(info[j]) == 0 ==> info[j] == 0
    {
      var i := 0;
      while i < nodes.Length
        invariant 0 <= i < nodes.Length + 8
        invariant forall j | 0 <= j < i :: info[j] == old(info[j]) / 2
        invariant forall j | i <= j < info.Length :: info[j] == old(info[j])
      {
        var val := HalveEight(info[i..i + 8]);
        forall k | 0 <= k < 8 {
          info[i + k] := val[k];
        }
        i := i + 8;
      }
    }

    method TryIncreaseInfo() returns (ok: bool)
      requires Allocated()
      modifies this`infoInc, this`shift, this`maxAllowed, info
      ensures ok <==> old(infoInc) > 2
      ensures Allocated() && (!ok ==> unchanged(this) && unchanged(info))
      ensures ok ==> maxAllowed == MaxAllowed(mask + 1, percent) && shift == old(shift) + 1
      ensures ok ==> forall i | 0 <= i < nodes.Length :: info[i] == old(info[i]) / 2
      ensures Model() == old(Model()) && numElements == old(numElements)
    {
      hide TagOf, Mixed, SlotMap, MaxAllowed, Layout, Distinct, Count;
      if infoInc <= 2 {
        return false;
      }
      infoInc := infoInc / 2;
      shift := shift + 1;
      HalveInfo();
      info[nodes.Length] := 1;
      maxAllowed := MaxAllowed(mask + 1, percent);
      Halved(old(info[..]), info[..], nodes[..], hash, mult, mask + 1, shift - 1);
      ok := true;
    }

    // ----- moving everything to new arrays

    /** What every new array of bytes keeps: they are full at the finest increment exactly if the keys are crowded. */
    ghost predicate Unspoilt()
      reads this, nodes
    {
      maxAllowed == 0 && infoInc <= 2 <==> Crowded(Model(), hash, mult, mask + 1)
    }

    lemma FullBytes()
      requires Allocated() && (maxAllowed == 0 <==> !RoomToShift(info[..], shift, nodes.Length))
      ensures Unspoilt()
    {
      hide TagOf, Mixed, SlotMap, MaxAllowed, Layout, Distinct, Wf, Count, RoomToShift, Crowded;
      FullExactly(info[..], nodes[..], hash, mult, mask + 1, shift);
    }

    /** `insert_move`: a new key into a table with room; fails only when a byte is full and cannot be narrowed. */
    method InsertMove(entry: Entry<K, V>) returns (ok: bool)
      requires Allocated() && entry.key !in Model() && numElements < MaxAllowed(mask + 1, percent)
      modifies this`maxAllowed, this`numElements, this`infoInc, this`shift, info, nodes
      ensures ok <==> !(old(maxAllowed) == 0 && old(infoInc) <= 2)
      ensures ok ==> Allocated() && numElements == old(numElements) + 1 && Unspoilt()
      ensures ok ==> Model() == old(Model())[entry.key := entry.value]
    {
      hide TagOf, Mixed, SlotMap, MaxAllowed, Table.Allocated, Table.Open, Table.Unspoilt, Distinct, SlotsUp, Probing,
        RoomToShift;
      if maxAllowed == 0 {
        ok := TryIncreaseInfo();
        if !ok {
          return;
        }
      }
      ghost var before := nodes[..];
      var idx, w := FindSpot(entry.key);
      var isNew, e := OpenSpot(idx, w, KeyTag(entry.key));
      FillSpot(idx, entry, isNew, before, e);
      FullBytes();
      ok := true;
    }

    /** `insert_move`'s search: the first slot whose byte is below the probe. */
    method FindSpot(key: K) returns (idx: nat, w: nat)
      requires Allocated()
      ensures idx < info.Length && Probing(info[..], KeyTag(key), mask + 1, shift, idx, w) && info[idx] < w
    {
      hide TagOf, Mixed, SlotMap, MaxAllowed, Layout, Distinct, Sound;
      idx, w := KeyToIdx(key);
      StartBounds(idx);
      while w <= info[idx]
        invariant idx < info.Length && Probing(info[..], KeyTag(key), mask + 1, shift, idx, w)
        decreases info.Length - idx
      {
        GoesOn(key, idx, w);
        idx, w := idx + 1, w + infoInc;
      }
    }

    method InitData(maxElements: nat)
      requires 10 < percent < 100 && maxElements >= INITIAL_NUM_ELEMENTS && PowerOfTwo(maxElements) && mult == Multiplier(rounds)
      modifies this`info, this`nodes, this`numElements, this`mask, this`maxAllowed, this`infoInc, this`shift
      ensures Allocated() && Model() == map[] && numElements == 0 && mask + 1 == maxElements
      ensures fresh(info) && fresh(nodes) && shift == 0 && maxAllowed == MaxAllowed(maxElements, percent)
      ensures infoInc == INITIAL_INFO_INC && Unspoilt()
    {
      hide TagOf, Mixed, Multiplier, SlotMap, MaxAllowed, PowerOfTwo, WithBuffer, Distinct, Count, Sound;
      WithBufferBounds(maxElements, percent);
      numElements := 0;
      mask := maxElements - 1;
      maxAllowed := MaxAllowed(maxElements, percent);
      var slots := WithBuffer(maxElements, percent);
      nodes := new Slot<K, V>[slots](_ => Raw);
      info := new uint8[slots + 8](_ => 0);
      info[slots] := 1;
      infoInc := INITIAL_INFO_INC;
      shift := 0;
      Fresh(info[..], nodes[..], hash, mult, maxElements, 0);
      NoneCrowded(Model(), hash, mult, maxElements);
    }

    /** All a rehash needs of the old arrays: which slots are occupied, whatever the hash says about them. */
    ghost predicate Movable()
      reads this, info, nodes
    {
      && 10 < percent < 100 && mult == Multiplier(rounds)
      && (if mask == 0 then nodes.Length == 0 else nodes.Length == WithBuffer(mask + 1, percent))
      && nodes.Length <= info.Length && (forall i | 0 <= i < nodes.Length :: Agree(info[..], nodes[..], i))
      && Distinct(nodes[..]) && numElements == Count(info[..], nodes.Length)
    }

    /** The table holds the nodes of the first `i` old slots. */
    ghost predicate Moved(info0: seq<uint8>, nodes0: seq<Slot<K, V>>, i: nat)
      reads this, info, nodes
    {
      && i <= |nodes0| <= |info0| && Distinct(nodes0)
      && (forall j | 0 <= j < |nodes0| :: Agree(info0, nodes0, j))
      && Count(info0, |nodes0|) <= MaxAllowed(mask + 1, percent)
      && Allocated() && Model() == SlotMap(nodes0[..i]) && numElements == Count(info0, i) && Unspoilt()
    }

    method MoveNode(entry: Entry<K, V>, ghost info0: seq<uint8>, ghost nodes0: seq<Slot<K, V>>,
        ghost i: nat) returns (ok: bool)
      requires Moved(info0, nodes0, i) && i < |nodes0| && nodes0[i] == Live(entry)
      modifies this`maxAllowed, this`numElements, this`infoInc, this`shift, info, nodes
      ensures ok ==> Moved(info0, nodes0, i + 1)
      ensures ok <==> !Crowded(SlotMap(nodes0[..i]), hash, mult, mask + 1)
    {
      hide TagOf, Mixed, Layout, SlotMap, MaxAllowed, Table.Allocated, Crowded;
      assert Agree(info0, nodes0, i);
      PrefixMap(nodes0, i);
      CountMonotone(info0, i + 1, |nodes0|);
      ok := InsertMove(entry);
    }

    lemma SkipNode(info0: seq<uint8>, nodes0: seq<Slot<K, V>>, i: nat)
      requires Moved(info0, nodes0, i) && i < |nodes0| && info0[i] == 0
      ensures Moved(info0, nodes0, i + 1)
    {
      hide TagOf, Mixed, Layout, SlotMap, MaxAllowed, Table.Allocated;
      assert Agree(info0, nodes0, i);
      PrefixMap(nodes0, i);
    }

    method RehashPowerOfTwo(numBuckets: nat) returns (ok: bool)
      requires Movable() && numBuckets >= INITIAL_NUM_ELEMENTS && PowerOfTwo(numBuckets)
      requires numElements <= MaxAllowed(numBuckets, percent)
      modifies this`info, this`nodes, this`numElements, this`mask, this`maxAllowed, this`infoInc, this`shift, nodes
      ensures fresh(info) && fresh(nodes)
      ensures ok ==> Allocated() && Model() == old(Model())
      ensures ok ==> numElements == old(numElements) && Unspoilt()
      ensures mask + 1 == numBuckets
      ensures ok <==> !Overfull(old(nodes[..]), hash, mult, numBuckets)
    {
      hide TagOf, Mixed, Multiplier, SlotMap, MaxAllowed, PowerOfTwo, WithBuffer, Table.Allocated, Crowded;
      var oldInfo, oldNodes := info, nodes;
      ghost var info0, nodes0 := info[..], nodes[..];
      var slots := WithBuffer(mask + 1, percent);
      WithBufferBounds(mask + 1, percent);
      NoNodes<K, V>([]);
      InitData(numBuckets);
      assert nodes0[..0] == [] && nodes0[..|nodes0|] == nodes0;
      ok := true;
      if slots > 1 {
        ok := MoveAll(oldInfo, oldNodes, slots);
      }
    }

    /** The loop of a rehash over the old arrays; the old nodes are destroyed as they move. */
    method MoveAll(oldInfo: array<uint8>, oldNodes: array<Slot<K, V>>, slots: nat) returns (ok: bool)
      requires oldInfo != info && oldNodes != nodes && slots == oldNodes.Length
      requires Moved(oldInfo[..], oldNodes[..], 0)
      modifies this`maxAllowed, this`numElements, this`infoInc, this`shift, info, nodes, oldNodes
      ensures ok ==> Allocated() && Model() == SlotMap(old(oldNodes[..])) && numElements == Count(oldInfo[..], slots)
      ensures ok ==> Unspoilt()
      ensures ok <==> !Overfull(old(oldNodes[..]), hash, mult, mask + 1)
    {
      hide TagOf, Mixed, Layout, SlotMap, MaxAllowed, Table.Allocated, Distinct, Crowded;
      ghost var info0, nodes0 := oldInfo[..], oldNodes[..];
      var i := 0;
      while i < slots
        invariant i <= slots && oldInfo[..] == info0 && forall j | i <= j < slots :: oldNodes[j] == nodes0[j]
        invariant Moved(info0, nodes0, i)
        invariant forall j | 0 <= j < i && nodes0[j].Live? :: !Crowded(SlotMap(nodes0[..j]), hash, mult, mask + 1)
      {
        assert Agree(info0, nodes0, i);
        if oldInfo[i] != 0 {
          ok := MoveNode(oldNodes[i].entry, info0, nodes0, i);
          if !ok {
            return;
          }
          oldNodes[i] := Raw;
        } else {
          SkipNode(info0, nodes0, i);
        }
        i := i + 1;
      }
      assert nodes0[..slots] == nodes0;
      ok := true;
    }

    lemma ValidMovable()
      requires Valid()
      ensures Movable() && numElements <= MaxAllowed(mask + 1, percent)
      ensures mask > 0 ==> mask + 1 >= INITIAL_NUM_ELEMENTS && PowerOfTwo(mask + 1)
      ensures mask > 0 <==> Allocated()
      ensures Unallocated() ==> Model() == map[]
    {
    }

    ghost predicate Narrows()
      reads this
    {
      numElements < MaxAllowed(mask + 1, percent) && infoInc > 2
    }

    ghost predicate Sparse()
      reads this
    {
      numElements * 2 < MaxAllowed(mask + 1, percent)
    }

    ghost function NextMult(): uint64
      reads this
    {
      MultAfter(numElements, mult, mask + 1, percent)
    }

    ghost function NextSize(): (n: nat)
      reads this
      ensures n > 0
    {
      SizeAfter(numElements, mask + 1, percent)
    }

    /** No room for another element, and none to be had from finer bytes. */
    ghost predicate Full()
      reads this
    {
      mask > 0 && numElements >= maxAllowed && !Narrows()
    }

    /** Full, and the keys would be crowded in each of the `j` arrays that the table would move to next. */
    ghost predicate Stuck(j: nat)
      reads this, nodes
    {
      Full() && CrowdedOn(Model(), numElements, hash, mult, mask + 1, percent, j)
    }

    /** The same for the next arrays alone. */
    ghost predicate Tight()
      reads this, nodes
    {
      Full() && Crowded(Model(), hash, NextMult(), NextSize())
    }

    /** The next rehash would not even move all nodes. */
    ghost predicate Breaks()
      reads this, nodes
    {
      mask > 0 && !Narrows() && Overfull(nodes[..], hash, NextMult(), NextSize())
    }

    lemma BreaksTight()
      requires Valid() && Breaks()
      ensures |Model()| > REACH && Crowded(Model(), hash, NextMult(), NextSize())
    {
      hide TagOf, Mixed, SlotMap, Crowded, Overfull;
      OverfullCrammed(nodes[..], hash, NextMult(), NextSize());
      CrammedSize(Model(), hash, NextMult(), NextSize());
    }

    /** The next arrays have a possible multiplier and a size that allows the elements. */
    lemma NextFits()
      requires Valid() && mask > 0
      ensures PowerOfTwo(NextSize()) && numElements <= MaxAllowed(NextSize(), percent)
      ensures NextMult() == Multiplier(rounds + if Sparse() then 1 else 0)
    {
      hide TagOf, Mixed, SlotMap, MaxAllowed, PowerOfTwo, Multiplier;
      ValidMovable();
      NextRound(rounds);
      DoublePower(mask + 1);
      MaxAllowedDouble(mask + 1, percent);
    }

    lemma TightSize()
      requires Valid() && Tight()
      ensures |Model()| >= REACH
    {
      hide TagOf, Mixed, SlotMap, Crowded;
      CrowdedSize(Model(), hash, NextMult(), NextSize());
    }

    ghost function Growths(): (g: nat)
      reads this
      ensures g <= 4
    {
      GrowthsFrom(numElements, maxAllowed, mask, infoInc, percent)
    }

    /** After a rehash, from the old fields given: without full bytes an insertion is nearer, and with them it waits. */
    lemma Nearer(max0: nat, mask0: nat, inc0: nat)
      requires Allocated() && Unspoilt() && max0 <= numElements && mask0 + 1 >= INITIAL_NUM_ELEMENTS
      requires numElements < MaxAllowed(mask0 + 1, percent) ==> inc0 <= 2
      requires mask + 1 == SizeAfter(numElements, mask0 + 1, percent)
      requires numElements <= MaxAllowed(mask0 + 1, percent)
      ensures Crowded(Model(), hash, mult, mask + 1) <==> Full()
      ensures Full() ==> Growths() <= 2
      ensures !Full() ==> Growths() < GrowthsFrom(numElements, max0, mask0, inc0, percent)
    {
      hide MaxAllowed, Sound, Distinct, SlotMap, Crowded, TagOf, Mixed, GrowthsFrom;
      RoomAfter(numElements, mask0, mask, percent);
      GrowthsAtMost(numElements, maxAllowed, mask, infoInc, percent);
      GrowthsAtLeast(numElements, max0, mask0, inc0, percent);
    }

    lemma FirstBuckets()
      requires Allocated() && Model() == map[] && mask + 1 == INITIAL_NUM_ELEMENTS
      ensures !Tight() && Growths() < 4
    {
      hide Sound, Distinct, SlotMap, Crowded, TagOf, Mixed;
      if Tight() {
        TightSize();
      }
    }

    /** The end of `increase_size`: another multiplier if the table is less than half full, or twice the buckets. */
    method Relocate() returns (ok: bool)
      requires Allocated() && !Narrows()
      modifies this, nodes
      ensures fresh(info) && fresh(nodes)
      ensures ok ==> Allocated() && Model() == old(Model()) && numElements == old(numElements)
      ensures mult == old(NextMult()) && mask + 1 == old(NextSize())
      ensures rounds == old(rounds) + if old(Sparse()) then 1 else 0
      ensures ok <==> !Overfull(old(nodes[..]), hash, old(NextMult()), old(NextSize()))
      ensures ok && old(numElements) >= old(maxAllowed) ==>
        if Crowded(Model(), hash, mult, mask + 1) then Full() && Growths() <= 2
        else !Full() && Growths() < old(Growths())
    {
      hide TagOf, Mixed, Multiplier, SlotMap, MaxAllowed, PowerOfTwo, WithBuffer, Table.Allocated, Table.Full, Table.Tight,
        Crowded, Overfull, GrowthsFrom;
      ValidMovable();
      ghost var max0, mask0, inc0 := maxAllowed, mask, infoInc;
      if numElements * 2 < MaxAllowed(mask + 1, percent) {
        NextRound(rounds);
        mult, rounds := NextMultiplier(mult), rounds + 1;
        ok := RehashPowerOfTwo(mask + 1);
      } else {
        MaxAllowedDouble(mask + 1, percent);
        DoublePower(mask + 1);
        ok := RehashPowerOfTwo((mask + 1) * 2);
      }
      if ok && max0 <= numElements {
        Nearer(max0, mask0, inc0);
      }
    }

    /** Allocates the first arrays; or narrows the bytes; or moves the nodes to new arrays. */
    method IncreaseSize() returns (ok: bool)
      requires Valid()
      modifies this, info, nodes
      ensures ok ==> Allocated() && Model() == old(Model()) && numElements == old(numElements)
      ensures ok ==> mask + 1 == if old(mask) == 0 then 8
                                 else if old(Narrows()) || old(Sparse()) then old(mask) + 1 else 2 * (old(mask) + 1)
      ensures ok && old(mask) > 0 && old(Narrows()) ==> shift == old(shift) + 1 && mult == old(mult)
      ensures ok && old(mask) > 0 && !old(Narrows()) ==> rounds == old(rounds) + if old(Sparse()) then 1 else 0
      ensures old(mask) > 0 && !old(Narrows()) ==> mult == old(NextMult()) && mask + 1 == old(NextSize())
      ensures ok <==> !old(Breaks())
      ensures ok && old(Tight()) ==> Full() && Growths() <= 2 && mult == old(NextMult()) && mask + 1 == old(NextSize())
      ensures ok && old(numElements) >= old(maxAllowed) && !old(Tight()) ==> !Tight() && Growths() < old(Growths())
      ensures ok && old(Full()) && !old(Tight()) ==> !Full()
      ensures ok && old(mask) > 0 && old(Narrows()) ==> numElements < maxAllowed
      ensures (info == old(info) && nodes == old(nodes)) || (fresh(info) && fresh(nodes))
    {
      hide TagOf, Mixed, Multiplier, SlotMap, MaxAllowed, PowerOfTwo, WithBuffer, Table.Allocated, Crowded, Overfull,
        GrowthsFrom;
      ValidMovable();
      StillToGrow();
      if mask == 0 {
        EightBuckets();
        InitData(INITIAL_NUM_ELEMENTS);
        FirstBuckets();
        return true;
      }
      var allowed := MaxAllowed(mask + 1, percent);
      if numElements < allowed {
        ok := TryIncreaseInfo();
        if ok {
          Narrowed();
          return;
        }
      }
      ok := Relocate();
    }

    lemma StillToGrow()
      ensures numElements >= maxAllowed ==> Growths() > 0 && (mask == 0 ==> Growths() == 4)
    {
      hide MaxAllowed;
    }

    lemma Narrowed()
      requires mask > 0 && numElements < maxAllowed
      ensures !Tight() && Growths() == 0
    {
      hide SlotMap, Crowded;
    }

    // ----- insertion

    /**
      The attempts of `insertKeyPrepareEmptySpot`: finds the key, or a place for it in a table with room (`NewNode`),
      growing the table first if it has to.
    */
    method FindRoom(key: K) returns (idx: nat, w: nat, state: InsertionState)
      requires Valid()
      modifies this, info, nodes
      ensures info == old(info) || fresh(info)
      ensures nodes == old(nodes) || fresh(nodes)
      ensures !state.Thrown? ==> Valid() && Model() == old(Model()) && numElements == old(numElements)
      ensures !state.OverwriteNode? && (state.KeyFound? <==> key in old(Model()))
      ensures state.KeyFound? ==> idx < nodes.Length && nodes[idx].Live? && nodes[idx].entry.key == key
      ensures state.NewNode? ==> numElements < maxAllowed && idx < info.Length && info[idx] < w
      ensures state.NewNode? ==> Probing(info[..], KeyTag(key), mask + 1, shift, idx, w)
      ensures state.OverflowError? || state.Thrown? ==> old(Tight())
      ensures state.Thrown? ==> |old(Model())| > REACH
      ensures state.OverflowError? ==> old(Stuck(ATTEMPTS - 2))
      ensures state.NewNode? ==> !old(Stuck(ATTEMPTS - 1))
      ensures old(Full() && Breaks()) ==> state.KeyFound? || state.Thrown?
      ensures state.KeyFound? || old(numElements) < old(maxAllowed) ==>
        mask == old(mask) && mult == old(mult) && shift == old(shift)
      ensures state.NewNode? ==>
        && (old(mask > 0 && numElements >= maxAllowed && Narrows()) ==>
              mask == old(mask) && mult == old(mult) && shift == old(shift) + 1)
        && (old(Full() && !Tight()) ==> mask + 1 == old(NextSize()) && mult == old(NextMult()))
    {
      hide TagOf, Mixed, SlotMap, MaxAllowed, Layout, Sound, Distinct, Probing, Table.Valid,
        Crowded, Overfull, CrowdedOn, Table.Stuck, Table.Tight, Table.Breaks, Table.Full, Table.Narrows, Table.Sparse,
        Table.Growths, Table.NextMult, Table.NextSize;
      for i := 0 to ATTEMPTS
        invariant Valid() && Model() == old(Model()) && numElements == old(numElements)
        invariant i > 0 ==> key !in Model()
        invariant !old(Tight()) ==> !Tight() && i + Growths() <= 4
        invariant !old(Stuck(ATTEMPTS - 2)) ==>
          if Tight() then i < ATTEMPTS - 3 && !Stuck(ATTEMPTS - 2 - i) else i + Growths() < ATTEMPTS
        invariant old(Stuck(ATTEMPTS - 1)) && i < ATTEMPTS ==> Stuck(ATTEMPTS - 1 - i)
        invariant i == 0 ==> unchanged(this) && unchanged(nodes)
        invariant i > 0 ==> !old(Full() && Breaks()) && old(numElements) >= old(maxAllowed)
        invariant i > 0 && old(mask > 0 && Narrows()) ==>
          mask == old(mask) && mult == old(mult) && shift == old(shift) + 1 && numElements < maxAllowed
        invariant i > 0 && old(Full() && !Tight()) ==>
          mask > 0 && mask + 1 == old(NextSize()) && mult == old(NextMult()) && !Full()
        invariant (info == old(info) && nodes == old(nodes)) || (fresh(info) && fresh(nodes))
      {
        var found;
        found, idx, w := SeekSpot(key);
        if found {
          return idx, w, KeyFound;
        }
        Attempts(i);
        if numElements < maxAllowed {
          return idx, w, NewNode;
        }
        var ok := IncreaseSize();
        if !ok {
          return 0, 0, Thrown;
        }
        AllocatedValid();
        AttemptsLeft(i);
      }
      return 0, 0, OverflowError;
    }

    lemma AllocatedValid()
      requires Allocated()
      ensures Valid()
    {
    }

    /**
      Finds the key or opens a spot for it.
      For an opened spot, `before` are the nodes just before and `e` is the slot that was used up.
    */
    method InsertKeyPrepareEmptySpot(key: K)
      returns (idx: nat, state: InsertionState, ghost before: seq<Slot<K, V>>, ghost e: nat)
      requires Valid()
      modifies this, info, nodes
      ensures info == old(info) || fresh(info)
      ensures nodes == old(nodes) || fresh(nodes)
      ensures state.KeyFound? <==> key in old(Model())
      ensures state.OverflowError? || state.Thrown? ==> old(Tight())
      ensures state.Thrown? ==> |old(Model())| > REACH
      ensures state.OverflowError? ==> old(Stuck(254))
      ensures state.NewNode? || state.OverwriteNode? ==> !old(Stuck(255))
      ensures old(Full() && Breaks()) ==> state.KeyFound? || state.Thrown?
      ensures state.KeyFound? || old(numElements) < old(maxAllowed) ==>
        mask == old(mask) && mult == old(mult) && shift == old(shift)
      ensures state.NewNode? || state.OverwriteNode? ==>
        && (old(mask > 0 && numElements >= maxAllowed && Narrows()) ==>
              mask == old(mask) && mult == old(mult) && shift == old(shift) + 1)
        && (old(Full() && !Tight()) ==> mask + 1 == old(NextSize()) && mult == old(NextMult()))
      ensures state.KeyFound? ==> Valid() && Model() == old(Model())
      ensures state.KeyFound? ==> idx < nodes.Length && nodes[idx].Live? && nodes[idx].entry.key == key
      ensures state.OverflowError? ==> Valid() && Model() == old(Model())
      ensures state.NewNode? || state.OverwriteNode? ==> Ready(key, idx, before, e) && SlotMap(before) == old(Model())
      ensures state.NewNode? || state.OverwriteNode? ==> state.NewNode? == nodes[idx].Raw?
    {
      hide TagOf, Mixed, SlotMap, MaxAllowed, Layout, Sound, SoundBut, Distinct, SlotsUp, Probing, Table.Fits,
        Crowded, Overfull, CrowdedOn, Table.Stuck, Table.Tight, Table.Breaks, Table.Full, Table.Narrows, Table.NextMult,
        Table.NextSize;
      before, e := [], 0;
      var w;
      idx, w, state := FindRoom(key);
      if state.NewNode? {
        SmallerMaximum();
        before := nodes[..];
        var isNew;
        isNew, e := OpenSpot(idx, w, KeyTag(key));
        state := if isNew then NewNode else OverwriteNode;
      }
    }

    /** What the number of attempts that are left means before the table grows. */
    lemma Attempts(i: nat)
      requires Valid() && i < ATTEMPTS
      ensures Breaks() && numElements >= maxAllowed ==> Tight() && |Model()| > REACH
      ensures Tight() || Stuck(ATTEMPTS - 1 - i) ==> Full()
      ensures Full() <==> mask > 0 && numElements >= maxAllowed && !Narrows()
      ensures i < ATTEMPTS - 1 ==>
        (Stuck(ATTEMPTS - 1 - i) <==>
           Tight() && CrowdedOn(Model(), numElements, hash, NextMult(), NextSize(), percent, ATTEMPTS - 2 - i))
      ensures i < ATTEMPTS - 2 ==>
        (Stuck(ATTEMPTS - 2 - i) <==>
           Tight() && CrowdedOn(Model(), numElements, hash, NextMult(), NextSize(), percent, ATTEMPTS - 3 - i))
    {
      hide TagOf, Mixed, SlotMap, Crowded, Overfull, Distinct, Table.Allocated;
      if Breaks() {
        BreaksTight();
      }
    }

    /** And after it has grown. */
    lemma AttemptsLeft(i: nat)
      requires i < ATTEMPTS
      ensures i < ATTEMPTS - 1 ==>
        (Stuck(ATTEMPTS - 2 - i) <==>
           Full() && CrowdedOn(Model(), numElements, hash, mult, mask + 1, percent, ATTEMPTS - 2 - i))
      ensures i < ATTEMPTS - 2 ==>
        (Stuck(ATTEMPTS - 3 - i) <==>
           Full() && CrowdedOn(Model(), numElements, hash, mult, mask + 1, percent, ATTEMPTS - 3 - i))
      ensures Stuck(0) <==> Full()
      ensures Stuck(1) <==> Tight()
      ensures Full() ==> numElements >= maxAllowed
    {
      hide SlotMap, Crowded;
    }

    lemma SmallerMaximum()
      requires Valid() && numElements < maxAllowed
      ensures Allocated() && numElements < MaxAllowed(mask + 1, percent)
    {
    }

    /** The search of `insertKeyPrepareEmptySpot`: skip richer slots, then compare keys while the info value matches. */
    method SeekSpot(key: K) returns (found: bool, idx: nat, w: nat)
      requires Valid()
      ensures found ==> idx < nodes.Length && nodes[idx].Live? && nodes[idx].entry.key == key && key in Model()
      ensures !found ==> key !in Model() && idx < info.Length && info[idx] < w
      ensures !found ==> Probing(info[..], KeyTag(key), mask + 1, shift, idx, w)
    {
      hide TagOf, Mixed, SlotMap, MaxAllowed, Layout, Sound, Distinct;
      idx, w := StartScan(key);
      StartBounds(idx);
      while w < info[idx]
        invariant idx < info.Length && Scanning(key, idx, w) && Probing(info[..], KeyTag(key), mask + 1, shift, idx, w)
        decreases info.Length - idx
      {
        GoesOn(key, idx, w);
        Miss(key, idx, w);
        idx, w := idx + 1, w + infoInc;
      }
      while w == info[idx]
        invariant idx < info.Length && Scanning(key, idx, w) && Probing(info[..], KeyTag(key), mask + 1, shift, idx, w)
        invariant info[idx] <= w
        decreases info.Length - idx
      {
        Hit(key, idx, w);
        if nodes[idx].entry.key == key {
          MapHas(nodes[..], idx);
          return true, idx, w;
        }
        GoesOn(key, idx, w);
        Miss(key, idx, w);
        NextAtMost(idx);
        idx, w := idx + 1, w + infoInc;
      }
      Stopped(key, idx, w);
      found := false;
    }

    lemma NextAtMost(i: nat)
      requires Allocated() && i < nodes.Length && info[i] != 0
      ensures info[i + 1] <= info[i] + infoInc
    {
      assert Link(info[..], shift, i);
    }

    /** The keys of the table with the hash of `key`. */
    ghost function Kin(key: K): set<K>
      reads this, nodes
    {
      Alike(nodes[..], hash, hash(key))
    }

    /** No byte can hold the distance of a 128th key of one hash, whatever the multiplier. */
    lemma KinBound(key: K)
      requires Valid()
      ensures |Kin(key)| <= REACH
    {
      hide TagOf, Mixed, SlotMap, MaxAllowed, Layout, Distinct, Wf, Alike;
      ValidMovable();
      if mask == 0 {
        NoneAlike(nodes[..], hash, hash(key));
      } else {
        AlikeBound(info[..], nodes[..], hash, mult, mask + 1, shift, hash(key), nodes.Length);
        assert nodes[..][..nodes.Length] == nodes[..];
      }
    }

    method TryEmplace(key: K, value: V) returns (pos: nat, state: InsertionState)
      requires Valid()
      modifies this, info, nodes
      ensures !state.Thrown? ==> Valid()
      ensures state.OverflowError? ==> Model() == old(Model())
      ensures state.KeyFound? <==> key in old(Model())
      ensures state.KeyFound? ==> Model() == old(Model())
      ensures state.NewNode? || state.OverwriteNode? ==> Model() == old(Model())[key := value]
      ensures state.NewNode? || state.OverwriteNode? ==> old(|Kin(key)|) < REACH
      ensures state.OverflowError? || state.Thrown? ==> old(Tight()) && |old(Model())| >= REACH
      ensures state.OverflowError? ==> old(Stuck(254))
      ensures state.NewNode? || state.OverwriteNode? ==> !old(Stuck(255))
      ensures old(Full() && Breaks()) ==> state.KeyFound? || state.Thrown?
      ensures state.KeyFound? || old(numElements) < old(maxAllowed) ==>
        mask == old(mask) && mult == old(mult) && shift == old(shift)
      ensures state.NewNode? || state.OverwriteNode? ==>
        && (old(mask > 0 && numElements >= maxAllowed && Narrows()) ==>
              mask == old(mask) && mult == old(mult) && shift == old(shift) + 1)
        && (old(Full() && !Tight()) ==> mask + 1 == old(NextSize()) && mult == old(NextMult()))
      ensures state.Thrown? ==> |old(Model())| > REACH
      ensures state.KeyFound? || state.NewNode? || state.OverwriteNode? ==>
        pos < nodes.Length && nodes[pos].Live? && nodes[pos].entry.key == key
      ensures info == old(info) || fresh(info)
      ensures nodes == old(nodes) || fresh(nodes)
    {
      hide TagOf, Mixed, SlotMap, MaxAllowed, Layout, Sound, SoundBut, Distinct, SlotsUp, Table.Fits,
        Table.Stuck, Table.Breaks, Table.Narrows, Table.NextSize, Table.NextMult;
      ghost var before, e;
      if Tight() {
        TightSize();
      }
      pos, state, before, e := InsertKeyPrepareEmptySpot(key);
      if state.NewNode? || state.OverwriteNode? {
        FillSpot(pos, Entry(key, value), state.NewNode?, before, e);
        KinGrew(before, key, value);
      }
    }

    /** The table took a new key, so one fewer of the same hash were there before. */
    lemma KinGrew(before: seq<Slot<K, V>>, key: K, value: V)
      requires Valid() && key !in SlotMap(before) && Model() == SlotMap(before)[key := value]
      ensures |Alike(before, hash, hash(key))| < REACH
    {
      KinBound(key);
      assert Kin(key) == Alike(before, hash, hash(key)) + {key};
    }

    method InsertOrAssign(key: K, value: V) returns (pos: nat, state: InsertionState)
      requires Valid()
      modifies this, info, nodes
      ensures !state.Thrown? ==> Valid()
      ensures state.OverflowError? ==> Model() == old(Model())
      ensures state.KeyFound? <==> key in old(Model())
      ensures state.NewNode? || state.OverwriteNode? ==> old(|Kin(key)|) < REACH
      ensures state.OverflowError? || state.Thrown? ==> old(Tight()) && |old(Model())| >= REACH
      ensures state.OverflowError? ==> old(Stuck(254))
      ensures state.NewNode? || state.OverwriteNode? ==> !old(Stuck(255))
      ensures old(Full() && Breaks()) ==> state.KeyFound? || state.Thrown?
      ensures state.KeyFound? || old(numElements) < old(maxAllowed) ==>
        mask == old(mask) && mult == old(mult) && shift == old(shift)
      ensures state.NewNode? || state.OverwriteNode? ==>
        && (old(mask > 0 && numElements >= maxAllowed && Narrows()) ==>
              mask == old(mask) && mult == old(mult) && shift == old(shift) + 1)
        && (old(Full() && !Tight()) ==> mask + 1 == old(NextSize()) && mult == old(NextMult()))
      ensures state.Thrown? ==> |old(Model())| > REACH
      ensures state.KeyFound? || state.NewNode? || state.OverwriteNode? ==> Model() == old(Model())[key := value]
      ensures state.KeyFound? || state.NewNode? || state.OverwriteNode? ==>
        pos < nodes.Length && nodes[pos] == Live(Entry(key, value))
      ensures info == old(info) || fresh(info)
      ensures nodes == old(nodes) || fresh(nodes)
    {
      hide TagOf, Mixed, SlotMap, MaxAllowed, Layout, Sound, SoundBut, Distinct, SlotsUp, Table.Fits,
        Table.Stuck, Table.Breaks, Table.Narrows, Table.NextSize, Table.NextMult;
      ghost var before, e;
      if Tight() {
        TightSize();
      }
      pos, state, before, e := InsertKeyPrepareEmptySpot(key);
      if state.NewNode? || state.OverwriteNode? {
        FillSpot(pos, Entry(key, value), state.NewNode?, before, e);
        KinGrew(before, key, value);
      } else if state.KeyFound? {
        SetValue(pos, value);
      }
    }

    /** Assigns to the mapped value of a live node. */
    method SetValue(pos: nat, value: V)
      requires Valid() && pos < nodes.Length && nodes[pos].Live?
      modifies nodes
      ensures Valid() && Model() == old(Model())[old(nodes[pos]).entry.key := value]
      ensures nodes[pos] == Live(Entry(old(nodes[pos]).entry.key, value))
    {
      hide TagOf, Mixed, SlotMap, MaxAllowed, Layout;
      ghost var nodes0, key := nodes[..], nodes[pos].entry.key;
      nodes[pos] := Live(Entry(nodes[pos].entry.key, value));
      SameKeyMap(nodes0, pos, value);
      assert TagsOf(nodes[..], hash, mult, mask + 1) == TagsOf(nodes0, hash, mult, mask + 1);
      forall i | 0 <= i < nodes.Length && |nodes0| <= info.Length ensures Agree(info[..], nodes[..], i) {
        assert Agree(info[..], nodes0, i);
      }
    }

    // ----- removal

    /** A removal at `p` has come to the hole at `h`, starting from the arrays `info0` and `nodes0`. */
    ghost predicate Closing(info0: seq<uint8>, nodes0: seq<Slot<K, V>>, p: nat, h: nat, tag: Tag)
      reads this, info, nodes
    {
      && h < nodes.Length && info.Length == nodes.Length + 8 && infoInc == Inc(shift) && |info0| == info.Length
      && SoundHole(info[..], nodes[..], hash, mult, mask + 1, shift, h, tag)
      && Count(info[..], nodes.Length) == Count(info0, nodes.Length)
      && (maxAllowed > 0 ==> RoomToShift(info[..], shift, nodes.Length))
      && Lowered(nodes0, nodes[..], p, h)
    }

    /** One round of `shiftDown`'s loop. */
    method CloseOne(h: nat, ghost info0: seq<uint8>, ghost nodes0: seq<Slot<K, V>>, ghost p: nat,
        ghost tag: Tag) returns (ghost tag': Tag)
      requires Closing(info0, nodes0, p, h, tag) && info[h + 1] >= 2 * infoInc
      modifies info, nodes
      ensures Closing(info0, nodes0, p, h + 1, tag')
    {
      hide TagOf, Mixed, SlotMap, MaxAllowed, Layout, SoundHole, Distinct, Count;
      ghost var bytes := info[..];
      HoleStep(bytes, nodes[..], hash, mult, mask + 1, shift, h, tag);
      tag' := SlotTag(nodes[h + 1], hash, mult, mask + 1);
      info[h] := (info[h + 1] - infoInc) % 0x100;
      MoveAssign(h, h + 1);
      assert info[..] == bytes[h := bytes[h + 1] - infoInc];
    }

    method ShiftDown(p: nat) returns (ghost q: nat)
      requires Allocated() && p < nodes.Length && info[p] != 0
      modifies info, nodes
      ensures info.Length == nodes.Length + 8
      ensures Sound(info[..], nodes[..], hash, mult, mask + 1, shift)
      ensures Count(info[..], nodes.Length) + 1 == old(Count(info[..], nodes.Length))
      ensures maxAllowed > 0 ==> RoomToShift(info[..], shift, nodes.Length)
      ensures old(nodes[p].Live?) && q < nodes.Length && SlotsDown(old(nodes[..]), nodes[..], p, q)
    {
      hide TagOf, Mixed, SlotMap, MaxAllowed, Layout, Sound, SoundHole, Distinct, Count, Lowered;
      ghost var info0, nodes0 := info[..], nodes[..];
      ghost var tag := TagsOf(nodes0, hash, mult, mask + 1)[p];
      HoleStart(info0, nodes0, hash, mult, mask + 1, shift, p);
      LowerStart(nodes0, p);
      var idx: nat := p;
      while info[idx + 1] >= 2 * infoInc
        invariant Closing(info0, nodes0, p, idx, tag)
        decreases nodes.Length - idx
      {
        tag := CloseOne(idx, info0, nodes0, p, tag);
        idx := idx + 1;
      }
      HoleEnd(info[..], nodes[..], hash, mult, mask + 1, shift, idx, tag);
      LowerEnd(nodes0, nodes[..], p, idx);
      info[idx] := 0;
      nodes[idx] := Raw;
      q := idx;
    }

    /** The shared end of both ways to erase. */
    method EraseSlot(p: nat)
      requires Allocated() && p < nodes.Length && info[p] != 0
      modifies this`numElements, info, nodes
      ensures Allocated() && old(nodes[p].Live?) && Model() == old(Model()) - {old(nodes[p]).entry.key}
      ensures numElements + 1 == old(numElements)
    {
      hide TagOf, Mixed, SlotMap, MaxAllowed, Layout, Sound, SlotsDown;
      ghost var q := ShiftDown(p);
      numElements := numElements - 1;
      DownMap(old(nodes[..]), nodes[..], p, q);
    }

    /** Erases the node behind an iterator; the result says whether a successor moved into its place. */
    method EraseAt(p: nat) returns (again: bool)
      requires Valid() && p < nodes.Length && nodes[p].Live?
      modifies this`numElements, info, nodes
      ensures Valid() && Model() == old(Model()) - {old(nodes[p]).entry.key}
      ensures again <==> nodes[p].Live?
    {
      OccupiedAt(p);
      EraseSlot(p);
      OccupiedAt(p);
      again := info[p] != 0;
    }

    lemma OccupiedAt(p: nat)
      requires Allocated() && p < nodes.Length
      ensures info[p] != 0 <==> nodes[p].Live?
    {
      hide TagOf, Mixed, SlotMap, MaxAllowed, Layout;
      assert Agree(info[..], nodes[..], p);
    }

    /** The do-while loop of `erase` by key: the first probe is made without a stop test. */
    method EraseKey(key: K) returns (count: nat)
      requires Valid()
      modifies this`numElements, info, nodes
      ensures Valid() && Model() == old(Model()) - {key}
      ensures count == if key in old(Model()) then 1 else 0
    {
      hide TagOf, Mixed, Layout, MaxAllowed, SlotMap, Sound, Distinct, Table.Fits;
      var idx: nat, w: nat := StartScan(key);
      StartBounds(idx);
      var more := true;
      while more
        invariant unchanged(this) && unchanged(info) && unchanged(nodes)
        invariant Scanning(key, idx, w) && idx < info.Length
        invariant more ==> idx + 1 < info.Length
        invariant !more ==> info[idx] < w
        decreases more, info.Length - idx
      {
        if w == info[idx] {
          Hit(key, idx, w);
          if key == nodes[idx].entry.key {
            MapHas(nodes[..], idx);
            EraseSlot(idx);
            return 1;
          }
        }
        Miss(key, idx, w);
        idx, w := idx + 1, w + infoInc;
        more := w <= info[idx];
        if more {
          GoesOn(key, idx, w);
        }
      }
      Stopped(key, idx, w);
      count := 0;
    }

    // ----- capacity

    /** Destroys every node and starts over with full hash bits; the capacity flag stays as it was. */
    method Clear()
      requires Valid()
      modifies this`numElements, this`infoInc, this`shift, info, nodes
      ensures Valid() && Model() == map[] && numElements == 0
    {
      hide TagOf, Mixed, SlotMap, MaxAllowed, Layout, Distinct, Count, Sound;
      if numElements == 0 {
        NothingLeft();
        return;
      }
      DestroyNodes();
      numElements := 0;
      ZeroInfo();
      info[nodes.Length] := 1;
      infoInc, shift := INITIAL_INFO_INC, 0;
      LayoutBounds();
      Fresh(info[..], nodes[..], hash, mult, mask + 1, 0);
    }

    method ZeroInfo()
      modifies info
      ensures forall i | 0 <= i < info.Length :: info[i] == 0
    {
      for i := 0 to info.Length
        invariant forall j | 0 <= j < i :: info[j] == 0
      {
        info[i] := 0;
      }
    }

    method DestroyNodes()
      requires Allocated()
      modifies nodes
      ensures forall i | 0 <= i < nodes.Length :: nodes[i].Raw?
    {
      hide TagOf, Mixed, SlotMap, MaxAllowed, Layout, Distinct, Count, Sound;
      ghost var nodes0 := nodes[..];
      for i := 0 to nodes.Length
        invariant forall j | 0 <= j < i :: nodes[j].Raw?
        invariant forall j | i <= j < nodes.Length :: nodes[j] == nodes0[j]
      {
        RawWhereZero(info[..], nodes0, i);
        if info[i] != 0 {
          nodes[i] := Raw;
        }
      }
    }

    lemma RawWhereZero(info0: seq<uint8>, nodes0: seq<Slot<K, V>>, i: nat)
      requires Sound(info0, nodes0, hash, mult, mask + 1, shift) && i < |nodes0|
      ensures info0[i] == 0 ==> nodes0[i].Raw?
    {
      hide TagOf, Mixed;
      assert Agree(info0, nodes0, i);
    }

    lemma LayoutBounds()
      requires Layout(mask, percent, nodes.Length, mult, rounds)
      ensures 1 < mask + 1 <= nodes.Length
    {
      WithBufferBounds(mask + 1, percent);
    }

    lemma NothingLeft()
      requires Valid() && numElements == 0
      ensures Model() == map[]
    {
      hide TagOf, Mixed, Layout, MaxAllowed;
      forall i | 0 <= i < nodes.Length ensures !nodes[i].Live? {
        assert Agree(info[..], nodes[..], i);
        if info[i] != 0 {
          CountPositive(info[..], i, nodes.Length);
        }
      }
      NoNodes(nodes[..]);
    }

    method Reserve(c: nat, forceRehash: bool) returns (ok: bool)
      requires Valid()
      modifies this, info, nodes
      ensures ok ==> Valid() && Model() == old(Model()) && c <= MaxAllowed(mask + 1, percent)
      ensures var most := if c < old(numElements) then old(numElements) else c;
        var n := BucketsFor(most, percent);
        && (TooMany(most, percent) ==> !ok && unchanged(this) && unchanged(info) && unchanged(nodes))
        && (!TooMany(most, percent) ==>
              (ok <==> !((forceRehash || n > old(mask) + 1) && Overfull(old(nodes[..]), hash, old(mult), n))))
        && (ok ==> mask + 1 == if forceRehash || n > old(mask) + 1 then n else old(mask) + 1)
        && (!forceRehash && n <= old(mask) + 1 ==> unchanged(this) && unchanged(info) && unchanged(nodes))
        && (if TooMany(most, percent) then !Covers(LAST_SIZE, percent, most) else LeastCovering(n, percent, most))
      ensures info == old(info) || fresh(info)
      ensures nodes == old(nodes) || fresh(nodes)
      ensures ok && (forceRehash || mask > old(mask)) ==>
        Smallest(mask + 1, if c < old(numElements) then old(numElements) else c, percent)
      ensures ok && !forceRehash ==> mask >= old(mask)
    {
      hide TagOf, Mixed, Multiplier, SlotMap, MaxAllowed, PowerOfTwo, WithBuffer, Table.Allocated, Table.Unallocated,
        Crowded, Overfull, BucketsFor, Covers, LeastCovering;
      ValidMovable();
      SizeIsModel();
      var minAllowed := if c < numElements then numElements else c;
      var newSize := SizeFor(minAllowed);
      if newSize == 0 {
        return false;
      }
      ok := true;
      if forceRehash || newSize > mask + 1 {
        ok := RehashPowerOfTwo(newSize);
      } else {
        MaxAllowedPowers(newSize, mask + 1, percent);
      }
    }

    /** `size` is the number of keys. */
    lemma SizeIsModel()
      requires Valid()
      ensures |Model()| == numElements
    {
      hide Distinct, SlotMap, Count, TagOf, Mixed, Layout;
      ValidMovable();
      if mask > 0 {
        MapSize(info[..], nodes[..], nodes.Length);
        assert nodes[..][..nodes.Length] == nodes[..];
      }
    }

    /** Doubles from eight until enough elements are allowed; zero when that overflows 64 bits. */
    method SizeFor(elements: nat) returns (newSize: nat)
      requires 10 < percent < 100
      ensures newSize != 0 ==> newSize >= INITIAL_NUM_ELEMENTS && PowerOfTwo(newSize) && elements <= MaxAllowed(newSize, percent)
      ensures newSize != 0 ==> Smallest(newSize, elements, percent)
      ensures newSize == if TooMany(elements, percent) then 0 else BucketsFor(elements, percent)
      ensures if newSize == 0 then !Covers(LAST_SIZE, percent, elements) else LeastCovering(newSize, percent, elements)
    {
      hide Sized, MaxAllowed, Covers, LeastCovering;
      BucketsExactly(elements, percent);
      LastSize();
      newSize := INITIAL_NUM_ELEMENTS;
      EightBuckets();
      ghost var bits: nat := 3;
      while MaxAllowed(newSize, percent) < elements && newSize != 0
        invariant Sized(newSize, bits)
        invariant newSize != 0 ==> INITIAL_NUM_ELEMENTS <= newSize <= LAST_SIZE && PowerOfTwo(newSize) && bits < 64
        invariant newSize == 0 ==> TooMany(elements, percent)
        invariant newSize != 0 ==> BucketsFor(elements, percent, newSize) == BucketsFor(elements, percent)
        invariant newSize != 0 ==> Smallest(newSize, elements, percent)
        decreases 64 - bits
      {
        SizeStep(newSize, bits);
        newSize := newSize * 2 % WORD64;
        bits := bits + 1;
      }
      if newSize != 0 {
        MaxAllowedPowers(newSize, LAST_SIZE, percent);
      }
    }

    method Compact() returns (ok: bool)
      requires Valid()
      modifies this, info, nodes
      ensures ok ==> Valid() && Model() == old(Model()) && mask <= old(mask)
      ensures TooMany(old(numElements), percent) ==> !ok && unchanged(this) && unchanged(info) && unchanged(nodes)
      ensures var n := BucketsFor(old(numElements), percent);
        !TooMany(old(numElements), percent) ==>
          (ok <==> !(n < old(mask) + 1 && Overfull(old(nodes[..]), hash, old(mult), n)))
      ensures if TooMany(old(numElements), percent) then !Covers(LAST_SIZE, percent, old(numElements))
              else LeastCovering(BucketsFor(old(numElements), percent), percent, old(numElements))
      ensures ok ==> mask + 1 == if BucketsFor(old(numElements), percent) < old(mask) + 1
                                 then BucketsFor(old(numElements), percent) else old(mask) + 1
      ensures old(mask) + 1 <= BucketsFor(old(numElements), percent) ==> unchanged(this) && unchanged(info) && unchanged(nodes)
      ensures info == old(info) || fresh(info)
      ensures nodes == old(nodes) || fresh(nodes)
      ensures ok ==> Smallest(mask + 1, numElements, percent)
    {
      hide TagOf, Mixed, Multiplier, SlotMap, MaxAllowed, PowerOfTwo, WithBuffer, Table.Allocated, Table.Unallocated,
        Crowded, Overfull, BucketsFor, Covers, LeastCovering;
      ValidMovable();
      var newSize := SizeFor(numElements);
      if newSize == 0 {
        return false;
      }
      ok := true;
      if newSize < mask + 1 {
        ok := RehashPowerOfTwo(newSize);
      } else {
        SmallerToo(mask + 1, newSize, numElements, percent);
      }
    }
  }

  /** Of keys that share one hash a new table takes the first 127 and refuses the next with an overflow. */
  method FillWithOneHash<K(==), V(==)>(hash: K -> uint64, percent: nat, keys: seq<K>, value: V)
    returns (taken: nat, state: InsertionState)
    requires 10 < percent < 100
    requires OneHash(hash, keys)
    ensures taken == if |keys| <= REACH then |keys| else REACH
    ensures taken < |keys| ==> state.OverflowError?
  {
    hide Table.Valid, Table.Kin, Table.Tight, Table.Stuck, Table.Full, Table.Breaks, Elements, OneHash;
    assert Elements(keys[..0]) == {} by {
      NoElements(keys[..0]);
    }
    var t := new Table<K, V>(hash, percent);
    taken, state := 0, KeyFound;
    while taken < |keys|
      invariant t.Valid() && t.hash == hash && taken <= |keys| && taken <= REACH
      invariant t.Model().Keys == Elements(keys[..taken])
      invariant fresh(t) && fresh(t.info) && fresh(t.nodes)
    {
      AllAlike(t, keys, taken);
      var pos;
      pos, state := t.TryEmplace(keys[taken], value);
      if state.Thrown? || state.OverflowError? {
        return;
      }
      taken := taken + 1;
    }
  }

  ghost predicate OneHash<K>(hash: K -> uint64, keys: seq<K>) {
    NoDuplicates(keys) && forall i, j | 0 <= i < j < |keys| :: hash(keys[i]) == hash(keys[j])
  }

  lemma AllAlike<K, V>(t: Table<K, V>, keys: seq<K>, n: nat)
    requires t.Valid() && OneHash(t.hash, keys) && n < |keys| && t.Model().Keys == Elements(keys[..n])
    ensures |t.Kin(keys[n])| == |t.Model()| == n && keys[n] !in t.Model()
    ensures Elements(keys[..n + 1]) == Elements(keys[..n]) + {keys[n]}
  {
    OneMoreElement(keys, n);
    assert |t.Model()| == |t.Model().Keys|;
    assert t.Kin(keys[n]) == t.Model().Keys;
  }

  /** The nodes behind `p` up to the hole at `h` have moved down by one. */
  predicate Lowered<K(==), V(==)>(s: seq<Slot<K, V>>, s': seq<Slot<K, V>>, p: nat, h: nat) {
    && |s'| == |s| && p <= h < |s|
    && (forall i {:trigger s'[i]} | 0 <= i < |s| && !(p <= i <= h) :: s'[i] == s[i])
    && (forall i {:trigger s'[i]} | p <= i < h :: s'[i] == s[i + 1])
    && !s'[h].Raw?
  }

  lemma LowerStart<K, V>(s: seq<Slot<K, V>>, p: nat)
    requires p < |s| && !s[p].Raw?
    ensures Lowered(s, s, p, p)
  {
  }

  lemma LowerEnd<K, V>(s: seq<Slot<K, V>>, s': seq<Slot<K, V>>, p: nat, h: nat)
    requires Lowered(s, s', p, h)
    ensures SlotsDown(s, s'[h := Raw], p, h)
  {
  }
}
