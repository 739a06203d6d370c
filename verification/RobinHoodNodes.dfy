/** The info bytes, the nodes and the capacities of `robin_hood`'s table together, on values. */
module RobinHoodNodes {
  import opened Words
  import opened Entries
  import opened Slots
  import opened InfoBytes
  import opened HashMixing

  const INITIAL_NUM_ELEMENTS: nat := 8
  const INITIAL_INFO_INC: nat := 32
  const LAST_SIZE: nat := WORD64 / 2

  function TagOf(m: nat, n: nat): Tag
    requires n > 0
  {
    Tag((m / 32) % n, m % 32)
  }

  function SlotTag<K, V>(s: Slot<K, V>, hash: K -> uint64, mult: uint64, n: nat): Tag
    requires n > 0
  {
    if s.Live? then TagOf(Mixed(hash(s.entry.key), mult), n) else Tag(0, 0)
  }

  function TagsOf<K, V>(s: seq<Slot<K, V>>, hash: K -> uint64, mult: uint64, n: nat): (tags: seq<Tag>)
    requires n > 0
    ensures |tags| == |s|
    ensures forall i | 0 <= i < |s| :: tags[i] == SlotTag(s[i], hash, mult, n)
  {
    seq(|s|, i requires 0 <= i < |s| => SlotTag(s[i], hash, mult, n))
  }

  // ----- capacity arithmetic

  lemma WithBufferBounds(n: nat, percent: nat)
    requires percent < 100
    ensures n <= WithBuffer(n, percent)
    ensures n == 1 ==> WithBuffer(n, percent) == 1
  {
  }

  /** `calcMaxNumElementsAllowed`, with its second formula where the first could leave 64 bits. */
  function MaxAllowed(n: nat, percent: nat): nat {
    if n <= (WORD64 - 1) / 100 then n * percent / 100 else (n / 100) * percent
  }

  /** It is the percentage of the buckets, rounded down; dividing first costs less than the percentage itself. */
  lemma MaxAllowedPercentage(n: nat, percent: nat)
    requires percent < 100
    ensures n <= (WORD64 - 1) / 100 ==> 100 * MaxAllowed(n, percent) <= n * percent < 100 * (MaxAllowed(n, percent) + 1)
    ensures n > (WORD64 - 1) / 100 && percent > 0 ==>
      100 * MaxAllowed(n, percent) <= n * percent < 100 * MaxAllowed(n, percent) + 100 * percent
  {
    var q := n / 100;
    assert n == 100 * q + n % 100;
    assert n * percent == 100 * (q * percent) + (n % 100) * percent;
    MulMonotone(0, n % 100, percent);
    if percent > 0 {
      MulStrict(n % 100, 100, percent);
    }
  }

  lemma MulStrict(a: nat, b: nat, c: nat)
    requires a < b && c > 0
    ensures a * c < b * c
  {
  }

  /** The percentage of `n` buckets, in the source's two ways to compute it, covers the elements. */
  predicate Covers(n: nat, percent: nat, elements: nat) {
    if n <= (WORD64 - 1) / 100 then 100 * elements <= n * percent else elements <= (n / 100) * percent
  }

  lemma CoversExactly(n: nat, percent: nat, elements: nat)
    requires percent < 100
    ensures elements <= MaxAllowed(n, percent) <==> Covers(n, percent, elements)
  {
    MaxAllowedPercentage(n, percent);
  }

  /** `n` is the least power of two from eight on whose percentage covers the elements. */
  ghost predicate LeastCovering(n: nat, percent: nat, elements: nat) {
    && n >= 8 && PowerOfTwo(n) && Covers(n, percent, elements)
    && forall k | 8 <= k < n && PowerOfTwo(k) :: !Covers(k, percent, elements)
  }

  lemma SmallestCovers(n: nat, percent: nat, elements: nat)
    requires 10 < percent < 100 && n >= INITIAL_NUM_ELEMENTS && PowerOfTwo(n)
    requires elements <= MaxAllowed(n, percent) && Smallest(n, elements, percent)
    ensures LeastCovering(n, percent, elements)
  {
    hide MaxAllowed, PowerOfTwo, Covers;
    CoversExactly(n, percent, elements);
    forall k | INITIAL_NUM_ELEMENTS <= k < n && PowerOfTwo(k) ensures !Covers(k, percent, elements) {
      PowersHalve(k, n);
      MaxAllowedPowers(k, n / 2, percent);
      CoversExactly(k, percent, elements);
    }
  }

  lemma PowersHalve(a: nat, b: nat)
    requires PowerOfTwo(a) && PowerOfTwo(b) && a < b
    ensures a <= b / 2 && PowerOfTwo(b / 2)
  {
    PowersOrder(a, b);
  }

  function WithBuffer(n: nat, percent: nat): nat {
    n + if MaxAllowed(n, percent) < 0xFF then MaxAllowed(n, percent) else 0xFF
  }

  /** From eight buckets on, doubling raises it. */
  lemma MaxAllowedStrict(n: nat, percent: nat)
    requires 10 < percent < 100 && n >= INITIAL_NUM_ELEMENTS
    ensures MaxAllowed(n, percent) < MaxAllowed(2 * n, percent)
  {
    var p := n * percent;
    assert 2 * n * percent == 2 * p;
    MulMonotone(INITIAL_NUM_ELEMENTS, n, percent);
    if n <= (WORD64 - 1) / 100 < 2 * n {
      var q := 2 * n / 100;
      assert 100 * q >= 2 * n - 99;
      MulMonotone(2 * n - 99, 100 * q, percent);
      assert (2 * n - 99) * percent == 2 * p - 99 * percent;
      assert 100 * q * percent == 100 * (q * percent);
      MulMonotone(1000, n, percent);
    } else if n > (WORD64 - 1) / 100 {
      MulMonotone(n / 100 + 1, 2 * n / 100, percent);
      assert (n / 100 + 1) * percent == (n / 100) * percent + percent;
    }
  }

  /** Doubling the buckets never lowers the number of elements allowed. */
  lemma MaxAllowedDouble(n: nat, percent: nat)
    requires 10 < percent < 100
    ensures MaxAllowed(n, percent) <= MaxAllowed(2 * n, percent)
  {
    if n >= INITIAL_NUM_ELEMENTS {
      MaxAllowedStrict(n, percent);
    } else {
      assert 2 * n * percent == 2 * (n * percent);
    }
  }

  /** Fewer than the buckets. */
  lemma MaxAllowedBelow(n: nat, percent: nat)
    requires 10 < percent < 100 && n > 0
    ensures MaxAllowed(n, percent) < n
  {
    if n <= (WORD64 - 1) / 100 {
      MulMonotone(percent, 99, n);
      assert n * percent <= 99 * n;
    } else {
      MulMonotone(percent, 99, n / 100);
    }
  }

  predicate PowerOfTwo(n: nat) {
    n == 1 || (n > 1 && n % 2 == 0 && PowerOfTwo(n / 2))
  }

  /** Not even the greatest power of two below 2^64 allows that many. */
  predicate TooMany(elements: nat, percent: nat) {
    MaxAllowed(LAST_SIZE, percent) < elements
  }

  lemma FewEnough(elements: nat, percent: nat)
    requires 10 < percent && TooMany(elements, percent)
    ensures elements >= 128
  {
  }

  /** Half the size would not do, unless the size is not above the initial one. */
  predicate Smallest(size: nat, elements: nat, percent: nat) {
    size <= INITIAL_NUM_ELEMENTS || MaxAllowed(size / 2, percent) < elements
  }

  /** The first size from `size` on, in doubling, that allows the elements, or the greatest one. */
  function BucketsFor(elements: nat, percent: nat, size: nat := INITIAL_NUM_ELEMENTS): (n: nat)
    requires size > 0
    ensures n > 0
    decreases LAST_SIZE - size
  {
    if elements <= MaxAllowed(size, percent) || size >= LAST_SIZE then size
    else BucketsFor(elements, percent, 2 * size)
  }

  lemma {:induction false} DoublingReaches(elements: nat, percent: nat, size: nat)
    requires 10 < percent < 100 && !TooMany(elements, percent) && INITIAL_NUM_ELEMENTS <= size <= LAST_SIZE
    requires PowerOfTwo(size) && Smallest(size, elements, percent)
    ensures var n := BucketsFor(elements, percent, size);
      n >= INITIAL_NUM_ELEMENTS && PowerOfTwo(n) && elements <= MaxAllowed(n, percent) && Smallest(n, elements, percent)
    decreases LAST_SIZE - size
  {
    hide MaxAllowed, PowerOfTwo;
    if elements > MaxAllowed(size, percent) && size < LAST_SIZE {
      LastSize();
      DoublePower(size);
      PowersHalve(size, LAST_SIZE);
      assert 2 * size / 2 == size;
      DoublingReaches(elements, percent, 2 * size);
    }
  }

  /** The size that doubling finds is the least that covers the elements. */
  lemma BucketsExactly(elements: nat, percent: nat)
    requires 10 < percent < 100
    ensures TooMany(elements, percent) <==> !Covers(LAST_SIZE, percent, elements)
    ensures !TooMany(elements, percent) ==> LeastCovering(BucketsFor(elements, percent), percent, elements)
  {
    hide MaxAllowed, PowerOfTwo, Covers, LeastCovering, BucketsFor;
    CoversExactly(LAST_SIZE, percent, elements);
    if !TooMany(elements, percent) {
      EightBuckets();
      DoublingReaches(elements, percent, INITIAL_NUM_ELEMENTS);
      SmallestCovers(BucketsFor(elements, percent), percent, elements);
    }
  }

  lemma {:induction false} PowersOrder(a: nat, b: nat)
    requires PowerOfTwo(a) && PowerOfTwo(b) && a < b
    ensures a <= b / 2
  {
    if a > 1 {
      PowersOrder(a / 2, b / 2);
    }
  }

  lemma {:induction false} MaxAllowedPowers(a: nat, b: nat, percent: nat)
    requires PowerOfTwo(a) && PowerOfTwo(b) && a <= b && 10 < percent < 100
    ensures MaxAllowed(a, percent) <= MaxAllowed(b, percent)
    decreases b
  {
    hide MaxAllowed;
    if a < b {
      PowersOrder(a, b);
      MaxAllowedPowers(a, b / 2, percent);
      MaxAllowedDouble(b / 2, percent);
      assert 2 * (b / 2) == b;
    }
  }

  lemma SmallerToo(a: nat, b: nat, elements: nat, percent: nat)
    requires a <= b && Smallest(b, elements, percent) && PowerOfTwo(b) && 10 < percent < 100
    requires a > INITIAL_NUM_ELEMENTS ==> PowerOfTwo(a)
    ensures Smallest(a, elements, percent)
  {
    if a > INITIAL_NUM_ELEMENTS {
      MaxAllowedPowers(a / 2, b / 2, percent);
    }
  }

  lemma EightBuckets()
    ensures PowerOfTwo(INITIAL_NUM_ELEMENTS) && Sized(INITIAL_NUM_ELEMENTS, 3)
  {
    assert PowerOfTwo(2);
    assert PowerOfTwo(4);
  }

  /** A size of at least eight, or zero once doubling has overflowed 64 bits. */
  predicate Sized(size: nat, bits: nat) {
    3 <= bits <= 64 && size == if bits == 64 then 0 else Pow2(bits)
  }

  lemma SizeStep(size: nat, bits: nat)
    requires Sized(size, bits) && bits < 64 && PowerOfTwo(size)
    ensures Sized(size * 2 % WORD64, bits + 1)
    ensures bits + 1 < 64 ==> size * 2 % WORD64 == size * 2 > 1 && PowerOfTwo(size * 2)
    ensures bits + 1 == 64 ==> size * 2 % WORD64 == 0
    ensures if bits + 1 < 64 then size * 2 <= LAST_SIZE else size == LAST_SIZE
  {
    hide Pow2, PowerOfTwo;
    DoublePower(size);
    Pow2Values();
    Doubled(bits);
    Doubled(63);
    if bits + 1 < 64 {
      Pow2Monotone(bits + 1, 63);
    }
    Wrapped(size * 2);
  }

  lemma LastSize()
    ensures PowerOfTwo(LAST_SIZE) && LAST_SIZE > INITIAL_NUM_ELEMENTS
  {
    hide PowerOfTwo;
    Pow2Values();
    Doubled(63);
    Pow2Power(63);
    assert Pow2(63) == LAST_SIZE;
  }

  lemma {:induction false} Pow2Power(k: nat)
    ensures PowerOfTwo(Pow2(k))
  {
    if k > 0 {
      Pow2Power(k - 1);
    }
  }

  lemma Wrapped(x: nat)
    ensures x < WORD64 ==> x % WORD64 == x
    ensures x == WORD64 ==> x % WORD64 == 0
  {
  }

  lemma Doubled(k: nat)
    ensures Pow2(k + 1) == 2 * Pow2(k)
  {
  }

  lemma DoublePower(n: nat)
    requires PowerOfTwo(n)
    ensures PowerOfTwo(n * 2)
  {
    assert n * 2 / 2 == n;
  }

  // ----- the two arrays together, on values

  /** Slot `i` has an info byte exactly if it holds a live node, and no object otherwise. */
  predicate Agree<K, V>(info: seq<uint8>, nodes: seq<Slot<K, V>>, i: nat)
    requires i < |nodes| <= |info|
  {
    if info[i] == 0 then nodes[i].Raw? else nodes[i].Live?
  }

  /** The bytes encode where the hashes of the nodes put them. */
  ghost predicate Sound<K, V>(info: seq<uint8>, nodes: seq<Slot<K, V>>, hash: K -> uint64, mult: uint64, n: nat,
      shift: Shift) {
    && n > 0
    && Wf(info, TagsOf(nodes, hash, mult, n), shift, n)
    && forall i | 0 <= i < |nodes| :: Agree(info, nodes, i)
  }

  /** The same with a spot at `p` that is counted and encoded for tag `t`, but has no live node yet. */
  ghost predicate SoundBut<K, V>(info: seq<uint8>, nodes: seq<Slot<K, V>>, hash: K -> uint64, mult: uint64, n: nat,
      shift: Shift, p: nat, t: Tag) {
    && n > 0 && p < |nodes|
    && Wf(info, TagsOf(nodes, hash, mult, n)[p := t], shift, n)
    && info[p] != 0 && !nodes[p].Live?
    && forall i | 0 <= i < |nodes| && i != p :: Agree(info, nodes, i)
  }

  lemma Opened<K, V>(info: seq<uint8>, nodes: seq<Slot<K, V>>, info': seq<uint8>, nodes': seq<Slot<K, V>>,
    hash: K -> uint64, mult: uint64, n: nat, shift: Shift, p: nat, e: nat, w: nat, t: Tag)
    requires Sound(info, nodes, hash, mult, n, shift)
    requires SlotsUp(nodes, nodes', p, e, if p == e then Raw else Husk) && BytesUp(info, info', shift, p, e, w)
    requires info[e] == 0 && forall i | p <= i < e :: info[i] != 0
    requires Probing(info, t, n, shift, p, w) && info[p] <= w
    ensures SoundBut(info', nodes', hash, mult, n, shift, p, t)
    ensures Count(info', |nodes|) == Count(info, |nodes|) + 1
  {
    hide TagOf, Mixed;
    var tags, tags' := TagsOf(nodes, hash, mult, n), TagsOf(nodes', hash, mult, n)[p := t];
    assert TagsUp(tags, tags', p, e, t);
    InsertWf(info, tags, info', tags', shift, n, p, e, w, t);
    InfoRange(t, p, shift);
    forall i | 0 <= i < |nodes'| && i != p ensures Agree(info', nodes', i) {
      assert Agree(info, nodes, if p < i <= e then i - 1 else i);
    }
  }

  lemma Filled<K, V>(info: seq<uint8>, nodes: seq<Slot<K, V>>, hash: K -> uint64, mult: uint64, n: nat, shift: Shift,
      p: nat, entry: Entry<K, V>)
    requires n > 0
    requires SoundBut(info, nodes, hash, mult, n, shift, p, TagOf(Mixed(hash(entry.key), mult), n))
    ensures Sound(info, nodes[p := Live(entry)], hash, mult, n, shift)
  {
    hide TagOf, Mixed;
    var nodes' := nodes[p := Live(entry)];
    assert TagsOf(nodes', hash, mult, n) == TagsOf(nodes, hash, mult, n)[p := TagOf(Mixed(hash(entry.key), mult), n)];
    forall i | 0 <= i < |nodes'| ensures Agree(info, nodes', i) {
      assert i != p ==> Agree(info, nodes, i);
    }
  }

  lemma Halved<K, V>(info: seq<uint8>, info': seq<uint8>, nodes: seq<Slot<K, V>>, hash: K -> uint64, mult: uint64,
      n: nat, shift: Shift)
    requires Sound(info, nodes, hash, mult, n, shift) && shift < 4 && Closed(info', |nodes|)
    requires forall i | 0 <= i < |nodes| :: info'[i] == info[i] / 2
    ensures Sound(info', nodes, hash, mult, n, shift + 1) && RoomToShift(info', shift + 1, |nodes|)
    ensures Count(info', |nodes|) == Count(info, |nodes|)
  {
    hide TagOf, Mixed;
    HalveWf(info, TagsOf(nodes, hash, mult, n), info', shift, n);
    forall i | 0 <= i < |nodes| ensures Agree(info', nodes, i) {
      assert Agree(info, nodes, i);
    }
  }

  lemma Fresh<K, V>(info: seq<uint8>, nodes: seq<Slot<K, V>>, hash: K -> uint64, mult: uint64, n: nat, shift: Shift)
    requires Closed(info, |nodes|) && 1 <= n <= |nodes|
    requires forall i | 0 <= i < |nodes| :: info[i] == 0 && nodes[i].Raw?
    ensures Sound(info, nodes, hash, mult, n, shift) && RoomToShift(info, shift, |nodes|) && Count(info, |nodes|) == 0
    ensures Distinct(nodes) && SlotMap(nodes) == map[]
  {
    hide TagOf, Mixed;
    EmptyWf(info, TagsOf(nodes, hash, mult, n), shift, n);
    NoNodes(nodes);
  }

  /** A slot with the key carries the info value of the key's tag. */
  lemma HolderInfo<K, V>(info: seq<uint8>, nodes: seq<Slot<K, V>>, hash: K -> uint64, mult: uint64, n: nat,
      shift: Shift, key: K, q: nat)
    requires Sound(info, nodes, hash, mult, n, shift) && HasKey(nodes, q, key)
    ensures var t := TagOf(Mixed(hash(key), mult), n);
      t.home <= q && TagsOf(nodes, hash, mult, n)[q] == t && info[q] != 0 && info[q] == InfoAt(t, q, shift)
  {
    hide TagOf, Mixed;
    assert Agree(info, nodes, q);
    assert Placed(info, TagsOf(nodes, hash, mult, n), shift, n, q);
  }

  /** A removal has come to the hole at `h`; the bytes and all other nodes are sound. */
  ghost predicate SoundHole<K, V>(info: seq<uint8>, nodes: seq<Slot<K, V>>, hash: K -> uint64, mult: uint64, n: nat,
      shift: Shift, h: nat, tag: Tag) {
    && n > 0 && h < |nodes| && !nodes[h].Raw?
    && Wf(info, TagsOf(nodes, hash, mult, n)[h := tag], shift, n, Hole(h))
    && forall i | 0 <= i < |nodes| && i != h :: Agree(info, nodes, i)
  }

  lemma HoleStart<K, V>(info: seq<uint8>, nodes: seq<Slot<K, V>>, hash: K -> uint64, mult: uint64, n: nat,
      shift: Shift, h: nat)
    requires Sound(info, nodes, hash, mult, n, shift) && h < |nodes| && info[h] != 0
    ensures SoundHole(info, nodes, hash, mult, n, shift, h, TagsOf(nodes, hash, mult, n)[h])
    ensures nodes[h].Live?
  {
    hide TagOf, Mixed;
    var tags := TagsOf(nodes, hash, mult, n);
    assert Agree(info, nodes, h) && tags[h := tags[h]] == tags;
  }

  lemma HoleStep<K, V>(info: seq<uint8>, nodes: seq<Slot<K, V>>, hash: K -> uint64, mult: uint64, n: nat,
      shift: Shift, h: nat, tag: Tag)
    requires SoundHole(info, nodes, hash, mult, n, shift, h, tag) && info[h + 1] >= 2 * Inc(shift)
    ensures h + 1 < |nodes| && nodes[h + 1].Live? && info[h + 1] - Inc(shift) >= Inc(shift)
    ensures var info', nodes' := info[h := info[h + 1] - Inc(shift)], nodes[h := nodes[h + 1]][h + 1 := Husk];
      && SoundHole(info', nodes', hash, mult, n, shift, h + 1, SlotTag(nodes[h + 1], hash, mult, n))
      && Count(info', |nodes|) == Count(info, |nodes|)
  {
    hide TagOf, Mixed;
    var tags := TagsOf(nodes, hash, mult, n)[h := tag];
    SlideDown(info, tags, shift, n, h);
    var info', nodes' := info[h := info[h + 1] - Inc(shift)], nodes[h := nodes[h + 1]][h + 1 := Husk];
    assert TagsOf(nodes', hash, mult, n)[h + 1 := SlotTag(nodes[h + 1], hash, mult, n)] == tags[h := tags[h + 1]];
    assert Agree(info, nodes, h + 1);
    forall i | 0 <= i < |nodes| && i != h + 1 ensures Agree(info', nodes', i) {
      assert i != h ==> Agree(info, nodes, i);
    }
  }

  lemma HoleEnd<K, V>(info: seq<uint8>, nodes: seq<Slot<K, V>>, hash: K -> uint64, mult: uint64, n: nat,
      shift: Shift, h: nat, tag: Tag)
    requires SoundHole(info, nodes, hash, mult, n, shift, h, tag) && info[h + 1] < 2 * Inc(shift)
    ensures Sound(info[h := 0], nodes[h := Raw], hash, mult, n, shift)
    ensures Count(info[h := 0], |nodes|) + 1 == Count(info, |nodes|)
  {
    hide TagOf, Mixed;
    var tags, info', nodes' := TagsOf(nodes, hash, mult, n)[h := tag], info[h := 0], nodes[h := Raw];
    Vacate(info, tags, shift, n, h);
    Retag(info', tags, TagsOf(nodes', hash, mult, n), shift, n);
    forall i | 0 <= i < |nodes| ensures Agree(info', nodes', i) {
      assert i != h ==> Agree(info, nodes, i);
    }
  }

  // ----- how many keys the bytes can hold

  /** As many keys as bytes that are not zero. */
  lemma {:induction false} MapSize<K, V>(info: seq<uint8>, nodes: seq<Slot<K, V>>, k: nat)
    requires Distinct(nodes) && k <= |nodes| <= |info| && forall i | 0 <= i < |nodes| :: Agree(info, nodes, i)
    ensures |SlotMap(nodes[..k])| == Count(info, k)
    decreases k
  {
    hide Distinct, SlotMap;
    if k == 0 {
      NoNodes(nodes[..0]);
    } else {
      MapSize(info, nodes, k - 1);
      PrefixMap(nodes, k - 1);
      assert Agree(info, nodes, k - 1);
    }
  }

  /** The keys of one hash. */
  ghost function Alike<K, V>(nodes: seq<Slot<K, V>>, hash: K -> uint64, h: uint64): set<K> {
    set k | k in SlotMap(nodes) && hash(k) == h
  }

  lemma NoneAlike<K, V>(nodes: seq<Slot<K, V>>, hash: K -> uint64, h: uint64)
    requires nodes == []
    ensures Alike(nodes, hash, h) == {}
  {
    NoNodes(nodes);
  }

  /** The keys of one hash lie within 127 slots from their home on, because every info value there is a byte. */
  lemma {:induction false} AlikeBound<K, V>(info: seq<uint8>, nodes: seq<Slot<K, V>>, hash: K -> uint64, mult: uint64,
      n: nat, shift: Shift, h: uint64, j: nat)
    requires Sound(info, nodes, hash, mult, n, shift) && Distinct(nodes) && j <= |nodes|
    ensures |Alike(nodes[..j], hash, h)| <= (var t := TagOf(Mixed(h, mult), n);
      if j <= t.home then 0 else if j <= t.home + REACH then j - t.home else REACH)
    decreases j
  {
    hide TagOf, Mixed, SlotMap, Distinct, Wf;
    if j == 0 {
      NoneAlike(nodes[..0], hash, h);
      return;
    }
    AlikeBound(info, nodes, hash, mult, n, shift, h, j - 1);
    PrefixMap(nodes, j - 1);
    var before, after := Alike(nodes[..j - 1], hash, h), Alike(nodes[..j], hash, h);
    if nodes[j - 1].Live? && hash(nodes[j - 1].entry.key) == h {
      AlikePlace(info, nodes, hash, mult, n, shift, j - 1);
      assert after == before + {nodes[j - 1].entry.key};
    } else {
      assert after == before;
    }
  }

  /** A node stands less than 127 slots behind its home. */
  lemma AlikePlace<K, V>(info: seq<uint8>, nodes: seq<Slot<K, V>>, hash: K -> uint64, mult: uint64, n: nat,
      shift: Shift, q: nat)
    requires Sound(info, nodes, hash, mult, n, shift) && q < |nodes| && nodes[q].Live?
    ensures var t := TagOf(Mixed(hash(nodes[q].entry.key), mult), n); t.home <= q < t.home + REACH
  {
    hide TagOf, Mixed;
    var t := TagOf(Mixed(hash(nodes[q].entry.key), mult), n);
    assert Agree(info, nodes, q);
    HolderInfo(info, nodes, hash, mult, n, shift, nodes[q].entry.key, q);
    assert Placed(info, TagsOf(nodes, hash, mult, n), shift, n, q);
    InfoRange(t, q, shift);
  }
}
