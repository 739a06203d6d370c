/** When the info bytes of `robin_hood`'s table run full, in terms of the keys and the hash alone. */
module Crowding {
  import opened Collections
  import opened Entries
  import opened HashMixing
  import opened InfoBytes
  import opened RobinHoodNodes
  import opened Slots
  import opened Words

  /** The keys with a home among the buckets from `a` to `b`. */
  ghost function Near<K, V>(m: map<K, V>, hash: K -> uint64, mult: uint64, n: nat, a: nat, b: nat): set<K>
    requires n > 0
  {
    set k | k in m && a <= TagOf(Mixed(hash(k), mult), n).home <= b
  }

  /** Some buckets in a row are home to at least 126 keys more than there are buckets. */
  ghost predicate Crowded<K, V>(m: map<K, V>, hash: K -> uint64, mult: uint64, n: nat)
    requires n > 0
  {
    exists a: nat, b: nat :: a <= b && |Near(m, hash, mult, n, a, b)| >= b - a + REACH
  }

  /** They are so even without one of the keys. */
  ghost predicate Crammed<K, V>(m: map<K, V>, hash: K -> uint64, mult: uint64, n: nat)
    requires n > 0
  {
    exists k | k in m :: Crowded(m - {k}, hash, mult, n)
  }

  /** The keys in front of one of the nodes are crowded. */
  ghost predicate Overfull<K, V>(nodes: seq<Slot<K, V>>, hash: K -> uint64, mult: uint64, n: nat)
    requires n > 0
  {
    exists i | 0 <= i < |nodes| && nodes[i].Live? :: Crowded(SlotMap(nodes[..i]), hash, mult, n)
  }

  lemma CrowdedMore<K, V>(m: map<K, V>, m': map<K, V>, hash: K -> uint64, mult: uint64, n: nat)
    requires n > 0 && m.Keys <= m'.Keys && Crowded(m, hash, mult, n)
    ensures Crowded(m', hash, mult, n)
  {
    hide TagOf, Mixed;
    var a: nat, b: nat :| a <= b && |Near(m, hash, mult, n, a, b)| >= b - a + REACH;
    SubsetSize(Near(m, hash, mult, n, a, b), Near(m', hash, mult, n, a, b));
  }

  lemma CrowdedSize<K, V>(m: map<K, V>, hash: K -> uint64, mult: uint64, n: nat)
    requires n > 0 && Crowded(m, hash, mult, n)
    ensures |m| >= REACH
  {
    hide TagOf, Mixed;
    var a: nat, b: nat :| a <= b && |Near(m, hash, mult, n, a, b)| >= b - a + REACH;
    SubsetSize(Near(m, hash, mult, n, a, b), m.Keys);
  }

  lemma NoneCrowded<K, V>(m: map<K, V>, hash: K -> uint64, mult: uint64, n: nat)
    requires n > 0 && m == map[]
    ensures !Crowded(m, hash, mult, n)
  {
    hide Crowded;
    if Crowded(m, hash, mult, n) {
      CrowdedSize(m, hash, mult, n);
    }
  }

  lemma CrammedSize<K, V>(m: map<K, V>, hash: K -> uint64, mult: uint64, n: nat)
    requires n > 0 && Crammed(m, hash, mult, n)
    ensures |m| > REACH && Crowded(m, hash, mult, n)
  {
    hide Crowded;
    var k :| k in m && Crowded(m - {k}, hash, mult, n);
    CrowdedSize(m - {k}, hash, mult, n);
    CrowdedMore(m - {k}, m, hash, mult, n);
    assert (m - {k}).Keys == m.Keys - {k};
  }

  lemma NearNone<K, V>(hash: K -> uint64, mult: uint64, n: nat, a: nat, b: nat)
    requires n > 0
    ensures var none: map<K, V> := map[]; Near(none, hash, mult, n, a, b) == {}
  {
  }

  lemma NearAdd<K, V>(m: map<K, V>, hash: K -> uint64, mult: uint64, n: nat, a: nat, b: nat, e: Entry<K, V>)
    requires n > 0 && e.key !in m
    ensures |Near(m[e.key := e.value], hash, mult, n, a, b)| ==
      |Near(m, hash, mult, n, a, b)| + if a <= TagOf(Mixed(hash(e.key), mult), n).home <= b then 1 else 0
  {
    hide TagOf, Mixed;
    var before := Near(m, hash, mult, n, a, b);
    assert Near(m[e.key := e.value], hash, mult, n, a, b) ==
      if a <= TagOf(Mixed(hash(e.key), mult), n).home <= b then before + {e.key} else before;
  }

  // ----- the arrays that a table moves to, one after the other

  /** The multiplier after the next rehash of a table with `k` elements in `n` buckets. */
  function MultAfter(k: nat, mult: uint64, n: nat, percent: nat): uint64 {
    if k * 2 < MaxAllowed(n, percent) then NextMultiplier(mult) else mult
  }

  /** The number of buckets after it. */
  function SizeAfter(k: nat, n: nat, percent: nat): (n': nat)
    ensures n > 0 ==> n' > 0
  {
    if k * 2 < MaxAllowed(n, percent) then n else 2 * n
  }

  /** A rehash keeps the size, with another multiplier, exactly if the elements twice over are below the maximum. */
  lemma AfterExactly(k: nat, mult: uint64, n: nat, percent: nat)
    requires percent < 100
    ensures MultAfter(k, mult, n, percent) ==
      if Covers(n, percent, 2 * k + 1) then (mult + 0xc4ceb9fe1a85ec54) % WORD64 else mult
    ensures SizeAfter(k, n, percent) == if Covers(n, percent, 2 * k + 1) then n else 2 * n
  {
    hide MaxAllowed, Covers;
    CoversExactly(n, percent, 2 * k + 1);
  }

  /** The keys are crowded in each of the next `j` arrays. */
  ghost predicate CrowdedOn<K, V>(m: map<K, V>, k: nat, hash: K -> uint64, mult: uint64, n: nat, percent: nat, j: nat)
    requires n > 0
    decreases j
  {
    j == 0 ||
      var mult', n' := MultAfter(k, mult, n, percent), SizeAfter(k, n, percent);
      Crowded(m, hash, mult', n') && CrowdedOn(m, k, hash, mult', n', percent, j - 1)
  }

  // ----- a full byte means crowded keys

  /** Each slot of a full run holds a key at home in `a` to `b`. */
  lemma {:induction false} NearRun<K, V>(info: seq<uint8>, nodes: seq<Slot<K, V>>, hash: K -> uint64, mult: uint64,
      n: nat, shift: Shift, a: nat, b: nat, j: nat)
    requires Sound(info, nodes, hash, mult, n, shift) && Distinct(nodes) && a <= b && a <= j <= b + REACH <= |nodes|
    requires forall q | a <= q < b + REACH :: info[q] != 0 && a <= TagsOf(nodes, hash, mult, n)[q].home <= b
    ensures |Near(SlotMap(nodes[..j]), hash, mult, n, a, b)| >= j - a
    decreases j
  {
    hide TagOf, Mixed, SlotMap, Distinct, Wf, Near;
    if j > a {
      NearRun(info, nodes, hash, mult, n, shift, a, b, j - 1);
      PrefixMap(nodes, j - 1);
      OccupiedLive(info, nodes, hash, mult, n, shift, j - 1);
      NearAdd(SlotMap(nodes[..j - 1]), hash, mult, n, a, b, nodes[j - 1].entry);
    }
  }

  lemma OccupiedLive<K, V>(info: seq<uint8>, nodes: seq<Slot<K, V>>, hash: K -> uint64, mult: uint64, n: nat,
      shift: Shift, q: nat)
    requires Sound(info, nodes, hash, mult, n, shift) && q < |nodes|
    ensures info[q] != 0 <==> nodes[q].Live?
  {
    hide TagOf, Mixed;
    assert Agree(info, nodes, q);
  }

  lemma {:induction false} PrefixKeys<K, V>(nodes: seq<Slot<K, V>>, i: nat, j: nat)
    requires Distinct(nodes) && i <= j <= |nodes|
    ensures SlotMap(nodes[..i]).Keys <= SlotMap(nodes[..j]).Keys
  {
    hide SlotMap, Distinct;
    if i < j {
      PrefixKeys(nodes, i, j - 1);
      PrefixMap(nodes, j - 1);
    }
  }

  lemma FullCrowded<K, V>(info: seq<uint8>, nodes: seq<Slot<K, V>>, hash: K -> uint64, mult: uint64, n: nat, shift: Shift)
    requires Sound(info, nodes, hash, mult, n, shift) && Distinct(nodes)
    requires Inc(shift) == 2 && !RoomToShift(info, shift, |nodes|)
    ensures Crowded(SlotMap(nodes), hash, mult, n)
  {
    hide TagOf, Mixed, SlotMap, Distinct, RoomToShift, Near, Crowded;
    var a, b := FullRun(info, TagsOf(nodes, hash, mult, n), shift, n);
    NearRun(info, nodes, hash, mult, n, shift, a, b, b + REACH);
    IsCrowded(SlotMap(nodes[..b + REACH]), hash, mult, n, a, b);
    PrefixKeys(nodes, b + REACH, |nodes|);
    assert nodes[..|nodes|] == nodes;
    CrowdedMore(SlotMap(nodes[..b + REACH]), SlotMap(nodes), hash, mult, n);
  }

  lemma IsCrowded<K, V>(m: map<K, V>, hash: K -> uint64, mult: uint64, n: nat, a: nat, b: nat)
    requires n > 0 && a <= b && |Near(m, hash, mult, n, a, b)| >= b - a + REACH
    ensures Crowded(m, hash, mult, n)
  {
  }

  // ----- and the other way round

  /** While no slot is far from its home, the keys at home in `a` to `b` stand in the slots `a` to `b + 125`. */
  lemma {:induction false} NearBound<K, V>(info: seq<uint8>, nodes: seq<Slot<K, V>>, hash: K -> uint64, mult: uint64,
      n: nat, shift: Shift, a: nat, b: nat, j: nat)
    requires n > 0 && Sound(info, nodes, hash, mult, n, shift) && Distinct(nodes) && a <= b && j <= |nodes|
    requires forall q | 0 <= q < |nodes| && nodes[q].Live? :: Close(nodes[q], hash, mult, n, q)
    ensures |Near(SlotMap(nodes[..j]), hash, mult, n, a, b)|
         <= if j <= a then 0 else if j < b + REACH then j - a else b + REACH - 1 - a
    decreases j
  {
    hide TagOf, Mixed, SlotMap, Distinct, Sound, Near;
    if j == 0 {
      NoNodes(nodes[..0]);
      NearNone<K, V>(hash, mult, n, a, b);
    } else {
      NearBound(info, nodes, hash, mult, n, shift, a, b, j - 1);
      PrefixMap(nodes, j - 1);
      if nodes[j - 1].Live? {
        assert Close(nodes[j - 1], hash, mult, n, j - 1);
        NearAdd(SlotMap(nodes[..j - 1]), hash, mult, n, a, b, nodes[j - 1].entry);
      }
    }
  }

  predicate Close<K, V>(s: Slot<K, V>, hash: K -> uint64, mult: uint64, n: nat, q: nat)
    requires n > 0 && s.Live?
  {
    var home := TagOf(Mixed(hash(s.entry.key), mult), n).home;
    home <= q < home + REACH - 1
  }

  lemma NotClose<K, V>(info: seq<uint8>, nodes: seq<Slot<K, V>>, hash: K -> uint64, mult: uint64, n: nat, shift: Shift,
      q: nat)
    requires Sound(info, nodes, hash, mult, n, shift) && q < |nodes| && nodes[q].Live?
    requires !Close(nodes[q], hash, mult, n, q)
    ensures Inc(shift) == 2 && !RoomToShift(info, shift, |nodes|)
  {
    hide TagOf, Mixed, Wf;
    OccupiedLive(info, nodes, hash, mult, n, shift, q);
    FarIsFull(info, TagsOf(nodes, hash, mult, n), shift, n, q);
  }

  lemma CrowdedFull<K, V>(info: seq<uint8>, nodes: seq<Slot<K, V>>, hash: K -> uint64, mult: uint64, n: nat, shift: Shift)
    requires n > 0 && Sound(info, nodes, hash, mult, n, shift) && Distinct(nodes)
    requires Crowded(SlotMap(nodes), hash, mult, n)
    ensures Inc(shift) == 2 && !RoomToShift(info, shift, |nodes|)
  {
    hide TagOf, Mixed, SlotMap, Distinct, RoomToShift, Near, Close, Sound;
    assert nodes[..|nodes|] == nodes;
    if q :| 0 <= q < |nodes| && nodes[q].Live? && !Close(nodes[q], hash, mult, n, q) {
      NotClose(info, nodes, hash, mult, n, shift, q);
    } else {
      var a: nat, b: nat :| a <= b && |Near(SlotMap(nodes), hash, mult, n, a, b)| >= b - a + REACH;
      NearBound(info, nodes, hash, mult, n, shift, a, b, |nodes|);
      assert false;
    }
  }

  /** The bytes of a table are full, at the finest increment, exactly if its keys are crowded. */
  lemma FullExactly<K, V>(info: seq<uint8>, nodes: seq<Slot<K, V>>, hash: K -> uint64, mult: uint64, n: nat, shift: Shift)
    requires Sound(info, nodes, hash, mult, n, shift) && Distinct(nodes)
    ensures Crowded(SlotMap(nodes), hash, mult, n) <==> Inc(shift) == 2 && !RoomToShift(info, shift, |nodes|)
  {
    hide TagOf, Mixed, SlotMap, Distinct, RoomToShift, Crowded;
    if Crowded(SlotMap(nodes), hash, mult, n) {
      CrowdedFull(info, nodes, hash, mult, n, shift);
    } else if Inc(shift) == 2 && !RoomToShift(info, shift, |nodes|) {
      FullCrowded(info, nodes, hash, mult, n, shift);
    }
  }

  // ----- what can stop a rehash

  lemma OverfullCrammed<K, V>(nodes: seq<Slot<K, V>>, hash: K -> uint64, mult: uint64, n: nat)
    requires Distinct(nodes) && n > 0 && Overfull(nodes, hash, mult, n)
    ensures Crammed(SlotMap(nodes), hash, mult, n)
  {
    hide TagOf, Mixed, SlotMap, Crowded, Distinct;
    var i :| 0 <= i < |nodes| && nodes[i].Live? && Crowded(SlotMap(nodes[..i]), hash, mult, n);
    var key := nodes[i].entry.key;
    PrefixMap(nodes, i);
    MapHas(nodes, i);
    PrefixKeys(nodes, i, |nodes|);
    assert nodes[..|nodes|] == nodes;
    CrowdedMore(SlotMap(nodes[..i]), SlotMap(nodes) - {key}, hash, mult, n);
  }

  /** Only the last node matters: it is overfull exactly if the other keys are crowded. */
  lemma OverfullExactly<K, V>(nodes: seq<Slot<K, V>>, hash: K -> uint64, mult: uint64, n: nat, last: nat)
    requires Distinct(nodes) && n > 0 && last < |nodes| && nodes[last].Live?
    requires forall i | last < i < |nodes| :: !nodes[i].Live?
    ensures Overfull(nodes, hash, mult, n) <==> Crowded(SlotMap(nodes) - {nodes[last].entry.key}, hash, mult, n)
  {
    hide TagOf, Mixed, SlotMap, Crowded, Distinct;
    LastNode(nodes, last, |nodes|);
    assert nodes[..|nodes|] == nodes;
    PrefixMap(nodes, last);
    assert SlotMap(nodes) - {nodes[last].entry.key} == SlotMap(nodes[..last]);
    if Overfull(nodes, hash, mult, n) {
      var i :| 0 <= i < |nodes| && nodes[i].Live? && Crowded(SlotMap(nodes[..i]), hash, mult, n);
      PrefixKeys(nodes, i, last);
      CrowdedMore(SlotMap(nodes[..i]), SlotMap(nodes[..last]), hash, mult, n);
    }
  }

  lemma {:induction false} LastNode<K, V>(nodes: seq<Slot<K, V>>, last: nat, j: nat)
    requires Distinct(nodes) && last < j <= |nodes| && forall i | last < i < |nodes| :: !nodes[i].Live?
    ensures SlotMap(nodes[..j]) == SlotMap(nodes[..last + 1])
    decreases j
  {
    hide SlotMap, Distinct;
    if last + 1 < j {
      LastNode(nodes, last, j - 1);
      PrefixMap(nodes, j - 1);
    }
  }
}
