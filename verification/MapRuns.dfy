/** Whole runs of operations on the two tables, compared with the same operations on a plain map. */
module MapRuns {
  import Dense = DenseTable
  import RobinHood = RobinHoodTable
  import opened RobinHoodNodes
  import opened Crowding
  import opened HashMixing
  import opened Words
  import Slots
  import opened Collections
  import opened DenseEntries
  import opened DenseIndex
  import opened Entries
  import opened InfoBytes

  /**
    What a client does with a table.  `EraseFound` and `ReplaceKey` go through the
    iterator that a search for `key` returns; `EraseRange` gives positions in the
    order of iteration, which the map does not know.
  */
  datatype Op<!K(==), !V> =
    | TryEmplace(key: K, value: V)
    | Emplace(key: K, value: V)
    | InsertOrAssign(key: K, value: V)
    | Find(key: K)
    | Erase(key: K)
    | EraseFound(key: K)
    | Extract(key: K)
    | EraseRange(first: nat, last: nat)
    | EraseIf(pred: Entry<K, V> -> bool)
    | ReplaceKey(key: K, newKey: K)
    | Replace(container: seq<Entry<K, V>>)
    | Clear
    | Rehash(count: nat)
    | Reserve(count: nat)

  datatype Reply<K(==), V> = New(yes: bool) | Count(n: nat) | Found(value: Option<V>) | Erased(keys: set<K>) | Done

  function Lookup<K, V>(m: map<K, V>, key: K): Option<V> {
    if key in m then Some(m[key]) else None
  }

  /** One operation on a map; only `EraseRange` and a `Replace` with repeated keys leave a choice. */
  ghost predicate Step<K, V>(m: map<K, V>, op: Op<K, V>, m': map<K, V>, reply: Reply<K, V>) {
    match op
    case TryEmplace(k, v) => m' == (if k in m then m else m[k := v]) && reply == New(k !in m)
    case Emplace(k, v) => m' == (if k in m then m else m[k := v]) && reply == New(k !in m)
    case InsertOrAssign(k, v) => m' == m[k := v] && reply == New(k !in m)
    case Find(k) => m' == m && reply == Found(Lookup(m, k))
    case Erase(k) => m' == m - {k} && reply == Count(if k in m then 1 else 0)
    case EraseFound(k) => m' == m - {k} && reply == Done
    case Extract(k) => m' == m - {k} && reply == Found(Lookup(m, k))
    case EraseRange(first, last) =>
      && reply.Erased? && reply.keys <= m.Keys && m' == m - reply.keys
      && |reply.keys| == if first <= last <= |m| then last - first else 0
    case EraseIf(pred) =>
      && m' == (map k | k in m && !pred(Entry(k, m[k])) :: m[k])
      && reply.Count? && reply.n + |m'| == |m|
    case ReplaceKey(k, k') =>
      var fits := k in m && k' !in m;
      m' == (if fits then (m - {k})[k' := m[k]] else m) && reply == New(fits)
    case Replace(container) =>
      m'.Keys == Keys(container) && (forall k | k in m' :: Entry(k, m'[k]) in container) && reply == Done
    case Clear => m' == map[] && reply == Done
    case Rehash(_) => m' == m && reply == Done
    case Reserve(_) => m' == m && reply == Done
  }

  /** The first operations of `ops` lead from `maps[0]` to the last map, with these replies. */
  ghost predicate Run<K(!new), V(!new)>(maps: seq<map<K, V>>, ops: seq<Op<K, V>>, replies: seq<Reply<K, V>>) {
    && |maps| == |replies| + 1 && |replies| <= |ops|
    && forall i | 0 <= i < |replies| :: Step(maps[i], ops[i], maps[i + 1], replies[i])
  }

  /** By how many entries an operation may enlarge the map. */
  function Growth<K, V>(op: Op<K, V>): nat {
    match op
    case TryEmplace(_, _) => 1
    case Emplace(_, _) => 1
    case InsertOrAssign(_, _) => 1
    case Replace(container) => |container|
    case _ => 0
  }

  /** The capacity an operation asks for by number. */
  function Request<K, V>(op: Op<K, V>): nat {
    match op
    case Rehash(count) => count
    case Reserve(count) => count
    case _ => 0
  }

  function Growths<K, V>(ops: seq<Op<K, V>>): nat {
    if |ops| == 0 then 0 else Growths(ops[..|ops| - 1]) + Growth(ops[|ops| - 1])
  }

  lemma {:induction false} GrowthsPrefix<K, V>(ops: seq<Op<K, V>>, i: nat)
    requires i < |ops|
    ensures Growths(ops[..i + 1]) == Growths(ops[..i]) + Growth(ops[i]) <= Growths(ops)
    decreases |ops|
  {
    assert ops[..i + 1][..i] == ops[..i];
    if i + 1 < |ops| {
      GrowthsPrefix(ops[..|ops| - 1], i);
      assert ops[..|ops| - 1][..i] == ops[..i] && ops[..|ops| - 1][..i + 1] == ops[..i + 1];
    } else {
      assert ops[..|ops|] == ops;
    }
  }

  lemma NoGrowths<K, V>(ops: seq<Op<K, V>>)
    requires ops == []
    ensures Growths(ops) == 0
  {
  }

  /** A map grows by no more than the operation's growth. */
  lemma StepSize<K, V>(m: map<K, V>, op: Op<K, V>, m': map<K, V>, reply: Reply<K, V>)
    requires Step(m, op, m', reply)
    ensures |m'| <= |m| + Growth(op)
  {
    hide Keys;
    if Inserts(op) {
      if m' != m {
        InsertSize(m, op, m', reply);
      }
      return;
    }
    match op
    case Find(_) =>
    case Erase(_) => KeysShrink(m, m');
    case EraseFound(_) => KeysShrink(m, m');
    case Extract(_) => KeysShrink(m, m');
    case EraseRange(_, _) => KeysShrink(m, m');
    case EraseIf(_) => KeysShrink(m, m');
    case ReplaceKey(k, k') =>
      if k in m && k' !in m {
        KeysGrow(m, m', {k}, k');
      }
    case Replace(container) => KeysSize(container);
    case Clear =>
    case Rehash(_) =>
    case Reserve(_) =>
  }

  predicate Inserts<K, V>(op: Op<K, V>) {
    op.TryEmplace? || op.Emplace? || op.InsertOrAssign?
  }

  lemma InsertSize<K, V>(m: map<K, V>, op: Op<K, V>, m': map<K, V>, reply: Reply<K, V>)
    requires Inserts(op) && Step(m, op, m', reply) && m' != m
    ensures |m'| <= |m| + 1
  {
    KeysGrow(m, m', {}, op.key);
  }

  lemma KeysShrink<K, V>(m: map<K, V>, m': map<K, V>)
    requires m'.Keys <= m.Keys
    ensures |m'| <= |m|
  {
    SubsetSize(m'.Keys, m.Keys);
  }

  lemma KeysGrow<K, V>(m: map<K, V>, m': map<K, V>, less: set<K>, k: K)
    requires less <= m.Keys && m'.Keys == m.Keys - less + {k}
    ensures |m'| <= |m| - |less| + 1
  {
    assert |m.Keys - less| == |m.Keys| - |less|;
  }

  lemma {:induction false} KeysSize<K, V>(es: seq<Entry<K, V>>)
    ensures |Keys(es)| <= |es|
  {
    if es != [] {
      var n := |es| - 1;
      KeysSize(es[..n]);
      assert Keys(es) == Keys(es[..n]) + {es[n].key};
    }
  }

  lemma SearchSteps<K, V>(m: map<K, V>, k: K)
    ensures Step(m, Find(k), m, Found(Lookup(m, k)))
    ensures Step(m, Erase(k), m - {k}, Count(if k in m then 1 else 0))
    ensures Step(m, EraseFound(k), m - {k}, Done) && (k !in m ==> m - {k} == m)
  {
  }

  lemma RunStep<K(!new), V(!new)>(maps: seq<map<K, V>>, ops: seq<Op<K, V>>, replies: seq<Reply<K, V>>, m': map<K, V>,
      reply: Reply<K, V>)
    requires Run(maps, ops, replies) && |replies| < |ops| && Step(maps[|replies|], ops[|replies|], m', reply)
    ensures Run(maps + [m'], ops, replies + [reply])
  {
    hide Step;
  }

  // ----- the dense table

  lemma DenseSize<K, V>(t: Dense.Table<K, V>)
    requires t.Valid()
    ensures |t.Model()| == |t.values|
  {
    ModelSize(t.values);
  }

  /** The three ways to insert. */
  method DenseInsert<K(==), V(==)>(t: Dense.Table<K, V>, op: Op<K, V>) returns (reply: Reply<K, V>)
    requires Inserts(op)
    requires t.Valid() && |t.Model()| < MAX_ENTRIES
    modifies t
    ensures t.Valid() && Step(old(t.Model()), op, t.Model(), reply)
  {
    hide Dense.Table.Valid, Dense.Table.Model;
    DenseSize(t);
    var pos, inserted;
    match op {
      case TryEmplace(k, v) =>
        pos, inserted := t.TryEmplace(k, v);
      case Emplace(k, v) =>
        pos, inserted := t.Emplace(Entry(k, v));
      case InsertOrAssign(k, v) =>
        pos, inserted := t.InsertOrAssign(k, v);
    }
    reply := New(inserted);
  }

  method DenseEraseRange<K(==), V(==)>(t: Dense.Table<K, V>, first: nat, last: nat) returns (reply: Reply<K, V>)
    requires t.Valid()
    modifies t
    ensures t.Valid() && Step(old(t.Model()), EraseRange(first, last), t.Model(), reply)
  {
    DenseSize(t);
    reply := Erased({});
    if first <= last <= |t.values| {
      RangeKeys(t.values, first, last);
      reply := Erased(Keys(t.values[first..last]));
      var _ := t.EraseRange(first, last);
    }
  }

  lemma RangeKeys<K, V>(es: seq<Entry<K, V>>, first: nat, last: nat)
    requires Distinct(es) && first <= last <= |es|
    ensures Keys(es[first..last]) <= ToMap(es).Keys && |Keys(es[first..last])| == last - first
  {
    hide ToMap;
    var range := es[first..last];
    ModelSize(range);
    KeysAreMap(range);
    KeysAreMap(es);
    assert |ToMap(range)| == |ToMap(range).Keys|;
    forall k | k in Keys(range) ensures k in Keys(es) {
      var i :| 0 <= i < |range| && range[i].key == k;
      assert es[first + i].key == k;
    }
  }

  /** Operations that start with a search for a key and use the iterator. */
  method DenseAt<K(==), V(==)>(t: Dense.Table<K, V>, op: Op<K, V>) returns (reply: Reply<K, V>)
    requires op.Find? || op.EraseFound? || op.ReplaceKey?
    requires t.Valid()
    modifies t
    ensures t.Valid() && Step(old(t.Model()), op, t.Model(), reply)
  {
    hide Dense.Table.Valid, Dense.Table.Model;
    var pos := t.DoFind(op.key);
    match op {
      case Find(k) =>
        reply := Found(if pos < |t.values| then Some(t.values[pos].value) else None);
      case EraseFound(k) =>
        if pos < |t.values| {
          var _ := t.EraseAt(pos);
        }
        reply := Done;
      case ReplaceKey(k, k') =>
        var replaced := false;
        if pos < |t.values| {
          var r;
          r, replaced := t.ReplaceKey(pos, k');
        }
        reply := New(replaced);
    }
  }

  lemma ReplacedMap<K, V>(es: seq<Entry<K, V>>, container: seq<Entry<K, V>>, k: K)
    requires Distinct(es) && multiset(es) <= multiset(container) && k in ToMap(es)
    ensures Entry(k, ToMap(es)[k]) in container
  {
    var i := ToMapKeys(es, k);
    ToMapEntry(es, i);
    assert es[i] in multiset(es);
  }

  method DenseReplace<K(==), V(==)>(t: Dense.Table<K, V>, container: seq<Entry<K, V>>)
    requires t.Valid() && |container| <= t.loadCap(MAX_BUCKETS) && |container| <= MAX_ENTRIES
    modifies t
    ensures t.Valid() && Step(old(t.Model()), Replace(container), t.Model(), Done)
  {
    hide Dense.Table.Valid, ToMap, Keys;
    KeysSize(container);
    t.Replace(container);
    KeysAreMap(t.values);
    forall k | k in t.Model() ensures Entry(k, t.Model()[k]) in container {
      ReplacedMap(t.values, container, k);
    }
  }

  method DenseStep<K(==), V(==)>(t: Dense.Table<K, V>, op: Op<K, V>) returns (reply: Reply<K, V>)
    requires t.Valid() && |t.Model()| + Growth(op) <= MAX_ENTRIES
    requires |t.Model()| + Growth(op) <= t.loadCap(MAX_BUCKETS) && Request(op) <= t.loadCap(MAX_BUCKETS)
    modifies t
    ensures t.Valid() && Step(old(t.Model()), op, t.Model(), reply)
  {
    hide Dense.Table.Valid, Dense.Table.Model, Keys;
    DenseSize(t);
    reply := Done;
    match op {
      case TryEmplace(_, _) =>
        reply := DenseInsert(t, op);
      case Emplace(_, _) =>
        reply := DenseInsert(t, op);
      case InsertOrAssign(_, _) =>
        reply := DenseInsert(t, op);
      case Find(_) =>
        reply := DenseAt(t, op);
      case Erase(k) =>
        var n := t.EraseKey(k);
        reply := Count(n);
      case EraseFound(_) =>
        reply := DenseAt(t, op);
      case Extract(k) =>
        var erased := t.DoEraseKey(k);
        reply := Found(if erased.Some? then Some(erased.value.value) else None);
      case EraseRange(first, last) =>
        reply := DenseEraseRange(t, first, last);
      case EraseIf(pred) =>
        var n, _ := t.EraseIf(pred);
        DenseSize(t);
        reply := Count(n);
      case ReplaceKey(_, _) =>
        reply := DenseAt(t, op);
      case Replace(container) =>
        DenseReplace(t, container);
      case Clear =>
        t.Clear();
      case Rehash(count) =>
        t.Rehash(count);
      case Reserve(count) =>
        t.Reserve(count);
    }
  }

  /** Any run that stays within the greatest capacity takes the maps through the same operations. */
  method DenseRun<K(==,!new), V(==,!new)>(t: Dense.Table<K, V>, ops: seq<Op<K, V>>)
    returns (replies: seq<Reply<K, V>>, ghost maps: seq<map<K, V>>)
    requires t.Valid() && |t.Model()| + Growths(ops) <= MAX_ENTRIES
    requires |t.Model()| + Growths(ops) <= t.loadCap(MAX_BUCKETS)
    requires forall op | op in ops :: Request(op) <= t.loadCap(MAX_BUCKETS)
    modifies t
    ensures t.Valid() && |replies| == |ops| == |maps| - 1 && Run(maps, ops, replies)
    ensures maps[0] == old(t.Model()) && maps[|ops|] == t.Model()
  {
    hide Dense.Table.Valid, Dense.Table.Model, Step, Growths, Growth;
    replies, maps := [], [t.Model()];
    assert Run(maps, ops, replies);
    hide Run;
    NoGrowths(ops[..0]);
    for i := 0 to |ops|
      invariant t.Valid() && |replies| == i && |maps| == i + 1 && Run(maps, ops, replies)
      invariant maps[0] == old(t.Model()) && maps[i] == t.Model()
      invariant |t.Model()| <= |old(t.Model())| + Growths(ops[..i])
    {
      GrowthsPrefix(ops, i);
      var reply := DenseStep(t, ops[i]);
      StepSize(maps[i], ops[i], t.Model(), reply);
      RunStep(maps, ops, replies, t.Model(), reply);
      replies, maps := replies + [reply], maps + [t.Model()];
    }
  }

  // ----- the table with info bytes

  /** The operations of `robin_hood` among those above. */
  predicate InRobinHood<K, V>(op: Op<K, V>) {
    op.TryEmplace? || op.InsertOrAssign? || op.Find? || op.Erase? || op.EraseFound? || op.Clear? || op.Rehash? || op.Reserve?
  }

  /** What one of them makes of a map. */
  function Effect<K, V>(m: map<K, V>, op: Op<K, V>): map<K, V> {
    match op
    case TryEmplace(k, v) => if k in m then m else m[k := v]
    case InsertOrAssign(k, v) => m[k := v]
    case Erase(k) => m - {k}
    case EraseFound(k) => m - {k}
    case Clear => map[]
    case _ => m
  }

  function Effects<K, V>(m: map<K, V>, ops: seq<Op<K, V>>): map<K, V> {
    if |ops| == 0 then m else Effect(Effects(m, ops[..|ops| - 1]), ops[|ops| - 1])
  }

  lemma EffectsStep<K, V>(m: map<K, V>, ops: seq<Op<K, V>>, i: nat, m': map<K, V>, reply: Reply<K, V>)
    requires i < |ops| && InRobinHood(ops[i]) && Step(Effects(m, ops[..i]), ops[i], m', reply)
    ensures m' == Effects(m, ops[..i + 1])
  {
    hide Effects;
    EffectsNext(m, ops, i);
  }

  lemma NoEffects<K, V>(m: map<K, V>, ops: seq<Op<K, V>>)
    ensures Effects(m, ops[..0]) == m
  {
  }

  lemma EffectsNext<K, V>(m: map<K, V>, ops: seq<Op<K, V>>, i: nat)
    requires i < |ops|
    ensures Effects(m, ops[..i + 1]) == Effect(Effects(m, ops[..i]), ops[i])
  {
    hide Effect;
    assert ops[..i + 1][..i] == ops[..i];
  }

  /** The keys of the map are crowded in some arrays that the table could come to use for it. */
  ghost predicate Unlucky<K, V>(m: map<K, V>, hash: K -> uint64, percent: nat) {
    exists rounds: nat, n: nat :: n > 0 && PowerOfTwo(n) && |m| <= MaxAllowed(n, percent)
                                  && Crowded(m, hash, Multiplier(rounds), n)
  }

  /** Only here may the table refuse: a new key where the others are crowded, or a size that is excessive or crowded. */
  ghost predicate Refusable<K, V>(m: map<K, V>, op: Op<K, V>, hash: K -> uint64, percent: nat) {
    match op
    case TryEmplace(k, _) => k !in m && Unlucky(m, hash, percent)
    case InsertOrAssign(k, _) => k !in m && Unlucky(m, hash, percent)
    case Rehash(count) => Unfit(m, count, hash, percent)
    case Reserve(count) => Unfit(m, count, hash, percent)
    case _ => false
  }

  ghost predicate Unfit<K, V>(m: map<K, V>, count: nat, hash: K -> uint64, percent: nat) {
    var most := if count < |m| then |m| else count;
    TooMany(most, percent) || exists rounds: nat :: Crammed(m, hash, Multiplier(rounds), BucketsFor(most, percent))
  }

  lemma TightUnlucky<K, V>(t: RobinHood.Table<K, V>)
    requires t.Valid() && t.Tight()
    ensures Unlucky(t.Model(), t.hash, t.percent)
  {
    hide Crowded, MaxAllowed, PowerOfTwo, Multiplier, RobinHood.Table.Valid, RobinHood.Table.Model;
    t.NextFits();
    t.SizeIsModel();
  }

  /** A table of few keys refuses nothing but an excessive size. */
  lemma RefusesLate<K, V>(m: map<K, V>, op: Op<K, V>, hash: K -> uint64, percent: nat)
    requires 10 < percent && Refusable(m, op, hash, percent)
    ensures |m| + Growth(op) > REACH || TooMany(Request(op), percent)
  {
    hide Crowded, Crammed, MaxAllowed, PowerOfTwo, TooMany, BucketsFor, Multiplier;
    match op
    case TryEmplace(_, _) => UnluckySize(m, hash, percent);
    case InsertOrAssign(_, _) => UnluckySize(m, hash, percent);
    case Rehash(count) => UnfitSize(m, count, hash, percent);
    case Reserve(count) => UnfitSize(m, count, hash, percent);
    case _ =>
  }

  lemma UnluckySize<K, V>(m: map<K, V>, hash: K -> uint64, percent: nat)
    requires Unlucky(m, hash, percent)
    ensures |m| >= REACH
  {
    hide Crowded, MaxAllowed, PowerOfTwo, Multiplier;
    var rounds: nat, n: nat :| n > 0 && PowerOfTwo(n) && |m| <= MaxAllowed(n, percent)
                               && Crowded(m, hash, Multiplier(rounds), n);
    CrowdedSize(m, hash, Multiplier(rounds), n);
  }

  lemma UnfitSize<K, V>(m: map<K, V>, count: nat, hash: K -> uint64, percent: nat)
    requires 10 < percent && Unfit(m, count, hash, percent)
    ensures |m| > REACH || TooMany(count, percent)
  {
    hide Crowded, Crammed, MaxAllowed, PowerOfTwo, TooMany, BucketsFor, Multiplier;
    if TooMany(|m|, percent) {
      FewEnough(|m|, percent);
    } else if !TooMany(count, percent) {
      var most := if count < |m| then |m| else count;
      var rounds: nat :| Crammed(m, hash, Multiplier(rounds), BucketsFor(most, percent));
      CrammedSize(m, hash, Multiplier(rounds), BucketsFor(most, percent));
    }
  }

  method RobinHoodInsert<K(==), V(==)>(t: RobinHood.Table<K, V>, op: Op<K, V>) returns (reply: Reply<K, V>,
      state: RobinHood.InsertionState)
    requires t.Valid() && (op.TryEmplace? || op.InsertOrAssign?)
    modifies t, t.info, t.nodes
    ensures !state.Thrown? ==> t.Valid()
    ensures state.OverflowError? ==> t.Model() == old(t.Model())
    ensures state.Thrown? || state.OverflowError? ==> Refusable(old(t.Model()), op, t.hash, t.percent)
    ensures !state.Thrown? && !state.OverflowError? ==> Step(old(t.Model()), op, t.Model(), reply)
    ensures t.info == old(t.info) || fresh(t.info)
    ensures t.nodes == old(t.nodes) || fresh(t.nodes)
  {
    hide RobinHood.Table.Valid, RobinHood.Table.Model, RobinHood.Table.Kin, RobinHood.Table.Tight, RobinHood.Table.Stuck,
      RobinHood.Table.Full, RobinHood.Table.Breaks, Unlucky;
    if t.Tight() {
      TightUnlucky(t);
    }
    var pos;
    match op {
      case TryEmplace(k, v) =>
        pos, state := t.TryEmplace(k, v);
      case InsertOrAssign(k, v) =>
        pos, state := t.InsertOrAssign(k, v);
    }
    reply := New(!state.KeyFound?);
  }

  method RobinHoodAt<K(==), V(==)>(t: RobinHood.Table<K, V>, op: Op<K, V>) returns (reply: Reply<K, V>)
    requires t.Valid() && (op.Find? || op.Erase? || op.EraseFound?)
    modifies t`numElements, t.info, t.nodes
    ensures t.Valid() && Step(old(t.Model()), op, t.Model(), reply)
  {
    hide RobinHood.Table.Valid, RobinHood.Table.Model, Step;
    SearchSteps(t.Model(), op.key);
    match op {
      case Find(k) =>
        var pos := t.FindIdx(k);
        reply := Found(if pos < t.nodes.Length then Some(t.nodes[pos].entry.value) else None);
      case Erase(k) =>
        var n := t.EraseKey(k);
        reply := Count(n);
      case EraseFound(k) =>
        var pos := t.FindIdx(k);
        if pos < t.nodes.Length {
          var _ := t.EraseAt(pos);
        }
        reply := Done;
    }
  }

  lemma Basics<K, V>(t: RobinHood.Table<K, V>)
    requires t.Valid()
    ensures 10 < t.percent && |t.Model()| == t.numElements
    ensures Slots.Distinct(t.nodes[..]) && t.mult == Multiplier(t.rounds) && t.Model() == Slots.SlotMap(t.nodes[..])
  {
    t.SizeIsModel();
  }

  method RobinHoodResize<K(==), V(==)>(t: RobinHood.Table<K, V>, op: Op<K, V>, force: bool)
    returns (state: RobinHood.InsertionState)
    requires t.Valid() && (op.Rehash? || op.Reserve?)
    modifies t, t.info, t.nodes
    ensures state.KeyFound? || state.Thrown?
    ensures state.Thrown? ==> Refusable(old(t.Model()), op, t.hash, t.percent)
    ensures !state.Thrown? ==> t.Valid() && Step(old(t.Model()), op, t.Model(), Done)
    ensures t.info == old(t.info) || fresh(t.info)
    ensures t.nodes == old(t.nodes) || fresh(t.nodes)
  {
    hide RobinHood.Table.Valid, RobinHood.Table.Model, MaxAllowed, Smallest, TooMany, Crammed, Overfull, BucketsFor,
      Multiplier;
    ghost var m, slots, rounds := t.Model(), t.nodes[..], t.rounds;
    Basics(t);
    var ok := t.Reserve(op.count, force);
    ghost var most := if op.count < |m| then |m| else op.count;
    if !ok && !TooMany(most, t.percent) {
      OverfullCrammed(slots, t.hash, Multiplier(rounds), BucketsFor(most, t.percent));
    }
    state := if ok then RobinHood.KeyFound else RobinHood.Thrown;
  }

  method RobinHoodStep<K(==), V(==)>(t: RobinHood.Table<K, V>, op: Op<K, V>) returns (reply: Reply<K, V>,
      state: RobinHood.InsertionState)
    requires t.Valid() && InRobinHood(op)
    modifies t, t.info, t.nodes
    ensures !state.Thrown? ==> t.Valid()
    ensures state.OverflowError? ==> t.Model() == old(t.Model())
    ensures state.Thrown? || state.OverflowError? ==> Refusable(old(t.Model()), op, t.hash, t.percent)
    ensures !state.Thrown? && !state.OverflowError? ==> Step(old(t.Model()), op, t.Model(), reply)
    ensures t.info == old(t.info) || fresh(t.info)
    ensures t.nodes == old(t.nodes) || fresh(t.nodes)
  {
    hide RobinHood.Table.Valid, RobinHood.Table.Model, Refusable;
    reply, state := Done, RobinHood.KeyFound;
    match op {
      case TryEmplace(_, _) =>
        reply, state := RobinHoodInsert(t, op);
      case InsertOrAssign(_, _) =>
        reply, state := RobinHoodInsert(t, op);
      case Find(_) =>
        reply := RobinHoodAt(t, op);
      case Erase(_) =>
        reply := RobinHoodAt(t, op);
      case EraseFound(_) =>
        reply := RobinHoodAt(t, op);
      case Clear =>
        t.Clear();
      case Rehash(_) =>
        state := RobinHoodResize(t, op, true);
      case Reserve(_) =>
        state := RobinHoodResize(t, op, false);
    }
  }

  /**
    Any run takes the maps through the same operations, up to the first that the
    table refuses; `state` is that of the last operation.
  */
  method RobinHoodRun<K(==,!new), V(==,!new)>(t: RobinHood.Table<K, V>, ops: seq<Op<K, V>>)
    returns (replies: seq<Reply<K, V>>, state: RobinHood.InsertionState, ghost maps: seq<map<K, V>>)
    requires t.Valid() && forall op | op in ops :: InRobinHood(op)
    modifies t, t.info, t.nodes
    ensures |maps| == |replies| + 1 <= |ops| + 1 && Run(maps, ops, replies) && maps[0] == old(t.Model())
    ensures !state.Thrown? ==> t.Valid() && maps[|replies|] == t.Model()
    ensures |replies| < |ops| <==> state.Thrown? || state.OverflowError?
    ensures |replies| < |ops| ==> Refusable(maps[|replies|], ops[|replies|], t.hash, t.percent)
    ensures (forall i | 0 <= i < |ops| :: !Refusable(Effects(old(t.Model()), ops[..i]), ops[i], t.hash, t.percent))
      ==> |replies| == |ops|
    ensures |old(t.Model())| + Growths(ops) <= REACH && (forall op | op in ops :: !TooMany(Request(op), t.percent))
      ==> |replies| == |ops|
  {
    hide RobinHood.Table.Valid, RobinHood.Table.Model, Step, Refusable, Growths, Growth, Effects, Effect, TooMany;
    replies, state, maps := [], RobinHood.KeyFound, [t.Model()];
    assert Run(maps, ops, replies);
    hide Run;
    NoEffects(t.Model(), ops);
    NoGrowths(ops[..0]);
    for i := 0 to |ops|
      invariant |replies| == i && |maps| == i + 1 && t.Valid() && !state.Thrown? && !state.OverflowError?
      invariant Run(maps, ops, replies) && maps[0] == old(t.Model()) && maps[i] == t.Model()
      invariant |t.Model()| <= |old(t.Model())| + Growths(ops[..i]) && maps[i] == Effects(maps[0], ops[..i])
      invariant t.info == old(t.info) || fresh(t.info)
      invariant t.nodes == old(t.nodes) || fresh(t.nodes)
    {
      Basics(t);
      var reply;
      reply, state := RobinHoodStep(t, ops[i]);
      GrowthsPrefix(ops, i);
      if state.Thrown? || state.OverflowError? {
        RefusesLate(maps[i], ops[i], t.hash, t.percent);
        return;
      }
      StepSize(maps[i], ops[i], t.Model(), reply);
      EffectsStep(maps[0], ops, i, t.Model(), reply);
      RunStep(maps, ops, replies, t.Model(), reply);
      replies, maps := replies + [reply], maps + [t.Model()];
    }
  }
}
