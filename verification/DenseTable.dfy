/**
  `ankerl::unordered_dense::detail::table`: a Robin Hood bucket array over a
  dense vector of entries, refining a plain map from keys to values.
*/
module DenseTable {
  import opened Collections
  import opened Words
  import opened Entries
  import opened DenseEntries
  import opened DenseIndex

  function TagOf(h: uint64, shifts: nat): Tag {
    QuotientNatural(h, Pow2(shifts));
    Tag(h / Pow2(shifts), h % 256)
  }

  function TagsOf<K, V>(es: seq<Entry<K, V>>, hash: K -> uint64, shifts: nat): (tags: seq<Tag>)
    ensures |tags| == |es|
    ensures forall i | 0 <= i < |es| :: tags[i] == TagOf(hash(es[i].key), shifts)
  {
    seq(|es|, i requires 0 <= i < |es| => TagOf(hash(es[i].key), shifts))
  }

  lemma AssignTags<K, V>(es: seq<Entry<K, V>>, hash: K -> uint64, shifts: nat, i: nat, v: V)
    requires i < |es|
    ensures TagsOf(es[i := Entry(es[i].key, v)], hash, shifts) == TagsOf(es, hash, shifts)
  {
  }

  // ----- looking for a key among the buckets

  /** Bucket `q` is occupied by an entry with key `key`. */
  predicate Holder<K(==), V>(b: seq<Bucket>, es: seq<Entry<K, V>>, key: K, q: nat) {
    q < |b| && b[q].word != 0 && b[q].valueIdx < |es| && es[b[q].valueIdx].key == key
  }

  /** A search from `home` that stands at `idx` has not gone past a bucket with the key. */
  ghost predicate Unmet<K, V>(b: seq<Bucket>, es: seq<Entry<K, V>>, key: K, home: nat, idx: nat) {
    && home < |b| && idx < |b|
    && forall q: nat | Holder(b, es, key, q) :: Gap(home, idx, |b|) <= Gap(home, q, |b|)
  }

  lemma PassBy<K, V>(b: seq<Bucket>, es: seq<Entry<K, V>>, key: K, home: nat, idx: nat)
    requires Unmet(b, es, key, home, idx) && !Holder(b, es, key, idx)
    requires Gap(home, Next(idx, |b|), |b|) == Gap(home, idx, |b|) + 1
    ensures Unmet(b, es, key, home, Next(idx, |b|))
  {
  }

  lemma HolderWord<K, V>(b: seq<Bucket>, es: seq<Entry<K, V>>, hash: K -> uint64, shifts: nat, k: nat, gap: int,
      key: K, q: nat)
    requires Wf(b, TagsOf(es, hash, shifts), k, gap) && Holder(b, es, key, q)
    ensures TagOf(hash(key), shifts).home < |b|
    ensures b[q].word == WordAt(TagOf(hash(key), shifts), q, |b|)
  {
    assert Placed(b, TagsOf(es, hash, shifts), k, gap, q);
  }

  /** A search that is stopped before meeting the key proves its absence. */
  lemma Absent<K, V>(b: seq<Bucket>, es: seq<Entry<K, V>>, hash: K -> uint64, shifts: nat, k: nat, gap: int, key: K,
      idx: nat)
    requires Wf(b, TagsOf(es, hash, shifts), k, gap)
    requires var t := TagOf(hash(key), shifts);
      Unmet(b, es, key, t.home, idx) && b[idx].word < WordAt(t, idx, |b|)
    ensures k <= |es| && forall v | 0 <= v < k && v != gap :: es[v].key != key
  {
    forall v | 0 <= v < k && v != gap ensures es[v].key != key {
      assert Live(v, k, gap);
      var q :| Holds(b, q, v) && q != -1;
      if es[v].key == key {
        assert Holder(b, es, key, q);
        HolderWord(b, es, hash, shifts, k, gap, key, q);
        NotStopped(b, TagOf(hash(key), shifts), idx, q);
      }
    }
  }

  /** Fewer values than buckets, and never fewer for more buckets. */
  ghost predicate LoadFactor(loadCap: nat -> nat) {
    && (forall n: nat | n > 0 :: loadCap(n) < n)
    && forall m: nat, n: nat | m <= n :: loadCap(m) <= loadCap(n)
  }

  lemma BucketCount(shifts: nat)
    requires 32 <= shifts <= 62
    ensures 4 <= Pow2(64 - shifts) <= MAX_BUCKETS
  {
    hide Pow2;
    Pow2Values();
    Pow2Monotone(2, 64 - shifts);
    Pow2Monotone(64 - shifts, 32);
  }

  /** Of the greatest number of buckets each may be used. */
  function CapacityOf(loadCap: nat -> nat, n: nat): nat {
    if n == MAX_BUCKETS then MAX_BUCKETS else loadCap(n)
  }

  class Table<K(==), V(==)> {
    const hash: K -> uint64
    const loadCap: nat -> nat

    var values: seq<Entry<K, V>>
    var buckets: seq<Bucket>
    var shifts: nat
    var maxCapacity: nat

    constructor (hash: K -> uint64, loadCap: nat -> nat)
      requires LoadFactor(loadCap)
      ensures this.hash == hash && this.loadCap == loadCap
      ensures Valid() && values == [] && Model() == map[] && |buckets| == 4
    {
      this.hash, this.loadCap := hash, loadCap;
      values, buckets, shifts := [], seq(4, _ => EMPTY), 62;
      maxCapacity := loadCap(4);
      new;
      Pow2Values();
      FreshWf(buckets, values, hash, shifts);
    }

    /** What the parameters and the sizes promise each other. */
    ghost predicate Shaped()
      reads this
    {
      && LoadFactor(loadCap)
      && 32 <= shifts <= 62
      && |buckets| == Pow2(64 - shifts)
      && 4 <= |buckets| <= MAX_BUCKETS
      && maxCapacity == CapacityOf(loadCap, |buckets|)
    }

    ghost function Tags(): (tags: seq<Tag>)
      reads this
      ensures |tags| == |values|
    {
      TagsOf(values, hash, shifts)
    }

    /** The buckets index the first `k` values, `gap` left out. */
    ghost predicate Indexed(k: nat, gap: int := -1)
      reads this
    {
      Shaped() && Roomy(buckets, k, gap) && Wf(buckets, Tags(), k, gap)
    }

    ghost predicate Valid()
      reads this
      ensures Valid() ==> Distinct(values) && |values| <= MAX_ENTRIES
    {
      Indexed(|values|) && Distinct(values)
    }

    ghost function Model(): map<K, V>
      reads this
    {
      ToMap(values)
    }

    // ----- moving buckets

    method PlaceAndShiftUp(p: Bucket, at: nat, ghost tags: seq<Tag>, ghost k: nat)
      requires p.valueIdx < k <= |buckets| && k <= MAX_ENTRIES && Wf(buckets, tags, k, p.valueIdx)
      requires at < |buckets| && Pending(buckets, tags, p, at)
      modifies this`buckets
      ensures |buckets| == old(|buckets|)
      ensures Wf(buckets, tags, k, -1)
    {
      ghost var e := HasEmpty(buckets, tags, k, p.valueIdx);
      var bucket: Bucket, place: nat := p, at;
      while buckets[place].word != 0
        invariant |buckets| == old(|buckets|) && place < |buckets|
        invariant bucket.valueIdx < k && Wf(buckets, tags, k, bucket.valueIdx) && IsEmpty(buckets, e)
        invariant Pending(buckets, tags, bucket, place)
        decreases Gap(place, e, |buckets|)
      {
        SwapUp(buckets, tags, k, bucket, place, e);
        var q := buckets[place];
        buckets := buckets[place := bucket];
        bucket := Bucket(DistInc(q.word), q.valueIdx);
        place := Next(place, |buckets|);
      }
      Settle(buckets, tags, k, bucket, place);
      buckets := buckets[place := bucket];
    }

    method EraseAndShiftDown(at: nat, ghost tags: seq<Tag>, ghost k: nat)
      requires Wf(buckets, tags, k, -1) && k < |buckets|
      requires at < |buckets| && buckets[at].word != 0
      modifies this`buckets
      ensures |buckets| == old(|buckets|)
      ensures old(buckets[at].valueIdx) < k && Wf(buckets, tags, k, old(buckets[at].valueIdx))
    {
      ghost var e := HasEmpty(buckets, tags, k, -1);
      ghost var gap := buckets[at].valueIdx;
      Ignore(buckets, tags, k, at);
      var idx: nat := at;
      var next := Next(idx, |buckets|);
      while buckets[next].word >= 2 * DIST_INC
        invariant |buckets| == old(|buckets|) && idx < |buckets| && next == Next(idx, |buckets|)
        invariant Wf(buckets, tags, k, gap, Hole(idx)) && IsEmpty(buckets, e)
        decreases Gap(idx, e, |buckets|)
      {
        SlideDown(buckets, tags, k, gap, idx);
        buckets := buckets[idx := Bucket(DistDec(buckets[next].word), buckets[next].valueIdx)];
        idx := next;
        next := Next(next, |buckets|);
      }
      Vacate(buckets, tags, k, gap, idx);
      buckets := buckets[idx := EMPTY];
    }

    // ----- searching for a key

    ghost function TagFor(key: K): Tag
      reads this
    {
      TagOf(hash(key), shifts)
    }

    /** A search for `key` standing at `idx` with probe word `word`. */
    ghost predicate Scanning(key: K, idx: nat, word: nat)
      reads this
    {
      Standing(buckets, TagFor(key), idx, word) && Unmet(buckets, values, key, TagFor(key).home, idx)
    }

    /** The same for a search that tested every bucket on its way for a stop. */
    ghost predicate Searching(key: K, idx: nat, word: nat)
      reads this
    {
      Scanning(key, idx, word) && Probing(buckets, TagFor(key), idx, word)
    }

    ghost function Left(key: K, idx: nat): nat
      reads this
      requires idx < |buckets| && TagFor(key).home < |buckets|
    {
      |buckets| - Gap(TagFor(key).home, idx, |buckets|)
    }

    method HashKey(key: K) returns (word: uint32, idx: nat)
      requires Shaped()
      ensures Searching(key, idx, word) && word < 2 * DIST_INC
      ensures word == 0x100 + hash(key) % 0x100 && idx == hash(key) / Pow2(shifts)
    {
      ShiftBound(hash(key), 64 - shifts);
      word, idx := DIST_INC + hash(key) % 256, hash(key) / Pow2(shifts);
      ProbeStart(buckets, TagFor(key));
    }

    /** The bucket at `idx` does not hold the key, as the probe word or the key itself shows. */
    ghost predicate Differs(key: K, idx: nat, word: uint32)
      reads this
      requires idx < |buckets|
    {
      word == buckets[idx].word && buckets[idx].valueIdx < |values| ==> values[buckets[idx].valueIdx].key != key
    }

    /** One unsuccessful probe. */
    lemma Miss(key: K, idx: nat, word: uint32, k: nat, gap: int)
      requires Indexed(k, gap) && Scanning(key, idx, word) && word <= buckets[idx].word
      requires Differs(key, idx, word)
      ensures Searching(key, Next(idx, |buckets|), DistInc(word))
      ensures Left(key, Next(idx, |buckets|)) < Left(key, idx)
    {
      Advance(buckets, Tags(), k, gap, TagFor(key), idx, word);
      if Holder(buckets, values, key, idx) {
        HolderWord(buckets, values, hash, shifts, k, gap, key, idx);
      }
      PassBy(buckets, values, key, TagFor(key).home, idx);
    }

    /** One of the first two probes of a lookup, which go on without looking for a stop. */
    lemma MissUnguarded(key: K, idx: nat, word: uint32)
      requires Valid() && Scanning(key, idx, word) && word < 768
      requires Differs(key, idx, word)
      ensures Scanning(key, Next(idx, |buckets|), DistInc(word)) && DistInc(word) == word + 256
    {
      if Holder(buckets, values, key, idx) {
        HolderWord(buckets, values, hash, shifts, |values|, -1, key, idx);
      }
      PassBy(buckets, values, key, TagFor(key).home, idx);
    }

    /** An occupied bucket stands for one of the live values. */
    lemma Occupied(idx: nat, k: nat, gap: int)
      requires Indexed(k, gap) && idx < |buckets| && buckets[idx].word != 0
      ensures k <= |values| && Live(buckets[idx].valueIdx, k, gap)
    {
      assert Placed(buckets, Tags(), k, gap, idx);
    }

    /** A search that is stopped proves the key absent. */
    lemma Stopped(key: K, idx: nat, word: uint32, k: nat)
      requires Indexed(k) && Scanning(key, idx, word) && buckets[idx].word < word
      ensures k <= |values| && key !in ToMap(values[..k])
      ensures k == |values| ==> key !in Model()
    {
      Absent(buckets, values, hash, shifts, k, -1, key, idx);
      FreshKey(values[..k], key);
      assert values[..|values|] == values;
    }

    method NextWhileLess(key: K, ghost k: nat, ghost gap: int) returns (word: uint32, idx: nat)
      requires Indexed(k, gap)
      ensures Searching(key, idx, word) && buckets[idx].word <= word
    {
      word, idx := HashKey(key);
      while word < buckets[idx].word
        invariant Searching(key, idx, word)
        decreases Left(key, idx)
      {
        Miss(key, idx, word, k, gap);
        word := DistInc(word);
        idx := Next(idx, |buckets|);
      }
    }

    /** Stores a bucket for value `v` where its search was stopped. */
    method StoreAt(v: nat, word: uint32, idx: nat, ghost k: nat)
      requires Indexed(k, v) && v < k <= MAX_ENTRIES
      requires k <= |values|
      requires Probing(buckets, TagFor(values[v].key), idx, word) && buckets[idx].word <= word
      modifies this`buckets
      ensures |buckets| == old(|buckets|) && Shaped() && Wf(buckets, Tags(), k, -1)
    {
      StoppedPending(buckets, Tags(), k, v, v, idx, word);
      PlaceAndShiftUp(Bucket(word, v), idx, Tags(), k);
    }

    method ClearAndFillBucketsFromValues()
      requires Shaped() && |values| < |buckets| && |values| <= MAX_ENTRIES
      modifies this`buckets
      ensures Indexed(|values|)
    {
      buckets := seq(|buckets|, _ => EMPTY);
      FreshWf(buckets, values, hash, shifts);
      for v := 0 to |values|
        invariant |buckets| == old(|buckets|) && Indexed(v)
      {
        LeaveOutLast(buckets, Tags(), v);
        var word, idx := NextWhileLess(values[v].key, v + 1, v);
        StoreAt(v, word, idx, v + 1);
      }
    }

    // ----- growing

    /** The table doubles exactly when more values than the load factor allows, `size`, meet `n` buckets. */
    function Grown(n: nat, size: nat): nat {
      if n < MAX_BUCKETS && size > loadCap(n) then 2 * n else n
    }

    /** A further key can be inserted without a distance that its word cannot hold. */
    ghost predicate CanAdd(key: K)
      reads this
    {
      |values| < MAX_ENTRIES || key in Model()
    }

    method AllocateBucketsFromShift()
      requires LoadFactor(loadCap) && 32 <= shifts <= 62
      modifies this`buckets, this`maxCapacity
      ensures Shaped()
    {
      hide Pow2, LoadFactor;
      BucketCount(shifts);
      buckets := seq(Pow2(64 - shifts), _ => EMPTY);
      maxCapacity := if |buckets| == MAX_BUCKETS then MAX_BUCKETS else loadCap(|buckets|);
    }

    method IncreaseSize()
      requires Shaped() && |buckets| < MAX_BUCKETS && |values| <= |buckets| && |values| <= MAX_ENTRIES
      modifies this`buckets, this`maxCapacity, this`shifts
      ensures Indexed(|values|) && |buckets| == 2 * old(|buckets|)
    {
      GrowsByOne(shifts);
      hide Pow2;
      shifts := shifts - 1;
      AllocateBucketsFromShift();
      ClearAndFillBucketsFromValues();
    }

    method CalcShiftsForSize(size: nat) returns (s: nat)
      requires LoadFactor(loadCap) && size <= loadCap(MAX_BUCKETS)
      ensures 32 <= s <= 62 && size <= loadCap(Pow2(64 - s)) < Pow2(64 - s)
      ensures s == 62 || loadCap(Pow2(64 - (s + 1))) < size
    {
      Pow2Values();
      hide Pow2;
      s := 62;
      while s > 0 && loadCap(Pow2(64 - s)) < size
        invariant 32 <= s <= 62
        invariant s == 62 || loadCap(Pow2(64 - (s + 1))) < size
      {
        s := s - 1;
      }
    }

    // ----- insertion

    /** Adds an entry behind the indexed values; the buckets do not notice. */
    method PushBack(e: Entry<K, V>)
      requires Indexed(|values|)
      modifies this`values
      ensures values == old(values) + [e] && Indexed(|values| - 1)
    {
      ghost var tags := Tags();
      values := values + [e];
      TagsFitAll(values, hash, shifts);
      Reframe(buckets, tags, |values| - 1, -1, Tags());
    }

    /** Drops the last entry, which the buckets do not index. */
    method PopBack()
      requires |values| > 0 && Indexed(|values| - 1)
      modifies this`values
      ensures values == old(values)[..|old(values)| - 1] && Indexed(|values|)
    {
      ghost var tags := Tags();
      values := values[..|values| - 1];
      TagsFitAll(values, hash, shifts);
      Reframe(buckets, tags, |values|, -1, Tags());
    }

    /** The end of every insertion: the new entry is the last value and not yet indexed. */
    method PlaceLast(word: uint32, idx: nat)
      requires |values| > 0 && Indexed(|values| - 1)
      requires |values| <= MAX_ENTRIES
      requires Probing(buckets, TagFor(values[|values| - 1].key), idx, word) && buckets[idx].word <= word
      modifies this`buckets, this`maxCapacity, this`shifts
      ensures Indexed(|values|) && |buckets| == Grown(old(|buckets|), |values|)
    {
      if |values| > maxCapacity {
        IncreaseSize();
      } else {
        LeaveOutLast(buckets, Tags(), |values| - 1);
        StoreAt(|values| - 1, word, idx, |values|);
      }
    }

    /** The same for an entry with a new key. */
    method PlaceNew(word: uint32, idx: nat, ghost before: seq<Entry<K, V>>, ghost e: Entry<K, V>)
      requires values == before + [e] && Distinct(before) && e.key !in ToMap(before) && Indexed(|before|)
      requires |values| <= MAX_ENTRIES
      requires Probing(buckets, TagFor(e.key), idx, word) && buckets[idx].word <= word
      modifies this`buckets, this`maxCapacity, this`shifts
      ensures Valid() && Model() == ToMap(before)[e.key := e.value]
      ensures |buckets| == Grown(old(|buckets|), |values|)
    {
      AppendMap(before, e);
      PlaceLast(word, idx);
    }

    method DoPlaceElement(word: uint32, idx: nat, key: K, value: V) returns (pos: nat)
      requires Valid() && |values| < MAX_ENTRIES && key !in Model()
      requires Searching(key, idx, word) && buckets[idx].word <= word
      modifies this
      ensures Valid() && values == old(values) + [Entry(key, value)] && pos == |values| - 1
      ensures |buckets| == Grown(old(|buckets|), |values|)
      ensures Model() == old(Model())[key := value]
    {
      PushBack(Entry(key, value));
      PlaceNew(word, idx, old(values), Entry(key, value));
      pos := |values| - 1;
    }

    method TryEmplace(key: K, value: V) returns (pos: nat, inserted: bool)
      requires Valid() && CanAdd(key)
      modifies this
      ensures Valid() && pos < |values| && values[pos].key == key
      ensures |buckets| == if inserted then Grown(old(|buckets|), |old(values)| + 1) else old(|buckets|)
      ensures inserted <==> key !in old(Model())
      ensures values == if inserted then old(values) + [Entry(key, value)] else old(values)
      ensures Model() == if inserted then old(Model())[key := value] else old(Model())
    {
      var word: uint32, idx: nat := HashKey(key);
      while true
        invariant unchanged(this) && Searching(key, idx, word)
        decreases Left(key, idx)
      {
        if word == buckets[idx].word {
          Occupied(idx, |values|, -1);
          if key == values[buckets[idx].valueIdx].key {
            ToMapEntry(values, buckets[idx].valueIdx);
            return buckets[idx].valueIdx, false;
          }
        } else if word > buckets[idx].word {
          Stopped(key, idx, word, |values|);
          pos := DoPlaceElement(word, idx, key, value);
          return pos, true;
        }
        Miss(key, idx, word, |values|, -1);
        word := DistInc(word);
        idx := Next(idx, |buckets|);
      }
    }

    /** Assigns to the mapped value behind an iterator. */
    method SetValue(pos: nat, value: V)
      requires Valid() && pos < |values|
      modifies this`values
      ensures Valid() && values == old(values)[pos := Entry(old(values)[pos].key, value)]
      ensures Model() == old(Model())[old(values)[pos].key := value]
    {
      AssignMap(values, pos, value);
      AssignTags(values, hash, shifts, pos, value);
      values := values[pos := Entry(values[pos].key, value)];
    }

    method InsertOrAssign(key: K, value: V) returns (pos: nat, inserted: bool)
      requires Valid() && CanAdd(key)
      modifies this
      ensures Valid() && pos < |values| && values[pos] == Entry(key, value)
      ensures |buckets| == if inserted then Grown(old(|buckets|), |old(values)| + 1) else old(|buckets|)
      ensures inserted <==> key !in old(Model())
      ensures Model() == old(Model())[key := value]
    {
      pos, inserted := TryEmplace(key, value);
      if !inserted {
        SetValue(pos, value);
      }
    }

    /**
      The search loop of `emplace`, `replace` and `replace_key`: up to the first
      bucket that stops it, looking for the key among the first `k` values.
    */
    method SearchKey(key: K, ghost k: nat) returns (found: bool, word: uint32, idx: nat)
      requires Indexed(k) && k <= |values|
      ensures Searching(key, idx, word)
      ensures found ==> buckets[idx].valueIdx < k && values[buckets[idx].valueIdx].key == key
      ensures !found ==> buckets[idx].word < word && key !in ToMap(values[..k])
    {
      word, idx := HashKey(key);
      while word <= buckets[idx].word
        invariant Searching(key, idx, word)
        decreases Left(key, idx)
      {
        Occupied(idx, k, -1);
        if word == buckets[idx].word && key == values[buckets[idx].valueIdx].key {
          return true, word, idx;
        }
        Miss(key, idx, word, k, -1);
        word := DistInc(word);
        idx := Next(idx, |buckets|);
      }
      Stopped(key, idx, word, k);
      found := false;
    }

    /** Builds the entry first, and takes it back when its key is already there. */
    method Emplace(e: Entry<K, V>) returns (pos: nat, inserted: bool)
      requires Valid() && CanAdd(e.key)
      modifies this
      ensures Valid() && pos < |values| && values[pos].key == e.key
      ensures |buckets| == if inserted then Grown(old(|buckets|), |old(values)| + 1) else old(|buckets|)
      ensures inserted <==> e.key !in old(Model())
      ensures values == if inserted then old(values) + [e] else old(values)
      ensures Model() == if inserted then old(Model())[e.key := e.value] else old(Model())
    {
      PushBack(e);
      assert values[..|values| - 1] == old(values);
      var found, word, idx := SearchKey(e.key, |values| - 1);
      if found {
        pos := buckets[idx].valueIdx;
        PopBack();
        ToMapEntry(values, pos);
        inserted := false;
      } else {
        PlaceNew(word, idx, old(values), e);
        pos, inserted := |values| - 1, true;
      }
    }

    // ----- lookup

    /** Returns the position of the key's entry, or the number of entries when there is none. */
    method DoFind(key: K) returns (pos: nat)
      requires Valid()
      ensures pos <= |values|
      ensures pos < |values| <==> key in Model()
      ensures pos < |values| ==> values[pos].key == key && values[pos].value == Model()[key]
    {
      if |values| == 0 {
        return 0;
      }
      var word: uint32, idx: nat := HashKey(key);
      if word == buckets[idx].word {
        Occupied(idx, |values|, -1);
        if key == values[buckets[idx].valueIdx].key {
          ToMapEntry(values, buckets[idx].valueIdx);
          return buckets[idx].valueIdx;
        }
      }
      MissUnguarded(key, idx, word);
      word, idx := DistInc(word), Next(idx, |buckets|);
      if word == buckets[idx].word {
        Occupied(idx, |values|, -1);
        if key == values[buckets[idx].valueIdx].key {
          ToMapEntry(values, buckets[idx].valueIdx);
          return buckets[idx].valueIdx;
        }
      }
      MissUnguarded(key, idx, word);
      word, idx := DistInc(word), Next(idx, |buckets|);
      while true
        invariant Scanning(key, idx, word)
        decreases Left(key, idx)
      {
        if word == buckets[idx].word {
          Occupied(idx, |values|, -1);
          if key == values[buckets[idx].valueIdx].key {
            ToMapEntry(values, buckets[idx].valueIdx);
            return buckets[idx].valueIdx;
          }
        } else if word > buckets[idx].word {
          Stopped(key, idx, word, |values|);
          return |values|;
        }
        Miss(key, idx, word, |values|, -1);
        word := DistInc(word);
        idx := Next(idx, |buckets|);
      }
    }

    // ----- removal

    /** The unguarded search for the bucket that carries value index `v`, from the home bucket of its tag. */
    method SeekValue(v: nat, start: nat, ghost tags: seq<Tag>, ghost k: nat, ghost gap: int) returns (idx: nat)
      requires Wf(buckets, tags, k, gap) && Live(v, k, gap)
      requires k <= |tags| && start == tags[v].home
      ensures Holds(buckets, idx, v)
    {
      ghost var q: nat :| Holds(buckets, q, v);
      idx := start;
      while v != buckets[idx].valueIdx
        invariant idx < |buckets| && tags[v].home < |buckets|
        invariant Gap(tags[v].home, idx, |buckets|) <= Gap(tags[v].home, q, |buckets|)
        decreases Gap(tags[v].home, q, |buckets|) - Gap(tags[v].home, idx, |buckets|)
      {
        Seek(buckets, tags, k, gap, v, q, idx);
        idx := Next(idx, |buckets|);
      }
      Seek(buckets, tags, k, gap, v, q, idx);
    }

    /** Fills the hole at `r`, whose bucket is already gone, with the last entry, and re-targets that entry's bucket. */
    method MoveLastInto(r: nat)
      requires |values| > 0 && r < |values| - 1 && |values| < |buckets| && Indexed(|values|, r)
      modifies this`values, this`buckets
      ensures values == SwapRemove(old(values), r) && Indexed(|values|)
    {
      hide Wf, Pow2, TagOf, SwapRemove;
      var back := |values| - 1;
      Overwritten(buckets, values, hash, shifts, r);
      values := values[r := values[back]];
      var idx := SeekValue(back, hash(values[r].key) / Pow2(shifts), Tags(), |values|, r);
      MovedIn(buckets, old(values), hash, shifts, r, idx);
      buckets := buckets[idx := Bucket(buckets[idx].word, r)];
      values := values[..back];
    }

    method DoErase(idx: nat) returns (erased: Entry<K, V>, ghost r: nat)
      requires Valid() && idx < |buckets| && buckets[idx].word != 0
      modifies this`values, this`buckets
      ensures r == old(buckets[idx].valueIdx) < |old(values)| && erased == old(values)[r]
      ensures Valid() && values == SwapRemove(old(values), r)
      ensures Model() == old(Model()) - {erased.key}
    {
      var toRemove := buckets[idx].valueIdx;
      r := toRemove;
      EraseAndShiftDown(idx, Tags(), |values|);
      erased := values[toRemove];
      SwapRemoveMap(values, r);
      if toRemove != |values| - 1 {
        MoveLastInto(toRemove);
      } else {
        LeaveOutLast(buckets, Tags(), r);
        PopBack();
      }
    }

    /** Erases the key's entry and hands it out, if there is one. */
    method DoEraseKey(key: K) returns (erased: Option<Entry<K, V>>)
      requires Valid()
      modifies this`values, this`buckets
      ensures Valid() && Model() == old(Model()) - {key}
      ensures erased == if key in old(Model()) then Some(Entry(key, old(Model())[key])) else None
    {
      if |values| == 0 {
        return None;
      }
      var word: uint32, idx: nat := NextWhileLess(key, |values|, -1);
      while word == buckets[idx].word
        invariant unchanged(this) && Searching(key, idx, word) && buckets[idx].word <= word
        decreases Left(key, idx)
      {
        Occupied(idx, |values|, -1);
        if key == values[buckets[idx].valueIdx].key {
          ToMapEntry(values, buckets[idx].valueIdx);
          break;
        }
        assert Link(buckets, idx);
        Miss(key, idx, word, |values|, -1);
        word := DistInc(word);
        idx := Next(idx, |buckets|);
      }
      if word != buckets[idx].word {
        Stopped(key, idx, word, |values|);
        return None;
      }
      var entry, _ := DoErase(idx);
      return Some(entry);
    }

    method EraseKey(key: K) returns (count: nat)
      requires Valid()
      modifies this`values, this`buckets
      ensures Valid() && Model() == old(Model()) - {key}
      ensures count == |old(values)| - |values| == if key in old(Model()) then 1 else 0
    {
      var erased := DoEraseKey(key);
      ModelSize(values);
      ModelSize(old(values));
      count := if erased.Some? then 1 else 0;
    }

    /** Erases and hands out the entry behind an iterator. */
    method ExtractAt(pos: nat) returns (erased: Entry<K, V>)
      requires Valid() && pos < |values|
      modifies this`values, this`buckets
      ensures erased == old(values)[pos]
      ensures Valid() && values == SwapRemove(old(values), pos)
      ensures Model() == old(Model()) - {erased.key}
    {
      var idx := SeekValue(pos, hash(values[pos].key) / Pow2(shifts), Tags(), |values|, -1);
      ghost var r;
      erased, r := DoErase(idx);
    }

    method EraseAt(pos: nat) returns (next: nat)
      requires Valid() && pos < |values|
      modifies this`values, this`buckets
      ensures next == pos
      ensures Valid() && values == SwapRemove(old(values), pos)
      ensures Model() == old(Model()) - {old(values)[pos].key}
    {
      var _ := ExtractAt(pos);
      next := pos;
    }

    method EraseRange(first: nat, last: nat) returns (next: nat)
      requires Valid() && first <= last <= |values|
      modifies this`values, this`buckets
      ensures next == first
      ensures Valid() && values == RangeErased(old(values), first, last)
      ensures multiset(values) == multiset(old(values)) - multiset(old(values)[first..last])
      ensures Model() == old(Model()) - Keys(old(values)[first..last])
    {
      hide Table.Valid, Filled, RangeErased, SwapRemove, ToMap, Reversed, Distinct, Keys;
      ghost var es, k: nat := values, 0;
      FilledNone(es, first);
      var firstToLast, lastToEnd := last - first, |values| - last;
      var mid := first + if firstToLast <= lastToEnd then firstToLast else lastToEnd;
      var idx := first;
      while idx != mid
        invariant idx == first + k <= mid && Valid()
        invariant values == Filled(es, first, k)
        decreases mid - idx
      {
        FilledStep(es, first, k);
        var _ := EraseAt(idx);
        idx, k := idx + 1, k + 1;
      }
      ghost var filled, n: nat := values, |values|;
      idx := last;
      assert filled[..n] == filled;
      while idx != mid
        invariant mid <= idx <= last && Valid()
        invariant n == |filled| - (last - idx) && (idx > mid ==> n == idx)
        invariant values == filled[..n]
      {
        idx := idx - 1;
        SwapRemoveLast(filled, n);
        var _ := EraseAt(idx);
        n := n - 1;
      }
      FilledCut(es, first, last, k);
      RangeMap(es, values, first, last);
      next := first;
    }

    /** `std::erase_if`; `tested` records the entries in the order in which the predicate saw them. */
    method EraseIf(pred: Entry<K, V> -> bool) returns (count: nat, ghost tested: seq<Entry<K, V>>)
      requires Valid()
      modifies this`values, this`buckets
      ensures Valid() && count == |old(values)| - |values|
      ensures tested == Reversed(old(values))
      ensures multiset(values) == Kept(old(values), pred)
      ensures Model() == map k | k in old(Model()) && !pred(Entry(k, old(Model())[k])) :: old(Model())[k]
    {
      hide Table.Valid, Scanned, Kept, ToMap, SwapRemove;
      ghost var es := values;
      tested := [];
      var oldSize := |values|;
      var idx: nat := oldSize;
      ScanStart(es, pred);
      while idx != 0
        invariant Valid() && Scanned(es, values, idx, pred, tested)
      {
        idx := idx - 1;
        ScanStep(es, values, idx, pred, tested);
        tested := tested + [values[idx]];
        if pred(values[idx]) {
          var _ := EraseAt(idx);
        }
      }
      ScanEnd(es, values, pred, tested);
      KeptMap(es, values, pred);
      count := oldSize - |values|;
    }

    // ----- replacing one key, or all entries

    method ReplaceKey(pos: nat, newKey: K) returns (r: nat, replaced: bool)
      requires Valid() && pos < |values|
      modifies this`values, this`buckets
      ensures Valid() && r < |values| && values[r].key == newKey
      ensures replaced <==> newKey !in old(Model())
      ensures !replaced ==> unchanged(this)
      ensures replaced ==> r == pos && values == old(values)[pos := Entry(newKey, old(values)[pos].value)]
      ensures replaced ==> Model() == (old(Model()) - {old(values)[pos].key})[newKey := old(values)[pos].value]
    {
      assert values[..|values|] == values;
      var found, word, idx := SearchKey(newKey, |values|);
      if found {
        r, replaced := buckets[idx].valueIdx, false;
        ToMapEntry(values, r);
      } else {
        RekeyMap(values, pos, newKey);
        Rekey(pos, newKey);
        r, replaced := pos, true;
      }
    }

    /** Overwrites the key, erases the old bucket, which still stands where the old key put it, and places a new one. */
    method Rekey(pos: nat, newKey: K)
      requires Indexed(|values|) && pos < |values|
      modifies this`values, this`buckets
      ensures Indexed(|values|) && values == old(values)[pos := Entry(newKey, old(values)[pos].value)]
    {
      ghost var tags, n := Tags(), |values|;
      var oldHome := hash(values[pos].key) / Pow2(shifts);
      values := values[pos := Entry(newKey, values[pos].value)];
      var idx := SeekValue(pos, oldHome, tags, n, -1);
      EraseAndShiftDown(idx, tags, n);
      TagsFitAll(values, hash, shifts);
      Reframe(buckets, tags, n, pos, Tags());
      var word;
      word, idx := NextWhileLess(newKey, n, pos);
      StoreAt(pos, word, idx, n);
    }

    /** Takes over a container of entries; of several entries with one key, one survives. */
    method Replace(container: seq<Entry<K, V>>)
      requires Valid() && |container| <= loadCap(MAX_BUCKETS) && |Keys(container)| <= MAX_ENTRIES
      modifies this
      ensures Valid() && Keys(values) == Keys(container) && multiset(values) <= multiset(container)
      ensures container != [] ==> values != [] && values[0] == container[0]
      ensures shifts <= old(shifts) && |container| <= maxCapacity
      ensures shifts == old(shifts) || loadCap(Pow2(64 - (shifts + 1))) < |container|
    {
      TakeOver(container);
      DedupStart(container);
      IndexUnique(container);
      DedupEnd(container, values);
    }

    method TakeOver(container: seq<Entry<K, V>>)
      requires Shaped() && |container| <= loadCap(MAX_BUCKETS)
      modifies this
      ensures Indexed(0) && values == container && |values| < |buckets|
      ensures shifts <= old(shifts) && |container| <= maxCapacity
      ensures shifts == old(shifts) || loadCap(Pow2(64 - (shifts + 1))) < |container|
    {
      hide Pow2, TagOf, Wf;
      var s := CalcShiftsForSize(|container|);
      EnoughBuckets(s);
      if s < shifts {
        shifts := s;
        AllocateBucketsFromShift();
      }
      buckets := seq(|buckets|, _ => EMPTY);
      values := container;
      FreshWf(buckets, values, hash, shifts);
    }

    lemma EnoughBuckets(s: nat)
      requires Shaped() && s <= 62
      ensures s < shifts ==> |buckets| <= Pow2(64 - s)
      ensures s >= shifts ==> Pow2(64 - s) <= |buckets|
    {
      if s < shifts {
        Pow2Monotone(64 - shifts, 64 - s);
      } else {
        Pow2Monotone(64 - s, 64 - shifts);
      }
    }

    /** Scans the values front to back; a duplicate is overwritten from the back and looked at again. */
    method IndexUnique(ghost container: seq<Entry<K, V>>)
      requires Indexed(0) && |values| < |buckets| && Deduping(container, values, 0)
      requires |Keys(container)| <= MAX_ENTRIES
      modifies this`values, this`buckets
      ensures Indexed(|values|) && Deduping(container, values, |values|)
    {
      hide Deduping, ToMap, SwapRemove, Keys, Wf, TagOf, Distinct;
      var v := 0;
      while v != |values|
        invariant v <= |values| < |buckets| && Indexed(v) && Deduping(container, values, v)
        decreases |values| - v
      {
        var found, word, idx := SearchKey(values[v].key, v);
        if found {
          DedupDrop(container, values, v, buckets[idx].valueIdx);
          DropDuplicate(v);
        } else {
          DedupKeep(container, values, v);
          PrefixBound(container, values, v + 1);
          LeaveOutLast(buckets, Tags(), v);
          StoreAt(v, word, idx, v + 1);
          v := v + 1;
        }
      }
    }

    /** Overwrites a value that is not indexed yet with the last one. */
    method DropDuplicate(v: nat)
      requires Indexed(v) && v < |values|
      modifies this`values
      ensures values == SwapRemove(old(values), v) && Indexed(v)
    {
      ghost var tags := Tags();
      if v != |values| - 1 {
        values := values[v := values[|values| - 1]];
      }
      values := values[..|values| - 1];
      TagsFitAll(values, hash, shifts);
      Reframe(buckets, tags, v, -1, Tags());
    }

    // ----- capacity

    method Clear()
      requires Valid()
      modifies this`values, this`buckets
      ensures Valid() && values == [] && Model() == map[] && |buckets| == old(|buckets|)
    {
      values := [];
      buckets := seq(|buckets|, _ => EMPTY);
      FreshWf(buckets, values, hash, shifts);
    }

    method Rehash(count: nat)
      requires Valid() && count <= loadCap(MAX_BUCKETS) && |values| <= loadCap(MAX_BUCKETS)
      modifies this`buckets, this`maxCapacity, this`shifts
      ensures Valid() && Model() == old(Model()) && count <= maxCapacity && |values| <= maxCapacity
      ensures shifts == 62 || loadCap(Pow2(64 - (shifts + 1))) < if count < |values| then |values| else count
      ensures shifts == old(shifts) ==> unchanged(this)
    {
      hide Pow2, TagOf, Wf, ToMap, Distinct;
      var s := CalcShiftsForSize(if count < |values| then |values| else count);
      if s != shifts {
        shifts := s;
        AllocateBucketsFromShift();
        ClearAndFillBucketsFromValues();
      }
    }

    method Reserve(capa: nat)
      requires Valid() && capa <= loadCap(MAX_BUCKETS) && |values| <= loadCap(MAX_BUCKETS)
      modifies this`buckets, this`maxCapacity, this`shifts
      ensures Valid() && Model() == old(Model()) && |buckets| >= old(|buckets|)
      ensures capa <= maxCapacity && |values| <= maxCapacity
      ensures shifts == old(shifts) || loadCap(Pow2(64 - (shifts + 1))) < if capa < |values| then |values| else capa
      ensures shifts == old(shifts) ==> unchanged(this)
    {
      hide Pow2, TagOf, Wf, ToMap, Distinct;
      var s := CalcShiftsForSize(if capa < |values| then |values| else capa);
      EnoughBuckets(s);
      if s < shifts {
        shifts := s;
        AllocateBucketsFromShift();
        ClearAndFillBucketsFromValues();
      }
    }

    // ----- comparison

    method Equals(other: Table<K, V>) returns (r: bool)
      requires Valid() && other.Valid()
      ensures r <==> Model() == other.Model()
    {
      if this == other {
        return true;
      }
      if |values| != |other.values| {
        ModelSize(values);
        ModelSize(other.values);
        return false;
      }
      for i := 0 to |other.values|
        invariant forall j | 0 <= j < i :: other.values[j].key in Model() && Model()[other.values[j].key] == other.values[j].value
      {
        ToMapEntry(other.values, i);
        var pos := DoFind(other.values[i].key);
        if pos == |values| || other.values[i].value != values[pos].value {
          return false;
        }
      }
      SubmapEqual(values, other.values);
      return true;
    }
  }

  lemma SwapRemoveTags<K, V>(es: seq<Entry<K, V>>, hash: K -> uint64, shifts: nat, r: nat)
    requires r < |es|
    ensures var es' := es[r := es[|es| - 1]];
      var tags' := TagsOf(es', hash, shifts);
      TagsOf(SwapRemove(es, r), hash, shifts) == tags'[r := tags'[|es| - 1]][..|es| - 1]
  {
  }

  /** Overwriting the entry that is left out with the last one does not matter to the buckets. */
  lemma Overwritten<K, V>(b: seq<Bucket>, es: seq<Entry<K, V>>, hash: K -> uint64, shifts: nat, r: nat)
    requires r < |es| - 1 && shifts <= 64 && |b| == Pow2(64 - shifts)
    requires Wf(b, TagsOf(es, hash, shifts), |es|, r)
    ensures var es' := es[r := es[|es| - 1]];
      && Wf(b, TagsOf(es', hash, shifts), |es|, r) && Live(|es| - 1, |es|, r)
      && TagsOf(es', hash, shifts)[|es| - 1].home == hash(es'[r].key) / Pow2(shifts)
  {
    var es' := es[r := es[|es| - 1]];
    TagsFitAll(es', hash, shifts);
    Reframe(b, TagsOf(es, hash, shifts), |es|, r, TagsOf(es', hash, shifts));
  }

  lemma MovedIn<K, V>(b: seq<Bucket>, es: seq<Entry<K, V>>, hash: K -> uint64, shifts: nat, r: nat, idx: nat)
    requires r < |es| - 1 && |es| < |b| && Holds(b, idx, |es| - 1)
    requires Wf(b, TagsOf(es[r := es[|es| - 1]], hash, shifts), |es|, r)
    ensures Wf(b[idx := Bucket(b[idx].word, r)], TagsOf(SwapRemove(es, r), hash, shifts), |es| - 1, -1)
    ensures es[r := es[|es| - 1]][..|es| - 1] == SwapRemove(es, r)
  {
    hide Wf, TagOf;
    Retarget(b, TagsOf(es[r := es[|es| - 1]], hash, shifts), idx, r);
    SwapRemoveTags(es, hash, shifts, r);
  }

  lemma GrowsByOne(shifts: nat)
    requires 32 <= shifts <= 62 && Pow2(64 - shifts) < MAX_BUCKETS
    ensures shifts > 32 && Pow2(64 - (shifts - 1)) == 2 * Pow2(64 - shifts)
  {
    Pow2Values();
  }

  lemma TagsFitAll<K, V>(es: seq<Entry<K, V>>, hash: K -> uint64, shifts: nat)
    requires shifts <= 64
    ensures TagsFit(TagsOf(es, hash, shifts), Pow2(64 - shifts))
  {
    forall i | 0 <= i < |es| ensures TagOf(hash(es[i].key), shifts).home < Pow2(64 - shifts) {
      ShiftBound(hash(es[i].key), 64 - shifts);
    }
  }

  lemma FreshWf<K, V>(b: seq<Bucket>, es: seq<Entry<K, V>>, hash: K -> uint64, shifts: nat)
    requires shifts <= 64 && |b| == Pow2(64 - shifts) && 4 <= |b|
    requires forall i | 0 <= i < |b| :: b[i] == EMPTY
    ensures Wf(b, TagsOf(es, hash, shifts), 0, -1)
  {
    TagsFitAll(es, hash, shifts);
  }
}
