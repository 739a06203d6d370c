/**
  The bucket array of `ankerl::unordered_dense`'s table, on values.

  A bucket packs a probe distance (plus one) and an eight-bit fingerprint in one
  32-bit word, next to the index of the value it stands for.  Keys do not occur
  here: what the array needs to know of value `v` is its tag, that is the home
  bucket and the fingerprint that the hash of its key selects.
*/
module DenseIndex {
  import opened Collections
  import opened Words

  const DIST_INC: uint32 := 0x100

  const MAX_BUCKETS: nat := WORD32

  // The distances in an index of so many values, and those of the probes in it, have room in a word's upper 24 bits.
  const MAX_ENTRIES: nat := 0xFF_FFFE

  datatype Bucket = Bucket(word: uint32, valueIdx: uint32)

  datatype Tag = Tag(home: nat, mark: nat)

  const EMPTY := Bucket(0, 0)

  function DistInc(w: uint32): uint32 {
    if w + DIST_INC < WORD32 then w + DIST_INC else w + DIST_INC - WORD32
  }

  function DistDec(w: uint32): uint32 {
    if w >= DIST_INC then w - DIST_INC else w + WORD32 - DIST_INC
  }

  // ----- the ring of bucket positions

  function Next(i: nat, n: nat): nat
    requires i < n
  {
    if i + 1 == n then 0 else i + 1
  }

  /** How many steps of `Next` lead from `a` to `b`. */
  function Gap(a: nat, b: nat, n: nat): (d: nat)
    requires a < n && b < n
    ensures d < n
  {
    if a <= b then b - a else b + n - a
  }

  /** The position `k` steps before `q`. */
  function Back(q: nat, k: nat, n: nat): (p: nat)
    requires q < n && k < n
    ensures p < n && Gap(p, q, n) == k
  {
    if k <= q then q - k else q + n - k
  }

  // ----- the invariant

  predicate TagsFit(tags: seq<Tag>, n: nat) {
    forall v | 0 <= v < |tags| :: tags[v].home < n && tags[v].mark < 256
  }

  /** The word a bucket at position `i` must hold for a value tagged `t`. */
  function WordAt(t: Tag, i: nat, n: nat): (w: nat)
    requires t.home < n && i < n
  {
    (Gap(t.home, i, n) + 1) * 256 + t.mark
  }

  /** Bucket `i` is occupied by value `v`. */
  predicate Holds(b: seq<Bucket>, i: nat, v: nat) {
    i < |b| && b[i].word != 0 && b[i].valueIdx == v
  }

  /** The Robin Hood order between a bucket and its successor. */
  predicate Link(b: seq<Bucket>, i: nat)
    requires i < |b|
  {
    var w, s := b[i].word, b[Next(i, |b|)].word;
    if w == 0 then s < 512 else 256 <= w && s <= w + 256
  }

  ghost predicate Ordered(b: seq<Bucket>) {
    forall i | 0 <= i < |b| :: Link(b, i)
  }

  /** The values the array stands for: the first `k`, one of them possibly left out. */
  predicate Live(v: nat, k: nat, gap: int) {
    v < k && v != gap
  }

  function LiveCount(k: nat, gap: int): nat {
    if 0 <= gap < k then k - 1 else k
  }

  /** Bucket `i`, if occupied, holds a live value at its true distance. */
  predicate Placed(b: seq<Bucket>, tags: seq<Tag>, k: nat, gap: int, i: nat)
    requires i < |b| && k <= |tags| && TagsFit(tags, |b|)
  {
    b[i].word != 0 ==>
      && Live(b[i].valueIdx, k, gap)
      && b[i].word == WordAt(tags[b[i].valueIdx], i, |b|)
  }

  /** Position `hole` aside, the occupied buckets are exactly those of the live values, one each. */
  ghost predicate Indexes(b: seq<Bucket>, tags: seq<Tag>, k: nat, gap: int, hole: int) {
    && TagsFit(tags, |b|)
    && k <= |tags|
    && (forall i | 0 <= i < |b| && i != hole :: Placed(b, tags, k, gap, i))
    && (forall i, j, v | Holds(b, i, v) && Holds(b, j, v) && i != hole && j != hole :: i == j)
    && (forall v | Live(v, k, gap) :: exists i :: Holds(b, i, v) && i != hole)
  }

  predicate IsEmpty(b: seq<Bucket>, e: nat) {
    e < |b| && b[e].word == 0
  }

  /** A position that a removal is about to free, if one is under way. */
  datatype Hole = NoHole | Hole(at: nat)

  /** The whole array: sizes, order, and a one-to-one correspondence with the live values. */
  ghost predicate Wf(b: seq<Bucket>, tags: seq<Tag>, k: nat, gap: int, hole: Hole := NoHole) {
    match hole
    case NoHole =>
      4 <= |b| && LiveCount(k, gap) <= MAX_ENTRIES && Ordered(b) && Indexes(b, tags, k, gap, -1)
    case Hole(at) =>
      && 4 <= |b| && LiveCount(k, gap) <= MAX_ENTRIES && Ordered(b) && Indexes(b, tags, k, gap, at)
      && at < |b| && b[at].word != 0
  }

  // ----- an empty bucket always exists

  /** Fewer live values than buckets. */
  predicate Roomy(b: seq<Bucket>, k: nat, gap: int) {
    k < |b| || (k == |b| && 0 <= gap < k)
  }

  /** The values of the `c` buckets that end at `q`. */
  function Occupants(b: seq<Bucket>, q: nat, c: nat): (s: set<nat>)
    requires q < |b| && c <= |b|
  {
    set j | 0 <= j < c :: b[Back(q, j, |b|)].valueIdx
  }

  ghost predicate Occupied(b: seq<Bucket>, q: nat, c: nat)
    requires q < |b| && c <= |b|
  {
    forall j | 0 <= j < c :: b[Back(q, j, |b|)].word != 0
  }

  lemma FreshOccupant(b: seq<Bucket>, tags: seq<Tag>, k: nat, gap: int, q: nat, c: nat)
    requires Indexes(b, tags, k, gap, -1) && q < |b| && c < |b| && Occupied(b, q, c + 1)
    ensures b[Back(q, c, |b|)].valueIdx !in Occupants(b, q, c)
  {
    var p := Back(q, c, |b|);
    if b[p].valueIdx in Occupants(b, q, c) {
      var j :| 0 <= j < c && b[Back(q, j, |b|)].valueIdx == b[p].valueIdx;
      assert Holds(b, Back(q, j, |b|), b[p].valueIdx) && Holds(b, p, b[p].valueIdx);
    }
  }

  lemma {:induction false} OccupantCount(b: seq<Bucket>, tags: seq<Tag>, k: nat, gap: int, q: nat, c: nat)
    requires Indexes(b, tags, k, gap, -1) && q < |b| && c <= |b| && Occupied(b, q, c)
    ensures |Occupants(b, q, c)| == c
  {
    hide Indexes, Back;
    if c == 0 {
      assert Occupants(b, q, c) == {};
    } else {
      OccupantCount(b, tags, k, gap, q, c - 1);
      FreshOccupant(b, tags, k, gap, q, c - 1);
      assert Occupants(b, q, c) == Occupants(b, q, c - 1) + {b[Back(q, c - 1, |b|)].valueIdx};
    }
  }

  /** No more buckets in a row are occupied than there are live values. */
  lemma RunBound(b: seq<Bucket>, tags: seq<Tag>, k: nat, gap: int, q: nat, c: nat)
    requires Indexes(b, tags, k, gap, -1) && q < |b| && c <= |b| && Occupied(b, q, c)
    ensures c <= LiveCount(k, gap)
  {
    var s := Occupants(b, q, c);
    OccupantCount(b, tags, k, gap, q, c);
    forall v | v in s ensures Live(v, k, gap) {
      var j :| 0 <= j < c && b[Back(q, j, |b|)].valueIdx == v;
      assert Placed(b, tags, k, gap, Back(q, j, |b|));
    }
    if 0 <= gap < k {
      assert gap !in s && |s + {gap}| == c + 1;
      BelowCount(s + {gap}, k);
    } else {
      BelowCount(s, k);
    }
  }

  lemma HasEmpty(b: seq<Bucket>, tags: seq<Tag>, k: nat, gap: int) returns (e: nat)
    requires Indexes(b, tags, k, gap, -1) && Roomy(b, k, gap)
    ensures IsEmpty(b, e)
  {
    if i :| 0 <= i < |b| && b[i].word == 0 {
      e := i;
    } else {
      RunBound(b, tags, k, gap, 0, |b|);
      assert false;
    }
  }

  // ----- probing

  /** Walking back from an occupied bucket, words fall by at most one distance step a bucket. */
  lemma {:induction false} Dominates(b: seq<Bucket>, q: nat, k: nat)
    requires Ordered(b) && q < |b| && k < |b|
    requires b[q].word >= 256 * (k + 1)
    ensures b[Back(q, k, |b|)].word >= b[q].word - 256 * k
  {
    if k == 0 {
    } else {
      Dominates(b, q, k - 1);
      assert Link(b, Back(q, k, |b|));
    }
  }

  /** A probe that a bucket does not stop has met no empty bucket on its way from home. */
  lemma BeforeEmpty(b: seq<Bucket>, t: Tag, idx: nat, e: nat)
    requires Ordered(b) && t.home < |b| && idx < |b| && IsEmpty(b, e)
    requires WordAt(t, idx, |b|) <= b[idx].word
    ensures Gap(t.home, idx, |b|) < Gap(t.home, e, |b|)
  {
    var d, de := Gap(t.home, idx, |b|), Gap(t.home, e, |b|);
    if de <= d {
      Dominates(b, idx, d - de);
      assert false;
    }
  }

  /** A probe that a bucket does not stop is no further from home than there are live values. */
  lemma ProbeBound(b: seq<Bucket>, tags: seq<Tag>, k: nat, gap: int, t: Tag, idx: nat)
    requires Ordered(b) && Indexes(b, tags, k, gap, -1) && t.home < |b| && idx < |b|
    requires WordAt(t, idx, |b|) <= b[idx].word
    ensures Gap(t.home, idx, |b|) + 1 <= LiveCount(k, gap)
  {
    var d := Gap(t.home, idx, |b|);
    forall j | 0 <= j < d + 1 ensures b[Back(idx, j, |b|)].word != 0 {
      Dominates(b, idx, j);
    }
    RunBound(b, tags, k, gap, idx, d + 1);
  }

  /** The word after the next distance step has room for the distance. */
  ghost predicate NextFits(b: seq<Bucket>, tags: seq<Tag>, k: nat, t: Tag, idx: nat) {
    (&& 4 <= |b| && Ordered(b) && Indexes(b, tags, k, -1, -1) && t.home < |b| && t.mark < 256 && idx < |b|
     && WordAt(t, idx, |b|) <= b[idx].word)
    ==> WordAt(t, idx, |b|) + DIST_INC < WORD32
  }

  /** `2^24 - 1` values at home in bucket zero, the others each in a home of their own, and one empty bucket. */
  function LongRun(k: nat): seq<Bucket>
    requires MAX_ENTRIES < k < WORD32
  {
    seq(k + 1, i requires 0 <= i < k + 1 =>
      if i <= MAX_ENTRIES then Bucket((i + 1) * 256, i) else if i < k then Bucket(256, i) else EMPTY)
  }

  function LongRunTags(k: nat): seq<Tag> {
    seq(k, i requires 0 <= i < k => if i <= MAX_ENTRIES then Tag(0, 0) else Tag(i, 0))
  }

  lemma LongRunOrdered(k: nat)
    requires MAX_ENTRIES < k < WORD32
    ensures Ordered(LongRun(k))
  {
    var b := LongRun(k);
    forall i | 0 <= i < |b| ensures Link(b, i) {
    }
  }

  lemma LongRunIndexes(k: nat)
    requires MAX_ENTRIES < k < WORD32
    ensures Indexes(LongRun(k), LongRunTags(k), k, -1, -1)
  {
    var b, tags := LongRun(k), LongRunTags(k);
    forall i | 0 <= i < |b| ensures Placed(b, tags, k, -1, i) {
    }
    forall v | Live(v, k, -1) ensures exists i :: Holds(b, i, v) && i != -1 {
      assert Holds(b, v, v);
    }
  }

  /** Every probe in every index of `k` values, of whatever size, can take its next step exactly if `k` is this small. */
  lemma DistanceRoom(k: nat)
    requires k < WORD32
    ensures (forall b: seq<Bucket>, tags: seq<Tag>, t: Tag, idx: nat :: NextFits(b, tags, k, t, idx))
       <==> k <= MAX_ENTRIES
  {
    if k <= MAX_ENTRIES {
      forall b: seq<Bucket>, tags: seq<Tag>, t: Tag, idx: nat ensures NextFits(b, tags, k, t, idx) {
        if Ordered(b) && Indexes(b, tags, k, -1, -1) && t.home < |b| && idx < |b| && WordAt(t, idx, |b|) <= b[idx].word {
          ProbeBound(b, tags, k, -1, t, idx);
        }
      }
    } else {
      LongRunOrdered(k);
      LongRunIndexes(k);
      assert !NextFits(LongRun(k), LongRunTags(k), k, Tag(0, 0), MAX_ENTRIES);
    }
  }

  /** Where it cannot, the step sets the distance back to nothing. */
  lemma DistanceLost(t: Tag, idx: nat, n: nat)
    requires t.home < n && t.mark < 256 && idx < n && WordAt(t, idx, n) < WORD32 <= WordAt(t, idx, n) + DIST_INC
    ensures DistInc(WordAt(t, idx, n)) == t.mark
  {
  }

  /** A probe for the tag of a value that bucket `q` holds is not stopped before `q`. */
  lemma NotStopped(b: seq<Bucket>, t: Tag, idx: nat, q: nat)
    requires Ordered(b) && t.home < |b| && idx < |b| && q < |b|
    requires b[q].word == WordAt(t, q, |b|)
    requires Gap(t.home, idx, |b|) <= Gap(t.home, q, |b|)
    ensures b[idx].word >= WordAt(t, idx, |b|)
  {
    var k := Gap(t.home, q, |b|) - Gap(t.home, idx, |b|);
    Dominates(b, q, k);
    assert Back(q, k, |b|) == idx;
  }

  // ----- one step of an insertion

  /** Bucket `p` may be stored at `place`: it has its true word there and keeps the order. */
  predicate Pending(b: seq<Bucket>, tags: seq<Tag>, p: Bucket, place: nat)
    requires place < |b| && |b| >= 4 && TagsFit(tags, |b|)
  {
    var prev := b[Back(place, 1, |b|)].word;
    && p.valueIdx < |tags|
    && p.word == WordAt(tags[p.valueIdx], place, |b|)
    && b[place].word <= p.word
    && (if prev == 0 then p.word < 512 else p.word <= prev + 256)
  }

  lemma StoreOrdered(b: seq<Bucket>, tags: seq<Tag>, p: Bucket, place: nat)
    requires 4 <= |b| && Ordered(b) && TagsFit(tags, |b|) && place < |b| && Pending(b, tags, p, place)
    ensures Ordered(b[place := p])
  {
    var b' := b[place := p];
    forall i | 0 <= i < |b'| ensures Link(b', i) {
      assert Link(b, i);
      if Next(i, |b|) == place {
        assert Back(place, 1, |b|) == i;
      }
    }
  }

  lemma StoreIndexes(b: seq<Bucket>, tags: seq<Tag>, k: nat, p: Bucket, place: nat, gap': int)
    requires 4 <= |b| && Indexes(b, tags, k, p.valueIdx, -1) && place < |b| && Pending(b, tags, p, place)
    requires p.valueIdx < k
    requires gap' == if b[place].word == 0 then -1 else b[place].valueIdx
    ensures Indexes(b[place := p], tags, k, gap', -1)
  {
    var b', q, v0 := b[place := p], b[place], p.valueIdx;
    assert Placed(b, tags, k, v0, place);
    forall i | 0 <= i < |b'| ensures Placed(b', tags, k, gap', i) {
      assert Placed(b, tags, k, v0, i);
      if i != place && b[i].word != 0 && q.word != 0 && b[i].valueIdx == q.valueIdx {
        assert Holds(b, i, q.valueIdx) && Holds(b, place, q.valueIdx);
      }
    }
    forall i, j, v | Holds(b', i, v) && Holds(b', j, v) ensures i == j {
      assert Placed(b, tags, k, v0, i) && Placed(b, tags, k, v0, j);
      if i != place && j != place {
        assert Holds(b, i, v) && Holds(b, j, v);
      }
    }
    forall v | Live(v, k, gap') ensures exists i :: Holds(b', i, v) && i != -1 {
      if v == v0 {
        assert Holds(b', place, v);
      } else {
        assert Live(v, k, v0);
        var i :| Holds(b, i, v) && i != -1;
        assert Holds(b', i, v);
      }
    }
  }

  /** Exchanging the pending bucket with an occupied one moves the obligation one position on. */
  lemma SwapUp(b: seq<Bucket>, tags: seq<Tag>, k: nat, p: Bucket, place: nat, e: nat)
    requires Wf(b, tags, k, p.valueIdx) && place < |b| && Pending(b, tags, p, place)
    requires p.valueIdx < k && b[place].word != 0 && IsEmpty(b, e)
    ensures var b', q := b[place := p], b[place];
      && q.valueIdx < k && Wf(b', tags, k, q.valueIdx) && IsEmpty(b', e)
      && DistInc(q.word) == q.word + 256
      && Pending(b', tags, Bucket(DistInc(q.word), q.valueIdx), Next(place, |b|))
      && Gap(Next(place, |b|), e, |b|) < Gap(place, e, |b|)
  {
    StoreOrdered(b, tags, p, place);
    StoreIndexes(b, tags, k, p, place, b[place].valueIdx);
    assert Placed(b, tags, k, p.valueIdx, place);
    assert Link(b, place);
    var t := tags[b[place].valueIdx];
    BeforeEmpty(b, t, place, e);
    ProbeBound(b, tags, k, p.valueIdx, t, place);
    assert Gap(t.home, Next(place, |b|), |b|) == Gap(t.home, place, |b|) + 1;
  }

  /** Storing the pending bucket in an empty position completes the index. */
  lemma Settle(b: seq<Bucket>, tags: seq<Tag>, k: nat, p: Bucket, place: nat)
    requires Wf(b, tags, k, p.valueIdx) && place < |b| && Pending(b, tags, p, place)
    requires p.valueIdx < k <= MAX_ENTRIES && b[place].word == 0
    ensures Wf(b[place := p], tags, k, -1)
  {
    StoreOrdered(b, tags, p, place);
    StoreIndexes(b, tags, k, p, place, -1);
  }

  // ----- one step of a removal

  /** Ignoring an occupied bucket takes its value out of the index. */
  lemma Ignore(b: seq<Bucket>, tags: seq<Tag>, k: nat, q: nat)
    requires Wf(b, tags, k, -1) && q < |b| && b[q].word != 0
    ensures b[q].valueIdx < k && Wf(b, tags, k, b[q].valueIdx, Hole(q))
  {
    var u := b[q].valueIdx;
    assert Placed(b, tags, k, -1, q) && Holds(b, q, u);
    forall i | 0 <= i < |b| ensures Placed(b, tags, k, -1, i) && (i != q ==> Placed(b, tags, k, u, i)) {
      assert Placed(b, tags, k, -1, i);
      if b[i].word != 0 && b[i].valueIdx == u {
        assert Holds(b, i, u);
      }
    }
    forall v | Live(v, k, u) ensures exists i :: Holds(b, i, v) && i != q {
      assert Live(v, k, -1);
      var i :| Holds(b, i, v) && i != -1;
    }
  }

  /** Copying the successor of the ignored bucket one position back. */
  lemma SlideDown(b: seq<Bucket>, tags: seq<Tag>, k: nat, gap: int, hole: nat)
    requires Wf(b, tags, k, gap, Hole(hole))
    requires b[Next(hole, |b|)].word >= 512
    ensures var next := Next(hole, |b|);
      Wf(b[hole := Bucket(DistDec(b[next].word), b[next].valueIdx)], tags, k, gap, Hole(next))
  {
    var next := Next(hole, |b|);
    var s := b[next];
    var b' := b[hole := Bucket(DistDec(s.word), s.valueIdx)];
    assert Placed(b, tags, k, gap, next);
    forall i | 0 <= i < |b'| ensures Link(b', i) {
      assert Link(b, i) && Link(b, hole);
    }
    forall i | 0 <= i < |b'| && i != next ensures Placed(b', tags, k, gap, i) {
      assert i != hole ==> Placed(b, tags, k, gap, i);
    }
    forall i, j, v | Holds(b', i, v) && Holds(b', j, v) && i != next && j != next ensures i == j {
      var i', j' := if i == hole then next else i, if j == hole then next else j;
      assert Holds(b, i', v) && Holds(b, j', v);
    }
    forall v | Live(v, k, gap) ensures exists i :: Holds(b', i, v) && i != next {
      var i :| Holds(b, i, v) && i != hole;
      assert Holds(b', if i == next then hole else i, v);
    }
  }

  /** Clearing the ignored bucket once its successor is empty or at home. */
  lemma Vacate(b: seq<Bucket>, tags: seq<Tag>, k: nat, gap: int, hole: nat)
    requires Wf(b, tags, k, gap, Hole(hole))
    requires b[Next(hole, |b|)].word < 512
    ensures Wf(b[hole := EMPTY], tags, k, gap)
  {
    var b' := b[hole := EMPTY];
    forall i | 0 <= i < |b'| ensures Link(b', i) {
      assert Link(b, i);
    }
    forall i | 0 <= i < |b'| ensures Placed(b', tags, k, gap, i) {
      assert i != hole ==> Placed(b, tags, k, gap, i);
    }
    forall i, j, v | Holds(b', i, v) && Holds(b', j, v) ensures i == j {
      assert Holds(b, i, v) && Holds(b, j, v);
    }
    forall v | Live(v, k, gap) ensures exists i :: Holds(b', i, v) && i != -1 {
      var i :| Holds(b, i, v) && i != hole;
      assert Holds(b', i, v);
    }
  }

  // ----- changes to the dense values

  /** The moved last value takes over index `r`: retarget its bucket and drop the last tag. */
  lemma Retarget(b: seq<Bucket>, tags: seq<Tag>, q: nat, r: nat)
    requires r < |tags| - 1 && r < WORD32
    requires Wf(b, tags, |tags|, r) && Holds(b, q, |tags| - 1)
    ensures Wf(b[q := Bucket(b[q].word, r)], tags[r := tags[|tags| - 1]][..|tags| - 1], |tags| - 1, -1)
  {
    var last := |tags| - 1;
    var b', tags' := b[q := Bucket(b[q].word, r)], tags[r := tags[last]][..last];
    forall i | 0 <= i < |b'| ensures Link(b', i) {
      assert Link(b, i);
    }
    forall i | 0 <= i < |b'| ensures Placed(b', tags', last, -1, i) {
      assert Placed(b, tags, |tags|, r, i);
      if i != q && b[i].word != 0 && b[i].valueIdx == last {
        assert Holds(b, i, last);
      }
    }
    forall i, j, v | Holds(b', i, v) && Holds(b', j, v) ensures i == j {
      assert Placed(b, tags, |tags|, r, i) && Placed(b, tags, |tags|, r, j);
      if i != q && j != q {
        assert Holds(b, i, v) && Holds(b, j, v);
      }
    }
    forall v | Live(v, last, -1) ensures exists i :: Holds(b', i, v) && i != -1 {
      if v == r {
        assert Holds(b', q, r);
      } else {
        assert Live(v, |tags|, r);
        var i :| Holds(b, i, v) && i != -1;
        assert Holds(b', i, v);
      }
    }
  }

  /** Tags of values that are not live may change freely. */
  lemma Reframe(b: seq<Bucket>, tags: seq<Tag>, k: nat, gap: int, tags': seq<Tag>)
    requires Wf(b, tags, k, gap) && TagsFit(tags', |b|) && k <= |tags'|
    requires forall v: nat | Live(v, k, gap) :: tags'[v] == tags[v]
    ensures Wf(b, tags', k, gap)
  {
    forall i | 0 <= i < |b| ensures Placed(b, tags', k, gap, i) {
      assert Placed(b, tags, k, gap, i);
    }
  }

  /** The first `k` values, or one more with the last left out: the same live values. */
  lemma LeaveOutLast(b: seq<Bucket>, tags: seq<Tag>, k: nat)
    requires k < |tags|
    ensures Wf(b, tags, k, -1) <==> Wf(b, tags, k + 1, k)
  {
    SameLive(b, tags, k, -1, k + 1, k);
    SameLive(b, tags, k + 1, k, k, -1);
  }

  lemma SameLive(b: seq<Bucket>, tags: seq<Tag>, k: nat, gap: int, k': nat, gap': int)
    requires k <= |tags| && k' <= |tags|
    requires forall v: nat :: Live(v, k, gap) <==> Live(v, k', gap')
    requires LiveCount(k, gap) == LiveCount(k', gap')
    ensures Wf(b, tags, k, gap) ==> Wf(b, tags, k', gap')
  {
    if Wf(b, tags, k, gap) {
      forall i | 0 <= i < |b| ensures Placed(b, tags, k', gap', i) {
        assert Placed(b, tags, k, gap, i);
      }
    }
  }

  // ----- one step of a probe

  /** A probe for tag `t` at `idx` carries the word a bucket of that tag would have there. */
  predicate Standing(b: seq<Bucket>, t: Tag, idx: nat, word: nat) {
    && 4 <= |b| && t.home < |b| && t.mark < 256 && idx < |b|
    && word == WordAt(t, idx, |b|)
  }

  /** Moreover it was not stopped one position before. */
  predicate Probing(b: seq<Bucket>, t: Tag, idx: nat, word: nat) {
    && Standing(b, t, idx, word)
    && (Gap(t.home, idx, |b|) > 0 ==> b[Back(idx, 1, |b|)].word >= word - 256)
  }

  lemma ProbeStart(b: seq<Bucket>, t: Tag)
    requires 4 <= |b| && t.home < |b| && t.mark < 256
    ensures Probing(b, t, t.home, 256 + t.mark)
  {
  }

  lemma Advance(b: seq<Bucket>, tags: seq<Tag>, k: nat, gap: int, t: Tag, idx: nat, word: uint32)
    requires Wf(b, tags, k, gap) && Roomy(b, k, gap)
    requires Standing(b, t, idx, word) && word <= b[idx].word
    ensures Gap(t.home, Next(idx, |b|), |b|) == Gap(t.home, idx, |b|) + 1
    ensures Probing(b, t, Next(idx, |b|), DistInc(word))
  {
    var e := HasEmpty(b, tags, k, gap);
    BeforeEmpty(b, t, idx, e);
    ProbeBound(b, tags, k, gap, t, idx);
  }

  /** Where a probe is stopped, a bucket of its tag may be stored. */
  lemma StoppedPending(b: seq<Bucket>, tags: seq<Tag>, k: nat, gap: int, v: nat, idx: nat, word: uint32)
    requires Wf(b, tags, k, gap) && v < |tags| && v < WORD32 && Probing(b, tags[v], idx, word)
    requires b[idx].word <= word
    ensures Pending(b, tags, Bucket(word, v), idx)
  {
    assert Link(b, Back(idx, 1, |b|));
  }

  // ----- looking for the bucket of a value

  /** From its home bucket on, the bucket of a live value is the first that carries its index. */
  lemma Seek(b: seq<Bucket>, tags: seq<Tag>, k: nat, gap: int, v: nat, q: nat, idx: nat)
    requires Wf(b, tags, k, gap) && Holds(b, q, v) && idx < |b|
    requires v < |tags| && tags[v].home < |b| && Gap(tags[v].home, idx, |b|) <= Gap(tags[v].home, q, |b|)
    ensures b[idx].valueIdx == v ==> Holds(b, idx, v)
    ensures b[idx].valueIdx != v ==>
      Gap(tags[v].home, idx, |b|) < Gap(tags[v].home, Next(idx, |b|), |b|) <= Gap(tags[v].home, q, |b|)
  {
    assert Placed(b, tags, k, gap, q);
    NotStopped(b, tags[v], idx, q);
  }
}
