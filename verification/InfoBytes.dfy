/**
  The info bytes of `robin_hood`'s table, on values.

  One byte per slot mixes the distance from home with hash bits; zero means
  empty.  There is no wrap-around: slots run from the buckets into a bounded
  overflow buffer, closed by a sentinel byte and seven bytes of padding.
*/
module InfoBytes {
  import opened Words

  /** What the hash of a slot's key selects: its home bucket and five info bits. */
  datatype Tag = Tag(home: nat, bits: nat)

  /** With the increment two, the distances that fit into a byte. */
  const REACH: nat := 127

  type Shift = s: nat | s <= 4

  /** `mInfoInc`, the distance step that goes with a hash shift. */
  function Inc(shift: Shift): (inc: nat)
    ensures 2 <= inc <= 32
  {
    match shift case 0 => 32 case 1 => 16 case 2 => 8 case 3 => 4 case _ => 2
  }

  /** Shifting the info bits right by `shift` divides by this. */
  function Unit(shift: Shift): (unit: nat)
    ensures unit * Inc(shift) == 32
  {
    match shift case 0 => 1 case 1 => 2 case 2 => 4 case 3 => 8 case _ => 16
  }

  lemma ShiftByUnit(x: nat, shift: Shift)
    ensures Shr(x, shift) == x / Unit(shift)
  {
    match shift
    case 0 =>
    case 1 =>
    case 2 => assert Shr(x, 2) == Shr(x / 2, 1);
    case 3 => assert Shr(x, 3) == Shr(x / 2, 2) == Shr(x / 2 / 2, 1);
    case _ => assert Shr(x, 4) == Shr(x / 2, 3) == Shr(x / 2 / 2, 2) == Shr(x / 2 / 2 / 2, 1);
  }

  /** The info value of tag `t` at slot `i`; a byte only as long as it is below 256. */
  function InfoAt(t: Tag, i: nat, shift: Shift): (w: nat)
    requires t.home <= i
  {
    Inc(shift) * (i - t.home + 1) + t.bits / Unit(shift)
  }

  lemma InfoStep(t: Tag, i: nat, shift: Shift)
    requires t.home <= i
    ensures InfoAt(t, i + 1, shift) == InfoAt(t, i, shift) + Inc(shift)
  {
    assert Inc(shift) * (i - t.home + 2) == Inc(shift) * (i - t.home + 1) + Inc(shift);
  }

  /** Below twice the increment means at home, and the value bounds the distance. */
  lemma InfoRange(t: Tag, i: nat, shift: Shift)
    requires t.home <= i && t.bits < 32
    ensures t.bits / Unit(shift) < Inc(shift)
    ensures InfoAt(t, i, shift) >= Inc(shift) * (i - t.home + 1) >= 2 * (i - t.home + 1)
    ensures InfoAt(t, i, shift) < 2 * Inc(shift) <==> i == t.home
  {
    match shift case 0 => case 1 => case 2 => case 3 => case _ =>
  }

  lemma InfoHalve(t: Tag, i: nat, shift: Shift)
    requires t.home <= i && shift < 4
    ensures InfoAt(t, i, shift) / 2 == InfoAt(t, i, shift + 1)
  {
    match shift case 0 => case 1 => case 2 => case _ =>
  }

  /** The order between a slot and its successor. */
  predicate Link(info: seq<uint8>, shift: Shift, i: nat)
    requires i + 1 < |info|
  {
    if info[i] == 0 then info[i + 1] < 2 * Inc(shift)
    else info[i] >= Inc(shift) && info[i + 1] <= info[i] + Inc(shift)
  }

  /** An occupied slot carries the info value of its tag, unreduced. */
  predicate Placed(info: seq<uint8>, tags: seq<Tag>, shift: Shift, n: nat, i: nat)
    requires i < |info| && i < |tags|
  {
    info[i] != 0 ==>
      && tags[i].home < n && tags[i].home <= i && tags[i].bits < 32
      && info[i] == InfoAt(tags[i], i, shift)
  }

  /** A slot that a removal is about to free, if one is under way. */
  datatype Hole = NoHole | Hole(at: nat)

  /** Info bytes for `|tags|` slots over `n` buckets. */
  ghost predicate Wf(info: seq<uint8>, tags: seq<Tag>, shift: Shift, n: nat, hole: Hole := NoHole) {
    match hole
    case NoHole =>
      && Closed(info, |tags|) && 1 <= n <= |tags|
      && (forall i | 0 <= i < |tags| :: Link(info, shift, i))
      && (forall i | 0 <= i < |tags| :: Placed(info, tags, shift, n, i))
    case Hole(at) =>
      && Closed(info, |tags|) && 1 <= n <= |tags| && at < |tags| && info[at] != 0
      && (forall i | 0 <= i < |tags| :: Link(info, shift, i))
      && (forall i | 0 <= i < |tags| && i != at :: Placed(info, tags, shift, n, i))
  }

  /** Behind the slots stand the sentinel and the padding. */
  predicate Closed(info: seq<uint8>, slots: nat) {
    && |info| == slots + 8
    && info[slots] == 1
    && forall i | slots < i < |info| :: info[i] == 0
  }

  // ----- walking back along a run

  lemma {:induction false} Dominates(info: seq<uint8>, tags: seq<Tag>, shift: Shift, n: nat, q: nat, k: nat)
    requires Wf(info, tags, shift, n) && k <= q < |tags|
    requires info[q] >= Inc(shift) * (k + 1)
    ensures info[q - k] >= info[q] - Inc(shift) * k && info[q - k] != 0
  {
    if k > 0 {
      assert Inc(shift) * (k + 1) == Inc(shift) * k + Inc(shift);
      assert Inc(shift) * k == Inc(shift) * (k - 1) + Inc(shift) >= Inc(shift);
      Dominates(info, tags, shift, n, q, k - 1);
      assert Link(info, shift, q - k);
    }
  }

  /** From home to an occupied slot there is no empty one. */
  lemma RunOccupied(info: seq<uint8>, tags: seq<Tag>, shift: Shift, n: nat, q: nat, i: nat)
    requires Wf(info, tags, shift, n) && q < |tags| && info[q] != 0
    requires tags[q].home <= i <= q
    ensures info[i] != 0
  {
    assert Placed(info, tags, shift, n, q);
    InfoRange(tags[q], q, shift);
    MulMonotone(q - i + 1, q - tags[q].home + 1, Inc(shift));
    Dominates(info, tags, shift, n, q, q - i);
  }

  // ----- counting

  function Count(info: seq<uint8>, k: nat): (c: nat)
    requires k <= |info|
    ensures c <= k
  {
    if k == 0 then 0 else Count(info, k - 1) + if info[k - 1] != 0 then 1 else 0
  }

  /** A range of occupied slots is counted. */
  lemma {:induction false} CountRun(info: seq<uint8>, lo: nat, hi: nat)
    requires lo <= hi <= |info|
    requires forall i | lo <= i < hi :: info[i] != 0
    ensures Count(info, hi) == Count(info, lo) + hi - lo
  {
    if lo < hi {
      CountRun(info, lo, hi - 1);
    }
  }

  lemma {:induction false} CountNone(info: seq<uint8>, k: nat)
    requires k <= |info| && forall i | 0 <= i < k :: info[i] == 0
    ensures Count(info, k) == 0
  {
    if k > 0 {
      CountNone(info, k - 1);
    }
  }

  lemma CountPositive(info: seq<uint8>, i: nat, k: nat)
    requires i < k <= |info| && info[i] != 0
    ensures Count(info, k) > 0
  {
    CountMonotone(info, i + 1, k);
  }

  lemma {:induction false} CountMonotone(info: seq<uint8>, lo: nat, hi: nat)
    requires lo <= hi <= |info|
    ensures Count(info, lo) <= Count(info, hi)
  {
    if lo < hi {
      CountMonotone(info, lo, hi - 1);
    }
  }

  // ----- room for one more

  /** Every occupied slot could still move up by one without leaving the byte range. */
  ghost predicate RoomToShift(info: seq<uint8>, shift: Shift, slots: nat)
    requires slots <= |info|
  {
    forall i | 0 <= i < slots :: info[i] == 0 || info[i] + Inc(shift) <= 0xFF
  }

  /** The first slot of the run of occupied slots around `i`. */
  lemma {:induction false} RunStart(info: seq<uint8>, i: nat) returns (a: nat)
    requires i < |info| && info[i] != 0
    ensures a <= i && (a > 0 ==> info[a - 1] == 0)
    ensures forall j | a <= j <= i :: info[j] != 0
  {
    if i == 0 || info[i - 1] == 0 {
      a := i;
    } else {
      a := RunStart(info, i - 1);
    }
  }

  /** Along a run the homes never fall. */
  lemma HomesRise(info: seq<uint8>, tags: seq<Tag>, shift: Shift, n: nat, i: nat)
    requires Wf(info, tags, shift, n) && i + 1 < |tags| && info[i] != 0 && info[i + 1] != 0
    ensures tags[i].home <= tags[i + 1].home
  {
    assert Link(info, shift, i) && Placed(info, tags, shift, n, i) && Placed(info, tags, shift, n, i + 1);
    InfoRange(tags[i], i, shift);
    InfoRange(tags[i + 1], i + 1, shift);
    match shift case 0 => case 1 => case 2 => case 3 => case _ =>
  }

  lemma {:induction false} HomesSorted(info: seq<uint8>, tags: seq<Tag>, shift: Shift, n: nat, i: nat, j: nat)
    requires Wf(info, tags, shift, n) && i <= j < |tags| && forall q | i <= q <= j :: info[q] != 0
    ensures tags[i].home <= tags[j].home
  {
    if i < j {
      HomesSorted(info, tags, shift, n, i, j - 1);
      HomesRise(info, tags, shift, n, j - 1);
    }
  }

  /** A slot this far from its home has a full byte, and only at the finest increment can there be one. */
  lemma FarIsFull(info: seq<uint8>, tags: seq<Tag>, shift: Shift, n: nat, i: nat)
    requires Wf(info, tags, shift, n) && i < |tags| && info[i] != 0
    ensures tags[i].home <= i && (i - tags[i].home >= REACH - 1 <==> Inc(shift) == 2 && info[i] + Inc(shift) > 0xFF)
  {
    assert Placed(info, tags, shift, n, i);
    InfoRange(tags[i], i, shift);
    match shift case 0 => case 1 => case 2 => case 3 => case _ =>
  }

  /** Then the slots from some `a` on, past the home `b` of a full byte by 126, hold keys at home in `a` to `b`. */
  lemma FullRun(info: seq<uint8>, tags: seq<Tag>, shift: Shift, n: nat) returns (a: nat, b: nat)
    requires Wf(info, tags, shift, n) && Inc(shift) == 2 && !RoomToShift(info, shift, |tags|)
    ensures a <= b && b + REACH <= |tags|
    ensures forall q | a <= q < b + REACH :: info[q] != 0 && a <= tags[q].home <= b
  {
    var i :| 0 <= i < |tags| && info[i] != 0 && info[i] + Inc(shift) > 0xFF;
    FarIsFull(info, tags, shift, n, i);
    b := tags[i].home;
    a := RunStart(info, i);
    if a > b {
      RunOccupied(info, tags, shift, n, i, a - 1);
      assert false;
    }
    forall q | a <= q < b + REACH ensures info[q] != 0 && a <= tags[q].home <= b {
      HomesSorted(info, tags, shift, n, q, i);
      if tags[q].home < a {
        FarIsFull(info, tags, shift, n, q);
        RunOccupied(info, tags, shift, n, q, a - 1);
        assert false;
      }
    }
  }

  /**
    In either layout, a buffer of as many slots as elements are allowed or of 255
    slots, the first empty slot from any bucket on comes before the last slot.
  */
  lemma EmptyBeforeLast(info: seq<uint8>, tags: seq<Tag>, shift: Shift, n: nat, allowed: nat,
      home: nat) returns (e: nat)
    requires Wf(info, tags, shift, n) && home < n
    requires |tags| == n + if allowed < 0xFF then allowed else 0xFF
    requires Count(info, |tags|) < allowed
    ensures home <= e && e + 1 < |tags| && info[e] == 0
    ensures forall i | home <= i < e :: info[i] != 0
  {
    var last := |tags| - 1;
    if forall i | home <= i < last :: info[i] != 0 {
      CountRun(info, home, last);
      CountMonotone(info, last, |tags|);
      if allowed >= 0xFF {
        assert info[last - 1] != 0 && Placed(info, tags, shift, n, last - 1);
        InfoRange(tags[last - 1], last - 1, shift);
      }
      assert false;
    }
    e := FirstEmpty(info, home, last);
  }

  lemma {:induction false} FirstEmpty(info: seq<uint8>, lo: nat, hi: nat) returns (e: nat)
    requires lo <= hi <= |info|
    requires !(forall i | lo <= i < hi :: info[i] != 0)
    ensures lo <= e < hi && info[e] == 0
    ensures forall i | lo <= i < e :: info[i] != 0
    decreases hi - lo
  {
    if info[lo] == 0 {
      e := lo;
    } else {
      e := FirstEmpty(info, lo + 1, hi);
    }
  }

  /** No slot occupied. */
  lemma EmptyWf(info: seq<uint8>, tags: seq<Tag>, shift: Shift, n: nat)
    requires Closed(info, |tags|) && 1 <= n <= |tags|
    requires forall i | 0 <= i < |tags| :: info[i] == 0
    ensures Wf(info, tags, shift, n) && RoomToShift(info, shift, |tags|) && Count(info, |tags|) == 0
  {
    CountNone(info, |tags|);
  }

  // ----- probing

  /** A probe for `t` at slot `i` carries the info value a slot of that tag would have there. */
  predicate Standing(t: Tag, n: nat, shift: Shift, i: nat, w: nat) {
    t.home < n && t.bits < 32 && t.home <= i && w == InfoAt(t, i, shift)
  }

  /** Moreover the slot before did not stop it. */
  predicate Probing(info: seq<uint8>, t: Tag, n: nat, shift: Shift, i: nat, w: nat) {
    && Standing(t, n, shift, i, w)
    && (t.home < i <= |info| ==> info[i - 1] + Inc(shift) >= w && info[i - 1] != 0)
  }

  /** A probe that a byte does not stop stands on a slot before the last one, and no empty slot is behind it. */
  lemma Unstopped(info: seq<uint8>, tags: seq<Tag>, shift: Shift, n: nat, t: Tag, i: nat, w: nat)
    requires Wf(info, tags, shift, n) && Standing(t, n, shift, i, w)
    requires i < |info| && w <= info[i]
    ensures i < |tags|
    ensures forall j | t.home <= j <= i :: info[j] != 0
    ensures Probing(info, t, n, shift, i + 1, w + Inc(shift))
  {
    InfoRange(t, i, shift);
    InfoStep(t, i, shift);
    forall j | t.home <= j <= i ensures info[j] != 0 {
      MulMonotone(i - j + 1, i - t.home + 1, Inc(shift));
      Dominates(info, tags, shift, n, i, i - j);
    }
  }

  /** With room to shift, the value of a stopped probe is a byte, and the slots behind it are occupied. */
  lemma NotTruncated(info: seq<uint8>, tags: seq<Tag>, shift: Shift, n: nat, p: nat, w: nat, t: Tag)
    requires Wf(info, tags, shift, n) && RoomToShift(info, shift, |tags|)
    requires p < |info| && Probing(info, t, n, shift, p, w)
    ensures w <= 0xFF
    ensures forall j | t.home <= j < p :: info[j] != 0
  {
    InfoRange(t, p, shift);
    if t.home < p {
      InfoStep(t, p - 1, shift);
      Unstopped(info, tags, shift, n, t, p - 1, w - Inc(shift));
    }
  }

  /** A probe for the tag of an occupied slot is not stopped before that slot. */
  lemma NotStopped(info: seq<uint8>, tags: seq<Tag>, shift: Shift, n: nat, t: Tag, i: nat, q: nat)
    requires Wf(info, tags, shift, n) && q < |tags| && info[q] != 0 && tags[q] == t
    requires t.home <= i <= q
    ensures info[i] >= InfoAt(t, i, shift)
  {
    assert Placed(info, tags, shift, n, q);
    InfoRange(t, q, shift);
    MulMonotone(q - i + 1, q - t.home + 1, Inc(shift));
    Dominates(info, tags, shift, n, q, q - i);
    assert Inc(shift) * (q - t.home + 1) == Inc(shift) * (i - t.home + 1) + Inc(shift) * (q - i);
  }

  // ----- insertion

  /** From `p` to the empty slot `e` every byte moves up by one slot and one step; `p` receives value `w`. */
  predicate BytesUp(info: seq<uint8>, info': seq<uint8>, shift: Shift, p: nat, e: nat, w: nat) {
    && |info'| == |info| && p <= e < |info|
    && (forall i {:trigger info'[i]} | 0 <= i < |info| && !(p <= i <= e) :: info'[i] == info[i])
    && (forall i {:trigger info'[i]} | p < i <= e :: info'[i] == info[i - 1] + Inc(shift))
    && info'[p] == w
  }

  /** The byte at `p` is written last; every byte can grow once more if the ones that moved can, and the new one. */
  lemma WrittenLast(info: seq<uint8>, info': seq<uint8>, shift: Shift, p: nat, e: nat, w: nat, slots: nat)
    requires p < |info| && if p == e then info' == info else BytesUp(info, info', shift, p, e, info[p])
    requires e < slots <= |info| && RoomToShift(info, shift, slots) && 0 < w <= 0xFF
    ensures |info'| == |info| && BytesUp(info, info'[p := w], shift, p, e, w)
    ensures RoomToShift(info'[p := w], shift, slots)
       <==> w + Inc(shift) <= 0xFF && forall i | p < i <= e :: info'[i] + Inc(shift) <= 0xFF
  {
    var info'' := info'[p := w];
    if w + Inc(shift) <= 0xFF && forall i | p < i <= e :: info'[i] + Inc(shift) <= 0xFF {
      forall i | 0 <= i < slots ensures info''[i] == 0 || info''[i] + Inc(shift) <= 0xFF {
      }
    } else if w + Inc(shift) <= 0xFF {
      var i :| p < i <= e && info'[i] + Inc(shift) > 0xFF;
      assert info''[i] == info'[i] != 0;
    } else {
      assert info''[p] == w;
    }
  }

  /** The tags follow; `p` receives tag `t`. */
  predicate TagsUp(tags: seq<Tag>, tags': seq<Tag>, p: nat, e: nat, t: Tag) {
    && |tags'| == |tags| && p <= e < |tags|
    && (forall i {:trigger tags'[i]} | 0 <= i < |tags| && !(p <= i <= e) :: tags'[i] == tags[i])
    && (forall i {:trigger tags'[i]} | p < i <= e :: tags'[i] == tags[i - 1])
    && tags'[p] == t
  }

  lemma InsertLinks(info: seq<uint8>, tags: seq<Tag>, info': seq<uint8>, tags': seq<Tag>, shift: Shift, n: nat,
      p: nat, e: nat, w: nat, t: Tag)
    requires Wf(info, tags, shift, n) && BytesUp(info, info', shift, p, e, w) && TagsUp(tags, tags', p, e, t)
    requires info[e] == 0 && forall i | p <= i < e :: info[i] != 0
    requires Probing(info, t, n, shift, p, w) && info[p] <= w
    ensures forall i | 0 <= i < |tags| :: Link(info', shift, i)
  {
    InfoRange(t, p, shift);
    forall i | 0 <= i < |tags| ensures Link(info', shift, i) {
      assert Link(info, shift, i);
      if p < i <= e {
        assert Link(info, shift, i - 1);
      }
    }
  }

  lemma InsertWf(info: seq<uint8>, tags: seq<Tag>, info': seq<uint8>, tags': seq<Tag>, shift: Shift, n: nat, p: nat,
      e: nat, w: nat, t: Tag)
    requires Wf(info, tags, shift, n) && BytesUp(info, info', shift, p, e, w) && TagsUp(tags, tags', p, e, t)
    requires info[e] == 0 && forall i | p <= i < e :: info[i] != 0
    requires Probing(info, t, n, shift, p, w) && info[p] <= w
    ensures Wf(info', tags', shift, n)
    ensures Count(info', |tags|) == Count(info, |tags|) + 1
  {
    InsertLinks(info, tags, info', tags', shift, n, p, e, w, t);
    InfoRange(t, p, shift);
    forall i | 0 <= i < |tags| ensures Placed(info', tags', shift, n, i) {
      assert Placed(info, tags, shift, n, i);
      if p < i <= e {
        assert Placed(info, tags, shift, n, i - 1);
        InfoStep(tags[i - 1], i - 1, shift);
      }
    }
    CountChange(info, info', e, |tags|);
  }

  /** Two byte sequences that differ in emptiness at `e` alone. */
  lemma {:induction false} CountChange(info: seq<uint8>, info': seq<uint8>, e: nat, k: nat)
    requires k <= |info| == |info'|
    requires forall i | 0 <= i < k && i != e :: info[i] == 0 <==> info'[i] == 0
    requires e < k ==> info[e] == 0 && info'[e] != 0
    ensures Count(info', k) == Count(info, k) + if e < k then 1 else 0
  {
    if k > 0 {
      CountChange(info, info', e, k - 1);
    }
  }

  // ----- removal

  lemma SlideDown(info: seq<uint8>, tags: seq<Tag>, shift: Shift, n: nat, hole: nat)
    requires Wf(info, tags, shift, n, Hole(hole))
    requires info[hole + 1] >= 2 * Inc(shift)
    ensures hole + 1 < |tags|
    ensures info[hole + 1] - Inc(shift) >= Inc(shift)
    ensures Wf(info[hole := info[hole + 1] - Inc(shift)], tags[hole := tags[hole + 1]], shift, n, Hole(hole + 1))
    ensures Count(info[hole := info[hole + 1] - Inc(shift)], |tags|) == Count(info, |tags|)
  {
    assert Placed(info, tags, shift, n, hole + 1);
    var t := tags[hole + 1];
    InfoRange(t, hole + 1, shift);
    InfoStep(t, hole, shift);
    var info', tags' := info[hole := info[hole + 1] - Inc(shift)], tags[hole := t];
    forall i | 0 <= i < |tags| ensures Link(info', shift, i) {
      assert Link(info, shift, i) && Link(info, shift, hole);
    }
    forall i | 0 <= i < |tags| && i != hole + 1 ensures Placed(info', tags', shift, n, i) {
      assert i != hole ==> Placed(info, tags, shift, n, i);
    }
    CountSame(info, info', |tags|);
  }

  /** Only the tags of occupied slots matter. */
  lemma Retag(info: seq<uint8>, tags: seq<Tag>, tags': seq<Tag>, shift: Shift, n: nat)
    requires Wf(info, tags, shift, n) && |tags'| == |tags|
    requires forall i | 0 <= i < |tags| && info[i] != 0 :: tags'[i] == tags[i]
    ensures Wf(info, tags', shift, n)
  {
    forall i | 0 <= i < |tags| ensures Placed(info, tags', shift, n, i) {
      assert Placed(info, tags, shift, n, i);
    }
  }

  lemma Vacate(info: seq<uint8>, tags: seq<Tag>, shift: Shift, n: nat, hole: nat)
    requires Wf(info, tags, shift, n, Hole(hole))
    requires info[hole + 1] < 2 * Inc(shift)
    ensures Wf(info[hole := 0], tags, shift, n)
    ensures Count(info, |tags|) == Count(info[hole := 0], |tags|) + 1
  {
    var info' := info[hole := 0];
    forall i | 0 <= i < |tags| ensures Link(info', shift, i) {
      assert Link(info, shift, i);
    }
    forall i | 0 <= i < |tags| ensures Placed(info', tags, shift, n, i) {
      assert i != hole ==> Placed(info, tags, shift, n, i);
    }
    CountChange(info', info, hole, |tags|);
  }

  // ----- one bit less of hash

  /** Halving every byte re-encodes the whole table for the next shift and makes room to move slots up. */
  lemma HalveWf(info: seq<uint8>, tags: seq<Tag>, info': seq<uint8>, shift: Shift, n: nat)
    requires Wf(info, tags, shift, n) && shift < 4 && Closed(info', |tags|)
    requires forall i | 0 <= i < |tags| :: info'[i] == info[i] / 2
    ensures Wf(info', tags, shift + 1, n)
    ensures RoomToShift(info', shift + 1, |tags|)
    ensures forall i | 0 <= i < |tags| :: info'[i] == 0 <==> info[i] == 0
    ensures Count(info', |tags|) == Count(info, |tags|)
  {
    var shift': Shift := shift + 1;
    forall i | 0 <= i < |tags| ensures Link(info', shift', i) && (info'[i] == 0 <==> info[i] == 0) {
      assert Link(info, shift, i);
    }
    forall i | 0 <= i < |tags| ensures Placed(info', tags, shift', n, i) {
      assert Placed(info, tags, shift, n, i);
      if info[i] != 0 {
        InfoHalve(tags[i], i, shift);
      }
    }
    CountSame(info, info', |tags|);
  }

  lemma {:induction false} CountSame(info: seq<uint8>, info': seq<uint8>, k: nat)
    requires k <= |info| == |info'|
    requires forall i | 0 <= i < k :: info[i] == 0 <==> info'[i] == 0
    ensures Count(info', k) == Count(info, k)
  {
    if k > 0 {
      CountSame(info, info', k - 1);
    }
  }
}
