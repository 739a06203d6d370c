/** The node array of `robin_hood`'s table, with object lifetimes, and the map it stands for. */
module Slots {
  import opened Entries

  /** Storage without an object, an object that was moved from, or a live node. */
  datatype Slot<K, V> = Raw | Husk | Live(entry: Entry<K, V>)

  predicate HasKey<K(==), V>(s: seq<Slot<K, V>>, i: nat, k: K) {
    i < |s| && s[i].Live? && s[i].entry.key == k
  }

  predicate SameKey<K(==), V>(s: seq<Slot<K, V>>, i: nat, j: nat) {
    i < |s| && j < |s| && s[i].Live? && s[j].Live? && s[i].entry.key == s[j].entry.key
  }

  ghost predicate Distinct<K, V>(s: seq<Slot<K, V>>) {
    forall i, j | SameKey(s, i, j) :: i == j
  }

  function SlotMap<K, V>(s: seq<Slot<K, V>>): map<K, V> {
    if s == [] then map[] else
      match s[|s| - 1]
      case Live(e) => SlotMap(s[..|s| - 1])[e.key := e.value]
      case _ => SlotMap(s[..|s| - 1])
  }

  lemma {:induction false} MapHas<K, V>(s: seq<Slot<K, V>>, i: nat)
    requires Distinct(s) && i < |s| && s[i].Live?
    ensures s[i].entry.key in SlotMap(s) && SlotMap(s)[s[i].entry.key] == s[i].entry.value
  {
    var last := |s| - 1;
    if i < last {
      var t := s[..last];
      forall a: nat, b: nat | SameKey(t, a, b) ensures a == b {
        assert SameKey(s, a, b);
      }
      MapHas(t, i);
      assert !SameKey(s, i, last);
    }
  }

  lemma {:induction false} MapFrom<K, V>(s: seq<Slot<K, V>>, k: K) returns (i: nat)
    requires k in SlotMap(s)
    ensures HasKey(s, i, k)
  {
    i := |s| - 1;
    if !HasKey(s, i, k) {
      i := MapFrom(s[..i], k);
    }
  }

  lemma IsSlotMap<K, V>(s: seq<Slot<K, V>>, m: map<K, V>)
    requires Distinct(s)
    requires forall i | 0 <= i < |s| && s[i].Live? :: s[i].entry.key in m && m[s[i].entry.key] == s[i].entry.value
    requires forall k | k in m :: exists i :: HasKey(s, i, k)
    ensures m == SlotMap(s)
  {
    forall k | k in m ensures k in SlotMap(s) && SlotMap(s)[k] == m[k] {
      var i: nat :| HasKey(s, i, k);
      MapHas(s, i);
    }
    forall k | k in SlotMap(s) ensures k in m {
      var i := MapFrom(s, k);
    }
  }

  // ----- making room

  /** From `p` to `e` everything moves up by one, and `p` receives `x`. */
  predicate SlotsUp<K(==), V(==)>(s: seq<Slot<K, V>>, s': seq<Slot<K, V>>, p: nat, e: nat, x: Slot<K, V>) {
    && |s'| == |s| && p <= e < |s|
    && (forall i {:trigger s'[i]} | 0 <= i < |s| && !(p <= i <= e) :: s'[i] == s[i])
    && (forall i {:trigger s'[i]} | p < i <= e :: s'[i] == s[i - 1])
    && s'[p] == x
  }

  lemma UpDistinct<K, V>(s: seq<Slot<K, V>>, s': seq<Slot<K, V>>, p: nat, e: nat, x: Entry<K, V>)
    requires Distinct(s) && SlotsUp(s, s', p, e, Live(x)) && !s[e].Live?
    requires x.key !in SlotMap(s)
    ensures Distinct(s')
  {
    forall i: nat, j: nat | SameKey(s', i, j) ensures i == j {
      Origin(s, s', p, e, x, i, s'[i].entry.key);
      Origin(s, s', p, e, x, j, s'[i].entry.key);
      assert i != p ==> SameKey(s, if p < i <= e then i - 1 else i, if p < j <= e then j - 1 else j);
    }
  }

  /** Where a key found after the move was before it. */
  lemma Origin<K, V>(s: seq<Slot<K, V>>, s': seq<Slot<K, V>>, p: nat, e: nat, x: Entry<K, V>, i: nat, k: K)
    requires Distinct(s) && SlotsUp(s, s', p, e, Live(x)) && x.key !in SlotMap(s) && HasKey(s', i, k)
    ensures k == x.key <==> i == p
    ensures i != p ==> HasKey(s, if p < i <= e then i - 1 else i, k)
  {
    if i != p {
      var i0 := if p < i <= e then i - 1 else i;
      assert s'[i] == s[i0];
      MapHas(s, i0);
    }
  }

  lemma UpMap<K, V>(s: seq<Slot<K, V>>, s': seq<Slot<K, V>>, p: nat, e: nat, x: Entry<K, V>)
    requires Distinct(s) && SlotsUp(s, s', p, e, Live(x)) && !s[e].Live?
    requires x.key !in SlotMap(s)
    ensures Distinct(s') && SlotMap(s') == SlotMap(s)[x.key := x.value]
  {
    var m := SlotMap(s)[x.key := x.value];
    UpDistinct(s, s', p, e, x);
    forall i | 0 <= i < |s'| && s'[i].Live? ensures s'[i].entry.key in m && m[s'[i].entry.key] == s'[i].entry.value {
      var k := s'[i].entry.key;
      assert HasKey(s', i, k);
      Origin(s, s', p, e, x, i, k);
      if i != p {
        MapHas(s, if p < i <= e then i - 1 else i);
      }
    }
    forall k | k in m ensures exists i :: HasKey(s', i, k) {
      if k == x.key {
        assert HasKey(s', p, k);
      } else {
        var i := MapFrom(s, k);
        assert HasKey(s', if p <= i < e then i + 1 else i, k);
      }
    }
    IsSlotMap(s', m);
  }

  // ----- closing up

  /** From `p` on to `q` everything moves down by one, and `q` is left without a live node. */
  predicate SlotsDown<K(==), V(==)>(s: seq<Slot<K, V>>, s': seq<Slot<K, V>>, p: nat, q: nat) {
    && |s'| == |s| && p <= q < |s|
    && (forall i {:trigger s'[i]} | 0 <= i < |s| && !(p <= i <= q) :: s'[i] == s[i])
    && (forall i {:trigger s'[i]} | p <= i < q :: s'[i] == s[i + 1])
    && !s'[q].Live?
  }

  lemma DownMap<K, V>(s: seq<Slot<K, V>>, s': seq<Slot<K, V>>, p: nat, q: nat)
    requires Distinct(s) && SlotsDown(s, s', p, q) && s[p].Live?
    ensures Distinct(s') && SlotMap(s') == SlotMap(s) - {s[p].entry.key}
  {
    var m := SlotMap(s) - {s[p].entry.key};
    forall i: nat, j: nat | SameKey(s', i, j) ensures i == j {
      assert SameKey(s, if p <= i < q then i + 1 else i, if p <= j < q then j + 1 else j);
    }
    forall i | 0 <= i < |s'| && s'[i].Live? ensures s'[i].entry.key in m && m[s'[i].entry.key] == s'[i].entry.value {
      var i0 := if p <= i < q then i + 1 else i;
      assert !SameKey(s, i0, p);
      MapHas(s, i0);
    }
    forall k | k in m ensures exists i :: HasKey(s', i, k) {
      var i := MapFrom(s, k);
      MapHas(s, i);
      assert HasKey(s', if p < i <= q then i - 1 else i, k);
    }
    IsSlotMap(s', m);
  }

  // ----- all nodes, one after the other

  /** What the first `i + 1` slots add to the map of the first `i`. */
  lemma PrefixMap<K, V>(s: seq<Slot<K, V>>, i: nat)
    requires Distinct(s) && i < |s|
    ensures s[i].Live? ==> s[i].entry.key !in SlotMap(s[..i])
    ensures SlotMap(s[..i + 1]) == if s[i].Live? then SlotMap(s[..i])[s[i].entry.key := s[i].entry.value] else SlotMap(s[..i])
  {
    assert s[..i + 1][..i] == s[..i];
    if s[i].Live? && s[i].entry.key in SlotMap(s[..i]) {
      var j := MapFrom(s[..i], s[i].entry.key);
      assert SameKey(s, i, j);
    }
  }

  lemma {:induction false} NoNodes<K, V>(s: seq<Slot<K, V>>)
    requires forall i | 0 <= i < |s| :: !s[i].Live?
    ensures SlotMap(s) == map[] && Distinct(s)
  {
    if s != [] {
      NoNodes(s[..|s| - 1]);
    }
  }

  lemma SameKeyMap<K, V>(s: seq<Slot<K, V>>, p: nat, v: V)
    requires Distinct(s) && p < |s| && s[p].Live?
    ensures var s' := s[p := Live(Entry(s[p].entry.key, v))];
      Distinct(s') && SlotMap(s') == SlotMap(s)[s[p].entry.key := v]
  {
    var s' := s[p := Live(Entry(s[p].entry.key, v))];
    var m := SlotMap(s)[s[p].entry.key := v];
    forall i: nat, j: nat | SameKey(s', i, j) ensures i == j {
      assert SameKey(s, i, j);
    }
    forall i | 0 <= i < |s'| && s'[i].Live? ensures s'[i].entry.key in m && m[s'[i].entry.key] == s'[i].entry.value {
      MapHas(s, i);
      assert i != p ==> !SameKey(s, i, p);
    }
    forall k | k in m ensures exists i :: HasKey(s', i, k) {
      MapHas(s, p);
      var i := MapFrom(s, k);
      assert HasKey(s', i, k);
    }
    IsSlotMap(s', m);
  }
}
