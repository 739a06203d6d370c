/** The dense vector of entries behind the table, and the map it stands for. */
module DenseEntries {
  import opened Collections
  import opened Entries

  // ----- the abstract map

  predicate Distinct<K(==), V>(es: seq<Entry<K, V>>) {
    forall i, j | 0 <= i < j < |es| :: es[i].key != es[j].key
  }

  function ToMap<K, V>(es: seq<Entry<K, V>>): (m: map<K, V>) {
    if es == [] then map[] else
      var last := es[|es| - 1];
      ToMap(es[..|es| - 1])[last.key := last.value]
  }

  // ----- removing one entry from the dense vector

  /** The last entry moves into position `r`. */
  function SwapRemove<K, V>(es: seq<Entry<K, V>>, r: nat): (rest: seq<Entry<K, V>>)
    requires r < |es|
    ensures |rest| == |es| - 1
  {
    es[r := es[|es| - 1]][..|es| - 1]
  }

  lemma {:induction false} ToMapEntry<K, V>(es: seq<Entry<K, V>>, i: nat)
    requires Distinct(es) && i < |es|
    ensures es[i].key in ToMap(es) && ToMap(es)[es[i].key] == es[i].value
  {
    if i < |es| - 1 {
      ToMapEntry(es[..|es| - 1], i);
    }
  }

  lemma {:induction false} ToMapKeys<K, V>(es: seq<Entry<K, V>>, k: K) returns (i: nat)
    requires k in ToMap(es)
    ensures i < |es| && es[i].key == k
  {
    i := |es| - 1;
    if es[i].key != k {
      i := ToMapKeys(es[..i], k);
    }
  }

  /** A map that agrees with every entry and has no other key is the abstract map. */
  lemma IsToMap<K, V>(es: seq<Entry<K, V>>, m: map<K, V>)
    requires Distinct(es)
    requires forall i | 0 <= i < |es| :: es[i].key in m && m[es[i].key] == es[i].value
    requires forall k | k in m :: exists i :: 0 <= i < |es| && es[i].key == k
    ensures m == ToMap(es)
  {
    forall k | k in m ensures k in ToMap(es) && ToMap(es)[k] == m[k] {
      var i :| 0 <= i < |es| && es[i].key == k;
      ToMapEntry(es, i);
    }
    forall k | k in ToMap(es) ensures k in m {
      var i := ToMapKeys(es, k);
    }
  }

  lemma SwapRemoveMap<K, V>(es: seq<Entry<K, V>>, r: nat)
    requires r < |es| && Distinct(es)
    ensures Distinct(SwapRemove(es, r))
    ensures ToMap(SwapRemove(es, r)) == ToMap(es) - {es[r].key}
  {
    hide ToMap, Distinct, SwapRemove;
    var rest, m := SwapRemove(es, r), ToMap(es) - {es[r].key};
    SwapRemoveDistinct(es, r);
    forall i | 0 <= i < |rest| ensures rest[i].key in m && m[rest[i].key] == rest[i].value {
      var j := SwapRemoveFrom(es, r, i);
      ToMapEntry(es, j);
    }
    forall k | k in m ensures exists i :: 0 <= i < |rest| && rest[i].key == k {
      var j := ToMapKeys(es, k);
      var i := SwapRemoveTo(es, r, j);
    }
    IsToMap(rest, m);
  }

  lemma SwapRemoveDistinct<K, V>(es: seq<Entry<K, V>>, r: nat)
    requires r < |es| && Distinct(es)
    ensures Distinct(SwapRemove(es, r))
  {
  }

  /** Where the entry at `i` comes from. */
  lemma SwapRemoveFrom<K, V>(es: seq<Entry<K, V>>, r: nat, i: nat) returns (j: nat)
    requires r < |es| && Distinct(es) && i < |es| - 1
    ensures j < |es| && SwapRemove(es, r)[i] == es[j] && es[j].key != es[r].key
  {
    j := if i == r then |es| - 1 else i;
  }

  /** Where the entry at `j` goes. */
  lemma SwapRemoveTo<K, V>(es: seq<Entry<K, V>>, r: nat, j: nat) returns (i: nat)
    requires r < |es| && j < |es| && es[j].key != es[r].key
    ensures i < |es| - 1 && SwapRemove(es, r)[i] == es[j]
  {
    i := if j == |es| - 1 then r else j;
  }

  lemma SwapRemoveMultiset<K, V>(es: seq<Entry<K, V>>, r: nat)
    requires r < |es|
    ensures multiset(SwapRemove(es, r)) == multiset(es) - multiset{es[r]}
  {
    var last := |es| - 1;
    assert es == es[..last] + [es[last]];
    if r < last {
      assert es[..last] == es[..r] + [es[r]] + es[r + 1..last];
      assert SwapRemove(es, r) == es[..r] + [es[last]] + es[r + 1..last];
    } else {
      assert SwapRemove(es, r) == es[..last];
    }
  }

  lemma AppendMap<K, V>(es: seq<Entry<K, V>>, e: Entry<K, V>)
    requires Distinct(es) && e.key !in ToMap(es)
    ensures Distinct(es + [e]) && ToMap(es + [e]) == ToMap(es)[e.key := e.value]
  {
    assert (es + [e])[..|es|] == es;
    forall i | 0 <= i < |es| ensures es[i].key != e.key {
      ToMapEntry(es, i);
    }
  }

  lemma AssignMap<K, V>(es: seq<Entry<K, V>>, i: nat, v: V)
    requires Distinct(es) && i < |es|
    ensures Distinct(es[i := Entry(es[i].key, v)])
    ensures ToMap(es[i := Entry(es[i].key, v)]) == ToMap(es)[es[i].key := v]
  {
    var es', m := es[i := Entry(es[i].key, v)], ToMap(es)[es[i].key := v];
    forall j | 0 <= j < |es'| ensures es'[j].key in m && m[es'[j].key] == es'[j].value {
      ToMapEntry(es, j);
    }
    forall k | k in m ensures exists j :: 0 <= j < |es'| && es'[j].key == k {
      ToMapEntry(es, i);
      var j := ToMapKeys(es, k);
      assert es'[j].key == k;
    }
    IsToMap(es', m);
  }

  lemma FreshKey<K, V>(es: seq<Entry<K, V>>, k: K)
    requires forall i | 0 <= i < |es| :: es[i].key != k
    ensures k !in ToMap(es)
  {
    if k in ToMap(es) {
      var i := ToMapKeys(es, k);
      assert false;
    }
  }

  // ----- removing a range of positions

  /** `es` after `k` entries from position `first` on have each been overwritten by the then last entry. */
  function Filled<T>(es: seq<T>, first: nat, k: nat): (r: seq<T>)
    requires first + 2 * k <= |es|
    ensures |r| == |es| - k
  {
    es[..first] + Reversed(es[|es| - k..]) + es[first + k..|es| - k]
  }

  lemma FilledAt<T>(es: seq<T>, first: nat, k: nat, i: nat)
    requires first + 2 * k <= |es| && i < |es| - k
    ensures Filled(es, first, k)[i] == if first <= i < first + k then es[|es| - 1 - (i - first)] else es[i]
  {
  }

  lemma FilledNone<T>(es: seq<T>, first: nat)
    requires first <= |es|
    ensures Filled(es, first, 0) == es
  {
  }

  lemma FilledStep<K, V>(es: seq<Entry<K, V>>, first: nat, k: nat)
    requires first + 2 * (k + 1) <= |es|
    ensures SwapRemove(Filled(es, first, k), first + k) == Filled(es, first, k + 1)
  {
    hide Filled;
    var a, b := SwapRemove(Filled(es, first, k), first + k), Filled(es, first, k + 1);
    FilledAt(es, first, k, |es| - k - 1);
    forall i | 0 <= i < |b| ensures a[i] == b[i] {
      FilledAt(es, first, k, i);
      FilledAt(es, first, k + 1, i);
    }
  }

  /** What a range erase leaves: the tail, reversed where it plugs the hole, closes up over `[first, last)`. */
  function RangeErased<T>(es: seq<T>, first: nat, last: nat): (r: seq<T>)
    requires first <= last <= |es|
    ensures |r| == |es| - (last - first)
  {
    var c := if last - first <= |es| - last then last - first else |es| - last;
    es[..first] + Reversed(es[|es| - c..]) + es[last..|es| - c]
  }

  /** The second half of a range erase only drops entries at the end. */
  lemma FilledCut<T>(es: seq<T>, first: nat, last: nat, c: nat)
    requires first <= last <= |es|
    requires c == if last - first <= |es| - last then last - first else |es| - last
    ensures Filled(es, first, c)[..|es| - (last - first)] == RangeErased(es, first, last)
  {
  }

  lemma SwapRemoveLast<K, V>(filled: seq<Entry<K, V>>, n: nat)
    requires 0 < n <= |filled|
    ensures SwapRemove(filled[..n], n - 1) == filled[..n - 1]
  {
  }

  lemma PartsMultiset<T>(a: seq<T>, m: seq<T>, t: seq<T>, z: seq<T>)
    ensures multiset(a + Reversed(z) + t) == multiset(a + m + t + z) - multiset(m)
  {
    hide Reversed;
    ReversedMultiset(z);
  }

  lemma RangeErasedMultiset<T>(es: seq<T>, first: nat, last: nat)
    requires first <= last <= |es|
    ensures multiset(RangeErased(es, first, last)) == multiset(es) - multiset(es[first..last])
  {
    hide RangeErased;
    var a, m, t, z := RangeParts(es, first, last);
    PartsMultiset(a, m, t, z);
  }

  /** Before the range, the range, what stays in place behind it, and what fills it. */
  lemma RangeParts<T>(es: seq<T>, first: nat, last: nat) returns (a: seq<T>, m: seq<T>, t: seq<T>, z: seq<T>)
    requires first <= last <= |es|
    ensures es == a + m + t + z && m == es[first..last] && RangeErased(es, first, last) == a + Reversed(z) + t
  {
    hide Reversed;
    var c := if last - first <= |es| - last then last - first else |es| - last;
    a, m, t, z := es[..first], es[first..last], es[last..|es| - c], es[|es| - c..];
  }

  lemma {:induction false} ModelSize<K, V>(es: seq<Entry<K, V>>)
    requires Distinct(es)
    ensures |ToMap(es)| == |es|
  {
    if es != [] {
      var last := |es| - 1;
      ModelSize(es[..last]);
      FreshKey(es[..last], es[last].key);
    }
  }

  // ----- keeping the entries that fail a predicate

  ghost function Kept<T>(es: seq<T>, pred: T -> bool): (m: multiset<T>)
    ensures forall e | e in es :: m[e] == if pred(e) then 0 else multiset(es)[e]
    ensures forall e | e in m :: e in es
  {
    if es == [] then multiset{} else
      assert es == [es[0]] + es[1..];
      Kept(es[1..], pred) + if pred(es[0]) then multiset{} else multiset{es[0]}
  }

  lemma SwapRemoveSuffix<K, V>(vs: seq<Entry<K, V>>, i: nat)
    requires i < |vs|
    ensures SwapRemove(vs, i)[..i] == vs[..i]
    ensures multiset(SwapRemove(vs, i)[i..]) == multiset(vs[i + 1..])
  {
    var last := |vs| - 1;
    if i < last {
      assert SwapRemove(vs, i)[i..] == [vs[last]] + vs[i + 1..last];
      assert vs[i + 1..] == vs[i + 1..last] + [vs[last]];
    }
  }

  lemma KeptHead<T>(es: seq<T>, i: nat, pred: T -> bool)
    requires i < |es|
    ensures Kept(es[i..], pred) == Kept(es[i + 1..], pred) + if pred(es[i]) then multiset{} else multiset{es[i]}
    ensures Reversed(es[i..]) == Reversed(es[i + 1..]) + [es[i]]
  {
    assert es[i..][1..] == es[i + 1..];
  }

  lemma PrefixHead<T>(es: seq<T>, vs: seq<T>, i: nat)
    requires i < |vs| && i < |es| && vs[..i + 1] == es[..i + 1]
    ensures vs[i] == es[i] && vs[..i] == es[..i]
    ensures multiset(vs[i..]) == multiset(vs[i + 1..]) + multiset{vs[i]}
  {
    assert vs[i] == vs[..i + 1][i] == es[i];
    assert vs[..i] == vs[..i + 1][..i] && es[..i] == es[..i + 1][..i];
    assert vs[i..] == [vs[i]] + vs[i + 1..];
  }

  /** The scan stands before position `i` of the original `es`; everything from there on is decided. */
  ghost predicate Scanned<K, V>(es: seq<Entry<K, V>>, vs: seq<Entry<K, V>>, i: nat, pred: Entry<K, V> -> bool,
      tested: seq<Entry<K, V>>) {
    && i <= |vs| <= |es|
    && vs[..i] == es[..i]
    && tested == Reversed(es[i..])
    && multiset(vs[i..]) == Kept(es[i..], pred)
  }

  lemma ScanStart<K, V>(es: seq<Entry<K, V>>, pred: Entry<K, V> -> bool)
    ensures Scanned(es, es, |es|, pred, [])
  {
  }

  lemma ScanStep<K, V>(es: seq<Entry<K, V>>, vs: seq<Entry<K, V>>, i: nat, pred: Entry<K, V> -> bool,
      tested: seq<Entry<K, V>>)
    requires Scanned(es, vs, i + 1, pred, tested)
    ensures i < |vs|
    ensures Scanned(es, if pred(vs[i]) then SwapRemove(vs, i) else vs, i, pred, tested + [vs[i]])
  {
    PrefixHead(es, vs, i);
    KeptHead(es, i, pred);
    SwapRemoveSuffix(vs, i);
  }

  lemma ScanEnd<K, V>(es: seq<Entry<K, V>>, vs: seq<Entry<K, V>>, pred: Entry<K, V> -> bool, tested: seq<Entry<K, V>>)
    requires Scanned(es, vs, 0, pred, tested)
    ensures |vs| <= |es| && tested == Reversed(es) && multiset(vs) == Kept(es, pred)
  {
    assert vs[0..] == vs && es[0..] == es;
  }

  // ----- changing a key in place

  lemma RekeyMap<K, V>(es: seq<Entry<K, V>>, pos: nat, key: K)
    requires Distinct(es) && pos < |es| && key !in ToMap(es)
    ensures var es' := es[pos := Entry(key, es[pos].value)];
      Distinct(es') && ToMap(es') == (ToMap(es) - {es[pos].key})[key := es[pos].value]
  {
    var es' := es[pos := Entry(key, es[pos].value)];
    var m := (ToMap(es) - {es[pos].key})[key := es[pos].value];
    forall j | 0 <= j < |es| ensures es[j].key != key && es'[j].key in m && m[es'[j].key] == es'[j].value {
      ToMapEntry(es, j);
    }
    forall k | k in m ensures exists j :: 0 <= j < |es'| && es'[j].key == k {
      if k == key {
        assert es'[pos].key == k;
      } else {
        var j := ToMapKeys(es, k);
        assert es'[j].key == k;
      }
    }
    IsToMap(es', m);
  }

  // ----- removing duplicate keys

  function Keys<K(==), V>(es: seq<Entry<K, V>>): set<K> {
    set i | 0 <= i < |es| :: es[i].key
  }

  lemma KeysAreMap<K, V>(es: seq<Entry<K, V>>)
    requires Distinct(es)
    ensures ToMap(es).Keys == Keys(es)
  {
    forall k | k in ToMap(es) ensures k in Keys(es) {
      var i := ToMapKeys(es, k);
    }
    forall k | k in Keys(es) ensures k in ToMap(es) {
      var i :| 0 <= i < |es| && es[i].key == k;
      ToMapEntry(es, i);
    }
  }

  /** The indexed prefix is no longer than there are keys. */
  lemma PrefixBound<K, V>(container: seq<Entry<K, V>>, es: seq<Entry<K, V>>, v: nat)
    requires Deduping(container, es, v)
    ensures v <= |Keys(container)|
  {
    hide ToMap, Distinct;
    var prefix := es[..v];
    ModelSize(prefix);
    KeysAreMap(prefix);
    assert |ToMap(prefix)| == |ToMap(prefix).Keys|;
    forall k | k in Keys(prefix) ensures k in Keys(es) {
      var i :| 0 <= i < |prefix| && prefix[i].key == k;
      assert es[i].key == k;
    }
    SubsetSize(Keys(prefix), Keys(es));
  }

  /** The first `v` entries of `es` are decided; `es` is what became of `container` so far. */
  ghost predicate Deduping<K, V>(container: seq<Entry<K, V>>, es: seq<Entry<K, V>>, v: nat) {
    && v <= |es| <= |container|
    && Distinct(es[..v])
    && Keys(es) == Keys(container)
    && multiset(es) <= multiset(container)
    && (container != [] ==> es != [] && es[0] == container[0])
  }

  lemma DedupStart<K, V>(container: seq<Entry<K, V>>)
    ensures Deduping(container, container, 0)
  {
  }

  lemma DedupKeep<K, V>(container: seq<Entry<K, V>>, es: seq<Entry<K, V>>, v: nat)
    requires Deduping(container, es, v) && v < |es| && es[v].key !in ToMap(es[..v])
    ensures Deduping(container, es, v + 1)
  {
    AppendMap(es[..v], es[v]);
    assert es[..v + 1] == es[..v] + [es[v]];
  }

  lemma DedupDrop<K, V>(container: seq<Entry<K, V>>, es: seq<Entry<K, V>>, v: nat, w: nat)
    requires Deduping(container, es, v) && w < v < |es| && es[w].key == es[v].key
    ensures Deduping(container, SwapRemove(es, v), v)
  {
    var es' := SwapRemove(es, v);
    assert es'[..v] == es[..v];
    SwapRemoveMultiset(es, v);
    forall k | k in Keys(es) ensures k in Keys(es') {
      var i :| 0 <= i < |es| && es[i].key == k;
      assert es'[if i == v then w else if i == |es| - 1 then v else i].key == k;
    }
    forall k | k in Keys(es') ensures k in Keys(es) {
    }
  }

  lemma DedupEnd<K, V>(container: seq<Entry<K, V>>, es: seq<Entry<K, V>>)
    requires Deduping(container, es, |es|)
    ensures Distinct(es) && Keys(es) == Keys(container) && multiset(es) <= multiset(container)
    ensures container != [] ==> es != [] && es[0] == container[0]
  {
    assert es[..|es|] == es;
  }

  // ----- comparing two maps

  lemma SubmapEqual<K, V>(a: seq<Entry<K, V>>, b: seq<Entry<K, V>>)
    requires Distinct(a) && Distinct(b) && |a| == |b|
    requires forall i | 0 <= i < |b| :: b[i].key in ToMap(a) && ToMap(a)[b[i].key] == b[i].value
    ensures ToMap(a) == ToMap(b)
  {
    ModelSize(a);
    ModelSize(b);
    forall k | k in ToMap(b) ensures k in ToMap(a) && ToMap(a)[k] == ToMap(b)[k] {
      var i := ToMapKeys(b, k);
      ToMapEntry(b, i);
    }
    SubsetSame(ToMap(b).Keys, ToMap(a).Keys);
  }

  // ----- what removing entries does to the map

  lemma SubMap<K, V>(es: seq<Entry<K, V>>, vs: seq<Entry<K, V>>, m: map<K, V>)
    requires Distinct(es) && Distinct(vs)
    requires forall e | e in vs :: e in es && e.key in m
    requires forall e | e in es && e.key in m :: e in vs
    requires forall k | k in m :: k in ToMap(es) && m[k] == ToMap(es)[k]
    ensures ToMap(vs) == m
  {
    forall i | 0 <= i < |vs| ensures vs[i].key in m && m[vs[i].key] == vs[i].value {
      assert vs[i] in vs;
      var j :| 0 <= j < |es| && es[j] == vs[i];
      ToMapEntry(es, j);
    }
    forall k | k in m ensures exists i :: 0 <= i < |vs| && vs[i].key == k {
      var j := ToMapKeys(es, k);
      assert es[j] in es;
      var i :| 0 <= i < |vs| && vs[i] == es[j];
    }
    IsToMap(vs, m);
  }

  /** With distinct keys every entry occurs once. */
  lemma {:induction false} EntryOnce<K, V>(es: seq<Entry<K, V>>, i: nat)
    requires Distinct(es) && i < |es|
    ensures multiset(es)[es[i]] == 1
  {
    var a, b := es[..i], es[i + 1..];
    assert es == a + [es[i]] + b;
    assert es[i] !in a && es[i] !in b;
  }

  lemma KeptMap<K, V>(es: seq<Entry<K, V>>, vs: seq<Entry<K, V>>, pred: Entry<K, V> -> bool)
    requires Distinct(es) && Distinct(vs) && multiset(vs) == Kept(es, pred)
    ensures ToMap(vs) == map k | k in ToMap(es) && !pred(Entry(k, ToMap(es)[k])) :: ToMap(es)[k]
  {
    var m := map k | k in ToMap(es) && !pred(Entry(k, ToMap(es)[k])) :: ToMap(es)[k];
    forall e | e in vs ensures e in es && e.key in m {
      assert e in multiset(vs) && e in es;
      var j :| 0 <= j < |es| && es[j] == e;
      ToMapEntry(es, j);
    }
    forall e | e in es && e.key in m ensures e in vs {
      var j :| 0 <= j < |es| && es[j] == e;
      ToMapEntry(es, j);
      assert e in multiset(es) && e in Kept(es, pred) && e in multiset(vs);
    }
    SubMap(es, vs, m);
  }

  /** An entry survives the removal of a range exactly when it, and then its key, is not in the range. */
  lemma OutsideRange<K, V>(es: seq<Entry<K, V>>, first: nat, last: nat, j: nat)
    requires first <= last <= |es| && Distinct(es) && j < |es|
    ensures es[j] in multiset(es) - multiset(es[first..last]) <==> !(first <= j < last)
    ensures es[j].key in Keys(es[first..last]) <==> first <= j < last
  {
    var r := es[first..last];
    assert forall i | 0 <= i < |r| :: r[i] == es[first + i];
    EntryOnce(es, j);
    if first <= j < last {
      assert r[j - first].key == es[j].key;
      EntryOnce(r, j - first);
    } else {
      assert es[j] !in r;
    }
  }

  lemma RangeMap<K, V>(es: seq<Entry<K, V>>, vs: seq<Entry<K, V>>, first: nat, last: nat)
    requires first <= last <= |es| && Distinct(es) && Distinct(vs)
    requires vs == RangeErased(es, first, last)
    ensures multiset(vs) == multiset(es) - multiset(es[first..last])
    ensures ToMap(vs) == ToMap(es) - Keys(es[first..last])
  {
    RangeErasedMultiset(es, first, last);
    hide RangeErased;
    var m := ToMap(es) - Keys(es[first..last]);
    forall e | e in vs ensures e in es && e.key in m {
      assert e in multiset(vs) && e in multiset(es) && e in es;
      var j :| 0 <= j < |es| && es[j] == e;
      ToMapEntry(es, j);
      OutsideRange(es, first, last, j);
    }
    forall e | e in es && e.key in m ensures e in vs {
      var j :| 0 <= j < |es| && es[j] == e;
      OutsideRange(es, first, last, j);
      assert e in multiset(vs);
    }
    SubMap(es, vs, m);
  }
}
