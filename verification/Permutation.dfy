/** The three-iterator `is_permutation`. */
module Permutation {

  /** `find`: the first position of `[first, last)` holding `x`, or `last`. */
  method Find<T(==)>(a: array<T>, first: nat, last: nat, x: T) returns (i: nat)
    requires first <= last <= a.Length
    ensures first <= i <= last && x !in a[first..i]
    ensures i < last ==> a[i] == x
  {
    i := first;
    while i < last && a[i] != x
      invariant first <= i <= last && x !in a[first..i]
    {
      i := i + 1;
    }
  }

  /** `count` */
  method Count<T(==)>(a: array<T>, first: nat, last: nat, x: T) returns (n: nat)
    requires first <= last <= a.Length
    ensures n == multiset(a[first..last])[x]
  {
    n := 0;
    var i := first;
    while i < last
      invariant first <= i <= last && n == multiset(a[first..i])[x]
    {
      assert a[first..i + 1] == a[first..i] + [a[i]];
      if a[i] == x {
        n := n + 1;
      }
      i := i + 1;
    }
  }

  /** The first `k` elements of `s` occur as often in `s` as in `t`. */
  ghost predicate Agree<T>(s: seq<T>, t: seq<T>, k: nat) {
    k <= |s| && forall x | x in s[..k] :: multiset(s)[x] == multiset(t)[x]
  }

  lemma AgreeSeen<T>(s: seq<T>, t: seq<T>, k: nat, p: nat)
    requires p < k < |s| && Agree(s, t, k) && s[p] == s[k]
    ensures Agree(s, t, k + 1)
  {
    assert s[..k][p] == s[k];
    assert s[..k + 1] == s[..k] + [s[k]];
  }

  lemma AgreeNew<T>(s: seq<T>, t: seq<T>, k: nat)
    requires k < |s| && Agree(s, t, k) && s[k] !in s[..k] && multiset(s[k..])[s[k]] == multiset(t)[s[k]]
    ensures Agree(s, t, k + 1)
  {
    assert s[..k + 1] == s[..k] + [s[k]];
    FirstOccurrence(s, k);
  }

  /** From the first occurrence of an element on, it is counted completely. */
  lemma FirstOccurrence<T>(s: seq<T>, k: nat)
    requires k < |s| && s[k] !in s[..k]
    ensures multiset(s[k..])[s[k]] == multiset(s)[s[k]] > 0
  {
    assert s == s[..k] + s[k..];
    assert s[k] in s;
  }

  /** Equal counts for the elements of one of two equally long sequences make them permutations of each other. */
  lemma CountsDecide<T>(s: seq<T>, t: seq<T>)
    requires |s| == |t| && Agree(s, t, |s|)
    ensures multiset(s) == multiset(t)
  {
    assert s[..|s|] == s;
    assert multiset(s) <= multiset(t);
    assert multiset(t) == multiset(s) + (multiset(t) - multiset(s));
    assert |multiset(t) - multiset(s)| == 0;
  }

  /** The counts `m` and `n` of a first occurrence in the rest of `s` and in `t` decide about it. */
  lemma CountedOnce<T>(s: seq<T>, t: seq<T>, k: nat, m: nat, n: nat)
    requires k < |s| && Agree(s, t, k) && s[k] !in s[..k]
    requires m == multiset(s[k..])[s[k]] && n == multiset(t)[s[k]]
    ensures m > 0 && (m != n ==> multiset(s) != multiset(t)) && (m == n ==> Agree(s, t, k + 1))
  {
    hide Agree;
    FirstOccurrence(s, k);
    if m == n {
      AgreeNew(s, t, k);
    }
  }

  lemma Parts<T>(w: seq<T>, begin: nat, i: nat, end: nat)
    requires begin <= i <= end <= |w|
    ensures w[begin..i] == w[begin..end][..i - begin] && w[i..end] == w[begin..end][i - begin..]
  {
  }

  /** One round: only the first occurrence of an element is counted, in the rest of its range and in the other. */
  method CountsAgree<T(==)>(a: array<T>, begin1: nat, i: nat, end1: nat, b: array<T>, begin2: nat, end2: nat)
    returns (same: bool)
    requires begin1 <= i < end1 <= a.Length && begin2 <= end2 <= b.Length
    requires Agree(a[begin1..end1], b[begin2..end2], i - begin1)
    ensures same ==> Agree(a[begin1..end1], b[begin2..end2], i - begin1 + 1)
    ensures !same ==> multiset(a[begin1..end1]) != multiset(b[begin2..end2])
  {
    hide Agree;
    ghost var s, t, k := a[begin1..end1], b[begin2..end2], i - begin1;
    Parts(a[..], begin1, i, end1);
    assert a[begin1..i] == s[..k] && a[i..end1] == s[k..] && a[i] == s[k];
    var j := Find(a, begin1, i, a[i]);
    if i == j {
      var n := Count(b, begin2, end2, a[i]);
      var m := Count(a, i, end1, a[i]);
      CountedOnce(s, t, k, m, n);
      same := !(n == 0 || m != n);
    } else {
      AgreeSeen(s, t, k, j - begin1);
      same := true;
    }
  }

  method IsPermutation<T(==)>(a: array<T>, begin1: nat, end1: nat, b: array<T>, begin2: nat) returns (result: bool)
    requires begin1 <= end1 <= a.Length && begin2 + (end1 - begin1) <= b.Length
    ensures result <==> multiset(a[begin1..end1]) == multiset(b[begin2..begin2 + (end1 - begin1)])
  {
    assert Agree(a[begin1..end1], b[begin2..begin2 + (end1 - begin1)], 0);
    hide Agree;
    if begin1 != end1 {
      var end2 := begin2 + (end1 - begin1);
      var i := begin1;
      while i != end1
        invariant begin1 <= i <= end1 && Agree(a[begin1..end1], b[begin2..end2], i - begin1)
        decreases end1 - i
      {
        var same := CountsAgree(a, begin1, i, end1, b, begin2, end2);
        if !same {
          return false;
        }
        i := i + 1;
      }
    }
    CountsDecide(a[begin1..end1], b[begin2..begin2 + (end1 - begin1)]);
    return true;
  }
}
