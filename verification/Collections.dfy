/** Sequences and finite sets, as several parts of the project count them. */
module Collections {

  function Reversed<T>(s: seq<T>): (r: seq<T>)
    ensures |r| == |s|
    ensures forall k | 0 <= k < |s| :: r[k] == s[|s| - 1 - k]
  {
    if s == [] then [] else Reversed(s[1..]) + [s[0]]
  }

  lemma {:induction false} ReversedMultiset<T>(s: seq<T>)
    ensures multiset(Reversed(s)) == multiset(s)
  {
    if s != [] {
      ReversedMultiset(s[1..]);
      assert s == [s[0]] + s[1..];
    }
  }

  ghost predicate NoDuplicates<T>(s: seq<T>) {
    forall i, j | 0 <= i < j < |s| :: s[i] != s[j]
  }

  ghost function Elements<T>(s: seq<T>): set<T> {
    set e | e in s
  }

  lemma NoElements<T>(s: seq<T>)
    requires s == []
    ensures Elements(s) == {}
  {
  }

  lemma {:induction false} OneMoreElement<T>(s: seq<T>, n: nat)
    requires NoDuplicates(s) && n < |s|
    ensures |Elements(s[..n])| == n && s[n] !in Elements(s[..n])
    ensures Elements(s[..n + 1]) == Elements(s[..n]) + {s[n]}
    decreases n
  {
    assert s[..n + 1] == s[..n] + [s[n]];
    if n == 0 {
      assert Elements(s[..0]) == {};
    } else {
      OneMoreElement(s, n - 1);
    }
  }

  /** A set of naturals below `k` has at most `k` elements. */
  lemma {:induction false} BelowCount(s: set<nat>, k: nat)
    requires forall x | x in s :: x < k
    ensures |s| <= k
  {
    if k == 0 {
      assert s == {};
    } else {
      BelowCount(s - {k - 1}, k - 1);
      assert s <= s - {k - 1} + {k - 1};
    }
  }

  lemma SubsetSize<T>(x: set<T>, y: set<T>)
    requires x <= y
    ensures |x| <= |y|
  {
    assert |y - x| == |y| - |x|;
  }

  lemma SubsetSame<T>(x: set<T>, y: set<T>)
    requires x <= y && |x| == |y|
    ensures x == y
  {
    assert |y - x| == |y| - |x|;
  }
}
