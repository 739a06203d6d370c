/** Stable rearrangement: elements the comparison cannot tell apart keep their order. */
module Stability {
  import opened Ordering

  /** The elements of `s` equivalent to `x`, in their order. */
  function Class<T>(less: (T, T) -> bool, s: seq<T>, x: T): (r: seq<T>) {
    if s == [] then [] else (if Equivalent(less, s[0], x) then [s[0]] else []) + Class(less, s[1..], x)
  }

  ghost predicate Stable<T(!new)>(less: (T, T) -> bool, before: seq<T>, after: seq<T>) {
    forall x :: Class(less, before, x) == Class(less, after, x)
  }

  lemma {:induction false} ClassConcat<T>(less: (T, T) -> bool, s: seq<T>, t: seq<T>, x: T)
    ensures Class(less, s + t, x) == Class(less, s, x) + Class(less, t, x)
  {
    if s == [] {
      assert s + t == t;
    } else {
      ClassConcat(less, s[1..], t, x);
      assert (s + t)[1..] == s[1..] + t;
    }
  }

  lemma {:induction false} ClassEmpty<T>(less: (T, T) -> bool, s: seq<T>, x: T)
    requires forall y | y in s :: !Equivalent(less, y, x)
    ensures Class(less, s, x) == []
  {
    if s != [] {
      ClassEmpty(less, s[1..], x);
    }
  }

  lemma {:induction false} ClassCount<T(!new)>(less: (T, T) -> bool, s: seq<T>, x: T)
    requires StrictWeak(less)
    ensures multiset(Class(less, s, x))[x] == multiset(s)[x]
  {
    if s != [] {
      ClassCount(less, s[1..], x);
      assert s == [s[0]] + s[1..];
    }
  }

  /** Stability implies that nothing is lost or added. */
  lemma StableRearranges<T(!new)>(less: (T, T) -> bool, s: seq<T>, t: seq<T>)
    requires StrictWeak(less) && Stable(less, s, t)
    ensures multiset(s) == multiset(t)
  {
    forall x ensures multiset(s)[x] == multiset(t)[x] {
      ClassCount(less, s, x);
      ClassCount(less, t, x);
    }
  }

  lemma StableAgain<T(!new)>(less: (T, T) -> bool, s: seq<T>, t: seq<T>, u: seq<T>)
    requires Stable(less, s, t) && Stable(less, t, u)
    ensures Stable(less, s, u)
  {
    forall x ensures Class(less, s, x) == Class(less, u, x) {
      assert Class(less, s, x) == Class(less, t, x);
    }
  }

  /** An element may be taken past elements that are all greater. */
  lemma StableMove<T(!new)>(less: (T, T) -> bool, p: seq<T>, q: seq<T>, v: T, rest: seq<T>)
    requires StrictWeak(less) && forall y | y in q :: less(v, y)
    ensures Stable(less, p + q + [v] + rest, p + [v] + q + rest)
  {
    forall x ensures Class(less, p + q + [v] + rest, x) == Class(less, p + [v] + q + rest, x) {
      ClassConcat(less, p + q + [v], rest, x);
      ClassConcat(less, p + q, [v], x);
      ClassConcat(less, p, q, x);
      ClassConcat(less, p + [v] + q, rest, x);
      ClassConcat(less, p + [v], q, x);
      ClassConcat(less, p, [v], x);
      if Equivalent(less, v, x) {
        forall y | y in q ensures !Equivalent(less, y, x) {
          assert Equivalent(less, v, x) && Equivalent(less, x, y) ==> Equivalent(less, v, y);
        }
        ClassEmpty(less, q, x);
      } else {
        ClassEmpty(less, [v], x);
      }
    }
  }

  /** There is only one sorted and stable rearrangement. */
  lemma {:induction false} StableSortUnique<T(!new)>(less: (T, T) -> bool, s: seq<T>, t: seq<T>)
    requires StrictWeak(less) && Sorted(less, s) && Sorted(less, t) && Stable(less, s, t)
    ensures s == t
  {
    StableRearranges(less, s, t);
    assert |multiset(s)| == |multiset(t)|;
    if s != [] {
      var x := s[0];
      Least(less, s, t);
      Least(less, t, s);
      assert Class(less, s, x) == Class(less, t, x);
      assert Equivalent(less, x, x) && Class(less, s, x)[0] == x;
      assert Class(less, t, x)[0] == t[0];
      assert s == [x] + s[1..] && t == [x] + t[1..];
      forall y ensures Class(less, s[1..], y) == Class(less, t[1..], y) {
        assert Class(less, s, y) == Class(less, t, y);
        var n := if Equivalent(less, x, y) then 1 else 0;
        assert Class(less, s[1..], y) == Class(less, s, y)[n..] && Class(less, t[1..], y) == Class(less, t, y)[n..];
      }
      StableSortUnique(less, s[1..], t[1..]);
    }
  }

  lemma Least<T(!new)>(less: (T, T) -> bool, s: seq<T>, t: seq<T>)
    requires StrictWeak(less) && Sorted(less, s) && multiset(s) == multiset(t) && |s| > 0 && |t| > 0
    ensures !less(t[0], s[0])
  {
    assert t[0] in multiset(t);
    var i :| 0 <= i < |s| && s[i] == t[0];
    if i == 0 {
      assert !less(s[0], s[0]);
    }
  }
}
