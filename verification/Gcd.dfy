/** The greatest common divisor of `etl/gcd.h`, and the facts about it that a rotation rests on. */
module Gcd {

  function Euclid(a: nat, b: nat): (g: nat)
    decreases b
  {
    if b == 0 then a else Euclid(b, a % b)
  }

  ghost predicate Divides(d: nat, a: int) {
    exists q: int :: a == q * d
  }

  lemma DividesSum(d: nat, a: int, b: int, k: int)
    requires Divides(d, a) && Divides(d, b)
    ensures Divides(d, a + k * b)
  {
    var p: int :| a == p * d;
    var q: int :| b == q * d;
    assert a + k * b == (p + k * q) * d;
  }

  lemma {:induction false} EuclidDivides(a: nat, b: nat)
    ensures Divides(Euclid(a, b), a) && Divides(Euclid(a, b), b)
    decreases b
  {
    if b == 0 {
      assert a == 1 * a && 0 == 0 * a;
    } else {
      EuclidDivides(b, a % b);
      assert a == a % b + (a / b) * b;
      DividesSum(Euclid(a, b), a % b, b, a / b);
    }
  }

  lemma {:induction false} EuclidPositive(a: nat, b: nat)
    requires a > 0 || b > 0
    ensures Euclid(a, b) > 0
    decreases b
  {
    if b > 0 {
      EuclidPositive(b, a % b);
    }
  }

  lemma Combination(u: int, v: int, a: int, b: int, q: int, r: int)
    requires a == q * b + r
    ensures v * a + (u - v * q) * b == u * b + v * r
  {
    assert v * a == v * (q * b) + v * r;
    assert (v * q) * b == v * (q * b);
    assert (u - v * q) * b == u * b - (v * q) * b;
  }

  /** Bezout: the divisor is an integer combination of the two numbers. */
  lemma {:induction false} Bezout(a: nat, b: nat) returns (x: int, y: int)
    ensures x * a + y * b == Euclid(a, b)
    decreases b
  {
    if b == 0 {
      x, y := 1, 0;
    } else {
      var u, v := Bezout(b, a % b);
      x, y := v, u - v * (a / b);
      Combination(u, v, a, b, a / b, a % b);
    }
  }

  /** It is the greatest common divisor: every common divisor divides it. */
  lemma EuclidGreatest(a: nat, b: nat, d: nat)
    requires Divides(d, a) && Divides(d, b)
    ensures Divides(d, Euclid(a, b))
  {
    var x, y := Bezout(a, b);
    assert Divides(d, 0) by { assert 0 == 0 * d; }
    DividesSum(d, 0, a, x);
    DividesSum(d, x * a, b, y);
  }

  /** The loop of `gcd` for unsigned arguments. */
  method Compute(a: nat, b: nat) returns (g: nat)
    ensures g == Euclid(a, b)
  {
    if a == 0 || b == 0 {
      return a + b;
    }
    var x, y := a, b;
    while y != 0
      invariant x >= 0 && y >= 0 && Euclid(x, y) == Euclid(a, b)
      decreases y
    {
      x, y := y, x % y;
    }
    g := x;
  }
}
