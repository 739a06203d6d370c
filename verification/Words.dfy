/** Fixed-width unsigned integers and powers of two, shared by the two hash tables. */
module Words {
  const WORD32: nat := 0x1_0000_0000
  const WORD_BYTES: nat := 8
  const WORD64: nat := 0x1_0000_0000_0000_0000

  type uint8 = x: int | 0 <= x < 0x100
  type uint32 = x: int | 0 <= x < WORD32
  type uint64 = x: int | 0 <= x < WORD64

  function Pow2(n: nat): (p: nat)
    ensures p >= 1
  {
    if n == 0 then 1 else 2 * Pow2(n - 1)
  }

  lemma {:induction false} Pow2Sum(a: nat, b: nat)
    ensures Pow2(a + b) == Pow2(a) * Pow2(b)
  {
    if a == 0 {
    } else {
      Pow2Sum(a - 1, b);
      assert a + b - 1 == (a - 1) + b;
    }
  }

  lemma {:induction false} Pow2Monotone(a: nat, b: nat)
    requires a <= b
    ensures Pow2(a) <= Pow2(b)
  {
    if a < b {
      Pow2Monotone(a, b - 1);
    }
  }

  lemma TwicePow2(n: nat, j: nat)
    ensures n * Pow2(j + 1) == 2 * n * Pow2(j) == 2 * (n * Pow2(j))
  {
  }

  lemma Pow2Values()
    ensures Pow2(2) == 4
    ensures Pow2(32) == WORD32
    ensures Pow2(64) == WORD64
  {
    assert Pow2(8) == 0x100;
    Pow2Sum(8, 8);
    Pow2Sum(16, 16);
    Pow2Sum(32, 32);
  }

  lemma QuotientBound(h: nat, bound: nat, d: nat)
    requires d > 0 && h < bound * d
    ensures h / d < bound
  {
    if h / d >= bound {
      MulMonotone(bound, h / d, d);
      assert false;
    }
  }

  lemma QuotientNatural(h: nat, d: nat)
    requires d > 0
    ensures h / d >= 0
  {
  }

  lemma MulMonotone(a: nat, b: nat, c: nat)
    requires a <= b
    ensures a * c <= b * c
  {
  }

  /** Quotient and remainder are determined by the division equation. */
  lemma DivModUnique(x: int, d: nat, q: int, r: nat)
    requires d > 0 && x == q * d + r && r < d
    ensures x / d == q && x % d == r
  {
    var q', r' := x / d, x % d;
    assert x == q' * d + r';
    var delta := q - q';
    assert delta * d == q * d - q' * d == r' - r;
    MulSign(delta, d);
  }

  /** A nonzero factor takes a product at least its other factor away from zero. */
  lemma MulSign(k: int, d: nat)
    ensures k >= 1 ==> k * d >= d
    ensures k <= -1 ==> k * d + d <= 0
    ensures k == 0 ==> k * d == 0
  {
    if k >= 1 {
      MulMonotone(1, k, d);
    } else if k <= -1 {
      MulMonotone(1, -k, d);
      assert (-k) * d == -(k * d);
    }
  }

  /** A right shift of a 64-bit word by `64 - bits` places is an index below `2^bits`. */
  lemma ShiftBound(h: uint64, bits: nat)
    requires bits <= 64
    ensures 0 <= h / Pow2(64 - bits) < Pow2(bits)
  {
    hide Pow2;
    Pow2Values();
    Pow2Sum(bits, 64 - bits);
    QuotientBound(h, Pow2(bits), Pow2(64 - bits));
  }

  // ----- bitwise exclusive or

  function Xor(a: nat, b: nat): nat
    decreases a + b
  {
    if a == 0 then b else if b == 0 then a else
      (a % 2 + b % 2) % 2 + 2 * Xor(a / 2, b / 2)
  }

  lemma {:induction false} XorParts(a: nat, b: nat)
    ensures Xor(a, b) / 2 == Xor(a / 2, b / 2)
    ensures Xor(a, b) % 2 == (a % 2 + b % 2) % 2
  {
  }

  lemma SameParts(x: nat, y: nat, a: nat, b: nat)
    requires x / 2 == a / 2 && x % 2 == (y % 2 + b % 2) % 2 && y % 2 == (a % 2 + b % 2) % 2
    ensures x == a
  {
  }

  lemma {:induction false} XorUndo(a: nat, b: nat)
    ensures Xor(Xor(a, b), b) == a
  {
    if a != 0 || b != 0 {
      hide Xor;
      XorParts(a, b);
      XorParts(Xor(a, b), b);
      XorUndo(a / 2, b / 2);
      SameParts(Xor(Xor(a, b), b), Xor(a, b), a, b);
    }
  }

  lemma {:induction false} XorBound(a: nat, b: nat, k: nat)
    requires a < Pow2(k) && b < Pow2(k)
    ensures Xor(a, b) < Pow2(k)
  {
    XorParts(a, b);
    if k > 0 {
      XorBound(a / 2, b / 2, k - 1);
    }
  }

  // ----- right shifts

  function Shr(a: nat, k: nat): nat {
    if k == 0 then a else Shr(a / 2, k - 1)
  }

  lemma {:induction false} ShrXor(a: nat, b: nat, k: nat)
    ensures Shr(Xor(a, b), k) == Xor(Shr(a, k), Shr(b, k))
  {
    if k > 0 {
      XorParts(a, b);
      ShrXor(a / 2, b / 2, k - 1);
    }
  }

  lemma {:induction false} ShrBound(a: nat, j: nat, k: nat)
    requires a < Pow2(j + k)
    ensures Shr(a, k) < Pow2(j)
  {
    if k > 0 {
      ShrBound(a / 2, j, k - 1);
    }
  }

  lemma {:induction false} ShrSum(a: nat, j: nat, k: nat)
    ensures Shr(Shr(a, j), k) == Shr(a, j + k)
  {
    if j > 0 {
      ShrSum(a / 2, j - 1, k);
    }
  }
}
