/** The mixing step in `robin_hood`'s `keyToIdx`, and the multipliers it meets. */
module HashMixing {
  import opened Words

  const INITIAL_MULTIPLIER: uint64 := 0xc4ceb9fe1a85ec53
  const MULTIPLIER_STEP: uint64 := 0xc4ceb9fe1a85ec54

  function NextMultiplier(m: uint64): uint64 {
    (m + MULTIPLIER_STEP) % WORD64
  }

  /** The multiplier after `k` calls of `nextHashMultiplier`. */
  function Multiplier(k: nat): uint64 {
    if k == 0 then INITIAL_MULTIPLIER else NextMultiplier(Multiplier(k - 1))
  }

  lemma NextRound(k: nat)
    ensures Multiplier(k + 1) == NextMultiplier(Multiplier(k))
  {
  }

  lemma {:induction false} MultiplierOdd(k: nat)
    ensures Multiplier(k) % 2 == 1
  {
    if k > 0 {
      MultiplierOdd(k - 1);
    }
  }

  /** `h *= mult; h ^= h >> 33`. */
  function Mixed(h: uint64, mult: uint64): nat {
    var p := h * mult % WORD64;
    Xor(p, Shr(p, 33))
  }

  /** The shifted word can be read off the mixed one, because shifting it once more leaves nothing. */
  lemma XorShiftInjective(x: nat, y: nat)
    requires x < WORD64 && y < WORD64
    requires Xor(x, Shr(x, 33)) == Xor(y, Shr(y, 33))
    ensures x == y
  {
    TopBits(x);
    TopBits(y);
    XorUndo(x, Shr(x, 33));
    XorUndo(y, Shr(y, 33));
  }

  lemma TopBits(x: nat)
    requires x < WORD64
    ensures Shr(Xor(x, Shr(x, 33)), 33) == Shr(x, 33)
  {
    Pow2Values();
    Pow2Monotone(64, 66);
    ShrXor(x, Shr(x, 33), 33);
    ShrSum(x, 33, 33);
    ShrBound(x, 0, 66);
  }

  /** An odd factor cannot supply a power of two. */
  lemma {:induction false} OddCancel(d: int, m: nat, k: nat, q: int) returns (c: int)
    requires m % 2 == 1 && d * m == q * Pow2(k)
    ensures d == c * Pow2(k)
    decreases k
  {
    if k == 0 {
      c := d;
    } else {
      var p := Pow2(k - 1);
      assert q * Pow2(k) == 2 * (q * p);
      EvenFactor(d, m, q * p);
      assert 2 * ((d / 2) * m) == d * m;
      c := OddCancel(d / 2, m, k - 1, q);
      assert c * Pow2(k) == 2 * (c * p);
    }
  }

  lemma OddProduct(a: int, b: int)
    ensures (2 * a + 1) * (2 * b + 1) == 2 * (2 * a * b + a + b) + 1
  {
  }

  lemma EvenFactor(d: int, m: nat, half: int)
    requires m % 2 == 1 && d * m == 2 * half
    ensures d == 2 * (d / 2)
  {
    OddProduct(d / 2, m / 2);
  }

  lemma MultiplyInjective(a: uint64, b: uint64, m: uint64)
    requires m % 2 == 1 && a * m % WORD64 == b * m % WORD64
    ensures a == b
  {
    Pow2Values();
    var q := a * m / WORD64 - b * m / WORD64;
    assert (a - b) * m == a * m - b * m == q * WORD64;
    var c := OddCancel(a - b, m, 64, q);
  }

  /** No hash information is lost, whatever the number of multiplier changes. */
  lemma MixedInjective(a: uint64, b: uint64, k: nat)
    ensures Mixed(a, Multiplier(k)) == Mixed(b, Multiplier(k)) <==> a == b
  {
    MultiplierOdd(k);
    var m := Multiplier(k);
    if Mixed(a, m) == Mixed(b, m) {
      XorShiftInjective(a * m % WORD64, b * m % WORD64);
      MultiplyInjective(a, b, m);
    }
  }
}
