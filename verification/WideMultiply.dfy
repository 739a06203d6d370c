/** The 64x64 to 128 bit multiplication of `ankerl::unordered_dense`'s wyhash, from 32-bit limbs. */
module WideMultiply {
  import opened Words

  // 64-bit arithmetic discards what does not fit.

  function Wrap(x: int): (r: uint64) {
    x % WORD64
  }

  function Add64(x: int, y: int): uint64 {
    Wrap(x + y)
  }

  function Mul64(x: int, y: int): uint64 {
    Wrap(x * y)
  }

  lemma WrapSmall(x: nat)
    requires x < WORD64
    ensures Wrap(x) == x
  {
  }

  lemma LimbProduct(x: nat, y: nat)
    requires x < WORD32 && y < WORD32
    ensures Mul64(x, y) == x * y
  {
    MulMonotone(x, WORD32 - 1, y);
    MulMonotone(0, x, y);
    WrapSmall(x * y);
    hide Wrap;
  }

  /** Long multiplication in base `h`. */
  lemma LongMultiplication(ha: nat, la: nat, hb: nat, lb: nat, h: nat)
    ensures (ha * h + la) * (hb * h + lb) == ha * hb * (h * h) + (ha * lb + hb * la) * h + la * lb
  {
    calc {
      (ha * h + la) * (hb * h + lb);
      (ha * h) * (hb * h) + (ha * h) * lb + la * (hb * h) + la * lb;
      { assert (ha * h) * (hb * h) == ha * hb * (h * h); }
      { assert (ha * h) * lb == ha * lb * h && la * (hb * h) == hb * la * h; }
      ha * hb * (h * h) + ha * lb * h + hb * la * h + la * lb;
      ha * hb * (h * h) + (ha * lb + hb * la) * h + la * lb;
    }
  }

  /** A sum that wrapped is below its first operand, and only then. */
  lemma CarryDetected(x: uint64, y: uint64)
    ensures var s := Add64(x, y);
      (s < x <==> x + y >= WORD64) && x + y == s + if s < x then WORD64 else 0
  {
  }

  lemma ProductByLimbs(a: uint64, b: uint64)
    ensures var ha, la, hb, lb := a / WORD32, a % WORD32, b / WORD32, b % WORD32;
      a * b == (ha * hb) * WORD64 + (ha * lb + hb * la) * WORD32 + la * lb
  {
    LongMultiplication(a / WORD32, a % WORD32, b / WORD32, b % WORD32, WORD32);
  }

  lemma ShiftSplit(x: uint64)
    ensures x * WORD32 == (x / WORD32) * WORD64 + Mul64(x, WORD32)
  {
    var q, r := x / WORD32, x % WORD32;
    assert x * WORD32 == q * WORD64 + r * WORD32;
  }

  lemma ProductBound(a: uint64, b: uint64)
    ensures 0 <= a * b < WORD64 * WORD64
  {
    MulMonotone(a, WORD64 - 1, b);
    MulMonotone(b, WORD64 - 1, WORD64 - 1);
  }

  /** The portable branch: `lo` and `hi` are what `*a` and `*b` hold afterwards. */
  method Mum(a: uint64, b: uint64) returns (lo: uint64, hi: uint64)
    ensures hi * WORD64 + lo == a * b
  {
    var ha, hb := a / WORD32, b / WORD32;
    var la, lb := a % WORD32, b % WORD32;
    var rh, rm0, rm1, rl := Mul64(ha, hb), Mul64(ha, lb), Mul64(hb, la), Mul64(la, lb);
    var t := Add64(rl, Mul64(rm0, WORD32));
    var c := if t < rl then 1 else 0;
    lo := Add64(t, Mul64(rm1, WORD32));
    c := c + if lo < t then 1 else 0;
    hi := Add64(Add64(Add64(rh, rm0 / WORD32), rm1 / WORD32), c);
    LimbProduct(ha, hb);
    LimbProduct(ha, lb);
    LimbProduct(hb, la);
    LimbProduct(la, lb);
    ProductByLimbs(a, b);
    ProductBound(a, b);
    Carries(rh, rm0, rm1, rl, a * b);
  }

  /** Both carries are caught, and the upper half does not overflow. */
  lemma Carries(rh: uint64, rm0: uint64, rm1: uint64, rl: uint64, product: nat)
    requires product == rh * WORD64 + (rm0 + rm1) * WORD32 + rl && product < WORD64 * WORD64
    ensures var t := Add64(rl, Mul64(rm0, WORD32));
      var lo := Add64(t, Mul64(rm1, WORD32));
      var c := (if t < rl then 1 else 0) + (if lo < t then 1 else 0);
      Add64(Add64(Add64(rh, rm0 / WORD32), rm1 / WORD32), c) * WORD64 + lo == product
  {
    hide Wrap, Add64, Mul64;
    var q0, q1 := rm0 / WORD32, rm1 / WORD32;
    var s0, s1 := Mul64(rm0, WORD32), Mul64(rm1, WORD32);
    ShiftSplit(rm0);
    ShiftSplit(rm1);
    var t := Add64(rl, s0);
    CarryDetected(rl, s0);
    CarryDetected(t, s1);
    var c := (if t < rl then 1 else 0) + (if Add64(t, s1) < t then 1 else 0);
    assert (rh + q0 + q1 + c) * WORD64 + Add64(t, s1) == product;
    NoWrap(rh, q0);
    NoWrap(rh + q0, q1);
    NoWrap(rh + q0 + q1, c);
  }

  lemma NoWrap(x: nat, y: nat)
    ensures x + y < WORD64 ==> Add64(x, y) == x + y
  {
  }

  /** `mix` folds the two halves of the product into one word. */
  method Mix(a: uint64, b: uint64) returns (r: nat)
    ensures exists lo: uint64, hi: uint64 :: hi * WORD64 + lo == a * b && r == Xor(lo, hi) < WORD64
  {
    var lo, hi := Mum(a, b);
    r := Xor(lo, hi);
    Pow2Values();
    XorBound(lo, hi, 64);
  }
}
