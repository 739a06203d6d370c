/** A byte as a number and as eight bits. */
module Octets {

  /** Eight bits with the value `x`. */
  function AsBits(x: nat): (b: bv8)
    requires x < 256
  {
    if x == 0 then 0 else AsBits(x - 1) + 1
  }

  lemma Successor(b: bv8)
    requires b < 255
    ensures (b + 1) as int == b as int + 1
  {
  }

  lemma BelowLast(b: bv8)
    ensures b as int < 255 ==> b < 255
  {
  }

  lemma {:induction false} Bits(x: nat)
    requires x < 256
    ensures AsBits(x) as int == x
  {
    if x > 0 {
      Bits(x - 1);
      BelowLast(AsBits(x - 1));
      Successor(AsBits(x - 1));
    }
  }

  lemma HalveByte(b: bv8)
    ensures (b >> 1) as int == (b as int) / 2
  {
  }
}

/** Eight bytes at a time: the 64-bit load, shift, mask and store of `try_increase_info`. */
module ByteLanes {
  import opened Octets
  import opened Words

  /** A little-endian load of eight bytes. */
  function Load64(b0: bv8, b1: bv8, b2: bv8, b3: bv8, b4: bv8, b5: bv8, b6: bv8, b7: bv8): bv64 {
    (b0 as bv64) | (b1 as bv64 << 8) | (b2 as bv64 << 16) | (b3 as bv64 << 24)
    | (b4 as bv64 << 32) | (b5 as bv64 << 40) | (b6 as bv64 << 48) | (b7 as bv64 << 56)
  }

  // The eight bytes a store writes.
  function Lane0(v: bv64): bv8 { (v & 0xff) as bv8 }
  function Lane1(v: bv64): bv8 { ((v >> 8) & 0xff) as bv8 }
  function Lane2(v: bv64): bv8 { ((v >> 16) & 0xff) as bv8 }
  function Lane3(v: bv64): bv8 { ((v >> 24) & 0xff) as bv8 }
  function Lane4(v: bv64): bv8 { ((v >> 32) & 0xff) as bv8 }
  function Lane5(v: bv64): bv8 { ((v >> 40) & 0xff) as bv8 }
  function Lane6(v: bv64): bv8 { ((v >> 48) & 0xff) as bv8 }
  function Lane7(v: bv64): bv8 { ((v >> 56) & 0xff) as bv8 }

  const MASK: bv64 := 0x7f7f7f7f7f7f7f7f

  /** Shifting and masking the whole word shifts every lane; no bit crosses over. */
  lemma HalveLanes(b0: bv8, b1: bv8, b2: bv8, b3: bv8, b4: bv8, b5: bv8, b6: bv8, b7: bv8)
    ensures var v := (Load64(b0, b1, b2, b3, b4, b5, b6, b7) >> 1) & MASK;
      && Lane0(v) == b0 >> 1 && Lane1(v) == b1 >> 1 && Lane2(v) == b2 >> 1 && Lane3(v) == b3 >> 1
      && Lane4(v) == b4 >> 1 && Lane5(v) == b5 >> 1 && Lane6(v) == b6 >> 1 && Lane7(v) == b7 >> 1
  {
  }

  function AsByte(b: bv8): (x: uint8) {
    b as int
  }

  /** One step of the re-encoding loop on eight bytes. */
  method HalveEight(b: seq<uint8>) returns (r: seq<uint8>)
    requires |b| == 8
    ensures |r| == 8 && forall k | 0 <= k < 8 :: r[k] == b[k] / 2
  {
    hide Load64, AsBits, AsByte;
    var val := Load64(AsBits(b[0]), AsBits(b[1]), AsBits(b[2]), AsBits(b[3]), AsBits(b[4]), AsBits(b[5]), AsBits(b[6]), AsBits(b[7]));
    HalveLanes(AsBits(b[0]), AsBits(b[1]), AsBits(b[2]), AsBits(b[3]), AsBits(b[4]), AsBits(b[5]), AsBits(b[6]), AsBits(b[7]));
    val := (val >> 1) & MASK;
    r := [AsByte(Lane0(val)), AsByte(Lane1(val)), AsByte(Lane2(val)), AsByte(Lane3(val)),
          AsByte(Lane4(val)), AsByte(Lane5(val)), AsByte(Lane6(val)), AsByte(Lane7(val))];
    forall k | 0 <= k < 8 ensures AsByte(AsBits(b[k]) >> 1) == b[k] / 2 {
      HalveBits(b[k]);
    }
  }

  lemma HalveBits(x: uint8)
    ensures AsByte(AsBits(x) >> 1) == x / 2
  {
    hide AsBits;
    HalveByte(AsBits(x));
    Bits(x);
  }
}
