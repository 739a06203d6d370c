/** How many objects fit into a small vector itself. */
module InlineCapacity {
  import opened Words

  function RoundUp(n: nat, multiple: nat): nat
    requires multiple > 0
  {
    ((n + (multiple - 1)) / multiple) * multiple
  }

  lemma FactorOrder(a: int, b: int, c: nat)
    requires a * c < b * c
    ensures a < b
  {
    assert (a - b) * c == a * c - b * c;
    if a >= b {
      MulMonotone(0, a - b, c);
    }
  }

  /** The least multiple that is not below `n`. */
  lemma RoundUpLeast(n: nat, multiple: nat, k: nat)
    requires multiple > 0
    ensures n <= RoundUp(n, multiple) < n + multiple
    ensures n <= k * multiple ==> RoundUp(n, multiple) <= k * multiple
  {
    var q := (n + (multiple - 1)) / multiple;
    assert n + (multiple - 1) == q * multiple + (n + (multiple - 1)) % multiple;
    if n <= k * multiple {
      assert (q - 1) * multiple == q * multiple - multiple;
      FactorOrder(q - 1, k, multiple);
      MulMonotone(q, k, multiple);
    }
  }

  /** An object type: its size is a multiple of its alignment, a power of two. */
  datatype ObjectType = ObjectType(size: nat, alignment: nat, units: nat) {
    predicate Valid() {
      alignment > 0 && size > 0 && size == units * alignment && (WORD_BYTES % alignment == 0 || alignment % WORD_BYTES == 0)
    }
  }

  const MAX_DIRECT: nat := 127

  function Alignment(t: ObjectType): nat {
    if WORD_BYTES > t.alignment then WORD_BYTES else t.alignment
  }

  lemma VectorNotEmpty(t: ObjectType, minimum: nat)
    ensures t.size * minimum >= 0 && Alignment(t) > 0 && RoundUp(t.size * minimum + 1, Alignment(t)) > 0
  {
    AlignmentPositive(t);
    ProductNatural(t.size, minimum);
    RoundUpLeast(t.size * minimum + 1, Alignment(t), 0);
  }

  lemma ProductNatural(a: nat, b: nat)
    ensures a * b >= 0
  {
  }

  function VectorSize(t: ObjectType, minimum: nat): (s: nat)
    requires t.Valid()
    ensures s > 0
  {
    VectorNotEmpty(t, minimum);
    RoundUp(t.size * minimum + 1, Alignment(t))
  }

  /** The size is the least multiple of both alignments with room for the byte and the objects asked for. */
  lemma VectorSizeLeast(t: ObjectType, minimum: nat, j: nat, k: nat)
    requires t.Valid() && j * WORD_BYTES == k * t.alignment > t.size * minimum
    ensures t.size * minimum < VectorSize(t, minimum) <= j * WORD_BYTES
  {
    hide RoundUp;
    ProductNatural(t.size, minimum);
    RoundUpLeast(t.size * minimum + 1, Alignment(t), if WORD_BYTES > t.alignment then j else k);
  }

  lemma VectorSizeAligned(t: ObjectType, minimum: nat)
    requires t.Valid()
    ensures VectorSize(t, minimum) % WORD_BYTES == 0 && VectorSize(t, minimum) % t.alignment == 0
  {
    hide RoundUp;
    AlignmentPositive(t);
    var a := Alignment(t);
    ProductNatural(t.size, minimum);
    var q := Rounded(t.size * minimum + 1, a);
    AlignmentDivides(t);
    MultipleOfFactor(q, a, t.alignment);
    MultipleOfFactor(q, a, WORD_BYTES);
  }

  lemma MultipleOfFactor(q: nat, a: nat, d: nat)
    requires d > 0 && a % d == 0
    ensures q * a % d == 0
  {
    var k := a / d;
    assert a == k * d && q * a == (q * k) * d;
    DivModUnique(q * a, d, q * k, 0);
  }

  function AutomaticCapacity(t: ObjectType, minimum: nat): nat
    requires t.Valid()
  {
    QuotientNatural(VectorSize(t, minimum) - 1, t.size);
    var n := (VectorSize(t, minimum) - 1) / t.size;
    if n < MAX_DIRECT then n else MAX_DIRECT
  }

  lemma Division(x: nat, d: nat) returns (q: nat, r: nat)
    requires d > 0
    ensures q == x / d && r == x % d && x == q * d + r && r < d
  {
    q, r := x / d, x % d;
  }

  /** The vector's size is a multiple of its elements' alignment. */
  lemma AlignedSize(t: ObjectType, minimum: nat) returns (m: nat)
    requires t.Valid()
    ensures VectorSize(t, minimum) == m * t.alignment
  {
    hide RoundUp, Alignment;
    AlignmentPositive(t);
    var a := Alignment(t);
    var n: nat := t.size * minimum + 1;
    var q := Rounded(n, a);
    var k, r := Division(a, t.alignment);
    AlignmentDivides(t);
    m := q * k;
    Regrouped(q, k, t.alignment);
  }

  lemma AlignmentPositive(t: ObjectType)
    ensures Alignment(t) > 0
  {
  }

  lemma Regrouped(q: nat, k: nat, a: nat)
    ensures q * (k * a) == (q * k) * a
  {
  }

  lemma Rounded(n: nat, multiple: nat) returns (q: nat)
    requires multiple > 0
    ensures RoundUp(n, multiple) == q * multiple
  {
    q := (n + (multiple - 1)) / multiple;
  }

  lemma AlignmentDivides(t: ObjectType)
    requires t.Valid()
    ensures Alignment(t) % t.alignment == 0 && Alignment(t) % WORD_BYTES == 0
  {
    if WORD_BYTES % t.alignment != 0 {
      var k, r := Division(t.alignment, WORD_BYTES);
      MulSign(k, WORD_BYTES);
    }
  }

  /** Whole multiples of the alignment that lie below a multiple of it leave room for one more alignment. */
  lemma RoomForAlignment(n: nat, units: nat, alignment: nat, m: nat)
    requires n * (units * alignment) < m * alignment
    ensures n * (units * alignment) + alignment <= m * alignment
  {
    var k := n * units;
    assert n * (units * alignment) == k * alignment;
    FactorOrder(k, m, alignment);
    MulMonotone(k + 1, m, alignment);
    assert (k + 1) * alignment == k * alignment + alignment;
  }

  lemma CapacityQuotient(t: ObjectType, minimum: nat) returns (q: nat)
    requires t.Valid()
    ensures AutomaticCapacity(t, minimum) == if q < MAX_DIRECT then q else MAX_DIRECT
    ensures q * t.size < VectorSize(t, minimum) <= (q + 1) * t.size
    ensures t.size * minimum < VectorSize(t, minimum)
  {
    RoundUpLeast(t.size * minimum + 1, Alignment(t), 0);
    hide RoundUp;
    var r;
    q, r := Division(VectorSize(t, minimum) - 1, t.size);
    assert (q + 1) * t.size == q * t.size + t.size;
  }

  /** The objects start at the first place aligned for them after the size byte, and all fit. */
  lemma CapacityFits(t: ObjectType, minimum: nat)
    requires t.Valid()
    ensures t.alignment + AutomaticCapacity(t, minimum) * t.size <= VectorSize(t, minimum)
  {
    var q := CapacityQuotient(t, minimum);
    var m := AlignedSize(t, minimum);
    hide VectorSize, AutomaticCapacity;
    var n := AutomaticCapacity(t, minimum);
    MulMonotone(n, q, t.size);
    RoomForAlignment(n, t.units, t.alignment, m);
  }

  /** No more would fit, unless the size byte cannot count more. */
  lemma CapacityGreatest(t: ObjectType, minimum: nat)
    requires t.Valid() && AutomaticCapacity(t, minimum) < MAX_DIRECT
    ensures t.alignment + (AutomaticCapacity(t, minimum) + 1) * t.size > VectorSize(t, minimum)
  {
    var q := CapacityQuotient(t, minimum);
    hide VectorSize, AutomaticCapacity;
  }

  /** Every size up to the capacity can be read back from the byte. */
  lemma CapacityCounted(t: ObjectType, minimum: nat, size: nat)
    requires t.Valid() && size <= AutomaticCapacity(t, minimum)
    ensures DirectByte(size) % 2 == 1 && DirectByte(size) / 2 == size
  {
    hide VectorSize;
    DirectByteRoundTrip(size);
  }

  lemma QuotientEnough(size: nat, minimum: nat, q: nat, v: nat)
    requires size * minimum < v <= (q + 1) * size
    ensures minimum <= q
  {
    if minimum > q {
      MulMonotone(q + 1, minimum, size);
      assert false;
    }
  }

  /** At least as many fit as were asked for. */
  lemma CapacityEnough(t: ObjectType, minimum: nat)
    requires t.Valid() && minimum <= MAX_DIRECT
    ensures AutomaticCapacity(t, minimum) >= minimum
  {
    var q := CapacityQuotient(t, minimum);
    hide *;
    QuotientEnough(t.size, minimum, q, VectorSize(t, minimum));
  }

  /** The byte that holds the direct size next to the mode bit. */
  function DirectByte(size: nat): uint8 {
    (2 * size + 1) % 0x100
  }

  /** The size can be read back exactly if it is within the limit on direct elements; the mode bit always can. */
  lemma DirectByteRoundTrip(size: nat)
    ensures DirectByte(size) % 2 == 1
    ensures DirectByte(size) / 2 == size <==> size <= MAX_DIRECT
  {
  }
}
