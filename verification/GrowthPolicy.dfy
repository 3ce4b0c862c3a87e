/** `power_of_two_growth_policy<2>`, shared by the Robin Hood and the sparse tables:
    bucket counts are powers of two, so that a mask maps a hash to its bucket. */
module GrowthPolicy {
  import opened Arith
  import opened Bits

  /** Bits in a `size_t`. */
  const SIZE_BITS: nat := 64

  const GROWTH_FACTOR: nat := 2

  /** Largest power of two a `size_t` holds. */
  function MaxBucketCount(): nat {
    Pow2(SIZE_BITS - 1)
  }

  predicate IsPowerOfTwo(v: nat) {
    v != 0 && And(v, v - 1) == 0
  }

  /** The mask of a table of `n` buckets; it is 0 for no bucket as well as for one. */
  function MaskFor(n: nat): nat {
    if n == 0 then 0 else n - 1
  }

  function BucketForHash(mask: nat, hash: nat): nat {
    And(hash, mask)
  }

  /** `None` stands for the `length_error` of `next_bucket_count` and of the constructor. */
  datatype Count = None | Count(n: nat)

  function NextBucketCount(mask: nat): Count {
    if mask + 1 > MaxBucketCount() / GROWTH_FACTOR then None
    else Count((mask + 1) * GROWTH_FACTOR)
  }

  /** The home bucket of a hash is its remainder modulo the bucket count. */
  lemma HomeIsRemainder(n: nat, hash: nat)
    requires n > 0 && IsPow2(n)
    ensures BucketForHash(MaskFor(n), hash) == hash % n
    ensures BucketForHash(MaskFor(n), hash) < n
  {
    var k: nat :| n == Pow2(k);
    AndMask(hash, k);
  }

  /** An index fits `bits` bits and its top `i` of them are ones (all of them once `i` exceeds
      the width): what the smearing loop has achieved before the shift by `i`. */
  ghost predicate TopOnes(x: nat, bits: nat, i: nat) {
    && x < Pow2(bits)
    && if i <= bits then Shr(x, bits - i) == Pow2(i) - 1 else x == Pow2(bits) - 1
  }

  lemma ShrSmall(x: nat, s: nat)
    requires x < Pow2(s)
    ensures Shr(x, s) == 0
  {
    DivUnique(x, 0, Pow2(s), x);
  }

  lemma ShrSplit(x: nat, s: nat) returns (low: nat)
    ensures low < Pow2(s) && x == Shr(x, s) * Pow2(s) + low
  {
    low := x % Pow2(s);
  }

  lemma AllOnesSplit(p: nat, q: nat, pq: nat)
    requires pq == p * q
    ensures pq - 1 == (p - 1) * q + (q - 1)
  {
  }

  lemma DivOnes(p: nat, q: nat, pq: nat)
    requires p >= 1 && q >= 1 && pq == p * q
    ensures (pq - 1) / q == p - 1
  {
    AllOnesSplit(p, q, pq);
    DivUnique(pq - 1, p - 1, q, q - 1);
  }

  lemma ShrOnes(b: nat, c: nat)
    ensures Shr(Pow2(b + c) - 1, c) == Pow2(b) - 1
  {
    var p, q, pq := Pow2(b), Pow2(c), Pow2(b + c);
    assert pq == p * q by { Pow2Add(b, c); }
    assert Shr(pq - 1, c) == (pq - 1) / q;
    assert (pq - 1) / q == p - 1 by { DivOnes(p, q, pq); }
  }

  /** `s` ones below `i` ones: or-ing `s` ones into the low part fills it. */
  lemma FillLow(i: nat, s: nat, low: nat)
    requires low < Pow2(s)
    ensures Or((Pow2(i) - 1) * Pow2(s) + low, Pow2(s) - 1) == Pow2(i + s) - 1
  {
    OrLow(Pow2(i) - 1, low, s, Pow2(s) - 1);
    OrAllOnes(low, s);
    Pow2Add(i, s);
    AllOnesSplit(Pow2(i), Pow2(s), Pow2(i + s));
  }

  lemma OrFits(x: nat, y: nat, bits: nat)
    requires x < Pow2(bits) && y < Pow2(bits)
    ensures Or(x, y) < Pow2(bits)
  {
    OrLow(0, x, bits, y);
  }

  lemma {:induction false} OrAtLeast(x: nat, y: nat)
    ensures Or(x, y) >= x
    decreases x
  {
    if x > 0 {
      OrAtLeast(x / 2, y / 2);
      OrUnfold(x, y);
    }
  }

  lemma ShrLeq(x: nat, s: nat)
    ensures Shr(x, s) <= x
  {
    var low := ShrSplit(x, s);
    if Shr(x, s) > x {
      MulAtLeast(Pow2(s), Shr(x, s));
    }
  }

  /** One round of the smearing loop doubles the run of ones at the top. */
  lemma SmearStep(x: nat, bits: nat, i: nat)
    requires i >= 1 && TopOnes(x, bits, i)
    ensures TopOnes(Or(x, Shr(x, i)), bits, 2 * i)
  {
    ShrLeq(x, i);
    OrFits(x, Shr(x, i), bits);
    if i > bits {
      Pow2Monotonic(bits, i);
      ShrSmall(x, i);
    } else if 2 * i <= bits {
      SmearInside(x, bits, i);
    } else {
      SmearLast(x, bits, i);
    }
  }

  lemma SmearInside(x: nat, bits: nat, i: nat)
    requires i >= 1 && 2 * i <= bits && TopOnes(x, bits, i)
    ensures Shr(Or(x, Shr(x, i)), bits - 2 * i) == Pow2(2 * i) - 1
  {
    var s := bits - 2 * i;
    ShrOr(x, Shr(x, i), s);
    DivDiv(x, i, s);
    DivDiv(x, s, i);
    assert i + s == s + i == bits - i;
    var low := ShrSplit(Shr(x, s), i);
    FillLow(i, i, low);
  }

  lemma TopOnesShifted(x: nat, s: nat, i: nat)
    requires s <= i && Shr(x, s) == Pow2(i) - 1
    ensures Shr(x, i) == Pow2(s) - 1
  {
    DivDiv(x, s, i - s);
    ShrOnes(s, i - s);
  }

  lemma SmearLast(x: nat, bits: nat, i: nat)
    requires i <= bits < 2 * i && TopOnes(x, bits, i)
    ensures Or(x, Shr(x, i)) == Pow2(bits) - 1
  {
    var s := bits - i;
    TopOnesShifted(x, s, i);
    var low := ShrSplit(x, s);
    FillLow(i, s, low);
  }

  lemma {:induction false} WidthExists(x: nat) returns (bits: nat)
    requires x > 0
    ensures bits > 0 && Pow2(bits - 1) <= x < Pow2(bits)
  {
    if x == 1 {
      bits := 1;
    } else {
      bits := WidthExists(x / 2);
      bits := bits + 1;
    }
  }

  lemma FirstOne(x: nat, bits: nat)
    requires bits > 0 && Pow2(bits - 1) <= x < Pow2(bits)
    ensures TopOnes(x, bits, 1)
  {
    var low := ShrSplit(x, bits - 1);
    DivUnique(x, 1, Pow2(bits - 1), x - Pow2(bits - 1));
    assert Pow2(1) == 2;
  }

  /** The least power of two that is not below `value`. A larger `value` than the largest
      bucket count has been refused by the constructor before the call. */
  method RoundUpToPowerOfTwo(value: nat) returns (r: nat)
    requires value <= MaxBucketCount()
    ensures IsPow2(r)
    ensures value <= r
    ensures forall p: nat :: IsPow2(p) && value <= p ==> r <= p
  {
    if IsPowerOfTwo(value) {
      PowerOfTwoTest(value);
      return value;
    }
    if value == 0 {
      assert Pow2(0) == 1;
      return 1;
    }
    PowerOfTwoTest(value);
    assert Pow2(0) == 1;
    var x: nat := value - 1;
    ghost var bits := WidthExists(x);
    FirstOne(x, bits);
    assert bits < SIZE_BITS by { Pow2Exponents(bits - 1, SIZE_BITS - 1); }
    var i: nat := 1;
    while i < SIZE_BITS
      invariant i >= 1 && TopOnes(x, bits, i)
      invariant value - 1 <= x
      decreases SIZE_BITS - i
    {
      SmearStep(x, bits, i);
      OrAtLeast(x, Shr(x, i));
      x := Or(x, Shr(x, i));
      i := i * 2;
    }
    r := x + 1;
    LeastAbove(value, bits);
  }

  lemma LeastAbove(value: nat, bits: nat)
    requires bits > 0 && Pow2(bits - 1) < value
    ensures forall p: nat :: IsPow2(p) && value <= p ==> Pow2(bits) <= p
  {
    forall p: nat | IsPow2(p) && value <= p
      ensures Pow2(bits) <= p
    {
      var k: nat :| p == Pow2(k);
      Pow2Exponents(bits - 1, k);
      Pow2Monotonic(bits, k);
    }
  }

  lemma Doubling(mask: nat, n: nat)
    requires IsPow2(mask + 1) && NextBucketCount(mask) == Count(n)
    ensures IsPow2(n) && n == 2 * (mask + 1) && n <= MaxBucketCount()
  {
    var k: nat :| mask + 1 == Pow2(k);
    assert n == Pow2(k + 1);
  }
}
