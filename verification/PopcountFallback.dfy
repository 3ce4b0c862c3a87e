/** `fallback_popcountll`: counting the ones of a 64-bit word in parallel, first in pairs of bits,
    then in fours, in bytes, and all bytes at once with one multiplication. */
module PopcountFallback {
  import opened Arith
  import opened Bits
  import opened SparseArray

  const M1: nat := 0x5555555555555555
  const M2: nat := 0x3333333333333333
  const M4: nat := 0x0f0f0f0f0f0f0f0f
  const H01: nat := 0x0101010101010101

  /** The number with `k` digits `digit` in the given base. */
  function Repeat(digit: nat, base: nat, k: nat): nat {
    if k == 0 then 0 else digit + base * Repeat(digit, base, k - 1)
  }

  lemma Distribute(base: nat, a: nat, u: nat, r: nat)
    ensures base * (a + u * r) == base * a + base * u * r
  {
    assert base * (u * r) == base * u * r;
  }

  /** `j` digits followed by `k` more. */
  lemma {:induction false} RepeatTwice(digit: nat, base: nat, j: nat, k: nat, unit: nat)
    requires unit == Unit(base, j)
    ensures Repeat(digit, base, j + k) == Repeat(digit, base, j) + unit * Repeat(digit, base, k)
  {
    if j > 0 {
      var rest := Repeat(digit, base, k);
      RepeatTwice(digit, base, j - 1, k, Unit(base, j - 1));
      Distribute(base, Repeat(digit, base, j - 1), Unit(base, j - 1), rest);
    }
  }

  ghost function Unit(base: nat, k: nat): nat {
    if k == 0 then 1 else base * Unit(base, k - 1)
  }

  lemma {:induction false} UnitTwice(base: nat, j: nat, k: nat)
    ensures Unit(base, j + k) == Unit(base, j) * Unit(base, k)
  {
    if j > 0 {
      UnitTwice(base, j - 1, k);
      assert base * (Unit(base, j - 1) * Unit(base, k)) == base * Unit(base, j - 1) * Unit(base, k);
    }
  }

  /** The masks are repeated digits. */
  lemma Masks()
    ensures M1 == Repeat(1, 4, 32) && M2 == Repeat(3, 16, 16) && M4 == Repeat(15, 256, 8)
  {
    assert Repeat(1, 4, 8) == 0x5555 && Unit(4, 8) == 0x10000;
    RepeatTwice(1, 4, 8, 8, 0x10000);
    UnitTwice(4, 8, 8);
    RepeatTwice(1, 4, 16, 16, 0x100000000);
    assert Repeat(3, 16, 4) == 0x3333 && Unit(16, 4) == 0x10000;
    RepeatTwice(3, 16, 4, 4, 0x10000);
    UnitTwice(16, 4, 4);
    RepeatTwice(3, 16, 8, 8, 0x100000000);
    assert Repeat(15, 256, 4) == 0x0f0f0f0f && Unit(256, 4) == 0x100000000;
    RepeatTwice(15, 256, 4, 4, 0x100000000);
  }

  /** One bit of a conjunction. */
  function One(a: nat, b: nat): nat {
    if a % 2 == 1 && b % 2 == 1 then 1 else 0
  }

  lemma AndTwo(a: nat, b: nat)
    ensures And(a, b) == 4 * And(a / 4, b / 4) + 2 * One(a / 2, b / 2) + One(a, b)
  {
    AndUnfold(a, b);
    AndUnfold(a / 2, b / 2);
    assert a / 2 / 2 == a / 4 && b / 2 / 2 == b / 4;
  }

  /** A number in two digits. */
  lemma TwoDigits(x: nat)
    ensures x == 16 * (x / 16) + 4 * (x / 4 % 4) + x % 4
    ensures x % 16 == 4 * (x / 4 % 4) + x % 4 && x / 4 / 4 == x / 16
    ensures x % 16 / 4 == x / 4 % 4 && x % 16 % 4 == x % 4
  {
  }

  /** Four bits of a conjunction. */
  function Nibble(a: nat, b: nat): nat {
    8 * One(a / 4 / 2, b / 4 / 2) + 4 * One(a / 4, b / 4) + 2 * One(a / 2, b / 2) + One(a, b)
  }

  lemma AndFour(a: nat, b: nat)
    ensures And(a, b) == 16 * And(a / 16, b / 16) + Nibble(a, b)
  {
    AndTwo(a, b);
    AndTwo(a / 4, b / 4);
    TwoDigits(a);
    TwoDigits(b);
  }

  lemma FourBits(a: nat)
    ensures a % 4 == 2 * (a / 2 % 2) + a % 2
    ensures a % 16 == 8 * (a / 4 / 2 % 2) + 4 * (a / 4 % 2) + 2 * (a / 2 % 2) + a % 2
  {
    TwoBits(a);
    TwoBits(a / 4);
    TwoDigits(a);
  }

  lemma TwoBits(a: nat)
    ensures a % 4 == 2 * (a / 2 % 2) + a % 2
  {
  }

  lemma OneWith(a: nat, b: nat)
    ensures One(a, 2 * b + 1) == a % 2 && One(a, 2 * b) == 0
  {
  }

  /** The low bits of a mask that ends in 1111, 0011 or 0000. */
  lemma LowNibble(a: nat, m: nat)
    ensures Nibble(a, 15 + 16 * m) == a % 16 && Nibble(a, 3 + 16 * m) == a % 4 && Nibble(a, 16 * m) == 0
  {
    FourBits(a);
    Masked(a, 15 + 16 * m, 7 + 8 * m, 3 + 4 * m, 1 + 2 * m);
    Masked(a, 3 + 16 * m, 1 + 8 * m, 4 * m, 2 * m);
    Masked(a, 16 * m, 8 * m, 4 * m, 2 * m);
    OneWith(a, 7 + 8 * m);
    OneWith(a, 1 + 8 * m);
    OneWith(a, 8 * m);
    OneWith(a / 2, 3 + 4 * m);
    OneWith(a / 2, 4 * m);
    OneWith(a / 4, 1 + 2 * m);
    OneWith(a / 4, 2 * m);
    OneWith(a / 4 / 2, m);
    hide One, Nibble;
    assert 2 * (7 + 8 * m) + 1 == 15 + 16 * m && 2 * (3 + 4 * m) + 1 == 7 + 8 * m && 2 * (1 + 2 * m) + 1 == 3 + 4 * m;
    assert 2 * (1 + 8 * m) + 1 == 3 + 16 * m && 2 * (4 * m) + 1 == 1 + 8 * m;
    assert 2 * (8 * m) == 16 * m && 2 * (4 * m) == 8 * m && 2 * (2 * m) == 4 * m;
  }

  /** The nibble of a conjunction, given the halves of the mask. */
  lemma Masked(a: nat, b: nat, b1: nat, b2: nat, b3: nat)
    requires b / 2 == b1 && b / 4 == b2 && b / 4 / 2 == b3
    ensures Nibble(a, b) == 8 * One(a / 4 / 2, b3) + 4 * One(a / 4, b2) + 2 * One(a / 2, b1) + One(a, b)
  {
  }

  /** Masking with a mask of repeated nibbles. */
  lemma MaskStep(a: nat, m: nat)
    ensures And(a, 15 + 16 * m) == 16 * And(a / 16, m) + a % 16
    ensures And(a, 3 + 16 * m) == 16 * And(a / 16, m) + a % 4
    ensures And(a, 16 * m) == 16 * And(a / 16, m)
  {
    hide And, Nibble;
    LowNibble(a, m);
    assert And(a, 15 + 16 * m) == 16 * And(a / 16, m) + a % 16 by { AndFour(a, 15 + 16 * m); }
    assert And(a, 3 + 16 * m) == 16 * And(a / 16, m) + a % 4 by { AndFour(a, 3 + 16 * m); }
    assert And(a, 16 * m) == 16 * And(a / 16, m) by { AndFour(a, 16 * m); }
  }

  // First stage: every pair of bits holds the number of its ones.

  ghost function Pairs(x: nat): nat {
    if x == 0 then 0 else x % 2 + x / 2 % 2 + 4 * Pairs(x / 4)
  }

  lemma FirstStep(x: nat, m: nat)
    ensures And(x / 2, 1 + 4 * m) == 4 * And(x / 4 / 2, m) + x / 2 % 2
    ensures x == 4 * (x / 4) + 2 * (x / 2 % 2) + x % 2
  {
    hide And;
    AndTwo(x / 2, 1 + 4 * m);
    TwoBits(x);
    assert x / 2 / 4 == x / 4 / 2 && (1 + 4 * m) / 4 == m && (1 + 4 * m) / 2 == 2 * m;
  }

  lemma {:induction false} FirstStage(x: nat, k: nat)
    requires x < Repeat(3, 4, k) + 1
    ensures x >= And(x / 2, Repeat(1, 4, k)) && x - And(x / 2, Repeat(1, 4, k)) == Pairs(x)
  {
    if k > 0 {
      hide And;
      FirstStage(x / 4, k - 1);
      FirstStep(x, Repeat(1, 4, k - 1));
    }
  }

  lemma DivLess(x: nat, base: nat)
    requires base > 1
    ensures x > 0 ==> x / base < x
  {
    var q := x / base;
    assert x == base * q + x % base;
    if q > 0 {
      MulLeq(2, base, q);
    }
  }

  // Second stage: every four bits.

  ghost predicate Digits(x: nat, base: nat, max: nat)
    requires base > 1
    decreases x
  {
    DivLess(x, base);
    if x == 0 then true else x % base <= max && Digits(x / base, base, max)
  }

  ghost function DigitSum(x: nat, base: nat): nat
    requires base > 1
    decreases x
  {
    DivLess(x, base);
    if x == 0 then 0 else x % base + DigitSum(x / base, base)
  }

  /** Two digits at once. */
  lemma TwoLowDigits(x: nat, base: nat, max: nat)
    requires base > 1 && Digits(x, base, max)
    ensures x % base <= max && x / base % base <= max && Digits(x / base, base, max)
    ensures Digits(x / base / base, base, max)
    ensures DigitSum(x, base) == x % base + x / base % base + DigitSum(x / base / base, base)
  {
    LowDigit(x, base, max);
    LowDigit(x / base, base, max);
  }

  lemma LowDigit(x: nat, base: nat, max: nat)
    requires base > 1 && Digits(x, base, max)
    ensures x % base <= max && Digits(x / base, base, max)
    ensures DigitSum(x, base) == x % base + DigitSum(x / base, base)
  {
    if x == 0 {
      assert 0 / base == 0 && 0 % base == 0;
    }
  }

  ghost function Fours(y: nat): nat {
    if y == 0 then 0 else y % 4 + y / 4 % 4 + 16 * Fours(y / 16)
  }

  lemma SecondStep(y: nat, m: nat)
    ensures And(y, 3 + 16 * m) + And(y / 4, 3 + 16 * m) == 16 * (And(y / 16, m) + And(y / 16 / 4, m)) + y % 4 +
      y / 4 % 4
  {
    hide And;
    MaskStep(y, m);
    MaskStep(y / 4, m);
    assert y / 4 / 16 == y / 16 / 4;
  }

  lemma {:induction false} SecondStage(y: nat, k: nat)
    requires y < Repeat(15, 16, k) + 1
    ensures And(y, Repeat(3, 16, k)) + And(y / 4, Repeat(3, 16, k)) == Fours(y)
  {
    if k > 0 {
      hide And;
      SecondStage(y / 16, k - 1);
      SecondStep(y, Repeat(3, 16, k - 1));
    }
  }

  // Third stage: every byte.

  ghost function Bytes(z: nat): nat {
    if z == 0 then 0 else z % 16 + z / 16 % 16 + 256 * Bytes(z / 256)
  }

  lemma ThirdStep(z: nat, m: nat)
    requires z % 16 <= 4 && z / 16 % 16 <= 4 && z / 256 % 16 <= 4
    ensures And(z + z / 16, 15 + 256 * m) == 256 * And(z / 256 + z / 256 / 16, m) + z % 16 + z / 16 % 16
  {
    hide And;
    NoCarry(z);
    MaskStep(z + z / 16, 16 * m);
    MaskStep((z + z / 16) / 16, m);
    assert 15 + 16 * (16 * m) == 15 + 256 * m;
  }

  lemma {:induction false} ThirdStage(z: nat, k: nat)
    requires z < Repeat(255, 256, k) + 1 && Digits(z, 16, 4)
    ensures And(z + z / 16, Repeat(15, 256, k)) == Bytes(z)
  {
    if k == 0 {
      assert z == 0;
    } else {
      hide And, Digits, DigitSum;
      TwoLowDigits(z, 16, 4);
      LowDigit(z / 16 / 16, 16, 4);
      DivTwice(z);
      ThirdStage(z / 256, k - 1);
      ThirdStep(z, Repeat(15, 256, k - 1));
    }
  }

  /** Adding neighbouring digits of at most four. */
  lemma NoCarry(z: nat)
    requires z % 16 <= 4 && z / 16 % 16 <= 4 && z / 256 % 16 <= 4
    ensures (z + z / 16) / 16 / 16 == z / 256 + z / 256 / 16
    ensures (z + z / 16) % 16 == z % 16 + z / 16 % 16
  {
    var q, d1, d0 := z / 256, z / 16 % 16, z % 16;
    var s := z + z / 16;
    DivTwice(z);
    DivTwice(s);
    assert z / 16 == 16 * q + d1 && z == 16 * (z / 16) + d0 && q == 16 * (q / 16) + q % 16;
    assert s == (q + q / 16) * 256 + (16 * (q % 16) + 17 * d1 + d0);
    DivUnique(s, q + q / 16, 256, 16 * (q % 16) + 17 * d1 + d0);
    assert s == (16 * (q + q / 16) + q % 16 + d1) * 16 + (d1 + d0);
    DivUnique(s, 16 * (q + q / 16) + q % 16 + d1, 16, d1 + d0);
  }

  lemma DivFours(x: nat)
    ensures x / 4 / 4 == x / 16
  {
  }

  lemma DivTwice(x: nat)
    ensures x / 16 / 16 == x / 256
  {
  }

  // What the stages keep: the sum of the digits.

  /** A digit put below the others. */
  lemma PutDigit(x: nat, rest: nat, d: nat, base: nat, max: nat)
    requires base > max && max > 0 && d <= max && x == d + base * rest && Digits(rest, base, max)
    ensures Digits(x, base, max) && DigitSum(x, base) == d + DigitSum(rest, base)
  {
    DivUnique(x, rest, base, d);
  }

  lemma PopTwo(x: nat)
    ensures PopCount(x) == x % 2 + x / 2 % 2 + PopCount(x / 4)
  {
    PopUnfold(x);
    PopUnfold(x / 2);
    assert x / 2 / 2 == x / 4;
  }

  lemma {:induction false} PairsCount(x: nat)
    ensures DigitSum(Pairs(x), 4) == PopCount(x) && Digits(Pairs(x), 4, 2)
  {
    if x > 0 {
      hide PopCount, Digits, DigitSum;
      PairsCount(x / 4);
      PopTwo(x);
      PutDigit(Pairs(x), Pairs(x / 4), x % 2 + x / 2 % 2, 4, 2);
    }
  }

  lemma {:induction false} FoursCount(y: nat)
    requires Digits(y, 4, 2)
    ensures DigitSum(Fours(y), 16) == DigitSum(y, 4) && Digits(Fours(y), 16, 4)
  {
    if y > 0 {
      hide Digits, DigitSum;
      DivFours(y);
      TwoLowDigits(y, 4, 2);
      FoursCount(y / 16);
      PutDigit(Fours(y), Fours(y / 16), y % 4 + y / 4 % 4, 16, 4);
    }
  }

  lemma {:induction false} BytesCount(z: nat)
    requires Digits(z, 16, 4)
    ensures DigitSum(Bytes(z), 256) == DigitSum(z, 16) && Digits(Bytes(z), 256, 8)
  {
    if z > 0 {
      hide Digits, DigitSum;
      DivTwice(z);
      TwoLowDigits(z, 16, 4);
      BytesCount(z / 256);
      PutDigit(Bytes(z), Bytes(z / 256), z % 16 + z / 16 % 16, 256, 8);
    }
  }

  // Fourth stage: all bytes at once.

  const TWO_56: nat := 0x100000000000000
  const TWO_64: nat := 0x10000000000000000

  /** The top byte of the product is the sum of the bytes, since nothing is carried into it. */
  lemma TopByte(d0: nat, d1: nat, d2: nat, d3: nat, d4: nat, d5: nat, d6: nat, d7: nat)
    requires d0 <= 8 && d1 <= 8 && d2 <= 8 && d3 <= 8 && d4 <= 8 && d5 <= 8 && d6 <= 8 && d7 <= 8
    ensures var w := d0 + 0x100 * d1 + 0x10000 * d2 + 0x1000000 * d3 + 0x100000000 * d4 + 0x10000000000 * d5
        + 0x1000000000000 * d6 + 0x100000000000000 * d7;
      w * H01 % TWO_64 / TWO_56 == d0 + d1 + d2 + d3 + d4 + d5 + d6 + d7
  {
    var w := d0 + 0x100 * d1 + 0x10000 * d2 + 0x1000000 * d3 + 0x100000000 * d4 + 0x10000000000 * d5
      + 0x1000000000000 * d6 + 0x100000000000000 * d7;
    var high := d1 + 0x101 * d2 + 0x10101 * d3 + 0x1010101 * d4 + 0x101010101 * d5 + 0x10101010101 * d6 +
      0x1010101010101 * d7;
    var sum := d0 + d1 + d2 + d3 + d4 + d5 + d6 + d7;
    var low := 0x01010101010101 * d0 + 0x01010101010100 * d1 + 0x01010101010000 * d2 + 0x01010101000000 * d3
      + 0x01010100000000 * d4 + 0x01010000000000 * d5 + 0x01000000000000 * d6;
    assert w * H01 == high * TWO_64 + (sum * TWO_56 + low);
    DivUnique(w * H01, high, TWO_64, sum * TWO_56 + low);
    DivUnique(sum * TWO_56 + low, sum, TWO_56, low);
  }

  lemma EightBytes(w: nat, x1: nat, x2: nat, x3: nat, x4: nat, x5: nat, x6: nat, x7: nat, x8: nat,
                   d0: nat, d1: nat, d2: nat, d3: nat, d4: nat, d5: nat, d6: nat, d7: nat)
    requires w < TWO_64 && w == 256 * x1 + d0 && x1 == 256 * x2 + d1 && x2 == 256 * x3 + d2 && x3 == 256 * x4 + d3
    requires x4 == 256 * x5 + d4 && x5 == 256 * x6 + d5 && x6 == 256 * x7 + d6 && x7 == 256 * x8 + d7
    ensures x8 == 0
    ensures w == d0 + 0x100 * d1 + 0x10000 * d2 + 0x1000000 * d3 + 0x100000000 * d4 + 0x10000000000 * d5
        + 0x1000000000000 * d6 + 0x100000000000000 * d7
  {
  }

  lemma FourthStage(w: nat)
    requires w < TWO_64 && Digits(w, 256, 8)
    ensures w * H01 % TWO_64 / TWO_56 == DigitSum(w, 256)
  {
    hide Digits, DigitSum;
    var x1, d0 := ByteStep(w);
    var x2, d1 := ByteStep(x1);
    var x3, d2 := ByteStep(x2);
    var x4, d3 := ByteStep(x3);
    var x5, d4 := ByteStep(x4);
    var x6, d5 := ByteStep(x5);
    var x7, d6 := ByteStep(x6);
    var x8, d7 := ByteStep(x7);
    EightBytes(w, x1, x2, x3, x4, x5, x6, x7, x8, d0, d1, d2, d3, d4, d5, d6, d7);
    NoDigits(256);
    TopByte(d0, d1, d2, d3, d4, d5, d6, d7);
  }

  lemma NoDigits(base: nat)
    requires base > 1
    ensures DigitSum(0, base) == 0
  {
  }

  lemma ByteStep(x: nat) returns (rest: nat, d: nat)
    requires Digits(x, 256, 8)
    ensures x == 256 * rest + d && d <= 8 && Digits(rest, 256, 8) && DigitSum(x, 256) == d + DigitSum(rest, 256)
  {
    LowDigit(x, 256, 8);
    rest, d := x / 256, x % 256;
  }

  // Nothing overflows.

  lemma Ranges()
    ensures Repeat(3, 4, 32) == Repeat(15, 16, 16) == Repeat(255, 256, 8) == TWO_64 - 1
    ensures Repeat(4, 16, 16) == 0x4444444444444444
  {
    assert Repeat(3, 4, 8) == 0xffff && Unit(4, 8) == 0x10000;
    RepeatTwice(3, 4, 8, 8, 0x10000);
    UnitTwice(4, 8, 8);
    RepeatTwice(3, 4, 16, 16, 0x100000000);
    assert Repeat(15, 16, 4) == 0xffff && Repeat(4, 16, 4) == 0x4444 && Unit(16, 4) == 0x10000;
    RepeatTwice(15, 16, 4, 4, 0x10000);
    RepeatTwice(4, 16, 4, 4, 0x10000);
    UnitTwice(16, 4, 4);
    RepeatTwice(15, 16, 8, 8, 0x100000000);
    RepeatTwice(4, 16, 8, 8, 0x100000000);
    assert Repeat(255, 256, 4) == 0xffffffff && Unit(256, 4) == 0x100000000;
    RepeatTwice(255, 256, 4, 4, 0x100000000);
  }

  lemma {:induction false} FoursShrink(y: nat)
    ensures Fours(y) <= y
  {
    if y > 0 {
      FoursShrink(y / 16);
      TwoDigits(y);
    }
  }

  lemma {:induction false} BytesShrink(z: nat)
    ensures Bytes(z) <= z
  {
    if z > 0 {
      BytesShrink(z / 256);
      assert z == 256 * (z / 256) + 16 * (z / 16 % 16) + z % 16;
    }
  }

  lemma {:induction false} SmallDigits(z: nat, k: nat)
    requires z < Repeat(15, 16, k) + 1 && Digits(z, 16, 4)
    ensures z <= Repeat(4, 16, k)
  {
    if k > 0 && z > 0 {
      SmallDigits(z / 16, k - 1);
    }
  }

  lemma Shifts(x: nat)
    ensures Shr(x, 1) == x / 2 && Shr(x, 2) == x / 4 && Shr(x, 4) == x / 16
  {
    assert Pow2(1) == 2 && Pow2(2) == 4 && Pow2(3) == 8 && Pow2(4) == 16;
  }

  /** `fallback_popcountll`, with the wrap-around of 64-bit arithmetic. */
  method FallbackPopcount(x0: nat) returns (n: nat)
    requires x0 < TWO_64
    ensures n == PopCount(x0)
  {
    hide And, Shr, Digits, DigitSum, PopCount, Repeat, Pairs, Fours, Bytes;
    Masks();
    Ranges();
    FirstStage(x0, 32);
    Shifts(x0);
    var x := (x0 - And(Shr(x0, 1), M1)) % TWO_64;
    ghost var y: nat := x;
    assert y == Pairs(x0);
    PairsCount(x0);
    SecondStage(y, 16);
    FoursShrink(y);
    Shifts(y);
    x := (And(x, M2) + And(Shr(x, 2), M2)) % TWO_64;
    ghost var z: nat := x;
    assert z == Fours(y);
    FoursCount(y);
    SmallDigits(z, 16);
    ThirdStage(z, 8);
    BytesShrink(z);
    Shifts(z);
    x := And((x + Shr(x, 4)) % TWO_64, M4);
    ghost var w: nat := x;
    assert w == Bytes(z);
    BytesCount(z);
    FourthStage(w);
    n := x * H01 % TWO_64 / TWO_56;
  }
}
