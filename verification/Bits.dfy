/** Natural numbers read as bit strings, least significant bit first.
    The growth policies and the sparse arrays work on machine words; here a word is the
    natural number it denotes, and the machine's operators are functions on it. */
module Bits {
  import opened Arith

  function Pow2(k: nat): (r: nat)
    ensures r >= 1
  {
    if k == 0 then 1 else 2 * Pow2(k - 1)
  }

  /** `a & b` */
  function And(a: nat, b: nat): nat {
    if a == 0 || b == 0 then 0
    else 2 * And(a / 2, b / 2) + (if a % 2 == 1 && b % 2 == 1 then 1 else 0)
  }

  /** `a | b` */
  function Or(a: nat, b: nat): nat
    decreases a + b
  {
    if a == 0 then b else if b == 0 then a
    else 2 * Or(a / 2, b / 2) + (if a % 2 == 1 || b % 2 == 1 then 1 else 0)
  }

  function Div(a: nat, m: nat): nat
    requires m > 0
  {
    a / m
  }

  /** `a >> s` */
  function Shr(a: nat, s: nat): nat {
    Div(a, Pow2(s))
  }

  ghost predicate IsPow2(v: nat) {
    exists k: nat :: v == Pow2(k)
  }

  lemma {:induction false} Pow2Add(a: nat, b: nat)
    ensures Pow2(a + b) == Pow2(a) * Pow2(b)
  {
    if a == 0 {
    } else {
      Pow2Add(a - 1, b);
      assert Pow2(a + b) == 2 * Pow2(a - 1 + b);
      assert Pow2(a) * Pow2(b) == 2 * (Pow2(a - 1) * Pow2(b));
    }
  }

  lemma {:induction false} Pow2Monotonic(a: nat, b: nat)
    requires a <= b
    ensures Pow2(a) <= Pow2(b)
    decreases b
  {
    if a < b {
      Pow2Monotonic(a, b - 1);
    }
  }

  lemma Pow2Exponents(a: nat, b: nat)
    requires Pow2(a) < Pow2(b)
    ensures a < b
  {
    if b <= a {
      Pow2Monotonic(b, a);
    }
  }

  lemma AndUnfold(a: nat, b: nat)
    ensures And(a, b) == 2 * And(a / 2, b / 2) + (if a % 2 == 1 && b % 2 == 1 then 1 else 0)
  {
  }

  lemma ModDouble(h: nat, m: nat)
    requires m > 0
    ensures h % (2 * m) == 2 * ((h / 2) % m) + h % 2
  {
    var q, r := (h / 2) / m, (h / 2) % m;
    assert h / 2 == q * m + r;
    assert q * (2 * m) == 2 * (q * m);
    DivUnique(h, q, 2 * m, 2 * r + h % 2);
  }

  /** Masking with `2^k - 1` is reducing modulo `2^k`. */
  lemma {:induction false} AndMask(h: nat, k: nat)
    ensures And(h, Pow2(k) - 1) == h % Pow2(k)
    decreases k
  {
    if k > 0 {
      var m := Pow2(k - 1);
      AndMask(h / 2, k - 1);
      ModDouble(h, m);
      AndUnfold(h, 2 * m - 1);
      assert (2 * m - 1) / 2 == m - 1 && (2 * m - 1) % 2 == 1;
    }
  }

  lemma {:induction false} AndSelf(a: nat)
    ensures And(a, a) == a
  {
    if a > 0 {
      AndSelf(a / 2);
    }
  }

  /** The test `v != 0 && (v & (v - 1)) == 0` recognises exactly the powers of two. */
  lemma {:induction false} PowerOfTwoTest(v: nat)
    requires v > 0
    ensures And(v, v - 1) == 0 <==> IsPow2(v)
  {
    if v == 1 {
      assert Pow2(0) == 1;
    } else if v % 2 == 0 {
      PowerOfTwoTest(v / 2);
      assert (v - 1) / 2 == v / 2 - 1 && (v - 1) % 2 == 1;
      assert And(v, v - 1) == 2 * And(v / 2, v / 2 - 1);
      if IsPow2(v / 2) {
        var k: nat :| v / 2 == Pow2(k);
        assert v == Pow2(k + 1);
      }
      if IsPow2(v) {
        var k: nat :| v == Pow2(k);
        assert v / 2 == Pow2(k - 1);
      }
    } else {
      AndSelf(v / 2);
      assert (v - 1) / 2 == v / 2 && (v - 1) % 2 == 0;
      assert And(v, v - 1) > 0;
      assert !IsPow2(v);
    }
  }

  lemma {:induction false} OrLow(x: nat, low: nat, s: nat, y: nat)
    requires low < Pow2(s) && y < Pow2(s)
    ensures Or(x * Pow2(s) + low, y) == x * Pow2(s) + Or(low, y)
    ensures Or(low, y) < Pow2(s)
    decreases s
  {
    if s == 0 {
    } else {
      var p := Pow2(s - 1);
      var a := x * Pow2(s) + low;
      assert x * Pow2(s) == 2 * (x * p);
      assert a / 2 == x * p + low / 2 && a % 2 == low % 2;
      OrLow(x, low / 2, s - 1, y / 2);
      OrUnfold(a, y);
      OrUnfold(low, y);
    }
  }

  lemma OrUnfold(a: nat, b: nat)
    ensures Or(a, b) == 2 * Or(a / 2, b / 2) + (if a % 2 == 1 || b % 2 == 1 then 1 else 0)
  {
  }

  lemma {:induction false} OrAllOnes(low: nat, s: nat)
    requires low < Pow2(s)
    ensures Or(low, Pow2(s) - 1) == Pow2(s) - 1
    decreases s
  {
    if s == 0 {
    } else {
      OrAllOnes(low / 2, s - 1);
      OrUnfold(low, Pow2(s) - 1);
      assert (Pow2(s) - 1) / 2 == Pow2(s - 1) - 1 && (Pow2(s) - 1) % 2 == 1;
    }
  }

  lemma OrHalves(a: nat, b: nat)
    ensures Or(a, b) / 2 == Or(a / 2, b / 2)
  {
    OrUnfold(a, b);
  }

  /** Shifting right distributes over `|`. */
  lemma {:induction false} ShrOr(a: nat, b: nat, s: nat)
    ensures Shr(Or(a, b), s) == Or(Shr(a, s), Shr(b, s))
    decreases s
  {
    if s == 0 {
      assert Shr(a, 0) == a && Shr(b, 0) == b && Shr(Or(a, b), 0) == Or(a, b);
    } else {
      calc {
        Shr(Or(a, b), s);
        { HalveFirst(Or(a, b), s); OrHalves(a, b); }
        Shr(Or(a / 2, b / 2), s - 1);
        { ShrOr(a / 2, b / 2, s - 1); }
        Or(Shr(a / 2, s - 1), Shr(b / 2, s - 1));
        { HalveFirst(a, s); HalveFirst(b, s); }
        Or(Shr(a, s), Shr(b, s));
      }
    }
  }

  lemma HalveFirst(x: nat, s: nat)
    requires s > 0
    ensures Shr(x, s) == Shr(x / 2, s - 1)
  {
    var m := Pow2(s - 1);
    var q, r := (x / 2) / m, (x / 2) % m;
    assert x == q * (2 * m) + (2 * r + x % 2) by {
      assert x / 2 == q * m + r;
      assert q * (2 * m) == 2 * (q * m);
    }
    DivUnique(x, q, 2 * m, 2 * r + x % 2);
  }

  lemma DivDiv(x: nat, a: nat, b: nat)
    ensures Shr(Shr(x, a), b) == Shr(x, a + b)
    decreases a
  {
    if a > 0 {
      HalveFirst(x, a);
      DivDiv(x / 2, a - 1, b);
      HalveFirst(x, a + b);
    }
  }
}
