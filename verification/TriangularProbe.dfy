/** Quadratic probing by triangular numbers: modulo a power of two it reaches every bucket. */
module TriangularProbe {
  import opened Arith
  import opened Bits
  import opened Sets

  /** The sum of the probe steps `1 + .. + p`. */
  function Triangle(p: nat): nat {
    if p == 0 then 0 else Triangle(p - 1) + p
  }

  /** The bucket of probe `p`. */
  function ProbeAt(home: nat, p: nat, n: nat): (i: nat)
    requires n > 0
    ensures i < n
  {
    (home + Triangle(p)) % n
  }

  lemma {:induction false} TriangleIs(p: nat)
    ensures 2 * Triangle(p) == p * (p + 1)
  {
    if p > 0 {
      TriangleIs(p - 1);
      assert p * (p + 1) == (p - 1) * p + 2 * p;
    }
  }

  /** An odd factor does not help to divide by a power of two. */
  lemma {:induction false} OddFactor(a: nat, b: nat, k: nat, c: int)
    requires a % 2 == 1 && a * b == c * Pow2(k)
    ensures b % Pow2(k) == 0
    decreases k
  {
    if k > 0 {
      EvenFactor(a, b, c * Pow2(k - 1), c, Pow2(k - 1), Pow2(k));
      OddFactor(a, b / 2, k - 1, c);
      HalfDivides(b, Pow2(k - 1));
    }
  }

  lemma EvenFactor(a: nat, b: nat, half: int, c: int, m: nat, mm: nat)
    requires a % 2 == 1 && mm == 2 * m && a * b == c * mm && half == c * m
    ensures b % 2 == 0 && a * (b / 2) == c * m
  {
    var x, y := a / 2, b / 2;
    assert c * mm == 2 * half;
    assert a * b == 2 * (x * b) + b;
    assert b == 2 * (half - x * b);
    assert a * b == 2 * (a * y);
  }

  lemma HalfDivides(b: nat, m: nat)
    requires m > 0 && b % 2 == 0 && (b / 2) % m == 0
    ensures b % (2 * m) == 0
  {
    var q := (b / 2) / m;
    assert b / 2 == q * m;
    assert b == q * (2 * m);
    DivUnique(b, q, 2 * m, 0);
  }

  lemma TriangleDifference(i: nat, j: nat)
    requires j < i
    ensures 2 * (Triangle(i) - Triangle(j)) == (i - j) * (i + j + 1)
  {
    TriangleIs(i);
    TriangleIs(j);
    assert (i - j) * (i + j + 1) == i * (i + 1) - j * (j + 1);
  }

  /** A product of two numbers of different parity is a multiple of a power of two only if one of
      them is. */
  lemma NoSmallProduct(d: nat, s: nat, k: nat, c: int)
    requires 0 < d < Pow2(k) && 0 < s < Pow2(k) && (d + s) % 2 == 1
    ensures d * s != c * Pow2(k)
  {
    if d * s == c * Pow2(k) {
      if d % 2 == 1 {
        OddFactor(d, s, k, c);
        SmallNotMultiple(s, Pow2(k));
      } else {
        assert s * d == d * s;
        OddFactor(s, d, k, c);
        SmallNotMultiple(d, Pow2(k));
      }
    }
  }

  /** Different triangular numbers below the modulus differ modulo a power of two. */
  lemma TrianglesDiffer(i: nat, j: nat, k: nat, c: int)
    requires j < i < Pow2(k)
    ensures Triangle(i) - Triangle(j) != c * Pow2(k)
  {
    TriangleDifference(i, j);
    assert Pow2(k + 1) == 2 * Pow2(k);
    NoSmallProduct(i - j, i + j + 1, k + 1, c);
    DoubleProduct(c, Pow2(k), Pow2(k + 1));
  }

  lemma DoubleProduct(c: int, m: int, mm: int)
    requires mm == 2 * m
    ensures c * mm == 2 * (c * m)
  {
  }

  lemma SmallNotMultiple(x: nat, m: nat)
    requires 0 < x < m
    ensures x % m != 0
  {
    DivUnique(x, 0, m, x);
  }

  lemma SameRemainder(x: nat, y: nat, m: nat) returns (c: int)
    requires m > 0 && x % m == y % m
    ensures x - y == c * m
  {
    c := x / m - y / m;
    assert x == (x / m) * m + x % m && y == (y / m) * m + y % m;
    assert c * m == (x / m) * m - (y / m) * m;
  }

  /** The first `n` probes go to different buckets. */
  lemma ProbesDiffer(home: nat, i: nat, j: nat, n: nat)
    requires IsPow2(n) && j < i < n
    ensures ProbeAt(home, i, n) != ProbeAt(home, j, n)
  {
    if ProbeAt(home, i, n) == ProbeAt(home, j, n) {
      var k: nat :| n == Pow2(k);
      var c := SameRemainder(home + Triangle(i), home + Triangle(j), n);
      TrianglesDiffer(i, j, k, c);
    }
  }

  ghost predicate VisitedBelow(home: nat, m: nat, n: nat, i: nat) {
    exists p: nat :: p < m && Visits(home, p, n, i)
  }

  ghost predicate Visits(home: nat, p: nat, n: nat, i: nat) {
    n > 0 && ProbeAt(home, p, n) == i
  }

  lemma {:induction false} Visited(home: nat, n: nat, m: nat) returns (s: set<nat>)
    requires IsPow2(n) && m <= n
    ensures |s| == m && s <= Below(n) && forall i :: i in s ==> VisitedBelow(home, m, n, i)
  {
    if m == 0 {
      s := {};
    } else {
      s := Visited(home, n, m - 1);
      var i := ProbeAt(home, m - 1, n);
      forall p: nat | p < m - 1
        ensures !Visits(home, p, n, i)
      {
        ProbesDiffer(home, m - 1, p, n);
      }
      assert !VisitedBelow(home, m - 1, n, i);
      assert Visits(home, m - 1, n, i);
      assert forall x :: VisitedBelow(home, m - 1, n, x) ==> VisitedBelow(home, m, n, x);
      s := s + {i};
    }
  }

  lemma SameSize(s: set<nat>, t: set<nat>)
    requires s <= t && |s| == |t|
    ensures s == t
  {
    if x :| x in t && x !in s {
      ProperSubsetSize(s, t, x);
    }
  }

  /** Every bucket is visited by one of the first `n` probes. */
  lemma EveryBucketVisited(home: nat, n: nat, i: nat) returns (p: nat)
    requires IsPow2(n) && i < n
    ensures p < n && ProbeAt(home, p, n) == i
  {
    var s := Visited(home, n, n);
    SameSize(s, Below(n));
    assert i in s && VisitedBelow(home, n, n, i);
    p :| p < n && Visits(home, p, n, i);
  }

  /** The second `n` probes go back over the buckets of the first. */
  lemma Mirror(home: nat, p: nat, n: nat)
    requires n > 0 && p < n
    ensures ProbeAt(home, 2 * n - 1 - p, n) == ProbeAt(home, p, n)
  {
    var q := 2 * n - 1 - p;
    TriangleIs(p);
    TriangleIs(q);
    MirrorProduct(n, p);
    AddMultiple(home + Triangle(p), 2 * n - (2 * p + 1), n);
  }

  lemma MirrorProduct(n: nat, p: nat)
    requires p < n
    ensures (2 * n - 1 - p) * (2 * n - p) == p * (p + 1) + 2 * ((2 * n - (2 * p + 1)) * n)
  {
  }

  lemma AddMultiple(x: nat, c: int, n: nat)
    requires n > 0
    ensures (x + c * n) % n == x % n
  {
    assert x == (x / n) * n + x % n;
    assert (x / n + c) * n == (x / n) * n + c * n;
    DivUnique(x + c * n, x / n + c, n, x % n);
  }

  /** One step of `next_bucket`. */
  lemma NextProbe(home: nat, p: nat, n: nat)
    requires n > 0
    ensures (ProbeAt(home, p, n) + (p + 1)) % n == ProbeAt(home, p + 1, n)
  {
    var x := home + Triangle(p);
    assert x == (x / n) * n + x % n;
    var y := x % n + (p + 1);
    assert y == (y / n) * n + y % n;
    assert x + (p + 1) == (x / n + y / n) * n + y % n by { assert (x / n + y / n) * n == (x / n) * n + (y / n) * n; }
    DivUnique(x + (p + 1), x / n + y / n, n, y % n);
  }
}
