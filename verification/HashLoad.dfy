/** Load factors and home buckets, which both hash tables reckon in the same way. */
module HashLoad {
  import opened GrowthPolicy

  predicate ValidLoad(f: real, highest: real) {
    0.1 <= f <= highest
  }

  /** The clamp of `max_load_factor(float)`. */
  function ClampLoad(ml: real, highest: real): (f: real)
    requires 0.1 <= highest
    ensures ValidLoad(f, highest)
    ensures ValidLoad(ml, highest) ==> f == ml
    ensures (ml < 0.1 ==> f == 0.1) && (ml > highest ==> f == highest)
  {
    var capped := if ml < highest then ml else highest;
    if capped < 0.1 then 0.1 else capped
  }

  /** How many entries make up the fraction `f` of the buckets, rounded down. */
  function Portion(bucketCount: nat, f: real): (r: nat)
    requires 0.0 <= f
    ensures r as real <= bucketCount as real * f < r as real + 1.0
  {
    RealMul(0.0, bucketCount as real, f);
    (bucketCount as real * f).Floor
  }

  /** `ceil(float(count) / factor)` */
  function Ceil(count: nat, f: real): (r: nat)
    requires 0.0 < f
    ensures forall n: nat {:trigger Fits(count, n, f)} :: r <= n <==> Fits(count, n, f)
  {
    QuotientSign(count as real, f);
    var r: nat := -((-(count as real) / f).Floor);
    CeilLeast(count, f, r);
    r
  }

  /** A number of entries within the fraction `f` of the buckets. */
  predicate Fits(count: nat, buckets: nat, f: real) {
    count as real <= buckets as real * f
  }

  /** As many entries as the fraction `f` of the buckets, or more, once rounded down. */
  predicate Reaches(count: nat, buckets: nat, f: real) {
    (count + 1) as real > buckets as real * f
  }

  lemma ReachesPortion(count: nat, buckets: nat, f: real)
    requires 0.0 <= f
    ensures Reaches(count, buckets, f) <==> count >= Portion(buckets, f)
  {
  }

  lemma CeilLeast(count: nat, f: real, r: nat)
    requires 0.0 < f && r == -((-(count as real) / f).Floor)
    ensures forall n: nat {:trigger Fits(count, n, f)} :: r <= n <==> Fits(count, n, f)
  {
    var y := count as real / f;
    assert y * f == count as real && -(count as real) / f == -y;
    forall n: nat
      ensures r <= n <==> Fits(count, n, f)
    {
      if r <= n {
        RealMul(y, n as real, f);
      } else {
        RealMulLess(n as real, y, f);
      }
    }
  }

  lemma RealMul(a: real, b: real, f: real)
    requires a <= b && f >= 0.0
    ensures a * f <= b * f
  {
  }

  lemma RealMulLess(a: real, b: real, f: real)
    requires a < b && f > 0.0
    ensures a * f < b * f
  {
  }

  lemma QuotientSign(a: real, f: real)
    requires 0.0 <= a && 0.0 < f
    ensures -a / f <= 0.0
  {
    var q := -a / f;
    assert q * f == -a;
    if q > 0.0 {
      RealMulLess(0.0, q, f);
    }
  }

  lemma PortionBelow(n: nat, f: real, highest: real)
    requires ValidLoad(f, highest) && highest < 1.0 && n > 0
    ensures Portion(n, f) < n
  {
    Shrinks(n as real, f);
  }

  lemma Shrinks(a: real, f: real)
    requires a > 0.0 && 0.0 < f < 1.0
    ensures a * f < a
  {
    RealMulLess(f, 1.0, a);
    assert a * f == f * a && 1.0 * a == a;
  }

  lemma LoadGrows(m: nat, n: nat, f: real, g: real)
    requires m <= n && 0.0 <= f <= g
    ensures m as real * f <= n as real * g
  {
    var y, z := n as real * f, n as real * g;
    RealMul(m as real, n as real, f);
    RealMul(f, g, n as real);
    assert z == g * n as real && y == f * n as real;
  }

  /** Dividing by a factor below one enlarges. */
  lemma QuotientAbove(a: real, y: real, f: real)
    requires a > 0.0 && 0.0 < f < 1.0 && y * f == a
    ensures y > a
  {
    var p := a * f;
    Shrinks(a, f);
    assert p < a;
    assert y <= a ==> a <= p by {
      if y <= a {
        RealMul(y, a, f);
      }
    }
  }

  lemma CeilAbove(n: nat, f: real, highest: real)
    requires ValidLoad(f, highest) && highest < 1.0
    ensures Ceil(n, f) >= n && (n > 0 ==> Ceil(n, f) > n)
  {
    var y := n as real / f;
    assert y * f == n as real;
    assert -(n as real) / f == -y;
    assert (-y).Floor as real <= -y;
    assert Ceil(n, f) as real >= y;
    if n > 0 {
      QuotientAbove(n as real, y, f);
      assert Ceil(n, f) as real > n as real;
    }
  }

  ghost function HomeBy<K>(hash: K -> nat, n: nat): K -> nat {
    k => BucketForHash(MaskFor(n), hash(k))
  }
}
