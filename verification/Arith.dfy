/** Facts about multiplication and division that the solver does not find by itself. */
module Arith {

  /** The quotient and remainder of a division are the only ones. */
  lemma DivUnique(x: int, q: int, m: int, r: int)
    requires m > 0 && 0 <= r < m && x == q * m + r
    ensures x / m == q && x % m == r
  {
    var q', r' := x / m, x % m;
    assert x == q' * m + r';
    assert (q - q') * m == r' - r;
    if q > q' {
      MulAtLeast(q - q', m);
    } else if q < q' {
      MulAtLeast(q' - q, m);
    }
  }

  lemma MulAtLeast(a: int, m: int)
    requires a >= 1 && m >= 0
    ensures a * m >= m
  {
  }

  /** Reducing modulo a multiple first changes nothing. */
  lemma ModOfMod(x: nat, m: nat, c: nat)
    requires m > 0 && c > 0
    ensures c * m > 0 && (x % (c * m)) % m == x % m
  {
    assert c * m > 0 by { MulAtLeast(c, m); }
    var q, r := x / (c * m), x % (c * m);
    assert x == (c * m) * q + r;
    assert r == (r / m) * m + r % m;
    assert x == (c * q + r / m) * m + r % m by {
      assert (c * m) * q == (c * q) * m;
      assert (c * q + r / m) * m == (c * q) * m + (r / m) * m;
    }
    DivUnique(x, c * q + r / m, m, r % m);
  }

  lemma MulDiv(q: nat, c: nat)
    requires c > 0
    ensures q * c / c == q
  {
    DivUnique(q * c, q, c, 0);
  }

  /** The number of parts of size `c` that `x` needs. */
  function CeilDiv(x: nat, c: nat): nat
    requires c > 0
  {
    if x % c == 0 then x / c else x / c + 1
  }

  lemma MulLeq(a: nat, b: nat, c: nat)
    requires a <= b
    ensures a * c <= b * c
  {
  }

  lemma MulLess(a: nat, b: nat, c: nat)
    requires a * c < b * c
    ensures a < b
  {
    if b <= a {
      MulLeq(b, a, c);
    }
  }
}
