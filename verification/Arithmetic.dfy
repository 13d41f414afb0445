/** Divisibility over the integers: the facts about `%` that the argument
    rotation and the digit loops rest on.  The C operator `%` is only ever
    applied to non-negative operands in the modelled code, where it agrees with
    Dafny's Euclidean `%`. */
module Arithmetic {

  /** A number that is a multiple of `d` leaves no remainder. */
  lemma MultipleHasNoRemainder(d: int, k: int)
    requires d > 0
    ensures (d * k) % d == 0
  {
    QuotientIsUnique(d * k, d, k, 0);
  }

  /** Division with remainder has exactly one answer. */
  lemma QuotientIsUnique(n: int, d: int, q: int, r: int)
    requires d > 0 && 0 <= r < d && n == d * q + r
    ensures n / d == q && n % d == r
  {
    var q', r' := n / d, n % d;
    ProductBounds(d, q - q');
    assert n == d * q' + r';
    assert d * (q - q') == r' - r;
  }

  /** A product with a positive factor is at least that far from zero. */
  lemma ProductBounds(d: int, k: int)
    ensures d > 0 && k >= 1 ==> d * k >= d
    ensures d > 0 && k <= -1 ==> d * k <= -d
    ensures k == 0 ==> d * k == 0
  {
    if d > 0 {
      assert d * k == d * (k - 1) + d;
      assert d * k == d * (k + 1) - d;
    }
  }

  /** Adding a multiple of the modulus changes nothing. */
  lemma ModAddMultiple(n: int, d: int, k: int)
    requires d > 0
    ensures (n + d * k) % d == n % d
  {
    assert n + d * k == d * (n / d + k) + n % d;
    QuotientIsUnique(n + d * k, d, n / d + k, n % d);
  }

  /** Equal remainders mean a difference that is a multiple. */
  lemma EqualModsDifferByMultiple(x: int, y: int, d: int) returns (k: int)
    requires d > 0 && x % d == y % d
    ensures x - y == d * k
  {
    k := x / d - y / d;
    assert x == d * (x / d) + x % d;
    assert y == d * (y / d) + y % d;
  }

  /** Reducing one summand first does not change the reduced sum. */
  lemma ModAddLeft(x: int, y: int, d: int)
    requires d > 0
    ensures (x % d + y) % d == (x + y) % d
  {
    assert x + y == (x % d + y) + d * (x / d);
    ModAddMultiple(x % d + y, d, x / d);
  }

  /** Dividing by two or more makes a positive number smaller. */
  lemma DivisionShrinks(v: nat, b: nat)
    requires 2 <= b && v > 0
    ensures 0 <= v / b < v
  {
    var q := v / b;
    assert v == b * q + v % b;
    if q >= 1 {
      assert b * q == 2 * q + (b - 2) * q;
      assert (b - 2) * q >= 0;
    }
  }

  lemma ProductLess(d: int, m: int, n: int)
    requires d > 0 && d * m < d * n
    ensures m < n
  {
    ProductBounds(d, n - m);
    assert d * (n - m) == d * n - d * m;
  }

  /** Dividing twice is dividing by the product. */
  lemma DivideTwice(v: nat, b: nat, p: nat)
    requires b > 0 && p > 0
    ensures b * p > 0 && v / b / p == v / (b * p)
  {
    var q, r := v / b, v % b;
    var t, u := q / p, q % p;
    assert v == b * q + r && q == p * t + u;
    assert b * (p * t + u) == (b * p) * t + b * u;
    assert b * u <= b * (p - 1) == b * p - b by { Monotone(b, u, p - 1); }
    QuotientIsUnique(v, b * p, t, b * u + r);
  }

  lemma Monotone(d: nat, m: nat, n: nat)
    requires m <= n
    ensures d * m <= d * n
  {
    assert d * n == d * m + d * (n - m);
  }

  function Power(b: nat, k: nat): (p: nat)
    ensures b > 0 ==> p > 0
  {
    if k == 0 then 1 else b * Power(b, k - 1)
  }
}
