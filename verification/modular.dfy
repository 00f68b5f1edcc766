/**
 Facts about Euclidean remainder used to reason about unsigned wrap-around
 multiplication.
 */
module Modular {

  /** A positive multiple of a positive m is at least m. */
  lemma {:induction false} MulAtLeast(m: int, k: int)
    requires m > 0 && k >= 1
    ensures m * k >= m
    decreases k
  {
    if k > 1 {
      MulAtLeast(m, k - 1);
      assert m * k == m * (k - 1) + m;
    }
  }

  /** A number written as m * q + r with 0 <= r < m has quotient q and
      remainder r. */
  lemma ModUnique(n: int, m: int, q: int, r: int)
    requires m > 0 && 0 <= r < m && n == m * q + r
    ensures n / m == q
    ensures n % m == r
  {
    var q' := n / m;
    var r' := n % m;
    assert m * q' + r' == m * q + r;
    if q' < q {
      assert m * (q - q') == r' - r;
      MulAtLeast(m, q - q');
    } else if q' > q {
      assert m * (q' - q) == r - r';
      MulAtLeast(m, q' - q);
    }
  }

  /** Doubling one factor doubles the product. */
  lemma MulDouble(p: int, q: int)
    ensures (2 * p) * q == 2 * (p * q)
  {
  }

  /** Halving commutes with division and remainder by an even modulus 2 * p. */
  lemma DivModHalf(a: int, p: int)
    requires p > 0
    ensures (a % (2 * p)) % 2 == a % 2
    ensures (a % (2 * p)) / 2 == (a / 2) % p
    ensures a / (2 * p) == (a / 2) / p
  {
    var q := a / (2 * p);
    var r := a % (2 * p);
    assert a == 2 * (p * q + r / 2) + r % 2;
    ModUnique(a, 2, p * q + r / 2, r % 2);
    ModUnique(a / 2, p, q, r / 2);
  }

  /** Halving after dividing by d is dividing by 2 * d. */
  lemma DivHalf(a: int, d: int)
    requires d > 0
    ensures (a / d) / 2 == a / (2 * d)
  {
    var q := a / d;
    var r := a % d;
    var q2 := q / 2;
    var r2 := q % 2;
    assert a == d * q + r;
    assert q == 2 * q2 + r2;
    assert d * q == (2 * d) * q2 + d * r2;
    assert 0 <= d * r2 + r < 2 * d;
    ModUnique(a, 2 * d, q2, d * r2 + r);
  }

  /** Reducing a left factor before multiplying does not change the remainder. */
  lemma MulModLeft(a: int, b: int, m: int)
    requires m > 0
    ensures ((a % m) * b) % m == (a * b) % m
  {
    var k := a / m;
    assert a * b == m * (k * b) + (a % m) * b;
    var d := (a % m) * b;
    ModUnique(d, m, d / m, d % m);
    ModUnique(a * b, m, k * b + d / m, d % m);
  }

  /** Multiplying a residue by p and then by an inverse of p modulo m
      gives the residue back. */
  lemma MulModInverse(x: int, p: int, q: int, m: int)
    requires m > 0 && 0 <= x < m
    requires (p * q) % m == 1
    ensures (((x * p) % m) * q) % m == x
  {
    MulModLeft(x * p, q, m);
    assert (x * p) * q == x * (p * q);
    MulModLeft(p * q, x, m);
    assert (p * q) * x == x * (p * q);
    assert ((p * q) % m) * x == x;
    ModUnique(x, m, 0, x);
  }
}
