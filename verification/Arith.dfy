/** Facts about products and quotients, kept apart so that no other proof meets nonlinear terms. */
module Arith {

  lemma Product(a: int, m: int)
    requires a >= 0 && m >= 0
    ensures a * m >= 0
  {
  }

  /** Multiples of a positive number are ordered as their factors. */
  lemma FactorOrder(p: int, q: int, m: int)
    requires m > 0 && p * m < q * m + m
    ensures p <= q
  {
    if p > q {
      Product(p - q - 1, m);
    }
  }

  lemma NextMultiple(k: int, m: int)
    ensures (k - 1) * m + m == k * m
  {
  }

  lemma FactorMonotone(j: int, k: int, m: int)
    requires j <= k && 0 <= m
    ensures j * m <= k * m
  {
    Product(k - j, m);
  }

  lemma NegativeFactor(k: int, m: int)
    ensures k * -m == -(k * m)
  {
  }

  lemma Euclid(x: int, m: int)
    requires m > 0
    ensures (x / m) * m <= x < (x / m) * m + m
  {
  }

  /** A quotient is the one number whose multiple reaches up to the dividend. */
  lemma QuotientIs(x: int, m: int, q: int)
    requires m > 0 && q * m <= x < q * m + m
    ensures x / m == q
  {
    Euclid(x, m);
    FactorOrder(x / m, q, m);
    FactorOrder(q, x / m, m);
  }

  lemma QuotientRange(x: int, m: int)
    requires x >= 0 && m > 0
    ensures 0 <= x / m <= x
  {
    var q := x / m;
    Euclid(x, m);
    FactorOrder(0, q, m);
    Product(q, m - 1);
  }
}
