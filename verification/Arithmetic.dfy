/** Facts about products, quotients and remainders. */
module Arithmetic {

  lemma MulMonotonic(a: int, b: int, m: int)
    requires a <= b && m >= 0
    ensures a * m <= b * m
  {
  }

  /** Quotient and remainder are determined by their defining equation. */
  lemma QuotientUnique(x: int, q: int, r: int, m: int)
    requires m > 0 && 0 <= r < m && x == q * m + r
    ensures x % m == r && x / m == q
  {
    var q', r' := x / m, x % m;
    if q < q' {
      MulMonotonic(q + 1, q', m);
    } else if q' < q {
      MulMonotonic(q' + 1, q, m);
    }
  }

  lemma ModPlusMultiple(x: int, k: int, m: int)
    requires m > 0
    ensures (k * m + x) % m == x % m
  {
    var q, r := x / m, x % m;
    assert k * m + x == (k + q) * m + r;
    QuotientUnique(k * m + x, k + q, r, m);
  }
}
