/** Order facts about integer products, stated so that proofs can name them. */
module Arithmetic {
  lemma MulMonotone(a: int, b: int, c: int)
    requires a <= b && 0 <= c
    ensures a * c <= b * c
    ensures c * a <= c * b
  {
  }

  lemma MulNonNegative(a: int, b: int)
    requires 0 <= a && 0 <= b
    ensures 0 <= a * b
  {
  }

  /** Multiplication by a positive factor reflects the order. */
  lemma MulOrder(a: int, b: int, c: int)
    requires c > 0 && a * c < b * c
    ensures a < b
  {
    if b <= a {
      MulMonotone(b, a, c);
    }
  }

  /** A product that is positive with a non-negative factor has a positive cofactor. */
  lemma PositiveFactor(a: int, c: int)
    requires c >= 0 && a * c >= 1
    ensures a >= 1
  {
    if a <= 0 {
      MulMonotone(a, 0, c);
    }
  }

  lemma QuotientBounds(a: int, b: int)
    requires b > 0
    ensures (a / b) * b <= a < (a / b + 1) * b
  {
  }

  /** The quotient is the only integer within one divisor of the dividend. */
  lemma QuotientUnique(a: int, b: int, q: int)
    requires b > 0 && q * b <= a < (q + 1) * b
    ensures q == a / b
  {
    QuotientBounds(a, b);
    var r := a / b;
    assert q < r + 1 by { MulOrder(q, r + 1, b); }
    assert r < q + 1 by { MulOrder(r, q + 1, b); }
  }
}
