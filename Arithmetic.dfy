/**
  Monotonicity of multiplication, shared by the modules that reason about
  products of counts, weights and group sizes.
 */
module Arithmetic {

  /** Multiplying by a non-negative integer keeps the order of integers. */
  lemma MulMono(p: int, q: int, m: int)
    requires p <= q && m >= 0
    ensures p * m <= q * m
  {
    assert q * m - p * m == (q - p) * m;
  }

  /** Multiplying by a non-negative real keeps the order of reals. */
  lemma ScaleLe(a: real, b: real, p: real)
    requires a <= b && p >= 0.0
    ensures a * p <= b * p
  {
    assert b * p - a * p == (b - a) * p;
  }
}
