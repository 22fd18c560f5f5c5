/** Facts about products of reals that the solver does not find alone. */
module RealArith {

  lemma MulNonNegative(a: real, b: real)
    requires a >= 0.0 && b >= 0.0
    ensures a * b >= 0.0
  {
  }

  lemma MulPositive(a: real, b: real)
    requires a > 0.0 && b > 0.0
    ensures a * b > 0.0
  {
  }

  /** Scaling by a non-negative `1 + rate` keeps an order. */
  lemma OnePlusKeepsOrder(lo: real, hi: real, rate: real)
    requires lo <= hi && 1.0 + rate >= 0.0
    ensures lo * (1.0 + rate) <= hi * (1.0 + rate)
  {
    assert (hi - lo) * (1.0 + rate) >= 0.0 by { MulNonNegative(hi - lo, 1.0 + rate); }
    assert hi * (1.0 + rate) - lo * (1.0 + rate) == (hi - lo) * (1.0 + rate);
  }

  /** Scaling by a positive `1 + rate` keeps a strict order. */
  lemma OnePlusKeepsStrictOrder(lo: real, hi: real, rate: real)
    requires lo < hi && 1.0 + rate > 0.0
    ensures lo * (1.0 + rate) < hi * (1.0 + rate)
  {
    assert (hi - lo) * (1.0 + rate) > 0.0 by { MulPositive(hi - lo, 1.0 + rate); }
    assert hi * (1.0 + rate) - lo * (1.0 + rate) == (hi - lo) * (1.0 + rate);
  }

  lemma MulRotate(a: real, b: real, c: real)
    ensures a * (b * c) == (a * c) * b
  {
  }
}
