/**
 The FI target curve: the lump sum that funds the monthly spending at the safe
 withdrawal rate, grown by inflation in whole-year steps, one entry per month
 from the current age to the end age.
 */
module Target {
  import opened Assumptions
  import opened RealArith

  /** `x` raised to a natural power. */
  function Pow(x: real, n: nat): real
  {
    if n == 0 then 1.0 else x * Pow(x, n - 1)
  }

  lemma {:induction false} PowNonNegative(x: real, n: nat)
    requires x >= 0.0
    ensures Pow(x, n) >= 0.0
  {
    if n > 0 {
      PowNonNegative(x, n - 1);
    }
  }

  lemma {:induction false} PowAtLeastOne(x: real, n: nat)
    requires x >= 1.0
    ensures Pow(x, n) >= 1.0
  {
    if n > 0 {
      PowAtLeastOne(x, n - 1);
    }
  }

  /** For a base of at least one, a larger exponent never gives less. */
  lemma {:induction false} PowMonotone(x: real, m: nat, n: nat)
    requires x >= 1.0 && m <= n
    ensures Pow(x, m) <= Pow(x, n)
  {
    if m < n {
      PowMonotone(x, m, n - 1);
      PowAtLeastOne(x, n - 1);
      assert Pow(x, n) - Pow(x, n - 1) == (x - 1.0) * Pow(x, n - 1);
    }
  }

  /** What is needed today: yearly spending divided by the withdrawal rate.
      script.js guards a zero rate with an infinite target; that branch is
      dead because the rate is at least 2.5%, which is what the division's
      well-formedness check relies on here. */
  function BaseTarget(mSpend: real, planYears: int): (r: real)
    ensures r * SwrRate(planYears) == mSpend * 12.0
    ensures mSpend >= 0.0 ==> 25.0 * (mSpend * 12.0) <= r <= 40.0 * (mSpend * 12.0)
  {
    mSpend * 12.0 / SwrRate(planYears)
  }

  /** Target for month `m`: inflation is applied once per completed year. */
  function TargetAt(baseTarget: real, infl: real, m: nat): (r: real)
    ensures m < 12 ==> r == baseTarget
    ensures 12 <= m < 24 ==> r == baseTarget * (1.0 + infl)
  {
    assert 12 <= m < 24 ==> Pow(1.0 + infl, m / 12) == 1.0 + infl by {
      if 12 <= m < 24 {
        assert m / 12 == 1;
      }
    }
    baseTarget * Pow(1.0 + infl, m / 12)
  }

  /** The target series for a horizon of `totalMonths` months, one entry per
      month from month 0 to month `totalMonths`. */
  function TargetSeries(baseTarget: real, infl: real, totalMonths: nat): (r: seq<real>)
    ensures |r| == totalMonths + 1
    ensures r[0] == baseTarget
  {
    if totalMonths == 0 then [baseTarget]
    else TargetSeries(baseTarget, infl, totalMonths - 1) + [TargetAt(baseTarget, infl, totalMonths)]
  }

  /** Entry `m` of the series is the base target grown by `m / 12` whole
      years of inflation. */
  lemma {:induction false} TargetEntry(baseTarget: real, infl: real, totalMonths: nat, m: nat)
    requires m <= totalMonths
    ensures TargetSeries(baseTarget, infl, totalMonths)[m] == TargetAt(baseTarget, infl, m)
  {
    if m < totalMonths {
      TargetEntry(baseTarget, infl, totalMonths - 1, m);
    }
  }

  /** The target is flat inside each 12-month block: every month of a year
      carries the value of the block's first month. */
  lemma TargetConstantWithinYear(baseTarget: real, infl: real, m: nat)
    ensures TargetAt(baseTarget, infl, m) == TargetAt(baseTarget, infl, m / 12 * 12)
  {
    assert (m / 12 * 12) / 12 == m / 12;
  }

  /** Twelve months later the target is exactly one year of inflation higher. */
  lemma TargetYearStep(baseTarget: real, infl: real, m: nat)
    ensures TargetAt(baseTarget, infl, m + 12) == TargetAt(baseTarget, infl, m) * (1.0 + infl)
  {
    var x, k := 1.0 + infl, m / 12;
    assert (m + 12) / 12 == k + 1;
    MulRotate(baseTarget, x, Pow(x, k));
  }

  /** With a non-negative spending and an inflation rate of at least -100%
      no target is negative. */
  lemma TargetNonNegative(baseTarget: real, infl: real, m: nat)
    requires baseTarget >= 0.0 && infl >= -1.0
    ensures TargetAt(baseTarget, infl, m) >= 0.0
  {
    PowNonNegative(1.0 + infl, m / 12);
    MulNonNegative(baseTarget, Pow(1.0 + infl, m / 12));
  }

  /** With non-negative inflation the target never falls. */
  lemma TargetNonDecreasing(baseTarget: real, infl: real, i: nat, j: nat)
    requires baseTarget >= 0.0 && infl >= 0.0 && i <= j
    ensures TargetAt(baseTarget, infl, i) <= TargetAt(baseTarget, infl, j)
  {
    var lo, hi := Pow(1.0 + infl, i / 12), Pow(1.0 + infl, j / 12);
    PowMonotone(1.0 + infl, i / 12, j / 12);
    MulNonNegative(baseTarget, hi - lo);
    assert baseTarget * hi - baseTarget * lo == baseTarget * (hi - lo);
  }
}
