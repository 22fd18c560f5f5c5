/**
 Validation of the three ages and the two derived assumptions of a projection:
 the safe withdrawal rate (a step function of the retirement length) and the
 expected annual return (an age-based glide path shifted by a scenario offset).
 */
module Assumptions {

  /** The age gate: a projection is computed only when this holds. script.js
      rejects when any of three comparisons fails; the third one is implied by
      the other two, so the gate accepts exactly strictly increasing ages. */
  predicate ValidAges(age0: int, retire: int, endA: int)
    ensures ValidAges(age0, retire, endA) <==> age0 < retire < endA
  {
    !(age0 >= retire || retire >= endA || age0 >= endA)
  }

  /** Safe withdrawal rate, in percent, for a retirement of `planYears` years.
      Each bracket is closed on the right: 30, 40 and 50 years take the rate
      of the bracket they end. */
  function SwrPercent(planYears: int): (r: real)
    ensures 2.5 <= r <= 4.0
    ensures r == 4.0 <==> planYears <= 30
    ensures r == 3.5 <==> 30 < planYears <= 40
    ensures r == 3.0 <==> 40 < planYears <= 50
    ensures r == 2.5 <==> planYears > 50
  {
    if planYears <= 30 then 4.00
    else if planYears <= 40 then 3.50
    else if planYears <= 50 then 3.00
    else 2.50
  }

  /** The same rate as a fraction (`swrNum`); never zero. */
  function SwrRate(planYears: int): (r: real)
    ensures 0.025 <= r <= 0.04
  {
    SwrPercent(planYears) / 100.0
  }

  /** A longer retirement never gets a higher withdrawal rate. */
  lemma SwrNonIncreasing(p: int, q: int)
    requires p <= q
    ensures SwrPercent(q) <= SwrPercent(p)
  {
  }

  /** Age-based glide path of the expected annual return (a fraction). */
  function BaseReturn(age0: int): (r: real)
    ensures 0.055 <= r <= 0.10
    ensures age0 <= 20 ==> r == 0.10
    ensures age0 >= 65 ==> r == 0.055
  {
    if age0 <= 20 then 0.10
    else if age0 >= 65 then 0.055
    else 0.10 - 0.001 * (age0 - 20) as real
  }

  /** `x` held to the interval [lo, hi]. */
  function Clamp(x: int, lo: int, hi: int): int
    requires lo <= hi
  {
    if x < lo then lo else if x > hi then hi else x
  }

  /** The glide path is one straight line held flat outside ages 20..65: the
      two constant pieces join the sloped piece without a jump. */
  lemma BaseReturnIsClampedLine(age0: int)
    ensures BaseReturn(age0) == 0.10 - 0.001 * (Clamp(age0, 20, 65) - 20) as real
  {
  }

  /** The glide path never rises with age. */
  lemma BaseReturnNonIncreasing(a: int, b: int)
    requires a <= b
    ensures BaseReturn(b) <= BaseReturn(a)
  {
    BaseReturnIsClampedLine(a);
    BaseReturnIsClampedLine(b);
  }

  /** Expected annual return: the glide path plus one percentage point per
      scenario step. */
  function AnnualReturn(age0: int, scenario: int): (r: real)
    ensures 0.055 + 0.01 * scenario as real <= r <= 0.10 + 0.01 * scenario as real
    ensures r - BaseReturn(age0) == 0.01 * scenario as real
  {
    BaseReturn(age0) + scenario as real * 0.01
  }

  /** An older saver never expects a higher return, and each scenario step up
      raises the expected return by exactly one percentage point. */
  lemma AnnualReturnMonotone(a: int, b: int, scenario: int)
    requires a <= b
    ensures AnnualReturn(b, scenario) <= AnnualReturn(a, scenario)
    ensures AnnualReturn(a, scenario + 1) == AnnualReturn(a, scenario) + 0.01
  {
    BaseReturnNonIncreasing(a, b);
  }
}
