/**
 One recalculation of the projection: validate the ages, derive the withdrawal
 rate and the expected return, build the target series, simulate the baseline
 and the scenario portfolios and find where each first reaches the target.
 */
module Projection {
  import opened Assumptions
  import opened Target
  import opened Portfolio
  import opened Intersection

  /** The user's inputs, already read as numbers. */
  datatype Inputs = Inputs(
    age0: int, retire: int, endA: int,
    mSpend: real, port0: real, annSav: real, infl: real, extra: real,
    scenario: int)

  /** The result of a recalculation: either the age gate failed ("Invalid
      ages"), or everything the panels and the charts are drawn from. */
  datatype Outcome =
    | InvalidAges
    | Projected(swrPercent: real, annualR: real, target: seq<real>,
                comb0: seq<real>, comb1: seq<real>, basePt: Crossing, newPt: Crossing)

  /** What one recalculation produces, as a function of the inputs.
      `monthlyRate` is the monthly rate equivalent to the annual return,
      which script.js obtains as a twelfth root. */
  function Project(inp: Inputs, monthlyRate: real): (out: Outcome)
    ensures out.InvalidAges? <==> !ValidAges(inp.age0, inp.retire, inp.endA)
  {
    if !ValidAges(inp.age0, inp.retire, inp.endA) then InvalidAges
    else
      var planYears := inp.endA - inp.retire;
      var totalMonths := (inp.endA - inp.age0) * 12;
      var target := TargetSeries(BaseTarget(inp.mSpend, planYears), inp.infl, totalMonths);
      var comb0 := Series(inp.port0, monthlyRate, inp.annSav / 12.0, inp.age0, inp.retire, totalMonths);
      var comb1 := Series(inp.port0, monthlyRate, inp.annSav / 12.0 + inp.extra, inp.age0, inp.retire, totalMonths);
      Projected(SwrPercent(planYears), AnnualReturn(inp.age0, inp.scenario), target, comb0, comb1,
                FirstCrossing(comb0, target, inp.age0), FirstCrossing(comb1, target, inp.age0))
  }

  /** The recalculation, step by step as script.js runs it. */
  method Recalc(inp: Inputs, monthlyRate: real) returns (out: Outcome)
    ensures out.InvalidAges? <==> !ValidAges(inp.age0, inp.retire, inp.endA)
    ensures out == Project(inp, monthlyRate)
  {
    if !ValidAges(inp.age0, inp.retire, inp.endA) {
      return InvalidAges;
    }
    var planYears := inp.endA - inp.retire;
    var swrVal := SwrPercent(planYears);
    var totalMonths := (inp.endA - inp.age0) * 12;
    var target := TargetSeries(BaseTarget(inp.mSpend, planYears), inp.infl, totalMonths);
    var annualR := AnnualReturn(inp.age0, inp.scenario);
    var comb0, comb1 := Simulate(inp.age0, inp.retire, totalMonths, inp.port0, inp.annSav, inp.extra, monthlyRate);
    var basePt := Intersect(comb0, target, inp.age0);
    var newPt := Intersect(comb1, target, inp.age0);
    out := Projected(swrVal, annualR, target, comb0, comb1, basePt, newPt);
    assert out == Project(inp, monthlyRate);
  }

  /** A projection covers the whole horizon month by month: the three series
      have one entry per month from the current age to the end age, both
      portfolios start at the current portfolio and the target at the base
      target. */
  lemma ProjectionShape(inp: Inputs, monthlyRate: real)
    requires ValidAges(inp.age0, inp.retire, inp.endA)
    ensures var out := Project(inp, monthlyRate);
      && |out.target| == (inp.endA - inp.age0) * 12 + 1 >= 25
      && |out.comb0| == |out.target| && |out.comb1| == |out.target|
      && out.comb0[0] == inp.port0 && out.comb1[0] == inp.port0
      && out.target[0] == BaseTarget(inp.mSpend, inp.endA - inp.retire)
  {
  }

  /** Every reported crossing age lies between the current age and the end
      age. */
  lemma CrossingAgesWithinHorizon(inp: Inputs, monthlyRate: real)
    requires Project(inp, monthlyRate).Projected?
    ensures var out := Project(inp, monthlyRate);
      && (out.basePt.Point? ==> inp.age0 as real <= out.basePt.age <= inp.endA as real)
      && (out.newPt.Point? ==> inp.age0 as real <= out.newPt.age <= inp.endA as real)
  {
    var totalMonths := (inp.endA - inp.age0) * 12;
    assert inp.age0 as real + totalMonths as real / 12.0 == inp.endA as real;
  }

  /** With no extra saving the scenario is the baseline, so both report the
      same crossing. */
  lemma ZeroExtraSameCrossing(inp: Inputs, monthlyRate: real)
    requires Project(inp, monthlyRate).Projected? && inp.extra == 0.0
    ensures Project(inp, monthlyRate).newPt == Project(inp, monthlyRate).basePt
  {
  }

  /** Saving more never delays FI: when the extra saving is non-negative,
      growth keeps signs and the portfolio starts at or below the target, a
      baseline that reaches the target implies a scenario that does, and the
      scenario's FI age is at most the baseline's. */
  lemma ScenarioReachesFINoLater(inp: Inputs, monthlyRate: real)
    requires Project(inp, monthlyRate).Projected?
    requires inp.extra >= 0.0 && 1.0 + monthlyRate >= 0.0
    requires inp.port0 <= BaseTarget(inp.mSpend, inp.endA - inp.retire)
    ensures var out := Project(inp, monthlyRate);
      && (out.basePt.NoCrossing? || !out.newPt.NoCrossing?)
      && (out.basePt.Point? && out.newPt.Point? ==> out.newPt.age <= out.basePt.age)
  {
    var out := Project(inp, monthlyRate);
    var totalMonths := (inp.endA - inp.age0) * 12;
    ScenarioSeriesNeverBelow(inp.port0, monthlyRate, inp.annSav / 12.0, inp.extra, inp.age0, inp.retire, totalMonths);
    HigherSeriesReachesFINoLater(out.comb0, out.comb1, out.target, inp.age0);
  }

  /** With every amount zero the target and both portfolios are zero in every
      month, so the first month already has two zero gaps: script.js then
      divides 0 by 0 and reports a NaN point instead of a crossing. */
  lemma AllZeroAmountsGiveIndeterminatePoint(age0: int, retire: int, endA: int, infl: real, rate: real)
    requires ValidAges(age0, retire, endA)
    ensures
      var totalMonths := (endA - age0) * 12;
      FirstCrossing(Series(0.0, rate, 0.0, age0, retire, totalMonths),
                    TargetSeries(BaseTarget(0.0, endA - retire), infl, totalMonths), age0) == Indeterminate
  {
    var totalMonths := (endA - age0) * 12;
    var series := Series(0.0, rate, 0.0, age0, retire, totalMonths);
    var target := TargetSeries(BaseTarget(0.0, endA - retire), infl, totalMonths);
    ZeroBalanceStaysZero(rate, age0, retire, 1);
    SeriesIsBalance(0.0, rate, 0.0, age0, retire, totalMonths, 1);
    TargetEntry(BaseTarget(0.0, endA - retire), infl, totalMonths, 1);
    assert IsCrossing(series, target, 1);
    assert FirstCrossingIndex(series, target) == 1;
  }

  lemma {:induction false} ZeroBalanceStaysZero(rate: real, age0: int, retire: int, m: nat)
    ensures Balance(0.0, rate, 0.0, age0, retire, m) == 0.0
  {
    if m > 0 {
      ZeroBalanceStaysZero(rate, age0, retire, m - 1);
    }
  }

  /** The assumptions derived for a 30-year-old retiring at 65 with a plan to
      age 90 and spending 4000 a month. */
  lemma WorkedExample()
    ensures SwrPercent(90 - 65) == 4.0
    ensures BaseTarget(4000.0, 90 - 65) == 1200000.0
    ensures BaseReturn(30) == 0.09
    ensures SwrPercent(51) == 2.5
  {
  }

  /** Starting above the target, saving more can delay FI. A 30-year-old
      retiring at 33 with a plan to age 34 needs 300 today. With a portfolio
      of 300.3, a saving of 24 a year and no growth, the target's jump to 330
      at month 12 takes the baseline below it; the baseline crosses back in
      month 15. With an extra 0.5 a month the scenario stays above until the
      jump to 363 at month 24 and crosses only in month 26. */
  lemma StartAboveScenarioLater(inp: Inputs, monthlyRate: real)
    requires inp == Inputs(30, 33, 34, 1.0, 300.3, 24.0, 0.10, 0.5, 0) && monthlyRate == 0.0
    ensures var out := Project(inp, monthlyRate);
      && out.Projected? && out.basePt.Point? && out.newPt.Point?
      && out.newPt.age > out.basePt.age
  {
    var out := Project(inp, monthlyRate);
    var baseTarget, total := BaseTarget(inp.mSpend, inp.endA - inp.retire), (inp.endA - inp.age0) * 12;
    ExampleBaseTarget(inp.mSpend, inp.endA - inp.retire);
    var base, scen := inp.annSav / 12.0, inp.annSav / 12.0 + inp.extra;
    assert out.target == TargetSeries(baseTarget, inp.infl, total);
    assert out.comb0 == Series(inp.port0, monthlyRate, base, inp.age0, inp.retire, total);
    assert out.comb1 == Series(inp.port0, monthlyRate, scen, inp.age0, inp.retire, total);
    ExampleEntries(inp.port0, monthlyRate, base, inp.age0, inp.retire, total, baseTarget, inp.infl);
    ExampleEntries(inp.port0, monthlyRate, scen, inp.age0, inp.retire, total, baseTarget, inp.infl);
    ExampleCrossing(out.comb0, out.target, inp.age0, base, 15);
    ExampleCrossing(out.comb1, out.target, inp.age0, scen, 26);
  }

  /** In the example a portfolio saving 2 a month first crosses the target in
      month 15, and one saving 2.5 a month in month 26; both crossings are
      points inside their month. */
  lemma ExampleCrossing(series: seq<real>, target: seq<real>, age0: int, amount: real, k: nat)
    requires |series| == |target| >= 36
    requires forall m :: 0 <= m < 36 ==> series[m] == 300.3 + amount * m as real
    requires forall m :: 0 <= m < 36 ==>
      target[m] == if m < 12 then 300.0 else if m < 24 then 330.0 else 363.0
    requires (amount == 2.0 && k == 15) || (amount == 2.5 && k == 26)
    ensures FirstCrossingIndex(series, target) == k
    ensures var pt := FirstCrossing(series, target, age0);
      pt.Point? && age0 as real + (k - 1) as real / 12.0 <= pt.age <= age0 as real + k as real / 12.0
  {
    forall j | 1 <= j <= k
      ensures IsCrossing(series, target, j) <==> j == k
    {
      assert series[j - 1] == 300.3 + amount * (j - 1) as real;
      assert series[j] == 300.3 + amount * j as real;
    }
    assert IsCrossing(series, target, k);
    assert Gap(series, target, k - 1) != 0.0;
  }

  /** The example's series in its first three years: the portfolio grows by
      the monthly saving and the target steps from 300 to 330 to 363. */
  lemma ExampleEntries(port0: real, rate: real, amount: real, age0: int, retire: int, total: nat,
                       baseTarget: real, infl: real)
    requires port0 == 300.3 && rate == 0.0 && age0 == 30 && retire == 33 && 36 <= total
    requires baseTarget == 300.0 && infl == 0.10
    ensures forall m :: 0 <= m < 36 ==>
      Series(port0, rate, amount, age0, retire, total)[m] == 300.3 + amount * m as real
    ensures forall m :: 0 <= m < 36 ==>
      TargetSeries(baseTarget, infl, total)[m] == if m < 12 then 300.0 else if m < 24 then 330.0 else 363.0
  {
    forall m | 0 <= m < 36
      ensures Series(port0, rate, amount, age0, retire, total)[m] == 300.3 + amount * m as real
      ensures TargetSeries(baseTarget, infl, total)[m] == if m < 12 then 300.0 else if m < 24 then 330.0 else 363.0
    {
      ExampleSeries(port0, amount, age0, retire, total, m);
      ExampleTarget(baseTarget, infl, total, m);
    }
  }

  /** The example plans one retirement year, so it withdraws 4% and needs 300
      today for a spending of 1 a month. */
  lemma ExampleBaseTarget(mSpend: real, planYears: int)
    requires mSpend == 1.0 && planYears == 1
    ensures BaseTarget(mSpend, planYears) == 300.0
  {
    assert SwrRate(planYears) == 0.04;
  }

  /** Entries of the example's portfolio series while it still saves. */
  lemma ExampleSeries(port0: real, amount: real, age0: int, retire: int, total: nat, m: nat)
    requires port0 == 300.3 && age0 == 30 && retire == 33 && m < 36 <= total
    ensures Series(port0, 0.0, amount, age0, retire, total)[m] == 300.3 + amount * m as real
  {
    SeriesIsBalance(port0, 0.0, amount, age0, retire, total, m);
    ZeroGrowthBalance(port0, amount, age0, retire, m);
    assert SavingMonths(age0, retire, m) == m;
  }

  /** Entries of the example's target series in its first three years. */
  lemma ExampleTarget(baseTarget: real, infl: real, total: nat, m: nat)
    requires baseTarget == 300.0 && infl == 0.10 && m < 36 <= total
    ensures TargetSeries(baseTarget, infl, total)[m]
         == if m < 12 then 300.0 else if m < 24 then 330.0 else 363.0
  {
    TargetEntry(baseTarget, infl, total, m);
    if m >= 24 {
      assert m / 12 == 2;
      assert Pow(1.0 + infl, 2) == 1.21;
    }
  }

  /** Counting a portfolio already at or above the target as FI at the
      current age restores the promise that saving more never delays FI,
      with no condition on where the portfolio starts. */
  lemma FirstFIScenarioNoLater(inp: Inputs, monthlyRate: real)
    requires Project(inp, monthlyRate).Projected?
    requires inp.extra >= 0.0 && 1.0 + monthlyRate >= 0.0
    ensures var out := Project(inp, monthlyRate);
      var base, scen := FirstFI(out.comb0, out.target, inp.age0), FirstFI(out.comb1, out.target, inp.age0);
      && (base.NoCrossing? || !scen.NoCrossing?)
      && (base.Point? && scen.Point? ==> scen.age <= base.age)
  {
    var out := Project(inp, monthlyRate);
    var totalMonths := (inp.endA - inp.age0) * 12;
    ScenarioSeriesNeverBelow(inp.port0, monthlyRate, inp.annSav / 12.0, inp.extra, inp.age0, inp.retire, totalMonths);
    HigherSeriesFirstFINoLater(out.comb0, out.comb1, out.target, inp.age0);
  }
}
