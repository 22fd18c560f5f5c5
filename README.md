# FI projection engine

A Dafny model of the projection engine behind the financial-independence (FI)
calculator in `script.js`. One recalculation (`recalc`) does the following:

- It checks the three ages (current, retirement, end).
- It picks a safe withdrawal rate (SWR) from the length of the retirement.
- It builds a monthly FI target series: today's lump sum grown by inflation
  in whole-year steps.
- It derives the expected annual return from an age-based glide path plus a
  scenario offset.
- It simulates two portfolios month by month: the baseline, and the scenario
  with extra monthly savings.
- For each portfolio it finds the first upward crossing: the first month
  that starts at or below the target and ends at or above it. It then
  interpolates inside that month to a fractional FI age and a value. A
  portfolio that starts above the target is not FI until it has fallen to the
  target and risen back to it.

The model is split into one module per stage:

- `Assumptions` (`assumptions.dfy`): the age gate, the SWR step function and
  the return glide path.
- `Target` (`target.dfy`): the base target, the per-month target `TargetAt`
  and the target series.
- `Portfolio` (`portfolio.dfy`): the monthly recurrence in scalar form
  (`Balance`), and the series the loop builds (`Series`). It also has the
  loop itself as the method `Simulate`, which appends to two sequences as
  script.js pushes to two arrays.
- `Intersection` (`intersection.dfy`): the first-crossing predicate, its
  specification functions, and the scanning loop `Intersect`.
- `Projection` (`projection.dfy`): the whole recalculation. `Project` is the
  specification and `Recalc` runs the steps in the order script.js runs them.
- `RealArith` (`arith.dfy`): a few facts about products of reals.

Numbers are exact `real`s. The monthly rate is a parameter (see "Left out").

## Model

| member | source | states |
|---|---|---|
| Assumptions.ValidAges | script.js:53-58 | the gate passes exactly when `age0 < retire < endA`; the third comparison in script.js adds nothing |
| Assumptions.SwrPercent | script.js:61-65 | the rate is 4.00, 3.50, 3.00 or 2.50 exactly on the brackets `<=30`, `(30,40]`, `(40,50]`, `>50` (30, 40 and 50 take the rate of the bracket they close), and always lies in [2.5, 4.0] |
| Assumptions.SwrRate | script.js:67 | the fractional rate lies in [0.025, 0.04], so it is never zero |
| Assumptions.SwrNonIncreasing | script.js:62-65 | a longer retirement never gets a higher withdrawal rate |
| Assumptions.BaseReturn | script.js:81-83 | the glide path is 0.10 up to age 20 and 0.055 from age 65, and always lies in [0.055, 0.10] |
| Assumptions.BaseReturnIsClampedLine | script.js:81-83 | the glide path equals one straight line `0.10 - 0.001*(age-20)` with the age clamped to [20, 65]: the three pieces join without a jump |
| Assumptions.BaseReturnNonIncreasing | script.js:81-83 | the glide path never rises with age |
| Assumptions.AnnualReturn | script.js:85 | the annual return is the glide path shifted by exactly `0.01*scenario`, and so lies in `[0.055, 0.10] + 0.01*scenario` |
| Assumptions.AnnualReturnMonotone | script.js:81-85 | an older saver never expects a higher return, and one scenario step up adds exactly one percentage point |
| Target.BaseTarget | script.js:71 | the base target times the SWR equals the yearly spending; for non-negative spending it is between 25 and 40 times the yearly spending |
| Target.TargetAt | script.js:73-74 | the target of a month in the first year is the base target, and in the second year it is the base target times `1 + infl` |
| Target.TargetSeries | script.js:70-75 | the series has `totalMonths + 1` entries and starts at the base target |
| Target.TargetEntry | script.js:72-75 | entry `m` of the series is `baseTarget * (1+infl)^floor(m/12)` (`TargetAt`) |
| Target.TargetConstantWithinYear | script.js:73-74 | the target of month `m` equals the target of the first month of its 12-month block |
| Target.TargetYearStep | script.js:73-74 | twelve months later the target is exactly `1 + infl` times higher |
| Target.TargetNonNegative | script.js:74 | with a non-negative base target and `infl >= -1` no target is negative |
| Target.TargetNonDecreasing | script.js:73-74 | with a non-negative base target and `infl >= 0` the target never falls from one month to a later one |
| Portfolio.Contributes | script.js:96-97 | month `m` receives a contribution (`age0 + m/12 < retire`) exactly when `m < 12*(retire-age0)`, so the month in which the retirement age is reached gets none |
| Portfolio.Deposit | script.js:96-100 | a month before the retirement month receives the whole monthly amount, and from the retirement month on nothing |
| Portfolio.Balance | script.js:91-103 | with a non-negative start, non-negative savings and `1 + monthlyRate >= 0`, no balance is ever negative |
| Portfolio.Series | script.js:90-103 | the series the loop produces has `totalMonths + 1` entries and starts at `port0` |
| Portfolio.Simulate | script.js:90-103 | the two arrays the loop pushes are the baseline series (saving `annSav/12`) and the scenario series (saving `annSav/12 + extra`); with `extra == 0` they are identical |
| Portfolio.SeriesIsBalance | script.js:91-103 | entry `m` of a simulated series is the reference balance after `m` months |
| Portfolio.SeriesRecurrence | script.js:94-102 | each entry is the previous one times `1 + monthlyRate`, plus that month's contribution |
| Portfolio.GrowKeepsOrder | script.js:94-95 | a month's growth keeps the order of two balances when `1 + monthlyRate >= 0`, and keeps it strict when `1 + monthlyRate > 0` |
| Portfolio.ScenarioNeverBelow | script.js:93-103 | with `extra >= 0` and `1 + monthlyRate >= 0`, the scenario balance is never below the baseline balance |
| Portfolio.ScenarioSeriesNeverBelow | script.js:93-103 | the same, entry by entry over both whole series: `comb0[m] <= comb1[m]` for every `m` |
| Portfolio.ScenarioStrictlyAhead | script.js:93-103 | with `extra > 0`, `1 + monthlyRate > 0` and a first month that is a working month, the scenario is strictly ahead from month 1 on |
| Portfolio.NoDepositAfterRetirement | script.js:94-100 | from month `12*(retire-age0)` on, a month only multiplies the balance by `1 + monthlyRate` |
| Portfolio.CompoundsAfterRetirement | script.js:93-103 | once the contributions have stopped, the balance `j` months later is the earlier balance grown `j` times with no deposit |
| Portfolio.ZeroGrowthBalance | script.js:93-103 | with a zero rate the balance is `port0` plus one contribution per saving month; the last contribution is paid one month before the retirement age |
| Intersection.Gap | script.js:108-109 | the gap is non-negative exactly when the portfolio is at or below the target, and non-positive exactly when it is at or above it |
| Intersection.IsCrossing | script.js:107-110 | month `i` (from 1) is a crossing exactly when the portfolio is at or below the target at month `i-1` and at or above it at month `i` |
| Intersection.Frac | script.js:111 | for `d0 >= 0 >= d1` with `d0 != d1`, the fraction lies in [0, 1] and satisfies `frac * (d0 - d1) == d0` |
| Intersection.Interpolate | script.js:110-114 | the result is a point unless both gaps are zero. A point's age lies in `[age0 + (i-1)/12, age0 + i/12]` and its value lies between `series[i-1]` and `series[i]`. At that age the value lies on both the portfolio chord and the target chord |
| Intersection.ScanFrom | script.js:107-117 | the scan from month `i` stops at the first crossing month at or after `i`, or at the end |
| Intersection.FirstCrossingIndex | script.js:107-117 | the index is a crossing month (`d0 >= 0` and `d1 <= 0`) and no earlier month is one, or it is the length when no month is one |
| Intersection.FirstCrossing | script.js:106-118 | the result is "no crossing" (`null` in script.js) exactly when no month `i >= 1` is a crossing month; a point's age lies between the current age and the last month's age |
| Intersection.Intersect | script.js:106-118 | the scanning loop returns exactly `FirstCrossing` |
| Intersection.AlwaysAboveTargetMeansNoCrossing | script.js:107-117 | a portfolio strictly above the target in every month never crosses |
| Intersection.CrossingBy | script.js:107-117 | a series that starts at or below the target and is at or above it in month `k` has its first crossing no later than `k` |
| Intersection.HigherSeriesCrossesNoLater | script.js:107-117 | a series never below another one, with the same start at or below the target, has a first crossing month no later than the other's |
| Intersection.FracMonotone | script.js:111 | a smaller gap before and a more negative gap after give a fraction no larger |
| Intersection.HigherSeriesReachesFINoLater | script.js:106-118 | for such a pair of series, if the lower one reaches the target so does the higher one, and the higher one's interpolated age is no later |
| Intersection.FirstFI | script.js:106-118 | the corrected FI point: a series at or above the target in month 0 is FI at the current age; otherwise the result is the first crossing, and it is "no crossing" exactly when the series starts below the target and never crosses |
| Intersection.HigherSeriesFirstFINoLater | script.js:106-118 | with `FirstFI`, a series never below another one with the same start reaches FI whenever the other does, and no later, wherever the start lies |
| Projection.Project | script.js:41-120 | the recalculation reports "Invalid ages" exactly when the age gate fails |
| Projection.Recalc | script.js:41-120 | the step-by-step recalculation (validation, SWR, target, return, simulation, two intersections) yields exactly `Project` |
| Projection.ProjectionShape | script.js:70-103 | all three series have `(endA-age0)*12 + 1 >= 25` entries; both portfolios start at `port0` and the target at the base target |
| Projection.CrossingAgesWithinHorizon | script.js:106-120 | every reported FI age lies between the current age and the end age |
| Projection.ZeroExtraSameCrossing | script.js:119-120 | with `extra == 0` the scenario reports the same crossing as the baseline |
| Projection.ScenarioReachesFINoLater | script.js:90-120 | with `extra >= 0`, `1 + monthlyRate >= 0` and a portfolio starting at or below the target, saving more never delays FI. If the baseline reaches the target so does the scenario, and no later |
| Projection.AllZeroAmountsGiveIndeterminatePoint | script.js:108-113 | with zero spending, portfolio and savings, month 1 is a crossing with two zero gaps, so script.js computes `0/0` there; the model reports it as `Indeterminate` |
| Projection.StartAboveScenarioLater | script.js:93-120 | for one input whose portfolio starts above the target, the scenario with extra savings reports a later FI age than the baseline |
| Projection.FirstFIScenarioNoLater | script.js:90-120 | with the corrected FI point and `extra >= 0`, `1 + monthlyRate >= 0`, the scenario reaches FI whenever the baseline does, and no later, with no condition on the starting portfolio |
| Projection.WorkedExample | script.js:61-83 | planning 25 retirement years gives 4.00%. Spending 4000 a month then needs 1,200,000 today. Age 30 gives a 9% base return, and 51 retirement years give 2.50% |

## Left out

- Reading the form fields and writing the result panels: DOM access, `formatCurrency` and the currency listeners. The inputs are already-typed numbers; ages are integers. The panel texts, including the "years sooner" difference (script.js:123-131), are not modelled.
- Drawing with Chart.js and keeping the chart handles (script.js:134-175): a foreign library.
- The string-to-number coercions (`+x || 0`, `parseFloat(...)/100 || 0`) and the `toFixed`/`Math.round` formatting: they belong to the language and the display.
- The monthly rate. script.js derives it as `Math.pow(1+annualR, 1/12) - 1` (script.js:87), a fractional power that exact reals cannot express, so `Simulate`, `Project` and `Recalc` take it as a parameter. `AnnualReturn` is modelled, but the link between the two is not.
- Floating-point rounding: all arithmetic is exact.
- Intersection.Intersect: when both gaps of the first crossing month are zero, script.js:111-114 divides `0/0` and returns a point whose age and value are NaN. The model reports `Indeterminate` instead.
- Target.BaseTarget: script.js guards `swrNum === 0` with an infinite target. The guard is dead, because the rate is at least 2.5%, so the model has no infinite value.
- Projection.ScenarioReachesFINoLater: the claim needs the portfolio to start at or below the target. script.js:110 only detects upward crossings, so a portfolio that starts above the target can fall below it and cross back later, and more savings can then delay the reported FI age (see "## Findings").
- A fixed-return override ("use 9.6%") appears in another variant of the calculator. This script only has the additive scenario offset, so it is not part of this model.

## Findings

| source | as written | input that shows it | evidently intended | confidence | as-written member | corrected member |
|---|---|---|---|---|---|---|
| script.js:106-120 | FI is only the first month that goes from at or below the target to at or above it, so a portfolio that starts above the target is not FI until it has dipped under the target and come back | age 30, retiring at 33, plan to 34, spending 1 a month (target 300, then 330 and 363), portfolio 300.3, saving 24 a year, inflation 10%, extra 0.5 a month, zero growth: the baseline is FI in month 15 and the scenario only in month 26 | a portfolio already at or above the target is FI now, so saving more never delays FI | not executed; medium | Projection.StartAboveScenarioLater | Intersection.FirstFI, Projection.FirstFIScenarioNoLater |

`Project` and `Recalc` keep the behaviour of script.js, so that they report what the calculator shows. `FirstFI` is the corrected FI point, and `FirstFIScenarioNoLater` proves the intended promise for it.
