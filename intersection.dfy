/**
 The first-crossing solver: scans a portfolio series against the target series
 for the first month in which the portfolio goes from at-or-below the target to
 at-or-above it, and interpolates linearly inside that month to a fractional
 age and a value.
 */
module Intersection {
  import opened RealArith

  /** What the solver reports for one series. */
  datatype Crossing =
    | NoCrossing                     // no FI by the end age (`null` in script.js)
    | Point(age: real, value: real)  // the interpolated crossing
    | Indeterminate                  // both gaps are zero: script.js divides 0 by 0 and reports a NaN point

  /** How far the portfolio is below the target in month `i` (negative when
      it is above). */
  function Gap(series: seq<real>, target: seq<real>, i: nat): (r: real)
    requires i < |series| == |target|
    ensures r >= 0.0 <==> series[i] <= target[i]
    ensures r <= 0.0 <==> target[i] <= series[i]
  {
    target[i] - series[i]
  }

  /** Month `i` closes a crossing: the portfolio was at or below the target in
      month `i - 1` and is at or above it in month `i`. */
  predicate IsCrossing(series: seq<real>, target: seq<real>, i: int)
    requires |series| == |target|
    ensures IsCrossing(series, target, i) <==>
      1 <= i < |series| && series[i - 1] <= target[i - 1] && target[i] <= series[i]
  {
    1 <= i < |series| && Gap(series, target, i - 1) >= 0.0 && Gap(series, target, i) <= 0.0
  }

  /** The fraction of month `i` at which the two chords meet, from the gap at
      its start (`d0 >= 0`) and at its end (`d1 <= 0`). */
  function Frac(d0: real, d1: real): (f: real)
    requires d0 >= 0.0 >= d1 && d0 - d1 != 0.0
    ensures 0.0 <= f <= 1.0
    ensures f * (d0 - d1) == d0
  {
    d0 / (d0 - d1)
  }

  /** The crossing point inside month `i`, interpolated on both chords. */
  function Interpolate(series: seq<real>, target: seq<real>, age0: int, i: nat): (r: Crossing)
    requires |series| == |target| && IsCrossing(series, target, i)
    ensures !r.NoCrossing?
    ensures r.Indeterminate? <==> Gap(series, target, i - 1) == 0.0 && Gap(series, target, i) == 0.0
    ensures r.Point? ==> age0 as real + (i - 1) as real / 12.0 <= r.age <= age0 as real + i as real / 12.0
    ensures r.Point? ==> Between(r.value, series[i - 1], series[i])
    ensures r.Point? ==>
      var f := 12.0 * (r.age - age0 as real) - (i - 1) as real;
      r.value == series[i - 1] + f * (series[i] - series[i - 1]) &&
      r.value == target[i - 1] + f * (target[i] - target[i - 1])
  {
    var d0 := Gap(series, target, i - 1);
    var d1 := Gap(series, target, i);
    if d0 - d1 == 0.0 then Indeterminate
    else
      var f := Frac(d0, d1);
      var value := series[i - 1] + f * (series[i] - series[i - 1]);
      assert value - (target[i - 1] + f * (target[i] - target[i - 1])) == f * (d0 - d1) - d0;
      assert Between(value, series[i - 1], series[i]) by { InterpolationBetween(series[i - 1], series[i], f); }
      Point(age0 as real + ((i - 1) as real + f) / 12.0, value)
  }

  /** `v` lies between `a` and `b`, whichever of them is larger. */
  predicate Between(v: real, a: real, b: real)
  {
    (a <= v <= b) || (b <= v <= a)
  }

  lemma InterpolationBetween(a: real, b: real, f: real)
    requires 0.0 <= f <= 1.0
    ensures Between(a + f * (b - a), a, b)
  {
    if a <= b {
      MulNonNegative(f, b - a);
      MulNonNegative(1.0 - f, b - a);
      assert (b - a) - f * (b - a) == (1.0 - f) * (b - a);
    } else {
      MulNonNegative(f, a - b);
      MulNonNegative(1.0 - f, a - b);
      assert (a - b) - f * (a - b) == (1.0 - f) * (a - b);
      assert f * (b - a) == -(f * (a - b));
    }
  }

  /** First crossing month at or after `i`, or `|series|` when there is none. */
  function ScanFrom(series: seq<real>, target: seq<real>, i: nat): (k: nat)
    requires |series| == |target| && 1 <= i <= |series|
    ensures i <= k <= |series|
    ensures k < |series| ==> IsCrossing(series, target, k)
    ensures forall j :: i <= j < k ==> !IsCrossing(series, target, j)
    decreases |series| - i
  {
    if i == |series| then |series|
    else if IsCrossing(series, target, i) then i
    else ScanFrom(series, target, i + 1)
  }

  /** The smallest crossing month, or `|series|` when no month is one. */
  function FirstCrossingIndex(series: seq<real>, target: seq<real>): (k: nat)
    requires |series| == |target|
    ensures k <= |series|
    ensures k < |series| ==> IsCrossing(series, target, k)
    ensures forall j :: 1 <= j < k ==> !IsCrossing(series, target, j)
  {
    if |series| == 0 then 0 else ScanFrom(series, target, 1)
  }

  /** The solver's answer: the interpolated point of the first crossing month,
      and no crossing exactly when no month is one. */
  function FirstCrossing(series: seq<real>, target: seq<real>, age0: int): (r: Crossing)
    requires |series| == |target|
    ensures r.NoCrossing? <==> forall j :: 1 <= j < |series| ==> !IsCrossing(series, target, j)
    ensures r.Point? ==> age0 as real <= r.age <= age0 as real + (|series| - 1) as real / 12.0
  {
    var k := FirstCrossingIndex(series, target);
    if k == |series| then NoCrossing else Interpolate(series, target, age0, k)
  }

  /** The solver loop: scans the months in order and stops at the first
      crossing. */
  method Intersect(series: seq<real>, target: seq<real>, age0: int) returns (r: Crossing)
    requires |series| == |target|
    ensures r == FirstCrossing(series, target, age0)
  {
    var i := 1;
    while i < |series|
      invariant 1 <= i
      invariant |series| > 0 ==> i <= |series|
      invariant forall j :: 1 <= j < i ==> !IsCrossing(series, target, j)
    {
      var d0 := target[i - 1] - series[i - 1];
      var d1 := target[i] - series[i];
      if d0 >= 0.0 && d1 <= 0.0 {
        assert IsCrossing(series, target, i);
        if d0 - d1 == 0.0 {
          return Indeterminate;
        }
        var frac := d0 / (d0 - d1);
        var age := age0 as real + ((i - 1) as real + frac) / 12.0;
        var val := series[i - 1] + frac * (series[i] - series[i - 1]);
        return Point(age, val);
      }
      i := i + 1;
    }
    return NoCrossing;
  }

  /** A portfolio strictly above the target in every month never crosses. */
  lemma AlwaysAboveTargetMeansNoCrossing(series: seq<real>, target: seq<real>, age0: int)
    requires |series| == |target|
    requires forall i :: 0 <= i < |series| ==> target[i] < series[i]
    ensures FirstCrossing(series, target, age0) == NoCrossing
  {
  }

  /** Starting at or below the target, a month `k` in which the portfolio is
      at or above the target bounds the first crossing month. */
  lemma {:induction false} CrossingBy(series: seq<real>, target: seq<real>, k: nat)
    requires |series| == |target| && 1 <= k < |series|
    requires Gap(series, target, 0) >= 0.0 && Gap(series, target, k) <= 0.0
    ensures FirstCrossingIndex(series, target) <= k
  {
    if Gap(series, target, k - 1) >= 0.0 {
      assert IsCrossing(series, target, k);
    } else {
      CrossingBy(series, target, k - 1);
    }
  }

  /** A series that is never below another one, with the same start at or
      below the target, crosses no later. */
  lemma HigherSeriesCrossesNoLater(low: seq<real>, high: seq<real>, target: seq<real>)
    requires |low| == |high| == |target| >= 1
    requires low[0] == high[0] <= target[0]
    requires forall m :: 0 <= m < |low| ==> low[m] <= high[m]
    ensures FirstCrossingIndex(high, target) <= FirstCrossingIndex(low, target)
  {
    var k := FirstCrossingIndex(low, target);
    if k < |low| {
      CrossingBy(high, target, k);
    }
  }

  /** The interpolated fraction grows with both gaps. */
  lemma FracMonotone(a0: real, b0: real, a1: real, b1: real)
    requires a0 >= 0.0 >= b0 && a0 - b0 != 0.0
    requires a1 >= 0.0 >= b1 && a1 - b1 != 0.0
    requires a1 <= a0 && b1 <= b0
    ensures Frac(a1, b1) <= Frac(a0, b0)
  {
    var d0, d1 := a0 - b0, a1 - b1;
    GapCrossOrder(a0, b0, a1, b1);
    RatioOrder(Frac(a0, b0), Frac(a1, b1), d0, d1, a0, a1);
  }

  /** Cross-multiplied form of the comparison of the two fractions. */
  lemma GapCrossOrder(a0: real, b0: real, a1: real, b1: real)
    requires 0.0 <= a1 <= a0 && b1 <= b0 <= 0.0
    ensures a1 * (a0 - b0) <= a0 * (a1 - b1)
  {
    MulNonNegative(a0 - a1, -b1);
    MulNonNegative(a1, b0 - b1);
    assert a0 * (a1 - b1) - a1 * (a0 - b0) == (a0 - a1) * (-b1) + a1 * (b0 - b1);
  }

  /** Two quotients with positive denominators compare as their
      cross-products do. */
  lemma RatioOrder(f0: real, f1: real, d0: real, d1: real, a0: real, a1: real)
    requires d0 > 0.0 && d1 > 0.0 && f0 * d0 == a0 && f1 * d1 == a1
    requires a1 * d0 <= a0 * d1
    ensures f1 <= f0
  {
    if f1 > f0 {
      MulPositive(d0, d1);
      MulPositive(f1 - f0, d0 * d1);
      assert false;
    }
  }

  /** The FI age of a series that is never below another one, with the same
      start at or below the target, is no later: if the lower series reaches
      the target so does the higher one, and when both crossings are points
      the higher one's age is at most the lower one's. */
  lemma HigherSeriesReachesFINoLater(low: seq<real>, high: seq<real>, target: seq<real>, age0: int)
    requires |low| == |high| == |target| >= 1
    requires low[0] == high[0] <= target[0]
    requires forall m :: 0 <= m < |low| ==> low[m] <= high[m]
    ensures FirstCrossing(low, target, age0).NoCrossing? || !FirstCrossing(high, target, age0).NoCrossing?
    ensures FirstCrossing(low, target, age0).Point? && FirstCrossing(high, target, age0).Point? ==>
      FirstCrossing(high, target, age0).age <= FirstCrossing(low, target, age0).age
  {
    HigherSeriesCrossesNoLater(low, high, target);
    var k0, k1 := FirstCrossingIndex(low, target), FirstCrossingIndex(high, target);
    var r0, r1 := FirstCrossing(low, target, age0), FirstCrossing(high, target, age0);
    if r0.Point? && r1.Point? && k1 == k0 {
      FracMonotone(Gap(low, target, k0 - 1), Gap(low, target, k0),
                   Gap(high, target, k0 - 1), Gap(high, target, k0));
    }
  }

  /** The FI point when a portfolio that is already at or above the target
      in the first month counts as FI at the current age, and otherwise the
      first crossing. */
  function FirstFI(series: seq<real>, target: seq<real>, age0: int): (r: Crossing)
    requires |series| == |target| >= 1
    ensures series[0] >= target[0] ==> r == Point(age0 as real, series[0])
    ensures r.NoCrossing? <==>
      series[0] < target[0] && forall j :: 1 <= j < |series| ==> !IsCrossing(series, target, j)
  {
    if Gap(series, target, 0) <= 0.0 then Point(age0 as real, series[0])
    else FirstCrossing(series, target, age0)
  }

  /** With FI counted from the first month, a series never below another one
      with the same start reaches FI no later, wherever the start lies
      relative to the target. */
  lemma HigherSeriesFirstFINoLater(low: seq<real>, high: seq<real>, target: seq<real>, age0: int)
    requires |low| == |high| == |target| >= 1
    requires low[0] == high[0]
    requires forall m :: 0 <= m < |low| ==> low[m] <= high[m]
    ensures FirstFI(low, target, age0).NoCrossing? || !FirstFI(high, target, age0).NoCrossing?
    ensures FirstFI(low, target, age0).Point? && FirstFI(high, target, age0).Point? ==>
      FirstFI(high, target, age0).age <= FirstFI(low, target, age0).age
  {
    if low[0] < target[0] {
      HigherSeriesReachesFINoLater(low, high, target, age0);
    }
  }
}
