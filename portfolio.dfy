/**
 The portfolio simulator: two balances, the baseline and the "extra savings"
 scenario, stepped month by month from the current age to the end age. Each
 month a balance first grows by the monthly rate and then, while the person is
 still working, receives that month's contribution.
 */
module Portfolio {
  import opened Target
  import opened RealArith

  /** The fractional age reached `m` months after the current age. */
  function AgeAt(age0: int, m: nat): real
  {
    age0 as real + m as real / 12.0
  }

  /** Month `m` (counted from the current age) still receives a contribution:
      the age reached in that month is strictly below the retirement age. */
  /** In whole months: the saving months are exactly those before month
      `12 * (retire - age0)`; the month in which the retirement age is reached
      gets no contribution. */
  predicate Contributes(age0: int, retire: int, m: nat)
    ensures Contributes(age0, retire, m) <==> m < 12 * (retire - age0)
  {
    assert AgeAt(age0, m) * 12.0 == (12 * age0 + m) as real;
    AgeAt(age0, m) < retire as real
  }

  /** The contribution paid in month `m` when a working month pays `amount`:
      the full amount before the retirement month, nothing from it on. */
  function Deposit(age0: int, retire: int, m: nat, amount: real): (r: real)
    ensures m < 12 * (retire - age0) ==> r == amount
    ensures m >= 12 * (retire - age0) ==> r == 0.0
  {
    if Contributes(age0, retire, m) then amount else 0.0
  }

  /** One month of growth at the monthly rate. */
  function Grow(w: real, rate: real): real
  {
    w * (1.0 + rate)
  }

  /** The monthly recurrence in scalar form: the balance after `m` months
      starts at `port0` and each month grows by `1 + rate`, then takes the
      deposit. `Series` lists these balances month by month. */
  function Balance(port0: real, rate: real, amount: real, age0: int, retire: int, m: nat): (r: real)
    ensures port0 >= 0.0 && amount >= 0.0 && 1.0 + rate >= 0.0 ==> r >= 0.0
  {
    if m == 0 then port0
    else
      var prev := Balance(port0, rate, amount, age0, retire, m - 1);
      assert port0 >= 0.0 && amount >= 0.0 && 1.0 + rate >= 0.0 ==> Grow(prev, rate) >= 0.0 by {
        if port0 >= 0.0 && amount >= 0.0 && 1.0 + rate >= 0.0 {
          GrowKeepsOrder(0.0, prev, rate);
        }
      }
      Grow(prev, rate) + Deposit(age0, retire, m, amount)
  }

  /** The series the simulator produces, built as it builds it: month by
      month, each entry appended after the previous one. */
  function Series(port0: real, rate: real, amount: real, age0: int, retire: int, n: nat): (r: seq<real>)
    ensures |r| == n + 1 && r[0] == port0
  {
    if n == 0 then [port0]
    else
      var prev := Series(port0, rate, amount, age0, retire, n - 1);
      prev + [Grow(prev[n - 1], rate) + Deposit(age0, retire, n, amount)]
  }

  /** Steps both balances over `totalMonths` months. The baseline saves
      `annSav / 12` per working month, the scenario that plus `extra`. */
  method Simulate(age0: int, retire: int, totalMonths: nat,
                  port0: real, annSav: real, extra: real, monthlyRate: real)
    returns (comb0: seq<real>, comb1: seq<real>)
    ensures comb0 == Series(port0, monthlyRate, annSav / 12.0, age0, retire, totalMonths)
    ensures comb1 == Series(port0, monthlyRate, annSav / 12.0 + extra, age0, retire, totalMonths)
    ensures extra == 0.0 ==> comb1 == comb0
  {
    var monthlySaving := annSav / 12.0;
    comb0, comb1 := [port0], [port0];
    var w0, w1 := port0, port0;
    var m := 1;
    while m <= totalMonths
      invariant 1 <= m <= totalMonths + 1
      invariant comb0 == Series(port0, monthlyRate, monthlySaving, age0, retire, m - 1)
      invariant comb1 == Series(port0, monthlyRate, monthlySaving + extra, age0, retire, m - 1)
      invariant w0 == comb0[m - 1] && w1 == comb1[m - 1]
    {
      w0 := Grow(w0, monthlyRate);
      w1 := Grow(w1, monthlyRate);
      var ageDec := AgeAt(age0, m);
      if ageDec < retire as real {
        w0 := w0 + monthlySaving;
        w1 := w1 + (monthlySaving + extra);
      }
      comb0 := comb0 + [w0];
      comb1 := comb1 + [w1];
      m := m + 1;
    }
  }

  /** Entry `m` of the simulated series is the balance after `m` months:
      both series start at `port0` and follow the monthly recurrence. */
  lemma {:induction false} SeriesIsBalance(port0: real, rate: real, amount: real, age0: int, retire: int,
                                           n: nat, m: nat)
    requires m <= n
    ensures Series(port0, rate, amount, age0, retire, n)[m] == Balance(port0, rate, amount, age0, retire, m)
  {
    if m < n {
      SeriesIsBalance(port0, rate, amount, age0, retire, n - 1, m);
    } else if n > 0 {
      SeriesIsBalance(port0, rate, amount, age0, retire, n - 1, n - 1);
    }
  }

  /** The simulated series obey the calculator's monthly recurrence: each entry
      is the previous one grown by one month plus that month's deposit. */
  lemma SeriesRecurrence(port0: real, rate: real, amount: real, age0: int, retire: int, n: nat, m: nat)
    requires 1 <= m <= n
    ensures Series(port0, rate, amount, age0, retire, n)[m]
         == Grow(Series(port0, rate, amount, age0, retire, n)[m - 1], rate) + Deposit(age0, retire, m, amount)
  {
    SeriesIsBalance(port0, rate, amount, age0, retire, n, m);
    SeriesIsBalance(port0, rate, amount, age0, retire, n, m - 1);
  }

  /** Growth keeps the order of two balances when `1 + rate` is not
      negative, and keeps it strict when `1 + rate` is positive. */
  lemma GrowKeepsOrder(lo: real, hi: real, rate: real)
    requires lo <= hi && 1.0 + rate >= 0.0
    ensures Grow(lo, rate) <= Grow(hi, rate)
    ensures lo < hi && 1.0 + rate > 0.0 ==> Grow(lo, rate) < Grow(hi, rate)
  {
    assert Grow(lo, rate) == lo * (1.0 + rate) && Grow(hi, rate) == hi * (1.0 + rate);
    OnePlusKeepsOrder(lo, hi, rate);
    if lo < hi && 1.0 + rate > 0.0 {
      OnePlusKeepsStrictOrder(lo, hi, rate);
    }
  }

  /** The scenario balance is never below the baseline when the extra saving
      is non-negative and growth does not flip signs. */
  lemma {:induction false} ScenarioNeverBelow(port0: real, rate: real, amount: real, extra: real,
                                              age0: int, retire: int, m: nat)
    requires extra >= 0.0 && 1.0 + rate >= 0.0
    ensures Balance(port0, rate, amount + extra, age0, retire, m)
         >= Balance(port0, rate, amount, age0, retire, m)
  {
    if m > 0 {
      ScenarioNeverBelow(port0, rate, amount, extra, age0, retire, m - 1);
      GrowKeepsOrder(Balance(port0, rate, amount, age0, retire, m - 1),
                     Balance(port0, rate, amount + extra, age0, retire, m - 1), rate);
    }
  }

  /** Pointwise over whole series: the scenario series dominates the
      baseline series. */
  lemma ScenarioSeriesNeverBelow(port0: real, rate: real, amount: real, extra: real,
                                 age0: int, retire: int, n: nat)
    requires extra >= 0.0 && 1.0 + rate >= 0.0
    ensures forall m :: 0 <= m <= n ==>
      Series(port0, rate, amount, age0, retire, n)[m] <= Series(port0, rate, amount + extra, age0, retire, n)[m]
  {
    forall m | 0 <= m <= n
      ensures Series(port0, rate, amount, age0, retire, n)[m] <= Series(port0, rate, amount + extra, age0, retire, n)[m]
    {
      SeriesIsBalance(port0, rate, amount, age0, retire, n, m);
      SeriesIsBalance(port0, rate, amount + extra, age0, retire, n, m);
      ScenarioNeverBelow(port0, rate, amount, extra, age0, retire, m);
    }
  }

  /** A positive extra saving puts the scenario strictly ahead from the first
      month on, provided the first month is still a working month and growth
      keeps signs. */
  lemma {:induction false} ScenarioStrictlyAhead(port0: real, rate: real, amount: real, extra: real,
                                                 age0: int, retire: int, m: nat)
    requires extra > 0.0 && 1.0 + rate > 0.0 && age0 < retire && m >= 1
    ensures Balance(port0, rate, amount + extra, age0, retire, m)
          > Balance(port0, rate, amount, age0, retire, m)
  {
    if m == 1 {
    } else {
      ScenarioStrictlyAhead(port0, rate, amount, extra, age0, retire, m - 1);
      GrowKeepsOrder(Balance(port0, rate, amount, age0, retire, m - 1),
                     Balance(port0, rate, amount + extra, age0, retire, m - 1), rate);
    }
  }

  /** `j` months of growth without any deposit. */
  function Compound(w: real, rate: real, j: nat): real
  {
    if j == 0 then w else Grow(Compound(w, rate, j - 1), rate)
  }

  /** Once the contributions have stopped the balance only compounds: `j`
      months after a month `k` from which no month pays a deposit, it is the
      balance of month `k` grown `j` times. */
  lemma {:induction false} CompoundsAfterRetirement(port0: real, rate: real, amount: real,
                                                    age0: int, retire: int, k: nat, j: nat)
    requires k + 1 >= 12 * (retire - age0)
    ensures Balance(port0, rate, amount, age0, retire, k + j)
         == Compound(Balance(port0, rate, amount, age0, retire, k), rate, j)
  {
    if j > 0 {
      CompoundsAfterRetirement(port0, rate, amount, age0, retire, k, j - 1);
      NoDepositAfterRetirement(port0, rate, amount, age0, retire, k + j);
    }
  }

  /** From the retirement month on, a month only compounds. */
  lemma NoDepositAfterRetirement(port0: real, rate: real, amount: real, age0: int, retire: int, m: nat)
    requires m >= 1 && m >= 12 * (retire - age0)
    ensures Balance(port0, rate, amount, age0, retire, m)
         == Grow(Balance(port0, rate, amount, age0, retire, m - 1), rate)
  {
  }

  /** Number of months among 1..m that receive a contribution. */
  function SavingMonths(age0: int, retire: int, m: nat): nat
  {
    var last := 12 * (retire - age0) - 1;
    if last <= 0 then 0 else if m <= last then m else last
  }

  /** With zero growth a balance is the start plus one deposit per saving
      month; the last deposit is paid one month before the retirement age. */
  lemma {:induction false} ZeroGrowthBalance(port0: real, amount: real, age0: int, retire: int, m: nat)
    ensures Balance(port0, 0.0, amount, age0, retire, m)
         == port0 + amount * SavingMonths(age0, retire, m) as real
  {
    if m > 0 {
      ZeroGrowthBalance(port0, amount, age0, retire, m - 1);
      if Contributes(age0, retire, m) {
        assert SavingMonths(age0, retire, m) == SavingMonths(age0, retire, m - 1) + 1;
      } else {
        assert SavingMonths(age0, retire, m) == SavingMonths(age0, retire, m - 1);
      }
    }
  }
}
