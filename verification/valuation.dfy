/** The discounted-cash-flow valuation of `intrinsic_functions.py`: a 20-year
    cash-flow projection in three growth phases, its discounted counterpart,
    and the intrinsic value per share derived from both. Floats are modelled
    as exact reals. */
module Valuation {
  import opened Results

  /** Number of projected years. */
  const Horizon: nat := 20

  /** Growth factor of the terminal phase (years 11 to 20), `1 + 0.04`. */
  const TerminalGrowth: real := 1.04

  /** The scalar inputs of one valuation. */
  datatype ValuationInputs = ValuationInputs(
    operCash: real,          // operating cash flow of the latest quarter
    cashGrowth: real,        // expected growth rate of the cash flow
    discountRate: real,
    totalDebt: real,
    cashAndShortTerm: real,  // cash and short-term investments
    sharesOutstanding: real)

  /** The two series of one valuation, indexed by year - 1. */
  datatype Projection = Projection(projected: seq<real>, discounted: seq<real>)

  /** `x` raised to the power `n`. */
  function Pow(x: real, n: nat): real
  {
    if n == 0 then 1.0 else Pow(x, n - 1) * x
  }

  /** Sum of a series, as Python's `sum`. */
  function Sum(s: seq<real>): real
  {
    if |s| == 0 then 0.0 else s[0] + Sum(s[1..])
  }

  /** Growth factor of the first phase (years 1 to 5). */
  function FullRate(growth: real): real { 1.0 + growth }

  /** Growth factor of the second phase (years 6 to 10): half the growth rate. */
  function HalfRate(growth: real): real { 1.0 + growth / 2.0 }

  /** Entry `i` of `s` is the previous entry times `factor`. */
  predicate GrowsBy(s: seq<real>, i: int, factor: real)
    requires 0 < i < |s|
  {
    s[i] == s[i - 1] * factor
  }

  /** Entry `i` of `s` is the previous entry divided by `1 + rate`. */
  predicate DiscountsBy(s: seq<real>, i: int, rate: real)
    requires 0 < i < |s| && 1.0 + rate != 0.0
  {
    s[i] == s[i - 1] / (1.0 + rate)
  }

  /** The three-phase growth schedule of a projection: year 1 is the
      operating cash flow grown once at the full rate, years 2 to 5 grow at
      the full rate, years 6 to 10 at half the rate, years 11 to 20 at 4%. */
  ghost predicate GrowthSchedule(p: seq<real>, operCash: real, growth: real)
  {
    && |p| == Horizon
    && p[0] == operCash * FullRate(growth)
    && (forall i :: 1 <= i < 5 ==> GrowsBy(p, i, FullRate(growth)))
    && (forall i :: 5 <= i < 10 ==> GrowsBy(p, i, HalfRate(growth)))
    && (forall i :: 10 <= i < Horizon ==> GrowsBy(p, i, TerminalGrowth))
  }

  /** The discount schedule: the factor of year 1 is `1 / (1 + rate)` and each
      later factor is the previous one divided by `1 + rate`. */
  ghost predicate DiscountSchedule(f: seq<real>, rate: real)
    requires 1.0 + rate != 0.0
  {
    && |f| == Horizon
    && f[0] == 1.0 / (1.0 + rate)
    && (forall i :: 1 <= i < Horizon ==> DiscountsBy(f, i, rate))
  }

  /** Runs `n` rounds of `trail.append(trail[-1] * factor)`. */
  function Compound(trail: seq<real>, factor: real, n: nat): (r: seq<real>)
    requires |trail| > 0
    ensures |r| == |trail| + n
    ensures forall i :: 0 <= i < |trail| ==> r[i] == trail[i]
    ensures forall i :: |trail| <= i < |r| ==> GrowsBy(r, i, factor)
    decreases n
  {
    if n == 0 then trail
    else Compound(trail + [trail[|trail| - 1] * factor], factor, n - 1)
  }

  /** Compounding further rounds keeps the growth of the rounds already taken. */
  lemma CompoundKeepsGrowth(trail: seq<real>, factor: real, n: nat, lo: nat, hi: nat, earlier: real)
    requires 0 < lo <= hi <= |trail|
    requires forall i :: lo <= i < hi ==> GrowsBy(trail, i, earlier)
    ensures forall i :: lo <= i < hi ==> GrowsBy(Compound(trail, factor, n), i, earlier)
  {
    var r := Compound(trail, factor, n);
    forall i | lo <= i < hi
      ensures GrowsBy(r, i, earlier)
    {
      assert GrowsBy(trail, i, earlier);
      assert r[i] == trail[i] && r[i - 1] == trail[i - 1];
    }
  }

  /** Runs `n` rounds of `trail.append(trail[-1] / (1 + rate))`. */
  function Deflate(trail: seq<real>, rate: real, n: nat): (r: seq<real>)
    requires |trail| > 0 && 1.0 + rate != 0.0
    ensures |r| == |trail| + n
    ensures forall i :: 0 <= i < |trail| ==> r[i] == trail[i]
    ensures forall i :: |trail| <= i < |r| ==> DiscountsBy(r, i, rate)
    decreases n
  {
    if n == 0 then trail
    else Deflate(trail + [trail[|trail| - 1] / (1.0 + rate)], rate, n - 1)
  }

  /** The projected cash flow of years 1..20: one starting year and four more
      at the full growth rate, five at half the rate, ten at 4%. */
  function ProjectedCashflow(operCash: real, growth: real): (p: seq<real>)
    ensures |p| == Horizon
    ensures p[0] == operCash * FullRate(growth)
    ensures forall i :: 1 <= i < 5 ==> GrowsBy(p, i, FullRate(growth))
    ensures forall i :: 5 <= i < 10 ==> GrowsBy(p, i, HalfRate(growth))
    ensures forall i :: 10 <= i < Horizon ==> GrowsBy(p, i, TerminalGrowth)
  {
    var fullRate := Compound([operCash * FullRate(growth)], FullRate(growth), 4);
    var halfRate := Compound(fullRate, HalfRate(growth), 5);
    CompoundKeepsGrowth(fullRate, HalfRate(growth), 5, 1, 5, FullRate(growth));
    CompoundKeepsGrowth(halfRate, TerminalGrowth, 10, 1, 5, FullRate(growth));
    CompoundKeepsGrowth(halfRate, TerminalGrowth, 10, 5, 10, HalfRate(growth));
    Compound(halfRate, TerminalGrowth, 10)
  }

  /** The discount factors of years 1..20, each the previous one divided by
      `1 + rate`. */
  function DiscountFactors(rate: real): (f: seq<real>)
    requires 1.0 + rate != 0.0
    ensures |f| == Horizon
    ensures f[0] == 1.0 / (1.0 + rate)
    ensures forall i :: 1 <= i < Horizon ==> DiscountsBy(f, i, rate)
  {
    Deflate([1.0 / (1.0 + rate)], rate, Horizon - 1)
  }

  /** Each projected value scaled by the discount factor of its year. */
  function Discounted(projected: seq<real>, factors: seq<real>): (d: seq<real>)
    requires |projected| == |factors|
    ensures |d| == |projected|
    ensures forall i :: 0 <= i < |d| ==> d[i] == projected[i] * factors[i]
  {
    seq(|projected|, i requires 0 <= i < |projected| => projected[i] * factors[i])
  }

  /** `calculate_projected_discounted_cashflow`: fails exactly when the
      discount rate is -1, where the first factor divides by zero. The
      projected series follows the three-phase schedule; the closed forms of
      both series are `ProjectionIsPresentValue`. */
  function CalculateProjectedDiscountedCashflow(operCash: real, growth: real, rate: real): (r: Result<Projection>)
    ensures r.Err? <==> 1.0 + rate == 0.0
    ensures r.Err? ==> r.error == DivisionByZero
    ensures r.Ok? ==> GrowthSchedule(r.value.projected, operCash, growth)
    ensures r.Ok? ==> r.value.discounted == Discounted(r.value.projected, DiscountFactors(rate))
  {
    if 1.0 + rate == 0.0 then Err(DivisionByZero)
    else
      var projected := ProjectedCashflow(operCash, growth);
      ProjectionFollowsSchedule(operCash, growth);
      Ok(Projection(projected, Discounted(projected, DiscountFactors(rate))))
  }

  /** `calculate_intrinsic_value`: the undiscounted plus discounted cash flow,
      less debt, plus cash, per share. Fails exactly when no shares are
      outstanding. */
  function CalculateIntrinsicValue(projected: seq<real>, discounted: seq<real>, totalDebt: real,
                                   cashAndShortTerm: real, sharesOutstanding: real): (r: Result<real>)
    ensures r.Err? <==> sharesOutstanding == 0.0
    ensures r.Err? ==> r.error == DivisionByZero
    ensures r.Ok? ==>
      r.value * sharesOutstanding == Sum(projected) + Sum(discounted) - totalDebt + cashAndShortTerm
  {
    if sharesOutstanding == 0.0 then Err(DivisionByZero)
    else
      var totalPresentValue := Sum(projected) + Sum(discounted);
      Ok((totalPresentValue - totalDebt + cashAndShortTerm) / sharesOutstanding)
  }

  /** The projection follows the three-phase growth schedule. */
  lemma ProjectionFollowsSchedule(operCash: real, growth: real)
    ensures GrowthSchedule(ProjectedCashflow(operCash, growth), operCash, growth)
  {
  }

  /** The discount factors follow the discount schedule. */
  lemma DiscountFactorsFollowSchedule(rate: real)
    requires 1.0 + rate != 0.0
    ensures DiscountSchedule(DiscountFactors(rate), rate)
  {
  }

  // ---------------------------------------------------------------------------
  // Closed forms

  /** The smaller of two integers. */
  function Min(a: int, b: int): int { if a < b then a else b }

  /** The larger of two integers. */
  function Max(a: int, b: int): int { if a < b then b else a }

  /** Independent closed form of the projection for year `i + 1`: the
      starting cash flow compounded by every growth step taken so far. */
  function ProjectedValue(operCash: real, growth: real, i: nat): real
  {
    operCash
    * Pow(FullRate(growth), Min(i + 1, 5))
    * Pow(HalfRate(growth), Max(0, Min(i - 4, 5)))
    * Pow(TerminalGrowth, Max(0, i - 9))
  }

  /** `(1 + rate)^(i + 1)`, the divisor that discounts year `i + 1`. */
  function DiscountPower(rate: real, i: nat): real
  {
    Pow(1.0 + rate, i + 1)
  }

  /** `discounted` is the present value of `projected`, received in year `i + 1`:
      compounding it over `i + 1` years at `rate` gives `projected` back. */
  ghost predicate PresentValueOf(discounted: real, projected: real, rate: real, i: nat)
  {
    discounted * DiscountPower(rate, i) == projected
  }

  /** The growth factor that leads from year `i` to year `i + 1`. */
  function StepFactor(growth: real, i: nat): real
  {
    if i < 5 then FullRate(growth) else if i < 10 then HalfRate(growth) else TerminalGrowth
  }

  /** Each year of the closed form is the previous one times its step factor. */
  lemma ProjectedValueStep(operCash: real, growth: real, i: nat)
    requires 1 <= i < Horizon
    ensures ProjectedValue(operCash, growth, i) == ProjectedValue(operCash, growth, i - 1) * StepFactor(growth, i)
  {
    var a, b, c := Pow(FullRate(growth), Min(i, 5)), Pow(HalfRate(growth), Max(0, Min(i - 5, 5))),
                   Pow(TerminalGrowth, Max(0, i - 10));
    assert ProjectedValue(operCash, growth, i - 1) == operCash * a * b * c;
    if i < 5 {
      assert ProjectedValue(operCash, growth, i) == operCash * (a * FullRate(growth)) * b * c;
    } else if i < 10 {
      assert ProjectedValue(operCash, growth, i) == operCash * a * (b * HalfRate(growth)) * c;
    } else {
      assert ProjectedValue(operCash, growth, i) == operCash * a * b * (c * TerminalGrowth);
    }
  }

  /** A schedule series grows by the step factor of each year. */
  lemma ScheduleStep(p: seq<real>, operCash: real, growth: real, i: nat)
    requires GrowthSchedule(p, operCash, growth) && 1 <= i < Horizon
    ensures p[i] == p[i - 1] * StepFactor(growth, i)
  {
    if i < 5 {
      assert GrowsBy(p, i, FullRate(growth));
    } else if i < 10 {
      assert GrowsBy(p, i, HalfRate(growth));
    } else {
      assert GrowsBy(p, i, TerminalGrowth);
    }
  }

  /** Any series following the growth schedule is the closed form, year by year. */
  lemma {:induction false} ScheduleClosedForm(p: seq<real>, operCash: real, growth: real, i: nat)
    requires GrowthSchedule(p, operCash, growth) && i < Horizon
    ensures p[i] == ProjectedValue(operCash, growth, i)
  {
    if i == 0 {
      assert Pow(FullRate(growth), 1) == Pow(FullRate(growth), 0) * FullRate(growth);
    } else {
      ScheduleClosedForm(p, operCash, growth, i - 1);
      ProjectedValueStep(operCash, growth, i);
      ScheduleStep(p, operCash, growth, i);
    }
  }

  /** The recursive discount factor of year `i + 1` is `1 / (1 + rate)^(i + 1)`. */
  lemma {:induction false} DiscountFactorClosedForm(f: seq<real>, rate: real, i: nat)
    requires 1.0 + rate != 0.0 && DiscountSchedule(f, rate) && i < Horizon
    ensures f[i] * DiscountPower(rate, i) == 1.0
  {
    if i == 0 {
      assert Pow(1.0 + rate, 1) == Pow(1.0 + rate, 0) * (1.0 + rate);
    } else {
      DiscountFactorClosedForm(f, rate, i - 1);
      assert DiscountsBy(f, i, rate);
      assert DiscountPower(rate, i) == DiscountPower(rate, i - 1) * (1.0 + rate);
      calc {
        f[i] * DiscountPower(rate, i);
        (f[i - 1] / (1.0 + rate)) * (DiscountPower(rate, i - 1) * (1.0 + rate));
        f[i - 1] * DiscountPower(rate, i - 1);
      }
    }
  }

  /** Both series of a valuation agree with their closed forms. */
  lemma SeriesClosedForm(p: seq<real>, f: seq<real>, operCash: real, growth: real, rate: real)
    requires 1.0 + rate != 0.0 && GrowthSchedule(p, operCash, growth) && DiscountSchedule(f, rate)
    ensures forall i :: 0 <= i < Horizon ==> p[i] == ProjectedValue(operCash, growth, i)
    ensures forall i :: 0 <= i < Horizon ==> Discounted(p, f)[i] * DiscountPower(rate, i) == p[i]
  {
    var d := Discounted(p, f);
    forall i | 0 <= i < Horizon
      ensures p[i] == ProjectedValue(operCash, growth, i)
      ensures d[i] * DiscountPower(rate, i) == p[i]
    {
      ScheduleClosedForm(p, operCash, growth, i);
      DiscountFactorClosedForm(f, rate, i);
      assert d[i] * DiscountPower(rate, i) == p[i] * (f[i] * DiscountPower(rate, i));
    }
  }

  /** The closed forms, for any pair of series built by the two schedules. */
  lemma ProjectionClosedForm(pr: Projection, f: seq<real>, operCash: real, growth: real, rate: real)
    requires 1.0 + rate != 0.0 && DiscountSchedule(f, rate)
    requires GrowthSchedule(pr.projected, operCash, growth)
    requires pr.discounted == Discounted(pr.projected, f)
    ensures forall i :: 0 <= i < Horizon ==> pr.projected[i] == ProjectedValue(operCash, growth, i)
    ensures forall i :: 0 <= i < Horizon ==> PresentValueOf(pr.discounted[i], pr.projected[i], rate, i)
  {
    SeriesClosedForm(pr.projected, f, operCash, growth, rate);
  }

  /** Every year of both series agrees with its closed form: year `i + 1` is
      the starting cash flow compounded through the schedule, and its
      discounted value times `(1 + rate)^(i + 1)` gives back the projected
      value. */
  lemma ProjectionIsPresentValue(operCash: real, growth: real, rate: real)
    requires 1.0 + rate != 0.0
    ensures var r := CalculateProjectedDiscountedCashflow(operCash, growth, rate);
      && r.Ok?
      && (forall i :: 0 <= i < Horizon ==> r.value.projected[i] == ProjectedValue(operCash, growth, i))
      && (forall i :: 0 <= i < Horizon ==> PresentValueOf(r.value.discounted[i], r.value.projected[i], rate, i))
  {
    var r := CalculateProjectedDiscountedCashflow(operCash, growth, rate);
    DiscountFactorsFollowSchedule(rate);
    ProjectionClosedForm(r.value, DiscountFactors(rate), operCash, growth, rate);
  }

  // ---------------------------------------------------------------------------
  // Signs and magnitudes

  /** A power of a base of at least one is at least one. */
  lemma {:induction false} PowAtLeastOne(x: real, n: nat)
    requires x >= 1.0
    ensures Pow(x, n) >= 1.0
  {
    if n > 0 {
      PowAtLeastOne(x, n - 1);
      assert Pow(x, n) == Pow(x, n - 1) * x;
    }
  }

  /** A schedule series from a non-negative start never turns negative while
      every step factor is non-negative. */
  lemma {:induction false} ScheduleNonNegative(p: seq<real>, operCash: real, growth: real, i: nat)
    requires GrowthSchedule(p, operCash, growth) && i < Horizon
    requires operCash >= 0.0 && growth >= -1.0
    ensures p[i] >= 0.0
  {
    if i > 0 {
      ScheduleNonNegative(p, operCash, growth, i - 1);
      ScheduleStep(p, operCash, growth, i);
      assert StepFactor(growth, i) >= 0.0;
    }
  }

  /** A non-negative cash flow with a growth rate of at least -100% projects
      no negative year. */
  lemma ProjectionNonNegative(operCash: real, growth: real)
    requires operCash >= 0.0 && growth >= -1.0
    ensures forall i :: 0 <= i < Horizon ==> ProjectedCashflow(operCash, growth)[i] >= 0.0
  {
    var p := ProjectedCashflow(operCash, growth);
    ProjectionFollowsSchedule(operCash, growth);
    forall i | 0 <= i < Horizon
      ensures p[i] >= 0.0
    {
      ScheduleNonNegative(p, operCash, growth, i);
    }
  }

  /** At a positive rate a present value lies between zero and the future value. */
  lemma DiscountShrinks(discounted: real, projected: real, rate: real, i: nat)
    requires rate > 0.0 && projected >= 0.0
    requires PresentValueOf(discounted, projected, rate, i)
    ensures 0.0 <= discounted <= projected
  {
    PowAtLeastOne(1.0 + rate, i + 1);
    var q := DiscountPower(rate, i);
    assert discounted * q == projected && q >= 1.0;
  }

  /** With a positive discount rate no discounted year exceeds its projected
      year, as long as that year's cash flow is not negative. */
  lemma PositiveRateShrinksCashflow(operCash: real, growth: real, rate: real)
    requires rate > 0.0
    ensures var r := CalculateProjectedDiscountedCashflow(operCash, growth, rate);
      && r.Ok?
      && forall i :: 0 <= i < Horizon && r.value.projected[i] >= 0.0 ==>
           0.0 <= r.value.discounted[i] <= r.value.projected[i]
  {
    var r := CalculateProjectedDiscountedCashflow(operCash, growth, rate);
    ProjectionIsPresentValue(operCash, growth, rate);
    forall i | 0 <= i < Horizon && r.value.projected[i] >= 0.0
      ensures 0.0 <= r.value.discounted[i] <= r.value.projected[i]
    {
      DiscountShrinks(r.value.discounted[i], r.value.projected[i], rate, i);
    }
  }

  /** Operating cash flow 100, growth 10%, discount rate 8%: year 1 projects
      110 and year 2 121, and year 1 discounts to 101.85 (to two decimals). */
  lemma WorkedExample()
    ensures var r := CalculateProjectedDiscountedCashflow(100.0, 0.10, 0.08);
      && r.Ok?
      && r.value.projected[0] == 110.0
      && r.value.projected[1] == 121.0
      && 101.845 <= r.value.discounted[0] < 101.855
  {
    var r := CalculateProjectedDiscountedCashflow(100.0, 0.10, 0.08);
    ProjectionIsPresentValue(100.0, 0.10, 0.08);
    assert GrowsBy(r.value.projected, 1, FullRate(0.10));
    assert PresentValueOf(r.value.discounted[0], r.value.projected[0], 0.08, 0);
    assert DiscountPower(0.08, 0) == 1.08 by {
      assert Pow(1.08, 1) == Pow(1.08, 0) * 1.08;
    }
  }
}
