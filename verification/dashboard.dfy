/** The verdict panel of `intrinsic_streamlit.py`: the latest stored close is
    compared with the intrinsic value, giving an absolute difference and a
    two-way verdict. Rendering and the `'.2f'` formatting are not modelled. */
module Dashboard {
  import opened Results
  import opened Dates
  import opened Valuation

  /** One row of the stored price table as the dashboard reads it back:
      ticker_date, open, high, low, close, volume, the last five as the
      table's double-precision numbers. The daily run's `TickerFrame.TickerRow`
      describes the same table on the way in, where every cell is still the
      API's string; the two types differ for that reason only. */
  datatype PriceRow = PriceRow(date: string, open: real, high: real, low: real, close: real, volume: real)

  /** Positional access `row[c]` to the numeric columns 1 to 5 of a row read
      back without column names. */
  function Column(row: PriceRow, c: nat): real
    requires 1 <= c <= 5
  {
    match c
    case 1 => row.open
    case 2 => row.high
    case 3 => row.low
    case 4 => row.close
    case _ => row.volume
  }

  /** `ticker_df.iloc[-1][4]`: column 4 of the last row; an empty table has
      no position -1. */
  function LatestPrice(table: seq<PriceRow>): (r: Result<real>)
    ensures r.Err? <==> |table| == 0
    ensures r.Err? ==> r.error == PositionOutOfBounds
    ensures r.Ok? ==> r.value == table[|table| - 1].close
  {
    if |table| == 0 then Err(PositionOutOfBounds) else Ok(Column(table[|table| - 1], 4))
  }

  /** Dates strictly increasing: `TickerFrame.Ascending` for rows read back. */
  ghost predicate OldestFirst(table: seq<PriceRow>)
  {
    forall i, j :: 0 <= i < j < |table| ==> Before(table[i].date, table[j].date)
  }

  /** On a table in date order, the latest price is the close of
      the row whose date no other row's date exceeds. */
  lemma LatestPriceIsNewestClose(table: seq<PriceRow>)
    requires |table| > 0 && OldestFirst(table)
    ensures var r := LatestPrice(table);
      && r.Ok?
      && r.value == table[|table| - 1].close
      && forall i :: 0 <= i < |table| ==> !Before(table[|table| - 1].date, table[i].date)
  {
    var last := table[|table| - 1].date;
    forall i | 0 <= i < |table|
      ensures !Before(last, table[i].date)
    {
      if i == |table| - 1 {
        BeforeIrreflexive(last);
      } else {
        BeforeAsymmetric(table[i].date, last);
      }
    }
  }

  /** The two messages the panel can show. */
  datatype Verdict = Undervalued | Overvalued

  /** `abs(intrinsic_value - float(latest_price))`. */
  function Amount(intrinsic: real, price: real): (a: real)
    ensures a >= 0.0
    ensures a == intrinsic - price || a == price - intrinsic
  {
    if intrinsic < price then price - intrinsic else intrinsic - price
  }

  /** The comparison on lines 43-46: strictly below the intrinsic value is
      undervalued; equality counts as overvalued. */
  function Ratio(price: real, intrinsic: real): (v: Verdict)
    ensures v == Undervalued <==> price < intrinsic
    ensures v == Overvalued <==> intrinsic <= price
  {
    if price < intrinsic then Undervalued else Overvalued
  }

  /** What a reader of the panel infers from price, verdict and amount. */
  function Recover(price: real, v: Verdict, amount: real): real
  {
    match v
    case Undervalued => price + amount
    case Overvalued => price - amount
  }

  /** Verdict and amount together determine the intrinsic value. */
  lemma VerdictRecoversIntrinsic(price: real, intrinsic: real)
    ensures Recover(price, Ratio(price, intrinsic), Amount(intrinsic, price)) == intrinsic
    ensures Amount(intrinsic, price) == 0.0 <==> price == intrinsic
  {
  }

  /** A price equal to the intrinsic value reads "OVERVALUED by 0". */
  lemma FairPriceReadsOvervalued(value: real)
    ensures Ratio(value, value) == Overvalued && Amount(value, value) == 0.0
  {
  }

  /** Everything the panel shows about one ticker. */
  datatype Assessment = Assessment(price: real, intrinsic: real, verdict: Verdict, amount: real)

  /** The dashboard script from line 31 to line 46, failing where Python
      would raise first: the empty price table, then `1 + discount_rate == 0`,
      then zero shares outstanding. */
  function Assess(table: seq<PriceRow>, inputs: ValuationInputs): (r: Result<Assessment>)
    ensures r.Err? <==>
      |table| == 0 || 1.0 + inputs.discountRate == 0.0 || inputs.sharesOutstanding == 0.0
    ensures r.Err? && |table| == 0 ==> r.error == PositionOutOfBounds
    ensures r.Err? && |table| > 0 ==> r.error == DivisionByZero
    ensures r.Ok? ==> r.value.price == table[|table| - 1].close
    ensures r.Ok? ==> (r.value.verdict == Undervalued <==> r.value.price < r.value.intrinsic)
    ensures r.Ok? ==> Recover(r.value.price, r.value.verdict, r.value.amount) == r.value.intrinsic
    ensures r.Ok? ==> r.value.amount >= 0.0
  {
    var price :- LatestPrice(table);
    var projection :- CalculateProjectedDiscountedCashflow(inputs.operCash, inputs.cashGrowth, inputs.discountRate);
    var intrinsic :- CalculateIntrinsicValue(projection.projected, projection.discounted, inputs.totalDebt,
                                              inputs.cashAndShortTerm, inputs.sharesOutstanding);
    VerdictRecoversIntrinsic(price, intrinsic);
    Ok(Assessment(price, intrinsic, Ratio(price, intrinsic), Amount(intrinsic, price)))
  }

  /** The intrinsic value the panel compares against is the one the valuation
      yields for the same inputs: times the share count it is the total
      present value net of debt and plus cash. */
  lemma AssessUsesValuation(table: seq<PriceRow>, inputs: ValuationInputs)
    requires |table| > 0 && 1.0 + inputs.discountRate != 0.0 && inputs.sharesOutstanding != 0.0
    ensures var r := Assess(table, inputs);
      var p := ProjectedCashflow(inputs.operCash, inputs.cashGrowth);
      && r.Ok?
      && r.value.intrinsic * inputs.sharesOutstanding
         == Sum(p) + Sum(Discounted(p, DiscountFactors(inputs.discountRate)))
            - inputs.totalDebt + inputs.cashAndShortTerm
  {
    var p := ProjectedCashflow(inputs.operCash, inputs.cashGrowth);
    var d := Discounted(p, DiscountFactors(inputs.discountRate));
    var projection := CalculateProjectedDiscountedCashflow(inputs.operCash, inputs.cashGrowth, inputs.discountRate);
    assert projection == Ok(Projection(p, d));
    var intrinsic := CalculateIntrinsicValue(p, d, inputs.totalDebt, inputs.cashAndShortTerm, inputs.sharesOutstanding);
    assert Assess(table, inputs).value.intrinsic == intrinsic.value;
  }
}
