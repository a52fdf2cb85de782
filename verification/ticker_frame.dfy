/** The daily-price frame of `intrinsic_functions.py`: `create_ticker_dataframe`
    turns the market-data API's newest-first series into an oldest-first
    frame, and `df_to_update_ticker` keeps the rows after the first one that
    mentions the stored high-water-mark date. Every cell is a string, as the
    API delivers it. */
module TickerFrame {
  import opened Results
  import opened Dates

  /** One day's quote as the API lists it under its date key. */
  datatype DailyQuote = DailyQuote(open: string, high: string, low: string, close: string, volume: string)

  /** One frame row: columns ticker_date, open, high, low, close, volume. */
  datatype TickerRow = TickerRow(date: string, open: string, high: string, low: string, close: string, volume: string)

  /** The API's daily series: (date, quote) entries, newest first. */
  type ApiSeries = seq<(string, DailyQuote)>

  /** The row of one API entry: its date key becomes the ticker_date column. */
  function ToRow(entry: (string, DailyQuote)): TickerRow
  {
    var (date, q) := entry;
    TickerRow(date, q.open, q.high, q.low, q.close, q.volume)
  }

  /** The cells of a row in column order. */
  function Cells(row: TickerRow): seq<string>
  {
    [row.date, row.open, row.high, row.low, row.close, row.volume]
  }

  /** The cells of a row other than its date. */
  function PriceCells(row: TickerRow): seq<string>
  {
    [row.open, row.high, row.low, row.close, row.volume]
  }

  /** `s` in the opposite order. */
  function Reverse<T>(s: seq<T>): (r: seq<T>)
    ensures |r| == |s|
    ensures forall i :: 0 <= i < |s| ==> r[i] == s[|s| - 1 - i]
  {
    if |s| == 0 then [] else Reverse(s[1..]) + [s[0]]
  }

  /** The frame rows of an API series, in the API's order. */
  function RowsOf(api: ApiSeries): (rows: seq<TickerRow>)
    ensures |rows| == |api|
    ensures forall i :: 0 <= i < |api| ==> rows[i] == ToRow(api[i])
  {
    if |api| == 0 then [] else [ToRow(api[0])] + RowsOf(api[1..])
  }

  /** `create_ticker_dataframe`: one row per API entry, order reversed. */
  function CreateTickerFrame(api: ApiSeries): (df: seq<TickerRow>)
    ensures |df| == |api|
    ensures forall i :: 0 <= i < |df| ==> df[i] == ToRow(api[|api| - 1 - i])
  {
    Reverse(RowsOf(api))
  }

  /** Dates strictly decreasing, as the API lists them. */
  ghost predicate NewestFirst(api: ApiSeries)
  {
    forall i, j :: 0 <= i < j < |api| ==> Before(api[j].0, api[i].0)
  }

  /** Dates strictly increasing, as the store keeps them. */
  ghost predicate Ascending(rows: seq<TickerRow>)
  {
    forall i, j :: 0 <= i < j < |rows| ==> Before(rows[i].date, rows[j].date)
  }

  /** Reversing a newest-first API series yields an ascending frame. */
  lemma FrameIsAscending(api: ApiSeries)
    requires NewestFirst(api)
    ensures Ascending(CreateTickerFrame(api))
  {
    var df := CreateTickerFrame(api);
    forall i, j | 0 <= i < j < |df|
      ensures Before(df[i].date, df[j].date)
    {
      assert df[i].date == api[|api| - 1 - i].0;
      assert df[j].date == api[|api| - 1 - j].0;
    }
  }

  /** `isin([mark]).any(axis=1)` on one row: some cell equals the mark. */
  predicate Matches(row: TickerRow, mark: string)
  {
    mark in Cells(row)
  }

  /** The boolean column `df.isin([mark]).any(axis=1)`. */
  function MatchColumn(df: seq<TickerRow>, mark: string): (flags: seq<bool>)
    ensures |flags| == |df|
    ensures forall i :: 0 <= i < |df| ==> (flags[i] <==> Matches(df[i], mark))
  {
    seq(|df|, i requires 0 <= i < |df| => Matches(df[i], mark))
  }

  /** Position of the first `true`, or `|flags|` when there is none. */
  function FirstTrue(flags: seq<bool>): (k: nat)
    ensures k <= |flags|
    ensures forall j :: 0 <= j < k ==> !flags[j]
    ensures k < |flags| ==> flags[k]
  {
    if |flags| == 0 || flags[0] then 0 else 1 + FirstTrue(flags[1..])
  }

  /** pandas `idxmax` on a boolean column with labels 0..n-1: the first
      `true`, or label 0 when every entry is `false`. */
  function IdxMax(flags: seq<bool>): (k: nat)
    requires |flags| > 0
    ensures k < |flags|
    ensures (exists j :: 0 <= j < |flags| && flags[j]) ==> flags[k] && forall j :: 0 <= j < k ==> !flags[j]
    ensures (forall j :: 0 <= j < |flags| ==> !flags[j]) ==> k == 0
  {
    var k := FirstTrue(flags);
    if k == |flags| then 0 else k
  }

  /** `df_to_update_ticker` with the stored high-water mark passed in: the rows
      after the first row mentioning the mark. When no row mentions it, every
      row but the first; an empty frame fails as `idxmax` does. */
  function DfToUpdateTicker(df: seq<TickerRow>, mark: string): (r: Result<seq<TickerRow>>)
    ensures r.Err? <==> |df| == 0
    ensures r.Err? ==> r.error == EmptyArgmax
    ensures r.Ok? ==> |r.value| < |df| && r.value == df[|df| - |r.value|..]
    ensures r.Ok? && (exists i :: 0 <= i < |df| && Matches(df[i], mark)) ==>
      var k := |df| - |r.value| - 1;
      Matches(df[k], mark) && forall j :: 0 <= j < k ==> !Matches(df[j], mark)
    ensures r.Ok? && (forall i :: 0 <= i < |df| ==> !Matches(df[i], mark)) ==> r.value == df[1..]
  {
    if |df| == 0 then Err(EmptyArgmax)
    else
      var flags := MatchColumn(df, mark);
      var index := IdxMax(flags);
      Ok(df[index + 1..])
  }

  /** No price or volume cell of the frame equals `mark`, so only a date can
      match it. */
  ghost predicate OnlyDatesMatch(df: seq<TickerRow>, mark: string)
  {
    forall i :: 0 <= i < |df| ==> mark !in PriceCells(df[i])
  }

  /** On an ascending frame that holds the mark as a date, the first matching
      row is the row with that date. */
  lemma FirstMatchIsMarkRow(df: seq<TickerRow>, mark: string, k: nat)
    requires Ascending(df) && OnlyDatesMatch(df, mark)
    requires k < |df| && df[k].date == mark
    ensures DfToUpdateTicker(df, mark) == Ok(df[k + 1..])
  {
    assert Matches(df[k], mark);
    forall j | 0 <= j < k
      ensures !Matches(df[j], mark)
    {
      assert Before(df[j].date, mark);
      BeforeIrreflexive(mark);
      assert mark !in PriceCells(df[j]);
    }
  }

  /** Every row of `rows` is dated after `mark`. */
  ghost predicate AllAfter(mark: string, rows: seq<TickerRow>)
  {
    forall j :: 0 <= j < |rows| ==> Before(mark, rows[j].date)
  }

  /** In an ascending frame, the rows after the one dated `mark` are exactly
      the rows dated after `mark`, and they stay ascending. */
  lemma RowsAfterMark(df: seq<TickerRow>, mark: string, k: nat)
    requires Ascending(df) && k < |df| && df[k].date == mark
    ensures forall j :: 0 <= j < |df| ==> (j > k <==> Before(mark, df[j].date))
    ensures Ascending(df[k + 1..])
    ensures AllAfter(mark, df[k + 1..])
  {
    var update := df[k + 1..];
    forall j | 0 <= j < |df|
      ensures j > k <==> Before(mark, df[j].date)
    {
      if j < k {
        BeforeAsymmetric(df[j].date, mark);
      } else if j == k {
        BeforeIrreflexive(mark);
      }
    }
    forall j | 0 <= j < |update|
      ensures Before(mark, update[j].date)
    {
      assert update[j] == df[k + 1 + j];
    }
    forall i, j | 0 <= i < j < |update|
      ensures Before(update[i].date, update[j].date)
    {
      assert update[i] == df[k + 1 + i] && update[j] == df[k + 1 + j];
    }
  }

  /** On an ascending frame that holds the mark as a date, the update is
      exactly the rows dated after the mark, still ascending. */
  lemma UpdateIsStrictlyNewer(df: seq<TickerRow>, mark: string)
    requires Ascending(df) && OnlyDatesMatch(df, mark)
    requires exists i :: 0 <= i < |df| && df[i].date == mark
    ensures var r := DfToUpdateTicker(df, mark);
      && r.Ok?
      && Ascending(r.value)
      && AllAfter(mark, r.value)
      && (forall j :: 0 <= j < |df| ==> (j >= |df| - |r.value| <==> Before(mark, df[j].date)))
  {
    var k :| 0 <= k < |df| && df[k].date == mark;
    FirstMatchIsMarkRow(df, mark, k);
    RowsAfterMark(df, mark, k);
  }

  /** When the mark is the last row's date there is nothing to update. */
  lemma MarkAtLastRowGivesNothing(df: seq<TickerRow>, mark: string)
    requires Ascending(df) && OnlyDatesMatch(df, mark)
    requires |df| > 0 && df[|df| - 1].date == mark
    ensures DfToUpdateTicker(df, mark) == Ok([])
  {
    FirstMatchIsMarkRow(df, mark, |df| - 1);
  }
}
