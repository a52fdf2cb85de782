/** The update step of `intrinsic_daily_run.py` for one ticker: read the
    stored high-water mark, reconcile the freshly fetched compact series
    against it, and append the new rows to the stored table. */
module DailyRun {
  import opened Results
  import opened Dates
  import opened TickerFrame

  /** `SELECT max(ticker_date)` over a non-empty stored table. */
  function MaxDate(table: seq<TickerRow>): (m: string)
    requires |table| > 0
    ensures exists i :: 0 <= i < |table| && table[i].date == m
    ensures forall i :: 0 <= i < |table| ==> !Before(m, table[i].date)
  {
    if |table| == 1 then
      BeforeIrreflexive(table[0].date);
      table[0].date
    else
      var rest := MaxDate(table[..|table| - 1]);
      var last := table[|table| - 1].date;
      assert forall i :: 0 <= i < |table| - 1 ==> table[..|table| - 1][i] == table[i];
      forall i | 0 <= i < |table| - 1
        ensures !Before(Later(rest, last), table[i].date)
      {
        if Before(Later(rest, last), table[i].date) {
          if Later(rest, last) == last {
            BeforeTransitive(rest, last, table[i].date);
          }
        }
      }
      Later(rest, last)
  }

  /** No two rows of the table share a date: `ticker_date` is the table's
      primary key. */
  predicate UniqueDates(table: seq<TickerRow>)
  {
    forall i, j :: 0 <= i < j < |table| ==> table[i].date != table[j].date
  }

  /** The update brings no date twice and none the table already stores, so
      inserting it violates no primary key. */
  predicate KeysFresh(table: seq<TickerRow>, update: seq<TickerRow>)
  {
    && UniqueDates(update)
    && forall i, j :: 0 <= i < |table| && 0 <= j < |update| ==> table[i].date != update[j].date
  }

  /** `insert_values` on the price table: one batch insert, committed whole,
      or rolled back whole when a row repeats a stored or an inserted date. */
  function Append(table: seq<TickerRow>, update: seq<TickerRow>): (t: seq<TickerRow>)
    ensures KeysFresh(table, update) ==>
      |t| == |table| + |update| && t[..|table|] == table && t[|table|..] == update
    ensures !KeysFresh(table, update) ==> t == table
  {
    if KeysFresh(table, update) then table + update else table
  }

  /** Whatever the update holds, the stored table keeps its primary key. */
  lemma AppendKeepsKeysUnique(table: seq<TickerRow>, update: seq<TickerRow>)
    requires UniqueDates(table)
    ensures UniqueDates(Append(table, update))
  {
  }

  /** Ascending rows all dated after the stored maximum clash with no key. */
  lemma NewerRowsAreFresh(table: seq<TickerRow>, update: seq<TickerRow>)
    requires |table| > 0 && Ascending(update) && AllAfter(MaxDate(table), update)
    ensures KeysFresh(table, update)
  {
    var mark := MaxDate(table);
    forall i, j | 0 <= i < j < |update|
      ensures update[i].date != update[j].date
    {
      if update[i].date == update[j].date {
        BeforeIrreflexive(update[i].date);
      }
    }
    forall i, j | 0 <= i < |table| && 0 <= j < |update|
      ensures table[i].date != update[j].date
    {
      assert !Before(mark, table[i].date);
    }
  }

  /** One daily run: the rows of the fetched series that the store lacks. */
  function DailyUpdate(table: seq<TickerRow>, fetched: ApiSeries): (r: Result<seq<TickerRow>>)
    requires |table| > 0
    ensures r.Err? <==> |fetched| == 0
  {
    DfToUpdateTicker(CreateTickerFrame(fetched), MaxDate(table))
  }

  /** No price or volume cell of the frame equals any of its dates. */
  ghost predicate DatesAreNotPrices(df: seq<TickerRow>)
  {
    forall i, j :: 0 <= i < |df| && 0 <= j < |df| ==> df[j].date !in PriceCells(df[i])
  }

  /** Appending rows all dated after the stored maximum, in ascending order,
      moves the maximum to the last appended date. */
  lemma MaxDateOfAppend(table: seq<TickerRow>, update: seq<TickerRow>)
    requires |table| > 0 && |update| > 0 && Ascending(update)
    requires AllAfter(MaxDate(table), update)
    ensures MaxDate(Append(table, update)) == update[|update| - 1].date
  {
    NewerRowsAreFresh(table, update);
    var t := Append(table, update);
    var last := update[|update| - 1].date;
    var m := MaxDate(t);
    var stored := MaxDate(table);
    assert t[|t| - 1].date == last;
    var i :| 0 <= i < |t| && t[i].date == m;
    if m != last {
      if i < |table| {
        assert t[i] == table[i];
        assert !Before(stored, m);
        BeforeConnected(stored, m);
        if m != stored {
          BeforeTransitive(m, stored, last);
        }
      }
    }
  }

  /** Once a non-empty update ending at the frame's last row is appended, the
      new high-water mark is that row's date, and the frame yields nothing. */
  lemma RerunFindsNothing(table: seq<TickerRow>, df: seq<TickerRow>, update: seq<TickerRow>)
    requires |table| > 0 && Ascending(df) && DatesAreNotPrices(df)
    requires 0 < |update| <= |df| && update[|update| - 1] == df[|df| - 1]
    requires Ascending(update) && AllAfter(MaxDate(table), update)
    ensures DfToUpdateTicker(df, MaxDate(Append(table, update))) == Ok([])
  {
    MaxDateOfAppend(table, update);
    var mark := df[|df| - 1].date;
    assert OnlyDatesMatch(df, mark) by {
      forall r | 0 <= r < |df|
        ensures mark !in PriceCells(df[r])
      {
        assert df[|df| - 1].date !in PriceCells(df[r]);
      }
    }
    MarkAtLastRowGivesNothing(df, mark);
  }

  /** A date of the fetched series that no price cell repeats is a frame
      date that only the date column can match. */
  lemma FetchedDateInFrame(fetched: ApiSeries, mark: string)
    requires DatesAreNotPrices(CreateTickerFrame(fetched))
    requires exists i :: 0 <= i < |fetched| && fetched[i].0 == mark
    ensures OnlyDatesMatch(CreateTickerFrame(fetched), mark)
    ensures exists k :: 0 <= k < |fetched| && CreateTickerFrame(fetched)[k].date == mark
  {
    var df := CreateTickerFrame(fetched);
    var i :| 0 <= i < |fetched| && fetched[i].0 == mark;
    var k := |fetched| - 1 - i;
    assert df[k].date == mark;
    forall r | 0 <= r < |df|
      ensures mark !in PriceCells(df[r])
    {
      assert df[k].date !in PriceCells(df[r]);
    }
  }

  /** When the stored mark is among the fetched dates, a run succeeds and
      returns, in ascending order, only rows dated after everything stored. */
  lemma DailyUpdateIsStrictlyNewer(table: seq<TickerRow>, fetched: ApiSeries)
    requires |table| > 0
    requires NewestFirst(fetched) && DatesAreNotPrices(CreateTickerFrame(fetched))
    requires exists i :: 0 <= i < |fetched| && fetched[i].0 == MaxDate(table)
    ensures var r := DailyUpdate(table, fetched);
      && r.Ok?
      && Ascending(r.value)
      && AllAfter(MaxDate(table), r.value)
      && KeysFresh(table, r.value)
      && forall i :: 0 <= i < |fetched| && Before(MaxDate(table), fetched[i].0) ==>
           exists j :: 0 <= j < |r.value| && r.value[j].date == fetched[i].0
  {
    var df := CreateTickerFrame(fetched);
    var mark := MaxDate(table);
    FrameIsAscending(fetched);
    FetchedDateInFrame(fetched, mark);
    UpdateIsStrictlyNewer(df, mark);
    var update := DailyUpdate(table, fetched).value;
    NewerRowsAreFresh(table, update);
    var start := |df| - |update|;
    assert update == df[start..];
    forall i | 0 <= i < |fetched| && Before(mark, fetched[i].0)
      ensures exists j :: 0 <= j < |update| && update[j].date == fetched[i].0
    {
      var k := |fetched| - 1 - i;
      assert df[k].date == fetched[i].0;
      assert update[k - start] == df[k];
    }
  }

  /** Re-running the daily update after its rows were appended finds
      nothing new, provided the stored maximum date is in the fetched window. */
  lemma DailyUpdateIdempotent(table: seq<TickerRow>, fetched: ApiSeries)
    requires |table| > 0
    requires NewestFirst(fetched) && DatesAreNotPrices(CreateTickerFrame(fetched))
    requires exists i :: 0 <= i < |fetched| && fetched[i].0 == MaxDate(table)
    ensures var first := DailyUpdate(table, fetched);
      && first.Ok?
      && DailyUpdate(Append(table, first.value), fetched) == Ok([])
  {
    var df := CreateTickerFrame(fetched);
    var mark := MaxDate(table);
    FrameIsAscending(fetched);
    DailyUpdateIsStrictlyNewer(table, fetched);
    var update := DfToUpdateTicker(df, mark).value;
    assert update == df[|df| - |update|..];
    if |update| == 0 {
      assert Append(table, update) == table;
    } else {
      assert update[|update| - 1] == df[|df| - 1];
      RerunFindsNothing(table, df, update);
    }
  }
}
