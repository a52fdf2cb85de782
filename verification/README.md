# Intrinsic-value stock dashboard: a Dafny model of its core

The repository values a listed company with a discounted-cash-flow (DCF)
model and keeps a table of daily stock prices up to date. This project
models the pure logic at the centre of both tasks and proves properties
about it:

- **Valuation** (`intrinsic_functions.py`). A 20-year cash-flow projection
  in three growth phases:
  - years 1 to 5 grow at the full growth rate;
  - years 6 to 10 grow at half that rate;
  - years 11 to 20 grow at 4%.

  Each year is paired with a recursively built discount factor. The
  intrinsic value per share is the sum of both series, minus debt, plus
  cash and short-term investments, divided by the shares outstanding.
  Python floats are modelled as exact `real`s.
- **Ticker frame** (`intrinsic_functions.py`). `create_ticker_dataframe`
  turns the market-data API's newest-first series into an oldest-first
  frame. `df_to_update_ticker` keeps the rows after the first row that
  mentions the stored high-water-mark date. The mark is a parameter: the
  SQL query that reads it is not modelled. Every frame cell is a string,
  as the API delivers it, and the mark is matched against all six cells of
  a row, as `isin(...).any(axis=1)` does.
- **Daily run** (`intrinsic_daily_run.py`, lines 33-36). The stored
  table's maximum date serves as the mark, and the update rows are
  appended to the table. `insert_values` sends the rows as one batch; the
  `ticker_date` primary key (`intrinsic_functions.py:218`) makes the batch
  fail and roll back when a row repeats a date. So appending either adds
  every row or leaves the table unchanged. This is enough to state that a
  second run finds nothing new.
- **Dashboard verdict** (`intrinsic_streamlit.py`, lines 31 and 40-46). The
  latest close is compared with the intrinsic value. The result is an
  absolute difference and a verdict, UNDERVALUED or OVERVALUED.

Python exceptions become `Err` values of `Results.Result`:

- `DivisionByZero` when `1 + discount_rate` is zero or no shares are
  outstanding;
- `EmptyArgmax` when `idxmax` runs on an empty frame;
- `PositionOutOfBounds` when `iloc[-1]` runs on an empty price table.

Each operation states exactly when it fails.

Dates are ISO `YYYY-MM-DD` strings. They are ordered lexicographically
(`Dates.Before`), which for that format is the calendar order the
database's `max(ticker_date)` uses.

Three consequences of the code are worth stating plainly:

- Only a zero share count fails. A negative count does not raise; the
  division by `float(shares_outstanding)` (`intrinsic_functions.py:359`)
  flips the sign of the value per share.
- A growth rate of -1 is not an error. Nothing divides by `1 + cash_growth`
  (lines 333-343), so the projection is all zeros.
- A discounted year exceeds its projected year when that year's cash flow
  is negative, even at a positive discount rate. So
  `Valuation.PositiveRateShrinksCashflow` bounds only the non-negative
  years.

## Model

| member | source | states |
|---|---|---|
| Valuation.ProjectedCashflow | intrinsic_functions.py:330-343 | twenty years: year 1 is the operating cash flow times 1+g, years 2-5 each the previous times 1+g, years 6-10 times 1+g/2, years 11-20 times 1.04 |
| Valuation.Compound | intrinsic_functions.py:335-343 | n append rounds keep the earlier entries and make each new entry the previous one times the factor |
| Valuation.DiscountFactors | intrinsic_functions.py:345-349 | twenty factors, the first 1/(1+r), each later one the previous divided by 1+r |
| Valuation.Deflate | intrinsic_functions.py:347-349 | n append rounds keep the earlier entries and make each new entry the previous one divided by 1+r |
| Valuation.Discounted | intrinsic_functions.py:351 | one discounted value per year, equal to that year's projected value times its factor |
| Valuation.CalculateProjectedDiscountedCashflow | intrinsic_functions.py:328-353 | fails with a division by zero exactly when 1+r is zero; otherwise the projected series follows the three-phase schedule and the discounted series is each year times its factor |
| Valuation.ProjectionFollowsSchedule | intrinsic_functions.py:333-343 | the projection satisfies the growth schedule shared by the closed-form lemmas |
| Valuation.DiscountFactorsFollowSchedule | intrinsic_functions.py:345-349 | the factors satisfy the recursive discount schedule |
| Valuation.CalculateIntrinsicValue | intrinsic_functions.py:356-361 | fails exactly when no shares are outstanding; otherwise the value times the share count is sum(projected) + sum(discounted) - debt + cash |
| Valuation.ScheduleClosedForm | intrinsic_functions.py:333-343 | any series following the schedule equals, year by year, the start compounded by (1+g) up to five times, (1+g/2) up to five times and 1.04 for each year past 10 |
| Valuation.DiscountFactorClosedForm | intrinsic_functions.py:345-349 | the recursive factor of year i+1 times (1+r)^(i+1) is 1, that is factor = 1/(1+r)^(i+1) |
| Valuation.SeriesClosedForm | intrinsic_functions.py:333-351 | for any pair of series built by the two schedules, each discounted year compounded over i+1 years gives back its projected year |
| Valuation.ProjectionClosedForm | intrinsic_functions.py:333-351 | the closed forms hold for any projection whose discounted series pairs the schedule's factors with its projected series |
| Valuation.ProjectionIsPresentValue | intrinsic_functions.py:330-351 | for 1+r nonzero the calculation succeeds, every projected year equals its closed form and every discounted year is its present value at rate r |
| Valuation.ProjectedValueStep | intrinsic_functions.py:335-343 | the closed form of each year is that of the previous year times the growth factor of its phase |
| Valuation.ScheduleStep | intrinsic_functions.py:335-343 | a scheduled series grows from each year to the next by that phase's factor |
| Valuation.ScheduleNonNegative | intrinsic_functions.py:333-343 | from a non-negative start with growth of at least -100%, no year of a scheduled series is negative |
| Valuation.ProjectionNonNegative | intrinsic_functions.py:333-343 | a non-negative operating cash flow with growth of at least -100% projects no negative year |
| Valuation.DiscountShrinks | intrinsic_functions.py:351 | at a positive rate the present value of a non-negative amount lies between zero and that amount |
| Valuation.PositiveRateShrinksCashflow | intrinsic_functions.py:345-351 | with a positive discount rate the calculation succeeds and each non-negative projected year discounts to a value between zero and itself |
| Valuation.WorkedExample | intrinsic_functions.py:333-351 | cash flow 100, growth 10%, rate 8%: years 1 and 2 project 110 and 121, and year 1 discounts to 101.85 to two decimals |
| TickerFrame.Reverse | intrinsic_functions.py:131 | same length, and entry i is entry n-1-i of the input |
| TickerFrame.RowsOf | intrinsic_functions.py:130 | one row per API entry in the API's order, its date key in the date column |
| TickerFrame.CreateTickerFrame | intrinsic_functions.py:128-135 | keeps the record count, and frame row i is the row of API entry n-1-i |
| TickerFrame.FrameIsAscending | intrinsic_functions.py:130-131 | a newest-first API series becomes a frame with strictly ascending dates |
| TickerFrame.MatchColumn | intrinsic_functions.py:297 | one flag per row, set exactly when some cell of the row equals the mark |
| TickerFrame.FirstTrue | intrinsic_functions.py:297 | the position of the first true flag, with nothing true before it, or the length when there is none |
| TickerFrame.IdxMax | intrinsic_functions.py:297 | on a non-empty column, the first true position when one exists, otherwise label 0 |
| TickerFrame.DfToUpdateTicker | intrinsic_functions.py:284-298 | fails exactly on an empty frame; otherwise a proper suffix that starts just after the first row mentioning the mark, or every row but the first when no row mentions it |
| TickerFrame.FirstMatchIsMarkRow | intrinsic_functions.py:297-298 | on an ascending frame where only dates can equal the mark, the update is the rows after the row dated with the mark |
| TickerFrame.RowsAfterMark | intrinsic_functions.py:298 | in an ascending frame, a row lies after the mark's row exactly when it is dated after the mark, and those rows stay ascending |
| TickerFrame.UpdateIsStrictlyNewer | intrinsic_functions.py:297-298 | when the mark is one of the frame's dates, the update succeeds, stays ascending, and holds exactly the rows dated after the mark |
| TickerFrame.MarkAtLastRowGivesNothing | intrinsic_functions.py:297-298 | when the mark is the last row's date the update is empty |
| Dates.Later | intrinsic_functions.py:286 | picks one of its two dates, and the other one is not after it |
| DailyRun.MaxDate | intrinsic_functions.py:286-294 | the high-water mark is a date of the stored table and no stored date comes after it |
| DailyRun.Append | intrinsic_functions.py:264-278 | when no update row repeats a stored or an inserted date the stored rows stay in front, followed by exactly the update rows; otherwise the batch is rolled back and the table is unchanged |
| DailyRun.AppendKeepsKeysUnique | intrinsic_functions.py:218 | whatever the update holds, a table with unique dates keeps unique dates after the insert |
| DailyRun.NewerRowsAreFresh | intrinsic_functions.py:264-278 | ascending rows all dated after the stored maximum repeat no date, so their insert is committed |
| DailyRun.DailyUpdate | intrinsic_daily_run.py:33-35 | a run fails exactly when the fetched series is empty |
| DailyRun.FetchedDateInFrame | intrinsic_functions.py:128-135 | a fetched date that no price cell repeats is a date of the frame and only its date cell can match it |
| DailyRun.DailyUpdateIsStrictlyNewer | intrinsic_daily_run.py:33-35 | when the stored mark is among the fetched dates the run succeeds and returns ascending rows all dated after every stored date, none of them a stored date, and every fetched date after the stored maximum is among them |
| DailyRun.MaxDateOfAppend | intrinsic_daily_run.py:33-36 | after appending ascending rows all dated after the old mark, the new mark is the last appended date |
| DailyRun.RerunFindsNothing | intrinsic_daily_run.py:33-36 | once an update ending at the frame's last row is appended, the same frame yields an empty update |
| DailyRun.DailyUpdateIdempotent | intrinsic_daily_run.py:33-36 | when the stored mark is among the fetched dates, the first run succeeds, and a second run over the same series after appending its rows finds nothing |
| Dashboard.LatestPrice | intrinsic_streamlit.py:31 | fails exactly on an empty price table; otherwise it is the close (column 4) of the last row |
| Dashboard.LatestPriceIsNewestClose | intrinsic_streamlit.py:31 | on a table in date order, the latest price is the close of the row that no other row postdates |
| Dashboard.Amount | intrinsic_streamlit.py:40 | the amount is non-negative and equals the intrinsic value minus the price or its negation |
| Dashboard.Ratio | intrinsic_streamlit.py:43-46 | UNDERVALUED exactly when the price is strictly below the intrinsic value; OVERVALUED otherwise, equality included |
| Dashboard.VerdictRecoversIntrinsic | intrinsic_streamlit.py:40-46 | UNDERVALUED means intrinsic = price + amount, OVERVALUED means intrinsic = price - amount, and the amount is zero exactly when the two are equal |
| Dashboard.FairPriceReadsOvervalued | intrinsic_streamlit.py:43-46 | a price equal to the intrinsic value reads OVERVALUED by 0 |
| Dashboard.Assess | intrinsic_streamlit.py:31-46 | fails first on an empty price table, then on a division by zero in the valuation; otherwise the price is the last close, the verdict and amount agree with the comparison, and together they give back the intrinsic value |
| Dashboard.AssessUsesValuation | intrinsic_streamlit.py:34-35 | the value the panel shows, times the share count, is the projected plus discounted total net of debt and plus cash, for the same inputs |

## Left out

- HTTP fetchers and HTML scraping (`intrinsic_functions.py:18-122`). They are network I/O over third-party page structure. Their results (the daily series, the growth and discount rates) are parameters.
- PostgreSQL connections, table creation, SELECT and TRUNCATE, and the INSERT statement itself (`intrinsic_functions.py:147-184`, `200-282`, `303-322`). Of the insert only its all-or-nothing effect on the price table is modelled, by `DailyRun.Append`. The `max(ticker_date)` query inside `df_to_update_ticker` (lines 286-295) is replaced by a mark passed in, or by `DailyRun.MaxDate` over the stored rows.
- The first run on an empty stored table. There `max` is NULL and the mark is `None`. `DailyRun.MaxDate` requires a non-empty table, on the assumption that the first-time script has filled it.
- The order of rows from `SELECT *` (`intrinsic_functions.py:150`). SQL returns them in no promised order. `Dashboard.LatestPrice` takes the rows in the order given, and `Dashboard.LatestPriceIsNewestClose` assumes date order.
- Positional extraction of the valuation inputs in `get_data_for_calculation` (`intrinsic_functions.py:187-194`), and the `float()` parsing of strings. Its outputs are the fields of `Valuation.ValuationInputs`.
- Plotly figures and all Streamlit widgets and layout (`intrinsic_functions.py:367-396`, `intrinsic_streamlit.py:10-38`, `51-85`).
- The `'.2f'` formatting and currency concatenation (`intrinsic_streamlit.py:41`, `48-49`). The verdict is a datatype and the amount stays an exact `real`.
- The financial-statement tables of the daily run (`intrinsic_daily_run.py:15-31`). They are truncated and reloaded from I/O, with no logic to model.
- IEEE double rounding. All arithmetic is exact over `real`, so the model says nothing about rounding error or overflow to infinity.
- Valuation.CalculateIntrinsicValue: states the value through its product with the share count rather than as the quotient. On the success path the share count is nonzero, so the product determines the quotient.
- Valuation.PositiveRateShrinksCashflow: bounds a discounted year by its projected year only when that year's cash flow is non-negative. For a negative year the bound is false.
