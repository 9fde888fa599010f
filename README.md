# Monthly momentum backtest on S&P 500 constituents, in Dafny

This project models the computational core of a stock-picking backtest over S&P 500
constituents and proves properties of it. The pipeline has three stages.

1. **Monthly preprocessing** (`preprocess_prices`, `preprocess_sp500`):
   - daily prices become one row per (month, ticker), holding the month's last observation;
   - prices outside [0.1, 10000] are dropped;
   - past and future monthly returns are computed;
   - returns above +100% or below -50% are blanked, except in 2008-2009;
   - past returns are forward-filled per ticker;
   - incomplete rows are dropped.

   The benchmark series is resampled to months the same way and given a monthly return.
2. **Signal** (`create_signal`):
   - each row gets the mean of its ticker's past returns over the last 12 rows;
   - on every date the 20 rows with the highest mean are selected, or all rows when the date has fewer than 20.
3. **Backtest** (`backtest`):
   - PnL = signal × future return;
   - per-date PnL, and the return per selected row;
   - the benchmark is staked with 20;
   - both series are aligned on their common dates;
   - cumulative PnL, totals and outperformance.

Files, one module each:

| file | module | contents |
|---|---|---|
| `common.dfy` | `Common` | `Option` (pandas NaN is `None`), `Result`, months as `year * 12 + month - 1`, Python's string order, sums that skip missing values |
| `preprocessing.dfy` | `Preprocessing` | the monthly table, returns, the in-place outlier loop (a method over an `array`), forward fill, dropna, the benchmark |
| `create_signal.dfy` | `Signal` | the trailing mean, the `nlargest(20)` rank, `get_top_20_signal` (a method), the per-date grouping (a method) |
| `backtester.dfy` | `Backtester` | per-date PnL and returns, benchmark, date alignment, running sums, the report |
| `pipeline.dfy` | `Pipeline` | the stages composed: no date of a pipeline-built signal table divides by zero |

Modelling choices:

- A table is a sequence of rows in the order of its (date, ticker) index.
- Prices and returns are exact `real`s.
- A raw observation carries a `day` that orders the observations within its month.

The future return is modelled as the code computes it. `scripts/preprocessing.py:36` applies
`.shift(-1)` to the whole past-return column after the per-ticker `pct_change`, not within
each ticker. Row i's future return is therefore row i + 1's past return in the global
(date, ticker) order, which is normally another ticker's return for the same month.
`Preprocessing.FutureReturnOfNextRow` shows where this matches a per-ticker next-month return.
`Preprocessing.FutureReturnCrossesTickers` gives four rows where ticker B's row receives
ticker A's return.

## Model

| member | source | states |
|---|---|---|
| Preprocessing.AbsorbSpec | scripts/preprocessing.py:22-23 | adding one observation keeps the monthly table sorted and keeps every row of other (ticker, month) keys; its key ends up holding the observation with the latest day, the later-read one on equal days |
| Preprocessing.ResampleLastObservation | scripts/preprocessing.py:22-23 | the resampled table is strictly sorted by (month, ticker), so it has one row per key; every row is the last observation of its key; every key that has an observation has a row |
| Preprocessing.FilterPrices | scripts/preprocessing.py:26-27 | a row survives exactly when its price lies in [0.1, 10000], bounds included; order is kept |
| Preprocessing.MonthlyTableSorted | scripts/preprocessing.py:22-30 | the monthly table is sorted by (date, ticker) and every price in it lies in [0.1, 10000] |
| Preprocessing.PastReturnFromPrevious | scripts/preprocessing.py:33 | a row's past return is its price over the previous price of the same ticker, minus one |
| Preprocessing.PastReturnMissing | scripts/preprocessing.py:33 | with non-zero prices, the past return is missing exactly on each ticker's first row |
| Preprocessing.WithFutureReturns | scripts/preprocessing.py:36 | the shift changes only the future-return column: date, ticker, price and past return of every row are kept, and the last row gets no future return |
| Preprocessing.FutureReturnOfNextRow | scripts/preprocessing.py:36 | the future return of row i is the past return of row i + 1, whatever its ticker, and missing on the last row; when row i + 1 has row i's ticker it is row i's own next-month return |
| Preprocessing.FutureReturnCrossesTickers | scripts/preprocessing.py:36 | a concrete sorted table where the global shift gives ticker B's row ticker A's return of 1.0 and leaves the last row's future return missing |
| Preprocessing.SuppressRowSpec | scripts/preprocessing.py:39-61 | crisis rows (2008-01 to 2009-12) and prices are never changed; outside the crisis a return becomes missing exactly when it is above 1 or below -0.5; 1 and -0.5 survive |
| Preprocessing.UniqueTickers | scripts/preprocessing.py:39 | every ticker of the table appears, each once |
| Preprocessing.SuppressOutliers | scripts/preprocessing.py:39-61 | the per-ticker loop, writing into the shared array in place, leaves exactly the row-wise suppression of the old table |
| Preprocessing.ForwardFillNearest | scripts/preprocessing.py:65 | a present past return is kept; a missing one takes the nearest earlier present past return of the same ticker |
| Preprocessing.ForwardFillNothing | scripts/preprocessing.py:65 | after the fill, row i has a past return exactly when some row of its ticker up to row i has one |
| Preprocessing.DropIncomplete | scripts/preprocessing.py:68-71 | a row survives exactly when both returns are present; sortedness is kept |
| Preprocessing.PreprocessPrices | scripts/preprocessing.py:18-71 | the column steps, then the in-place outlier loop on an array, then fill and drop, give the table `PreprocessedPrices` |
| Preprocessing.PreprocessedComplete | scripts/preprocessing.py:68-71 | the output is sorted by (date, ticker), has no missing value, and every price lies in [0.1, 10000] |
| Preprocessing.PreprocessedFutureInBounds | scripts/preprocessing.py:56-68 | future returns are never filled, so every surviving row outside the crisis has a future return in [-0.5, 1] |
| Preprocessing.PreprocessedPriceIsLastObservation | scripts/preprocessing.py:22-23 | every surviving row's price is the last observation of its (ticker, month) |
| Preprocessing.PreprocessedDropsFirstRows | scripts/preprocessing.py:65-71 | each ticker's first monthly row is dropped: every surviving row has an earlier monthly row of its ticker |
| Preprocessing.PreprocessSp500 | scripts/preprocessing.py:88-98 | one benchmark row per row of the monthly resample, with its month and adjusted close; the first month has no monthly return |
| Preprocessing.Sp500MonthsIncreasing | scripts/preprocessing.py:93 | the benchmark has one row per month, in strictly increasing month order |
| Preprocessing.Sp500LastClose | scripts/preprocessing.py:93 | each benchmark month holds the adjusted close of the month's last observation |
| Preprocessing.Sp500CoversMonths | scripts/preprocessing.py:93 | every month with an observation has a benchmark row |
| Preprocessing.Sp500MonthlyReturns | scripts/preprocessing.py:96 | the monthly return is close / previous close - 1, and missing on the first month |
| Signal.MeanPresent | scripts/create_signal.py:15-16 | the trailing mean is missing exactly when the window has no present value (min_periods=1) |
| Signal.Average1yWindow | scripts/create_signal.py:15-16 | on a ticker's j-th row (0-based), the mean is taken over that ticker's rows max(0, j - 11) .. j |
| Signal.Average1y | scripts/create_signal.py:15-16 | a row with a past return always has a trailing mean, since its own value is in its window |
| Signal.MeanWithinBounds | scripts/create_signal.py:15-16 | a mean lies between the least and the greatest value averaged |
| Signal.RankMonotone | scripts/create_signal.py:25 | a row ahead in the nlargest order (higher mean, or the same mean and earlier) has a smaller rank |
| Signal.LargestCount | scripts/create_signal.py:25 | `nlargest(n)` over k rows returns exactly min(n, k) rows |
| Signal.LargestDominates | scripts/create_signal.py:25 | every row `nlargest` returns comes before every row it leaves out |
| Signal.CountAhead | scripts/create_signal.py:25 | counting the rows ahead of row i one comparison at a time yields its rank |
| Signal.SelectGroup | scripts/create_signal.py:19-28 | a date's group keeps its rows and their means, in order, and only gains the signal column; which rows are selected is stated by the lemmas below |
| Signal.GetTop20Signal | scripts/create_signal.py:19-28 | setting every signal below 20 rows, otherwise clearing all signals and setting them on the top rows, gives `SelectGroup` |
| Signal.SelectGroupSmall | scripts/create_signal.py:20-22 | a date with fewer than 20 rows has every row selected |
| Signal.SelectGroupCount | scripts/create_signal.py:20-27 | a date with n rows has exactly min(n, 20) rows selected, so at least one when n > 0 |
| Signal.SelectGroupDominates | scripts/create_signal.py:25-27 | a selected row's mean is at least every unselected row's; on equal means the selected row comes first |
| Signal.SelectByDatePerMonth | scripts/create_signal.py:31 | the grouped table's rows of a date are that date's rows in order, selected on their own |
| Signal.UnsignalInMonth | scripts/create_signal.py:31 | taking a date's rows of the signal table and then dropping the signal gives that date's annotated rows |
| Signal.SignalPerDate | scripts/create_signal.py:15-31 | a date's selection depends only on that date's rows |
| Signal.SignalCountPerDate | scripts/create_signal.py:20-31 | every date of the signal table selects min(n, 20) of its n rows, at least one when it has rows |
| Signal.SignalKeepsRows | scripts/create_signal.py:15-31 | no row is added or removed; only the mean and signal columns are added |
| Signal.CreateSignal | scripts/create_signal.py:15-31 | the loop over dates, each group run through `GetTop20Signal`, builds `SignalTable` |
| Backtester.RowPnl | scripts/backtester.py:15 | a row's PnL is missing exactly when its future return is |
| Backtester.PnlOfSelected | scripts/backtester.py:15-18 | a date's PnL sum is the sum of its selected rows' future returns; unselected rows contribute nothing |
| Backtester.DateReturn | scripts/backtester.py:21-22 | the strategy return of a date exists exactly when the date has a selected row; with none, the PnL sum is 0 and the count is 0, and pandas' 0 / 0 is NaN, the model's missing value |
| Backtester.DateReturnIsMean | scripts/backtester.py:18-22 | the date's signal count is the number of selected rows, and with all their future returns present the date's return is their mean |
| Backtester.BenchmarkReturns | scripts/backtester.py:25 | dropna keeps exactly the benchmark months with a return |
| Backtester.CommonDates | scripts/backtester.py:30 | a month is a common date exactly when it has a strategy row and a non-missing benchmark return |
| Backtester.DropnaFirst | scripts/backtester.py:25-33 | dropping the missing benchmark returns first changes neither the common dates nor the return looked up for a month |
| Backtester.CommonDatesSpec | scripts/backtester.py:30 | the common dates are exactly the months with a strategy row and a benchmark return, each once, in increasing order |
| Backtester.BenchmarkReturnAtSpec | scripts/backtester.py:33 | the benchmark return looked up for a common date is that month's return |
| Backtester.SumScale | scripts/backtester.py:27 | the sum of the 20-times series is 20 times the sum |
| Backtester.RunningSumSpec | scripts/backtester.py:37-38 | element k of a cumulative sum is the sum of the first k + 1 elements |
| Backtester.RunningSumLast | scripts/backtester.py:45-46 | the last cumulative value is the total |
| Backtester.Backtest | scripts/backtester.py:15-46 | the backtest fails (`iloc[-1]` on an empty series) exactly when there is no common date |
| Backtester.BacktestAligned | scripts/backtester.py:30-34 | the strategy return, strategy PnL, benchmark return and benchmark PnL series all have exactly the common dates, with benchmark PnL 20 times the return |
| Backtester.BacktestCumulative | scripts/backtester.py:37-38 | the cumulative series are the date-ordered running sums of the PnL series |
| Backtester.BacktestTotals | scripts/backtester.py:41-46 | total strategy PnL = the sum of per-date PnL; benchmark total PnL = 20 × its total return; outperformance = (strategy − benchmark total return) × 100 |
| Pipeline.SignalRowsFromInput | scripts/create_signal.py:31 | every row of the signal table is a row of its input |
| Pipeline.NoDivisionByZero | scripts/backtester.py:22 | on the pipeline's output every date with rows has at least one selected row; its return exists and is the mean future return of the selected rows |
| Pipeline.DateReturnInBounds | scripts/backtester.py:22 | outside 2008-2009, a date's strategy return lies in [-0.5, 1] |

## Left out

- scripts/main.py is not part of this model. It only orchestrates: file checks, prints, and loading the CSV files through `memory_reducer` (scripts/main.py:11, 35-36), which is not modelled.
- Plotting, the results file and the prints (scripts/backtester.py:48-84, scripts/preprocessing.py:100-124) are I/O.
- `identify_outliers` (scripts/preprocessing.py:126-157) is not modelled. It is a diagnostic that writes a file and does not feed the pipeline.
- Dates are not parsed. A month is an integer and a raw observation carries an ordinal `day` within its month. The crisis test compares month-end dates with 2008-01-01 and 2009-12-31, which selects months 2008-01 to 2009-12.
- Floating point is not modelled: values are exact reals and NaN is `None`.
- Preprocessing.Change: where pandas divides by a zero price and gets an infinite return, the model gives a missing value. The price filter rules out zero prices on the stock path.
- Raw missing prices are not modelled; pandas' `.last()` would skip them.
- Extra columns of the raw frames are not modelled.
- The price forward fill at scripts/preprocessing.py:64 is a no-op, because no price is missing after the filter, so it is not a separate step.
- Empty months that `resample('ME')` inserts are not modelled. For stocks, the price filter drops them. For the benchmark, how `pct_change` treats them depends on the pandas version, so `PreprocessSp500` has one row per month with an observation.
- pandas index mechanics are modelled at row level only: the `reset_index` realignment and the extra index level of `groupby('date').apply`. The signal table holds each date's rows in increasing date order, which is the order `apply` concatenates groups in.
- Labels are not modelled. Rows are assumed to have unique (date, ticker) labels, so `group.loc[top_20_idx]` marks exactly the rows `nlargest` returns.
- Backtester.Backtest: benchmark months are assumed unique, as `preprocess_sp500` produces them (`Sp500MonthsIncreasing`). The lookup takes a month's first return.
- Backtester.CommonDates lists the dates in benchmark order. This is increasing order when the benchmark months are increasing (`CommonDatesSpec`).
- The input frames are mutated in place by adding columns (`date` at scripts/preprocessing.py:18, `average_return_1y` at scripts/create_signal.py:15, `pnl` at scripts/backtester.py:15). The model returns new tables instead, so this aliasing is not captured.
- Forward fill and dropna are functions on the table, not in-place updates; the in-place part modelled as a method on an array is the outlier loop.
