/**
 * Model of the arithmetic of `backtest`: the profit and loss (PnL) of the signal table per
 * date, the strategy return per date, the benchmark series staked with 20, the alignment
 * of both on their common dates, the running sums and the totals that are reported.
 */
module Backtester {
  import opened Common
  import opened Preprocessing
  import opened Signal

  /** The benchmark invests 20, as the strategy holds at most 20 positions of 1. */
  const BenchmarkStake: real := 20.0

  // ------------------------------------------------------------------------
  // Per-row and per-date PnL
  // ------------------------------------------------------------------------

  /** `signal * monthly_future_return`: the future return when selected, else 0; NaN stays NaN. */
  function RowPnl(r: SignalRow): (p: Option<real>)
    ensures p.None? <==> r.base.future.None?
  {
    match r.base.future
    case None => None
    case Some(f) => Some(if r.signal then f else 0.0)
  }

  function Pnls(rows: seq<SignalRow>): (ps: seq<Option<real>>)
    ensures |ps| == |rows| && forall k :: 0 <= k < |rows| ==> ps[k] == RowPnl(rows[k])
  {
    seq(|rows|, k requires 0 <= k < |rows| => RowPnl(rows[k]))
  }

  /** The future returns of the selected rows, in table order. */
  function SelectedFutures(rows: seq<SignalRow>): (fs: seq<Option<real>>)
    ensures |fs| == CountSignals(rows)
  {
    if rows == [] then []
    else
      var init := rows[..|rows| - 1];
      var last := rows[|rows| - 1];
      SelectedFutures(init) + (if last.signal then [last.base.future] else [])
  }

  /** `groupby('date')['pnl'].sum()` for one date: missing values are skipped. */
  function DatePnl(s: seq<SignalRow>, m: int): real
  {
    SumPresent(Pnls(SignalsInMonth(s, m)))
  }

  /** `groupby('date')['signal'].sum()` for one date. */
  function DateCount(s: seq<SignalRow>, m: int): nat
  {
    CountSignals(SignalsInMonth(s, m))
  }

  /** PnL divided by the number of selected rows; missing when none is selected. */
  function DateReturn(s: seq<SignalRow>, m: int): (r: Option<real>)
    ensures r.Some? <==> DateCount(s, m) > 0
  {
    if DateCount(s, m) == 0 then None else Some(DatePnl(s, m) / DateCount(s, m) as real)
  }

  lemma SumPresentSnoc(xs: seq<Option<real>>, x: Option<real>)
    ensures SumPresent(xs + [x]) == SumPresent(xs) + (if x.Some? then x.value else 0.0)
    decreases |xs|
  {
    if xs != [] {
      assert (xs + [x])[1..] == xs[1..] + [x];
      SumPresentSnoc(xs[1..], x);
    } else {
      assert xs + [x] == [x];
    }
  }

  /** Unselected rows contribute nothing: the PnL is the sum of the selected future returns. */
  lemma {:induction false} PnlOfSelected(rows: seq<SignalRow>)
    ensures SumPresent(Pnls(rows)) == SumPresent(SelectedFutures(rows))
    decreases |rows|
  {
    if rows != [] {
      var init := rows[..|rows| - 1];
      var last := rows[|rows| - 1];
      PnlOfSelected(init);
      assert Pnls(rows) == Pnls(init) + [RowPnl(last)];
      SumPresentSnoc(Pnls(init), RowPnl(last));
      if last.signal {
        SumPresentSnoc(SelectedFutures(init), last.base.future);
      } else {
        assert SelectedFutures(rows) == SelectedFutures(init);
      }
    }
  }

  /**
   * A date's PnL is the sum of its selected rows' future returns; when every selected row
   * has a future return, the date's return is their mean.
   */
  lemma DateReturnIsMean(s: seq<SignalRow>, m: int)
    ensures DatePnl(s, m) == SumPresent(SelectedFutures(SignalsInMonth(s, m)))
    ensures DateCount(s, m) == |SelectedFutures(SignalsInMonth(s, m))|
    ensures (forall x :: x in SelectedFutures(SignalsInMonth(s, m)) ==> x.Some?) && DateCount(s, m) > 0 ==>
      DateReturn(s, m) == MeanPresent(SelectedFutures(SignalsInMonth(s, m)))
  {
    var fs := SelectedFutures(SignalsInMonth(s, m));
    PnlOfSelected(SignalsInMonth(s, m));
    if forall x :: x in fs ==> x.Some? {
      AllPresentCount(fs);
    }
  }

  lemma {:induction false} AllPresentCount(xs: seq<Option<real>>)
    requires forall x :: x in xs ==> x.Some?
    ensures CountPresent(xs) == |xs|
    decreases |xs|
  {
    if xs != [] {
      assert xs[0] in xs;
      AllPresentCount(xs[1..]);
    }
  }

  // ------------------------------------------------------------------------
  // Benchmark and date alignment
  // ------------------------------------------------------------------------

  /** `sp500_df['monthly_return'].dropna()`. */
  function BenchmarkReturns(bench: seq<BenchRow>): (d: seq<BenchRow>)
    ensures forall x :: x in d <==> x in bench && x.monthlyReturn.Some?
  {
    if bench == [] then []
    else (if bench[0].monthlyReturn.Some? then [bench[0]] else []) + BenchmarkReturns(bench[1..])
  }

  /** The months that have at least one row in the signal table. */
  function StrategyDates(s: seq<SignalRow>): set<int>
  {
    set x | x in s :: x.base.month
  }

  /** `strategy_returns.index.intersection(benchmark_returns.index)`, in benchmark order. */
  function CommonDates(s: seq<SignalRow>, bench: seq<BenchRow>): (c: seq<int>)
    ensures forall m :: m in c <==>
      m in StrategyDates(s) && exists x :: x in bench && x.month == m && x.monthlyReturn.Some?
  {
    if bench == [] then []
    else
      var rest := CommonDates(s, bench[1..]);
      assert bench == [bench[0]] + bench[1..];
      if bench[0].monthlyReturn.Some? && bench[0].month in StrategyDates(s) then [bench[0].month] + rest
      else rest
  }

  /** The benchmark return of month m (the first non-missing one; months are unique). */
  function BenchmarkReturnAt(bench: seq<BenchRow>, m: int): real
  {
    if bench == [] then 0.0
    else if bench[0].month == m && bench[0].monthlyReturn.Some? then bench[0].monthlyReturn.value
    else BenchmarkReturnAt(bench[1..], m)
  }

  /**
   * Taking the benchmark's non-missing returns first (`dropna`) changes neither the common
   * dates nor the return looked up for a month.
   */
  lemma {:induction false} DropnaFirst(s: seq<SignalRow>, bench: seq<BenchRow>, m: int)
    ensures CommonDates(s, BenchmarkReturns(bench)) == CommonDates(s, bench)
    ensures BenchmarkReturnAt(BenchmarkReturns(bench), m) == BenchmarkReturnAt(bench, m)
    decreases |bench|
  {
    if bench != [] {
      DropnaFirst(s, bench[1..], m);
      var rest := BenchmarkReturns(bench[1..]);
      if bench[0].monthlyReturn.Some? {
        assert BenchmarkReturns(bench) == [bench[0]] + rest;
        assert BenchmarkReturns(bench)[1..] == rest;
      } else {
        assert BenchmarkReturns(bench) == rest;
      }
    }
  }

  /** With increasing benchmark months, every later common date follows the first month. */
  lemma CommonDatesAfterHead(s: seq<SignalRow>, bench: seq<BenchRow>)
    requires MonthsIncreasing(bench) && bench != []
    ensures forall m :: m in CommonDates(s, bench[1..]) ==> bench[0].month < m
  {
    forall m | m in CommonDates(s, bench[1..])
      ensures bench[0].month < m
    {
      var x :| x in bench[1..] && x.month == m && x.monthlyReturn.Some?;
      var k :| 0 <= k < |bench[1..]| && bench[1..][k] == x;
      assert bench[k + 1] == x;
    }
  }

  /**
   * The common dates are exactly the months with a strategy row and a non-missing benchmark
   * return, each once, in increasing order.
   */
  lemma {:induction false} CommonDatesSpec(s: seq<SignalRow>, bench: seq<BenchRow>)
    requires MonthsIncreasing(bench)
    ensures forall m :: m in CommonDates(s, bench) <==>
      m in StrategyDates(s) && exists x :: x in bench && x.month == m && x.monthlyReturn.Some?
    ensures forall i, j :: 0 <= i < j < |CommonDates(s, bench)| ==>
      CommonDates(s, bench)[i] < CommonDates(s, bench)[j]
    decreases |bench|
  {
    if bench != [] {
      var rest := CommonDates(s, bench[1..]);
      CommonDatesSpec(s, bench[1..]);
      CommonDatesAfterHead(s, bench);
      var c := CommonDates(s, bench);
      if c != rest {
        forall i, j | 0 <= i < j < |c|
          ensures c[i] < c[j]
        {
          assert c[j] == rest[j - 1] && rest[j - 1] in rest;
          if i > 0 {
            assert c[i] == rest[i - 1];
          }
        }
      }
    }
  }

  /** The benchmark return looked up for a month is that month's non-missing return. */
  lemma {:induction false} BenchmarkReturnAtSpec(bench: seq<BenchRow>, k: nat)
    requires MonthsIncreasing(bench) && k < |bench| && bench[k].monthlyReturn.Some?
    ensures BenchmarkReturnAt(bench, bench[k].month) == bench[k].monthlyReturn.value
    decreases k
  {
    if k > 0 {
      assert bench[0].month < bench[k].month;
      BenchmarkReturnAtSpec(bench[1..], k - 1);
    }
  }

  // ------------------------------------------------------------------------
  // Running sums and totals
  // ------------------------------------------------------------------------

  function RunningSumFrom(acc: real, xs: seq<real>): (r: seq<real>)
    ensures |r| == |xs|
    decreases |xs|
  {
    if xs == [] then [] else [acc + xs[0]] + RunningSumFrom(acc + xs[0], xs[1..])
  }

  /** `cumsum()`. */
  function RunningSum(xs: seq<real>): (r: seq<real>)
    ensures |r| == |xs|
  {
    RunningSumFrom(0.0, xs)
  }

  lemma {:induction false} RunningSumFromSpec(acc: real, xs: seq<real>, k: nat)
    requires k < |xs|
    ensures RunningSumFrom(acc, xs)[k] == acc + Sum(xs[..k + 1])
    decreases k
  {
    if k > 0 {
      RunningSumFromSpec(acc + xs[0], xs[1..], k - 1);
      assert xs[..k + 1][1..] == xs[1..][..k];
    }
  }

  /** Element k of the running sum is the sum of the first k + 1 elements. */
  lemma RunningSumSpec(xs: seq<real>, k: nat)
    requires k < |xs|
    ensures RunningSum(xs)[k] == Sum(xs[..k + 1])
  {
    RunningSumFromSpec(0.0, xs, k);
  }

  /** The last running sum (`iloc[-1]`) is the total. */
  lemma RunningSumLast(xs: seq<real>)
    requires xs != []
    ensures RunningSum(xs)[|xs| - 1] == Sum(xs)
  {
    RunningSumSpec(xs, |xs| - 1);
    assert xs[..|xs|] == xs;
  }

  /** Every element multiplied by c. */
  function Scale(c: real, xs: seq<real>): (r: seq<real>)
    ensures |r| == |xs| && forall k :: 0 <= k < |xs| ==> r[k] == c * xs[k]
  {
    if xs == [] then [] else [c * xs[0]] + Scale(c, xs[1..])
  }

  lemma {:induction false} SumScale(c: real, xs: seq<real>)
    ensures Sum(Scale(c, xs)) == c * Sum(xs)
    decreases |xs|
  {
    if xs != [] {
      SumScale(c, xs[1..]);
    }
  }

  /** The whole running sum: element k is the sum of the first k + 1 elements. */
  lemma RunningSumAll(xs: seq<real>)
    ensures forall k :: 0 <= k < |xs| ==> RunningSum(xs)[k] == Sum(xs[..k + 1])
  {
    forall k | 0 <= k < |xs|
      ensures RunningSum(xs)[k] == Sum(xs[..k + 1])
    {
      RunningSumSpec(xs, k);
    }
  }

  // ------------------------------------------------------------------------
  // backtest
  // ------------------------------------------------------------------------

  /** `iloc[-1]` of an empty cumulative series raises. */
  datatype BacktestError = NoCommonDates

  datatype Report = Report(
    dates: seq<int>,
    strategyReturns: seq<Option<real>>,
    strategyPnl: seq<real>,
    benchmarkReturns: seq<real>,
    benchmarkPnl: seq<real>,
    strategyCumulativePnl: seq<real>,
    benchmarkCumulativePnl: seq<real>,
    strategyTotalReturn: real,
    benchmarkTotalReturn: real,
    strategyTotalPnl: real,
    benchmarkTotalPnl: real,
    outperformance: real)

  /** `strategy_returns.loc[common_dates]`. */
  function StrategyReturnSeries(s: seq<SignalRow>, dates: seq<int>): (r: seq<Option<real>>)
    ensures |r| == |dates| && forall k :: 0 <= k < |dates| ==> r[k] == DateReturn(s, dates[k])
  {
    seq(|dates|, k requires 0 <= k < |dates| => DateReturn(s, dates[k]))
  }

  /** `strategy_pnl_series.loc[common_dates]`. */
  function StrategyPnlSeries(s: seq<SignalRow>, dates: seq<int>): (r: seq<real>)
    ensures |r| == |dates| && forall k :: 0 <= k < |dates| ==> r[k] == DatePnl(s, dates[k])
  {
    seq(|dates|, k requires 0 <= k < |dates| => DatePnl(s, dates[k]))
  }

  /** `benchmark_returns.loc[common_dates]`. */
  function BenchmarkReturnSeries(bench: seq<BenchRow>, dates: seq<int>): (r: seq<real>)
    ensures |r| == |dates| && forall k :: 0 <= k < |dates| ==> r[k] == BenchmarkReturnAt(bench, dates[k])
  {
    seq(|dates|, k requires 0 <= k < |dates| => BenchmarkReturnAt(bench, dates[k]))
  }

  /** The figures `backtest` computes before it writes them out. */
  function Backtest(s: seq<SignalRow>, bench: seq<BenchRow>): (r: Result<Report, BacktestError>)
    ensures r.Failure? <==> CommonDates(s, bench) == []
  {
    var dates := CommonDates(s, bench);
    var strategyReturns := StrategyReturnSeries(s, dates);
    var strategyPnl := StrategyPnlSeries(s, dates);
    var benchmarkReturns := BenchmarkReturnSeries(bench, dates);
    var benchmarkPnl := Scale(BenchmarkStake, benchmarkReturns);
    var strategyCumulative := RunningSum(strategyPnl);
    var benchmarkCumulative := RunningSum(benchmarkPnl);
    var strategyTotal := SumPresent(strategyReturns);
    var benchmarkTotal := Sum(benchmarkReturns);
    if dates == [] then Failure(NoCommonDates)
    else
      Success(Report(dates, strategyReturns, strategyPnl, benchmarkReturns, benchmarkPnl,
        strategyCumulative, benchmarkCumulative, strategyTotal, benchmarkTotal,
        strategyCumulative[|dates| - 1], benchmarkCumulative[|dates| - 1],
        (strategyTotal - benchmarkTotal) * 100.0))
  }

  /**
   * After alignment every series is indexed by exactly the common dates: the strategy return
   * and PnL of each date, its benchmark return and 20 times that return.
   */
  lemma BacktestAligned(s: seq<SignalRow>, bench: seq<BenchRow>)
    requires Backtest(s, bench).Success?
    ensures var p := Backtest(s, bench).value;
      var n := |p.dates|;
      p.dates == CommonDates(s, bench) &&
      |p.strategyReturns| == n && |p.strategyPnl| == n && |p.benchmarkReturns| == n && |p.benchmarkPnl| == n &&
      forall k :: 0 <= k < n ==>
        p.strategyReturns[k] == DateReturn(s, p.dates[k]) &&
        p.strategyPnl[k] == DatePnl(s, p.dates[k]) &&
        p.benchmarkReturns[k] == BenchmarkReturnAt(bench, p.dates[k]) &&
        p.benchmarkPnl[k] == BenchmarkStake * p.benchmarkReturns[k]
  {
  }

  /** The cumulative PnL series are the running sums of the PnL series, date by date. */
  lemma BacktestCumulative(s: seq<SignalRow>, bench: seq<BenchRow>)
    requires Backtest(s, bench).Success?
    ensures var p := Backtest(s, bench).value;
      |p.strategyCumulativePnl| == |p.strategyPnl| && |p.benchmarkCumulativePnl| == |p.benchmarkPnl| &&
      (forall k :: 0 <= k < |p.strategyPnl| ==> p.strategyCumulativePnl[k] == Sum(p.strategyPnl[..k + 1])) &&
      (forall k :: 0 <= k < |p.benchmarkPnl| ==> p.benchmarkCumulativePnl[k] == Sum(p.benchmarkPnl[..k + 1]))
  {
    var p := Backtest(s, bench).value;
    RunningSumAll(p.strategyPnl);
    RunningSumAll(p.benchmarkPnl);
  }

  /**
   * The totals: the total PnL (last cumulative value) is the sum of the per-date PnL, the
   * benchmark's is 20 times its total return, and the outperformance is the difference of
   * the total returns in percent.
   */
  lemma BacktestTotals(s: seq<SignalRow>, bench: seq<BenchRow>)
    requires Backtest(s, bench).Success?
    ensures var p := Backtest(s, bench).value;
      p.strategyTotalReturn == SumPresent(p.strategyReturns) &&
      p.benchmarkTotalReturn == Sum(p.benchmarkReturns) &&
      p.strategyTotalPnl == Sum(p.strategyPnl) &&
      p.benchmarkTotalPnl == BenchmarkStake * p.benchmarkTotalReturn &&
      p.outperformance == (p.strategyTotalReturn - p.benchmarkTotalReturn) * 100.0
  {
    var p := Backtest(s, bench).value;
    RunningSumLast(p.strategyPnl);
    RunningSumLast(p.benchmarkPnl);
    SumScale(BenchmarkStake, p.benchmarkReturns);
  }
}
