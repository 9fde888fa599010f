/**
 * The three stages together: prices preprocessed, then signalled, then backtested. On a
 * signal table built from preprocessed prices every date with rows selects at least one
 * row, so the per-date return never divides by zero and is the mean future return of the
 * selected rows.
 */
module Pipeline {
  import opened Common
  import opened Preprocessing
  import opened Signal
  import opened Backtester

  /** The signal table `create_signal` builds from the output of `preprocess_prices`. */
  function SignalledPrices(obs: seq<Obs>): seq<SignalRow>
  {
    SignalTable(PreprocessedPrices(obs))
  }

  /** Each selected future return is the future return of a selected row. */
  lemma {:induction false} SelectedFuturesFromRows(rows: seq<SignalRow>)
    ensures forall x :: x in SelectedFutures(rows) ==>
      exists r :: r in rows && r.signal && r.base.future == x
    decreases |rows|
  {
    if rows != [] {
      var init := rows[..|rows| - 1];
      SelectedFuturesFromRows(init);
      forall x | x in SelectedFutures(rows)
        ensures exists r :: r in rows && r.signal && r.base.future == x
      {
        if x in SelectedFutures(init) {
          var r :| r in init && r.signal && r.base.future == x;
          assert r in rows;
        } else {
          assert rows[|rows| - 1] in rows;
        }
      }
    }
  }

  /** Every row of the signal table is a row of its input, with the signal columns added. */
  lemma SignalRowsFromInput(t: seq<Row>)
    ensures forall r :: r in SignalTable(t) ==> r.base in t
  {
    SignalKeepsRows(t);
    forall r | r in SignalTable(t)
      ensures r.base in t
    {
      var k :| 0 <= k < |SignalTable(t)| && SignalTable(t)[k] == r;
      assert Unsignal(SignalTable(t))[k] in multiset(Annotate(t));
      var i :| 0 <= i < |t| && Annotate(t)[i] == Unsignal(SignalTable(t))[k];
    }
  }

  /** The selected rows of a date of the pipeline's signal table are rows of that date. */
  lemma SelectedRowsOfDate(obs: seq<Obs>, m: int)
    ensures forall x :: x in SelectedFutures(SignalsInMonth(SignalledPrices(obs), m)) ==>
      exists r :: r in PreprocessedPrices(obs) && r.month == m && r.future == x
  {
    var rows := SignalsInMonth(SignalledPrices(obs), m);
    SelectedFuturesFromRows(rows);
    SignalRowsFromInput(PreprocessedPrices(obs));
    forall x | x in SelectedFutures(rows)
      ensures exists r :: r in PreprocessedPrices(obs) && r.month == m && r.future == x
    {
      var r :| r in rows && r.signal && r.base.future == x;
      assert r.base in PreprocessedPrices(obs);
    }
  }

  /**
   * On every date that has preprocessed rows at least one row is selected, so the strategy
   * return of that date exists and is the mean future return of its selected rows.
   */
  lemma NoDivisionByZero(obs: seq<Obs>, m: int)
    requires exists r :: r in PreprocessedPrices(obs) && r.month == m
    ensures DateCount(SignalledPrices(obs), m) >= 1
    ensures DateReturn(SignalledPrices(obs), m).Some?
    ensures DateReturn(SignalledPrices(obs), m) ==
      MeanPresent(SelectedFutures(SignalsInMonth(SignalledPrices(obs), m)))
  {
    var t := PreprocessedPrices(obs);
    var s := SignalledPrices(obs);
    var r :| r in t && r.month == m;
    var i :| 0 <= i < |t| && t[i] == r;
    SignalCountPerDate(t, m);
    PreprocessedComplete(obs);
    SelectedRowsOfDate(obs, m);
    DateReturnIsMean(s, m);
  }

  lemma SelectedFuturesInBounds(obs: seq<Obs>, m: int)
    requires !InCrisis(m)
    ensures var fs := SelectedFutures(SignalsInMonth(SignalledPrices(obs), m));
      forall k :: 0 <= k < |fs| && fs[k].Some? ==> OutlierLow <= fs[k].value <= OutlierHigh
  {
    var fs := SelectedFutures(SignalsInMonth(SignalledPrices(obs), m));
    SelectedRowsOfDate(obs, m);
    PreprocessedFutureInBounds(obs);
    forall k | 0 <= k < |fs| && fs[k].Some?
      ensures OutlierLow <= fs[k].value <= OutlierHigh
    {
      assert fs[k] in fs;
    }
  }

  /** A date's return that is the mean of selected future returns in [lo, hi] lies in [lo, hi]. */
  lemma DateReturnWithin(s: seq<SignalRow>, m: int, lo: real, hi: real)
    requires DateReturn(s, m) == MeanPresent(SelectedFutures(SignalsInMonth(s, m)))
    requires var fs := SelectedFutures(SignalsInMonth(s, m));
      forall k :: 0 <= k < |fs| && fs[k].Some? ==> lo <= fs[k].value <= hi
    ensures DateReturn(s, m).Some? ==> lo <= DateReturn(s, m).value <= hi
  {
    MeanWithinBounds(SelectedFutures(SignalsInMonth(s, m)), lo, hi);
  }

  /**
   * Outside the 2008-2009 window a date's strategy return lies in [-0.5, 1], since it is a
   * mean of future returns that lie there.
   */
  lemma DateReturnInBounds(obs: seq<Obs>, m: int)
    requires exists r :: r in PreprocessedPrices(obs) && r.month == m
    requires !InCrisis(m)
    ensures DateReturn(SignalledPrices(obs), m).Some?
    ensures OutlierLow <= DateReturn(SignalledPrices(obs), m).value <= OutlierHigh
  {
    NoDivisionByZero(obs, m);
    SelectedFuturesInBounds(obs, m);
    DateReturnWithin(SignalledPrices(obs), m, OutlierLow, OutlierHigh);
  }
}
