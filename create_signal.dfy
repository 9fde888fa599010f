/**
 * Model of the signal stage (`create_signal`): a per-ticker trailing mean of past returns
 * over at most 12 rows, and a per-date selection of the 20 rows with the highest mean.
 *
 * `nlargest(20)` with its default `keep='first'` is modelled by a rank: the rows of a date
 * are ordered by mean, highest first, a missing mean lowest, equal means by position; a
 * row is selected when fewer than 20 rows come before it in that order.
 */
module Signal {
  import opened Common
  import opened Preprocessing

  const TopN: nat := 20
  const Window: nat := 12

  /** A preprocessed row with its `average_return_1y` column. */
  datatype Averaged = Averaged(base: Row, average1y: Option<real>)

  /** A row of the signal table: the averaged row and its `signal` column. */
  datatype SignalRow = SignalRow(base: Row, average1y: Option<real>, signal: bool)

  // ------------------------------------------------------------------------
  // The trailing mean: rolling(window=12, min_periods=1).mean() per ticker
  // ------------------------------------------------------------------------

  /** Mean of the values that are present; missing when none is (min_periods=1). */
  function MeanPresent(xs: seq<Option<real>>): (r: Option<real>)
    ensures r.None? <==> CountPresent(xs) == 0
  {
    if CountPresent(xs) == 0 then None else Some(SumPresent(xs) / CountPresent(xs) as real)
  }

  /** The last n elements (all of them when there are fewer). */
  function LastN<T>(xs: seq<T>, n: nat): seq<T>
  {
    if |xs| <= n then xs else xs[|xs| - n..]
  }

  /** `average_return_1y` of row i: the mean over the last 12 rows of its ticker up to row i. */
  function Average1y(t: seq<Row>, i: nat): (r: Option<real>)
    requires i < |t|
    ensures t[i].past.Some? ==> r.Some?
  {
    var p := Pasts(TickerRows(t[..i + 1], t[i].ticker));
    if t[i].past.Some? then
      HistoryAndSelf(t, i);
      CountPresentOfLast(LastN(p, Window));
      MeanPresent(LastN(p, Window))
    else
      MeanPresent(LastN(p, Window))
  }

  function Annotate(t: seq<Row>): (r: seq<Averaged>)
    ensures |r| == |t|
    ensures forall i :: 0 <= i < |t| ==> r[i].base == t[i] && r[i].average1y == Average1y(t, i)
  {
    seq(|t|, i requires 0 <= i < |t| => Averaged(t[i], Average1y(t, i)))
  }

  /** The rows of row i's ticker up to row i are a prefix of the ticker's whole series. */
  lemma TickerSeriesPrefix(t: seq<Row>, i: nat)
    requires i < |t|
    ensures var s := TickerRows(t, t[i].ticker);
      |History(t, i)| < |s| && s[..|History(t, i)| + 1] == TickerRows(t[..i + 1], t[i].ticker) &&
      s[|History(t, i)|] == t[i]
  {
    assert t == t[..i + 1] + t[i + 1..];
    TickerRowsConcat(t[..i + 1], t[i + 1..], t[i].ticker);
    HistoryAndSelf(t, i);
  }

  /** First series position of the window ending at position j: max(0, j - 11). */
  function WindowStart(j: nat): (lo: nat)
    ensures lo <= j && j + 1 - lo == if j < Window then j + 1 else Window
  {
    if j < Window then 0 else j - (Window - 1)
  }

  lemma PastsWindow(s: seq<Row>, j: nat)
    requires j < |s|
    ensures Pasts(s[WindowStart(j)..j + 1]) == LastN(Pasts(s[..j + 1]), Window)
  {
  }

  /**
   * Row i is row j of its ticker's series (0-based, in table order), and its mean is taken
   * over that series' rows max(0, j - 11) .. j.
   */
  lemma Average1yWindow(t: seq<Row>, i: nat, j: nat)
    requires i < |t| && j == |History(t, i)|
    ensures j < |TickerRows(t, t[i].ticker)| && TickerRows(t, t[i].ticker)[j] == t[i]
    ensures Average1y(t, i) == MeanPresent(Pasts(TickerRows(t, t[i].ticker)[WindowStart(j)..j + 1]))
  {
    TickerSeriesPrefix(t, i);
    PastsWindow(TickerRows(t, t[i].ticker), j);
  }

  lemma {:induction false} CountPresentOfLast(xs: seq<Option<real>>)
    requires xs != [] && xs[|xs| - 1].Some?
    ensures CountPresent(xs) >= 1
    decreases |xs|
  {
    if |xs| > 1 {
      CountPresentOfLast(xs[1..]);
    }
  }

  lemma {:induction false} SumPresentBounds(xs: seq<Option<real>>, lo: real, hi: real)
    requires forall k :: 0 <= k < |xs| && xs[k].Some? ==> lo <= xs[k].value <= hi
    ensures lo * CountPresent(xs) as real <= SumPresent(xs) <= hi * CountPresent(xs) as real
    decreases |xs|
  {
    if xs != [] {
      SumPresentBounds(xs[1..], lo, hi);
    }
  }

  lemma QuotientBounds(s: real, c: real, lo: real, hi: real)
    requires c > 0.0 && lo * c <= s <= hi * c
    ensures lo <= s / c <= hi
  {
    var v := s / c;
    assert v * c == s;
  }

  /** The mean lies between the least and the greatest value averaged. */
  lemma MeanWithinBounds(xs: seq<Option<real>>, lo: real, hi: real)
    requires forall k :: 0 <= k < |xs| && xs[k].Some? ==> lo <= xs[k].value <= hi
    ensures MeanPresent(xs).Some? ==> lo <= MeanPresent(xs).value <= hi
  {
    SumPresentBounds(xs, lo, hi);
    if CountPresent(xs) > 0 {
      QuotientBounds(SumPresent(xs), CountPresent(xs) as real, lo, hi);
    }
  }

  // ------------------------------------------------------------------------
  // The nlargest(20) order
  // ------------------------------------------------------------------------

  /** x is a strictly larger mean than y; a missing mean is below every value. */
  predicate Above(x: Option<real>, y: Option<real>)
  {
    x.Some? && (y.None? || x.value > y.value)
  }

  /** Row j comes before row i: a larger mean, or the same mean and an earlier position. */
  predicate Precedes(a: seq<Option<real>>, j: int, i: int)
    requires 0 <= j < |a| && 0 <= i < |a|
  {
    Above(a[j], a[i]) || (a[j] == a[i] && j < i)
  }

  lemma PrecedesStrictTotalOrder(a: seq<Option<real>>, i: nat, j: nat, k: nat)
    requires i < |a| && j < |a| && k < |a|
    ensures !Precedes(a, i, i)
    ensures i != j ==> (Precedes(a, i, j) <==> !Precedes(a, j, i))
    ensures Precedes(a, i, j) && Precedes(a, j, k) ==> Precedes(a, i, k)
  {
  }

  /** The rows that come before row i. */
  function Ahead(a: seq<Option<real>>, i: nat): set<nat>
    requires i < |a|
  {
    set j: nat | j < |a| && Precedes(a, j, i)
  }

  /** Position of row i in the order (0 for the largest mean). */
  function Rank(a: seq<Option<real>>, i: nat): nat
    requires i < |a|
  {
    |Ahead(a, i)|
  }

  /** The rows whose rank is below n: what `nlargest(n)` returns. */
  function Largest(a: seq<Option<real>>, n: nat): set<nat>
  {
    set i: nat | i < |a| && Rank(a, i) < n
  }

  lemma RankBelowSize(a: seq<Option<real>>, i: nat)
    requires i < |a|
    ensures Rank(a, i) < |a|
  {
    PrecedesStrictTotalOrder(a, i, i, i);
    SubsetCard(Ahead(a, i), Range(|a|) - {i});
  }

  /** A row that comes first has a smaller rank. */
  lemma RankMonotone(a: seq<Option<real>>, j: nat, i: nat)
    requires j < |a| && i < |a| && Precedes(a, j, i)
    ensures Rank(a, j) < Rank(a, i)
  {
    forall k | k in Ahead(a, j)
      ensures k in Ahead(a, i)
    {
      PrecedesStrictTotalOrder(a, k, j, i);
    }
    PrecedesStrictTotalOrder(a, j, j, j);
    assert j in Ahead(a, i) - Ahead(a, j);
    SubsetCard(Ahead(a, j), Ahead(a, i));
  }

  /** A non-empty set of rows has a row of least rank. */
  lemma {:induction false} LeastRanked(a: seq<Option<real>>, s: set<nat>) returns (m: nat)
    requires s != {} && forall k :: k in s ==> k < |a|
    ensures m in s && forall k :: k in s ==> Rank(a, m) <= Rank(a, k)
    decreases |s|
  {
    var x :| x in s;
    if s == {x} {
      m := x;
    } else {
      var y := LeastRanked(a, s - {x});
      m := if Rank(a, x) <= Rank(a, y) then x else y;
    }
  }

  /** The rows ahead of the least-ranked row outside Largest(a, t) are exactly Largest(a, t). */
  lemma AheadOfNext(a: seq<Option<real>>, t: nat, m: nat)
    requires m < |a| && m !in Largest(a, t)
    requires forall k :: k in Range(|a|) - Largest(a, t) ==> Rank(a, m) <= Rank(a, k)
    ensures Ahead(a, m) == Largest(a, t)
  {
    var st := Largest(a, t);
    forall k | k in Ahead(a, m)
      ensures k in st
    {
      RankMonotone(a, k, m);
    }
    forall k | k in st
      ensures k in Ahead(a, m)
    {
      PrecedesStrictTotalOrder(a, k, m, m);
      if Precedes(a, m, k) {
        RankMonotone(a, m, k);
      }
    }
  }

  /** Only that row enters when the bound grows by one. */
  lemma LargestNext(a: seq<Option<real>>, t: nat, m: nat)
    requires m < |a| && m !in Largest(a, t) && Ahead(a, m) == Largest(a, t) && |Largest(a, t)| == t
    requires forall k :: k in Range(|a|) - Largest(a, t) ==> Rank(a, m) <= Rank(a, k)
    ensures Largest(a, t + 1) == Largest(a, t) + {m}
  {
    var st := Largest(a, t);
    forall i | i in Largest(a, t + 1)
      ensures i in st + {m}
    {
      if i !in st && i != m {
        assert i !in Ahead(a, m);
        PrecedesStrictTotalOrder(a, i, m, m);
        RankMonotone(a, m, i);
      }
    }
  }

  /** With t rows ranked below t, the next row in the order has rank exactly t. */
  lemma LargestStep(a: seq<Option<real>>, t: nat)
    requires t < |a| && |Largest(a, t)| == t
    ensures |Largest(a, t + 1)| == t + 1
  {
    var st := Largest(a, t);
    var rest := Range(|a|) - st;
    assert Range(|a|) == st + rest;
    var m := LeastRanked(a, rest);
    AheadOfNext(a, t, m);
    LargestNext(a, t, m);
  }

  /** Exactly min(n, |a|) rows are among the n largest. */
  lemma {:induction false} LargestCount(a: seq<Option<real>>, n: nat)
    ensures |Largest(a, n)| == if n < |a| then n else |a|
    decreases n
  {
    if n >= |a| {
      forall i | i in Range(|a|)
        ensures i in Largest(a, n)
      {
        RankBelowSize(a, i);
      }
      assert Largest(a, n) == Range(|a|);
    } else if n == 0 {
      assert Largest(a, n) == {};
    } else {
      LargestCount(a, n - 1);
      LargestStep(a, n - 1);
    }
  }

  /** A selected row comes before every row that is not selected. */
  lemma LargestDominates(a: seq<Option<real>>, n: nat, i: nat, j: nat)
    requires i < |a| && j < |a| && i in Largest(a, n) && j !in Largest(a, n)
    ensures Precedes(a, i, j)
  {
    PrecedesStrictTotalOrder(a, i, j, j);
    if Precedes(a, j, i) {
      RankMonotone(a, j, i);
    }
  }

  // ------------------------------------------------------------------------
  // get_top_20_signal
  // ------------------------------------------------------------------------

  function Averages(g: seq<Averaged>): (a: seq<Option<real>>)
    ensures |a| == |g| && forall i :: 0 <= i < |g| ==> a[i] == g[i].average1y
  {
    seq(|g|, i requires 0 <= i < |g| => g[i].average1y)
  }

  /** The rows of one date with their signal: all of them below 20 rows, else the top 20. */
  function SelectGroup(g: seq<Averaged>): (r: seq<SignalRow>)
    ensures |r| == |g|
    ensures forall i :: 0 <= i < |g| ==> r[i].base == g[i].base && r[i].average1y == g[i].average1y
  {
    seq(|g|, i requires 0 <= i < |g| =>
      SignalRow(g[i].base, g[i].average1y, |g| < TopN || i in Largest(Averages(g), TopN)))
  }

  /** Number of rows with signal = true. */
  function CountSignals(s: seq<SignalRow>): nat
  {
    if s == [] then 0 else CountSignals(s[..|s| - 1]) + (if s[|s| - 1].signal then 1 else 0)
  }

  function Signalled(s: seq<SignalRow>): set<nat>
  {
    set i: nat | i < |s| && s[i].signal
  }

  lemma {:induction false} CountSignalsIsCardinality(s: seq<SignalRow>)
    ensures CountSignals(s) == |Signalled(s)|
    decreases |s|
  {
    if s != [] {
      var p := s[..|s| - 1];
      CountSignalsIsCardinality(p);
      if s[|s| - 1].signal {
        assert Signalled(s) == Signalled(p) + {|s| - 1};
      } else {
        assert Signalled(s) == Signalled(p);
      }
    }
  }

  /** A date with fewer than 20 rows has all of them selected. */
  lemma SelectGroupSmall(g: seq<Averaged>)
    requires |g| < TopN
    ensures forall i :: 0 <= i < |g| ==> SelectGroup(g)[i].signal
  {
  }

  /** A date with n rows has exactly min(n, 20) selected, so at least one when it has rows. */
  lemma SelectGroupCount(g: seq<Averaged>)
    ensures CountSignals(SelectGroup(g)) == if |g| < TopN then |g| else TopN
    ensures |g| > 0 ==> CountSignals(SelectGroup(g)) >= 1
  {
    var r := SelectGroup(g);
    CountSignalsIsCardinality(r);
    if |g| < TopN {
      assert Signalled(r) == Range(|g|);
    } else {
      assert Signalled(r) == Largest(Averages(g), TopN);
      LargestCount(Averages(g), TopN);
    }
  }

  /**
   * Every selected row's mean is at least every unselected row's, and on equal means the
   * selected row comes first in the date's rows.
   */
  lemma SelectGroupDominates(g: seq<Averaged>, i: nat, j: nat)
    requires i < |g| && j < |g| && SelectGroup(g)[i].signal && !SelectGroup(g)[j].signal
    ensures Above(g[i].average1y, g[j].average1y) || (g[i].average1y == g[j].average1y && i < j)
  {
    LargestDominates(Averages(g), TopN, i, j);
  }

  /** Counts the rows ahead of row i, one comparison at a time. */
  method CountAhead(a: seq<Option<real>>, i: nat) returns (c: nat)
    requires i < |a|
    ensures c == Rank(a, i)
  {
    c := 0;
    var j := 0;
    while j < |a|
      invariant 0 <= j <= |a|
      invariant c == |set k: nat | k < j && Precedes(a, k, i)|
    {
      ghost var before := set k: nat | k < j && Precedes(a, k, i);
      if Precedes(a, j, i) {
        assert (set k: nat | k < j + 1 && Precedes(a, k, i)) == before + {j};
        c := c + 1;
      } else {
        assert (set k: nat | k < j + 1 && Precedes(a, k, i)) == before;
      }
      j := j + 1;
    }
    assert (set k: nat | k < j && Precedes(a, k, i)) == Ahead(a, i);
  }

  /**
   * `get_top_20_signal`: below 20 rows every signal is set; otherwise every signal is
   * cleared and then set again on the rows `nlargest(20)` returns.
   */
  method GetTop20Signal(group: seq<Averaged>) returns (out: seq<SignalRow>)
    ensures out == SelectGroup(group)
  {
    var n := |group|;
    var frame := new SignalRow[n](i requires 0 <= i < n =>
      SignalRow(group[i].base, group[i].average1y, n < TopN));
    if n >= TopN {
      var a := Averages(group);
      var i := 0;
      while i < n
        invariant 0 <= i <= n
        invariant forall k :: 0 <= k < n ==>
          frame[k] == SignalRow(group[k].base, group[k].average1y, k < i && k in Largest(a, TopN))
      {
        var rank := CountAhead(a, i);
        if rank < TopN {
          frame[i] := frame[i].(signal := true);
        }
        i := i + 1;
      }
    }
    out := frame[..];
  }

  // ------------------------------------------------------------------------
  // groupby('date').apply(get_top_20_signal)
  // ------------------------------------------------------------------------

  /** The earliest month among the rows. */
  function MinMonth(rows: seq<Averaged>): (m: int)
    requires rows != []
    ensures exists k :: 0 <= k < |rows| && rows[k].base.month == m
    ensures forall k :: 0 <= k < |rows| ==> m <= rows[k].base.month
  {
    if |rows| == 1 then rows[0].base.month
    else
      var rest := MinMonth(rows[1..]);
      if rows[0].base.month <= rest then rows[0].base.month else rest
  }

  /** The rows of one date, in table order. */
  function InMonth(rows: seq<Averaged>, m: int): (r: seq<Averaged>)
    ensures forall x :: x in r <==> x in rows && x.base.month == m
  {
    if rows == [] then []
    else (if rows[0].base.month == m then [rows[0]] else []) + InMonth(rows[1..], m)
  }

  /** The rows of every other date, in table order. */
  function OutsideMonth(rows: seq<Averaged>, m: int): (r: seq<Averaged>)
    ensures forall x :: x in r <==> x in rows && x.base.month != m
    ensures |r| <= |rows|
    ensures (exists k :: 0 <= k < |rows| && rows[k].base.month == m) ==> |r| < |rows|
  {
    if rows == [] then []
    else (if rows[0].base.month != m then [rows[0]] else []) + OutsideMonth(rows[1..], m)
  }

  /** The rows of one date of a signal table, in table order. */
  function SignalsInMonth(s: seq<SignalRow>, m: int): (r: seq<SignalRow>)
    ensures forall x :: x in r <==> x in s && x.base.month == m
  {
    if s == [] then []
    else (if s[0].base.month == m then [s[0]] else []) + SignalsInMonth(s[1..], m)
  }

  /** The groups of the rows in increasing date order, each given its signal. */
  function SelectByDate(rows: seq<Averaged>): seq<SignalRow>
    decreases |rows|
  {
    if rows == [] then []
    else
      var m := MinMonth(rows);
      SelectGroup(InMonth(rows, m)) + SelectByDate(OutsideMonth(rows, m))
  }

  lemma SelectByDateStep(rows: seq<Averaged>)
    requires rows != []
    ensures SelectByDate(rows) ==
      SelectGroup(InMonth(rows, MinMonth(rows))) + SelectByDate(OutsideMonth(rows, MinMonth(rows)))
  {
  }

  lemma AppendAssociative<T>(a: seq<T>, b: seq<T>, c: seq<T>)
    ensures a + (b + c) == (a + b) + c
  {
  }

  /** `create_signal`: the trailing mean, then the per-date selection. */
  function SignalTable(t: seq<Row>): seq<SignalRow>
  {
    SelectByDate(Annotate(t))
  }

  method CreateSignal(prices: seq<Row>) returns (out: seq<SignalRow>)
    ensures out == SignalTable(prices)
  {
    var frame := Annotate(prices);
    var pending := frame;
    out := [];
    while pending != []
      invariant out + SelectByDate(pending) == SelectByDate(frame)
      decreases |pending|
    {
      var m := MinMonth(pending);
      SelectByDateStep(pending);
      var selected := GetTop20Signal(InMonth(pending, m));
      AppendAssociative(out, selected, SelectByDate(OutsideMonth(pending, m)));
      out := out + selected;
      pending := OutsideMonth(pending, m);
    }
  }

  // ------------------------------------------------------------------------
  // Properties of the signal table
  // ------------------------------------------------------------------------

  lemma {:induction false} SignalsInMonthConcat(a: seq<SignalRow>, b: seq<SignalRow>, m: int)
    ensures SignalsInMonth(a + b, m) == SignalsInMonth(a, m) + SignalsInMonth(b, m)
    decreases |a|
  {
    if a != [] {
      assert (a + b)[0] == a[0];
      assert (a + b)[1..] == a[1..] + b;
      SignalsInMonthConcat(a[1..], b, m);
    } else {
      assert a + b == b;
    }
  }

  lemma {:induction false} SignalsInMonthAll(s: seq<SignalRow>, m: int)
    requires forall x :: x in s ==> x.base.month == m
    ensures SignalsInMonth(s, m) == s
    decreases |s|
  {
    if s != [] {
      SignalsInMonthAll(s[1..], m);
    }
  }

  lemma {:induction false} InMonthOutside(rows: seq<Averaged>, m: int, m2: int)
    requires m != m2
    ensures InMonth(OutsideMonth(rows, m2), m) == InMonth(rows, m)
    decreases |rows|
  {
    if rows != [] {
      InMonthOutside(rows[1..], m, m2);
      var out := OutsideMonth(rows, m2);
      if rows[0].base.month == m2 {
        assert out == OutsideMonth(rows[1..], m2);
      } else {
        assert out == [rows[0]] + OutsideMonth(rows[1..], m2);
        assert out[0] == rows[0] && out[1..] == OutsideMonth(rows[1..], m2);
      }
    }
  }

  lemma InMonthNone(rows: seq<Averaged>, m: int)
    requires forall x :: x in rows ==> x.base.month != m
    ensures InMonth(rows, m) == []
  {
    if InMonth(rows, m) != [] {
      assert InMonth(rows, m)[0] in InMonth(rows, m);
    }
  }

  lemma SelectGroupMonth(rows: seq<Averaged>, m0: int)
    ensures forall x :: x in SelectGroup(InMonth(rows, m0)) ==> x.base.month == m0
  {
    var g := SelectGroup(InMonth(rows, m0));
    forall x | x in g
      ensures x.base.month == m0
    {
      var i :| 0 <= i < |g| && g[i] == x;
      assert InMonth(rows, m0)[i] in InMonth(rows, m0);
    }
  }

  lemma SignalsInMonthNone(s: seq<SignalRow>, m: int)
    requires forall x :: x in s ==> x.base.month != m
    ensures SignalsInMonth(s, m) == []
  {
    if SignalsInMonth(s, m) != [] {
      assert SignalsInMonth(s, m)[0] in SignalsInMonth(s, m);
    }
  }

  /** The signal rows of a date are exactly that date's rows, selected on their own. */
  lemma {:induction false} SelectByDatePerMonth(rows: seq<Averaged>, m: int)
    ensures SignalsInMonth(SelectByDate(rows), m) == SelectGroup(InMonth(rows, m))
    decreases |rows|
  {
    if rows == [] {
      assert InMonth(rows, m) == [];
    } else {
      var m0 := MinMonth(rows);
      var g := SelectGroup(InMonth(rows, m0));
      var rest := OutsideMonth(rows, m0);
      assert SelectByDate(rows) == g + SelectByDate(rest);
      SignalsInMonthConcat(g, SelectByDate(rest), m);
      SelectByDatePerMonth(rest, m);
      SelectGroupMonth(rows, m0);
      if m == m0 {
        SignalsInMonthAll(g, m);
        InMonthNone(rest, m);
      } else {
        SignalsInMonthNone(g, m);
        InMonthOutside(rows, m, m0);
      }
    }
  }

  /**
   * Each date of the signal table holds that date's rows, in table order, with the
   * selection of `get_top_20_signal` applied to them alone.
   */
  lemma SignalPerDate(t: seq<Row>, m: int)
    ensures SignalsInMonth(SignalTable(t), m) == SelectGroup(InMonth(Annotate(t), m))
  {
    SelectByDatePerMonth(Annotate(t), m);
  }

  /** Every date of the table selects min(n, 20) of its n rows: at least one when it has rows. */
  lemma SignalCountPerDate(t: seq<Row>, m: int)
    ensures CountSignals(SignalsInMonth(SignalTable(t), m)) ==
      if |InMonth(Annotate(t), m)| < TopN then |InMonth(Annotate(t), m)| else TopN
    ensures (exists i :: 0 <= i < |t| && t[i].month == m) ==>
      CountSignals(SignalsInMonth(SignalTable(t), m)) >= 1
  {
    var rows := Annotate(t);
    SignalPerDate(t, m);
    SelectGroupCount(InMonth(rows, m));
    if exists i :: 0 <= i < |t| && t[i].month == m {
      var i :| 0 <= i < |t| && t[i].month == m;
      InMonthHasRow(rows, i);
    }
  }

  lemma InMonthHasRow(rows: seq<Averaged>, i: nat)
    requires i < |rows|
    ensures |InMonth(rows, rows[i].base.month)| > 0
  {
    assert rows[i] in InMonth(rows, rows[i].base.month);
  }

  /** Drops the signal column again. */
  function Unsignal(s: seq<SignalRow>): (r: seq<Averaged>)
    ensures |r| == |s| && forall i :: 0 <= i < |s| ==> r[i] == Averaged(s[i].base, s[i].average1y)
  {
    seq(|s|, i requires 0 <= i < |s| => Averaged(s[i].base, s[i].average1y))
  }

  /** Selecting a date's rows of the signal table selects the same rows as `InMonth`. */
  lemma {:induction false} UnsignalInMonth(s: seq<SignalRow>, m: int)
    ensures Unsignal(SignalsInMonth(s, m)) == InMonth(Unsignal(s), m)
    decreases |s|
  {
    if s != [] {
      var u := Unsignal(s);
      var rest := SignalsInMonth(s[1..], m);
      UnsignalInMonth(s[1..], m);
      assert u[1..] == Unsignal(s[1..]);
      assert InMonth(u, m) == (if u[0].base.month == m then [u[0]] else []) + InMonth(Unsignal(s[1..]), m);
      if s[0].base.month == m {
        UnsignalConcat([s[0]], rest);
        assert Unsignal([s[0]]) == [u[0]];
      } else {
        assert SignalsInMonth(s, m) == rest;
      }
    }
  }

  lemma {:induction false} MonthSplit(rows: seq<Averaged>, m: int)
    ensures multiset(InMonth(rows, m)) + multiset(OutsideMonth(rows, m)) == multiset(rows)
    decreases |rows|
  {
    if rows != [] {
      MonthSplit(rows[1..], m);
      assert rows == [rows[0]] + rows[1..];
    }
  }

  lemma UnsignalConcat(a: seq<SignalRow>, b: seq<SignalRow>)
    ensures Unsignal(a + b) == Unsignal(a) + Unsignal(b)
  {
  }

  lemma UnsignalSelectGroup(g: seq<Averaged>)
    ensures Unsignal(SelectGroup(g)) == g
  {
  }

  lemma {:induction false} SelectByDateKeepsRows(rows: seq<Averaged>)
    ensures multiset(Unsignal(SelectByDate(rows))) == multiset(rows)
    decreases |rows|
  {
    if rows != [] {
      var m := MinMonth(rows);
      var g := SelectGroup(InMonth(rows, m));
      var rest := SelectByDate(OutsideMonth(rows, m));
      assert SelectByDate(rows) == g + rest;
      SelectByDateKeepsRows(OutsideMonth(rows, m));
      UnsignalConcat(g, rest);
      UnsignalSelectGroup(InMonth(rows, m));
      MonthSplit(rows, m);
    }
  }

  /** No row is added or removed: only the mean and signal columns are added. */
  lemma SignalKeepsRows(t: seq<Row>)
    ensures multiset(Unsignal(SignalTable(t))) == multiset(Annotate(t))
    ensures |SignalTable(t)| == |t|
  {
    SelectByDateKeepsRows(Annotate(t));
    assert |multiset(Unsignal(SignalTable(t)))| == |multiset(Annotate(t))|;
  }
}
