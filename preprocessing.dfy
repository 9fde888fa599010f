/**
 * Monthly preprocessing of the price table and of the benchmark series
 * (`preprocess_prices` and `preprocess_sp500`).
 *
 * A table is a sequence of rows in the order of its (date, ticker) index. Dates are
 * reduced to calendar months (see Common.MonthIndex); a raw observation also carries a
 * `day` that orders the observations of one month (its date and time of day).
 */
module Preprocessing {
  import opened Common

  /** One raw price record. */
  datatype Obs = Obs(ticker: string, month: int, day: int, price: real)

  /** One row of the monthly table: price, past (trailing) and future (forward) return. */
  datatype Row = Row(month: int, ticker: string, price: real, past: Option<real>, future: Option<real>)

  /** One raw benchmark record. */
  datatype BenchObs = BenchObs(month: int, day: int, adjClose: real)

  /** One month of the benchmark series. */
  datatype BenchRow = BenchRow(month: int, adjClose: real, monthlyReturn: Option<real>)

  const MinPrice: real := 0.1
  const MaxPrice: real := 10000.0
  const OutlierHigh: real := 1.0
  const OutlierLow: real := -0.5
  const CrisisStart: int := MonthIndex(2008, 1)
  const CrisisEnd: int := MonthIndex(2009, 12)

  // ------------------------------------------------------------------------
  // The (date, ticker) index order
  // ------------------------------------------------------------------------

  predicate KeyLess(m1: int, t1: string, m2: int, t2: string)
  {
    m1 < m2 || (m1 == m2 && StrLess(t1, t2))
  }

  lemma KeyLessIrreflexive(m: int, t: string)
    ensures !KeyLess(m, t, m, t)
  {
    StrLessIrreflexive(t);
  }

  lemma KeyLessTransitive(m1: int, t1: string, m2: int, t2: string, m3: int, t3: string)
    requires KeyLess(m1, t1, m2, t2) && KeyLess(m2, t2, m3, t3)
    ensures KeyLess(m1, t1, m3, t3)
  {
    if m1 == m2 && m2 == m3 {
      StrLessTransitive(t1, t2, t3);
    }
  }

  lemma KeyLessTotal(m1: int, t1: string, m2: int, t2: string)
    ensures (m1 == m2 && t1 == t2) || KeyLess(m1, t1, m2, t2) || KeyLess(m2, t2, m1, t1)
  {
    StrLessTotal(t1, t2);
  }

  predicate SameKey(a: Obs, b: Obs)
  {
    a.month == b.month && a.ticker == b.ticker
  }

  predicate ObsBefore(a: Obs, b: Obs)
  {
    KeyLess(a.month, a.ticker, b.month, b.ticker)
  }

  /** Strictly increasing (date, ticker) keys: one observation per key. */
  predicate SortedObs(t: seq<Obs>)
  {
    forall i, j :: 0 <= i < j < |t| ==> ObsBefore(t[i], t[j])
  }

  /** Strictly increasing (date, ticker) index, as after `sort_index()`. */
  predicate SortedRows(t: seq<Row>)
  {
    forall i, j :: 0 <= i < j < |t| ==> KeyLess(t[i].month, t[i].ticker, t[j].month, t[j].ticker)
  }

  /** Two tables with the same index, row for row. */
  predicate SameIndex(a: seq<Row>, b: seq<Row>)
  {
    |a| == |b| && forall i :: 0 <= i < |a| ==> a[i].month == b[i].month && a[i].ticker == b[i].ticker
  }

  // ------------------------------------------------------------------------
  // Monthly resample: the last observation of each (ticker, month)
  // ------------------------------------------------------------------------

  /**
   * Adds one observation to a table that holds, per key, the latest observation so far.
   * On an equal `day` the observation read later wins, as pandas sorts the dates with a
   * stable sort before taking `.last()`.
   */
  function Absorb(t: seq<Obs>, o: Obs): seq<Obs>
  {
    if t == [] then [o]
    else if SameKey(t[0], o) then [if o.day >= t[0].day then o else t[0]] + t[1..]
    else if ObsBefore(o, t[0]) then [o] + t
    else [t[0]] + Absorb(t[1..], o)
  }

  lemma {:induction false} AbsorbFrom(t: seq<Obs>, o: Obs)
    ensures forall x :: x in Absorb(t, o) ==> x in t || x == o
  {
    if t != [] && !SameKey(t[0], o) && !ObsBefore(o, t[0]) {
      AbsorbFrom(t[1..], o);
    }
  }

  /** In a sorted table, a row with the key of the first row can only be the first row. */
  lemma SortedHeadKey(t: seq<Obs>, j: nat)
    requires SortedObs(t) && 0 < j < |t|
    ensures !SameKey(t[0], t[j])
  {
    assert ObsBefore(t[0], t[j]);
    KeyLessIrreflexive(t[j].month, t[j].ticker);
  }

  lemma AbsorbSortedReplace(t: seq<Obs>, o: Obs)
    requires SortedObs(t) && t != [] && SameKey(t[0], o)
    ensures SortedObs(Absorb(t, o))
  {
    var w := if o.day >= t[0].day then o else t[0];
    var r := [w] + t[1..];
    assert Absorb(t, o) == r;
    forall i, j | 0 <= i < j < |r|
      ensures ObsBefore(r[i], r[j])
    {
      assert r[j] == t[j] && ObsBefore(t[0], t[j]);
      if i > 0 { assert r[i] == t[i]; }
    }
  }

  lemma AbsorbSortedFront(t: seq<Obs>, o: Obs)
    requires SortedObs(t) && t != [] && ObsBefore(o, t[0])
    ensures SortedObs(Absorb(t, o))
    ensures forall x :: x in t ==> !SameKey(x, o)
  {
    var r := [o] + t;
    KeyLessIrreflexive(o.month, o.ticker);
    assert Absorb(t, o) == r;
    forall j | 0 <= j < |t|
      ensures ObsBefore(o, t[j]) && !SameKey(t[j], o)
    {
      if j > 0 {
        KeyLessTransitive(o.month, o.ticker, t[0].month, t[0].ticker, t[j].month, t[j].ticker);
      }
      KeyLessIrreflexive(o.month, o.ticker);
    }
    forall i, j | 0 <= i < j < |r|
      ensures ObsBefore(r[i], r[j])
    {
      if i > 0 { assert r[i] == t[i - 1] && r[j] == t[j - 1]; }
    }
  }

  lemma {:induction false} AbsorbSorted(t: seq<Obs>, o: Obs)
    requires SortedObs(t)
    ensures SortedObs(Absorb(t, o))
  {
    if t == [] {
    } else if SameKey(t[0], o) {
      AbsorbSortedReplace(t, o);
    } else if ObsBefore(o, t[0]) {
      AbsorbSortedFront(t, o);
    } else {
      KeyLessTotal(o.month, o.ticker, t[0].month, t[0].ticker);
      var rest := t[1..];
      AbsorbSorted(rest, o);
      AbsorbFrom(rest, o);
      var a := Absorb(rest, o);
      var r := [t[0]] + a;
      assert Absorb(t, o) == r;
      forall i, j | 0 <= i < j < |r|
        ensures ObsBefore(r[i], r[j])
      {
        assert r[j] == a[j - 1] && r[j] in a;
        if i > 0 {
          assert r[i] == a[i - 1];
        } else if r[j] != o {
          var k :| 0 <= k < |rest| && rest[k] == r[j];
          assert t[k + 1] == r[j];
        }
      }
    }
  }

  /** No observation of o's key in t has a later day than o. */
  predicate NoLaterDay(t: seq<Obs>, o: Obs)
  {
    forall y :: y in t && SameKey(y, o) ==> y.day <= o.day
  }

  /**
   * Where a row of Absorb(t, o) comes from: a row of another key, o itself when nothing of
   * its key in t is later, or the row of o's key in t when it is later than o.
   */
  predicate AbsorbedRow(t: seq<Obs>, o: Obs, x: Obs)
  {
    (x in t && !SameKey(x, o)) ||
    (x == o && NoLaterDay(t, o)) ||
    (x in t && SameKey(x, o) && o.day < x.day)
  }

  lemma AbsorbMembersReplace(t: seq<Obs>, o: Obs)
    requires SortedObs(t) && t != [] && SameKey(t[0], o)
    ensures forall x :: x in t && !SameKey(x, o) ==> x in Absorb(t, o)
    ensures forall x :: x in Absorb(t, o) ==> AbsorbedRow(t, o, x)
    ensures exists x :: x in Absorb(t, o) && SameKey(x, o)
  {
    var w := if o.day >= t[0].day then o else t[0];
    var r := [w] + t[1..];
    assert Absorb(t, o) == r;
    forall j | 1 <= j < |t|
      ensures !SameKey(t[j], o)
    {
      SortedHeadKey(t, j);
    }
    forall y | y in t && SameKey(y, o)
      ensures y == t[0]
    {
      var j :| 0 <= j < |t| && t[j] == y;
    }
    assert r[0] == w && SameKey(w, o);
  }

  lemma AbsorbMembersFront(t: seq<Obs>, o: Obs)
    requires SortedObs(t) && (t == [] || ObsBefore(o, t[0]))
    ensures forall x :: x in t && !SameKey(x, o) ==> x in Absorb(t, o)
    ensures forall x :: x in Absorb(t, o) ==> AbsorbedRow(t, o, x)
    ensures exists x :: x in Absorb(t, o) && SameKey(x, o)
  {
    if t != [] {
      AbsorbSortedFront(t, o);
    }
    assert Absorb(t, o) == [o] + t;
    assert Absorb(t, o)[0] == o && SameKey(o, o);
  }

  lemma AbsorbMembersSkip(t: seq<Obs>, o: Obs)
    requires t != [] && !SameKey(t[0], o)
    requires forall x :: x in t[1..] && !SameKey(x, o) ==> x in Absorb(t[1..], o)
    requires forall x :: x in Absorb(t[1..], o) ==> AbsorbedRow(t[1..], o, x)
    requires exists x :: x in Absorb(t[1..], o) && SameKey(x, o)
    requires !ObsBefore(o, t[0])
    ensures forall x :: x in t && !SameKey(x, o) ==> x in Absorb(t, o)
    ensures forall x :: x in Absorb(t, o) ==> AbsorbedRow(t, o, x)
    ensures exists x :: x in Absorb(t, o) && SameKey(x, o)
  {
    var rest := t[1..];
    var a := Absorb(rest, o);
    var r := [t[0]] + a;
    assert Absorb(t, o) == r;
    forall x | x in t && !SameKey(x, o)
      ensures x in r
    {
      if x != t[0] {
        assert x in rest;
      }
    }
    var w :| w in a && SameKey(w, o);
    assert w in r;
    assert NoLaterDay(rest, o) ==> NoLaterDay(t, o);
    forall x | x in r
      ensures AbsorbedRow(t, o, x)
    {
      if x != t[0] {
        assert x in a;
        assert AbsorbedRow(rest, o, x);
      }
    }
  }

  lemma {:induction false} AbsorbSpec(t: seq<Obs>, o: Obs)
    requires SortedObs(t)
    ensures SortedObs(Absorb(t, o))
    ensures forall x :: x in t && !SameKey(x, o) ==> x in Absorb(t, o)
    ensures forall x :: x in Absorb(t, o) ==> AbsorbedRow(t, o, x)
    ensures exists x :: x in Absorb(t, o) && SameKey(x, o)
  {
    AbsorbSorted(t, o);
    if t == [] || (!SameKey(t[0], o) && ObsBefore(o, t[0])) {
      AbsorbMembersFront(t, o);
    } else if SameKey(t[0], o) {
      AbsorbMembersReplace(t, o);
    } else {
      AbsorbSpec(t[1..], o);
      AbsorbMembersSkip(t, o);
    }
  }

  /** `groupby('ticker').resample('ME').last()` followed by `sort_index()`. */
  function Resample(obs: seq<Obs>): seq<Obs>
  {
    if obs == [] then [] else Absorb(Resample(obs[..|obs| - 1]), obs[|obs| - 1])
  }

  /** obs[k] is the last observation of its (ticker, month): latest day, then latest read. */
  predicate IsLatest(obs: seq<Obs>, k: int)
    requires 0 <= k < |obs|
  {
    forall j :: 0 <= j < |obs| && SameKey(obs[j], obs[k]) ==>
      obs[j].day < obs[k].day || (obs[j].day == obs[k].day && j <= k)
  }

  /** Every row of t is the last observation of its (ticker, month) in obs. */
  ghost predicate LatestRows(obs: seq<Obs>, t: seq<Obs>)
  {
    forall x :: x in t ==> exists k :: 0 <= k < |obs| && obs[k] == x && IsLatest(obs, k)
  }

  /** Some row of t has the (ticker, month) of o. */
  predicate HasKey(t: seq<Obs>, o: Obs)
  {
    exists x :: x in t && SameKey(x, o)
  }

  /** Every (ticker, month) of obs has a row in t. */
  ghost predicate CoversKeys(obs: seq<Obs>, t: seq<Obs>)
  {
    forall j {:trigger HasKey(t, obs[j])} :: 0 <= j < |obs| ==> HasKey(t, obs[j])
  }

  /** The new observation wins its key: it is the latest of its key in prefix + [o]. */
  lemma LatestNewObservation(prefix: seq<Obs>, t: seq<Obs>, o: Obs)
    requires LatestRows(prefix, t) && CoversKeys(prefix, t)
    requires NoLaterDay(t, o)
    ensures IsLatest(prefix + [o], |prefix|)
  {
    var obs := prefix + [o];
    var k := |prefix|;
    forall j | 0 <= j < |obs| && SameKey(obs[j], obs[k])
      ensures obs[j].day <= obs[k].day
    {
      if j < k {
        assert prefix[j] == obs[j] && HasKey(t, prefix[j]);
        var y :| y in t && SameKey(y, prefix[j]);
        var ky :| 0 <= ky < |prefix| && prefix[ky] == y && IsLatest(prefix, ky);
        assert SameKey(prefix[j], prefix[ky]);
      }
    }
  }

  /** A kept row stays the latest of its key when o does not beat it. */
  lemma LatestOldObservation(prefix: seq<Obs>, o: Obs, k: nat)
    requires k < |prefix| && IsLatest(prefix, k)
    requires SameKey(prefix[k], o) ==> o.day < prefix[k].day
    ensures IsLatest(prefix + [o], k)
  {
    var obs := prefix + [o];
    forall j | 0 <= j < |obs| && SameKey(obs[j], obs[k])
      ensures obs[j].day < obs[k].day || (obs[j].day == obs[k].day && j <= k)
    {
      if j < |prefix| {
        assert prefix[j] == obs[j];
      }
    }
  }

  lemma ResampleStepLatest(prefix: seq<Obs>, t: seq<Obs>, o: Obs)
    requires SortedObs(t) && LatestRows(prefix, t) && CoversKeys(prefix, t)
    ensures LatestRows(prefix + [o], Absorb(t, o))
  {
    var obs := prefix + [o];
    AbsorbSpec(t, o);
    forall x | x in Absorb(t, o)
      ensures exists k :: 0 <= k < |obs| && obs[k] == x && IsLatest(obs, k)
    {
      assert AbsorbedRow(t, o, x);
      if x == o && NoLaterDay(t, o) {
        LatestNewObservation(prefix, t, o);
        assert obs[|prefix|] == x;
      } else {
        assert x in t;
        var k :| 0 <= k < |prefix| && prefix[k] == x && IsLatest(prefix, k);
        LatestOldObservation(prefix, o, k);
        assert obs[k] == x;
      }
    }
  }

  lemma ResampleStepCovers(prefix: seq<Obs>, t: seq<Obs>, o: Obs)
    requires SortedObs(t) && CoversKeys(prefix, t)
    ensures CoversKeys(prefix + [o], Absorb(t, o))
  {
    var obs := prefix + [o];
    var r := Absorb(t, o);
    AbsorbSpec(t, o);
    forall j | 0 <= j < |obs|
      ensures HasKey(r, obs[j])
    {
      if j < |obs| - 1 {
        assert prefix[j] == obs[j] && HasKey(t, prefix[j]);
        var y :| y in t && SameKey(y, prefix[j]);
        if !SameKey(y, o) {
          assert y in r;
        }
      }
    }
  }

  /**
   * Each (ticker, month) that has an observation gets exactly one monthly row, and that
   * row is the month's last observation.
   */
  lemma {:induction false} ResampleLastObservation(obs: seq<Obs>)
    ensures SortedObs(Resample(obs))
    ensures LatestRows(obs, Resample(obs))
    ensures CoversKeys(obs, Resample(obs))
  {
    if obs != [] {
      var prefix := obs[..|obs| - 1];
      var o := obs[|obs| - 1];
      ResampleLastObservation(prefix);
      AbsorbSorted(Resample(prefix), o);
      ResampleStepLatest(prefix, Resample(prefix), o);
      ResampleStepCovers(prefix, Resample(prefix), o);
      assert prefix + [o] == obs;
    }
  }

  // ------------------------------------------------------------------------
  // Price filter and the monthly table
  // ------------------------------------------------------------------------

  predicate PriceInRange(p: real)
  {
    MinPrice <= p <= MaxPrice
  }

  /** `prices_monthly[(price >= 0.1) & (price <= 10000)]`. */
  function FilterPrices(t: seq<Obs>): (r: seq<Obs>)
    ensures forall x :: x in r <==> x in t && PriceInRange(x.price)
    ensures SortedObs(t) ==> SortedObs(r)
  {
    if t == [] then []
    else
      var rest := FilterPrices(t[1..]);
      assert SortedObs(t) ==> SortedObs(t[1..]);
      assert forall x :: x in rest ==> x in t[1..];
      assert SortedObs(t) ==> forall x :: x in t[1..] ==> ObsBefore(t[0], x);
      (if PriceInRange(t[0].price) then [t[0]] else []) + rest
  }

  /** The monthly observations as table rows, before any return is computed. */
  function ToRows(t: seq<Obs>): (r: seq<Row>)
    ensures |r| == |t|
    ensures forall i :: 0 <= i < |t| ==> r[i] == Row(t[i].month, t[i].ticker, t[i].price, None, None)
    ensures SortedObs(t) ==> SortedRows(r)
  {
    seq(|t|, i requires 0 <= i < |t| => Row(t[i].month, t[i].ticker, t[i].price, None, None))
  }

  // ------------------------------------------------------------------------
  // Per-ticker groups
  // ------------------------------------------------------------------------

  /** The rows of ticker `tk`, in table order: the group `groupby('ticker')` sees. */
  function TickerRows(t: seq<Row>, tk: string): (r: seq<Row>)
    ensures forall x :: x in r ==> x in t && x.ticker == tk
  {
    if t == [] then []
    else TickerRows(t[..|t| - 1], tk) + (if t[|t| - 1].ticker == tk then [t[|t| - 1]] else [])
  }

  lemma {:induction false} TickerRowsConcat(a: seq<Row>, b: seq<Row>, tk: string)
    ensures TickerRows(a + b, tk) == TickerRows(a, tk) + TickerRows(b, tk)
    decreases |b|
  {
    if b == [] {
      assert a + b == a;
    } else {
      var b' := b[..|b| - 1];
      assert (a + b)[..|a + b| - 1] == a + b';
      TickerRowsConcat(a, b', tk);
    }
  }

  lemma {:induction false} TickerRowsNone(t: seq<Row>, tk: string)
    requires forall k :: 0 <= k < |t| ==> t[k].ticker != tk
    ensures TickerRows(t, tk) == []
  {
    if t != [] {
      TickerRowsNone(t[..|t| - 1], tk);
    }
  }

  /** The earlier rows of row i's ticker: the part of its group before it. */
  function History(t: seq<Row>, i: nat): seq<Row>
    requires i < |t|
  {
    TickerRows(t[..i], t[i].ticker)
  }

  /** Row i's group up to and including row i. */
  lemma HistoryAndSelf(t: seq<Row>, i: nat)
    requires i < |t|
    ensures TickerRows(t[..i + 1], t[i].ticker) == History(t, i) + [t[i]]
  {
    assert t[..i + 1][..i] == t[..i];
  }

  /** If j is the last earlier row of row i's ticker, row i's history ends with row j. */
  lemma HistoryFromPrevious(t: seq<Row>, i: nat, j: nat)
    requires j < i < |t| && t[j].ticker == t[i].ticker
    requires forall k :: j < k < i ==> t[k].ticker != t[i].ticker
    ensures History(t, i) == History(t, j) + [t[j]]
  {
    assert t[..i] == t[..j + 1] + t[j + 1..i];
    TickerRowsConcat(t[..j + 1], t[j + 1..i], t[i].ticker);
    TickerRowsNone(t[j + 1..i], t[i].ticker);
    HistoryAndSelf(t, j);
  }

  /** A row of the same ticker before row i puts that row in row i's history. */
  lemma HistoryHasEarlier(t: seq<Row>, i: nat, k: nat)
    requires k < i < |t| && t[k].ticker == t[i].ticker
    ensures History(t, i) != []
  {
    assert t[..i] == t[..k + 1] + t[k + 1..i];
    TickerRowsConcat(t[..k + 1], t[k + 1..i], t[i].ticker);
    assert t[..k + 1][..k] == t[..k];
    assert TickerRows(t[..k + 1], t[i].ticker) == TickerRows(t[..k], t[i].ticker) + [t[k]];
  }

  /** Row i's history is empty exactly when no earlier row has its ticker. */
  lemma HistoryEmpty(t: seq<Row>, i: nat)
    requires i < |t|
    ensures History(t, i) == [] <==> forall k :: 0 <= k < i ==> t[k].ticker != t[i].ticker
  {
    if forall k :: 0 <= k < i ==> t[k].ticker != t[i].ticker {
      TickerRowsNone(t[..i], t[i].ticker);
    } else {
      var k :| 0 <= k < i && t[k].ticker == t[i].ticker;
      HistoryHasEarlier(t, i, k);
    }
  }

  /** Every row of a history is an earlier row of the same ticker. */
  lemma HistoryMembers(t: seq<Row>, i: nat, x: Row)
    requires i < |t| && x in History(t, i)
    ensures exists k :: 0 <= k < i && t[k] == x && x.ticker == t[i].ticker
  {
    assert x in t[..i];
  }

  // ------------------------------------------------------------------------
  // Past and future returns
  // ------------------------------------------------------------------------

  /** `pct_change` of one step; a zero base gives no finite value. */
  function Change(prev: real, cur: real): Option<real>
  {
    if prev == 0.0 then None else Some(cur / prev - 1.0)
  }

  /** `groupby('ticker')['price'].pct_change()` at row i. */
  function PastReturn(t: seq<Row>, i: nat): Option<real>
    requires i < |t|
  {
    var h := History(t, i);
    if h == [] then None else Change(h[|h| - 1].price, t[i].price)
  }

  function WithPastReturns(t: seq<Row>): seq<Row>
  {
    seq(|t|, i requires 0 <= i < |t| => t[i].(past := PastReturn(t, i)))
  }

  /**
   * `.shift(-1)` of the whole past-return column: the next row's past return. Only the
   * future column changes, and the last row gets none.
   */
  function WithFutureReturns(t: seq<Row>): (r: seq<Row>)
    ensures |r| == |t|
    ensures forall i :: 0 <= i < |t| ==>
      r[i].month == t[i].month && r[i].ticker == t[i].ticker && r[i].price == t[i].price &&
      r[i].past == t[i].past
    ensures t != [] ==> r[|t| - 1].future == None
  {
    seq(|t|, i requires 0 <= i < |t| => t[i].(future := if i + 1 < |t| then t[i + 1].past else None))
  }

  /**
   * A row's past return is its price over the price of the previous row of the same
   * ticker, minus one.
   */
  lemma PastReturnFromPrevious(t: seq<Row>, i: nat, j: nat)
    requires j < i < |t| && t[j].ticker == t[i].ticker && t[j].price != 0.0
    requires forall k :: j < k < i ==> t[k].ticker != t[i].ticker
    ensures WithPastReturns(t)[i].past == Some(t[i].price / t[j].price - 1.0)
  {
    HistoryFromPrevious(t, i, j);
  }

  /** The past return is missing exactly on each ticker's first row. */
  lemma PastReturnMissing(t: seq<Row>, i: nat)
    requires i < |t|
    requires forall k :: 0 <= k < |t| ==> t[k].price != 0.0
    ensures WithPastReturns(t)[i].past == None <==> forall k :: 0 <= k < i ==> t[k].ticker != t[i].ticker
  {
    HistoryEmpty(t, i);
    var h := History(t, i);
    if h != [] {
      HistoryMembers(t, i, h[|h| - 1]);
    }
  }

  /** Two consecutive rows of one ticker: the second's past return is the price change. */
  lemma PastReturnAfterSameTicker(t: seq<Row>, i: nat)
    requires i + 1 < |t| && t[i].price != 0.0 && t[i + 1].ticker == t[i].ticker
    ensures PastReturn(t, i + 1) == Some(t[i + 1].price / t[i].price - 1.0)
  {
    HistoryFromPrevious(t, i + 1, i);
    var h := History(t, i + 1);
    assert h[|h| - 1] == t[i];
  }

  /** Row i's future return read off the shifted column: row i + 1's past, none on the last row. */
  lemma FutureIsNextPast(t: seq<Row>, i: nat)
    requires i < |t|
    ensures WithFutureReturns(WithPastReturns(t))[i].future ==
      if i + 1 < |t| then PastReturn(t, i + 1) else None
  {
    var p := WithPastReturns(t);
    if i + 1 < |t| {
      assert p[i + 1].past == PastReturn(t, i + 1);
    }
  }

  /**
   * The future return of row i is the past return of row i + 1, whatever its ticker, and
   * the last row has none. When row i + 1 has row i's ticker, this is row i's own
   * next-month return.
   */
  lemma FutureReturnOfNextRow(t: seq<Row>, i: nat)
    requires i < |t|
    ensures i + 1 < |t| ==> WithFutureReturns(WithPastReturns(t))[i].future == PastReturn(t, i + 1)
    ensures i + 1 == |t| ==> WithFutureReturns(WithPastReturns(t))[i].future == None
    ensures i + 1 < |t| && t[i].price != 0.0 && t[i + 1].ticker == t[i].ticker ==>
      WithFutureReturns(WithPastReturns(t))[i].future == Some(t[i + 1].price / t[i].price - 1.0)
  {
    FutureIsNextPast(t, i);
    if i + 1 < |t| && t[i].price != 0.0 && t[i + 1].ticker == t[i].ticker {
      PastReturnAfterSameTicker(t, i);
    }
  }

  /** A witness that the global shift hands a row another ticker's return. */
  lemma FutureReturnCrossesTickers()
    ensures var t := [Row(0, "A", 10.0, None, None), Row(0, "B", 10.0, None, None),
                      Row(1, "A", 20.0, None, None), Row(1, "B", 10.0, None, None)];
      SortedRows(t) &&
      // B's own next-month return is 10 / 10 - 1 = 0, yet its row receives A's.
      WithFutureReturns(WithPastReturns(t))[1].future == Some(1.0) &&
      WithFutureReturns(WithPastReturns(t))[3].future == None
  {
    var t := [Row(0, "A", 10.0, None, None), Row(0, "B", 10.0, None, None),
              Row(1, "A", 20.0, None, None), Row(1, "B", 10.0, None, None)];
    assert StrLess("A", "B");
    PastReturnFromPrevious(t, 2, 0);
  }

  // ------------------------------------------------------------------------
  // Outlier suppression outside the 2008-2009 crisis
  // ------------------------------------------------------------------------

  predicate InCrisis(month: int)
  {
    CrisisStart <= month <= CrisisEnd
  }

  /** A return above +100% or below -50%; a missing value is never an outlier. */
  predicate IsOutlier(x: Option<real>)
  {
    x.Some? && (x.value > OutlierHigh || x.value < OutlierLow)
  }

  function SuppressRow(r: Row): Row
  {
    if InCrisis(r.month) then r
    else r.(past := if IsOutlier(r.past) then None else r.past,
            future := if IsOutlier(r.future) then None else r.future)
  }

  /** The table after the loop over tickers has blanked every outlier. */
  function Suppressed(t: seq<Row>): (r: seq<Row>)
    ensures SameIndex(t, r)
  {
    seq(|t|, i requires 0 <= i < |t| => SuppressRow(t[i]))
  }

  /**
   * What the loop does to one row: crisis rows and prices are untouched; outside the
   * crisis a return is blanked exactly when it is above 1 or below -0.5.
   */
  lemma SuppressRowSpec(r: Row)
    ensures SuppressRow(r).month == r.month && SuppressRow(r).ticker == r.ticker
    ensures SuppressRow(r).price == r.price
    ensures InCrisis(r.month) ==> SuppressRow(r) == r
    ensures !InCrisis(r.month) ==>
      (SuppressRow(r).past == None <==> r.past == None || r.past.value > 1.0 || r.past.value < -0.5) &&
      (SuppressRow(r).future == None <==> r.future == None || r.future.value > 1.0 || r.future.value < -0.5)
    ensures !InCrisis(r.month) && SuppressRow(r).past.Some? ==>
      SuppressRow(r).past == r.past && -0.5 <= r.past.value <= 1.0
    ensures !InCrisis(r.month) && SuppressRow(r).future.Some? ==>
      SuppressRow(r).future == r.future && -0.5 <= r.future.value <= 1.0
  {
  }

  /** `index.get_level_values(1).unique()`: each ticker once, in order of appearance. */
  function UniqueTickers(t: seq<Row>): (ts: seq<string>)
    ensures forall i :: 0 <= i < |t| ==> t[i].ticker in ts
    ensures forall p, q :: 0 <= p < q < |ts| ==> ts[p] != ts[q]
  {
    if t == [] then []
    else
      var prefix := t[..|t| - 1];
      var ts := UniqueTickers(prefix);
      assert forall i :: 0 <= i < |t| - 1 ==> t[i] == prefix[i];
      if t[|t| - 1].ticker in ts then ts else ts + [t[|t| - 1].ticker]
  }

  /**
   * The loop over tickers: for each ticker, the rows outside the crisis whose past or
   * future return is an outlier get that return overwritten with a missing value, in
   * place in the shared frame.
   */
  method SuppressOutliers(frame: array<Row>)
    modifies frame
    ensures frame[..] == Suppressed(old(frame[..]))
  {
    ghost var before := frame[..];
    var tickers := UniqueTickers(frame[..]);
    var k := 0;
    while k < |tickers|
      invariant 0 <= k <= |tickers|
      invariant forall p :: 0 <= p < frame.Length ==>
        frame[p] == if before[p].ticker in tickers[..k] then SuppressRow(before[p]) else before[p]
    {
      var ticker := tickers[k];
      var i := 0;
      while i < frame.Length
        invariant 0 <= i <= frame.Length
        invariant forall p :: 0 <= p < frame.Length ==>
          frame[p] == if before[p].ticker in tickers[..k] || (p < i && before[p].ticker == ticker)
                      then SuppressRow(before[p]) else before[p]
      {
        var r := frame[i];
        if r.ticker == ticker && !InCrisis(r.month) {
          assert before[i].ticker !in tickers[..k];
          if IsOutlier(r.past) {
            frame[i] := frame[i].(past := None);
          }
          if IsOutlier(r.future) {
            frame[i] := frame[i].(future := None);
          }
        }
        i := i + 1;
      }
      assert tickers[..k + 1] == tickers[..k] + [ticker];
      k := k + 1;
    }
    assert tickers[..k] == tickers;
  }

  // ------------------------------------------------------------------------
  // Forward fill and dropping incomplete rows
  // ------------------------------------------------------------------------

  function Pasts(t: seq<Row>): (r: seq<Option<real>>)
    ensures |r| == |t| && forall k :: 0 <= k < |t| ==> r[k] == t[k].past
  {
    seq(|t|, k requires 0 <= k < |t| => t[k].past)
  }

  /** The last value that is not missing. */
  function LastPresent(xs: seq<Option<real>>): Option<real>
  {
    if xs == [] then None
    else if xs[|xs| - 1].Some? then xs[|xs| - 1]
    else LastPresent(xs[..|xs| - 1])
  }

  lemma {:induction false} LastPresentMissingTail(xs: seq<Option<real>>, ys: seq<Option<real>>)
    requires forall k :: 0 <= k < |ys| ==> ys[k].None?
    ensures LastPresent(xs + ys) == LastPresent(xs)
    decreases |ys|
  {
    if ys == [] {
      assert xs + ys == xs;
    } else {
      assert (xs + ys)[..|xs + ys| - 1] == xs + ys[..|ys| - 1];
      LastPresentMissingTail(xs, ys[..|ys| - 1]);
    }
  }

  lemma {:induction false} LastPresentFound(xs: seq<Option<real>>)
    ensures LastPresent(xs).Some? <==> exists k :: 0 <= k < |xs| && xs[k].Some?
    decreases |xs|
  {
    if xs != [] && xs[|xs| - 1].None? {
      LastPresentFound(xs[..|xs| - 1]);
      if exists k :: 0 <= k < |xs| && xs[k].Some? {
        var k :| 0 <= k < |xs| && xs[k].Some?;
        assert xs[..|xs| - 1][k] == xs[k];
      }
    }
  }

  /** `groupby('ticker')['monthly_past_return'].ffill()` at row i. */
  function FilledPast(t: seq<Row>, i: nat): Option<real>
    requires i < |t|
  {
    LastPresent(Pasts(TickerRows(t[..i + 1], t[i].ticker)))
  }

  function ForwardFillPast(t: seq<Row>): (r: seq<Row>)
    ensures SameIndex(t, r)
  {
    seq(|t|, i requires 0 <= i < |t| => t[i].(past := FilledPast(t, i)))
  }

  /**
   * A present past return is kept; a missing one takes the nearest earlier present past
   * return of the same ticker.
   */
  lemma ForwardFillNearest(t: seq<Row>, i: nat, j: nat)
    requires j <= i < |t| && t[j].ticker == t[i].ticker && t[j].past.Some?
    requires forall k :: j < k <= i && t[k].ticker == t[i].ticker ==> t[k].past.None?
    ensures ForwardFillPast(t)[i].past == t[j].past
  {
    var tk := t[i].ticker;
    assert t[..i + 1] == t[..j + 1] + t[j + 1..i + 1];
    TickerRowsConcat(t[..j + 1], t[j + 1..i + 1], tk);
    HistoryAndSelf(t, j);
    var tail := TickerRows(t[j + 1..i + 1], tk);
    forall k | 0 <= k < |tail|
      ensures tail[k].past.None?
    {
      assert tail[k] in t[j + 1..i + 1];
    }
    assert Pasts(TickerRows(t[..i + 1], tk)) == Pasts(History(t, j) + [t[j]]) + Pasts(tail);
    LastPresentMissingTail(Pasts(History(t, j) + [t[j]]), Pasts(tail));
  }

  /** Row k belongs to the group of row i's ticker up to row i when it has that ticker. */
  lemma GroupContains(t: seq<Row>, i: nat, k: nat)
    requires k <= i < |t| && t[k].ticker == t[i].ticker
    ensures t[k] in TickerRows(t[..i + 1], t[i].ticker)
  {
    var tk := t[i].ticker;
    assert t[..i + 1] == t[..k + 1] + t[k + 1..i + 1];
    TickerRowsConcat(t[..k + 1], t[k + 1..i + 1], tk);
    HistoryAndSelf(t, k);
    var g := TickerRows(t[..i + 1], tk);
    assert g[|History(t, k)|] == t[k];
    assert g[|History(t, k)|] in g;
  }

  /** Some row of the ticker up to row i with a past return: the fill finds a value. */
  lemma ForwardFillFinds(t: seq<Row>, i: nat, k: nat)
    requires k <= i < |t| && t[k].ticker == t[i].ticker && t[k].past.Some?
    ensures ForwardFillPast(t)[i].past.Some?
  {
    var g := TickerRows(t[..i + 1], t[i].ticker);
    GroupContains(t, i, k);
    var p :| 0 <= p < |g| && g[p] == t[k];
    assert Pasts(g)[p].Some?;
    LastPresentFound(Pasts(g));
  }

  /** No row of the ticker up to row i has a past return: the fill finds nothing. */
  lemma ForwardFillFindsNothing(t: seq<Row>, i: nat)
    requires i < |t|
    requires forall k :: 0 <= k <= i && t[k].ticker == t[i].ticker ==> t[k].past.None?
    ensures ForwardFillPast(t)[i].past.None?
  {
    var g := TickerRows(t[..i + 1], t[i].ticker);
    LastPresentFound(Pasts(g));
    forall m | 0 <= m < |g|
      ensures Pasts(g)[m].None?
    {
      assert g[m] in t[..i + 1];
    }
  }

  /** The fill yields a value exactly when some row of the ticker up to row i has one. */
  lemma ForwardFillNothing(t: seq<Row>, i: nat)
    requires i < |t|
    ensures ForwardFillPast(t)[i].past.Some? <==>
      exists k :: 0 <= k <= i && t[k].ticker == t[i].ticker && t[k].past.Some?
  {
    if exists k :: 0 <= k <= i && t[k].ticker == t[i].ticker && t[k].past.Some? {
      var k :| 0 <= k <= i && t[k].ticker == t[i].ticker && t[k].past.Some?;
      ForwardFillFinds(t, i, k);
    } else {
      ForwardFillFindsNothing(t, i);
    }
  }

  predicate Complete(r: Row)
  {
    r.past.Some? && r.future.Some?
  }

  /** A row keyed before every row of a sorted table can be put in front of it. */
  lemma SortedRowsCons(x: Row, rest: seq<Row>)
    requires SortedRows(rest)
    requires forall y :: y in rest ==> KeyLess(x.month, x.ticker, y.month, y.ticker)
    ensures SortedRows([x] + rest)
  {
    var r := [x] + rest;
    forall i, j | 0 <= i < j < |r|
      ensures KeyLess(r[i].month, r[i].ticker, r[j].month, r[j].ticker)
    {
      assert r[j] == rest[j - 1] && r[j] in rest;
      if i > 0 {
        assert r[i] == rest[i - 1];
      }
    }
  }

  /** The tail of a sorted table is sorted and keyed after its head. */
  lemma SortedRowsTail(t: seq<Row>)
    requires SortedRows(t) && t != []
    ensures SortedRows(t[1..])
    ensures forall y :: y in t[1..] ==> KeyLess(t[0].month, t[0].ticker, y.month, y.ticker)
  {
    forall y | y in t[1..]
      ensures KeyLess(t[0].month, t[0].ticker, y.month, y.ticker)
    {
      var j :| 0 <= j < |t[1..]| && t[1..][j] == y;
      assert t[j + 1] == y;
    }
  }

  /** `dropna(subset=['monthly_future_return'])` then `dropna()`. */
  function DropIncomplete(t: seq<Row>): (r: seq<Row>)
    ensures forall x :: x in r <==> x in t && Complete(x)
    ensures SortedRows(t) ==> SortedRows(r)
  {
    if t == [] then []
    else
      var rest := DropIncomplete(t[1..]);
      if SortedRows(t) then
        SortedRowsTail(t);
        if Complete(t[0]) then SortedRowsCons(t[0], rest); [t[0]] + rest else rest
      else
        (if Complete(t[0]) then [t[0]] else []) + rest
  }

  // ------------------------------------------------------------------------
  // preprocess_prices
  // ------------------------------------------------------------------------

  /** The monthly table: last observation per (ticker, month), price-filtered, sorted. */
  function MonthlyTable(obs: seq<Obs>): seq<Row>
  {
    ToRows(FilterPrices(Resample(obs)))
  }

  /** The monthly table with both return columns, before outlier suppression. */
  function ReturnsTable(obs: seq<Obs>): seq<Row>
  {
    WithFutureReturns(WithPastReturns(MonthlyTable(obs)))
  }

  /** What `preprocess_prices` returns. */
  function PreprocessedPrices(obs: seq<Obs>): seq<Row>
  {
    DropIncomplete(ForwardFillPast(Suppressed(ReturnsTable(obs))))
  }

  /** `preprocess_prices`: the column operations, then the in-place loop, then fill and drop. */
  method PreprocessPrices(obs: seq<Obs>) returns (table: seq<Row>)
    ensures table == PreprocessedPrices(obs)
  {
    var monthly := ToRows(FilterPrices(Resample(obs)));
    var withPast := WithPastReturns(monthly);
    var withFuture := WithFutureReturns(withPast);
    var frame := new Row[|withFuture|](i requires 0 <= i < |withFuture| => withFuture[i]);
    assert frame[..] == withFuture;
    SuppressOutliers(frame);
    var filled := ForwardFillPast(frame[..]);
    table := DropIncomplete(filled);
  }

  lemma MonthlyTableSorted(obs: seq<Obs>)
    ensures SortedRows(MonthlyTable(obs))
    ensures forall i :: 0 <= i < |MonthlyTable(obs)| ==> PriceInRange(MonthlyTable(obs)[i].price)
  {
    ResampleLastObservation(obs);
    var f := FilterPrices(Resample(obs));
    forall i | 0 <= i < |f|
      ensures PriceInRange(f[i].price)
    {
      assert f[i] in f;
    }
  }

  /** The steps after the monthly table keep its index row for row. */
  lemma PipelineIndex(obs: seq<Obs>)
    ensures SameIndex(MonthlyTable(obs), ReturnsTable(obs))
    ensures SameIndex(MonthlyTable(obs), ForwardFillPast(Suppressed(ReturnsTable(obs))))
    ensures forall i :: 0 <= i < |MonthlyTable(obs)| ==>
      ForwardFillPast(Suppressed(ReturnsTable(obs)))[i].price == MonthlyTable(obs)[i].price
  {
    var m := MonthlyTable(obs);
    var p := WithPastReturns(m);
    var r := ReturnsTable(obs);
    var u := Suppressed(r);
    var f := ForwardFillPast(u);
    assert forall i :: 0 <= i < |m| ==> p[i].month == m[i].month && p[i].ticker == m[i].ticker && p[i].price == m[i].price;
    assert SameIndex(m, r);
    assert SameIndex(m, f);
    forall i | 0 <= i < |m|
      ensures f[i].price == m[i].price
    {
      assert u[i] == SuppressRow(r[i]);
      assert f[i].price == u[i].price;
    }
  }

  /**
   * The output of `preprocess_prices` is sorted by (date, ticker) with one row per key,
   * has no missing value, and every price lies in [0.1, 10000].
   */
  lemma PreprocessedComplete(obs: seq<Obs>)
    ensures SortedRows(PreprocessedPrices(obs))
    ensures forall r :: r in PreprocessedPrices(obs) ==> Complete(r) && PriceInRange(r.price)
  {
    MonthlyTableSorted(obs);
    PipelineIndex(obs);
    var filled := ForwardFillPast(Suppressed(ReturnsTable(obs)));
    assert SortedRows(filled);
    forall r | r in PreprocessedPrices(obs)
      ensures PriceInRange(r.price)
    {
      var i :| 0 <= i < |filled| && filled[i] == r;
    }
  }

  /**
   * Future returns are never filled: on every surviving row outside the crisis window the
   * future return lies in [-0.5, 1].
   */
  lemma PreprocessedFutureInBounds(obs: seq<Obs>)
    ensures forall r :: r in PreprocessedPrices(obs) && !InCrisis(r.month) ==>
      -0.5 <= r.future.value <= 1.0
  {
    var s := Suppressed(ReturnsTable(obs));
    var filled := ForwardFillPast(s);
    forall r | r in PreprocessedPrices(obs) && !InCrisis(r.month)
      ensures -0.5 <= r.future.value <= 1.0
    {
      var i :| 0 <= i < |filled| && filled[i] == r;
      SuppressRowSpec(ReturnsTable(obs)[i]);
    }
  }

  /** Every surviving row carries the last observation of its (ticker, month). */
  lemma PreprocessedPriceIsLastObservation(obs: seq<Obs>)
    ensures forall r :: r in PreprocessedPrices(obs) ==>
      exists k :: (0 <= k < |obs| && IsLatest(obs, k) && obs[k].ticker == r.ticker &&
        obs[k].month == r.month && obs[k].price == r.price)
  {
    var filled := ForwardFillPast(Suppressed(ReturnsTable(obs)));
    var f := FilterPrices(Resample(obs));
    ResampleLastObservation(obs);
    PipelineIndex(obs);
    forall r | r in PreprocessedPrices(obs)
      ensures exists k :: (0 <= k < |obs| && IsLatest(obs, k) && obs[k].ticker == r.ticker &&
        obs[k].month == r.month && obs[k].price == r.price)
    {
      var i :| 0 <= i < |filled| && filled[i] == r;
      assert f[i] in f;
      assert f[i] in Resample(obs);
      var k :| 0 <= k < |obs| && obs[k] == f[i] && IsLatest(obs, k);
    }
  }

  /** A row whose past return survives suppression has an earlier row of its ticker. */
  lemma SurvivingPastHasEarlierRow(obs: seq<Obs>, i: nat)
    requires i < |MonthlyTable(obs)|
    requires Suppressed(ReturnsTable(obs))[i].past.Some?
    ensures exists j :: 0 <= j < i && MonthlyTable(obs)[j].ticker == MonthlyTable(obs)[i].ticker
  {
    var monthly := MonthlyTable(obs);
    MonthlyTableSorted(obs);
    SuppressRowSpec(ReturnsTable(obs)[i]);
    assert WithPastReturns(monthly)[i].past.Some?;
    PastReturnMissing(monthly, i);
  }

  /** A row whose past return is present after the fill has an earlier row of its ticker. */
  lemma FilledPastHasEarlierRow(obs: seq<Obs>, i: nat)
    requires i < |MonthlyTable(obs)|
    requires ForwardFillPast(Suppressed(ReturnsTable(obs)))[i].past.Some?
    ensures exists j :: 0 <= j < i && MonthlyTable(obs)[j].ticker == MonthlyTable(obs)[i].ticker
  {
    var s := Suppressed(ReturnsTable(obs));
    PipelineIndex(obs);
    ForwardFillNothing(s, i);
    var k :| 0 <= k <= i && s[k].ticker == s[i].ticker && s[k].past.Some?;
    if k == i {
      SurvivingPastHasEarlierRow(obs, i);
    } else {
      assert MonthlyTable(obs)[k].ticker == MonthlyTable(obs)[i].ticker;
    }
  }

  /** An earlier row of the same ticker in the sorted monthly table has an earlier month. */
  lemma EarlierRowEarlierMonth(t: seq<Row>, j: nat, i: nat)
    requires SortedRows(t) && j < i < |t| && t[j].ticker == t[i].ticker
    ensures t[j].month < t[i].month
  {
    assert KeyLess(t[j].month, t[j].ticker, t[i].month, t[i].ticker);
    StrLessIrreflexive(t[i].ticker);
  }

  /**
   * Each ticker's first monthly row never survives: every surviving row has an earlier
   * monthly row of the same ticker.
   */
  lemma PreprocessedDropsFirstRows(obs: seq<Obs>)
    ensures forall r :: r in PreprocessedPrices(obs) ==>
      exists x :: x in MonthlyTable(obs) && x.ticker == r.ticker && x.month < r.month
  {
    var monthly := MonthlyTable(obs);
    var filled := ForwardFillPast(Suppressed(ReturnsTable(obs)));
    MonthlyTableSorted(obs);
    PipelineIndex(obs);
    forall r | r in PreprocessedPrices(obs)
      ensures exists x :: x in monthly && x.ticker == r.ticker && x.month < r.month
    {
      var i :| 0 <= i < |filled| && filled[i] == r;
      FilledPastHasEarlierRow(obs, i);
      var j :| 0 <= j < i && monthly[j].ticker == monthly[i].ticker;
      EarlierRowEarlierMonth(monthly, j, i);
      assert monthly[j] in monthly;
    }
  }

  // ------------------------------------------------------------------------
  // preprocess_sp500
  // ------------------------------------------------------------------------

  /** The benchmark is one series; it is resampled like a single ticker. */
  const BenchmarkTicker: string := "S&P 500"

  function BenchAsObs(obs: seq<BenchObs>): (r: seq<Obs>)
    ensures |r| == |obs|
  {
    seq(|obs|, i requires 0 <= i < |obs| => Obs(BenchmarkTicker, obs[i].month, obs[i].day, obs[i].adjClose))
  }

  /** `resample('ME').last()` then `adj_close.pct_change()`. */
  function PreprocessSp500(obs: seq<BenchObs>): (r: seq<BenchRow>)
    ensures |r| == |Resample(BenchAsObs(obs))|
    ensures forall i :: 0 <= i < |r| ==>
      r[i].month == Resample(BenchAsObs(obs))[i].month &&
      r[i].adjClose == Resample(BenchAsObs(obs))[i].price
    ensures r != [] ==> r[0].monthlyReturn == None
  {
    var monthly := WithPastReturns(ToRows(Resample(BenchAsObs(obs))));
    seq(|monthly|, i requires 0 <= i < |monthly| =>
      BenchRow(monthly[i].month, monthly[i].price, monthly[i].past))
  }

  /** Strictly increasing months: the benchmark series' monthly index. */
  predicate MonthsIncreasing(b: seq<BenchRow>)
  {
    forall i, j :: 0 <= i < j < |b| ==> b[i].month < b[j].month
  }

  /** Every resampled benchmark row belongs to the one benchmark series. */
  lemma BenchmarkSingleSeries(obs: seq<BenchObs>)
    ensures SortedObs(Resample(BenchAsObs(obs)))
    ensures LatestRows(BenchAsObs(obs), Resample(BenchAsObs(obs)))
    ensures CoversKeys(BenchAsObs(obs), Resample(BenchAsObs(obs)))
    ensures forall x :: x in Resample(BenchAsObs(obs)) ==> x.ticker == BenchmarkTicker
  {
    var o := BenchAsObs(obs);
    var t := Resample(o);
    ResampleLastObservation(o);
    forall x | x in t
      ensures x.ticker == BenchmarkTicker
    {
      var k :| 0 <= k < |o| && o[k] == x && IsLatest(o, k);
    }
  }

  /** The benchmark has one row per month, in increasing month order. */
  lemma Sp500MonthsIncreasing(obs: seq<BenchObs>)
    ensures MonthsIncreasing(PreprocessSp500(obs))
  {
    var t := Resample(BenchAsObs(obs));
    var b := PreprocessSp500(obs);
    BenchmarkSingleSeries(obs);
    forall i, j | 0 <= i < j < |b|
      ensures b[i].month < b[j].month
    {
      assert t[i] in t && t[j] in t;
      StrLessIrreflexive(BenchmarkTicker);
    }
  }

  /** Each benchmark month holds the adjusted close of its last observation. */
  lemma Sp500LastClose(obs: seq<BenchObs>)
    ensures forall r :: r in PreprocessSp500(obs) ==>
      exists k :: 0 <= k < |obs| && obs[k].month == r.month && obs[k].adjClose == r.adjClose &&
        forall j :: 0 <= j < |obs| && obs[j].month == r.month ==>
          obs[j].day < obs[k].day || (obs[j].day == obs[k].day && j <= k)
  {
    var o := BenchAsObs(obs);
    var t := Resample(o);
    var b := PreprocessSp500(obs);
    BenchmarkSingleSeries(obs);
    forall r | r in b
      ensures exists k :: (0 <= k < |obs| && obs[k].month == r.month && obs[k].adjClose == r.adjClose &&
        forall j :: 0 <= j < |obs| && obs[j].month == r.month ==>
          obs[j].day < obs[k].day || (obs[j].day == obs[k].day && j <= k))
    {
      var i :| 0 <= i < |b| && b[i] == r;
      assert t[i] in t;
      var k :| 0 <= k < |o| && o[k] == t[i] && IsLatest(o, k);
      forall j | 0 <= j < |obs| && obs[j].month == r.month
        ensures obs[j].day < obs[k].day || (obs[j].day == obs[k].day && j <= k)
      {
        assert SameKey(o[j], o[k]);
      }
    }
  }

  /** Every month with an observation has a benchmark row. */
  lemma Sp500CoversMonths(obs: seq<BenchObs>)
    ensures forall k :: 0 <= k < |obs| ==> exists r :: r in PreprocessSp500(obs) && r.month == obs[k].month
  {
    var o := BenchAsObs(obs);
    var t := Resample(o);
    var b := PreprocessSp500(obs);
    BenchmarkSingleSeries(obs);
    forall k | 0 <= k < |obs|
      ensures exists r :: r in b && r.month == obs[k].month
    {
      assert HasKey(t, o[k]);
      var x :| x in t && SameKey(x, o[k]);
      var i :| 0 <= i < |t| && t[i] == x;
      assert b[i] in b;
    }
  }

  /** The monthly return is close / previous close - 1, missing on the first month. */
  lemma Sp500MonthlyReturns(obs: seq<BenchObs>)
    ensures |PreprocessSp500(obs)| > 0 ==> PreprocessSp500(obs)[0].monthlyReturn == None
    ensures forall i :: 0 < i < |PreprocessSp500(obs)| ==>
      PreprocessSp500(obs)[i].monthlyReturn ==
        Change(PreprocessSp500(obs)[i - 1].adjClose, PreprocessSp500(obs)[i].adjClose)
  {
    var t := Resample(BenchAsObs(obs));
    var rows := ToRows(t);
    var b := PreprocessSp500(obs);
    BenchmarkSingleSeries(obs);
    forall i | 0 <= i < |b|
      ensures b[i].monthlyReturn == if i == 0 then None else Change(b[i - 1].adjClose, b[i].adjClose)
    {
      if i == 0 {
        HistoryEmpty(rows, 0);
      } else {
        assert t[i - 1] in t && t[i] in t;
        HistoryFromPrevious(rows, i, i - 1);
      }
    }
  }
}
