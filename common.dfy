/**
 * Shared vocabulary of the momentum backtest model: missing values, calendar months,
 * the ordering pandas uses for ticker strings, and sums over columns that may hold
 * missing values.
 */
module Common {

  /** A cell that may be missing: `None` plays the role of pandas' NaN. */
  datatype Option<T> = None | Some(value: T)

  /** Outcome of a computation that can fail the way the pandas code raises. */
  datatype Result<T, E> = Success(value: T) | Failure(error: E)

  /** A calendar month as a single integer: year * 12 + (month - 1). */
  function MonthIndex(year: int, month: int): (m: int)
    requires 1 <= month <= 12
    ensures m / 12 == year && m % 12 == month - 1
  {
    year * 12 + (month - 1)
  }

  /** Python's `<` on `str`: lexicographic by code point, a proper prefix first. */
  predicate StrLess(a: string, b: string)
    decreases |a|
  {
    if a == [] then b != []
    else b != [] && (a[0] < b[0] || (a[0] == b[0] && StrLess(a[1..], b[1..])))
  }

  lemma {:induction false} StrLessIrreflexive(a: string)
    ensures !StrLess(a, a)
    decreases |a|
  {
    if a != [] {
      StrLessIrreflexive(a[1..]);
    }
  }

  lemma {:induction false} StrLessTransitive(a: string, b: string, c: string)
    requires StrLess(a, b) && StrLess(b, c)
    ensures StrLess(a, c)
    decreases |a|
  {
    if a != [] && a[0] == b[0] && b[0] == c[0] {
      StrLessTransitive(a[1..], b[1..], c[1..]);
    }
  }

  lemma {:induction false} StrLessTotal(a: string, b: string)
    ensures a == b || StrLess(a, b) || StrLess(b, a)
    decreases |a|
  {
    if a != [] && b != [] && a[0] == b[0] {
      StrLessTotal(a[1..], b[1..]);
      if a[1..] == b[1..] {
        assert a == [a[0]] + a[1..] && b == [b[0]] + b[1..];
      }
    }
  }

  /** Sum of a column without missing values. */
  function Sum(xs: seq<real>): real
  {
    if xs == [] then 0.0 else xs[0] + Sum(xs[1..])
  }

  /** pandas `Series.sum()`: missing values are skipped (an all-missing sum is 0). */
  function SumPresent(xs: seq<Option<real>>): real
  {
    if xs == [] then 0.0
    else (if xs[0].Some? then xs[0].value else 0.0) + SumPresent(xs[1..])
  }

  /** Number of values that are not missing. */
  function CountPresent(xs: seq<Option<real>>): nat
  {
    if xs == [] then 0 else (if xs[0].Some? then 1 else 0) + CountPresent(xs[1..])
  }

  /** The indices 0 .. n-1 of a table with n rows, as a set. */
  function Range(n: nat): (r: set<nat>)
    ensures forall i: int :: i in r <==> 0 <= i < n
    ensures |r| == n
  {
    if n == 0 then {} else Range(n - 1) + {n - 1}
  }

  lemma SubsetCard<T>(a: set<T>, b: set<T>)
    requires a <= b
    ensures |a| <= |b|
    ensures a < b ==> |a| < |b|
  {
    assert b == a + (b - a);
  }
}
