/** Shared values of the screening pipeline: trading dates, the frames a
    category's tickers are read into, the statistics returned by the
    cointegration test, and the option/result wrappers used for the
    pipeline's absent values and raised errors. */
module Data {

  /** A trading date, as a day number. */
  type Date = int

  /** What the pipeline looks at in a price frame: its column names, in
      order, and its date index (possibly unsorted, possibly repeated). The
      prices themselves only reach the cointegration test, which is
      abstract here. */
  datatype Frame = Frame(columns: seq<string>, dates: seq<Date>)

  /** The triple returned by the cointegration test of a pair. */
  datatype Stats = Stats(pValue: real, beta: real, adfStatistic: real)

  datatype Option<+T> = None | Some(value: T)

  /** Errors the modelled code can raise. */
  datatype Error =
    /** A known-pairs frame has fewer than three columns, so reading its
        column 0 or column 2 raises an index error. */
    | ColumnIndexError(key: string)
    /** No category yielded a result, so the results table is built with
        no columns and selecting its numeric columns raises a key error. */
    | EmptyResultsError

  datatype Result<+T> = Success(value: T) | Failure(error: Error)

  /** Every element is smaller than the next one: sorted, no duplicates. */
  predicate StrictlyIncreasing(s: seq<int>) {
    forall i, j :: 0 <= i < j < |s| ==> s[i] < s[j]
  }

  /** The dictionary keys of an insertion-ordered dictionary. */
  function Keys<V>(d: seq<(string, V)>): (ks: seq<string>)
    ensures |ks| == |d|
    ensures forall k :: 0 <= k < |d| ==> ks[k] == d[k].0
  {
    seq(|d|, k requires 0 <= k < |d| => d[k].0)
  }

  /** No value occurs twice (the keys of a dictionary, for one). */
  predicate Distinct<T(==)>(s: seq<T>) {
    forall i, j :: 0 <= i < j < |s| ==> s[i] != s[j]
  }
}
