/** Pair screening by category (src/cointegration.py): every category's
    candidate pairs with their cointegration statistics, the best pair of
    each category, and the name of the file the best pair is saved to.
    The cointegration test itself (log prices, least-squares regression,
    Augmented Dickey-Fuller test) is an opaque oracle passed in. */
module Cointegration {
  import opened Data
  import opened Combinations
  import opened Selection

  /** The category whose frames each hold one pre-joined pair. */
  const KnownPairs: string := "known_pairs"

  /** The price column of a single-ticker frame. */
  const AdjClose: string := "adj_close"

  /** The frames of one category: ticker (or pair) key to frame, in the
      dictionary's insertion order. */
  type Tickers = seq<(string, Frame)>

  /** All categories: category name to its frames, in insertion order. */
  type Universe = seq<(string, Tickers)>

  /** `cointegration_pvalue(name_A, df_A, name_B, df_B, col_A, col_B)`. */
  type Oracle = (string, Frame, string, Frame, string, string) -> Stats

  /** The `data` entry of a result: the one known-pair frame, or the two
      frames of a regular pair. */
  datatype PairData = KnownPairData(df: Frame) | RegularData(dfA: Frame, dfB: Frame)

  /** One row of the screening results. */
  datatype PairResult = PairResult(
    tickerA: string, tickerB: string, sector: string,
    pValue: real, beta: real, adfStatistic: real,
    data: PairData)

  /** `column.split('_')[0]`: the part of a column name before its first
      underscore, or the whole name when it has none. */
  function TickerOfColumn(column: string): (t: string)
    ensures |t| <= |column| && t == column[..|t|]
    ensures '_' !in t
    ensures |t| < |column| ==> column[|t|] == '_'
  {
    if column == [] || column[0] == '_' then []
    else [column[0]] + TickerOfColumn(column[1..])
  }

  /** The loader names a joined frame's columns `{ticker}_{column}`; the
      split recovers the ticker whenever the ticker has no underscore. */
  lemma {:induction false} TickerOfColumnRecovers(ticker: string, column: string)
    requires '_' !in ticker
    ensures TickerOfColumn(ticker + "_" + column) == ticker
  {
    if ticker != [] {
      assert (ticker + "_" + column)[1..] == ticker[1..] + "_" + column;
      TickerOfColumnRecovers(ticker[1..], column);
    } else {
      assert (ticker + "_" + column)[0] == '_';
    }
  }

  /** The result for one entry of the known-pairs category, or the index
      error raised when its frame has no column 2. */
  function KnownPairResult(category: string, entry: (string, Frame), coint: Oracle): Result<PairResult> {
    var (key, df) := entry;
    if |df.columns| < 3 then Failure(ColumnIndexError(key))
    else
      var a := TickerOfColumn(df.columns[0]);
      var b := TickerOfColumn(df.columns[2]);
      var stats := coint(a, df, b, df, df.columns[0], df.columns[2]);
      Success(PairResult(a, b, category, stats.pValue, stats.beta, stats.adfStatistic, KnownPairData(df)))
  }

  /** The result for the regular pair of positions p. */
  function RegularPairResult(category: string, tickers: Tickers, p: IndexPair, coint: Oracle): PairResult
    requires p.0 < |tickers| && p.1 < |tickers|
  {
    var (a, dfA) := tickers[p.0];
    var (b, dfB) := tickers[p.1];
    var stats := coint(a, dfA, b, dfB, AdjClose, AdjClose);
    PairResult(a, b, category, stats.pValue, stats.beta, stats.adfStatistic, RegularData(dfA, dfB))
  }

  /** The known-pairs results, one per entry in dictionary order; the
      first entry whose frame lacks column 2 aborts with its error. */
  function KnownPairsResults(category: string, tickers: Tickers, coint: Oracle): Result<seq<PairResult>> {
    if |tickers| == 0 then Success([])
    else
      match KnownPairsResults(category, tickers[..|tickers| - 1], coint)
      case Failure(e) => Failure(e)
      case Success(rs) =>
        match KnownPairResult(category, tickers[|tickers| - 1], coint)
        case Failure(e) => Failure(e)
        case Success(r) => Success(rs + [r])
  }

  /** The regular results, one per 2-combination of the keys. */
  function RegularResults(category: string, tickers: Tickers, coint: Oracle): (rs: seq<PairResult>)
    ensures |rs| == |IndexPairs(|tickers|)|
  {
    var ps := IndexPairs(|tickers|);
    seq(|ps|, k requires 0 <= k < |ps| => RegularPairResult(category, tickers, ps[k], coint))
  }

  /** What `get_category_pairs` returns (or raises) for a category. */
  function CategoryPairs(category: string, tickers: Tickers, coint: Oracle): Result<seq<PairResult>> {
    if category == KnownPairs then KnownPairsResults(category, tickers, coint)
    else Success(RegularResults(category, tickers, coint))
  }

  /** get_category_pairs: the known-pairs category yields one result per
      entry, any other category one result per 2-combination of its keys. */
  method GetCategoryPairs(category: string, tickers: Tickers, coint: Oracle) returns (r: Result<seq<PairResult>>)
    ensures r == CategoryPairs(category, tickers, coint)
  {
    var categoryResults: seq<PairResult> := [];
    if category == KnownPairs {
      for k := 0 to |tickers|
        invariant KnownPairsResults(category, tickers[..k], coint) == Success(categoryResults)
      {
        assert tickers[..k + 1][..k] == tickers[..k];
        var (key, df) := tickers[k];
        if |df.columns| < 3 {
          assert KnownPairsResults(category, tickers[..k + 1], coint) == Failure(ColumnIndexError(key));
          PrefixFailurePersists(category, tickers, k + 1, coint);
          return Failure(ColumnIndexError(key));
        }
        var tickerA := TickerOfColumn(df.columns[0]);
        var tickerB := TickerOfColumn(df.columns[2]);
        var stats := coint(tickerA, df, tickerB, df, df.columns[0], df.columns[2]);
        categoryResults := categoryResults + [PairResult(tickerA, tickerB, category,
          stats.pValue, stats.beta, stats.adfStatistic, KnownPairData(df))];
      }
      assert tickers[..|tickers|] == tickers;
    } else {
      var combos := IndexPairs(|tickers|);
      for k := 0 to |combos|
        invariant |categoryResults| == k
        invariant forall j :: 0 <= j < k ==>
                    categoryResults[j] == RegularPairResult(category, tickers, combos[j], coint)
      {
        var (i, j) := combos[k];
        var (tickerA, dfA) := tickers[i];
        var (tickerB, dfB) := tickers[j];
        var stats := coint(tickerA, dfA, tickerB, dfB, AdjClose, AdjClose);
        categoryResults := categoryResults + [PairResult(tickerA, tickerB, category,
          stats.pValue, stats.beta, stats.adfStatistic, RegularData(dfA, dfB))];
      }
      assert categoryResults == RegularResults(category, tickers, coint);
    }
    r := Success(categoryResults);
  }

  /** Once a prefix of the known-pairs entries has raised, so has the whole. */
  lemma {:induction false} PrefixFailurePersists(category: string, tickers: Tickers, k: nat, coint: Oracle)
    requires k <= |tickers|
    requires KnownPairsResults(category, tickers[..k], coint).Failure?
    ensures KnownPairsResults(category, tickers, coint) == KnownPairsResults(category, tickers[..k], coint)
    decreases |tickers| - k
  {
    if k < |tickers| {
      assert tickers[..k + 1][..k] == tickers[..k];
      PrefixFailurePersists(category, tickers, k + 1, coint);
    } else {
      assert tickers[..k] == tickers;
    }
  }

  /** A regular category never raises and yields n(n-1)/2 results, each
      with its sector set to the category. */
  lemma RegularCategoryCount(category: string, tickers: Tickers, coint: Oracle)
    requires category != KnownPairs
    ensures CategoryPairs(category, tickers, coint).Success?
    ensures |CategoryPairs(category, tickers, coint).value| == |tickers| * (|tickers| - 1) / 2
    ensures forall r :: r in CategoryPairs(category, tickers, coint).value ==> r.sector == category
  {
    IndexPairsCount(|tickers|);
  }

  /** In a regular category the pair of key positions (i, j), i < j, is
      screened at position i(2n - i - 1)/2 + (j - i - 1) of the n keys'
      combinations, named in key order and carrying the statistics the
      oracle gives for that pair. */
  lemma RegularCategoryResultAt(category: string, tickers: Tickers, coint: Oracle, i: nat, j: nat)
    requires category != KnownPairs
    requires i < j < |tickers|
    ensures 0 <= PairIndex(|tickers|, i, j) < |CategoryPairs(category, tickers, coint).value|
    ensures CategoryPairs(category, tickers, coint).value[PairIndex(|tickers|, i, j)] ==
              RegularPairResult(category, tickers, (i, j), coint)
  {
    IndexPairsAt(|tickers|, i, j);
  }

  /** Every 2-combination of the keys of a regular category is screened. */
  lemma RegularCategoryCoverage(category: string, tickers: Tickers, coint: Oracle, i: nat, j: nat)
    requires category != KnownPairs
    requires i < j < |tickers|
    ensures exists k :: 0 <= k < |CategoryPairs(category, tickers, coint).value| &&
              CategoryPairs(category, tickers, coint).value[k] == RegularPairResult(category, tickers, (i, j), coint)
  {
    RegularCategoryResultAt(category, tickers, coint, i, j);
  }

  /** p and q name the same two tickers, in either order. */
  predicate SameUnorderedPair(p: PairResult, q: PairResult) {
    (p.tickerA == q.tickerA && p.tickerB == q.tickerB) ||
    (p.tickerA == q.tickerB && p.tickerB == q.tickerA)
  }

  /** p holds the key positions of r's two tickers. */
  predicate AtPositions(tickers: Tickers, r: PairResult, p: IndexPair) {
    p.0 < |tickers| && p.1 < |tickers| && tickers[p.0].0 == r.tickerA && tickers[p.1].0 == r.tickerB
  }

  /** The keys of a dictionary being distinct, results follow
      `itertools.combinations` order: the key positions of an earlier
      result come lexicographically before those of a later one, and no
      unordered pair of tickers is screened twice. */
  lemma RegularPairsOrderedAndDistinct(category: string, tickers: Tickers, coint: Oracle)
    requires category != KnownPairs
    requires Distinct(Keys(tickers))
    ensures var rs := CategoryPairs(category, tickers, coint).value;
      forall a, b, p: IndexPair, q: IndexPair :: 0 <= a < b < |rs| && AtPositions(tickers, rs[a], p) && AtPositions(tickers, rs[b], q) ==>
        LexLess(p, q)
    ensures var rs := CategoryPairs(category, tickers, coint).value;
      forall a, b :: 0 <= a < b < |rs| ==> !SameUnorderedPair(rs[a], rs[b])
  {
    var n := |tickers|;
    var ps := IndexPairs(n);
    var rs := CategoryPairs(category, tickers, coint).value;
    var keys := Keys(tickers);
    IndexPairsOrdered(n);
    forall a, b, p: IndexPair, q: IndexPair | 0 <= a < b < |rs| && AtPositions(tickers, rs[a], p) && AtPositions(tickers, rs[b], q)
      ensures LexLess(p, q)
    {
      RegularResultPositions(category, tickers, coint, a);
      RegularResultPositions(category, tickers, coint, b);
      assert keys[p.0] == keys[ps[a].0] && keys[p.1] == keys[ps[a].1];
      assert keys[q.0] == keys[ps[b].0] && keys[q.1] == keys[ps[b].1];
      assert p == ps[a] && q == ps[b];
    }
    forall a, b | 0 <= a < b < |rs|
      ensures !SameUnorderedPair(rs[a], rs[b])
    {
      RegularResultPositions(category, tickers, coint, a);
      RegularResultPositions(category, tickers, coint, b);
      var (i, j) := ps[a];
      var (i', j') := ps[b];
      assert keys[i] == rs[a].tickerA && keys[j] == rs[a].tickerB;
      assert keys[i'] == rs[b].tickerA && keys[j'] == rs[b].tickerB;
      assert i != i' || j != j';
      assert i != j' || j != i';
    }
  }

  /** The result at position a of a regular category is named by the keys
      at the positions of the a-th combination. */
  lemma RegularResultPositions(category: string, tickers: Tickers, coint: Oracle, a: nat)
    requires category != KnownPairs
    requires a < |CategoryPairs(category, tickers, coint).value|
    ensures a < |IndexPairs(|tickers|)|
    ensures var p := IndexPairs(|tickers|)[a];
      p.0 < p.1 < |tickers| && AtPositions(tickers, CategoryPairs(category, tickers, coint).value[a], p)
  {
  }

  /** The known-pairs category raises exactly when some entry's frame has
      fewer than three columns; otherwise it yields one result per entry,
      in dictionary order, whose tickers are the prefixes of columns 0 and
      2 and whose statistics are the oracle's for those two columns. */
  lemma {:induction false} KnownCategoryPairs(tickers: Tickers, coint: Oracle)
    ensures CategoryPairs(KnownPairs, tickers, coint).Failure? <==>
              exists k :: 0 <= k < |tickers| && |tickers[k].1.columns| < 3
    ensures CategoryPairs(KnownPairs, tickers, coint).Success? ==>
              var rs := CategoryPairs(KnownPairs, tickers, coint).value;
              && |rs| == |tickers|
              && forall k :: 0 <= k < |tickers| ==>
                   KnownPairResult(KnownPairs, tickers[k], coint) == Success(rs[k])
  {
    if |tickers| > 0 {
      var init := tickers[..|tickers| - 1];
      KnownCategoryPairs(init, coint);
      forall k | 0 <= k < |init| ensures init[k] == tickers[k] { }
    }
  }

  /** With the loader's column names `{A}_adj_close, {A}_vol, {B}_adj_close,
      {B}_vol` and tickers without underscores, a known-pairs entry is
      screened under its own two tickers. */
  lemma KnownPairNamesRecovered(key: string, a: string, b: string, dates: seq<Date>, coint: Oracle)
    requires '_' !in a && '_' !in b
    ensures var df := Frame([a + "_adj_close", a + "_vol", b + "_adj_close", b + "_vol"], dates);
      var r := KnownPairResult(KnownPairs, (key, df), coint);
      && r.Success?
      && r.value.tickerA == a && r.value.tickerB == b
      && r.value.pValue == coint(a, df, b, df, a + "_adj_close", b + "_adj_close").pValue
  {
    assert a + "_adj_close" == a + "_" + "adj_close";
    assert b + "_adj_close" == b + "_" + "adj_close";
    TickerOfColumnRecovers(a, "adj_close");
    TickerOfColumnRecovers(b, "adj_close");
  }

  /** The p-values of a list of results, position by position. */
  function PValues(rs: seq<PairResult>): (ps: seq<real>)
    ensures |ps| == |rs|
    ensures forall k :: 0 <= k < |rs| ==> ps[k] == rs[k].pValue
  {
    seq(|rs|, k requires 0 <= k < |rs| => rs[k].pValue)
  }

  /** `min(category_results, key=lambda x: x['p_value'])`: a result with
      the smallest p-value, the earliest one when several tie. */
  function BestPair(rs: seq<PairResult>): (best: PairResult)
    requires |rs| > 0
    ensures exists k :: 0 <= k < |rs| && best == rs[k]
              && (forall j :: 0 <= j < |rs| ==> rs[k].pValue <= rs[j].pValue)
              && (forall j :: 0 <= j < k ==> rs[j].pValue > rs[k].pValue)
  {
    var k := ArgMinFirst(PValues(rs));
    rs[k]
  }

  /** The screening outcome: every result in category order (the rows of
      cointegration.csv), the best pair of each category with results (in
      category order), and the files the best pairs are saved to. */
  datatype Screening = Screening(
    allResults: seq<PairResult>,
    bestPairs: seq<(string, PairResult)>,
    pairFiles: seq<string>)

  /** `f"{sector}_{ticker_A}_{ticker_B}.csv"` for a result. */
  function PairFileName(pair: PairResult): string {
    pair.sector + "_" + pair.tickerA + "_" + pair.tickerB + ".csv"
  }

  /** Reads the two tickers back from a pair file name of a known sector:
      the name must be the sector, an underscore, and a `.csv` suffix
      around a body; ticker A is the body up to its first underscore. */
  function ParsePairFileName(sector: string, name: string): Option<(string, string)> {
    var prefix := sector + "_";
    if |name| < |prefix| + 4 || name[..|prefix|] != prefix || name[|name| - 4..] != ".csv" then None
    else
      var body := name[|prefix|..|name| - 4];
      var a := TickerOfColumn(body);
      if |a| < |body| then Some((a, body[|a| + 1..])) else None
  }

  /** The saved file name identifies the pair within its sector: parsing
      it gives back both tickers, provided ticker A has no underscore. */
  lemma PairFileNameRoundTrip(pair: PairResult)
    requires '_' !in pair.tickerA
    ensures ParsePairFileName(pair.sector, PairFileName(pair)) == Some((pair.tickerA, pair.tickerB))
  {
    var prefix := pair.sector + "_";
    var name := PairFileName(pair);
    var body := pair.tickerA + "_" + pair.tickerB;
    assert name == prefix + body + ".csv";
    assert name[..|prefix|] == prefix;
    assert name[|name| - 4..] == ".csv";
    assert name[|prefix|..|name| - 4] == body;
    TickerOfColumnRecovers(pair.tickerA, pair.tickerB);
    assert body[|pair.tickerA| + 1..] == pair.tickerB;
  }

  /** What `get_category_pairs` gave for one category: the category name
      and its results, or the error it raised. */
  type Outcome = (string, Result<seq<PairResult>>)

  /** The outcome of every category, in category order. */
  function CategoryOutcomes(data: Universe, coint: Oracle): (outs: seq<Outcome>)
    ensures |outs| == |data|
    ensures forall m :: 0 <= m < |data| ==>
              outs[m] == (data[m].0, CategoryPairs(data[m].0, data[m].1, coint))
  {
    seq(|data|, m requires 0 <= m < |data| => (data[m].0, CategoryPairs(data[m].0, data[m].1, coint)))
  }

  /** The entry a category adds to `best_pairs`: none when it has no
      results, otherwise its first minimum. */
  function BestEntry(category: string, rs: seq<PairResult>): seq<(string, PairResult)> {
    if rs == [] then [] else [(category, BestPair(rs))]
  }

  /** The loop of find_cointegrated_pairs over the outcomes visited so far:
      `all_results` and `best_pairs`, or the first error raised. */
  function Accumulate(outs: seq<Outcome>): Result<(seq<PairResult>, seq<(string, PairResult)>)> {
    if |outs| == 0 then Success(([], []))
    else
      var (category, outcome) := outs[|outs| - 1];
      match Accumulate(outs[..|outs| - 1])
      case Failure(e) => Failure(e)
      case Success(acc) =>
        match outcome
        case Failure(e) => Failure(e)
        case Success(rs) => Success((acc.0 + rs, acc.1 + BestEntry(category, rs)))
  }

  /** The file names of the saved best pairs, in order. */
  function PairFiles(best: seq<(string, PairResult)>): (names: seq<string>)
    ensures |names| == |best|
    ensures forall k :: 0 <= k < |best| ==> names[k] == PairFileName(best[k].1)
  {
    seq(|best|, k requires 0 <= k < |best| => PairFileName(best[k].1))
  }

  /** What find_cointegrated_pairs produces (or raises): the first error of
      a category, or, when no category yielded a result, the key error of
      selecting the numeric columns of an empty table. */
  function Screen(data: Universe, coint: Oracle): Result<Screening> {
    match Accumulate(CategoryOutcomes(data, coint))
    case Failure(e) => Failure(e)
    case Success(acc) =>
      if acc.0 == [] then Failure(EmptyResultsError)
      else Success(Screening(acc.0, acc.1, PairFiles(acc.1)))
  }

  /** find_cointegrated_pairs: screen every category in order, collect all
      results, keep each non-empty category's first minimum, then name the
      file of every best pair. Reading and writing CSV files is left out. */
  method FindCointegratedPairs(data: Universe, coint: Oracle) returns (r: Result<Screening>)
    ensures r == Screen(data, coint)
  {
    var acc := ScreenCategories(data, coint);
    if acc.Failure? {
      return Failure(acc.error);
    }
    var (allResults, bestPairs) := acc.value;
    if allResults == [] {
      return Failure(EmptyResultsError);
    }
    var pairFiles := NamePairFiles(bestPairs);
    r := Success(Screening(allResults, bestPairs, pairFiles));
  }

  /** The category loop of find_cointegrated_pairs: extend `all_results`
      with every category's results and `best_pairs` with its first
      minimum, stopping at the first category that raises. */
  method ScreenCategories(data: Universe, coint: Oracle)
    returns (r: Result<(seq<PairResult>, seq<(string, PairResult)>)>)
    ensures r == Accumulate(CategoryOutcomes(data, coint))
  {
    ghost var outs := CategoryOutcomes(data, coint);
    var allResults: seq<PairResult> := [];
    var bestPairs: seq<(string, PairResult)> := [];
    for m := 0 to |data|
      invariant Accumulate(outs[..m]) == Success((allResults, bestPairs))
    {
      ghost var bestBefore := bestPairs;
      var (category, tickers) := data[m];
      var categoryResults := GetCategoryPairs(category, tickers, coint);
      assert outs[m] == (category, categoryResults);
      AccumulateStep(outs, m);
      if categoryResults.Failure? {
        AccumulateFailurePersists(outs, m + 1);
        return Failure(categoryResults.error);
      }
      ghost var entry := BestEntry(category, categoryResults.value);
      allResults := allResults + categoryResults.value;
      if categoryResults.value != [] {
        var bestPair := BestPair(categoryResults.value);
        bestPairs := bestPairs + [(category, bestPair)];
      } else {
        assert entry == [];
      }
      assert bestPairs == bestBefore + entry;
    }
    assert outs[..|data|] == outs;
    r := Success((allResults, bestPairs));
  }

  /** The save loop of find_cointegrated_pairs: the file name
      save_pair_data builds for each best pair, in order. */
  method NamePairFiles(bestPairs: seq<(string, PairResult)>) returns (pairFiles: seq<string>)
    ensures pairFiles == PairFiles(bestPairs)
  {
    pairFiles := [];
    for k := 0 to |bestPairs|
      invariant pairFiles == PairFiles(bestPairs[..k])
    {
      var pair := bestPairs[k].1;
      pairFiles := pairFiles + [pair.sector + "_" + pair.tickerA + "_" + pair.tickerB + ".csv"];
    }
    assert bestPairs[..|bestPairs|] == bestPairs;
  }

  lemma AccumulateStep(outs: seq<Outcome>, m: nat)
    requires m < |outs|
    requires Accumulate(outs[..m]).Success?
    ensures var acc := Accumulate(outs[..m]).value;
      Accumulate(outs[..m + 1]) ==
        match outs[m].1
        case Failure(e) => Failure(e)
        case Success(rs) => Success((acc.0 + rs, acc.1 + BestEntry(outs[m].0, rs)))
  {
    assert outs[..m + 1][..m] == outs[..m];
  }

  /** Once a prefix of the outcomes holds an error, the whole raises it. */
  lemma {:induction false} AccumulateFailurePersists(outs: seq<Outcome>, m: nat)
    requires m <= |outs|
    requires Accumulate(outs[..m]).Failure?
    ensures Accumulate(outs) == Accumulate(outs[..m])
    decreases |outs| - m
  {
    if m < |outs| {
      assert outs[..m + 1][..m] == outs[..m];
      AccumulateFailurePersists(outs, m + 1);
    } else {
      assert outs[..m] == outs;
    }
  }

  /** The loop raises exactly when some category raised. */
  lemma {:induction false} AccumulateRaisesIff(outs: seq<Outcome>)
    ensures Accumulate(outs).Failure? <==> exists m :: 0 <= m < |outs| && outs[m].1.Failure?
  {
    if |outs| > 0 {
      var init := outs[..|outs| - 1];
      AccumulateRaisesIff(init);
      if exists m :: 0 <= m < |init| && init[m].1.Failure? {
        var m :| 0 <= m < |init| && init[m].1.Failure?;
        assert outs[m] == init[m];
      }
      if exists m :: 0 <= m < |outs| && outs[m].1.Failure? {
        var m :| 0 <= m < |outs| && outs[m].1.Failure?;
        if m < |init| {
          assert init[m] == outs[m];
        }
      }
    }
  }

  /** Reference definition of `all_results`: the results of the outcomes
      concatenated, first category first. */
  ghost function AllResults(outs: seq<Outcome>): seq<PairResult> {
    if |outs| == 0 then []
    else (if outs[0].1.Success? then outs[0].1.value else []) + AllResults(outs[1..])
  }

  /** Reference definition of `best_pairs`: the first minimum of every
      category with results, first category first. */
  ghost function BestPairsOf(outs: seq<Outcome>): seq<(string, PairResult)> {
    if |outs| == 0 then []
    else
      (if outs[0].1.Success? then BestEntry(outs[0].0, outs[0].1.value) else []) + BestPairsOf(outs[1..])
  }

  lemma {:induction false} ReferenceSnoc(outs: seq<Outcome>)
    requires |outs| > 0
    ensures var last := outs[|outs| - 1];
      AllResults(outs) == AllResults(outs[..|outs| - 1]) + (if last.1.Success? then last.1.value else [])
    ensures var last := outs[|outs| - 1];
      BestPairsOf(outs) ==
        BestPairsOf(outs[..|outs| - 1]) + (if last.1.Success? then BestEntry(last.0, last.1.value) else [])
  {
    if |outs| > 1 {
      ReferenceSnoc(outs[1..]);
      assert outs[1..][..|outs| - 2] == outs[..|outs| - 1][1..];
    }
  }

  /** When the loop does not raise, `all_results` is the categories'
      results concatenated in category order and `best_pairs` holds, in
      category order, the first minimum of each category that has results;
      a category without results gets no entry. */
  lemma {:induction false} AccumulateResults(outs: seq<Outcome>)
    requires Accumulate(outs).Success?
    ensures Accumulate(outs).value == (AllResults(outs), BestPairsOf(outs))
  {
    if |outs| > 0 {
      var init := outs[..|outs| - 1];
      assert Accumulate(init).Success?;
      AccumulateResults(init);
      ReferenceSnoc(outs);
    }
  }

  /** The same, for the categories of data: every best pair is the first
      minimum (BestPair) of its own category's results. */
  lemma ScreenResults(data: Universe, coint: Oracle)
    requires Screen(data, coint).Success?
    ensures var outs := CategoryOutcomes(data, coint);
      && Screen(data, coint).value.allResults == AllResults(outs)
      && Screen(data, coint).value.bestPairs == BestPairsOf(outs)
      && Screen(data, coint).value.pairFiles == PairFiles(BestPairsOf(outs))
  {
    AccumulateResults(CategoryOutcomes(data, coint));
  }

  /** The concatenated results are empty exactly when every category that
      did not raise yielded no result. */
  lemma {:induction false} AllResultsEmpty(outs: seq<Outcome>)
    ensures AllResults(outs) == [] <==>
              forall m :: 0 <= m < |outs| && outs[m].1.Success? ==> outs[m].1.value == []
  {
    if |outs| > 0 {
      var rest := outs[1..];
      AllResultsEmpty(rest);
      if AllResults(outs) == [] {
        forall m | 0 <= m < |outs| && outs[m].1.Success? ensures outs[m].1.value == [] {
          if m > 0 {
            assert outs[m] == rest[m - 1];
          }
        }
      }
      if forall m :: 0 <= m < |outs| && outs[m].1.Success? ==> outs[m].1.value == [] {
        forall m | 0 <= m < |rest| && rest[m].1.Success? ensures rest[m].1.value == [] {
          assert rest[m] == outs[m + 1];
        }
      }
    }
  }

  /** Screening raises exactly when some category raises, or when no
      category raises and none yields a result (the empty results table
      has no numeric columns to select). In the second case the error is
      that key error. */
  lemma ScreenRaisesIff(data: Universe, coint: Oracle)
    ensures Screen(data, coint).Failure? <==>
              || (exists m :: 0 <= m < |data| && CategoryPairs(data[m].0, data[m].1, coint).Failure?)
              || (forall m :: 0 <= m < |data| ==> CategoryPairs(data[m].0, data[m].1, coint) == Success([]))
    ensures Screen(data, coint).Failure? &&
            (forall m :: 0 <= m < |data| ==> CategoryPairs(data[m].0, data[m].1, coint).Success?) ==>
              Screen(data, coint).error == EmptyResultsError
  {
    var outs := CategoryOutcomes(data, coint);
    AccumulateRaisesIff(outs);
    if exists m :: 0 <= m < |outs| && outs[m].1.Failure? {
      var m :| 0 <= m < |outs| && outs[m].1.Failure?;
      assert CategoryPairs(data[m].0, data[m].1, coint).Failure?;
    } else {
      AccumulateResults(outs);
      AllResultsEmpty(outs);
      assert forall m :: 0 <= m < |data| ==> CategoryPairs(data[m].0, data[m].1, coint).Success? by {
        forall m | 0 <= m < |data| ensures CategoryPairs(data[m].0, data[m].1, coint).Success? {
          assert outs[m].1 == CategoryPairs(data[m].0, data[m].1, coint);
        }
      }
    }
  }
}
