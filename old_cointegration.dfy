/** The older single-list screener (old/src/cointegration.py): keep the
    tickers whose download succeeds, test every 2-combination of them, and
    return the first pair with the smallest p-value. Downloading is an
    abstract success predicate and the cointegration test an abstract
    oracle on the two tickers' downloaded frames. */
module OldCointegration {
  import opened Data
  import opened Combinations
  import opened Selection

  /** Whether `download_stock_data(ticker, start_date, end_date)` reports
      success for a ticker. */
  type Downloader = string -> bool

  /** `cointegration_pvalue` on the downloaded frames of two tickers. */
  type PairOracle = (string, string) -> Stats

  /** The returned record of the best pair. */
  datatype BestPair = BestPair(tickerA: string, tickerB: string, pValue: real, beta: real, adfStatistic: real)

  /** `best_p_value`: +infinity until a pair has been kept. */
  datatype Bound = Finite(value: real) | Infinity

  /** `p_value < best_p_value`. */
  predicate Below(p: real, bound: Bound) {
    bound.Infinity? || p < bound.value
  }

  /** The keys of `ticker_data` after the tickers have been visited: a
      ticker whose download succeeds is inserted, and re-inserting a key
      already present keeps its first position. */
  function Survivors(tickers: seq<string>, downloaded: Downloader): seq<string> {
    if |tickers| == 0 then []
    else
      var keys := Survivors(tickers[..|tickers| - 1], downloaded);
      var t := tickers[|tickers| - 1];
      if downloaded(t) && t !in keys then keys + [t] else keys
  }

  /** Exactly the tickers whose download succeeds are kept, each once. */
  lemma {:induction false} SurvivorsMeaning(tickers: seq<string>, downloaded: Downloader)
    ensures Distinct(Survivors(tickers, downloaded))
    ensures forall t :: t in Survivors(tickers, downloaded) <==> t in tickers && downloaded(t)
  {
    if |tickers| > 0 {
      var init := tickers[..|tickers| - 1];
      SurvivorsMeaning(init, downloaded);
      assert tickers == init + [tickers[|tickers| - 1]];
    }
  }

  /** Reference definition: the tickers whose download succeeds, in input
      order. */
  function Successful(tickers: seq<string>, downloaded: Downloader): seq<string> {
    if |tickers| == 0 then []
    else (if downloaded(tickers[0]) then [tickers[0]] else []) + Successful(tickers[1..], downloaded)
  }

  lemma {:induction false} SuccessfulSnoc(tickers: seq<string>, downloaded: Downloader)
    requires |tickers| > 0
    ensures var t := tickers[|tickers| - 1];
      Successful(tickers, downloaded) ==
        Successful(tickers[..|tickers| - 1], downloaded) + (if downloaded(t) then [t] else [])
  {
    if |tickers| > 1 {
      SuccessfulSnoc(tickers[1..], downloaded);
      assert tickers[1..][..|tickers| - 2] == tickers[..|tickers| - 1][1..];
    }
  }

  /** With no ticker listed twice, the screened tickers are the successful
      ones in input order. */
  lemma {:induction false} SurvivorsKeepInputOrder(tickers: seq<string>, downloaded: Downloader)
    requires Distinct(tickers)
    ensures Survivors(tickers, downloaded) == Successful(tickers, downloaded)
  {
    if |tickers| > 0 {
      var init := tickers[..|tickers| - 1];
      var t := tickers[|tickers| - 1];
      SurvivorsKeepInputOrder(init, downloaded);
      SurvivorsMeaning(init, downloaded);
      SuccessfulSnoc(tickers, downloaded);
      assert t !in init by {
        forall i | 0 <= i < |init| ensures init[i] != t {
          assert tickers[i] != tickers[|tickers| - 1];
        }
      }
    }
  }

  /** The record kept for the pair of key positions p. */
  function Candidate(keys: seq<string>, p: IndexPair, coint: PairOracle): BestPair
    requires p.0 < |keys| && p.1 < |keys|
  {
    var stats := coint(keys[p.0], keys[p.1]);
    BestPair(keys[p.0], keys[p.1], stats.pValue, stats.beta, stats.adfStatistic)
  }

  /** The p-values of the candidate pairs, in combination order. */
  function CandidatePValues(keys: seq<string>, coint: PairOracle): (ps: seq<real>)
    ensures |ps| == |IndexPairs(|keys|)|
    ensures forall k :: 0 <= k < |ps| ==>
              ps[k] == Candidate(keys, IndexPairs(|keys|)[k], coint).pValue
  {
    var combos := IndexPairs(|keys|);
    seq(|combos|, k requires 0 <= k < |combos| => Candidate(keys, combos[k], coint).pValue)
  }

  /** The first candidate of `keys` with the smallest p-value, or None
      when there is no candidate pair. */
  function BestCandidate(keys: seq<string>, coint: PairOracle): Option<BestPair> {
    var combos := IndexPairs(|keys|);
    if |combos| == 0 then None
    else
      var k := ArgMinFirst(CandidatePValues(keys, coint));
      Some(Candidate(keys, combos[k], coint))
  }

  /** What find_cointegrated_pairs returns: the best candidate among the
      tickers that download. */
  function ScreenedBest(tickers: seq<string>, downloaded: Downloader, coint: PairOracle): Option<BestPair> {
    BestCandidate(Survivors(tickers, downloaded), coint)
  }

  /** find_cointegrated_pairs: insert the tickers that download into
      `ticker_data`, then take the running minimum over its keys. Reading
      the CSV files and the date range are left out. */
  method FindCointegratedPairs(tickers: seq<string>, downloaded: Downloader, coint: PairOracle)
    returns (best: Option<BestPair>)
    ensures best == ScreenedBest(tickers, downloaded, coint)
  {
    var tickerData: seq<string> := [];
    for k := 0 to |tickers|
      invariant tickerData == Survivors(tickers[..k], downloaded)
    {
      assert tickers[..k + 1][..k] == tickers[..k];
      var ticker := tickers[k];
      if downloaded(ticker) && ticker !in tickerData {
        tickerData := tickerData + [ticker];
      }
    }
    assert tickers[..|tickers|] == tickers;
    best := RunningMinimum(tickerData, coint);
  }

  /** The second loop of find_cointegrated_pairs: walk the 2-combinations
      of the keys, keeping a pair whenever its p-value is strictly below
      `best_p_value`. */
  method RunningMinimum(keys: seq<string>, coint: PairOracle) returns (best: Option<BestPair>)
    ensures best == BestCandidate(keys, coint)
  {
    ghost var ps := CandidatePValues(keys, coint);
    var combos := IndexPairs(|keys|);
    best := None;
    var bestP := Infinity;
    for k := 0 to |combos|
      invariant k == 0 ==> best == None && bestP == Infinity
      invariant k > 0 ==> best == Some(Candidate(keys, combos[ArgMinFirst(ps[..k])], coint))
      invariant k > 0 ==> bestP == Finite(ps[ArgMinFirst(ps[..k])])
    {
      var (i, j) := combos[k];
      var tickerA, tickerB := keys[i], keys[j];
      var stats := coint(tickerA, tickerB);
      assert ps[k] == stats.pValue;
      if k > 0 {
        ArgMinFirstStep(ps, k);
      }
      if Below(stats.pValue, bestP) {
        bestP := Finite(stats.pValue);
        best := Some(BestPair(tickerA, tickerB, stats.pValue, stats.beta, stats.adfStatistic));
      }
    }
    assert |combos| > 0 ==> ps[..|combos|] == ps;
  }

  /** There is no result exactly when fewer than two tickers download. */
  lemma ScreenedBestNoneIff(tickers: seq<string>, downloaded: Downloader, coint: PairOracle)
    ensures ScreenedBest(tickers, downloaded, coint).None? <==> |Survivors(tickers, downloaded)| < 2
  {
    IndexPairsCount(|Survivors(tickers, downloaded)|);
  }

  /** `best` is the candidate at position k of the combination order, its
      p-value is at most every candidate's, and every candidate before
      position k has a strictly larger p-value. */
  predicate FirstMinimumAt(keys: seq<string>, coint: PairOracle, k: int, best: BestPair) {
    var combos := IndexPairs(|keys|);
    && 0 <= k < |combos|
    && best == Candidate(keys, combos[k], coint)
    && (forall j :: 0 <= j < |combos| ==> best.pValue <= Candidate(keys, combos[j], coint).pValue)
    && (forall j :: 0 <= j < k ==> best.pValue < Candidate(keys, combos[j], coint).pValue)
  }

  /** The returned pair is a candidate whose statistics are the oracle's
      for that pair; its p-value is at most every candidate's, and every
      candidate visited before it has a strictly larger p-value. */
  lemma ScreenedBestIsFirstMinimum(tickers: seq<string>, downloaded: Downloader, coint: PairOracle)
    requires ScreenedBest(tickers, downloaded, coint).Some?
    ensures var best := ScreenedBest(tickers, downloaded, coint).value;
      && coint(best.tickerA, best.tickerB) == Stats(best.pValue, best.beta, best.adfStatistic)
      && exists k :: FirstMinimumAt(Survivors(tickers, downloaded), coint, k, best)
  {
    var keys := Survivors(tickers, downloaded);
    var k := ArgMinFirst(CandidatePValues(keys, coint));
    CandidateFirstMinimum(keys, coint);
    assert ScreenedBest(tickers, downloaded, coint).value == Candidate(keys, IndexPairs(|keys|)[k], coint);
  }

  /** The same over the surviving keys: the candidate at the first minimum
      of the p-values has the oracle's statistics and is a first minimum
      among all candidates. */
  lemma CandidateFirstMinimum(keys: seq<string>, coint: PairOracle)
    requires |IndexPairs(|keys|)| > 0
    ensures var k := ArgMinFirst(CandidatePValues(keys, coint));
      var best := Candidate(keys, IndexPairs(|keys|)[k], coint);
      && coint(best.tickerA, best.tickerB) == Stats(best.pValue, best.beta, best.adfStatistic)
      && FirstMinimumAt(keys, coint, k, best)
  {
    var ps := CandidatePValues(keys, coint);
    var combos := IndexPairs(|keys|);
    var k := ArgMinFirst(ps);
    var best := Candidate(keys, combos[k], coint);
    forall j | 0 <= j < |combos| ensures best.pValue <= Candidate(keys, combos[j], coint).pValue {
      assert ps[j] == Candidate(keys, combos[j], coint).pValue;
    }
    forall j | 0 <= j < k ensures best.pValue < Candidate(keys, combos[j], coint).pValue {
      assert ps[j] == Candidate(keys, combos[j], coint).pValue;
    }
    var stats := coint(best.tickerA, best.tickerB);
    assert stats == Stats(stats.pValue, stats.beta, stats.adfStatistic);
  }
}
