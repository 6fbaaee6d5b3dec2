# statarb-engine pair screening, modelled in Dafny

This project models the combinatorial core of the statarb-engine pipeline.
That core decides which price series are compared, which pairs of tickers
are tested for cointegration, and which pair wins. It has three parts:

- **Date alignment** (`src/preprocess.py`). `find_common_dates`
  intersects the date indices of a category's frames and sorts the result.
  `process_category` writes nothing when there are no frames or no common
  dates; otherwise it writes one aligned file per ticker. This is module
  `Preprocess` in `preprocess.dfy`.
- **Per-category screening** (`src/cointegration.py`).
  - `get_category_pairs` lists one result per 2-combination of a regular
    category's tickers. For the `known_pairs` category it lists one result
    per pre-joined frame, naming the frame's two tickers by splitting its
    column names.
  - `find_cointegrated_pairs` concatenates all results and keeps each
    category's first minimum by p-value. It then saves that pair under
    `{sector}_{ticker_A}_{ticker_B}.csv`.
  - This is module `Cointegration` in `cointegration.dfy`.
- **The older single-list screener** (`old/src/cointegration.py`). It
  keeps the tickers whose download succeeds, walks their 2-combinations and
  keeps a running minimum with a strict `<`. This is module
  `OldCointegration` in `old_cointegration.dfy`.

Shared pieces:
- `data.dfy`: frames, statistics, and the option and result types.
- `combinations.dfy`: the order in which `itertools.combinations(keys, 2)`
  yields pairs of positions.
- `selection.dfy`: the first position of a minimum, which both Python's
  `min(..., key=...)` and the old strict-`<` loop compute.

Modelling choices:
- A Python dictionary is a sequence of (key, value) pairs in insertion
  order. The dictionaries the new code receives (`data`, `tickers`,
  `dfs`) have distinct keys. `best_pairs[category] = best_pair` is
  therefore modelled as an append, which matches the assignment when the
  category keys are distinct.
- The old code's `ticker_data[ticker] = df` is a real dictionary insert. A
  ticker listed twice keeps the position of its first successful download
  (`Survivors`), because the download predicate gives the same answer for
  every occurrence of a ticker.
- Dates are integers. A frame is its column names and its date index.
- `cointegration_pvalue` is an uninterpreted function passed in as a
  parameter, and p-values are reals.
- `float('inf')` is the `Infinity` case of `Bound`.
- A `known_pairs` frame with fewer than three columns makes
  `df.columns[0]` or `df.columns[2]` raise an index error. The model returns
  `Failure(ColumnIndexError(key))`, and the screening propagates it.
- When no category yields a result, `all_results` is empty, and the table
  built from it has no columns. Selecting its `p_value`, `beta` and
  `adf_statistic` columns then raises a key error. The model returns
  `Failure(EmptyResultsError)`.
- The download check of the old code is an uninterpreted predicate passed
  in as a parameter.

Each loop of the source is a method proved against a specification
function (`FindCommonDates`, `GetCategoryPairs`, `ScreenCategories`,
`NamePairFiles`, `OldCointegration.FindCointegratedPairs`,
`OldCointegration.RunningMinimum`). The
properties the source promises are lemmas about those functions.

## Model

| member | source | states |
|---|---|---|
| Preprocess.FindCommonDates | src/preprocess.py:33-52 | The result is strictly ascending, so it has no duplicates, and a date is in it exactly when every frame's index contains it. With no frames, or when a frame has no dates in common with the others, nothing is returned. |
| Preprocess.CommonSoFarMeaning | src/preprocess.py:43-48 | The running `common_dates` is None exactly when no frame has been visited yet. Otherwise it holds exactly the dates present in every visited frame. |
| Preprocess.SortedSeq | src/preprocess.py:52 | `sorted(list(s))` is strictly ascending and has exactly the elements of the set. |
| Preprocess.CommonDatesOrderIndependent | src/preprocess.py:44-48 | Two frame mappings with the same date indices, in any order and under any ticker names, have the same common dates. |
| Preprocess.EmptyIndexGivesNoDates | src/preprocess.py:48-51 | If any frame has an empty index, the result is `[]`. |
| Preprocess.SingleFrameDates | src/preprocess.py:45-52 | With one frame, the result is that frame's index, deduplicated and sorted. |
| Preprocess.ProcessCategory | src/preprocess.py:93-111 | Nothing is written exactly when there are no frames or no common date. Otherwise one file per ticker is written, in mapping order, each under the category, named by its ticker, and restricted to the common dates. |
| Combinations.IndexPairsCount | src/cointegration.py:75 | n keys give exactly n(n-1)/2 combinations, and none at all when n < 2. |
| Combinations.IndexPairsMembers | src/cointegration.py:75 | A pair of positions (i, j) is enumerated exactly when i < j < n. |
| Combinations.IndexPairsOrdered | src/cointegration.py:75 | The enumeration is strictly increasing in lexicographic order, which is `itertools.combinations` order, so no pair appears twice. |
| Selection.ArgMinFirst | src/cointegration.py:139 | The chosen position holds a value at most every value, and every earlier position holds a strictly larger value. |
| Selection.ArgMinFirstUnique | src/cointegration.py:139 | Any position meeting the first-minimum property is the chosen one. |
| Cointegration.TickerOfColumn | src/cointegration.py:55-56 | `column.split('_')[0]` is a prefix of the column with no underscore. When it is shorter than the column, an underscore follows it. |
| Cointegration.TickerOfColumnRecovers | src/data_loader.py:95-96 | Splitting a `{ticker}_{column}` name gives back the ticker when the ticker has no underscore. |
| Cointegration.GetCategoryPairs | src/cointegration.py:46-91 | The loops produce `CategoryPairs`: one result per entry for `known_pairs`, raising at the first frame without a column 2; one result per 2-combination for any other category. |
| Cointegration.PrefixFailurePersists | src/cointegration.py:53-73 | Once an entry of `known_pairs` has raised, the whole call raises that same error. |
| Cointegration.KnownCategoryPairs | src/cointegration.py:53-73 | `known_pairs` raises exactly when some frame has fewer than three columns. Otherwise it gives one result per entry, in mapping order. Each result is named by the prefixes of columns 0 and 2 and carries the oracle's statistics for those two columns. |
| Cointegration.KnownPairNamesRecovered | src/cointegration.py:55-61 | With the loader's column names and tickers without underscores, a known pair is screened under its own two tickers, with the oracle's p-value for their price columns. |
| Cointegration.RegularCategoryCount | src/cointegration.py:74-89 | A regular category never raises an index error. It yields exactly n(n-1)/2 results, each with `sector` equal to the category. |
| Combinations.IndexPairsAt | src/cointegration.py:75 | Of n keys, the pair of positions (i, j) with i < j is yielded at position i(2n - i - 1)/2 + (j - i - 1). |
| Cointegration.RegularCategoryResultAt | src/cointegration.py:75-89 | For key positions i < j, the result at position i(2n - i - 1)/2 + (j - i - 1) is the pair (i, j). It is named in key order and carries the oracle's statistics on the `adj_close` columns. |
| Cointegration.RegularCategoryCoverage | src/cointegration.py:75-76 | Every pair of key positions i < j has a result. |
| Cointegration.RegularPairsOrderedAndDistinct | src/cointegration.py:75-79 | With distinct keys, the results follow combination order: the key positions of an earlier result's tickers come lexicographically before those of a later result's. No unordered pair of tickers is screened twice. |
| Cointegration.BestPair | src/cointegration.py:137-140 | The best pair is one of the category's results. Its p-value is at most every result's, and every earlier result's p-value is strictly larger. |
| Cointegration.PairFileNameRoundTrip | src/cointegration.py:119 | Parsing the saved file name within its sector gives back both tickers, provided ticker A has no underscore. |
| Cointegration.FindCointegratedPairs | src/cointegration.py:122-156 | The method's result is `Screen`. That is every result, the best pairs and their file names; or the first error a category raised; or the key error when no category yielded a result. |
| Cointegration.ScreenCategories | src/cointegration.py:130-140 | The category loop produces the fold `Accumulate` over the categories' outcomes. |
| Cointegration.NamePairFiles | src/cointegration.py:155-156 | The save loop names, in order, one file per best pair, each the `sector_A_B.csv` name that `save_pair_data` builds at line 119. |
| Cointegration.AccumulateRaisesIff | src/cointegration.py:133-140 | The loop raises exactly when some visited category raised. |
| Cointegration.ScreenRaisesIff | src/cointegration.py:133-147 | Screening raises exactly in two cases: `get_category_pairs` raises for some category, or every category yields no result. When no category raised, the error is the key error of the empty table. |
| Cointegration.AllResultsEmpty | src/cointegration.py:133-135 | The concatenated results are empty exactly when every category that did not raise yielded nothing. |
| Cointegration.AccumulateResults | src/cointegration.py:133-140 | The loop's two accumulators are the reference definitions. `all_results` is the category results concatenated in category order. `best_pairs` holds the first minimum of each category with results, and nothing for an empty category. |
| Cointegration.ScreenResults | src/cointegration.py:130-156 | The same for a whole screening. The saved file names are those of the reference best pairs. |
| OldCointegration.SurvivorsMeaning | old/src/cointegration.py:65-70 | The screened tickers are exactly the listed tickers whose download succeeds, each once. |
| OldCointegration.SurvivorsKeepInputOrder | old/src/cointegration.py:65-70 | With no ticker listed twice, the screened tickers are the successful ones in input order. |
| OldCointegration.FindCointegratedPairs | old/src/cointegration.py:47-92 | The filter loop and the strict running minimum over the combinations compute `ScreenedBest`. |
| OldCointegration.RunningMinimum | old/src/cointegration.py:73-90 | The loop over the combinations with a strict `<` against `best_p_value` keeps `BestCandidate`: the first candidate with the smallest p-value, or None without a candidate. |
| OldCointegration.ScreenedBestNoneIff | old/src/cointegration.py:73-92 | None is returned exactly when fewer than two distinct tickers download, so exactly when no pair is screened. |
| OldCointegration.ScreenedBestIsFirstMinimum | old/src/cointegration.py:73-90 | The returned pair is a screened combination, and its statistics are the oracle's for that same pair. Its p-value is at most every screened pair's, and every pair visited before it has a strictly larger p-value. |

## Left out

- The internals of `cointegration_pvalue` (log prices, least-squares regression, the Augmented Dickey-Fuller test) are floating-point work in foreign libraries. They are an uninterpreted function parameter.
- NaN or infinite p-values are not modelled, because p-values are reals. Under NaN, `min` and `<` do not give a first minimum.
- Reading and writing CSV files, `glob`, `os.makedirs`, logging and the date range arguments are I/O.
- `process_and_save_ticker` is modelled only through the dates each file is restricted to. Its `df.loc[...].dropna()` row filtering is pandas behaviour over floats.
- `save_pair_data` is modelled only through the file name. The log-price frame and its `round(4)` are floating point.
- The `round(4)` of the `cointegration.csv` columns is floating point.
- `download_stock_data` is an uninterpreted success predicate, so every occurrence of a ticker listed twice gets the same answer. The source makes one network call per occurrence, and those calls can disagree. The model's claim that a repeated ticker keeps its first position therefore holds only of its first successful download. A later successful download replaces the frame under the same key; that frame is not modelled because the old oracle is keyed by ticker names.
- `read_category_data` and `get_category_directories` are file-system reads.
- The frames of a category are the model's input.
- `Cointegration.PairFileNameRoundTrip` requires that ticker A has no underscore. Otherwise the name does not identify the pair. Within one call, two sectors can collide: sector `a` with the pair (`b_c`, `d`) and sector `a_b` with the pair (`c`, `d`) both save to `a_b_c_d.csv`, and the later save overwrites the earlier.
- `Cointegration.RegularCategoryCount` and `Cointegration.ScreenRaisesIff` hold for a test that always returns, because the oracle is a total function. In the source, `cointegration_pvalue` raises a key error for a regular frame without an `adj_close` column. The Augmented Dickey-Fuller test also raises on a constant or too-short residual series. Nothing catches either, so both abort `get_category_pairs` and `find_cointegrated_pairs`. These exceptions are not modelled.
- The placeholder metrics (`calculate_risk_metrics`, `calculate_pair_statistics`) are not part of this model. They return constants.
- The web backend, the configuration modules and `main.py` are not part of this model.
