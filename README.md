# Statistical-arbitrage pairs trading: verified model of the core

This project is a Dafny model of the three computational routines of a
pairs-trading pipeline, with proofs of what each promises:

- **Backtest** (`backtest.dfy`, module `Backtest`): the position machine of
  `backtest`. The position is short (-1), flat (0) or long (+1). It is driven day
  by day by a z-score series through a priority-ordered transition rule, `Next`.
  A flat cost is charged on every change of position, and one P&L value is
  emitted per day after the first. `Backtest` is a loop method proved against
  the pure `PositionAt` and `DailyPnl` functions. A z-score that pandas would hold
  as NaN is `None`: every comparison with it is false, so the position is held.
- **Pair screening and ranking** (`pair_selection.dfy`, module `PairSelection`):
  `find_cointegrated_pairs`. It visits every column pair `i < j` in nested-loop
  order, inner-joins the two columns on the rows where both prices are present,
  and skips a pair whose overlap is shorter than `min_obs`. Every other pair is
  recorded with the p-value of the cointegration test. The records are
  stable-sorted by p-value. The result is the records with p-value at most the
  threshold, or every record when none qualifies. The Engle–Granger test is the
  oracle `coint`, a function parameter from two aligned series to a real.
- **Maximum drawdown** (`metrics.dfy`, module `Metrics`): `max_drawdown`. The
  equity curve is the running product of `1 + r` and the peak is its running
  maximum. The drawdown is `(equity - peak) / peak`, and the result is the
  smallest drawdown.
- `wrappers.dfy` (module `Wrappers`): the `Option` type used for missing values.

Doubles are modelled as exact reals throughout.

## Model

| member | source | states |
|---|---|---|
| Backtest.Next | src/backtest.py:10-16 | One step of the if/elif chain: above `entry` short, below `-entry` long, inside the exit band flat, otherwise (and on a missing z-score) the position is held. |
| Backtest.PositionAt | src/backtest.py:4-16 | The position after day k: flat (line 4) before the loop, then one `Next` per day 1..k. |
| Backtest.TradeCost | src/backtest.py:17 | `cost` when the position changed, 0 otherwise. |
| Backtest.DailyPnl | src/backtest.py:17-18 | Day k's P&L: the position times the spread change since day k-1, less the trade cost. |
| Backtest.AllMissingZeroPnl | src/backtest.py:7-18 | With every z-score the loop reads missing, every day's P&L is 0. |
| Backtest.Backtest | src/backtest.py:3-21 | The output has `len(spread) - 1` entries (none when `len(spread) <= 1`). Entry k is day k+1's `position * (spread[k+1] - spread[k]) - trade_cost`, where the position is the transition chain from flat. When every z-score the loop reads (days 1 to `len(spread) - 1`) is missing, every entry is 0. |
| Backtest.NextHoldsOnMissing | src/backtest.py:10-16 | A missing z-score (NaN: every comparison false) leaves the position unchanged. |
| Backtest.NextPriority | src/backtest.py:10-16 | Priority order: z > entry gives -1; otherwise z < -entry gives +1; otherwise \|z\| < exit gives 0; otherwise the previous position is kept. |
| Backtest.NextForgetsPosition | src/backtest.py:10-15 | When one of the three thresholds fires, the new position does not depend on the previous one. |
| Backtest.NextIdempotent | src/backtest.py:10-16 | Applying the rule twice with the same z-score gives the same position as applying it once. |
| Backtest.NextMirror | src/backtest.py:10-16 | With a non-negative entry threshold, negating z and the previous position negates the new position. |
| Backtest.PositionDependsOnlyOnPastZ | src/backtest.py:4-16 | Day k's position is a function of z[1..k] only: never of z[0], of a later day, or of the spread. |
| Backtest.AllMissingStaysFlat | src/backtest.py:4-16 | With every z-score from day 1 on missing, the position is 0 on every day. |
| Backtest.TradeCostCharged | src/backtest.py:17 | The trade cost is `cost` exactly when the position changed, and 0 otherwise. |
| PairSelection.Joined | src/pair_selection.py:15 | The inner join of the two columns with missing values dropped has as many rows as there are row indices where both prices are present. |
| PairSelection.JoinRows | src/pair_selection.py:15 | The row labels the inner join keeps: strictly increasing, each with both prices present, and exactly the rows where both are present. |
| PairSelection.JoinedRowsContents | src/pair_selection.py:15 | Entry k of the joined series is (first column's price, second column's price) at the k-th both-present row, in row order. |
| PairSelection.PairsBefore | src/pair_selection.py:8-9 | Every pair visited by the outer loop before row `i` has first index < i and first < second < n. |
| PairSelection.AllPairs | src/pair_selection.py:8-9 | The pairs the nested loops visit, in visiting order. |
| PairSelection.PairsBeforeIncreasing | src/pair_selection.py:8-9 | The loops visit pairs in strictly increasing lexicographic order, so no pair is visited twice. |
| PairSelection.PairsBeforeComplete | src/pair_selection.py:8-9 | Every pair `p < q < n` with `p < i` is visited by the first `i` outer iterations. |
| PairSelection.PairsBeforeCount | src/pair_selection.py:8-9 | The first `i` outer iterations visit `i(2n-i-1)/2` pairs. |
| PairSelection.AllPairsShape | src/pair_selection.py:8-9 | The loops visit exactly the pairs `i < j < n`, each once, in increasing order: `n(n-1)/2` pairs. |
| PairSelection.Enough | src/pair_selection.py:15-17 | The overlap guard: the joined series has at least `min_obs` rows. |
| PairSelection.PValueOf | src/pair_selection.py:20 | The oracle's p-value on the two columns of the joined series. |
| PairSelection.Record | src/pair_selection.py:10-21 | The record of pair (i, j): the tickers of columns i and j and the pair's p-value. |
| PairSelection.Screened | src/pair_selection.py:8-21 | The records of the visited pairs that pass the guard, in visiting order. |
| PairSelection.EligiblePairs | src/pair_selection.py:15-18 | The pairs that pass the overlap guard are no more than the visited ones, and stay in range. |
| PairSelection.EligibleMembership | src/pair_selection.py:15-18 | A pair passes exactly when it is visited and the two columns share at least `min_obs` rows where both prices are present. |
| PairSelection.EligibleIncreasing | src/pair_selection.py:8-18 | Skipping pairs keeps the visiting order. |
| PairSelection.ScreenedSnoc | src/pair_selection.py:15-21 | Visiting one more pair appends its record (tickers, oracle p-value) exactly when it passes the guard. |
| PairSelection.ScreenedRecords | src/pair_selection.py:8-21 | Each recorded pair has i < j; pair (i, j) is recorded iff it passes the overlap guard; records are in visiting order; at most n(n-1)/2 records. |
| PairSelection.RecordsDistinct | src/pair_selection.py:8-10 | With distinct column names, two records of distinct pairs i < j do not name the same unordered pair of tickers. |
| PairSelection.ScreenedPairsDistinct | src/pair_selection.py:8-21 | With distinct column names, no record pairs a ticker with itself, and no unordered pair of tickers is recorded twice. |
| PairSelection.ScreenedRecordSound | src/pair_selection.py:15-21 | Every record is that of a pair i < j passing the guard, and its p-value is the oracle's value on that pair's joined series. |
| PairSelection.ScreenedRecordComplete | src/pair_selection.py:15-21 | Every pair i < j passing the guard has its record among the results. |
| PairSelection.ScreenedEmpty | src/pair_selection.py:8-21 | No record is made exactly when no pair passes the overlap guard. |
| PairSelection.ScreenedQualifying | src/pair_selection.py:15-21 | Some record has p-value at most the threshold exactly when some pair passes the guard with such a p-value. |
| PairSelection.ScreenRow | src/pair_selection.py:9-21 | One pass of the inner loop appends exactly the records of row `i`'s pairs that pass the guard. |
| PairSelection.ScreenPairs | src/pair_selection.py:8-21 | The nested loops produce exactly the records of the visited pairs that pass the guard, in visiting order. |
| PairSelection.InsertByPValue | src/pair_selection.py:24 | Inserting a record adds exactly that record (as a multiset) and one to the length. |
| PairSelection.InsertKeepsSorted | src/pair_selection.py:24 | Inserting into a list sorted by p-value keeps it sorted. |
| PairSelection.InsertKeepsTies | src/pair_selection.py:24 | Inserting places the record before the others with an equal p-value, keeping their relative order. |
| PairSelection.SortByPValue | src/pair_selection.py:24 | `list.sort` by p-value: the result is a permutation of the input and is ascending by p-value. Records with equal p-values keep their order (stable). |
| PairSelection.SortKeepsEmpty | src/pair_selection.py:24 | The sorted list is empty exactly when its input is. |
| PairSelection.SortKeepsMembers | src/pair_selection.py:24 | The sorted list holds exactly the records of its input. |
| PairSelection.Tradable | src/pair_selection.py:27 | The comprehension keeps exactly the records with p-value at most the threshold; it is empty exactly when every record exceeds it. |
| PairSelection.TradableKeepsTies | src/pair_selection.py:27 | The comprehension keeps input order: the kept records with any one p-value `v` are those of the input, in input order, when `v <= threshold`, and none otherwise. |
| PairSelection.TradableKeepsSorted | src/pair_selection.py:24-27 | Filtering a sorted list keeps it sorted. |
| PairSelection.Select | src/pair_selection.py:27-29 | The tradable records when there is at least one, every record otherwise. |
| PairSelection.SelectOutcomes | src/pair_selection.py:27-29 | If some record qualifies, the result is exactly the (non-empty) tradable sublist; otherwise it is every record. The result holds only input records and is sorted when the input is. |
| PairSelection.SelectKeepsTies | src/pair_selection.py:27-29 | The selection keeps input order among equal p-values: with some record qualifying, the records with p-value `v` are the input's, in order, for `v <= threshold`, and none above; otherwise all of them in order. |
| PairSelection.SelectHead | src/pair_selection.py:27-29 | The result is empty exactly when there is no record. When there is one, the head qualifies exactly when some record qualifies. |
| PairSelection.RankedOutcome | src/pair_selection.py:8-29 | The ranked result is sorted. It is empty exactly when no pair passes the overlap guard. When non-empty, its head is tradable exactly when some guarded pair has a tradable p-value. |
| PairSelection.FindCointegratedPairs | src/pair_selection.py:4-29 | `find_cointegrated_pairs` returns the tradable/fallback selection of the stably sorted records. The result is sorted; it is empty iff no pair passes the guard, so always with fewer than two columns; a non-empty result's head is tradable iff some guarded pair's p-value is. |
| Metrics.Growth | src/metrics.py:9 | `1 + returns` has one entry per return. |
| Metrics.Product | src/metrics.py:9 | The product of a series, 1 for the empty series. |
| Metrics.CumProd | src/metrics.py:9 | `cumprod` has one entry per input entry. |
| Metrics.EquityRecurrence | src/metrics.py:9 | `equity[0] = 1 + r[0]` and `equity[k] = equity[k-1] * (1 + r[k])`. |
| Metrics.ProductPositive | src/metrics.py:9 | A product of positive factors is positive. |
| Metrics.EquityPositive | src/metrics.py:9 | With every `1 + r > 0`, every point of the equity curve is positive. |
| Metrics.PeakAt | src/metrics.py:10 | The running maximum at k is at least every entry up to k. |
| Metrics.PeakIndex | src/metrics.py:10 | The running maximum at k equals the entry at an index no later than k. |
| Metrics.CumMax | src/metrics.py:10 | `cummax` has one entry per input entry. |
| Metrics.RunningPeak | src/metrics.py:10 | `peak[k] >= equity[k]`, `peak[k] >= peak[k-1]`, and `peak[k] == equity[j]` for the index `j <= k` that `PeakIndex` names. |
| Metrics.Ratio | src/metrics.py:11 | The drawdown of one day, `(equity - peak) / peak`. |
| Metrics.Drawdowns | src/metrics.py:11 | The element-wise drawdown has one entry per day. |
| Metrics.DrawdownAt | src/metrics.py:9-11 | Day k's equity is positive and no greater than its peak, and its drawdown is `(equity - peak) / peak`. |
| Metrics.DrawdownSeriesIs | src/metrics.py:9-11 | The drawdown series is the element-wise drawdown of the equity curve against its running peak, and every peak is positive. |
| Metrics.DrawdownsAt | src/metrics.py:11 | Entry k of the element-wise drawdown is `(equity[k] - peak[k]) / peak[k]`. |
| Metrics.RatioBounds | src/metrics.py:11 | For `0 < equity <= peak`, `(equity - peak) / peak` lies in (-1, 0]. |
| Metrics.RatioAtPeak | src/metrics.py:11 | At the peak the drawdown ratio is 0. |
| Metrics.DrawdownBounds | src/metrics.py:9-11 | With every `1 + r > 0`, each drawdown lies in (-1, 0]. |
| Metrics.DrawdownZeroAtNewPeak | src/metrics.py:10-11 | The drawdown is 0 on a day when equity sets a new running maximum. |
| Metrics.Min | src/metrics.py:12 | `Series.min` on a non-empty series is one of its elements and no greater than any. |
| Metrics.Equity | src/metrics.py:9 | The equity curve has one entry per return. |
| Metrics.DrawdownSeries | src/metrics.py:9-11 | The drawdown series has one entry per return. |
| Metrics.MaxDrawdown | src/metrics.py:8-12 | `max_drawdown` is one of the drawdowns, no greater than any of them, and lies in (-1, 0]. |
| Metrics.StepsUp | src/metrics.py:9 | A curve that grows by non-negative factors never decreases between two days. |
| Metrics.EquityNonDecreasing | src/metrics.py:9 | With no negative return, the equity curve never decreases. |
| Metrics.NoLossNoDrawdown | src/metrics.py:8-12 | With no negative return, `max_drawdown` is exactly 0. |

## Left out

- `sharpe_ratio` (src/metrics.py:3-6): a square root and a standard deviation, which are floating-point numerics.
- `compute_spread` and `zscore` (src/strategy.py): an OLS fit in a foreign library, and a rolling mean and standard deviation. The backtest takes the spread and the z-score series as inputs. Spread values are present; z-scores may be missing.
- src/data_loader.py, app.py and main.py: network download, user interface, plotting and printing.
- The Engle–Granger test is the oracle `coint`, a total function: it returns a p-value for every pair of series. No range is assumed for that p-value. Where the statistical test raises (for example on a very short overlap when `min_obs` is small), `find_cointegrated_pairs` does not catch it and aborts, while the model still returns a record for that pair; the model has no exception or "skip on failure" path.
- Candidate p-values lying in [0, 1] is a promise of the statistical library, not of this code, so the model does not assume it.
- IEEE doubles, NaN and infinity are modelled as exact reals, with `None` for a missing value. Rounding is not modelled.
- pandas index mechanics: the table's rows are assumed to share one unique date index. The join is therefore row-by-row on "both present". Duplicate index labels, and the extra rows a join would then produce, are not modelled. Duplicate column names are not modelled either: `prices[t1]` is column `i`.
- Metrics.MaxDrawdown: requires a non-empty series with every `1 + r > 0`. On an empty series pandas returns NaN. A zero or negative peak gives infinity or NaN under pandas, and that case is not modelled. The requirement also excludes series whose equity falls to zero or below after a positive start while the peak stays positive: for returns [0.1, -1.5] the equity is [1.1, -0.55], the peak 1.1, and pandas returns a finite -1.5 that the model does not cover.
- Callers pass `max_drawdown` an already cumulative series, which compounds it twice. The model follows the function as written.
- PairSelection.SortByPValue: `results.sort` sorts the list in place. The model computes the sorted list as a value (a stable insertion sort) and assigns it back, so in-place update and aliasing are not captured.
- PairSelection.ScreenRow: the inner loop is its own method here. Together with `ScreenPairs` it is the nested loop of `find_cointegrated_pairs`.
- Backtest.Backtest: requires at least as many z-scores as spread values, because `z.iloc[i]` must exist. The result is a sequence; the pandas index `spread.index[1:]` it carries is not modelled.
- Default arguments: `entry=2.0`, `exit=0.5`, `cost=0.0005` of `backtest` and `pval_threshold=0.05`, `min_obs=504` of `find_cointegrated_pairs` are not modelled; the model takes every one of them as a required parameter, so no behaviour is lost.
