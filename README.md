# eHTE in Dafny

A Dafny model of the computational core of `eHTE_Estimator`
(`src/ehte/eHTE.py`), the estimator of "effective heterogeneity of
treatment effect". The model covers:

- the SAS-style percentile (`sas_percentile`);
- the rank percentile (`calculate_percentile`);
- the construction of individual treatment effects (ITEs) by quantile
  alignment and their per-group spread, sigma (`calculate_sigma48` and
  `calculate_sigma`);
- the empirical p-value and the normalised effect size (`cal_pvalue`);
- the row structure of the null simulation (`gen_sim`);
- the result dictionary `eHTE_p` assembles.

Modules, one per file:

- `Wrappers`: `Option` and `Result`.
- `Arith`: small arithmetic facts.
- `Sorting`: numpy's sort, as a sorted permutation.
- `Quantile`: `sas_percentile`. `MarkAt` is the loop body for one mark. `SasQuantiles` is the loop as a function. The method `SasPercentile` keeps the loop that appends to `result` and `T`.
- `Rank`: `calculate_percentile`.
- `Tables`: frames, the `(NPERMS, TRT01PN)` key and `groupby`.
- `Sigma`:
  - the percentile tables (the methods keep the loop over groups that concatenates per-group tables);
  - the left join on `(NPERMS, percentile)`;
  - the 3..97 restriction;
  - the sample variance with `ddof = 1` that skips NaN;
  - the two `calculate_sigma*` methods.
- `PValue`: `cal_pvalue`.
- `Simulation`: the rows of `gen_sim`. The normal draws are a sequence `z`.
- `Report`: the `res_dict` of `eHTE_p`.

Values are exact reals. Percentile marks are natural numbers. For `n` values
and mark `t`, the model takes the loop's `j = floor(n * t / 100)` as the exact
`(n * t) / 100`, and its `g == 0` test as the exact `(n * t) % 100 == 0`. The
code computes `n * (t / 100)` in floating point, which at some marks lands
just off a whole number, above or below it, and then takes the `g != 0`
branch (see "## Left out").

Pandas' `std` returns a square root. In the model a sigma row holds the
variance, and `cal_pvalue` takes the square root as a parameter `sqrt`.
`PValue.IsSqrt` says when that parameter is the real square root. Under that
condition, `PValue.AtLeastByVariance` shows that comparing sigmas is the same
as comparing variances.

`self.n_perms = n_perms + 1` (src/ehte/eHTE.py:39) and `range(1, self.n_perms)` (src/ehte/eHTE.py:82) give exactly the requested number of replicates (`Simulation.ReplicatesAreRequested`). The p-value is the plain share of those replicates whose sigma reaches the observed one, so a p-value of exactly 0 is possible (`PValue.ZeroWhenAboveAll`).

## Model

| member | source | states |
|---|---|---|
| Sorting.Sort | src/ehte/eHTE.py:104-105 | `np.sort(x)` is sorted and is a permutation of `x` |
| Sorting.SortedUnique | src/ehte/eHTE.py:104-105 | two sorted sequences with the same multiset are equal, so the sorted array is determined by the values alone |
| Sorting.SortDependsOnlyOnMultiset | src/ehte/eHTE.py:104-105 | sorting depends only on the multiset of the input |
| Sorting.SortOfSorted | src/ehte/eHTE.py:149-151 | sorting data that `data.sort()` has already sorted changes nothing |
| Quantile.MarkAt | src/ehte/eHTE.py:111-129 | for one mark: an index error exactly when `j == 0` and `n < 2`; no mark in 0..100 is skipped; a value emitted from sorted data lies between `x[0]` and `x[n-1]` |
| Quantile.SasQuantiles | src/ehte/eHTE.py:108-130 | `result` and `T` have equal length, at most the grid's, and every emitted mark is a grid mark |
| Quantile.FailureSticks | src/ehte/eHTE.py:116-117 | once a mark raises the index error, the whole call fails with that error |
| Quantile.EmitMark | src/ehte/eHTE.py:110-129 | the body of the loop for one mark computes `j` and `g` and emits exactly what `MarkAt` gives |
| Quantile.SasPercentile | src/ehte/eHTE.py:92-130 | the loop over the marks, appending to `result` and `T`, returns exactly `SasQuantiles` of the sorted input (or the index error) |
| Quantile.QuantilesOnGrid | src/ehte/eHTE.py:108-130 | on marks in 0..100 the call fails exactly when some mark has `j == 0` with fewer than two values; otherwise `T` is the grid itself, nothing is skipped, and value `k` is `MarkAt` of mark `k` |
| Quantile.MarkMonotone | src/ehte/eHTE.py:110-129 | on sorted data with `n >= 2`, a larger mark never gives a smaller value |
| Quantile.QuantilesMonotone | src/ehte/eHTE.py:104-130 | on an ascending grid in 0..100 with `n >= 2`: one value per mark, each between min and max, non-decreasing along the grid |
| Quantile.QuantilesOrderIndependent | src/ehte/eHTE.py:104-105 | the output depends only on the multiset of the input values |
| Quantile.QuantileMarksIncreasing | src/ehte/eHTE.py:106-130 | on a strictly increasing grid the emitted marks `T` are strictly increasing |
| Quantile.MarkBranches | src/ehte/eHTE.py:116-129 | `n * t < 100` (every small mark, not only 0) gives the mean of `x[0]` and `x[1]`; an exact `j` with `0 < j < n` gives the mean of `x[j-1]` and `x[j]`; mark 100 gives `x[n-1]`; a fractional `n*t/100` gives `x[j]` |
| Quantile.MedianOfOneToTwoHundred | src/ehte/eHTE.py:119-122 | for `x = 1..200`, mark 50 gives 100.5 |
| Quantile.Linspace | src/ehte/eHTE.py:106 | `np.linspace(st, en, num)` on an integer step: `num` marks from `st` to `en`, strictly increasing |
| Quantile.GridMarks | src/ehte/eHTE.py:262-266 | the grid `(0, 100, 101)` is the marks 0..100, and the grid `(3, 97, 48)` is 3, 5, ..., 97 |
| Rank.RankPercentile | src/ehte/eHTE.py:88-90 | `int(rank(method='average') / n * 100)` lies in `[100 / n, 100]` |
| Rank.RankPercentileIsFloor | src/ehte/eHTE.py:88-90 | the result is the floor of `100 * averageRank / n`, where the average rank is the count of smaller values plus half of (ties + 1) |
| Rank.RankPercentiles | src/ehte/eHTE.py:88-90 | over a group, one percentile per value, each in `[100 / n, 100]`, tied values get the same one, and a smaller value never gets a larger one |
| Rank.RankMonotone | src/ehte/eHTE.py:88-90 | the percentile is monotone in the value |
| Rank.UniqueMaximumGetsHundred | src/ehte/eHTE.py:88-90 | a unique maximum gets percentile 100 |
| Tables.WithPerms | src/ehte/eHTE.py:140-145 | a frame without NPERMS is read with NPERMS = 0 on every row; arm and CHG are kept |
| Tables.SortedKeys | src/ehte/eHTE.py:148 | `groupby` visits each key that occurs, once, in ascending (NPERMS, TRT01PN) order |
| Tables.SelectNonEmpty | src/ehte/eHTE.py:148 | a group is non-empty exactly when its key occurs |
| Tables.SelectUnique | src/ehte/eHTE.py:167 | with unique keys, the rows matching a key are that one row |
| Tables.GroupBy | src/ehte/eHTE.py:148 | one entry per key that occurs, holding that group's values in row order, never empty |
| Sigma.GroupRows | src/ehte/eHTE.py:152 | one table row per emitted mark: row `i` carries the group's NPERMS and arm, mark `T[i]` and value `result[i]` |
| Sigma.GroupRowsOnGrid | src/ehte/eHTE.py:148-152 | on a grid in 0..100, a group's table has one row per grid mark, in grid order, whose value is the `sas_percentile` value of that mark over the sorted group |
| Sigma.PercentileTableRows | src/ehte/eHTE.py:147-163 | every row of a percentile table carries a visited group key and a grid mark |
| Sigma.TableFailureSticks | src/ehte/eHTE.py:148-151 | an index error in any group makes the whole table fail with that error |
| Sigma.PercentileTableLayout | src/ehte/eHTE.py:147-155 | on a grid in 0..100, the table is the groups in key order, each as one block of `len(grid)` rows; row `m * len(grid) + idx` holds group `m`'s keys, mark `grid[idx]` and that group's quantile at that mark |
| Sigma.BuildPercentileTable | src/ehte/eHTE.py:147-155 | the loop over `groupby` groups, sorting each group and concatenating its table, returns `PercentileTable` over the sorted keys |
| Sigma.PercentileTableJoinUnique | src/ehte/eHTE.py:147-155 | with one arm per NPERMS and a strictly increasing grid, the (NPERMS, percentile) join keys of the table are unique |
| Sigma.PercentileTableCovers | src/ehte/eHTE.py:147-155 | on a grid in 0..100, for every visited group and grid mark the table has a row with that (NPERMS, mark) whose value is the group's quantile at that mark |
| Sigma.PlaceboHasEntry | src/ehte/eHTE.py:191-198 | for a single-arm placebo frame on a grid in 0..100, every NPERMS that occurs has, at every grid mark, a `pct_pcb` row whose PCB_CHG is `sas_percentile` of that replicate's sorted CHG at the mark |
| Sigma.TableKeyHasPerm | src/ehte/eHTE.py:191-198 | every NPERMS in `pct_pcb` is one that occurs in the placebo frame |
| Sigma.PlaceboTableJoinUnique | src/ehte/eHTE.py:191-198 | a single-arm placebo frame on a strictly increasing grid gives a table with unique join keys |
| Sigma.RankedRows | src/ehte/eHTE.py:200-203 | `pct_trt` keeps every row, with its NPERMS, arm and CHG, plus a percentile in 0..100 (which percentile: `Sigma.RankedRowsPercentile`) |
| Sigma.RankedRowsPercentile | src/ehte/eHTE.py:203 | row `i`'s percentile is `calculate_percentile` of row `i`'s CHG within its own (NPERMS, TRT01PN) group, a group that holds that CHG |
| Sigma.RankedRowsMonotone | src/ehte/eHTE.py:203 | within a group, a smaller CHG never gets a larger percentile, and equal CHG gets equal percentile |
| Sigma.LeftJoin | src/ehte/eHTE.py:167-168 | the joined rows have an ITE exactly when a PCB_CHG was found, and then ITE = CHG - PCB_CHG |
| Sigma.LeftJoinOneToOne | src/ehte/eHTE.py:205-206 | with unique placebo join keys, the join has one row per treatment row, in order, with its fields, and PCB_CHG is the matching placebo value or NaN when none matches |
| Sigma.JoinWithEntry | src/ehte/eHTE.py:167-168 | with unique placebo join keys, a treatment row whose (NPERMS, percentile) has a placebo row of value `v` keeps its percentile and gets PCB_CHG = `v` and ITE = CHG - `v` |
| Sigma.LeftJoinKeepsEveryRow | src/ehte/eHTE.py:167 | the left join keeps every treatment row |
| Sigma.Central | src/ehte/eHTE.py:169-170 | `interval95` keeps exactly the rows with percentile in 3..97 (as a set; order and multiplicity: the next two rows) |
| Sigma.CentralMultiset | src/ehte/eHTE.py:169-170 | each row with percentile in 3..97 is kept as many times as it occurs, every other row not at all |
| Sigma.CentralAppend | src/ehte/eHTE.py:169-170 | the boolean filter keeps row order: filtering a concatenation is concatenating the filtered parts |
| Sigma.SampleVariance | src/ehte/eHTE.py:172 | the ddof-1 variance is defined exactly when there are at least two values, and is never negative |
| Sigma.VarianceZeroIffConstant | src/ehte/eHTE.py:210 | with two or more values, the variance is zero exactly when all values are equal |
| Sigma.Present | src/ehte/eHTE.py:210 | `std` skips NaN ITEs: exactly the present values are kept (order and multiplicity: the next two rows) |
| Sigma.PresentMultiset | src/ehte/eHTE.py:210 | each present ITE is kept as many times as it occurs |
| Sigma.PresentAppend | src/ehte/eHTE.py:210 | skipping NaN keeps order: it distributes over concatenation |
| Sigma.SigmaTable | src/ehte/eHTE.py:172 | one row per (NPERMS, TRT01PN) group of `ite_df`, in ascending key order, with every group present, and a non-negative variance |
| Sigma.SigmaTableRows | src/ehte/eHTE.py:210 | each row holds the sample variance of the non-NaN ITEs of its own group |
| Sigma.ConstantGroupHasZeroSigma | src/ehte/eHTE.py:210 | a group of at least two identical ITEs gets sigma 0 |
| Sigma.SigmaOneRowPerSubject | src/ehte/eHTE.py:200-206 | with a single-arm placebo frame, `ite_df` has one row per treatment row, in order, with its NPERMS (0 without the column), arm, CHG and rank percentile |
| Sigma.FullGridLeavesNoGap | src/ehte/eHTE.py:191-206 | on the grid 0..100 with a single-arm placebo, every treatment row whose NPERMS has placebo rows gets as PCB_CHG the placebo replicate's `sas_percentile` value at the row's own percentile, and ITE = CHG - PCB_CHG |
| Sigma.Sigma48Layout | src/ehte/eHTE.py:140-170 | with a single-arm placebo and a strictly increasing grid in 0..100, `ite_df` has one row per (treatment group, mark), groups in key order and marks in grid order; each carries the group's quantile at the mark as CHG, and has an ITE exactly when the placebo has that NPERMS, with PCB_CHG the placebo quantile at the same mark |
| Sigma.MissingColumnExactly | src/ehte/eHTE.py:147-163 | both entry points raise `KeyError` exactly when the placebo frame has no columns or no rows, or when its groups all succeed and the treatment frame has no columns; `calculate_sigma48` also raises it then when the treatment frame has no rows, while `calculate_sigma` gives empty tables for such a frame |
| Sigma.CalculateSigma48 | src/ehte/eHTE.py:132-174 | the method returns `Sigma48Of`: both arms through the percentile tables (with the `KeyError` on a frame without columns or rows), the join, the optional restriction and the sigma table |
| Sigma.CalculateSigma | src/ehte/eHTE.py:176-212 | the method returns `SigmaOf`: the placebo table (with the `KeyError` on a placebo frame without columns or rows, and on a treatment frame without columns), ranked treatment rows, the join, the optional restriction and the sigma table |
| PValue.MergeRow | src/ehte/eHTE.py:217 | each simulated row yields at least one `count_` row, all of its arm and with its sigma |
| PValue.Merge | src/ehte/eHTE.py:217 | the left merge has at least one row per simulated row (which rows: `PValue.MergeKeepsEveryRow`) |
| PValue.MergeKeepsEveryRow | src/ehte/eHTE.py:217 | every simulated row appears in `count_` with its own arm and its own sigma as `sim_sigma` |
| PValue.MergeArms | src/ehte/eHTE.py:217-219 | `count_` covers exactly the arms of the simulated table |
| PValue.PValueOf | src/ehte/eHTE.py:219 | the mean of `ind` within an arm lies in [0, 1] |
| PValue.SigmaMap | src/ehte/eHTE.py:216 | `sigmas` is keyed by exactly the observed arms |
| PValue.EffectMap | src/ehte/eHTE.py:220 | `sigma_stds` holds `sigma / s_1` for every observed arm |
| PValue.CalPvalue | src/ehte/eHTE.py:214-224 | sigmas and effects are keyed by the observed arms, p-values by the simulated arms, and every p-value lies in [0, 1] |
| PValue.Exceedance | src/ehte/eHTE.py:218-219 | reference definition: the share of the arm's simulated rows whose sigma is at least the observed one, in [0, 1] |
| PValue.MergeCounts | src/ehte/eHTE.py:217-219 | with one observed row per arm, `count_` has one row per simulated row of the arm and one hit per row reaching the observed sigma |
| PValue.PValueIsExceedance | src/ehte/eHTE.py:216-219 | with one observed row per arm, the p-value equals the reference `Exceedance` (the comparison is inclusive; an unobserved arm compares with NaN) |
| PValue.ExceedanceAntitone | src/ehte/eHTE.py:218-219 | a larger observed sigma never gives a larger p-value |
| PValue.ZeroWhenAboveAll | src/ehte/eHTE.py:218-219 | an observed sigma above every simulated sigma gives p-value exactly 0 |
| PValue.ZeroWhenObservedNaN | src/ehte/eHTE.py:218 | a NaN observed sigma is reached by no replicate: p-value 0 |
| PValue.OneWhenBelowAll | src/ehte/eHTE.py:218-219 | every simulated sigma at least the observed one gives p-value 1 |
| PValue.SqrtOrder | src/ehte/eHTE.py:218 | with the real square root, comparing sigmas is comparing variances |
| PValue.AtLeastByVariance | src/ehte/eHTE.py:218 | `sim_sigma >= sigma` (false on NaN) holds exactly when the simulated variance reaches the observed variance |
| PValue.EffectAboveOne | src/ehte/eHTE.py:220 | for positive `s_1`, the effect exceeds 1 exactly when sigma exceeds `s_1` |
| PValue.LastRowWins | src/ehte/eHTE.py:216-220 | the dictionary comprehensions keep the last observed row of an arm: its sigma and its effect |
| Simulation.ArmBlock | src/ehte/eHTE.py:84 | one arm of one replicate: subjects `PT = 1..nobs`, each with the arm's mean and `CHG = M + s_1 * z` for its own draw |
| Simulation.PermBlock | src/ehte/eHTE.py:83-84 | one replicate has as many rows as the arms' counts summed |
| Simulation.Replicates | src/ehte/eHTE.py:82-84 | `count` replicates take `count` blocks of that width |
| Simulation.GenSim | src/ehte/eHTE.py:80-85 | `gen_sim` yields `(n_perms - 1) * width` rows, and none when `n_perms <= 1` |
| Simulation.AsFrame | src/ehte/eHTE.py:86 | the frame has NPERMS, it has columns exactly when there are records, and row `i` carries the NPERMS, TRT01PN and CHG of row `i` |
| Simulation.PermBlockRows | src/ehte/eHTE.py:83-84 | every row of a replicate carries its NPERMS, a listed arm, that arm's mean, and draws its own variate |
| Simulation.PermBlockLayout | src/ehte/eHTE.py:83-84 | in one replicate, subject `j + 1` of the `i`-th arm sits after all rows of the arms before it, at position `Total(trts[..i]) + j`, with that arm, `PT = j + 1`, the arm's mean and the draw at that position |
| Simulation.ReplicatesRows | src/ehte/eHTE.py:82-84 | every row of the replicates from `perm` belongs to one of them and draws the variate at its own position |
| Simulation.GenSimRows | src/ehte/eHTE.py:80-85 | every row has NPERMS in `1 .. n_perms - 1`, a listed arm and that arm's mean, and row `k` has `CHG = M + s_1 * z[k]` |
| Simulation.ReplicatesNumbered | src/ehte/eHTE.py:82-84 | position `j` of block `i` belongs to replicate `perm + i`: replicate outermost |
| Simulation.ReplicateOfSimRow | src/ehte/eHTE.py:82-84 | row `i * width + j` of `gen_sim` belongs to replicate `1 + i` |
| Simulation.ReplicatesAreRequested | src/ehte/eHTE.py:82 | with `self.n_perms = requested + 1` (line 39), NPERMS runs over exactly `1..requested`: `requested` replicates, each present, no extra one |
| Simulation.CountArmBlock | src/ehte/eHTE.py:84 | an arm block holds `nobs` rows of its arm and none of another |
| Simulation.PermBlockCounts | src/ehte/eHTE.py:83-84 | with distinct arms, a replicate holds `nobs[a]` rows of every listed arm `a` |
| Simulation.ArmTotal | src/ehte/eHTE.py:82-84 | `count` replicates hold `count * nobs[a]` rows of arm `a` |
| Simulation.SimArmTotal | src/ehte/eHTE.py:80-85 | `gen_sim` holds `(n_perms - 1) * nobs[a]` rows of every listed arm |
| Report.ResultsAsWritten | src/ehte/eHTE.py:272-281 | as written, the '48 percentiles' entry equals the 'all data' entry, keyed by the all-data simulated arms |
| Report.AsWrittenIgnores48 | src/ehte/eHTE.py:279-281 | as written, the '48 percentiles' entry does not depend on the 48-percentile tables |
| Report.AsWrittenMisreports48 | src/ehte/eHTE.py:264-281 | on `Example`, the code reports p-value 0 for arm 1 under '48 percentiles', while the 48-percentile tables give 1 |
| Report.Results | src/ehte/eHTE.py:264-281 | the intended dictionary: the '48 percentiles' p-values are keyed by the 48-percentile simulated arms, lie in [0, 1], and its sigmas are keyed by the 48-percentile observed arms |
| Report.Pct48IsExceedance | src/ehte/eHTE.py:266-270 | in the intended dictionary, the '48 percentiles' p-value is the exceedance share over the 48-percentile replicates |
| Report.AllDataAgrees | src/ehte/eHTE.py:272-278 | the 'all data' entry is the same in both dictionaries |
| Report.NoReplicatesFail | src/ehte/eHTE.py:80-86 | with no replicates requested, `gen_sim` gives frames without columns, and both simulated `calculate_sigma*` calls fail with the missing-column error, so `eHTE_p` returns no dictionary |
| Report.NoTreatmentRowsFail | src/ehte/eHTE.py:238-263 | with replicates requested but no active-arm rows to simulate, the treatment frame from `gen_sim` has no columns, and both simulated `calculate_sigma*` calls fail: with the placebo group's index error if it has too few values, otherwise with the missing-column error |

## Left out

- Floating point: every value is an exact real. `rank / len * 100` followed by `astype(int)` can round below the exact floor in floating point (for example `29 / 100 * 100` gives 28). `np.linspace` is taken to yield exact integer marks.
- Quantile.MarkAt: the branch is chosen on the exact `n * t`. The code computes `p = t / 100` and `n * p` in floating point, and at some marks that product lands just off a whole number. For `n = 100` this happens at marks 7, 14, 28, 29, 55, 56, 57 and 58. At 7, 14, 28, 55 and 56 it lands just above (`100 * (7 / 100)` is `7.000000000000001`): the code keeps `j = t`, sees `g != 0` and emits `x[t]`. At 29, 57 and 58 it lands just below (`100 * (29 / 100)` is `28.999999999999996`): the code takes `j = t - 1`, sees `g != 0` and emits `x[t - 1]`. In both cases `MarkAt` takes the `g == 0` branch and gives `(x[t - 1] + x[t]) / 2`. Marks 7, 29, 55 and 57 lie on the 48-mark grid as well.
- Quantile.MarkAt: marks are natural numbers. Negative or fractional marks, and Python's negative indexing that a negative `j` would trigger, are not modelled. Both call sites pass integer marks in 0..100.
- `KeyError` has two sources in the code: reading `percentile` from a `pct_pcb` (or, in `calculate_sigma48`, a `pct_trt`) that no group was concatenated into (src/ehte/eHTE.py:155, 163, 198), and grouping by `TRT01PN` a frame without columns, which `gen_sim` returns when it has no records: no replicates requested, or no active-arm rows (src/ehte/eHTE.py:148, 157, 192, 203). The model gives both as `Failure(MissingColumn)` (`Sigma.MissingColumnExactly`, `Report.NoReplicatesFail`, `Report.NoTreatmentRowsFail`) and does not say which line raises. A frame is taken to have columns unless `Tables.Frame.hasColumns` says otherwise; only `Simulation.AsFrame` builds one without.
- An `IndexError` from `x[0]` or `x[1]` in the `j == 0` branch is the `Failure(TooFewValues)` result. It makes the whole `calculate_sigma*` call fail.
- Square root: `std` takes a square root. The model keeps the variance and passes `sqrt` to `cal_pvalue` as a parameter. There is no real square root without a bodiless function.
- Sorting.Sort: numpy's in-place sort is modelled as a function that returns the sorted permutation, not as an in-place array method.
- Random numbers: `np.random.seed` and `np.random.normal` are not modelled. The draws are the sequence `z` of standard normal variates, and row `k` gets `CHG = M + s_1 * z[k]`.
- `Simulation.GenSim` requires every arm to have a count and a mean. Without them `gen_sim` raises `KeyError`.
- PValue.EffectMap: `sigma_stds` zips `ehte_df['TRT01PN']` with the output of `groupby('TRT01PN')` applied to each group. The model pairs each row with its own `sigma / s_1`, so it assumes `ehte_df` rows are ordered by arm, as `calculate_sigma*` returns them for one NPERMS.
- PValue.Effect: `s_1 == 0` gives infinity or NaN in floating point. The model gives `None`, the same as for a NaN sigma.
- The `__init__` column and type checks (`sys.exit`), the `trt_dict` label lookup, `print`, `display` and the plotting method `eHTEplot` are output or validation only.
- PValue.CalPvalue: does not model the `KeyError` of the print loop of `cal_pvalue` (src/ehte/eHTE.py:222-223), which indexes `p_values[trt_]` and `self.trt_dict[int(trt_)]` for every observed arm and so raises for an observed arm with no simulated rows or with no label. It cannot arise at the calls in `eHTE_p`, where every observed arm is simulated and labelled.
- `eHTE_p` is modelled only where it assembles `res_dict`, from the four sigma tables. These steps are not modelled:
  - splitting the input into placebo and treatment by the `TRT01P` label;
  - the `describe()` summaries that produce the counts, means and `s_`;
  - the choice of seeds.
- Sigma.RankedRows: its own contract bounds the percentile to 0..100 only. Which percentile a row gets is stated in the lemma `Sigma.RankedRowsPercentile`, kept apart so that callers of `RankedRows` do not carry the rank arithmetic.
- Sigma.Central: its own contract states membership only. Multiplicity is stated in `Sigma.CentralMultiset` and order in `Sigma.CentralAppend`, kept apart so that callers do not carry multiset reasoning.
- Sigma.Present: its own contract states membership only. Multiplicity is stated in `Sigma.PresentMultiset` and order in `Sigma.PresentAppend`, for the same reason.
- PValue.Merge: its own contract states only that there are at least as many merged rows as simulated rows. That every simulated row appears with its arm and sigma is the lemma `PValue.MergeKeepsEveryRow`.
- Report.ResultsAsWritten: the unused 48-percentile call is not modelled as a separate step. It has no effect on the dictionary the code returns.

## Code versus documentation

- The docstring of `sas_percentile` cites the SAS definition with averaging. The code's `j == 0` branch averages `x[0]` and `x[1]` for every mark with `n * t < 100`, not only for mark 0. The model follows the code (`Quantile.MarkBranches`).

## Findings

| source | as written | input that shows it | evidently intended | confidence | as-written member | corrected member |
|---|---|---|---|---|---|---|
| src/ehte/eHTE.py:279-281 | the '48 percentiles' entry is filled with `sigmas`, `sigma_stds` and `p_values` from the all-data call, and the 48-percentile results are discarded | `Report.Example`: all data, observed variance 4 and one replicate with variance 1; 48 percentiles, observed variance 1 and one replicate with variance 4. Arm 1 is reported with p-value 0 under '48 percentiles', but its 48-percentile p-value is 1 | fill the entry with `sigmas48`, `sigma_stds48` and `p_values48` | high (not executed) | Report.ResultsAsWritten, Report.AsWrittenMisreports48 | Report.Results, Report.Pct48IsExceedance |
