# Dimension-subset metric engine

A model of a small metric engine. It computes an arbitrary aggregate over
every "cut" of a fact table. A cut is a non-empty subset of a declared list
of dimension columns. Every result row carries a composite key: a label
naming the metric and the cut, and a map of the group's dimension values.

The model has three parts.

- **Subset generation** (`dimension_subsets`). All non-empty subsets of the
  dimension list, grouped by size and in `itertools.combinations` order
  within a size. A method with nested loops builds them, and a recursive
  definition specifies them.
- **The engine** (`compute_metric`). It groups a table by a list of
  dimensions and applies the metric to each group. Every result row gets
  `metric_value`, `parameters` and `metric_label`.
  - The test that runs the engine over every cut and checks that the
    (label, parameters) key is unique is the method `ComputeAllCuts`.
- **Support-threshold pruning** (the loop of `test_problem_2` and the
  `ensure_no_blacklisted_data` fixture). For each cut in turn, the loop:
  - counts the cut's groups in the current table;
  - splits the keys into pruned (count below the threshold) and kept;
  - inner-joins the table with the kept keys and carries the narrowed
    table forward;
  - asks a checker object, which keeps a record of every pruned key so far,
    to confirm that no recorded key still matches a row;
  - computes the cut's metric.

Modules, one per file:

| file | module | contents |
|---|---|---|
| collections.dfy | Collections | `Option`, `Result`, distinctness, element sets |
| tables.dfy | Tables | values, rows, tables, group keys, semi-join, distinct keys |
| subsets.dfy | Subsets | `dimension_subsets` and its combinatorics |
| engine.dfy | Engine | `compute_metric`, labels, parameters, composite keys |
| cuts.dfy | Cuts | `test_problem_1`: every cut, concatenated, unique keys |
| checker.dfy | Checker | the `ensure_no_blacklisted_data` fixture, as a class |
| pruning.dfy | Pruning | the `test_problem_2` loop and its properties |

Modelling choices:

- A table is a set of column names and a sequence of rows. A row is a map
  from column name to a value: null, an integer or a string.
  - `WellFormed` says every row has exactly the table's columns.
- A metric is a function from a group's rows to a result, plus the optional
  name that the source attaches as a `label` attribute.
- Groups come out in the order their keys first appear in the table.
- Rows with a null in a grouping column belong to no group, as with the
  default of pandas `groupby`. The inner join against the kept counts
  therefore drops them too.
- A group's count is its number of rows.
- An unknown grouping column is an error (`UnknownDimension`) that names
  the column. It corresponds to the `KeyError` that pandas raises.
  - Grouping by no columns is `NoGroupKeys`.
  - Concatenating no results is `NothingToConcatenate`.
- `ProblemTwo` computes each cut's metric grouped on that cut, not on the
  full dimension list as test.py:198 does. See Findings.

## Model

| member | source | states |
|---|---|---|
| Subsets.Combinations | solution.py:82 | the size-k selections in `itertools.combinations` order: those that take the first element, each prefixed with it, then those that skip it |
| Subsets.BySize | solution.py:80-83 | the combinations of sizes 1 to m, smaller sizes first |
| Subsets.AllSubsets | solution.py:73-83 | everything the generator yields, in order: the combinations of every size from 1 to the list length |
| Subsets.YieldEach | solution.py:82-83 | appends the combinations one at a time to what was yielded before (`ensures r == out + cs`) |
| Subsets.DimensionSubsets | solution.py:73-83 | the nested loops produce exactly the size-1, then size-2, …, size-k combinations (`AllSubsets`), 2^k − 1 of them |
| Subsets.AllSubsetsCount | solution.py:80-83 | k dimensions give 2^k − 1 tuples; no dimensions give none |
| Subsets.BySizeCount | solution.py:80-83 | the combinations of sizes 1..m, for m at least the list length, number 2^k − 1 |
| Subsets.CombinationsLength | solution.py:82 | every combination of size k has exactly k elements |
| Subsets.AllSubsetsShape | solution.py:80-82 | every tuple is non-empty, at most k long, and lists dimensions in their input order |
| Subsets.BySizeSizesAscend | solution.py:80-82 | tuple lengths never decrease along the output |
| Subsets.LastIsWholeList | solution.py:80-82 | for non-empty input the last tuple is the whole list |
| Subsets.AllSubsetsOrdered | solution.py:80-82 | for distinct dimensions, a tuple comes before a same-size tuple exactly when its positions are lexicographically smaller (both directions); a shorter tuple comes before a longer one |
| Subsets.CombinationsComplete | solution.py:82 | every in-order selection of k dimensions is one of the size-k combinations |
| Subsets.SubseqSetInjective | solution.py:82 | two in-order selections of the same set of distinct dimensions are the same tuple |
| Subsets.EachSubsetOnce | solution.py:80-83 | for distinct dimensions, every tuple has distinct members forming a non-empty subset, and every non-empty subset is listed by exactly one tuple |
| Tables.Key | solution.py:18 | a row's values in the grouping dimensions, in dimension order |
| Tables.Group | solution.py:18 | the rows whose key is the given key, in table order |
| Tables.KeysOf | solution.py:18 | the group keys are distinct, null-free and present in the data, and every row whose key has no null has its key listed |
| Tables.SemiJoin | test.py:194 | the join keeps each row whose key is among the kept keys, as often as it occurs in the input, and no other row |
| Tables.GroupNonEmpty | solution.py:53 | a group of a key present in the data has a first row |
| Engine.JoinDims | solution.py:38 | the dimension names with ", " between consecutive ones |
| Engine.MetricLabel | solution.py:36-42 | the joined dimensions, prefixed with the metric's name and ": " when the metric has a name |
| Engine.Parameters | solution.py:46-58 | maps each dimension to the value the group's first row holds in it |
| Engine.ResultFor | solution.py:18-68 | the result row of one group: the metric of the group's rows, its parameters and the label |
| Engine.Flatten | test.py:104 | the blocks concatenated in order, as `pd.concat` |
| Engine.CompositeKey | test.py:112-115 | the (label, parameters) pair the uniqueness check compares |
| Engine.UniqueKeys | test.py:109-118 | no two result rows share a (label, parameters) pair |
| Engine.SplitDimsJoin | solution.py:38 | splitting the joined dimensions at ", " gives back the dimensions when none contains ',' |
| Engine.LabelRoundTrip | solution.py:38-42 | the label carries the metric's name (when it has one) and the dimensions: reading it back gives both |
| Engine.FirstUnknown | solution.py:18 | finds a dimension missing from the columns exactly when there is one, and then the first in list order, as the `KeyError` of the grouping reports |
| Engine.ComputeMetric | solution.py:13-70 | no dimensions is `NoGroupKeys`; a dimension missing from the columns fails, naming it; otherwise the call succeeds |
| Engine.ComputeMetricRows | solution.py:18-68 | every result row has exactly the dimensions as parameter keys, a null-free key present in the data, the metric of exactly that group as its value, and the label of the dimensions and metric |
| Engine.KeyOfResult | solution.py:45-58 | the parameters built for a key range over exactly the dimensions and read back as that key |
| Engine.ParametersAgreeWithGroup | solution.py:45-58 | each parameter value is the value every row of the group holds in that column, and the group is non-empty |
| Engine.ComputeMetricPartition | solution.py:18 | every row whose key has no null is covered by some result row, and no two result rows have the same parameters |
| Engine.UniqueKeysAppend | test.py:104-118 | two key-unique blocks with disjoint parameters concatenate to a key-unique block |
| Engine.BlocksUnique | test.py:104-118 | blocks whose parameter keys are the dimension sets of pairwise different cuts concatenate to rows with pairwise distinct (label, parameters) keys |
| Cuts.CutBlocks | test.py:74-99 | the engine's result for each cut on the unchanged table, in cut order |
| Cuts.BlockFacts | solution.py:18-68 | one cut's result has unique keys, and its parameters are exactly that cut |
| Cuts.SingletonYielded | solution.py:80-83 | every dimension is yielded alone as a one-element cut |
| Cuts.CompositeKeyUnique | test.py:108-118 | for distinct dimensions, the concatenation of every cut's results has pairwise distinct (label, parameters) keys |
| Cuts.ComputeAllCuts | test.py:71-118 | the loop concatenates the metric of every cut in generator order; it fails exactly when a dimension is missing, or there are no dimensions; with distinct dimensions the keys are unique |
| Checker.Matches | test.py:153-154 | `zip` filtering keeps the row: it holds the combination's values in the dimensions they are zipped with |
| Checker.NoLeak | test.py:146-156 | (corrected; see Findings) no row of the data matches any recorded pruned key of any recorded cut |
| Checker.OtherKeyNoMatch | test.py:153-154 | a row does not match a full-length key other than its own |
| Checker.Assign | test.py:145 | the new record holds the cut's entry and otherwise only entries of the old record; a cut not yet recorded is appended |
| Checker.AssignReplaces | test.py:145 | a cut already recorded has its entry replaced in place, at the first index recording it, and nothing else changes |
| Checker.AssignKeepsOthers | test.py:145 | every other cut's entry survives; in a record with one entry per cut, the record keeps one entry per cut and the new entry is the only one for its cut |
| Checker.WhereEq | test.py:154 | keeps exactly the rows holding the value in the column |
| Checker.WhereMatch | test.py:153-154 | keeps exactly the rows that match the combination |
| Checker.NoLeakSubLog | test.py:146-156 | a record made of entries of a leak-free record is leak-free |
| Checker.BlacklistChecker.constructor | test.py:132 | the record starts empty, so it has one entry per cut |
| Checker.BlacklistChecker.EnsureNoBlacklistedData | test.py:136-156 | (corrected; see Findings) records the cut's pruned keys as a dictionary update that keeps one entry per cut, and passes exactly when no row of the data matches any recorded pruned key |
| Checker.ScanRecord | test.py:146-156 | (corrected; see Findings: a fresh copy per combination, every one-dimension key compared whole) the nested loops over recorded cuts and pruned combinations report a leak exactly when some row matches some recorded pruned key |
| Checker.AsWrittenCombo | test.py:147-150 | (as written) a one-value key holding a string becomes one single-character value per character; any other key is left as it is |
| Checker.Visits | test.py:146-150 | (as written) the recorded cuts' combinations, as zipped, in the order the nested loops visit them |
| Checker.CumulativeCheck | test.py:143-156 | (as written) one copy of the data is narrowed by each visited combination in turn, never reset, and must be empty after each one |
| Checker.CumulativeCheckMissesLeak | test.py:146-156 | the check as written passes on a table that still holds a row of a pruned key |
| Checker.StringKeyEscapesCheck | test.py:147-154 | the check as written passes on a table that still holds a row whose one-dimension string key was pruned |
| Pruning.Count | test.py:186-187 | the number of rows in a cut's group |
| Pruning.SelectKeys | test.py:189-191 | keeps exactly the keys whose count is below (or at least) the threshold |
| Pruning.Decide | test.py:186-191 | pruned keys are present with count below the threshold, kept keys with count at least the threshold; the two are disjoint and together make up the keys present |
| Pruning.Narrow | test.py:194 | the narrowed table is a sub-multiset of its input, with no row invented |
| Pruning.NarrowKeepsExactly | test.py:194 | a row survives, as often as it occurred, exactly when its key has no null and its group's count reaches the threshold |
| Pruning.NarrowAll | test.py:183-194 | after any number of cuts the table is a sub-multiset of the input |
| Pruning.NarrowAllLast | test.py:183-194 | each iteration leaves a sub-multiset of the table the previous iteration left |
| Pruning.PruneLog | test.py:183-196 | per cut in order, the cut with the keys it pruned (its `to_ignore` entry, test.py:145), counted on the table the earlier cuts left |
| Pruning.PruneLogDims | test.py:145 | entry i of the record belongs to cut i |
| Pruning.NoLeakStep | test.py:189-196 | no row of the narrowed table matches a key pruned in that iteration |
| Pruning.NoLeakAfterAll | test.py:183-196 | after any number of cuts, no row of the current table matches any key pruned at any earlier or current cut |
| Pruning.GroupMonotone | test.py:186-187 | a sub-multiset of rows has sub-multiset groups and counts that are no larger |
| Pruning.NarrowMonotone | test.py:189-194 | a higher threshold on fewer rows narrows to a sub-multiset of a lower threshold on more rows |
| Pruning.ThresholdMonotone | test.py:172-194 | the rows left after the whole loop at a threshold are a sub-multiset of those left at any lower threshold |
| Pruning.LowThresholdPrunesNothing | test.py:189 | a threshold of at most 1 prunes no key |
| Pruning.SemiJoinKeepsAll | test.py:194 | the join with every row's key keeps the table as it is |
| Pruning.ThresholdOneKeepsAll | test.py:172-194 | with threshold at most 1 and no nulls in the cuts, the loop keeps every row |
| Pruning.PruneStep | test.py:186-194 | one more cut leaves the previous table joined with its kept keys, and adds its pruned keys to the record |
| Pruning.CheckerStep | test.py:194-196 | after one more cut the checker's record stays within the loop's record and the check of the narrowed table passes |
| Pruning.PrunedBlock | test.py:198 | (corrected; see Findings) the metric grouped on the current cut, over the table that all cuts so far have left |
| Pruning.PrunedBlocks | test.py:183-200 | (corrected; see Findings) the blocks the results list collects, one per cut in order |
| Pruning.PrunedBlockFacts | test.py:198 | a cut's block, computed on the narrowed table, has unique keys and exactly that cut as parameters |
| Pruning.PrunedBlocksFacts | test.py:183-198 | block i of the results has unique keys and exactly cut i as its parameters |
| Pruning.PrunedBlocksSnoc | test.py:198-200 | each iteration appends its cut's block to the results |
| Pruning.PrunedCutsUnique | test.py:198-200 | for distinct dimensions, the concatenated per-cut results of the pruning loop have pairwise distinct (label, parameters) keys |
| Pruning.AsWrittenBlock | test.py:198 | (as written) the metric grouped on the full dimension list, over the table that all cuts so far have left |
| Pruning.AsWrittenBlocks | test.py:183-200 | (as written) the blocks the results list collects, one per cut in order |
| Pruning.FlattenPrefix | test.py:104 | concatenating the first blocks gives a prefix of concatenating them all |
| Pruning.AsWrittenFirstTwo | test.py:198 | as written, with nothing pruned, the first two blocks are both the metric over all dimensions on the whole table |
| Pruning.RepeatedBlockNotUnique | test.py:198-200 | two equal non-empty leading blocks make the concatenation repeat a key |
| Pruning.AsWrittenRepeatsKeys | test.py:198 | as written, for two or more dimensions, a threshold of 1 and a non-empty table with no nulls, the concatenated results repeat a (label, parameters) key |
| Pruning.ProblemTwo | test.py:173-200 | the loop fails exactly when a dimension is missing, naming it; otherwise its final table and its results are those of the cut-by-cut specification, the table is a sub-multiset of the input, and with distinct dimensions the keys are unique; that every checker call passes is an assertion proved in the body, not part of the contract |

## Left out

- Reading the CSV files and joining women with households (test.py:27-34).
  The model takes one already-joined table.
- `custom_metric` (test.py:14-20) is floating-point division over columns.
  The metric is an arbitrary function of the group's rows. Its `label`
  attribute (test.py:24) is the metric's optional `name`.
- JSON serialisation of parameters (test.py:112), logging (solution.py:69,
  test.py:10), and pytest fixtures and parametrisation
  (test.py:50-65, 121-158, 161-172). Key uniqueness is stated directly on
  (label, parameters) pairs. The fixture's generator becomes a class whose
  field outlives each call.
- pandas index mechanics. Results are freshly built rows with exactly three
  fields, so "every block has the same three columns" (test.py:105-106)
  holds by the `MetricRow` type and needs no lemma.
- Engine.ComputeMetric: groups come out in first-appearance order, not in
  pandas' ascending key order. No order is defined on values.
- Pruning.Count: counts the rows of a group. pandas counts the non-null
  values of the table's first column (test.py:186), which can be fewer.
- Pruning.ProblemTwo: the join does not add the `n_observations` column,
  nor the suffixed copies that later iterations would add (test.py:194).
  No modelled computation reads that column. The omission is not harmless
  in general: from the fourth cut on the merge would add a suffixed column
  that already exists, which recent pandas versions reject with an error
  and older ones only warn about. With three or more dimensions the source
  loop may therefore fail where the model succeeds. This has not been
  executed; it is a reading of pandas' documented merge behaviour.
- Pruning.ProblemTwo: a negative threshold is accepted, as in the code.
  No line of test.py rejects it. A negative threshold prunes nothing, like a
  threshold of 1.
- Checker.BlacklistChecker.EnsureNoBlacklistedData: requires every
  recorded cut's columns to be present in the data. The loop always
  supplies them.
- Grouping an empty table: the model returns no result rows. In the
  source, `groupby(...).apply(...)` on an empty frame gives an empty
  frame, and the `.to_frame()` call at solution.py:18 then likely raises
  an error, since a frame has no such method. A high threshold can empty
  the table in the loop of test.py:183-200, so the source may fail there
  where `Pruning.ProblemTwo` returns empty blocks. This has not been
  executed; it is a reading of pandas' behaviour.

## Findings

| source | as written | input that shows it | evidently intended | confidence | as-written member | corrected member |
|---|---|---|---|---|---|---|
| test.py:198 | every iteration computes the metric grouped on the full `dimensions` list, not on the current cut `group` | dimensions [A, B], both columns, threshold 1, one row with non-null A and B: the first two blocks are the same groups under the same label, so the keys repeat | `compute_metric(data, group, …)`: one block per cut, keys unique across blocks | not executed | Pruning.AsWrittenRepeatsKeys, about Pruning.AsWrittenBlocks | Pruning.PrunedCutsUnique |
| test.py:146-156 | `raw_data` is narrowed by every combination in turn and never reset, so after the first combination empties it every later one passes unchecked | a table with one row A = 2, and cut [A] with pruned keys (1) and (2): the row leaks and the check passes | filter a fresh copy per combination, so the check passes exactly when no row matches any pruned key | not executed | Checker.CumulativeCheckMissesLeak, about Checker.CumulativeCheck | Checker.BlacklistChecker.EnsureNoBlacklistedData |
| test.py:147-150 | a one-dimension key is wrapped in a tuple only when it is not iterable; a string key is iterable, so it is zipped character by character against the one dimension | a table with one row A = "ab", and cut [A] with pruned key ("ab"): the row is compared with "a", never matches, and the check passes | wrap every one-dimension key, strings included, so the whole value is compared | not executed | Checker.StringKeyEscapesCheck, about Checker.AsWrittenCombo | Checker.BlacklistChecker.EnsureNoBlacklistedData |
