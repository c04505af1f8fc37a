# Seeded versus unseeded fuzzing runs: overlap counts and growth curves

This project models, in Dafny, the two analysis scripts of a thesis
repository that compares seeded and unseeded runs of a REST API fuzzer.

- `scripts/analysis.py` compares the targets a run covered. The inputs are:
  - S, the seed corpus;
  - Es, what a seeded run saw beyond S;
  - Eu, what an unseeded run saw.

  From these sets it computes eight cardinalities. It averages those
  records field by field and enumerates every seeded × unseeded pair of
  runs. Module `Analysis` in `analysis.dfy` models it.
- `scripts/plot.py` works on each run's CSV time series. It does the
  following:
  - de-duplicates timestamps;
  - fills every second from the first to the last;
  - forward-fills missing values;
  - assigns each second to a `time_interval` bucket;
  - averages the runs of one configuration per (second, bucket);
  - truncates the averaged series at a time bound;
  - computes the growth between a checkpoint and the end of the series.

  Module `Preprocess` in `preprocess.dfy` models `preprocess_data`.
  Module `Plot` in `plot.dfy` models the rest.

The modelling choices:

- A data frame is a sequence of rows and a timestamp is an `int`.
- A metric value is `Option<real>` (module `Wrappers`), with `None` standing
  for pandas' NaN.
- A run's CSV file is `Loaded(rows)` or `Missing`, and a targets JSON file
  is a `TargetCollection` record.
- The loops of `calculate_averages`, `process_sut`, `load_and_average` and
  `truncate_dataframes_to_elapsed_second` are methods with loops. Each is
  proved against a function that states what it computes.
- The frame pipelines of `preprocess_data` and `calculate_growth_percentage`
  are functions.

Where the dictionary labels and the code differ, the model follows the code.
Two labels look different from what the code computes, and both are proved
harmless:
- `"|S \ Eu|"` is computed as `|S − Es − Eu|`. That equals `|S − Eu|`
  because Es is disjoint from S (`Analysis.SeedPartition`).
- `"Eu \ Es"` is computed as `|Eu − S − Es|`. It is one part of a three-way
  partition of Eu (`Analysis.UnseededPartition`).

## Model

| member | source | states |
|---|---|---|
| Analysis.StartsWith | scripts/analysis.py:12-14 | `x.startswith(prefix)`: the first \|prefix\| characters of x are the prefix; no contract of its own; `PrefixRestrictsAll` is about it |
| Analysis.Filters | scripts/analysis.py:11 | Python's `if prefix:`, false for None and for ""; no contract of its own; `FilterIds` and `NoPrefixNoFilter` state what it switches |
| Analysis.IdSet | scripts/analysis.py:16-18 | `set(...)` of a list: its identifiers; no contract of its own; `NoPrefixNoFilter`, `SameIds` and `DependsOnlyOnSets` are about it |
| Analysis.FilterIds | scripts/analysis.py:11-18 | with a non-empty prefix the set holds exactly the listed identifiers that start with it; with None or "" exactly the listed identifiers |
| Analysis.RunSetsOf | scripts/analysis.py:20-21 | once the seed has been removed, the seeded-run set is disjoint from the seed set |
| Analysis.Analyze | scripts/analysis.py:9-45 | "\|S\|" is the size of the (filtered) seed set, "\|Eu\|" the size of the unseeded run's set |
| Analysis.DiscardedIntersectionsEmpty | scripts/analysis.py:21-34 | `seed_and_seeded_run` and `all_three_intersection` are always 0 |
| Analysis.TotalIsDisjointUnion | scripts/analysis.py:21-23 | "\|Es\|" = "\|S\|" + \|lastSeen − seeded\| of the seeded run: the union is disjoint |
| Analysis.SeedPartition | scripts/analysis.py:26-32 | "\|S\|" = "\|S \ Eu\|" + "S ∩ Eu", and "\|S \ Eu\|" is \|S − Eu\| |
| Analysis.UnseededPartition | scripts/analysis.py:28-33 | "\|Eu\|" = "Eu \ Es" + "S ∩ Eu" + "Es ∩ Eu" |
| Analysis.UnionPartition | scripts/analysis.py:26-33 | the three unique counts and the two returned intersections partition S ∪ Es ∪ Eu |
| Analysis.PrefixRestrictsAll | scripts/analysis.py:11-14 | with a non-empty prefix every identifier in any of the three sets starts with it |
| Analysis.NoPrefixNoFilter | scripts/analysis.py:15-18 | with None or "" the three sets are those of the input lists, the seed taken out of the seeded run |
| Analysis.DependsOnlyOnSets | scripts/analysis.py:12-18 | duplicates and order in the input lists do not change the result |
| Analysis.SameIds | scripts/analysis.py:12-18 | lists with the same identifiers give the same filtered set |
| Analysis.ToDict | scripts/analysis.py:36-45 | the returned dictionary has exactly the eight listed keys, which are pairwise distinct (eight entries), and each holds its matching count |
| Analysis.AnalyzeExample | scripts/analysis.py:9-45 | seed {a,b}: seeded runs that saw {a,b,c} and {a,b,d}, against an unseeded run that saw {c,e}, give (3,2,2,2,0,1,0,1) and (3,2,2,2,1,2,0,0) |
| Analysis.ExampleRunSets | scripts/analysis.py:16-21 | the three sets of that example |
| Analysis.ExampleCountsC | scripts/analysis.py:23-45 | the eight counts of the first pairing |
| Analysis.ExampleCountsD | scripts/analysis.py:23-45 | the eight counts of the second pairing |
| Analysis.KeySum | scripts/analysis.py:54-56 | the running sum of one key over the records, a record without the key adding nothing; no contract of its own; its laws are `KeySumAdditive` and `KeySumConstant`, and `CalculateAverages` is proved against it |
| Analysis.CalculateAverages | scripts/analysis.py:47-61 | empty input gives an empty dictionary; otherwise the keys are those of the first record and each value is the key's sum over all records divided by their number |
| Analysis.KeySumAdditive | scripts/analysis.py:54-56 | a linear law that holds between three keys in every record also holds between their sums |
| Analysis.KeySumConstant | scripts/analysis.py:54-56 | the sum of a key over n records that all hold c there is n·c (so its average is c) |
| Analysis.RecordSeedPartition | scripts/analysis.py:70-77 | every dictionary `process_sut` collects has "\|S\|" = "\|S \ Eu\|" + "S ∩ Eu" |
| Analysis.AveragedSeedPartition | scripts/analysis.py:54-77 | over all records `process_sut` collects, the sum of "\|S\|" is the sum of "\|S \ Eu\|" plus the sum of "S ∩ Eu"; each record gets the law from `SeedPartition`, and the averages divide all three sums by the same count |
| Analysis.PairRow | scripts/analysis.py:74-76 | the inner loop yields one result per unseeded run, the j-th being the analysis of the pair with unseeded run j |
| Analysis.AllPairs | scripts/analysis.py:72-76 | the results of the double loop, outer over seeded runs, inner over unseeded runs; no contract of its own; its properties are `AllPairsLength`, `AllPairsAt`, `AllPairsIndexed` and `AllPairsFrom` |
| Analysis.AllPairsLength | scripts/analysis.py:72-76 | the enumeration has \|seeded\| × \|unseeded\| elements |
| Analysis.AllPairsAt | scripts/analysis.py:72-76 | element i·\|unseeded\| + j is the result for seeded i and unseeded j |
| Analysis.AllPairsIndexed | scripts/analysis.py:72-76 | the same for all i and j at once |
| Analysis.AllPairsFrom | scripts/analysis.py:72-76 | every result of the enumeration is the result of some (seeded, unseeded) pair |
| Analysis.ProcessPairs | scripts/analysis.py:71-77 | the double loop appends exactly the ordered enumeration of pairs |
| Analysis.AnalyzeWith | scripts/analysis.py:76 | `analyze(…, prefix=prefix)` as a function of the pair; no contract of its own; `ProcessSut` and `SutRecords` apply it |
| Analysis.SutRecords | scripts/analysis.py:70-77 | the dictionaries `process_sut` returns: \|seeded\| × \|unseeded\| of them, each with exactly the eight labels |
| Analysis.ProcessSut | scripts/analysis.py:70-77 | \|seeded\| × \|unseeded\| records, record i·\|unseeded\| + j being the analysis of seeded i against unseeded j |
| Preprocess.FloorDiv | scripts/plot.py:13 | Python's `//` on integers; no contract of its own; its meaning is `FloorDivBounds` |
| Preprocess.Bucket | scripts/plot.py:13 | `(s // interval) * interval`; no contract of its own; its properties are `BucketBounds` and `MultipleMod` |
| Preprocess.FloorDivBounds | scripts/plot.py:13 | `//` rounds toward negative infinity for either sign of the divisor |
| Preprocess.BucketBounds | scripts/plot.py:13 | the bucket is a multiple of the interval; for a positive interval bucket ≤ s < bucket + interval, and the mirror image for a negative one |
| Preprocess.MultipleMod | scripts/plot.py:13 | a multiple of b leaves remainder 0 |
| Preprocess.DropDuplicates | scripts/plot.py:9 | `drop_duplicates` on the timestamp, keeping the first row; no contract of its own; its properties are `DropDuplicatesSubset`, `DropDuplicatesSeconds`, `DropDuplicatesDistinct` and `DropDuplicatesKeepsFirst` |
| Preprocess.Without | scripts/plot.py:9 | the rows at other timestamps, in order, never more rows than the input; `WithoutMembers` and `WithoutSeconds` state its contents |
| Preprocess.FirstValue | scripts/plot.py:9-11 | the value the left merge gives a second: that of its first row, None when it has none; no contract of its own; `FirstValueWithout`, `DropDuplicatesKeepsFirst` and `DenseFirstValue` are about it |
| Preprocess.WithoutMembers | scripts/plot.py:9 | removing a timestamp keeps exactly the rows at other timestamps |
| Preprocess.WithoutSeconds | scripts/plot.py:9 | removing a timestamp removes it, and only it, from the set of timestamps |
| Preprocess.DropDuplicatesSubset | scripts/plot.py:9 | de-duplication keeps only input rows |
| Preprocess.DropDuplicatesSeconds | scripts/plot.py:9 | de-duplication loses no timestamp |
| Preprocess.DropDuplicatesDistinct | scripts/plot.py:9 | after de-duplication no two rows share a timestamp |
| Preprocess.FirstValueWithout | scripts/plot.py:9 | removing another timestamp does not change the first value at a timestamp |
| Preprocess.DropDuplicatesKeepsFirst | scripts/plot.py:9 | for every timestamp, the value kept is that of its first occurrence |
| Preprocess.MinSecond | scripts/plot.py:10 | the smallest timestamp of a non-empty frame; no contract of its own; its properties are `SecondBounds` and `SameSecondsSameBounds` |
| Preprocess.MaxSecond | scripts/plot.py:10 | the largest timestamp of a non-empty frame; no contract of its own; its properties are `SecondBounds` and `SameSecondsSameBounds` |
| Preprocess.Joined | scripts/plot.py:10-11 | the left join onto every second from the minimum: one entry per second, the first value at that second or None |
| Preprocess.SecondBounds | scripts/plot.py:10 | `min` and `max` are timestamps of the data, and every timestamp lies between them |
| Preprocess.SameSecondsSameBounds | scripts/plot.py:9-10 | `min` and `max` depend only on the set of timestamps |
| Preprocess.DedupedBounds | scripts/plot.py:9-10 | the range taken after de-duplication is the range of the raw data |
| Preprocess.FillFrom | scripts/plot.py:12 | forward fill carrying a last present value; it keeps the length, and `FillFromStep` gives its recurrence |
| Preprocess.ForwardFill | scripts/plot.py:12 | `fillna(method='ffill')`; it keeps the length, and `ForwardFillStep` and `ForwardFillNoGaps` give its meaning |
| Preprocess.FillFromStep | scripts/plot.py:12 | forward fill entry by entry, carrying the last present value |
| Preprocess.ForwardFillStep | scripts/plot.py:12 | a present value is kept; a missing one takes the filled value of the previous entry; a leading missing value stays missing |
| Preprocess.ForwardFillNoGaps | scripts/plot.py:12 | with no missing value, forward fill changes nothing |
| Preprocess.PreprocessData | scripts/plot.py:8-15 | one row per integer second from min to max inclusive, ascending (length max − min + 1), each with bucket `(s // interval) * interval` |
| Preprocess.PreprocessFilled | scripts/plot.py:9-12 | helper: it unfolds `PreprocessData`, saying the output values are the forward fill of the first values joined onto the full range; `PreprocessValues` states the property |
| Preprocess.PreprocessValues | scripts/plot.py:9-12 | a second whose first occurrence has a present value keeps it; any other second repeats the row before it, and the first row stays missing |
| Preprocess.PreprocessCoversInput | scripts/plot.py:10-11 | every input timestamp has its row in the output, at its offset from the minimum |
| Preprocess.PreprocessSingle | scripts/plot.py:8-15 | a single sample gives a single row |
| Preprocess.DenseFirstValue | scripts/plot.py:11 | on consecutive timestamps, the joined value at offset i is row i's |
| Preprocess.DenseBounds | scripts/plot.py:10 | on consecutive timestamps, min is the first and max is the last |
| Preprocess.PreprocessDenseIdentity | scripts/plot.py:8-15 | with no gaps, no duplicates and no missing values, the rows are the input's with the bucket added |
| Plot.SeededFilter | scripts/plot.py:23-24 | the rows a run keeps; it never adds rows, and `SeededFilterMembers` says which it keeps |
| Plot.SeededFilterMembers | scripts/plot.py:23-24 | a seeded run keeps exactly its rows with `notExecutedSeededTests == 0` (a NaN count is dropped); an unseeded run keeps all rows |
| Plot.ToPlot | scripts/plot.py:25-28 | the plotted value of a row: the metric, or its ratio to the divisor; no contract of its own; `Ratio` carries the division's contract |
| Plot.Ratio | scripts/plot.py:25-26 | the ratio is present iff metric and divisor are present and the divisor is non-zero, and then ratio × divisor = metric; a zero divisor gives a missing value, not an error |
| Plot.RunPoints | scripts/plot.py:23-29 | one point per row kept by the seeded filter |
| Plot.LoadedFrames | scripts/plot.py:19-33 | the preprocessed frames of the existing run files, in run order; no contract of its own; its properties are `LoadedFramesEmpty` and `LoadedFramesBucketed` |
| Plot.Loadable | scripts/plot.py:10 | a run is missing or keeps a row after the `notExecutedSeededTests` filter of scripts/plot.py:23-24, so that `int(min())` is defined; no contract of its own; `LoadedFrames` and `LoadAndAverage` require it |
| Plot.Concat | scripts/plot.py:37 | `pd.concat` of the frames, one after another; no contract of its own; `ValuesAtConcat` and `LoadedFramesBucketed` are about it |
| Plot.LoadedFramesEmpty | scripts/plot.py:19-35 | no frame is loaded exactly when every run file is missing |
| Plot.GroupMean | scripts/plot.py:38 | the group-by mean, smallest key first; no contract of its own; its properties are `GroupMeanKeys`, `GroupMeanAscending`, `GroupMeanValue` and `GroupMeanBucketed` |
| Plot.MeanOf | scripts/plot.py:38 | pandas' NaN-skipping mean of a group; no contract of its own; `MeanOfConstant` is about it |
| Plot.Keys | scripts/plot.py:38 | the (elapsedSeconds, time_interval) groups of a frame; no contract of its own; `KeysCons` and `GroupMeanKeys` are about it |
| Plot.MinKey | scripts/plot.py:38 | the first group in groupby's sorted order; no contract of its own; `MinKeyBounds` states it |
| Plot.OtherKeys | scripts/plot.py:38 | the rows outside one group, in order, never more rows than the input; `OtherKeysMembers` and `OtherKeysShorter` state its contents |
| Plot.ValuesAt | scripts/plot.py:38 | the values of one group, in row order; no contract of its own; `ValuesAtOther`, `ValuesAtAppend` and `ValuesAtConcat` are about it |
| Plot.Present | scripts/plot.py:38 | the non-NaN values that `mean()` averages, never more than the group has; `MeanOfConstant` and `GroupMeanValue` use it |
| Plot.MinKeyBounds | scripts/plot.py:38 | the smallest group key occurs and no row has a smaller one |
| Plot.OtherKeysMembers | scripts/plot.py:38 | taking one group out keeps exactly the rows of the other groups |
| Plot.OtherKeysShorter | scripts/plot.py:38 | taking out a group that occurs removes at least one row |
| Plot.ValuesAtOther | scripts/plot.py:38 | taking one group out does not change the values of another group |
| Plot.ValuesAtAppend | scripts/plot.py:37-38 | the values of a group in two concatenated frames are those of the first frame, then those of the second |
| Plot.GroupMeanStep | scripts/plot.py:38 | helper: it unfolds `GroupMean` once, the smallest key's group first, then the groups of the other rows |
| Plot.KeysCons | scripts/plot.py:38 | the keys of a row followed by rows are its key and theirs |
| Plot.GroupMeanKeys | scripts/plot.py:38 | the averaged frame has a row for exactly the (elapsedSeconds, time_interval) keys of the input |
| Plot.GroupMeanAscending | scripts/plot.py:38 | the averaged frame is strictly ascending by key, so there is one row per key |
| Plot.LaterGroupsAbove | scripts/plot.py:38 | every group after the first has a larger key |
| Plot.GroupMeanValue | scripts/plot.py:37-38 | each averaged value is the mean of the present values at its key, and missing if there are none |
| Plot.MeanOfConstant | scripts/plot.py:38 | the mean of equal present values is that value |
| Plot.SumConstant | scripts/plot.py:38 | a sum of n equal values is n times the value |
| Plot.AverageOf | scripts/plot.py:34-40 | None for no existing run file, otherwise the group mean of the concatenated frames; no contract of its own; `LoadAndAverage` is proved against it, and `AverageOrdered` states its order and buckets |
| Plot.LoadAndAverage | scripts/plot.py:17-40 | the loop collects one preprocessed frame per existing run, in run order, and returns their group mean; the result is None exactly when every run file is missing |
| Plot.ValuesAtConcat | scripts/plot.py:37-38 | the values averaged at a key are those of each loaded run at that key, run after run |
| Plot.LoadedFramesBucketed | scripts/plot.py:13-37 | every concatenated row carries the bucket of its second |
| Plot.GroupMeanBucketed | scripts/plot.py:38 | averaging keeps every row's bucket equal to that of its second |
| Plot.AverageOrdered | scripts/plot.py:37-38 | the averaged series has strictly ascending seconds, so one row per second, each with its second's bucket |
| Plot.UpTo | scripts/plot.py:46 | the rows with `elapsedSeconds <= bound`, in order; it never adds rows, and `UpToMembers`, `UpToAppend` and `UpToAll` state its properties |
| Plot.TruncateFrame | scripts/plot.py:44-48 | None stays None, a frame is truncated; no contract of its own; `TruncateDataframes` is proved against it |
| Plot.UpToMembers | scripts/plot.py:46 | truncation keeps exactly the rows with `elapsedSeconds <= bound` |
| Plot.UpToAppend | scripts/plot.py:46 | truncation keeps the order of rows: it distributes over concatenation |
| Plot.UpToAll | scripts/plot.py:46 | a frame that ends before the bound is unchanged |
| Plot.TruncateDataframes | scripts/plot.py:42-49 | as many outputs as inputs; None stays None; each frame is truncated to the bound |
| Plot.AsPoints | scripts/plot.py:55-56 | the (elapsedSeconds, to_plot) columns of a frame, one point per row; `AsPointsSeconds` is about it |
| Plot.SecondsOf | scripts/plot.py:55 | `data['elapsedSeconds'].values` as a set; no contract of its own; `AsPointsSeconds` and `OccursSeconds` are about it |
| Plot.Occurs | scripts/plot.py:55 | the `in` test on the timestamps; no contract of its own; `OccursSeconds` states it |
| Plot.AsPointsSeconds | scripts/plot.py:55-56 | a frame's timestamps are those of its (elapsedSeconds, to_plot) columns |
| Plot.OccursSeconds | scripts/plot.py:55 | the scan for the requested second succeeds exactly when it is one of the frame's timestamps |
| Plot.SnapSecond | scripts/plot.py:55-56 | the requested second when it occurs, else the largest timestamp before it; no contract of its own; `SnapSecondLatest` states its meaning |
| Plot.SnapSecondLatest | scripts/plot.py:55-56 | the checkpoint second is a timestamp of the frame, ≤ the requested second, and ≥ every timestamp ≤ it |
| Plot.GrowthOf | scripts/plot.py:61 | a finite percentage exactly when both values are present and the base is non-zero |
| Plot.GrowthRoundTrip | scripts/plot.py:61 | growing the checkpoint value by the percentage gives back the last value |
| Plot.CalculateGrowth | scripts/plot.py:51-62 | None (NoData) exactly for None or an empty frame |
| Plot.FirstValueRow | scripts/plot.py:58 | `iloc[0]` at a timestamp picks the first row with that timestamp |
| Plot.GrowthAtCheckpoint | scripts/plot.py:55-61 | the growth compares the first row at the latest timestamp ≤ the checkpoint with the last row |
| Plot.GrowthExample | scripts/plot.py:51-62 | seconds 0, 10, 20 with values 100, 100, 200 and checkpoint 15: snapped to 10, growth 100% |
| Plot.LastMetricValue | scripts/plot.py:64-67 | None exactly for None or an empty frame |
| Plot.LastValueUntruncated | scripts/plot.py:42-67 | truncating at a bound past the last second does not change the last value |
| Plot.FrameMax | scripts/plot.py:80-81 | `['elapsedSeconds'].max()` of a frame; no contract of its own; `FrameMaxBounds` states it |
| Plot.FrameMaxBounds | scripts/plot.py:80-81 | a frame's `max` is one of its timestamps and bounds them all |
| Plot.CommonMaxTime | scripts/plot.py:80-81 | the minimum of the last timestamps of the frames that exist: at most each of them, and equal to one; an empty unseeded frame beside a non-empty seeded one is skipped, as Python's `min` skips a NaN second argument |
| Plot.TruncateReal | scripts/plot.py:82 | `int()` rounds toward zero |
| Plot.Checkpoint | scripts/plot.py:82 | `int(common_max_time * percentage_point / 100)`; no contract of its own; its properties are `CheckpointQuotient` and `CheckpointWithin` |
| Plot.CheckpointQuotient | scripts/plot.py:82 | for a non-negative product the checkpoint is the integer quotient `common * pct / 100` |
| Plot.CheckpointWithin | scripts/plot.py:82 | for a percentage in 0..100 of a non-negative time, the checkpoint lies between 0 and that time |
| Plot.Bounded | scripts/plot.py:77-78 | the frame, truncated when a last second is given; present exactly when the input frame is |
| Plot.NonNegative | scripts/plot.py:77-78 | every timestamp of a present frame is non-negative; no contract of its own; `BoundedNonNegative` and `ReportCheckpoint` use it |
| Plot.BoundedNonNegative | scripts/plot.py:77-78 | truncation keeps every timestamp non-negative and keeps a frame present exactly when it was |
| Plot.ReportDefined | scripts/plot.py:80-88 | the inputs for which the report is computed without an exception; a predicate, and `GrowthReport` requires it |
| Plot.GrowthReport | scripts/plot.py:73-119 | no data at all gives `{}`; otherwise a growth entry exists exactly for the configurations that have data, and a last value exactly for those whose frame keeps a row after truncation; an unseeded frame truncated to nothing has growth `None` |
| Plot.SharedCheckpoint | scripts/plot.py:80-88 | for every percentage and every timestamp, both growth entries of the report are the growth at one and the same checkpoint, `Checkpoint(CommonMaxTime(s, u), percentage)` of the truncated frames s and u |
| Plot.ReportCheckpoint | scripts/plot.py:77-88 | for a percentage in 0..100 and non-negative timestamps, the shared checkpoint `Checkpoint(CommonMaxTime(s, u), percentage)` is non-negative, at or below the last second of every non-empty frame, and has a row at or before it in each of them; both growth entries are taken at it |
| Plot.ReportEmptiedUnseeded | scripts/plot.py:77-88 | truncation that empties the unseeded frame while the seeded frame keeps a row is not an error: the unseeded growth and last value are `None`, the seeded growth is computed |
| Plot.PlotAverageAndCalculateGrowth | scripts/plot.py:69-119 | loading, optional truncation, checkpoint, growth and last values compute the report of the two averaged configurations |

## Left out

- Reading files (`read_json`, `pd.read_csv`) and building paths from the system name and run number. Loaded data are inputs: a `TargetCollection`, or a `RunFile` that is `Loaded(rows)` or `Missing`. The system name is not modelled.
- Plotting and printing (matplotlib, `print_averages`, the warnings), the module-level driver code and the path tables: they only present or wire results.
- scripts/csvToPostman.py is not part of this model: it maps records through `urllib.parse` and pandas and holds no logic of its own.
- Floating point: values are exact `real`s, and rounding is not modelled. NaN is `None`. An infinite or NaN growth is a single `NonFinite` value, and `inf` as the maximum of an absent frame is replaced by taking only the frames that exist.
- Plot.ReportCheckpoint: its bounds on the checkpoint hold only for a percentage in 0..100 over non-negative timestamps; the source accepts any percentage, and percentage 150 on a frame ending at second 10 gives checkpoint 15, past the frame. `SharedCheckpoint` states the common checkpoint without these conditions.
- Plot.CalculateGrowth: a NaN or zero value at the checkpoint gives `NonFinite` rather than IEEE NaN or ±inf.
- Analysis.CalculateAverages: requires that no record has a key the first record lacks, because Python raises KeyError there. The sums are exact, not floating point.
- Analysis.Analyze: a targets file without `seeded` or `lastSeen` (KeyError) is not modelled, since the record always has both fields.
- Preprocess.PreprocessData: requires a non-empty frame, because pandas takes `int()` of a NaN minimum otherwise. It also requires a non-zero interval, because pandas gives NaN buckets for interval 0. Timestamps are integers; fractional `elapsedSeconds` are not modelled.
- Plot.LoadAndAverage: requires every existing run file to keep at least one row: a seeded file after the `notExecutedSeededTests == 0` filter, an unseeded file as read. An empty frame is the same crash as above (`int()` of a NaN minimum, scripts/plot.py:10).
- Plot.PlotAverageAndCalculateGrowth: requires `ReportDefined`, which excludes only inputs that raise. The maximum of a frame truncated to nothing is NaN, and `min` keeps its first argument unless the second compares smaller. So an empty seeded frame makes `min` return NaN and `int()` raise ValueError. An empty unseeded frame with no seeded data makes `min` return `inf`, and `int()` raises OverflowError (ValueError at percentage 0). An empty unseeded frame beside a non-empty seeded one is modelled and gives growth `None` and last value `None`. Each non-empty frame must also have a row at or before the checkpoint, or `iloc[0]` raises IndexError.
- Plot.GrowthReport: the `{}` result and the 3-tuple are modelled as one `Report` datatype. `NoDataFound` stands for `{}`. A missing growth entry is `None`.
- Plot.CsvRow: only the columns the script reads are modelled. The divisor column is chosen by a flag, and a divisor column that is named but absent is not modelled. A percentage point is an `int`.
- Plot.GroupMean: groups are ordered by (elapsedSeconds, time_interval), as pandas sorts group keys. Row order within the input frame is otherwise not kept.
