/**
 * scripts/plot.py apart from `preprocess_data`: loading and averaging the runs
 * of one configuration, truncating the averaged series at a time bound, the
 * growth percentage between a checkpoint and the end of a series, the last
 * value of a series, and the checkpoint arithmetic that ties them together.
 * A run's CSV file is given as its rows, or as `Missing` when it does not exist.
 */
module Plot {
  import opened Wrappers
  import opened Preprocess

  // ---------------------------------------------------------------------------
  // Run files

  /** The columns of a run's CSV file that the script reads; a NaN cell is None. */
  datatype CsvRow = CsvRow(
    elapsedSeconds: int,
    metric: Option<real>,
    divisor: Option<real>,
    notExecutedSeededTests: Option<int>)

  /** A run's CSV file: absent (FileNotFoundError) or read. */
  datatype RunFile = Missing | Loaded(rows: seq<CsvRow>)

  /** The rows of a run that are used: seeded runs keep only rows with every seeded test executed. */
  function SeededFilter(rows: seq<CsvRow>, seeded: bool): (r: seq<CsvRow>)
    ensures |r| <= |rows|
  {
    if !seeded || rows == [] then rows
    else (if rows[0].notExecutedSeededTests == Some(0) then [rows[0]] else []) + SeededFilter(rows[1..], seeded)
  }

  /** A seeded run keeps exactly its rows whose notExecutedSeededTests is 0 (a NaN count is dropped). */
  lemma {:induction false} SeededFilterMembers(rows: seq<CsvRow>, seeded: bool)
    ensures seeded ==> forall x :: x in SeededFilter(rows, seeded) <==> x in rows && x.notExecutedSeededTests == Some(0)
    ensures !seeded ==> SeededFilter(rows, seeded) == rows
  {
    if seeded && rows != [] {
      SeededFilterMembers(rows[1..], seeded);
      assert forall x :: x in rows <==> x == rows[0] || x in rows[1..];
    }
  }

  /** `metric / divisor.replace(0, NaN)`: a zero divisor gives a missing value, not an error. */
  function Ratio(metric: Option<real>, divisor: Option<real>): (r: Option<real>)
    ensures r.Some? <==> metric.Some? && divisor.Some? && divisor.value != 0.0
    ensures r.Some? ==> r.value * divisor.value == metric.value
  {
    if metric.None? || divisor.None? || divisor.value == 0.0 then None
    else Some(metric.value / divisor.value)
  }

  /** The `to_plot` column of one row: the metric, divided when a divisor column is named. */
  function ToPlot(row: CsvRow, divide: bool): (v: Option<real>) {
    if divide then Ratio(row.metric, row.divisor) else row.metric
  }

  /** The (elapsedSeconds, to_plot) rows handed to `preprocess_data`. */
  function RunPoints(rows: seq<CsvRow>, seeded: bool, divide: bool): (r: seq<Point>)
    ensures |r| == |SeededFilter(rows, seeded)|
  {
    var kept := SeededFilter(rows, seeded);
    seq(|kept|, i requires 0 <= i < |kept| => Point(kept[i].elapsedSeconds, ToPlot(kept[i], divide)))
  }

  /**
   * A run can be loaded without an exception: it is missing, or it keeps at
   * least one row (on no rows pandas takes int() of a NaN minimum).
   */
  predicate Loadable(run: RunFile, seeded: bool) {
    run.Missing? || SeededFilter(run.rows, seeded) != []
  }

  // ---------------------------------------------------------------------------
  // load_and_average

  /** The preprocessed frames of the runs that exist, in run order. */
  function LoadedFrames(runs: seq<RunFile>, seeded: bool, divide: bool, interval: int): (frames: seq<seq<Sample>>)
    requires interval != 0
    requires forall i :: 0 <= i < |runs| ==> Loadable(runs[i], seeded)
  {
    if runs == [] then []
    else
      var last := runs[|runs| - 1];
      assert Loadable(last, seeded);
      LoadedFrames(runs[..|runs| - 1], seeded, divide, interval) +
        (if last.Loaded? then [PreprocessData(RunPoints(last.rows, seeded, divide), interval)] else [])
  }

  /** One frame per run whose file exists: none at all exactly when every file is missing. */
  lemma {:induction false} LoadedFramesEmpty(runs: seq<RunFile>, seeded: bool, divide: bool, interval: int)
    requires interval != 0
    requires forall i :: 0 <= i < |runs| ==> Loadable(runs[i], seeded)
    ensures LoadedFrames(runs, seeded, divide, interval) == [] <==> forall i :: 0 <= i < |runs| ==> runs[i].Missing?
  {
    if runs != [] {
      var init := runs[..|runs| - 1];
      LoadedFramesEmpty(init, seeded, divide, interval);
      assert forall i :: 0 <= i < |init| ==> init[i] == runs[i];
    }
  }

  /** `pd.concat(frames)`: the rows of every frame, frame after frame. */
  function Concat(frames: seq<seq<Sample>>): (r: seq<Sample>) {
    if frames == [] then [] else Concat(frames[..|frames| - 1]) + frames[|frames| - 1]
  }

  /** The group-by key. */
  datatype Key = Key(second: int, bucket: int)

  function KeyOf(s: Sample): (k: Key) {
    Key(s.second, s.bucket)
  }

  /** The order of groupby's output: by elapsedSeconds, then by time_interval. */
  predicate Less(a: Key, b: Key) {
    a.second < b.second || (a.second == b.second && a.bucket < b.bucket)
  }

  function Keys(rows: seq<Sample>): (r: set<Key>) {
    set s | s in rows :: KeyOf(s)
  }

  function MinKey(rows: seq<Sample>): (least: Key)
    requires rows != []
  {
    if |rows| == 1 then KeyOf(rows[0])
    else
      var m := MinKey(rows[1..]);
      if Less(m, KeyOf(rows[0])) then m else KeyOf(rows[0])
  }

  /** The smallest key is a key of the rows and no row has a smaller one. */
  lemma {:induction false} MinKeyBounds(rows: seq<Sample>)
    requires rows != []
    ensures MinKey(rows) in Keys(rows)
    ensures forall s :: s in rows ==> !Less(KeyOf(s), MinKey(rows))
  {
    assert rows[0] in rows;
    if |rows| > 1 {
      MinKeyBounds(rows[1..]);
      assert forall s :: s in rows <==> s == rows[0] || s in rows[1..];
      var m := MinKey(rows[1..]);
      var p :| p in rows[1..] && KeyOf(p) == m;
      assert p in rows;
    }
  }

  /** The rows whose key differs from `k`, in order. */
  function OtherKeys(rows: seq<Sample>, k: Key): (r: seq<Sample>)
    ensures |r| <= |rows|
  {
    if rows == [] then []
    else (if KeyOf(rows[0]) == k then [] else [rows[0]]) + OtherKeys(rows[1..], k)
  }

  lemma {:induction false} OtherKeysMembers(rows: seq<Sample>, k: Key)
    ensures forall s :: s in OtherKeys(rows, k) <==> s in rows && KeyOf(s) != k
  {
    if rows != [] {
      OtherKeysMembers(rows[1..], k);
      assert forall s :: s in rows <==> s == rows[0] || s in rows[1..];
    }
  }

  /** Removing a key that occurs removes at least one row. */
  lemma {:induction false} OtherKeysShorter(rows: seq<Sample>, k: Key)
    requires k in Keys(rows)
    ensures |OtherKeys(rows, k)| < |rows|
  {
    if KeyOf(rows[0]) != k {
      assert k in Keys(rows[1..]) by {
        var s :| s in rows && KeyOf(s) == k;
        assert s in rows[1..] by {
          assert forall x :: x in rows <==> x == rows[0] || x in rows[1..];
        }
      }
      OtherKeysShorter(rows[1..], k);
    }
  }

  /** The to_plot values of the rows with key `k`, in order. */
  function ValuesAt(rows: seq<Sample>, k: Key): (r: seq<Option<real>>) {
    if rows == [] then []
    else (if KeyOf(rows[0]) == k then [rows[0].value] else []) + ValuesAt(rows[1..], k)
  }

  lemma {:induction false} ValuesAtOther(rows: seq<Sample>, k: Key, other: Key)
    requires k != other
    ensures ValuesAt(OtherKeys(rows, k), other) == ValuesAt(rows, other)
  {
    if rows != [] {
      ValuesAtOther(rows[1..], k, other);
      var head := if KeyOf(rows[0]) == k then [] else [rows[0]];
      assert OtherKeys(rows, k) == head + OtherKeys(rows[1..], k);
      ValuesAtAppend(head, OtherKeys(rows[1..], k), other);
    }
  }

  /** The values at a key of two frames put together are those of the first, then the second. */
  lemma {:induction false} ValuesAtAppend(a: seq<Sample>, b: seq<Sample>, k: Key)
    ensures ValuesAt(a + b, k) == ValuesAt(a, k) + ValuesAt(b, k)
  {
    if a != [] {
      ValuesAtAppend(a[1..], b, k);
      assert (a + b)[0] == a[0];
      assert (a + b)[1..] == a[1..] + b;
    } else {
      assert a + b == b;
    }
  }

  /** The present (non-NaN) values. */
  function Present(values: seq<Option<real>>): (r: seq<real>)
    ensures |r| <= |values|
  {
    if values == [] then []
    else (if values[0].Some? then [values[0].value] else []) + Present(values[1..])
  }

  function Sum(xs: seq<real>): (total: real) {
    if xs == [] then 0.0 else xs[0] + Sum(xs[1..])
  }

  /** pandas' mean: NaN cells are skipped, and a group with no present value has a NaN mean. */
  function MeanOf(values: seq<Option<real>>): (mean: Option<real>) {
    var present := Present(values);
    if present == [] then None else Some(Sum(present) / |present| as real)
  }

  /** `groupby(['elapsedSeconds', 'time_interval']).mean().reset_index()`, smallest key first. */
  function GroupMean(rows: seq<Sample>): (grouped: seq<Sample>)
    decreases |rows|
  {
    if rows == [] then []
    else
      var k := MinKey(rows);
      MinKeyBounds(rows);
      OtherKeysShorter(rows, k);
      [Sample(k.second, k.bucket, MeanOf(ValuesAt(rows, k)))] + GroupMean(OtherKeys(rows, k))
  }

  /** One step of the group-by: the group of the smallest key, then the groups of the other rows. */
  lemma GroupMeanStep(rows: seq<Sample>)
    requires rows != []
    ensures var k := MinKey(rows);
      k in Keys(rows) &&
      |OtherKeys(rows, k)| < |rows| &&
      GroupMean(rows) == [Sample(k.second, k.bucket, MeanOf(ValuesAt(rows, k)))] + GroupMean(OtherKeys(rows, k))
  {
    MinKeyBounds(rows);
    OtherKeysShorter(rows, MinKey(rows));
  }

  lemma KeysCons(s: Sample, rows: seq<Sample>)
    ensures Keys([s] + rows) == {KeyOf(s)} + Keys(rows)
  {
    assert forall x :: x in [s] + rows <==> x == s || x in rows;
  }

  /** Strictly ascending keys, so one row per key. */
  predicate Ascending(rows: seq<Sample>) {
    forall i, j :: 0 <= i < j < |rows| ==> Less(KeyOf(rows[i]), KeyOf(rows[j]))
  }

  /** The averaged frame has a row for exactly the keys of the input. */
  lemma {:induction false} GroupMeanKeys(rows: seq<Sample>)
    ensures Keys(GroupMean(rows)) == Keys(rows)
    decreases |rows|
  {
    if rows != [] {
      var k := MinKey(rows);
      var rest := OtherKeys(rows, k);
      GroupMeanStep(rows);
      GroupMeanKeys(rest);
      OtherKeysMembers(rows, k);
      KeysCons(Sample(k.second, k.bucket, MeanOf(ValuesAt(rows, k))), GroupMean(rest));
      assert Keys(rows) == {k} + Keys(rest) by {
        forall s | s in rows ensures KeyOf(s) == k || s in rest {
        }
      }
    }
  }

  /** The averaged frame is sorted by key, one row per key. */
  lemma {:induction false} GroupMeanAscending(rows: seq<Sample>)
    ensures Ascending(GroupMean(rows))
    decreases |rows|
  {
    if rows != [] {
      var k := MinKey(rows);
      var rest := OtherKeys(rows, k);
      GroupMeanFirst(rows);
      GroupMeanAscending(rest);
      var tail := GroupMean(rest);
      var g := GroupMean(rows);
      forall i, j | 0 <= i < j < |g| ensures Less(KeyOf(g[i]), KeyOf(g[j])) {
        GroupMeanLater(rows, j);
        if i == 0 {
          assert tail[j - 1] in tail;
          LaterGroupsAbove(rows, tail[j - 1]);
        } else {
          GroupMeanLater(rows, i);
        }
      }
    }
  }

  /** Every group after the first has a key above the smallest key. */
  lemma LaterGroupsAbove(rows: seq<Sample>, s: Sample)
    requires rows != []
    requires |OtherKeys(rows, MinKey(rows))| < |rows|
    requires s in GroupMean(OtherKeys(rows, MinKey(rows)))
    ensures KeyOf(s) in Keys(OtherKeys(rows, MinKey(rows)))
    ensures Less(MinKey(rows), KeyOf(s))
  {
    var k := MinKey(rows);
    var rest := OtherKeys(rows, k);
    GroupMeanKeys(rest);
    assert KeyOf(s) in Keys(GroupMean(rest));
    var t :| t in rest && KeyOf(t) == KeyOf(s);
    OtherKeysMembers(rows, k);
    MinKeyBounds(rows);
    assert t in rows && KeyOf(t) != k;
  }

  /** The first group is the one of the smallest key; one group per remaining key follows. */
  lemma GroupMeanFirst(rows: seq<Sample>)
    requires rows != []
    ensures |OtherKeys(rows, MinKey(rows))| < |rows|
    ensures |GroupMean(rows)| == 1 + |GroupMean(OtherKeys(rows, MinKey(rows)))|
    ensures var k := MinKey(rows); GroupMean(rows)[0] == Sample(k.second, k.bucket, MeanOf(ValuesAt(rows, k)))
  {
    GroupMeanStep(rows);
  }

  /** A group after the first is a group of the rows with the smallest key removed. */
  lemma GroupMeanLater(rows: seq<Sample>, i: nat)
    requires 0 < i < |GroupMean(rows)|
    ensures rows != [] && |OtherKeys(rows, MinKey(rows))| < |rows|
    ensures i - 1 < |GroupMean(OtherKeys(rows, MinKey(rows)))|
    ensures GroupMean(rows)[i] == GroupMean(OtherKeys(rows, MinKey(rows)))[i - 1]
  {
    GroupMeanStep(rows);
  }

  /** Each averaged value is the mean of the present values at its key. */
  lemma {:induction false} GroupMeanValue(rows: seq<Sample>, i: nat)
    requires i < |GroupMean(rows)|
    ensures var g := GroupMean(rows)[i];
      g.value == MeanOf(ValuesAt(rows, KeyOf(g)))
    decreases |rows|
  {
    var k := MinKey(rows);
    var rest := OtherKeys(rows, k);
    if i == 0 {
      GroupMeanFirst(rows);
    } else {
      GroupMeanLater(rows, i);
      var tail := GroupMean(rest);
      var g := tail[i - 1];
      GroupMeanValue(rest, i - 1);
      assert ValuesAt(rest, KeyOf(g)) == ValuesAt(rows, KeyOf(g)) by {
        assert g in tail;
        LaterGroupsAbove(rows, g);
        ValuesAtOther(rows, k, KeyOf(g));
      }
    }
  }

  /** The mean of values that all equal `c` is `c`. */
  lemma MeanOfConstant(values: seq<Option<real>>, c: real)
    requires Present(values) != []
    requires forall v :: v in Present(values) ==> v == c
    ensures MeanOf(values) == Some(c)
  {
    var p := Present(values);
    var n := |p| as real;
    SumConstant(p, c);
    DivideCancels(Sum(p), n, c);
  }

  lemma DivideCancels(total: real, n: real, c: real)
    requires n != 0.0 && total == n * c
    ensures total / n == c
  {
  }

  lemma {:induction false} SumConstant(xs: seq<real>, c: real)
    requires forall v :: v in xs ==> v == c
    ensures Sum(xs) == |xs| as real * c
  {
    if xs != [] {
      assert forall v :: v in xs[1..] ==> v in xs;
      SumConstant(xs[1..], c);
      assert xs[0] in xs;
      assert Sum(xs) == c + (|xs| - 1) as real * c;
    }
  }

  /** The loaded and averaged data of one configuration; None when no run file exists. */
  function AverageOf(runs: seq<RunFile>, seeded: bool, divide: bool, interval: int): (combined: Option<seq<Sample>>)
    requires interval != 0
    requires forall i :: 0 <= i < |runs| ==> Loadable(runs[i], seeded)
  {
    var frames := LoadedFrames(runs, seeded, divide, interval);
    if frames == [] then None else Some(GroupMean(Concat(frames)))
  }

  method LoadAndAverage(runs: seq<RunFile>, seeded: bool, divide: bool, interval: int)
    returns (combined: Option<seq<Sample>>)
    requires interval != 0
    requires forall i :: 0 <= i < |runs| ==> Loadable(runs[i], seeded)
    ensures combined == AverageOf(runs, seeded, divide, interval)
    ensures combined.None? <==> forall i :: 0 <= i < |runs| ==> runs[i].Missing?
  {
    var dataList: seq<seq<Sample>> := [];
    for k := 0 to |runs|
      invariant dataList == LoadedFrames(runs[..k], seeded, divide, interval)
    {
      assert runs[..k + 1][..k] == runs[..k];
      match runs[k]
      case Missing =>
      case Loaded(rows) =>
        var data := PreprocessData(RunPoints(rows, seeded, divide), interval);
        dataList := dataList + [data];
    }
    assert runs[..|runs|] == runs;
    LoadedFramesEmpty(runs, seeded, divide, interval);
    if dataList == [] {
      return None;
    }
    combined := Some(GroupMean(Concat(dataList)));
  }

  /** The values at a key of the concatenated frames, frame by frame. */
  function ValuesPerFrame(frames: seq<seq<Sample>>, k: Key): (r: seq<Option<real>>) {
    if frames == [] then [] else ValuesPerFrame(frames[..|frames| - 1], k) + ValuesAt(frames[|frames| - 1], k)
  }

  /** The values averaged at a key are those of each loaded run at that key, run after run. */
  lemma {:induction false} ValuesAtConcat(frames: seq<seq<Sample>>, k: Key)
    ensures ValuesAt(Concat(frames), k) == ValuesPerFrame(frames, k)
  {
    if frames != [] {
      ValuesAtConcat(frames[..|frames| - 1], k);
      ValuesAtAppend(Concat(frames[..|frames| - 1]), frames[|frames| - 1], k);
    }
  }

  /** Every row carries the bucket of its second. */
  predicate Bucketed(rows: seq<Sample>, interval: int)
    requires interval != 0
  {
    forall s :: s in rows ==> s.bucket == Bucket(s.second, interval)
  }

  lemma {:induction false} LoadedFramesBucketed(runs: seq<RunFile>, seeded: bool, divide: bool, interval: int)
    requires interval != 0
    requires forall i :: 0 <= i < |runs| ==> Loadable(runs[i], seeded)
    ensures Bucketed(Concat(LoadedFrames(runs, seeded, divide, interval)), interval)
  {
    if runs != [] {
      var init := runs[..|runs| - 1];
      var last := runs[|runs| - 1];
      assert Loadable(last, seeded);
      LoadedFramesBucketed(init, seeded, divide, interval);
      var frames := LoadedFrames(runs, seeded, divide, interval);
      var before := LoadedFrames(init, seeded, divide, interval);
      if last.Loaded? {
        var f := PreprocessData(RunPoints(last.rows, seeded, divide), interval);
        assert frames == before + [f];
        assert frames[..|frames| - 1] == before;
        assert Bucketed(f, interval) by {
          forall s | s in f ensures s.bucket == Bucket(s.second, interval) {
            var i :| 0 <= i < |f| && f[i] == s;
          }
        }
        assert Concat(frames) == Concat(before) + f;
      } else {
        assert frames == before;
      }
    }
  }

  lemma GroupMeanBucketed(rows: seq<Sample>, interval: int)
    requires interval != 0 && Bucketed(rows, interval)
    ensures Bucketed(GroupMean(rows), interval)
  {
    GroupMeanKeys(rows);
    forall s | s in GroupMean(rows) ensures s.bucket == Bucket(s.second, interval) {
      assert KeyOf(s) in Keys(rows);
      var t :| t in rows && KeyOf(t) == KeyOf(s);
    }
  }

  /**
   * The averaged series of a configuration: one row per second, in ascending
   * order, each with the bucket of its second.
   */
  lemma AverageOrdered(runs: seq<RunFile>, seeded: bool, divide: bool, interval: int)
    requires interval != 0
    requires forall i :: 0 <= i < |runs| ==> Loadable(runs[i], seeded)
    requires AverageOf(runs, seeded, divide, interval).Some?
    ensures var r := AverageOf(runs, seeded, divide, interval).value;
      Bucketed(r, interval) && forall i, j :: 0 <= i < j < |r| ==> r[i].second < r[j].second
  {
    var rows := Concat(LoadedFrames(runs, seeded, divide, interval));
    LoadedFramesBucketed(runs, seeded, divide, interval);
    GroupMeanBucketed(rows, interval);
    GroupMeanAscending(rows);
    var r := GroupMean(rows);
    forall i, j | 0 <= i < j < |r| ensures r[i].second < r[j].second {
      assert r[i] in r && r[j] in r;
    }
  }

  // ---------------------------------------------------------------------------
  // truncate_dataframes_to_elapsed_second

  /** `df[df['elapsedSeconds'] <= bound]` */
  function UpTo(rows: seq<Sample>, bound: int): (r: seq<Sample>)
    ensures |r| <= |rows|
  {
    if rows == [] then []
    else (if rows[0].second <= bound then [rows[0]] else []) + UpTo(rows[1..], bound)
  }

  /** Truncation keeps exactly the rows at or before the bound. */
  lemma {:induction false} UpToMembers(rows: seq<Sample>, bound: int)
    ensures forall s :: s in UpTo(rows, bound) <==> s in rows && s.second <= bound
  {
    if rows != [] {
      UpToMembers(rows[1..], bound);
      assert forall s :: s in rows <==> s == rows[0] || s in rows[1..];
    }
  }

  /** Truncation keeps the order of the rows: it distributes over concatenation. */
  lemma {:induction false} UpToAppend(a: seq<Sample>, b: seq<Sample>, bound: int)
    ensures UpTo(a + b, bound) == UpTo(a, bound) + UpTo(b, bound)
  {
    if a != [] {
      UpToAppend(a[1..], b, bound);
      assert (a + b)[0] == a[0];
      assert (a + b)[1..] == a[1..] + b;
    } else {
      assert a + b == b;
    }
  }

  /** A frame that ends before the bound is left as it is. */
  lemma {:induction false} UpToAll(rows: seq<Sample>, bound: int)
    requires forall i :: 0 <= i < |rows| ==> rows[i].second <= bound
    ensures UpTo(rows, bound) == rows
  {
    if rows != [] {
      UpToAll(rows[1..], bound);
    }
  }

  function TruncateFrame(frame: Option<seq<Sample>>, bound: int): (r: Option<seq<Sample>>) {
    if frame.None? then None else Some(UpTo(frame.value, bound))
  }

  method TruncateDataframes(bound: int, frames: seq<Option<seq<Sample>>>)
    returns (truncated: seq<Option<seq<Sample>>>)
    ensures |truncated| == |frames|
    ensures forall i :: 0 <= i < |frames| ==> (truncated[i].None? <==> frames[i].None?)
    ensures forall i :: 0 <= i < |frames| && frames[i].Some? ==> truncated[i].value == UpTo(frames[i].value, bound)
  {
    truncated := [];
    for k := 0 to |frames|
      invariant |truncated| == k
      invariant forall i :: 0 <= i < k ==> truncated[i] == TruncateFrame(frames[i], bound)
    {
      if frames[k].Some? {
        truncated := truncated + [Some(UpTo(frames[k].value, bound))];
      } else {
        truncated := truncated + [None];
      }
    }
  }

  // ---------------------------------------------------------------------------
  // calculate_growth_percentage and get_last_metric_value

  /** A frame's (elapsedSeconds, to_plot) columns. */
  function AsPoints(rows: seq<Sample>): (r: seq<Point>)
    ensures |r| == |rows|
  {
    seq(|rows|, i requires 0 <= i < |rows| => Point(rows[i].second, rows[i].value))
  }

  lemma AsPointsSeconds(rows: seq<Sample>)
    ensures Seconds(AsPoints(rows)) == SecondsOf(rows)
  {
    var ps := AsPoints(rows);
    forall t | t in SecondsOf(rows) ensures t in Seconds(ps) {
      var s :| s in rows && s.second == t;
      var i :| 0 <= i < |rows| && rows[i] == s;
      assert ps[i] in ps;
    }
    forall t | t in Seconds(ps) ensures t in SecondsOf(rows) {
      var p :| p in ps && p.second == t;
      var i :| 0 <= i < |ps| && ps[i] == p;
      assert rows[i] in rows;
    }
  }

  function SecondsOf(rows: seq<Sample>): (r: set<int>) {
    set s | s in rows :: s.second
  }

  /** Whether `t` is one of the frame's timestamps, scanning row by row. */
  predicate Occurs(rows: seq<Sample>, t: int) {
    rows != [] && (rows[0].second == t || Occurs(rows[1..], t))
  }

  lemma {:induction false} OccursSeconds(rows: seq<Sample>, t: int)
    ensures Occurs(rows, t) <==> t in SecondsOf(rows)
  {
    if rows != [] {
      OccursSeconds(rows[1..], t);
      assert forall x :: x in rows <==> x == rows[0] || x in rows[1..];
    }
  }

  /**
   * The checkpoint second: `exact` itself when it occurs, otherwise the largest
   * timestamp before it.
   */
  function SnapSecond(rows: seq<Sample>, exact: int): (snapped: int)
    requires UpTo(rows, exact) != []
  {
    if Occurs(rows, exact) then exact else MaxSecond(AsPoints(UpTo(rows, exact)))
  }

  /** The checkpoint is the latest timestamp at or before `exact`. */
  lemma SnapSecondLatest(rows: seq<Sample>, exact: int)
    requires UpTo(rows, exact) != []
    ensures SnapSecond(rows, exact) in SecondsOf(rows)
    ensures SnapSecond(rows, exact) <= exact
    ensures forall s :: s in rows && s.second <= exact ==> s.second <= SnapSecond(rows, exact)
  {
    var up := UpTo(rows, exact);
    OccursSeconds(rows, exact);
    UpToMembers(rows, exact);
    SecondBounds(AsPoints(up));
    AsPointsSeconds(up);
    var m := MaxSecond(AsPoints(up));
    assert m in SecondsOf(up);
    forall s | s in rows && s.second <= exact ensures s.second <= m {
      assert s in up;
      var i :| 0 <= i < |up| && up[i] == s;
      assert AsPoints(up)[i] in AsPoints(up);
    }
  }

  /** Python's None (no data), a NaN or infinite percentage, or a finite one. */
  datatype Growth = NoData | NonFinite | Percent(value: real)

  /** `(last - at) / at * 100`; a NaN operand or a zero base gives no finite percentage. */
  function GrowthOf(at: Option<real>, last: Option<real>): (g: Growth)
    ensures !g.NoData?
    ensures g.Percent? <==> at.Some? && last.Some? && at.value != 0.0
  {
    if at.None? || last.None? || at.value == 0.0 then NonFinite
    else Percent((last.value - at.value) / at.value * 100.0)
  }

  /** Growing the checkpoint value by the percentage gives back the last value. */
  lemma GrowthRoundTrip(at: Option<real>, last: Option<real>)
    requires GrowthOf(at, last).Percent?
    ensures at.value + at.value * GrowthOf(at, last).value / 100.0 == last.value
  {
    var g := (last.value - at.value) / at.value * 100.0;
    assert at.value * g / 100.0 == last.value - at.value;
  }

  function CalculateGrowth(data: Option<seq<Sample>>, exactSecond: int): (g: Growth)
    requires data.Some? && data.value != [] ==> UpTo(data.value, exactSecond) != []
    ensures g.NoData? <==> data.None? || data.value == []
  {
    if data.None? || data.value == [] then NoData
    else
      var rows := data.value;
      var at := SnapSecond(rows, exactSecond);
      GrowthOf(FirstValue(AsPoints(rows), at), rows[|rows| - 1].value)
  }

  /** The first row at a timestamp that occurs is the one whose value `FirstValue` reports. */
  lemma {:induction false} FirstValueRow(rows: seq<Sample>, t: int)
    requires t in SecondsOf(rows)
    ensures exists k :: (0 <= k < |rows| && rows[k].second == t &&
      (forall j :: 0 <= j < k ==> rows[j].second != t) &&
      FirstValue(AsPoints(rows), t) == rows[k].value)
  {
    if rows[0].second == t {
      assert AsPoints(rows)[0] == Point(t, rows[0].value);
    } else {
      var tail := rows[1..];
      assert t in SecondsOf(tail) by {
        var s :| s in rows && s.second == t;
        assert forall x :: x in rows <==> x == rows[0] || x in tail;
      }
      FirstValueRow(tail, t);
      var k :| 0 <= k < |tail| && tail[k].second == t &&
        (forall j :: 0 <= j < k ==> tail[j].second != t) &&
        FirstValue(AsPoints(tail), t) == tail[k].value;
      assert AsPoints(rows)[1..] == AsPoints(tail);
      assert rows[k + 1] == tail[k];
      assert forall j :: 0 <= j < k + 1 ==> rows[j].second != t by {
        forall j | 0 <= j < k + 1 ensures rows[j].second != t {
          if j > 0 {
            assert rows[j] == tail[j - 1];
          }
        }
      }
    }
  }

  /**
   * The growth compares the first row at the checkpoint second (the latest
   * timestamp at or before `exactSecond`) with the last row.
   */
  lemma GrowthAtCheckpoint(rows: seq<Sample>, exactSecond: int)
    requires rows != [] && UpTo(rows, exactSecond) != []
    ensures exists k :: (0 <= k < |rows| &&
      rows[k].second == SnapSecond(rows, exactSecond) &&
      (forall j :: 0 <= j < k ==> rows[j].second != rows[k].second) &&
      CalculateGrowth(Some(rows), exactSecond) == GrowthOf(rows[k].value, rows[|rows| - 1].value))
  {
    var t := SnapSecond(rows, exactSecond);
    SnapSecondLatest(rows, exactSecond);
    CalculateGrowthAt(rows, exactSecond);
    FirstValueRow(rows, t);
    var k :| 0 <= k < |rows| && rows[k].second == t &&
      (forall j :: 0 <= j < k ==> rows[j].second != t) &&
      FirstValue(AsPoints(rows), t) == rows[k].value;
    assert forall j :: 0 <= j < k ==> rows[j].second != rows[k].second;
  }

  /** The growth of a non-empty frame compares the value at the snapped second with the last value. */
  lemma CalculateGrowthAt(rows: seq<Sample>, exactSecond: int)
    requires rows != [] && UpTo(rows, exactSecond) != []
    ensures CalculateGrowth(Some(rows), exactSecond)
         == GrowthOf(FirstValue(AsPoints(rows), SnapSecond(rows, exactSecond)), rows[|rows| - 1].value)
  {
  }

  /** Seconds 0, 10 and 20 with values 100, 100 and 200, checkpoint 15: snapped to 10, growth 100%. */
  lemma GrowthExample()
    ensures CalculateGrowth(Some([Sample(0, 0, Some(100.0)), Sample(10, 10, Some(100.0)), Sample(20, 20, Some(200.0))]), 15)
      == Percent(100.0)
  {
    var rows := [Sample(0, 0, Some(100.0)), Sample(10, 10, Some(100.0)), Sample(20, 20, Some(200.0))];
    assert UpTo(rows, 15) == rows[..2] by {
      assert rows[1..][1..] == [rows[2]];
      assert rows[..2] == [rows[0], rows[1]];
    }
    SnapSecondLatest(rows, 15);
    assert SnapSecond(rows, 15) == 10 by {
      assert rows[1] in rows;
      assert forall s :: s in rows ==> s == rows[0] || s == rows[1] || s == rows[2];
    }
    assert FirstValue(AsPoints(rows), 10) == Some(100.0) by {
      assert AsPoints(rows)[1..] == AsPoints(rows[1..]);
    }
  }

  /** `data.iloc[-1][metric]`, or None for no data. */
  function LastMetricValue(data: Option<seq<Sample>>): (r: Option<Option<real>>)
    ensures r.None? <==> data.None? || data.value == []
  {
    if data.None? || data.value == [] then None else Some(data.value[|data.value| - 1].value)
  }

  /** Truncating at a bound past the last second does not change the last value. */
  lemma LastValueUntruncated(data: Option<seq<Sample>>, bound: int)
    requires data.Some? ==> forall i :: 0 <= i < |data.value| ==> data.value[i].second <= bound
    ensures LastMetricValue(TruncateFrame(data, bound)) == LastMetricValue(data)
  {
    if data.Some? {
      UpToAll(data.value, bound);
    }
  }

  // ---------------------------------------------------------------------------
  // The checkpoint arithmetic of plot_average_and_calculate_growth

  /** The last timestamp of a frame. */
  function FrameMax(rows: seq<Sample>): (hi: int)
    requires rows != []
  {
    MaxSecond(AsPoints(rows))
  }

  /** The last timestamp is one of the frame's and no row comes after it. */
  lemma FrameMaxBounds(rows: seq<Sample>)
    requires rows != []
    ensures FrameMax(rows) in SecondsOf(rows)
    ensures forall s :: s in rows ==> s.second <= FrameMax(rows)
  {
    SecondBounds(AsPoints(rows));
    AsPointsSeconds(rows);
    forall s | s in rows ensures s.second <= FrameMax(rows) {
      var i :| 0 <= i < |rows| && rows[i] == s;
      assert AsPoints(rows)[i] in AsPoints(rows);
    }
  }

  /**
   * `min` of the last timestamps of the frames that exist; a missing frame
   * counts as infinity. The maximum of an empty frame is NaN, and Python's
   * `min` keeps its first argument unless the second compares smaller, which
   * NaN never does: an empty unseeded frame beside a non-empty seeded one is
   * skipped. Every other empty frame makes `int()` below fail, so it is
   * excluded here.
   */
  function CommonMaxTime(seeded: Option<seq<Sample>>, unseeded: Option<seq<Sample>>): (m: int)
    requires seeded.Some? ==> seeded.value != []
    requires seeded.None? ==> unseeded.Some? && unseeded.value != []
    ensures seeded.Some? ==> m <= FrameMax(seeded.value)
    ensures unseeded.Some? && unseeded.value != [] ==> m <= FrameMax(unseeded.value)
    ensures (seeded.Some? && m == FrameMax(seeded.value)) || (unseeded.Some? && unseeded.value != [] && m == FrameMax(unseeded.value))
  {
    if seeded.None? then FrameMax(unseeded.value)
    else if unseeded.None? || unseeded.value == [] then FrameMax(seeded.value)
    else if FrameMax(seeded.value) <= FrameMax(unseeded.value) then FrameMax(seeded.value)
    else FrameMax(unseeded.value)
  }

  /** Python's `int(x)`: rounds toward zero. */
  function TruncateReal(x: real): (n: int)
    ensures x >= 0.0 ==> n as real <= x < n as real + 1.0
    ensures x < 0.0 ==> n as real - 1.0 < x <= n as real
  {
    if x >= 0.0 then x.Floor else -((-x).Floor)
  }

  /** `int(common_max_time * percentage_point / 100)` */
  function Checkpoint(common: int, percentage: int): (cp: int) {
    TruncateReal((common * percentage) as real / 100.0)
  }

  /** For a non-negative product the checkpoint is the integer quotient by 100. */
  lemma CheckpointQuotient(common: int, percentage: int)
    requires common * percentage >= 0
    ensures Checkpoint(common, percentage) == (common * percentage) / 100
  {
    var p := common * percentage;
    var q := p / 100;
    assert p == 100 * q + p % 100;
    assert q as real <= p as real / 100.0 < q as real + 1.0;
  }

  /** A percentage between 0 and 100 of a non-negative time lies between 0 and that time. */
  lemma CheckpointWithin(common: int, percentage: int)
    requires common >= 0 && 0 <= percentage <= 100
    ensures 0 <= Checkpoint(common, percentage) <= common
  {
    assert 0 <= common * percentage <= common * 100 by {
      assert common * percentage <= common * 100 by {
        assert common * (100 - percentage) >= 0;
      }
    }
    CheckpointQuotient(common, percentage);
  }

  // ---------------------------------------------------------------------------
  // plot_average_and_calculate_growth (without the plot)

  /** `{}` when neither configuration has data; otherwise the growth entries and the last values. */
  datatype Report =
    | NoDataFound
    | Report(seededGrowth: Option<Growth>, unseededGrowth: Option<Growth>,
             lastSeeded: Option<Option<real>>, lastUnseeded: Option<Option<real>>)

  /** The frame, truncated when a last elapsed second is given. */
  function Bounded(frame: Option<seq<Sample>>, lastElapsed: Option<int>): (b: Option<seq<Sample>>)
    ensures b.Some? <==> frame.Some?
  {
    if lastElapsed.None? then frame else TruncateFrame(frame, lastElapsed.value)
  }

  /**
   * The report is computed without an exception: the checkpoint is a number
   * (see `CommonMaxTime`), and every non-empty frame has a row at or before it.
   */
  predicate ReportDefined(seeded: Option<seq<Sample>>, unseeded: Option<seq<Sample>>, percentage: int, lastElapsed: Option<int>) {
    var s := Bounded(seeded, lastElapsed);
    var u := Bounded(unseeded, lastElapsed);
    (s.Some? || u.Some?) ==>
      (s.Some? ==> s.value != []) && (s.None? ==> u.value != []) &&
      var cp := Checkpoint(CommonMaxTime(s, u), percentage);
      (s.Some? ==> UpTo(s.value, cp) != []) && (u.Some? && u.value != [] ==> UpTo(u.value, cp) != [])
  }

  function GrowthReport(seeded: Option<seq<Sample>>, unseeded: Option<seq<Sample>>, percentage: int, lastElapsed: Option<int>): (r: Report)
    requires ReportDefined(seeded, unseeded, percentage, lastElapsed)
    ensures r.NoDataFound? <==> seeded.None? && unseeded.None?
    ensures r.Report? ==> (r.seededGrowth.Some? <==> seeded.Some?) && (r.unseededGrowth.Some? <==> unseeded.Some?)
    ensures r.Report? ==> (r.lastSeeded.Some? <==> seeded.Some?)
    ensures r.Report? ==> (r.lastUnseeded.Some? <==> unseeded.Some? && Bounded(unseeded, lastElapsed).value != [])
    ensures r.Report? && unseeded.Some? && Bounded(unseeded, lastElapsed).value == [] ==> r.unseededGrowth == Some(NoData)
  {
    if seeded.None? && unseeded.None? then NoDataFound
    else
      var s := Bounded(seeded, lastElapsed);
      var u := Bounded(unseeded, lastElapsed);
      var cp := Checkpoint(CommonMaxTime(s, u), percentage);
      Report(
        if s.Some? then Some(CalculateGrowth(s, cp)) else None,
        if u.Some? then Some(CalculateGrowth(u, cp)) else None,
        LastMetricValue(s),
        LastMetricValue(u))
  }

  /** The rows of a frame that is present all have non-negative timestamps. */
  predicate NonNegative(frame: Option<seq<Sample>>) {
    frame.Some? ==> forall i :: 0 <= i < |frame.value| ==> frame.value[i].second >= 0
  }

  /** Truncation keeps timestamps non-negative. */
  lemma BoundedNonNegative(frame: Option<seq<Sample>>, lastElapsed: Option<int>)
    requires NonNegative(frame)
    ensures NonNegative(Bounded(frame, lastElapsed))
    ensures frame.None? <==> Bounded(frame, lastElapsed).None?
  {
    if lastElapsed.Some? && frame.Some? {
      var b := UpTo(frame.value, lastElapsed.value);
      forall i | 0 <= i < |b| ensures b[i].second >= 0 {
        UpToMembers(frame.value, lastElapsed.value);
        assert b[i] in b;
        var j :| 0 <= j < |frame.value| && frame.value[j] == b[i];
      }
    }
  }

  /**
   * Both growth entries come from the same checkpoint, the percentage of the
   * common last second of the frames after truncation, whatever the
   * percentage and the timestamps.
   */
  lemma SharedCheckpoint(seeded: Option<seq<Sample>>, unseeded: Option<seq<Sample>>, percentage: int, lastElapsed: Option<int>)
    requires seeded.Some? || unseeded.Some?
    requires ReportDefined(seeded, unseeded, percentage, lastElapsed)
    ensures var s := Bounded(seeded, lastElapsed);
      var u := Bounded(unseeded, lastElapsed);
      var cp := Checkpoint(CommonMaxTime(s, u), percentage);
      var r := GrowthReport(seeded, unseeded, percentage, lastElapsed);
      r.Report?
        && (s.Some? ==> r.seededGrowth == Some(CalculateGrowth(s, cp)))
        && (u.Some? ==> r.unseededGrowth == Some(CalculateGrowth(u, cp)))
  {
  }

  /**
   * For a percentage in 0..100 and non-negative timestamps, the shared
   * checkpoint is non-negative and lies at or below the last second of every
   * configuration whose (truncated) frame keeps a row.
   */
  lemma ReportCheckpoint(seeded: Option<seq<Sample>>, unseeded: Option<seq<Sample>>, percentage: int, lastElapsed: Option<int>)
    requires seeded.Some? || unseeded.Some?
    requires ReportDefined(seeded, unseeded, percentage, lastElapsed)
    requires 0 <= percentage <= 100
    requires NonNegative(seeded) && NonNegative(unseeded)
    ensures var s := Bounded(seeded, lastElapsed);
      var u := Bounded(unseeded, lastElapsed);
      var r := GrowthReport(seeded, unseeded, percentage, lastElapsed);
      exists cp :: 0 <= cp && cp == Checkpoint(CommonMaxTime(s, u), percentage)
        && (s.Some? ==> cp <= FrameMax(s.value) && UpTo(s.value, cp) != [] && r.seededGrowth == Some(CalculateGrowth(s, cp)))
        && (u.Some? ==> (u.value != [] ==> cp <= FrameMax(u.value) && UpTo(u.value, cp) != [])
                        && r.unseededGrowth == Some(CalculateGrowth(u, cp)))
  {
    var s := Bounded(seeded, lastElapsed);
    var u := Bounded(unseeded, lastElapsed);
    SharedCheckpoint(seeded, unseeded, percentage, lastElapsed);
    BoundedNonNegative(seeded, lastElapsed);
    BoundedNonNegative(unseeded, lastElapsed);
    var m := CommonMaxTime(s, u);
    assert m >= 0 by {
      var rows := if s.Some? && m == FrameMax(s.value) then s.value else u.value;
      FrameMaxBounds(rows);
      var x :| x in rows && x.second == m;
      var i :| 0 <= i < |rows| && rows[i] == x;
    }
    CheckpointWithin(m, percentage);
    var cp := Checkpoint(m, percentage);
    assert 0 <= cp;
  }

  /**
   * Truncation that empties the unseeded frame while the seeded frame keeps a
   * row: the unseeded growth and last value are empty, the seeded ones are
   * computed at the seeded frame's checkpoint.
   */
  lemma ReportEmptiedUnseeded()
    ensures GrowthReport(Some([Sample(0, 0, Some(2.0))]), Some([Sample(10, 10, Some(1.0))]), 50, Some(5))
         == Report(Some(Percent(0.0)), Some(NoData), Some(Some(2.0)), None)
  {
    var s := [Sample(0, 0, Some(2.0))];
    var u := [Sample(10, 10, Some(1.0))];
    assert UpTo(s, 5) == s;
    assert UpTo(u, 5) == [];
    assert FrameMax(s) == 0 by { assert AsPoints(s) == [Point(0, Some(2.0))]; }
    CheckpointQuotient(0, 50);
    assert UpTo(s, 0) == s;
  }

  method PlotAverageAndCalculateGrowth(
    seededRuns: seq<RunFile>, unseededRuns: seq<RunFile>, divide: bool, interval: int,
    percentage: int, lastElapsed: Option<int>)
    returns (report: Report)
    requires interval != 0
    requires forall i :: 0 <= i < |seededRuns| ==> Loadable(seededRuns[i], true)
    requires forall i :: 0 <= i < |unseededRuns| ==> Loadable(unseededRuns[i], false)
    requires ReportDefined(AverageOf(seededRuns, true, divide, interval), AverageOf(unseededRuns, false, divide, interval),
                           percentage, lastElapsed)
    ensures report == GrowthReport(AverageOf(seededRuns, true, divide, interval), AverageOf(unseededRuns, false, divide, interval),
                                   percentage, lastElapsed)
  {
    var seededData := LoadAndAverage(seededRuns, true, divide, interval);
    var unseededData := LoadAndAverage(unseededRuns, false, divide, interval);
    if seededData.None? && unseededData.None? {
      return NoDataFound;
    }
    if lastElapsed.Some? {
      var truncated := TruncateDataframes(lastElapsed.value, [seededData, unseededData]);
      seededData, unseededData := truncated[0], truncated[1];
    }
    var exactSecond := Checkpoint(CommonMaxTime(seededData, unseededData), percentage);
    var seededGrowth := if seededData.Some? then Some(CalculateGrowth(seededData, exactSecond)) else None;
    var unseededGrowth := if unseededData.Some? then Some(CalculateGrowth(unseededData, exactSecond)) else None;
    report := Report(seededGrowth, unseededGrowth, LastMetricValue(seededData), LastMetricValue(unseededData));
  }
}
