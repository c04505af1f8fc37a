/**
 * `preprocess_data` of scripts/plot.py: one run's (elapsedSeconds, value)
 * samples are de-duplicated (first occurrence wins), left-joined onto every
 * integer second from the smallest to the largest timestamp, forward-filled,
 * and given a `time_interval` bucket. A missing value (pandas' NaN) is None.
 */
module Preprocess {
  import opened Wrappers

  /** One input row: elapsed seconds and the metric to plot. */
  datatype Point = Point(second: int, value: Option<real>)

  /** One output row: elapsedSeconds, time_interval and the (filled) metric. */
  datatype Sample = Sample(second: int, bucket: int, value: Option<real>)

  // ---------------------------------------------------------------------------
  // Python's floor division and the time bucket

  /** Python's `a // b`: rounds toward negative infinity (Dafny's `/` is Euclidean). */
  function FloorDiv(a: int, b: int): (q: int)
    requires b != 0
  {
    if b > 0 then a / b else (-a) / (-b)
  }

  /** The quotient is rounded toward negative infinity, whatever the signs. */
  lemma FloorDivBounds(a: int, b: int)
    requires b != 0
    ensures b > 0 ==> FloorDiv(a, b) * b <= a < FloorDiv(a, b) * b + b
    ensures b < 0 ==> FloorDiv(a, b) * b + b < a <= FloorDiv(a, b) * b
  {
  }

  /** `(elapsedSeconds // interval) * interval` */
  function Bucket(second: int, interval: int): (start: int)
    requires interval != 0
  {
    FloorDiv(second, interval) * interval
  }

  /** A bucket is a multiple of the interval and the start of the window holding the second. */
  lemma BucketBounds(second: int, interval: int)
    requires interval != 0
    ensures Bucket(second, interval) % interval == 0
    ensures interval > 0 ==> Bucket(second, interval) <= second < Bucket(second, interval) + interval
    ensures interval < 0 ==> Bucket(second, interval) + interval < second <= Bucket(second, interval)
  {
    FloorDivBounds(second, interval);
    MultipleMod(FloorDiv(second, interval), interval);
  }

  function Abs(x: int): (a: int) { if x < 0 then -x else x }

  /** A non-zero multiple of `b` is at least as large as `b`, with the sign of the product. */
  lemma {:induction false} MulAtLeast(k: int, b: int)
    requires k != 0 && b != 0
    ensures Abs(k * b) >= Abs(b)
    ensures (k * b > 0) == ((k > 0) == (b > 0))
    decreases Abs(k)
  {
    if k > 1 {
      MulAtLeast(k - 1, b);
      assert k * b == (k - 1) * b + b;
    } else if k < -1 {
      MulAtLeast(k + 1, b);
      assert k * b == (k + 1) * b - b;
    }
  }

  lemma MultipleMod(q: int, b: int)
    requires b != 0
    ensures (q * b) % b == 0
  {
    var m := q * b;
    var d := m / b;
    var r := m % b;
    assert m == d * b + r;
    assert (q - d) * b == r by { assert q * b - d * b == (q - d) * b; }
    if q != d {
      MulAtLeast(q - d, b);
    }
  }

  // ---------------------------------------------------------------------------
  // drop_duplicates(subset=['elapsedSeconds'], keep='first')

  function Seconds(rows: seq<Point>): (r: set<int>) {
    set p | p in rows :: p.second
  }

  lemma SecondsCons(rows: seq<Point>)
    requires rows != []
    ensures Seconds(rows) == {rows[0].second} + Seconds(rows[1..])
  {
    assert forall p :: p in rows <==> p == rows[0] || p in rows[1..];
  }

  /** The rows of `rows` whose timestamp differs from `second`, in order. */
  function Without(rows: seq<Point>, second: int): (r: seq<Point>)
    ensures |r| <= |rows|
  {
    if rows == [] then []
    else (if rows[0].second == second then [] else [rows[0]]) + Without(rows[1..], second)
  }

  /** `Without` keeps exactly the rows at other timestamps. */
  lemma {:induction false} WithoutMembers(rows: seq<Point>, second: int)
    ensures forall p :: p in Without(rows, second) <==> p in rows && p.second != second
  {
    if rows != [] {
      WithoutMembers(rows[1..], second);
      assert forall p :: p in rows <==> p == rows[0] || p in rows[1..];
    }
  }

  lemma WithoutSeconds(rows: seq<Point>, second: int)
    ensures Seconds(Without(rows, second)) == Seconds(rows) - {second}
  {
    WithoutMembers(rows, second);
  }

  /** Keeps the first row of every timestamp, in order. */
  function DropDuplicates(rows: seq<Point>): (deduped: seq<Point>)
    decreases |rows|
  {
    if rows == [] then []
    else [rows[0]] + DropDuplicates(Without(rows[1..], rows[0].second))
  }

  lemma {:induction false} DropDuplicatesSubset(rows: seq<Point>)
    ensures forall p :: p in DropDuplicates(rows) ==> p in rows
    decreases |rows|
  {
    if rows != [] {
      var rest := Without(rows[1..], rows[0].second);
      DropDuplicatesSubset(rest);
      WithoutMembers(rows[1..], rows[0].second);
    }
  }

  /** De-duplication loses no timestamp. */
  lemma {:induction false} DropDuplicatesSeconds(rows: seq<Point>)
    ensures Seconds(DropDuplicates(rows)) == Seconds(rows)
    decreases |rows|
  {
    if rows != [] {
      var rest := Without(rows[1..], rows[0].second);
      DropDuplicatesSeconds(rest);
      WithoutSeconds(rows[1..], rows[0].second);
      SecondsCons(rows);
      SecondsCons(DropDuplicates(rows));
      assert DropDuplicates(rows)[1..] == DropDuplicates(rest);
    }
  }

  /** No two rows share a timestamp. */
  predicate DistinctSeconds(rows: seq<Point>) {
    forall i, j :: 0 <= i < j < |rows| ==> rows[i].second != rows[j].second
  }

  /** After de-duplication no two rows share a timestamp. */
  lemma {:induction false} DropDuplicatesDistinct(rows: seq<Point>)
    ensures DistinctSeconds(DropDuplicates(rows))
    decreases |rows|
  {
    if rows != [] {
      var rest := Without(rows[1..], rows[0].second);
      DropDuplicatesDistinct(rest);
      DropDuplicatesSubset(rest);
      WithoutMembers(rows[1..], rows[0].second);
      var r := DropDuplicates(rows);
      var d := DropDuplicates(rest);
      assert r == [rows[0]] + d;
      forall i, j | 0 <= i < j < |r| ensures r[i].second != r[j].second {
        assert r[j] == d[j - 1];
        if i == 0 {
          assert r[0] == rows[0];
          assert d[j - 1] in d;
          assert d[j - 1] in rest;
        } else {
          assert r[i] == d[i - 1];
          assert d[i - 1].second != d[j - 1].second;
        }
      }
    }
  }

  /** The value of the first row at `second`; None if there is none (or it holds NaN). */
  function FirstValue(rows: seq<Point>, second: int): (v: Option<real>) {
    if rows == [] then None
    else if rows[0].second == second then rows[0].value
    else FirstValue(rows[1..], second)
  }

  lemma {:induction false} FirstValueWithout(rows: seq<Point>, other: int, second: int)
    requires other != second
    ensures FirstValue(Without(rows, other), second) == FirstValue(rows, second)
  {
    if rows != [] {
      FirstValueWithout(rows[1..], other, second);
      if rows[0].second == other {
        assert Without(rows, other) == Without(rows[1..], other);
      } else {
        assert Without(rows, other) == [rows[0]] + Without(rows[1..], other);
        assert ([rows[0]] + Without(rows[1..], other))[1..] == Without(rows[1..], other);
      }
    }
  }

  /** De-duplication keeps, for every timestamp, the value of its first occurrence. */
  lemma {:induction false} DropDuplicatesKeepsFirst(rows: seq<Point>, second: int)
    ensures FirstValue(DropDuplicates(rows), second) == FirstValue(rows, second)
    decreases |rows|
  {
    if rows != [] && rows[0].second != second {
      var rest := Without(rows[1..], rows[0].second);
      DropDuplicatesKeepsFirst(rest, second);
      FirstValueWithout(rows[1..], rows[0].second, second);
      assert DropDuplicates(rows)[1..] == DropDuplicates(rest);
    }
  }

  // ---------------------------------------------------------------------------
  // min() and max() of elapsedSeconds

  function MinSecond(rows: seq<Point>): (lo: int)
    requires rows != []
  {
    if |rows| == 1 then rows[0].second
    else
      var m := MinSecond(rows[1..]);
      if rows[0].second <= m then rows[0].second else m
  }

  function MaxSecond(rows: seq<Point>): (hi: int)
    requires rows != []
  {
    if |rows| == 1 then rows[0].second
    else
      var m := MaxSecond(rows[1..]);
      if rows[0].second >= m then rows[0].second else m
  }

  /** The minimum and maximum are timestamps of the data and bound all of them. */
  lemma {:induction false} SecondBounds(rows: seq<Point>)
    requires rows != []
    ensures MinSecond(rows) in Seconds(rows) && MaxSecond(rows) in Seconds(rows)
    ensures forall p :: p in rows ==> MinSecond(rows) <= p.second <= MaxSecond(rows)
  {
    SecondsCons(rows);
    if |rows| > 1 {
      SecondBounds(rows[1..]);
      assert forall p :: p in rows <==> p == rows[0] || p in rows[1..];
    }
  }

  /** Minimum and maximum depend only on the set of timestamps. */
  lemma SameSecondsSameBounds(a: seq<Point>, b: seq<Point>)
    requires a != [] && b != [] && Seconds(a) == Seconds(b)
    ensures MinSecond(a) == MinSecond(b) && MaxSecond(a) == MaxSecond(b)
  {
    SecondBounds(a);
    SecondBounds(b);
    forall t | t in Seconds(a) ensures MinSecond(a) <= t <= MaxSecond(a) && MinSecond(b) <= t <= MaxSecond(b) {
      var p :| p in a && p.second == t;
      var q :| q in b && q.second == t;
    }
  }

  /** The range is taken after de-duplication; it is the range of the raw data. */
  lemma DedupedBounds(data: seq<Point>)
    requires data != []
    ensures DropDuplicates(data) != []
    ensures MinSecond(DropDuplicates(data)) == MinSecond(data)
    ensures MaxSecond(DropDuplicates(data)) == MaxSecond(data)
    ensures MinSecond(data) <= MaxSecond(data)
  {
    DropDuplicatesSeconds(data);
    SameSecondsSameBounds(DropDuplicates(data), data);
    SecondBounds(data);
    assert data[0] in data;
  }

  // ---------------------------------------------------------------------------
  // fillna(method='ffill')

  /** Forward fill, carrying `last`, the latest present value seen so far. */
  function FillFrom(values: seq<Option<real>>, last: Option<real>): (r: seq<Option<real>>)
    ensures |r| == |values|
  {
    if values == [] then []
    else
      var v := if values[0].Some? then values[0] else last;
      [v] + FillFrom(values[1..], v)
  }

  /** Leading missing values stay missing: nothing came before them. */
  function ForwardFill(values: seq<Option<real>>): (r: seq<Option<real>>)
    ensures |r| == |values|
  {
    FillFrom(values, None)
  }

  lemma {:induction false} FillFromStep(values: seq<Option<real>>, last: Option<real>, i: nat)
    requires i < |values|
    ensures FillFrom(values, last)[i] ==
      if values[i].Some? then values[i] else if i == 0 then last else FillFrom(values, last)[i - 1]
  {
    if i > 0 {
      var v := if values[0].Some? then values[0] else last;
      FillFromStep(values[1..], v, i - 1);
    }
  }

  /**
   * Forward fill, entry by entry: a present value is kept; a missing one takes
   * the filled value of the entry before it, the first entry staying missing.
   */
  lemma ForwardFillStep(values: seq<Option<real>>, i: nat)
    requires i < |values|
    ensures ForwardFill(values)[i] ==
      if values[i].Some? then values[i] else if i == 0 then None else ForwardFill(values)[i - 1]
  {
    FillFromStep(values, None, i);
  }

  /** With no missing value, forward fill changes nothing. */
  lemma {:induction false} ForwardFillNoGaps(values: seq<Option<real>>)
    requires forall i :: 0 <= i < |values| ==> values[i].Some?
    ensures ForwardFill(values) == values
  {
    forall i | 0 <= i < |values| ensures ForwardFill(values)[i] == values[i] {
      ForwardFillStep(values, i);
    }
  }

  // ---------------------------------------------------------------------------
  // preprocess_data

  /** The values left-joined onto the full range of seconds lo..lo + n - 1. */
  function Joined(rows: seq<Point>, lo: int, n: nat): (r: seq<Option<real>>)
    ensures |r| == n
  {
    seq(n, i requires 0 <= i < n => FirstValue(rows, lo + i))
  }

  function PreprocessData(data: seq<Point>, interval: int): (r: seq<Sample>)
    requires data != []
    requires interval != 0
    ensures |r| == MaxSecond(data) - MinSecond(data) + 1
    ensures forall i :: 0 <= i < |r| ==>
      r[i].second == MinSecond(data) + i && r[i].bucket == Bucket(r[i].second, interval)
  {
    var deduped := DropDuplicates(data);
    DedupedBounds(data);
    var lo := MinSecond(deduped);
    var n := MaxSecond(deduped) - lo + 1;
    var filled := ForwardFill(Joined(deduped, lo, n));
    seq(n, i requires 0 <= i < n => Sample(lo + i, Bucket(lo + i, interval), filled[i]))
  }

  /** The output, as the forward fill of the joined, de-duplicated values. */
  lemma PreprocessFilled(data: seq<Point>, interval: int)
    requires data != [] && interval != 0
    ensures var lo := MinSecond(data);
      var n := MaxSecond(data) - lo + 1;
      var filled := ForwardFill(Joined(DropDuplicates(data), lo, n));
      var r := PreprocessData(data, interval);
      |filled| == |r| && forall i :: 0 <= i < |r| ==> r[i].value == filled[i]
  {
    DedupedBounds(data);
  }

  /**
   * The values of `preprocess_data`: a second that has a (first) present
   * value keeps it; any other second repeats the row before it; the first
   * second, the minimum timestamp, has the value of its first occurrence.
   */
  lemma PreprocessValues(data: seq<Point>, interval: int, i: nat)
    requires data != [] && interval != 0
    requires i < |PreprocessData(data, interval)|
    ensures var r := PreprocessData(data, interval);
      var v := FirstValue(data, r[i].second);
      r[i].value == if v.Some? then v else if i == 0 then None else r[i - 1].value
  {
    var lo := MinSecond(data);
    var n := MaxSecond(data) - lo + 1;
    var joined := Joined(DropDuplicates(data), lo, n);
    PreprocessFilled(data, interval);
    ForwardFillStep(joined, i);
    DropDuplicatesKeepsFirst(data, lo + i);
  }

  /** Every timestamp of the input has its row in the output, at its offset from the minimum. */
  lemma PreprocessCoversInput(data: seq<Point>, interval: int)
    requires data != [] && interval != 0
    ensures var r := PreprocessData(data, interval);
      forall p :: p in data ==> 0 <= p.second - MinSecond(data) < |r| && r[p.second - MinSecond(data)].second == p.second
  {
    SecondBounds(data);
  }

  /** A single sample yields a single row. */
  lemma PreprocessSingle(p: Point, interval: int)
    requires interval != 0
    ensures PreprocessData([p], interval) == [Sample(p.second, Bucket(p.second, interval), p.value)]
  {
    PreprocessValues([p], interval, 0);
  }

  /** Consecutive seconds starting at `lo`, each once, in order. */
  predicate Dense(data: seq<Point>) {
    forall i :: 0 <= i < |data| ==> data[i].second == data[0].second + i
  }

  lemma {:induction false} DenseFirstValue(data: seq<Point>, i: nat)
    requires Dense(data) && i < |data|
    ensures FirstValue(data, data[0].second + i) == data[i].value
  {
    if i > 0 {
      var tail := data[1..];
      assert Dense(tail) by {
        forall k | 0 <= k < |tail| ensures tail[k].second == tail[0].second + k {
          assert tail[k] == data[k + 1];
        }
      }
      DenseFirstValue(tail, i - 1);
    }
  }

  lemma {:induction false} DenseBounds(data: seq<Point>)
    requires data != [] && Dense(data)
    ensures MinSecond(data) == data[0].second
    ensures MaxSecond(data) == data[0].second + |data| - 1
  {
    SecondBounds(data);
    assert data[0].second in Seconds(data);
    assert data[|data| - 1].second in Seconds(data) by {
      assert data[|data| - 1] in data;
    }
    forall p | p in data ensures data[0].second <= p.second <= data[0].second + |data| - 1 {
      var k :| 0 <= k < |data| && data[k] == p;
    }
    var lo, hi := MinSecond(data), MaxSecond(data);
    var p :| p in data && p.second == lo;
    var q :| q in data && q.second == hi;
  }

  /**
   * With no gaps, no duplicate timestamps and no missing values, resampling
   * only adds the bucket column.
   */
  lemma PreprocessDenseIdentity(data: seq<Point>, interval: int)
    requires data != [] && interval != 0 && Dense(data)
    requires forall i :: 0 <= i < |data| ==> data[i].value.Some?
    ensures var r := PreprocessData(data, interval);
      |r| == |data| &&
      forall i :: 0 <= i < |data| ==> r[i] == Sample(data[i].second, Bucket(data[i].second, interval), data[i].value)
  {
    DenseBounds(data);
    var r := PreprocessData(data, interval);
    forall i | 0 <= i < |data| ensures r[i] == Sample(data[i].second, Bucket(data[i].second, interval), data[i].value) {
      PreprocessValues(data, interval, i);
      DenseFirstValue(data, i);
    }
  }
}
