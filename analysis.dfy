/**
 * The target-overlap analysis of scripts/analysis.py: a seed corpus S, the
 * targets a seeded run saw beyond S (Es) and the targets an unseeded run saw
 * (Eu), reduced to eight cardinalities; their field-wise average; and the
 * enumeration of every seeded x unseeded pair of runs.
 */
module Analysis {
  import opened Wrappers

  type Target = string

  /** A loaded targets file: the seed corpus and everything seen by the end of the run. */
  datatype TargetCollection = TargetCollection(seeded: seq<Target>, lastSeen: seq<Target>)

  predicate StartsWith(x: Target, prefix: string) {
    |prefix| <= |x| && x[..|prefix|] == prefix
  }

  /** Python's `if prefix:` -- both `None` and the empty string switch filtering off. */
  predicate Filters(prefix: Option<string>) {
    prefix.Some? && prefix.value != ""
  }

  /** The identifiers of a list, as a set. */
  function IdSet(ids: seq<Target>): (r: set<Target>) {
    set x | x in ids
  }

  /** The set of identifiers of a list, restricted to a prefix when one is given. */
  function FilterIds(ids: seq<Target>, prefix: Option<string>): (r: set<Target>)
    ensures Filters(prefix) ==> forall x :: x in r <==> x in ids && StartsWith(x, prefix.value)
    ensures !Filters(prefix) ==> forall x :: x in r <==> x in ids
  {
    if Filters(prefix) then set x | x in ids && StartsWith(x, prefix.value)
    else set x | x in ids
  }

  /** The three sets the analysis works on, after the seed has been taken out of the seeded run. */
  datatype RunSets = RunSets(seed: set<Target>, seededRun: set<Target>, unseededRun: set<Target>)

  function RunSetsOf(seededTargets: TargetCollection, unseededTargets: TargetCollection, prefix: Option<string>): (r: RunSets)
    ensures r.seed !! r.seededRun
  {
    var seed := FilterIds(seededTargets.seeded, prefix);
    RunSets(seed, FilterIds(seededTargets.lastSeen, prefix) - seed, FilterIds(unseededTargets.lastSeen, prefix))
  }

  /** The eight counts `analyze` returns, in the order of its dictionary literal. */
  datatype Stats = Stats(
    totalSeeded: nat,         // "|Es|"
    seed: nat,                // "|S|"
    unseeded: nat,            // "|Eu|"
    seedUnique: nat,          // "|S \ Eu|"
    seededRunUnique: nat,     // "Es \ (S ∪ Eu)"
    unseededRunUnique: nat,   // "Eu \ Es"
    seedAndUnseeded: nat,     // "S ∩ Eu"
    seededAndUnseeded: nat)   // "Es ∩ Eu"

  function Analyze(seededTargets: TargetCollection, unseededTargets: TargetCollection, prefix: Option<string>): (r: Stats)
    ensures r.seed == |FilterIds(seededTargets.seeded, prefix)|
    ensures r.unseeded == |FilterIds(unseededTargets.lastSeen, prefix)|
  {
    var sets := RunSetsOf(seededTargets, unseededTargets, prefix);
    var s, es, eu := sets.seed, sets.seededRun, sets.unseededRun;
    Stats(|s + es|, |s|, |eu|, |s - es - eu|, |es - s - eu|, |eu - s - es|, |s * eu|, |es * eu|)
  }

  /** The two intersections that are computed but not returned are always empty. */
  lemma DiscardedIntersectionsEmpty(seededTargets: TargetCollection, unseededTargets: TargetCollection, prefix: Option<string>)
    ensures var sets := RunSetsOf(seededTargets, unseededTargets, prefix);
      |sets.seed * sets.seededRun| == 0 && |sets.seed * sets.seededRun * sets.unseededRun| == 0
  {
    var sets := RunSetsOf(seededTargets, unseededTargets, prefix);
    assert sets.seed * sets.seededRun == {};
    assert sets.seed * sets.seededRun * sets.unseededRun == {};
  }

  lemma {:induction false} DisjointUnionCard<T>(a: set<T>, b: set<T>)
    requires a !! b
    ensures |a + b| == |a| + |b|
  {
    assert a * b == {};
  }

  lemma {:induction false} SplitCard<T>(a: set<T>, b: set<T>)
    ensures |a| == |a - b| + |a * b|
  {
    assert a == (a - b) + (a * b);
    DisjointUnionCard(a - b, a * b);
  }

  /** "|Es|" is the disjoint union of the seed and what the seeded run found beyond it. */
  lemma TotalIsDisjointUnion(seededTargets: TargetCollection, unseededTargets: TargetCollection, prefix: Option<string>)
    ensures Analyze(seededTargets, unseededTargets, prefix).totalSeeded
         == Analyze(seededTargets, unseededTargets, prefix).seed
          + |FilterIds(seededTargets.lastSeen, prefix) - FilterIds(seededTargets.seeded, prefix)|
  {
    var sets := RunSetsOf(seededTargets, unseededTargets, prefix);
    DisjointUnionCard(sets.seed, sets.seededRun);
  }

  /** "|S|" splits into "|S \ Eu|" and "S ∩ Eu"; "|S \ Eu|" is just |S - Eu|. */
  lemma SeedPartition(seededTargets: TargetCollection, unseededTargets: TargetCollection, prefix: Option<string>)
    ensures var r := Analyze(seededTargets, unseededTargets, prefix);
      r.seed == r.seedUnique + r.seedAndUnseeded
    ensures var sets := RunSetsOf(seededTargets, unseededTargets, prefix);
      Analyze(seededTargets, unseededTargets, prefix).seedUnique == |sets.seed - sets.unseededRun|
  {
    var sets := RunSetsOf(seededTargets, unseededTargets, prefix);
    var s, es, eu := sets.seed, sets.seededRun, sets.unseededRun;
    assert s - es - eu == s - eu;
    SplitCard(s, eu);
  }

  /** "|Eu|" is partitioned by "Eu \ Es", "S ∩ Eu" and "Es ∩ Eu". */
  lemma UnseededPartition(seededTargets: TargetCollection, unseededTargets: TargetCollection, prefix: Option<string>)
    ensures var r := Analyze(seededTargets, unseededTargets, prefix);
      r.unseeded == r.unseededRunUnique + r.seedAndUnseeded + r.seededAndUnseeded
  {
    var sets := RunSetsOf(seededTargets, unseededTargets, prefix);
    var s, es, eu := sets.seed, sets.seededRun, sets.unseededRun;
    assert eu == (eu - s - es) + (s * eu) + (es * eu);
    DisjointUnionCard(eu - s - es, s * eu);
    DisjointUnionCard((eu - s - es) + (s * eu), es * eu);
  }

  /**
   * The three "unique" counts and the two intersections partition every
   * identifier seen anywhere: none is counted twice, none is missed.
   */
  lemma UnionPartition(seededTargets: TargetCollection, unseededTargets: TargetCollection, prefix: Option<string>)
    ensures var sets := RunSetsOf(seededTargets, unseededTargets, prefix);
      var r := Analyze(seededTargets, unseededTargets, prefix);
      |sets.seed + sets.seededRun + sets.unseededRun|
        == r.seedUnique + r.seededRunUnique + r.unseededRunUnique + r.seedAndUnseeded + r.seededAndUnseeded
  {
    var sets := RunSetsOf(seededTargets, unseededTargets, prefix);
    var s, es, eu := sets.seed, sets.seededRun, sets.unseededRun;
    var a, b, c, d, e := s - es - eu, es - s - eu, eu - s - es, s * eu, es * eu;
    assert s + es + eu == a + b + c + d + e;
    DisjointUnionCard(a, b);
    DisjointUnionCard(a + b, c);
    DisjointUnionCard(a + b + c, d);
    DisjointUnionCard(a + b + c + d, e);
  }

  /** With a non-empty prefix, every identifier that is counted anywhere starts with it. */
  lemma PrefixRestrictsAll(seededTargets: TargetCollection, unseededTargets: TargetCollection, prefix: Option<string>)
    requires Filters(prefix)
    ensures var sets := RunSetsOf(seededTargets, unseededTargets, prefix);
      forall x :: x in sets.seed + sets.seededRun + sets.unseededRun ==> StartsWith(x, prefix.value)
  {
  }

  /** Without a prefix (None or ""), the sets are exactly those of the input lists. */
  lemma NoPrefixNoFilter(seededTargets: TargetCollection, unseededTargets: TargetCollection, prefix: Option<string>)
    requires !Filters(prefix)
    ensures var sets := RunSetsOf(seededTargets, unseededTargets, prefix);
      && sets.seed == IdSet(seededTargets.seeded)
      && sets.seededRun == IdSet(seededTargets.lastSeen) - IdSet(seededTargets.seeded)
      && sets.unseededRun == IdSet(unseededTargets.lastSeen)
  {
  }

  /** Duplicates and order in the input lists change nothing: only their sets matter. */
  lemma DependsOnlyOnSets(a: TargetCollection, b: TargetCollection, ua: TargetCollection, ub: TargetCollection, prefix: Option<string>)
    requires IdSet(a.seeded) == IdSet(b.seeded)
    requires IdSet(a.lastSeen) == IdSet(b.lastSeen)
    requires IdSet(ua.lastSeen) == IdSet(ub.lastSeen)
    ensures Analyze(a, ua, prefix) == Analyze(b, ub, prefix)
  {
    SameIds(a.seeded, b.seeded, prefix);
    SameIds(a.lastSeen, b.lastSeen, prefix);
    SameIds(ua.lastSeen, ub.lastSeen, prefix);
  }

  lemma SameIds(xs: seq<Target>, ys: seq<Target>, prefix: Option<string>)
    requires IdSet(xs) == IdSet(ys)
    ensures FilterIds(xs, prefix) == FilterIds(ys, prefix)
  {
    forall x ensures x in xs <==> x in ys {
      assert x in xs <==> x in IdSet(xs);
    }
  }

  // ---------------------------------------------------------------------------
  // The dictionary `analyze` returns

  const KeyTotal := "|Es|"
  const KeySeed := "|S|"
  const KeyUnseeded := "|Eu|"
  const KeySeedUnique := "|S \\ Eu|"
  const KeySeededRunUnique := "Es \\ (S \U{222A} Eu)"
  const KeyUnseededRunUnique := "Eu \\ Es"
  const KeySeedAndUnseeded := "S \U{2229} Eu"
  const KeySeededAndUnseeded := "Es \U{2229} Eu"

  const StatsKeys: set<string> := {KeyTotal, KeySeed, KeyUnseeded, KeySeedUnique, KeySeededRunUnique,
                                   KeyUnseededRunUnique, KeySeedAndUnseeded, KeySeededAndUnseeded}

  /** The result of `analyze` as the dictionary it really is: exactly eight keys. */
  function ToDict(st: Stats): (d: map<string, int>)
    ensures d.Keys == StatsKeys && |d| == 8
    ensures d[KeyTotal] == st.totalSeeded && d[KeySeededRunUnique] == st.seededRunUnique
    ensures d[KeySeed] == st.seed && d[KeySeedUnique] == st.seedUnique && d[KeySeedAndUnseeded] == st.seedAndUnseeded
    ensures d[KeyUnseeded] == st.unseeded && d[KeyUnseededRunUnique] == st.unseededRunUnique
    ensures d[KeySeededAndUnseeded] == st.seededAndUnseeded
  {
    map[KeyTotal := st.totalSeeded, KeySeed := st.seed, KeyUnseeded := st.unseeded,
        KeySeedUnique := st.seedUnique, KeySeededRunUnique := st.seededRunUnique,
        KeyUnseededRunUnique := st.unseededRunUnique, KeySeedAndUnseeded := st.seedAndUnseeded,
        KeySeededAndUnseeded := st.seededAndUnseeded]
  }

  // ---------------------------------------------------------------------------
  // calculate_averages

  /** What one record adds to a key's running sum: nothing when it lacks the key. */
  function ValueOr0(result: map<string, int>, key: string): (v: int) {
    if key in result then result[key] else 0
  }

  /** The sum of a key's values over a list of records. */
  function KeySum(results: seq<map<string, int>>, key: string): (total: int) {
    if results == [] then 0
    else KeySum(results[..|results| - 1], key) + ValueOr0(results[|results| - 1], key)
  }

  /**
   * The field-wise average. Its keys are those of the first record; a later
   * record with a key the first lacks would raise KeyError, hence the requires.
   */
  method CalculateAverages(results: seq<map<string, int>>) returns (average: map<string, real>)
    requires forall i :: 0 <= i < |results| ==> results[i].Keys <= results[0].Keys
    ensures results == [] ==> average == map[]
    ensures results != [] ==> average.Keys == results[0].Keys
    ensures results != [] ==> forall k :: k in average ==> average[k] == KeySum(results, k) as real / |results| as real
  {
    if results == [] {
      return map[];
    }
    average := map k | k in results[0].Keys :: 0.0;
    var numResults := |results|;
    for i := 0 to numResults
      invariant average.Keys == results[0].Keys
      invariant forall k :: k in average ==> average[k] == KeySum(results[..i], k) as real
    {
      var result := results[i];
      var pending := result.Keys;
      ghost var done: set<string> := {};
      while pending != {}
        invariant pending + done == result.Keys && pending !! done
        invariant average.Keys == results[0].Keys
        invariant forall k :: k in average ==> average[k] == KeySum(results[..i], k) as real + (if k in done then result[k] as real else 0.0)
        decreases pending
      {
        var key :| key in pending;
        average := average[key := average[key] + result[key] as real];
        pending, done := pending - {key}, done + {key};
      }
      assert results[..i + 1][..i] == results[..i];
    }
    assert results[..numResults] == results;
    var pending := average.Keys;
    while pending != {}
      invariant pending <= average.Keys == results[0].Keys
      invariant forall k :: k in average ==> average[k] == KeySum(results, k) as real / (if k in pending then 1.0 else numResults as real)
      decreases pending
    {
      var key :| key in pending;
      average := average[key := average[key] / numResults as real];
      pending := pending - {key};
    }
  }

  /** Averaging keeps a linear law between three keys: the sums obey it too. */
  lemma {:induction false} KeySumAdditive(results: seq<map<string, int>>, k: string, k1: string, k2: string)
    requires forall i :: 0 <= i < |results| ==> k in results[i] && k1 in results[i] && k2 in results[i]
    requires forall i :: 0 <= i < |results| ==> results[i][k] == results[i][k1] + results[i][k2]
    ensures KeySum(results, k) == KeySum(results, k1) + KeySum(results, k2)
  {
    if results != [] {
      KeySumAdditive(results[..|results| - 1], k, k1, k2);
    }
  }

  /** Averaging n copies of the same value gives that value back. */
  lemma {:induction false} KeySumConstant(results: seq<map<string, int>>, k: string, c: int)
    requires forall i :: 0 <= i < |results| ==> k in results[i] && results[i][k] == c
    ensures KeySum(results, k) == |results| * c
  {
    if results != [] {
      KeySumConstant(results[..|results| - 1], k, c);
    }
  }

  // ---------------------------------------------------------------------------
  // process_sut

  /** `f` applied to one seeded run and every unseeded run, in order: the inner loop. */
  function PairRow<S, U, R>(x: S, ys: seq<U>, f: (S, U) -> R): (r: seq<R>)
    ensures |r| == |ys|
    ensures forall j :: 0 <= j < |ys| ==> r[j] == f(x, ys[j])
  {
    if ys == [] then [] else PairRow(x, ys[..|ys| - 1], f) + [f(x, ys[|ys| - 1])]
  }

  /** `f` applied to every pair, outer loop over `xs`, inner loop over `ys`. */
  function AllPairs<S, U, R>(xs: seq<S>, ys: seq<U>, f: (S, U) -> R): (r: seq<R>)
  {
    if xs == [] then [] else AllPairs(xs[..|xs| - 1], ys, f) + PairRow(xs[|xs| - 1], ys, f)
  }

  /** Where the pair (seeded i, unseeded j) lands when there are m unseeded runs. */
  function PairIndex(i: nat, j: nat, m: nat): (k: nat) {
    i * m + j
  }

  lemma MulStep(n: nat, m: nat)
    requires n > 0
    ensures (n - 1) * m + m == n * m
  {
  }

  lemma PairIndexBound(i: nat, j: nat, n: nat, m: nat)
    requires i < n && j < m
    ensures PairIndex(i, j, m) < n * m
  {
    assert (i + 1) * m == i * m + m;
    assert (i + 1) * m <= n * m;
  }

  lemma {:induction false} AllPairsLength<S, U, R>(xs: seq<S>, ys: seq<U>, f: (S, U) -> R)
    ensures |AllPairs(xs, ys, f)| == |xs| * |ys|
  {
    if xs != [] {
      AllPairsLength(xs[..|xs| - 1], ys, f);
      MulStep(|xs|, |ys|);
    }
  }

  /** Element PairIndex(i, j, |ys|) of the enumeration is `f` of x_i and y_j. */
  lemma {:induction false} AllPairsAt<S, U, R>(xs: seq<S>, ys: seq<U>, f: (S, U) -> R, i: nat, j: nat)
    requires i < |xs| && j < |ys|
    ensures |AllPairs(xs, ys, f)| == |xs| * |ys|
    ensures PairIndex(i, j, |ys|) < |xs| * |ys|
    ensures AllPairs(xs, ys, f)[PairIndex(i, j, |ys|)] == f(xs[i], ys[j])
  {
    var n, m := |xs|, |ys|;
    var init := xs[..n - 1];
    AllPairsLength(xs, ys, f);
    AllPairsLength(init, ys, f);
    PairIndexBound(i, j, n, m);
    var front := AllPairs(init, ys, f);
    var row := PairRow(xs[n - 1], ys, f);
    assert AllPairs(xs, ys, f) == front + row;
    if i < n - 1 {
      PairIndexBound(i, j, n - 1, m);
      AllPairsAt(init, ys, f, i, j);
      assert xs[i] == init[i];
    } else {
      assert PairIndex(i, j, m) == |front| + j;
    }
  }

  lemma AllPairsIndexed<S, U, R>(xs: seq<S>, ys: seq<U>, f: (S, U) -> R)
    ensures |AllPairs(xs, ys, f)| == |xs| * |ys|
    ensures forall i, j {:trigger PairIndex(i, j, |ys|)} :: 0 <= i < |xs| && 0 <= j < |ys| ==>
      PairIndex(i, j, |ys|) < |AllPairs(xs, ys, f)| && AllPairs(xs, ys, f)[PairIndex(i, j, |ys|)] == f(xs[i], ys[j])
  {
    AllPairsLength(xs, ys, f);
    forall i, j | 0 <= i < |xs| && 0 <= j < |ys|
      ensures PairIndex(i, j, |ys|) < |AllPairs(xs, ys, f)| && AllPairs(xs, ys, f)[PairIndex(i, j, |ys|)] == f(xs[i], ys[j])
    {
      AllPairsAt(xs, ys, f, i, j);
    }
  }

  /** The double loop of `process_sut`: `f` of every seeded x unseeded pair, appended in order. */
  method ProcessPairs<S, U, R>(xs: seq<S>, ys: seq<U>, f: (S, U) -> R) returns (results: seq<R>)
    ensures results == AllPairs(xs, ys, f)
  {
    results := [];
    for i := 0 to |xs|
      invariant results == AllPairs(xs[..i], ys, f)
    {
      var x := xs[i];
      ghost var before := results;
      for j := 0 to |ys|
        invariant results == before + PairRow(x, ys[..j], f)
      {
        assert ys[..j + 1][..j] == ys[..j];
        results := results + [f(x, ys[j])];
      }
      assert ys[..|ys|] == ys;
      assert xs[..i + 1][..i] == xs[..i];
    }
    assert xs[..|xs|] == xs;
  }

  /** `analyze(seeded, unseeded, prefix)` with the prefix fixed. */
  function AnalyzeWith(prefix: Option<string>): (f: (TargetCollection, TargetCollection) -> Stats) {
    (s: TargetCollection, u: TargetCollection) => Analyze(s, u, prefix)
  }

  /**
   * `process_sut` on already loaded target files: exactly one record per
   * (seeded, unseeded) pair, record i * |unseededData| + j being seeded run i
   * analysed against unseeded run j.
   */
  method ProcessSut(seededData: seq<TargetCollection>, unseededData: seq<TargetCollection>, prefix: Option<string>) returns (results: seq<Stats>)
    ensures |results| == |seededData| * |unseededData|
    ensures forall i, j {:trigger PairIndex(i, j, |unseededData|)} :: 0 <= i < |seededData| && 0 <= j < |unseededData| ==>
      PairIndex(i, j, |unseededData|) < |results| &&
      results[PairIndex(i, j, |unseededData|)] == Analyze(seededData[i], unseededData[j], prefix)
  {
    results := ProcessPairs(seededData, unseededData, AnalyzeWith(prefix));
    AllPairsIndexed(seededData, unseededData, AnalyzeWith(prefix));
  }

  /** Every element of the enumeration is the result of some pair. */
  lemma {:induction false} AllPairsFrom<S, U, R>(xs: seq<S>, ys: seq<U>, f: (S, U) -> R, k: nat)
    requires k < |AllPairs(xs, ys, f)|
    ensures exists i, j :: 0 <= i < |xs| && 0 <= j < |ys| && AllPairs(xs, ys, f)[k] == f(xs[i], ys[j])
  {
    var init := xs[..|xs| - 1];
    var front := AllPairs(init, ys, f);
    var row := PairRow(xs[|xs| - 1], ys, f);
    if k < |front| {
      AllPairsFrom(init, ys, f, k);
      var i, j :| 0 <= i < |init| && 0 <= j < |ys| && front[k] == f(init[i], ys[j]);
      assert init[i] == xs[i];
    } else {
      var j := k - |front|;
      assert AllPairs(xs, ys, f)[k] == row[j];
    }
  }

  /** The dictionaries `process_sut` collects: one `analyze` result per pair, in loop order. */
  function SutRecords(seededData: seq<TargetCollection>, unseededData: seq<TargetCollection>, prefix: Option<string>): (r: seq<map<string, int>>)
    ensures |r| == |seededData| * |unseededData|
    ensures forall k :: 0 <= k < |r| ==> r[k].Keys == StatsKeys
  {
    var stats := AllPairs(seededData, unseededData, AnalyzeWith(prefix));
    AllPairsLength(seededData, unseededData, AnalyzeWith(prefix));
    seq(|stats|, k requires 0 <= k < |stats| => ToDict(stats[k]))
  }

  /**
   * Over all the records of one system, the summed "|S|" is the summed
   * "|S \ Eu|" plus the summed "S ∩ Eu"; the averages divide all three by
   * the same number of records.
   */
  lemma AveragedSeedPartition(seededData: seq<TargetCollection>, unseededData: seq<TargetCollection>, prefix: Option<string>)
    ensures var dicts := SutRecords(seededData, unseededData, prefix);
      KeySum(dicts, KeySeed) == KeySum(dicts, KeySeedUnique) + KeySum(dicts, KeySeedAndUnseeded)
  {
    var dicts := SutRecords(seededData, unseededData, prefix);
    forall k | 0 <= k < |dicts|
      ensures KeySeed in dicts[k] && KeySeedUnique in dicts[k] && KeySeedAndUnseeded in dicts[k]
      ensures dicts[k][KeySeed] == dicts[k][KeySeedUnique] + dicts[k][KeySeedAndUnseeded]
    {
      RecordSeedPartition(seededData, unseededData, prefix, k);
    }
    KeySumAdditive(dicts, KeySeed, KeySeedUnique, KeySeedAndUnseeded);
  }

  /** One record of `process_sut` obeys the seed partition. */
  lemma RecordSeedPartition(seededData: seq<TargetCollection>, unseededData: seq<TargetCollection>, prefix: Option<string>, k: nat)
    requires k < |SutRecords(seededData, unseededData, prefix)|
    ensures var d := SutRecords(seededData, unseededData, prefix)[k];
      KeySeed in d && KeySeedUnique in d && KeySeedAndUnseeded in d &&
      d[KeySeed] == d[KeySeedUnique] + d[KeySeedAndUnseeded]
  {
    var f := AnalyzeWith(prefix);
    var stats := AllPairs(seededData, unseededData, f);
    AllPairsLength(seededData, unseededData, f);
    AllPairsFrom(seededData, unseededData, f, k);
    var i, j :| 0 <= i < |seededData| && 0 <= j < |unseededData| && stats[k] == f(seededData[i], unseededData[j]);
    SeedPartition(seededData[i], unseededData[j], prefix);
    DictSeedPartition(stats[k]);
  }

  /** A record whose counts obey the seed partition keeps it once turned into a dictionary. */
  lemma DictSeedPartition(st: Stats)
    requires st.seed == st.seedUnique + st.seedAndUnseeded
    ensures var d := ToDict(st);
      KeySeed in d && KeySeedUnique in d && KeySeedAndUnseeded in d &&
      d[KeySeed] == d[KeySeedUnique] + d[KeySeedAndUnseeded]
  {
  }

  /** The sets of a seeded run that saw the seed {a, b} and `extra`, against an unseeded run that saw {c, e}. */
  lemma ExampleRunSets(extra: Target)
    requires extra == "c" || extra == "d"
    ensures RunSetsOf(TargetCollection(["a", "b"], ["a", "b", extra]), TargetCollection([], ["c", "e"]), None)
      == RunSets({"a", "b"}, {extra}, {"c", "e"})
  {
    var s := FilterIds(["a", "b"], None);
    assert s == {"a", "b"};
    assert FilterIds(["a", "b", extra], None) == {"a", "b", extra};
    assert FilterIds(["c", "e"], None) == {"c", "e"};
  }

  lemma ExampleCountsC()
    ensures var s: set<Target>, es: set<Target>, eu: set<Target> := {"a", "b"}, {"c"}, {"c", "e"};
      Stats(|s + es|, |s|, |eu|, |s - es - eu|, |es - s - eu|, |eu - s - es|, |s * eu|, |es * eu|) == Stats(3, 2, 2, 2, 0, 1, 0, 1)
  {
    var s: set<Target>, es: set<Target>, eu: set<Target> := {"a", "b"}, {"c"}, {"c", "e"};
    assert s + es == {"a", "b", "c"} by { Distinct3("a", "b", "c"); }
    assert s - es - eu == s;
    assert es - s - eu == {};
    assert eu - s - es == {"e"};
    assert s * eu == {};
    assert es * eu == {"c"};
    Distinct2("a", "b");
    Distinct2("c", "e");
  }

  lemma ExampleCountsD()
    ensures var s: set<Target>, es: set<Target>, eu: set<Target> := {"a", "b"}, {"d"}, {"c", "e"};
      Stats(|s + es|, |s|, |eu|, |s - es - eu|, |es - s - eu|, |eu - s - es|, |s * eu|, |es * eu|) == Stats(3, 2, 2, 2, 1, 2, 0, 0)
  {
    var s: set<Target>, es: set<Target>, eu: set<Target> := {"a", "b"}, {"d"}, {"c", "e"};
    assert s + es == {"a", "b", "d"} by { Distinct3("a", "b", "d"); }
    assert s - es - eu == s;
    assert es - s - eu == es;
    assert eu - s - es == eu;
    assert s * eu == {};
    assert es * eu == {};
    Distinct2("a", "b");
    Distinct2("c", "e");
  }

  lemma Distinct2(x: Target, y: Target)
    requires x != y
    ensures |{x, y}| == 2
  {
  }

  lemma Distinct3(x: Target, y: Target, z: Target)
    requires x != y && y != z && x != z
    ensures |{x, y, z}| == 3
  {
  }

  /**
   * Seed {a, b}: a seeded run that saw {a, b, c} and one that saw {a, b, d},
   * each against an unseeded run that saw {c, e}.
   */
  lemma AnalyzeExample()
    ensures Analyze(TargetCollection(["a", "b"], ["a", "b", "c"]), TargetCollection([], ["c", "e"]), None)
      == Stats(3, 2, 2, 2, 0, 1, 0, 1)
    ensures Analyze(TargetCollection(["a", "b"], ["a", "b", "d"]), TargetCollection([], ["c", "e"]), None)
      == Stats(3, 2, 2, 2, 1, 2, 0, 0)
  {
    ExampleRunSets("c");
    ExampleCountsC();
    ExampleRunSets("d");
    ExampleCountsD();
  }
}
