/** Percentile-bootstrap intervals around a median, for any stream of uniform draws. The scratch
    buffers are reused between resamples; no stale content reaches a median. */
module Bootstrap {
  import opened Coverage
  import opened Sorting
  import opened OrderStatistics
  import opened Wrappers

  /** One value of a generator with range [0, 1). */
  type Uniform = u: real | 0.0 <= u < 1.0

  /** A seeded generator: a fixed stream of draws and how many have been taken. */
  class Rng {
    const draws: nat -> Uniform
    var position: nat

    constructor (draws: nat -> Uniform)
      ensures this.draws == draws && position == 0
    {
      this.draws := draws;
      position := 0;
    }

    method Next() returns (u: Uniform)
      modifies this
      ensures u == draws(old(position)) && position == old(position) + 1
    {
      u := draws(position);
      position := position + 1;
    }
  }

  datatype MedianInterval = MedianInterval(median: real, lo: real, hi: real, level: real, resamples: nat)

  datatype Options = Options(level: Option<real>, resamples: Option<int>)

  datatype BootstrapError = NoReplicate | NoSample | LevelOutOfRange | ResamplesNotPositive

  const DEFAULT_RESAMPLES := 10_000

  function Level(options: Options): real {
    LevelOf(options.level)
  }

  function Resamples(options: Options): int {
    match options.resamples case None => DEFAULT_RESAMPLES case Some(b) => b
  }

  /** The option check every interval shares, made before any early return. */
  function OptionError(options: Options): Option<BootstrapError> {
    if !IsCoverage(Level(options)) then Some(LevelOutOfRange)
    else if Resamples(options) < 1 then Some(ResamplesNotPositive)
    else None
  }

  /** `Math.floor(rng() * n)` is an index below `n`, for every draw. */
  function Index(u: Uniform, n: nat): (i: nat)
    requires n > 0
    ensures i < n && i as real <= u * n as real < i as real + 1.0
  {
    IndexInRange(u, n as real);
    (u * n as real).Floor
  }

  lemma IndexInRange(u: Uniform, n: real)
    requires n > 0.0
    ensures 0.0 <= u * n < n
  {
    assert (1.0 - u) * n > 0.0;
  }

  // ----- what the loops compute

  /** One resample of `samples`, drawn with replacement from position `at` of the stream. */
  function Resample(samples: seq<real>, draws: nat -> Uniform, at: nat): (r: seq<real>)
    requires samples != []
    ensures |r| == |samples|
    ensures forall i :: 0 <= i < |samples| ==> r[i] == samples[Index(draws(at + i), |samples|)]
  {
    seq(|samples|, i requires 0 <= i < |samples| => samples[Index(draws(at + i), |samples|)])
  }

  /** The medians of `count` consecutive resamples, and where the stream then stands. */
  function ResampledMedians(samples: seq<real>, draws: nat -> Uniform, at: nat, count: nat)
    : (r: (seq<real>, nat))
    requires samples != []
    ensures |r.0| == count
  {
    hide Median, Resample;
    if count == 0 then ([], at)
    else
      var (medians, position) := ResampledMedians(samples, draws, at, count - 1);
      (medians + [Median(Resample(samples, draws, position))], position + |samples|)
  }

  /** The `[alpha/2, 1 - alpha/2]` envelope of the resampled medians. */
  function Envelope(median: real, medians: seq<real>, level: real): MedianInterval
    requires medians != [] && 0.0 < level < 1.0
  {
    var tail := Tail(level);
    MedianInterval(median, Percentile(Sort(medians), tail), Percentile(Sort(medians), 1.0 - tail),
                   level, |medians|)
  }

  function Tail(level: real): (t: real)
    requires 0.0 < level < 1.0
    ensures 0.0 < t < 1.0 - t < 1.0
  {
    (1.0 - level) / 2.0
  }

  function PointInterval(median: real, level: real): MedianInterval {
    MedianInterval(median, median, median, level, 0)
  }

  function FlatInterval(samples: seq<real>, options: Options, draws: nat -> Uniform): MedianInterval
    requires samples != [] && OptionError(options).None?
  {
    if |samples| == 1 then PointInterval(Median(samples), Level(options))
    else Envelope(Median(samples), ResampledMedians(samples, draws, 0, Resamples(options)).0, Level(options))
  }

  function Flatten(replicates: seq<seq<real>>): (r: seq<real>)
    ensures forall x :: x in r <==> exists s :: s in replicates && x in s
  {
    if replicates == [] then []
    else
      var init := Flatten(replicates[..|replicates| - 1]);
      assert replicates == replicates[..|replicates| - 1] + [replicates[|replicates| - 1]];
      init + replicates[|replicates| - 1]
  }

  /** The pool after `r` cluster draws: each draw picks a replicate, then resamples inside it. */
  function ClusterPool(replicates: seq<seq<real>>, draws: nat -> Uniform, at: nat, r: nat)
    : (p: (seq<real>, nat))
    requires replicates != [] && [] !in replicates
    ensures r > 0 ==> p.0 != []
  {
    if r == 0 then ([], at)
    else
      var (pool, position) := ClusterPool(replicates, draws, at, r - 1);
      var chosen := replicates[Index(draws(position), |replicates|)];
      (pool + Resample(chosen, draws, position + 1), position + 1 + |chosen|)
  }

  function ClusterPoolMedians(replicates: seq<seq<real>>, draws: nat -> Uniform, at: nat, count: nat)
    : (r: (seq<real>, nat))
    requires replicates != [] && [] !in replicates
    ensures |r.0| == count
  {
    if count == 0 then ([], at)
    else
      var (medians, position) := ClusterPoolMedians(replicates, draws, at, count - 1);
      var (pool, next) := ClusterPool(replicates, draws, position, |replicates|);
      (medians + [Median(pool)], next)
  }

  function HierarchicalInterval(replicates: seq<seq<real>>, options: Options, draws: nat -> Uniform)
    : MedianInterval
    requires replicates != [] && [] !in replicates && OptionError(options).None?
  {
    PooledNotEmpty(replicates);
    var pooled := Flatten(replicates);
    if |pooled| == 1 then PointInterval(Median(pooled), Level(options))
    else Envelope(Median(pooled), ClusterPoolMedians(replicates, draws, 0, Resamples(options)).0, Level(options))
  }

  lemma PooledNotEmpty(replicates: seq<seq<real>>)
    requires replicates != [] && [] !in replicates
    ensures Flatten(replicates) != []
  {
    assert replicates[0] in replicates;
    assert replicates[0][0] in replicates[0];
    assert replicates[0][0] in Flatten(replicates);
  }

  function Longest(replicates: seq<seq<real>>): nat {
    if replicates == [] then 0
    else
      var init := Longest(replicates[..|replicates| - 1]);
      var n := |replicates[|replicates| - 1]|;
      if n > init then n else init
  }

  lemma {:induction false} LongestBounds(replicates: seq<seq<real>>, s: seq<real>)
    requires s in replicates
    ensures |s| <= Longest(replicates)
  {
    if s != replicates[|replicates| - 1] {
      LongestBounds(replicates[..|replicates| - 1], s);
    }
  }

  // ----- what an interval reports

  /** The options in numbers: 0.95 and 10 000 unless given, coverage checked first. */
  lemma OptionsInNumbers(options: Options)
    ensures Level(options) == if options.level.Some? then options.level.value else 0.95
    ensures Resamples(options) == if options.resamples.Some? then options.resamples.value else 10_000
    ensures OptionError(options) == Some(LevelOutOfRange) <==> !(0.0 < Level(options) < 1.0)
    ensures OptionError(options).None? <==> 0.0 < Level(options) < 1.0 && Resamples(options) >= 1
    ensures OptionError(options).Some? ==>
              OptionError(options).value == LevelOutOfRange || OptionError(options).value == ResamplesNotPositive
  {
  }

  /** `i` reports `median` and the central `level` of `medians`, with equal tails cut off on both sides. */
  ghost predicate Reports(i: MedianInterval, median: real, medians: seq<real>, level: real) {
    i.median == median && i.level == level && i.resamples == |medians|
    && PercentileOf(medians, (1.0 - level) / 2.0) == Ok(i.lo)
    && PercentileOf(medians, (1.0 + level) / 2.0) == Ok(i.hi)
  }

  lemma EnvelopeReports(median: real, medians: seq<real>, level: real)
    requires medians != [] && 0.0 < level < 1.0
    ensures Reports(Envelope(median, medians, level), median, medians, level)
  {
    hide Percentile, Sort;
    assert 1.0 - (1.0 - level) / 2.0 == (1.0 + level) / 2.0;
  }

  /** Where the stretch of the `b`-th resample starts in the stream. */
  function Stretch(at: nat, b: nat, n: nat): nat {
    at + b * n
  }

  lemma NextStretch(at: nat, b: nat, n: nat)
    ensures Stretch(at, b + 1, n) == Stretch(at, b, n) + n && Stretch(at, 0, n) == at
  {
  }

  /** Every resample takes its own stretch of the stream, one draw a sample. */
  ghost predicate AreResampleMedians(samples: seq<real>, draws: nat -> Uniform, at: nat, medians: seq<real>)
    requires samples != []
  {
    forall b: nat :: b < |medians| ==> medians[b] == Median(Resample(samples, draws, Stretch(at, b, |samples|)))
  }

  lemma {:induction false} ResampledMediansAt(samples: seq<real>, draws: nat -> Uniform, at: nat, count: nat)
    requires samples != []
    ensures AreResampleMedians(samples, draws, at, ResampledMedians(samples, draws, at, count).0)
    ensures ResampledMedians(samples, draws, at, count).1 == Stretch(at, count, |samples|)
  {
    hide Median, Resample, Stretch;
    NextStretch(at, 0, |samples|);
    if count > 0 {
      ResampledMediansAt(samples, draws, at, count - 1);
      NextStretch(at, count - 1, |samples|);
    }
  }

  /** The flat interval in terms of draws: its bounds are percentiles of the medians of resamples, each
      drawn with replacement from its own stretch of the stream. */
  lemma FlatIntervalReports(samples: seq<real>, options: Options, draws: nat -> Uniform) returns (medians: seq<real>)
    requires samples != [] && OptionError(options).None?
    ensures |medians| == Resamples(options) && AreResampleMedians(samples, draws, 0, medians)
    ensures var i := FlatInterval(samples, options, draws);
            if |samples| == 1 then i == MedianInterval(samples[0], samples[0], samples[0], Level(options), 0)
            else Reports(i, Median(samples), medians, Level(options))
  {
    hide Median, Resample, ResampledMedians, Percentile, Envelope, AreResampleMedians, Reports;
    medians := ResampledMedians(samples, draws, 0, Resamples(options)).0;
    ResampledMediansAt(samples, draws, 0, Resamples(options));
    if |samples| == 1 {
      MedianOfOne(samples);
    } else {
      EnvelopeReports(Median(samples), medians, Level(options));
    }
  }

  /** Where the `k`-th cluster draw of a pool stands in the stream and in the pool. */
  function DrawnBefore(replicates: seq<seq<real>>, draws: nat -> Uniform, at: nat, k: nat): (p: (nat, nat))
    requires replicates != [] && [] !in replicates
    ensures p.0 == |ClusterPool(replicates, draws, at, k).0| && p.1 == ClusterPool(replicates, draws, at, k).1
  {
    (|ClusterPool(replicates, draws, at, k).0|, ClusterPool(replicates, draws, at, k).1)
  }

  /** Each cluster draw spends one uniform on a replicate and one on each of its samples, and the pool is
      the resamples one after another. */
  lemma {:induction false} ClusterPoolDraws(
    replicates: seq<seq<real>>, draws: nat -> Uniform, at: nat, r: nat, k: nat)
    requires replicates != [] && [] !in replicates && k < r
    ensures DrawnBefore(replicates, draws, at, 0) == (0, at)
    ensures var (from, start) := DrawnBefore(replicates, draws, at, k);
            var chosen := replicates[Index(draws(start), |replicates|)];
            var pool := ClusterPool(replicates, draws, at, r).0;
            DrawnBefore(replicates, draws, at, k + 1) == (from + |chosen|, start + 1 + |chosen|)
            && from + |chosen| <= |pool| && pool[from..from + |chosen|] == Resample(chosen, draws, start + 1)
  {
    hide Resample, Index;
    if k + 1 < r {
      ClusterPoolDraws(replicates, draws, at, r - 1, k);
    }
  }

  /** Every hierarchical resample draws as many replicates as there are, from where the last one ended. */
  lemma {:induction false} ClusterPoolMediansAt(
    replicates: seq<seq<real>>, draws: nat -> Uniform, at: nat, count: nat, b: nat)
    requires replicates != [] && [] !in replicates && b < count
    ensures ClusterPoolMedians(replicates, draws, at, 0).1 == at
    ensures var start := ClusterPoolMedians(replicates, draws, at, b).1;
            var (pool, next) := ClusterPool(replicates, draws, start, |replicates|);
            ClusterPoolMedians(replicates, draws, at, count).0[b] == Median(pool)
            && ClusterPoolMedians(replicates, draws, at, b + 1).1 == next
  {
    hide Median, ClusterPool;
    if b + 1 < count {
      ClusterPoolMediansAt(replicates, draws, at, count - 1, b);
    }
  }

  /** The hierarchical interval: the median of everything, and percentiles of the resampled medians. */
  lemma HierarchicalIntervalReports(replicates: seq<seq<real>>, options: Options, draws: nat -> Uniform)
    requires replicates != [] && [] !in replicates && OptionError(options).None?
    ensures Flatten(replicates) != []
    ensures var i, pooled := HierarchicalInterval(replicates, options, draws), Flatten(replicates);
            if |pooled| == 1 then i == MedianInterval(pooled[0], pooled[0], pooled[0], Level(options), 0)
            else Reports(i, Median(pooled), ClusterPoolMedians(replicates, draws, 0, Resamples(options)).0,
                         Level(options))
  {
    hide Median, ClusterPoolMedians, Percentile, Envelope, Flatten;
    PooledNotEmpty(replicates);
    var pooled := Flatten(replicates);
    if |pooled| == 1 {
      MedianOfOne(pooled);
    } else {
      EnvelopeReports(Median(pooled), ClusterPoolMedians(replicates, draws, 0, Resamples(options)).0, Level(options));
    }
  }

  /** Pooling keeps every sample as often as it was taken. */
  lemma FlattenKeepsCounts(replicates: seq<seq<real>>, i: nat)
    requires i < |replicates|
    ensures multiset(Flatten(replicates))
            == multiset(Flatten(replicates[..i] + replicates[i + 1..])) + multiset(replicates[i])
  {
    hide Flatten;
    var before, s, after := replicates[..i], replicates[i], replicates[i + 1..];
    assert replicates == before + [s] + after;
    FlattenConcat(before + [s], after);
    FlattenConcat(before, [s]);
    FlattenConcat(before, after);
    FlattenOne(s);
  }

  lemma {:induction false} FlattenConcat(a: seq<seq<real>>, b: seq<seq<real>>)
    ensures Flatten(a + b) == Flatten(a) + Flatten(b)
  {
    if b == [] {
      assert a + b == a;
    } else {
      assert (a + b)[..|a + b| - 1] == a + b[..|b| - 1];
      FlattenConcat(a, b[..|b| - 1]);
    }
  }

  lemma FlattenOne(s: seq<real>)
    ensures Flatten([s]) == s
  {
    assert [s][..0] == [];
  }

  // ----- the loops

  /** Fill `draw[from, from + |samples|)` with one resample. */
  method FillResample(samples: seq<real>, rng: Rng, draw: array<real>, from: nat)
    requires samples != [] && from + |samples| <= draw.Length
    modifies rng, draw
    ensures rng.position == old(rng.position) + |samples|
    ensures draw[..from] == old(draw[..from])
    ensures draw[from..from + |samples|] == Resample(samples, rng.draws, old(rng.position))
  {
    ghost var start := rng.position;
    ghost var before := draw[..from];
    for i := 0 to |samples|
      invariant rng.position == start + i
      invariant draw[..from] == before
      invariant draw[from..from + i] == Resample(samples, rng.draws, start)[..i]
    {
      var u := rng.Next();
      draw[from + i] := samples[Index(u, |samples|)];
      assert draw[from..from + i + 1] == draw[from..from + i] + [draw[from + i]];
    }
  }

  method BootstrapMedianInterval(samples: seq<real>, options: Options, draws: nat -> Uniform)
    returns (r: Result<MedianInterval, BootstrapError>)
    ensures r == if samples == [] then Err(NoSample)
                 else match OptionError(options)
                   case Some(e) => Err(e)
                   case None => Ok(FlatInterval(samples, options, draws))
  {
    if samples == [] {
      return Err(NoSample);
    }
    var error := OptionError(options);
    if error.Some? {
      return Err(error.value);
    }
    var median := Median(samples);
    if |samples| == 1 {
      return Ok(PointInterval(median, Level(options)));
    }
    var medians := DrawMedians(samples, Resamples(options), draws);
    r := Ok(Envelope(median, medians[..], Level(options)));
  }

  method ResampleMedian(samples: seq<real>, rng: Rng, draw: array<real>) returns (median: real)
    requires samples != [] && |samples| <= draw.Length
    modifies rng, draw
    ensures rng.position == old(rng.position) + |samples|
    ensures median == Median(Resample(samples, rng.draws, old(rng.position)))
  {
    FillResample(samples, rng, draw, 0);
    assert draw[..|samples|] == draw[0..0 + |samples|];
    median := MedianInPlace(draw, |samples|);
  }

  /** The resampling loop: one scratch buffer for every resample. */
  method DrawMedians(samples: seq<real>, resamples: nat, draws: nat -> Uniform)
    returns (medians: array<real>)
    requires samples != []
    ensures medians[..] == ResampledMedians(samples, draws, 0, resamples).0
  {
    hide Median, Resample, ClusterPool;
    var rng := new Rng(draws);
    medians := new real[resamples];
    var draw := new real[|samples|];
    for b := 0 to resamples
      invariant rng.draws == draws
      invariant (medians[..b], rng.position) == ResampledMedians(samples, draws, 0, b)
    {
      medians[b] := ResampleMedian(samples, rng, draw);
      assert medians[..b + 1] == medians[..b] + [medians[b]];
    }
    assert medians[..] == medians[..resamples];
  }

  /** The cluster bootstrap: the flat bootstrap of the per-sandbox medians. */
  method ClusterMedianInterval(replicates: seq<seq<real>>, options: Options, draws: nat -> Uniform)
    returns (r: Result<MedianInterval, BootstrapError>)
    ensures r == if replicates == [] then Err(NoReplicate)
                 else if [] in replicates then Err(NoSample)
                 else match OptionError(options)
                   case Some(e) => Err(e)
                   case None => Ok(FlatInterval(SandboxMedians(replicates), options, draws))
  {
    if replicates == [] {
      return Err(NoReplicate);
    }
    if [] in replicates {
      return Err(NoSample);
    }
    r := BootstrapMedianInterval(SandboxMedians(replicates), options, draws);
  }

  /** One hierarchical resample's median, over a pool that may hold anything beforehand. */
  method HierarchicalResampleMedian(replicates: seq<seq<real>>, rng: Rng, pool: array<real>)
    returns (median: real)
    requires replicates != [] && [] !in replicates
    requires |replicates| * Longest(replicates) <= pool.Length
    modifies rng, pool
    ensures (median, rng.position)
         == var (drawn, next) := ClusterPool(replicates, rng.draws, old(rng.position), |replicates|);
            (Median(drawn), next)
  {
    hide Resample, Median, Index, Longest;
    ghost var start := rng.position;
    var size: nat := 0;
    for r := 0 to |replicates|
      invariant size <= r * Longest(replicates)
      invariant size <= pool.Length
      invariant (pool[..size], rng.position) == ClusterPool(replicates, rng.draws, start, r)
    {
      var u := rng.Next();
      var chosen := replicates[Index(u, |replicates|)];
      LongestBounds(replicates, chosen);
      RoomForOneMore(r, |replicates|, Longest(replicates));
      FillResample(chosen, rng, pool, size);
      assert pool[..size + |chosen|] == pool[..size] + pool[size..size + |chosen|];
      size := size + |chosen|;
    }
    median := MedianInPlace(pool, size);
  }

  lemma RoomForOneMore(r: nat, n: nat, longest: nat)
    requires r < n
    ensures r * longest + longest == (r + 1) * longest <= n * longest
  {
    var spare: nat := n - r - 1;
    SpareRoom(spare, longest);
    assert n * longest == (r + 1 + spare) * longest == (r + 1) * longest + spare * longest;
  }

  lemma SpareRoom(x: nat, y: nat)
    ensures x * y >= 0
  {
  }

  method HierarchicalBootstrapMedianInterval(replicates: seq<seq<real>>, options: Options, draws: nat -> Uniform)
    returns (r: Result<MedianInterval, BootstrapError>)
    ensures r == if replicates == [] then Err(NoReplicate)
                 else if [] in replicates then Err(NoSample)
                 else match OptionError(options)
                   case Some(e) => Err(e)
                   case None => Ok(HierarchicalInterval(replicates, options, draws))
  {
    if replicates == [] {
      return Err(NoReplicate);
    }
    if [] in replicates {
      return Err(NoSample);
    }
    var error := OptionError(options);
    if error.Some? {
      return Err(error.value);
    }
    PooledNotEmpty(replicates);
    var pooled := Flatten(replicates);
    var median := Median(pooled);
    if |pooled| == 1 {
      return Ok(PointInterval(median, Level(options)));
    }
    var medians := DrawClusterMedians(replicates, Resamples(options), draws);
    r := Ok(Envelope(median, medians[..], Level(options)));
  }

  /** The hierarchical resampling loop, over the one pool `resamplePool` sizes for the worst draw. */
  method DrawClusterMedians(replicates: seq<seq<real>>, resamples: nat, draws: nat -> Uniform)
    returns (medians: array<real>)
    requires replicates != [] && [] !in replicates
    ensures medians[..] == ClusterPoolMedians(replicates, draws, 0, resamples).0
  {
    hide Median, Resample, ClusterPool;
    var rng := new Rng(draws);
    medians := new real[resamples];
    var pool := new real[|replicates| * Longest(replicates)];
    for b := 0 to resamples
      invariant rng.draws == draws
      invariant (medians[..b], rng.position) == ClusterPoolMedians(replicates, draws, 0, b)
    {
      medians[b] := HierarchicalResampleMedian(replicates, rng, pool);
      assert medians[..b + 1] == medians[..b] + [medians[b]];
    }
    assert medians[..] == medians[..resamples];
  }

  // ----- bounds, for every stream of draws

  ghost predicate Within(samples: seq<real>, lo: real, hi: real) {
    forall x :: x in samples ==> lo <= x <= hi
  }

  /** A percentile of values from a range lies in that range. */
  lemma PercentileWithin(samples: seq<real>, p: real, lo: real, hi: real)
    requires samples != [] && Within(samples, lo, hi) && 0.0 <= p <= 1.0
    ensures lo <= Percentile(Sort(samples), p) <= hi
  {
    var sorted := Sort(samples);
    PercentileInRange(sorted, p);
    assert sorted[0] in multiset(samples) && sorted[|sorted| - 1] in multiset(samples);
    assert sorted[0] in samples && sorted[|sorted| - 1] in samples;
  }

  lemma RangeOf(samples: seq<real>)
    requires samples != []
    ensures Within(samples, Sort(samples)[0], Sort(samples)[|samples| - 1])
  {
    forall x | x in samples ensures Sort(samples)[0] <= x <= Sort(samples)[|samples| - 1] {
      SortedEnds(samples, x);
    }
  }

  lemma MedianWithin(samples: seq<real>, lo: real, hi: real)
    requires samples != [] && Within(samples, lo, hi)
    ensures lo <= Median(samples) <= hi
  {
    PercentileWithin(samples, 0.5, lo, hi);
  }

  lemma ResampleWithin(samples: seq<real>, draws: nat -> Uniform, at: nat, lo: real, hi: real)
    requires samples != [] && Within(samples, lo, hi)
    ensures Within(Resample(samples, draws, at), lo, hi)
  {
    forall x | x in Resample(samples, draws, at) ensures x in samples {
      var i :| 0 <= i < |samples| && x == Resample(samples, draws, at)[i];
      assert x == samples[Index(draws(at + i), |samples|)];
    }
  }

  lemma {:induction false} ResampledMediansWithin(
    samples: seq<real>, draws: nat -> Uniform, at: nat, count: nat, lo: real, hi: real)
    requires samples != [] && Within(samples, lo, hi)
    ensures Within(ResampledMedians(samples, draws, at, count).0, lo, hi)
  {
    hide Median, Resample;
    if count > 0 {
      ResampledMediansWithin(samples, draws, at, count - 1, lo, hi);
      var (medians, position) := ResampledMedians(samples, draws, at, count - 1);
      ResampleWithin(samples, draws, position, lo, hi);
      MedianWithin(Resample(samples, draws, position), lo, hi);
    }
  }

  lemma {:induction false} ClusterPoolWithin(
    replicates: seq<seq<real>>, draws: nat -> Uniform, at: nat, r: nat, lo: real, hi: real)
    requires replicates != [] && [] !in replicates && forall s :: s in replicates ==> Within(s, lo, hi)
    ensures Within(ClusterPool(replicates, draws, at, r).0, lo, hi)
  {
    if r > 0 {
      ClusterPoolWithin(replicates, draws, at, r - 1, lo, hi);
      var (pool, position) := ClusterPool(replicates, draws, at, r - 1);
      ResampleWithin(replicates[Index(draws(position), |replicates|)], draws, position + 1, lo, hi);
    }
  }

  lemma {:induction false} ClusterPoolMediansWithin(
    replicates: seq<seq<real>>, draws: nat -> Uniform, at: nat, count: nat, lo: real, hi: real)
    requires replicates != [] && [] !in replicates && forall s :: s in replicates ==> Within(s, lo, hi)
    ensures Within(ClusterPoolMedians(replicates, draws, at, count).0, lo, hi)
  {
    hide Median, ClusterPool;
    if count > 0 {
      ClusterPoolMediansWithin(replicates, draws, at, count - 1, lo, hi);
      var (medians, position) := ClusterPoolMedians(replicates, draws, at, count - 1);
      ClusterPoolWithin(replicates, draws, position, |replicates|, lo, hi);
      MedianWithin(ClusterPool(replicates, draws, position, |replicates|).0, lo, hi);
    }
  }

  /** `lo <= hi`, and neither bound leaves the range of what was resampled. */
  lemma EnvelopeBounds(median: real, medians: seq<real>, level: real, lo: real, hi: real)
    requires medians != [] && 0.0 < level < 1.0 && Within(medians, lo, hi)
    ensures var i := Envelope(median, medians, level); lo <= i.lo <= i.hi <= hi
  {
    hide Percentile, Sort;
    var sorted, tail := Sort(medians), Tail(level);
    PercentileMonotone(sorted, tail, 1.0 - tail);
    PercentileWithin(medians, tail, lo, hi);
    PercentileWithin(medians, 1.0 - tail, lo, hi);
  }

  /** The flat bootstrap's interval and its median lie inside the range of the samples. */
  lemma FlatIntervalBounds(samples: seq<real>, options: Options, draws: nat -> Uniform)
    requires samples != [] && OptionError(options).None?
    ensures var i := FlatInterval(samples, options, draws);
            Sort(samples)[0] <= i.lo <= i.hi <= Sort(samples)[|samples| - 1]
            && Sort(samples)[0] <= i.median <= Sort(samples)[|samples| - 1]
  {
    var least, most := Sort(samples)[0], Sort(samples)[|samples| - 1];
    RangeOf(samples);
    MedianWithin(samples, least, most);
    if |samples| > 1 {
      ResampledMediansWithin(samples, draws, 0, Resamples(options), least, most);
      EnvelopeBounds(Median(samples), ResampledMedians(samples, draws, 0, Resamples(options)).0,
                     Level(options), least, most);
    }
  }

  /** The cluster bootstrap's interval lies inside any range that holds every replicate's samples. */
  lemma ClusterIntervalBounds(
    replicates: seq<seq<real>>, options: Options, draws: nat -> Uniform, lo: real, hi: real)
    requires replicates != [] && OptionError(options).None?
    requires [] !in replicates && forall s :: s in replicates ==> Within(s, lo, hi)
    ensures var i := FlatInterval(SandboxMedians(replicates), options, draws);
            lo <= i.lo <= i.hi <= hi && lo <= i.median <= hi
  {
    hide Median, FlatInterval, Sort;
    var summaries := SandboxMedians(replicates);
    forall i | 0 <= i < |replicates| ensures lo <= summaries[i] <= hi {
      assert replicates[i] in replicates;
      MedianWithin(replicates[i], lo, hi);
    }
    var sorted := Sort(summaries);
    assert sorted[0] in multiset(summaries) && sorted[|sorted| - 1] in multiset(summaries);
    FlatIntervalBounds(summaries, options, draws);
  }

  /** The hierarchical bootstrap's interval lies inside the range of the pooled samples. */
  lemma HierarchicalIntervalBounds(replicates: seq<seq<real>>, options: Options, draws: nat -> Uniform)
    requires replicates != [] && [] !in replicates && OptionError(options).None?
    ensures var i := HierarchicalInterval(replicates, options, draws);
            var pooled := Flatten(replicates);
            pooled != [] && Sort(pooled)[0] <= i.lo <= i.hi <= Sort(pooled)[|pooled| - 1]
            && Sort(pooled)[0] <= i.median <= Sort(pooled)[|pooled| - 1]
  {
    PooledNotEmpty(replicates);
    var pooled := Flatten(replicates);
    var least, most := Sort(pooled)[0], Sort(pooled)[|pooled| - 1];
    RangeOf(pooled);
    forall s | s in replicates ensures Within(s, least, most) {
      forall x | x in s ensures least <= x <= most {
        assert x in pooled;
      }
    }
    MedianWithin(pooled, least, most);
    if |pooled| > 1 {
      ClusterPoolMediansWithin(replicates, draws, 0, Resamples(options), least, most);
      EnvelopeBounds(Median(pooled), ClusterPoolMedians(replicates, draws, 0, Resamples(options)).0,
                     Level(options), least, most);
    }
  }
}
