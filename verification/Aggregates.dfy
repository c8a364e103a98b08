/** The canonical distribution of a metric: percentiles, Welford mean and variance, extremes. */
module Aggregates {
  import opened Sorting
  import opened OrderStatistics
  import opened Wrappers

  /** `variance` is the square of the published standard deviation. */
  datatype Aggregate = Aggregate(
    p50: real, p95: real, mean: real, variance: real, min: real, max: real, n: nat)

  datatype AggregateError = EmptySamples

  function Sum(s: seq<real>): real {
    if s == [] then 0.0 else Sum(s[..|s| - 1]) + s[|s| - 1]
  }

  function Square(x: real): (q: real)
    ensures q >= 0.0
  {
    x * x
  }

  /** The sum of squared deviations from `c`. */
  function SquaredDeviations(s: seq<real>, c: real): (d: real)
    ensures d >= 0.0
  {
    if s == [] then 0.0 else SquaredDeviations(s[..|s| - 1], c) + Square(s[|s| - 1] - c)
  }

  function Mean(s: seq<real>): real
    requires s != []
  {
    Sum(s) / |s| as real
  }

  /** What `aggregate` promises, computed the textbook way: no running mean, no accumulator. */
  function Distribution(samples: seq<real>): Aggregate
    requires samples != []
  {
    var n := |samples|;
    var sorted := Sort(samples);
    Aggregate(
      Percentile(sorted, 0.5), Percentile(sorted, 0.95), Mean(samples),
      if n > 1 then SquaredDeviations(samples, Mean(samples)) / (n - 1) as real else 0.0,
      Percentile(sorted, 0.0), Percentile(sorted, 1.0), n)
  }

  /** The fields in numbers: what the mean and the variance are multiples of, and which percentiles are
      reported. */
  lemma DistributionInNumbers(samples: seq<real>)
    requires samples != []
    ensures var d, n := Distribution(samples), |samples|;
            d.n == n && d.mean * n as real == Sum(samples)
            && (n == 1 ==> d.variance == 0.0)
            && (n > 1 ==> d.variance * (n - 1) as real == SquaredDeviations(samples, d.mean))
            && PercentileOf(samples, 0.5) == Ok(d.p50) && PercentileOf(samples, 0.95) == Ok(d.p95)
            && Ok(d.min) == PercentileOf(samples, 0.0) && Ok(d.max) == PercentileOf(samples, 1.0)
  {
    hide Sum, SquaredDeviations, Percentile, Sort, Mean;
    var d, n := Distribution(samples), |samples|;
    assert d.mean == Mean(samples);
    MeanInNumbers(samples);
    if n > 1 {
      assert d.variance == SquaredDeviations(samples, d.mean) / (n - 1) as real;
      Undivide(SquaredDeviations(samples, d.mean), (n - 1) as real);
    }
  }

  lemma MeanInNumbers(samples: seq<real>)
    requires samples != []
    ensures Mean(samples) * |samples| as real == Sum(samples)
  {
    hide Sum;
    Undivide(Sum(samples), |samples| as real);
  }

  lemma Undivide(x: real, n: real)
    requires n > 0.0
    ensures x / n * n == x
  {
  }

  // ----- sums and squared deviations forget order

  lemma {:induction false} SumConcat(s: seq<real>, t: seq<real>)
    ensures Sum(s + t) == Sum(s) + Sum(t)
  {
    if t == [] {
      assert s + t == s;
    } else {
      assert (s + t)[..|s + t| - 1] == s + t[..|t| - 1];
      SumConcat(s, t[..|t| - 1]);
    }
  }

  lemma {:induction false} SquaredDeviationsConcat(s: seq<real>, t: seq<real>, c: real)
    ensures SquaredDeviations(s + t, c) == SquaredDeviations(s, c) + SquaredDeviations(t, c)
  {
    if t == [] {
      assert s + t == s;
    } else {
      assert (s + t)[..|s + t| - 1] == s + t[..|t| - 1];
      SquaredDeviationsConcat(s, t[..|t| - 1], c);
    }
  }

  lemma SumsAround(before: seq<real>, x: real, after: seq<real>, c: real)
    ensures Sum(before + [x] + after) == Sum(before + after) + x
    ensures SquaredDeviations(before + [x] + after, c)
         == SquaredDeviations(before + after, c) + Square(x - c)
  {
    assert (before + [x])[..|before|] == before;
    SumConcat(before, after);
    SumConcat(before + [x], after);
    SquaredDeviationsConcat(before, after, c);
    SquaredDeviationsConcat(before + [x], after, c);
  }

  lemma {:induction false} SumsIgnoreOrder(s: seq<real>, t: seq<real>, c: real)
    requires multiset(s) == multiset(t)
    ensures Sum(s) == Sum(t) && SquaredDeviations(s, c) == SquaredDeviations(t, c)
  {
    assert |multiset(s)| == |multiset(t)|;
    if s != [] {
      var j := Removable(s, t);
      SumsIgnoreOrder(s[..|s| - 1], t[..j] + t[j + 1..], c);
      SumsAround(t[..j], t[j], t[j + 1..], c);
    }
  }

  // ----- Welford's step

  /** Where the squared deviations `q` of `k` samples with the given sum move when the centre moves
      from `c` to `d`. */
  function Recentred(q: real, k: real, sum: real, c: real, d: real): real {
    q + 2.0 * (c - d) * (sum - k * c) + k * Square(c - d)
  }

  lemma RecentredStep(q: real, k: real, sum: real, x: real, c: real, d: real)
    ensures Recentred(q, k, sum, c, d) + Square(x - d)
         == Recentred(q + Square(x - c), k + 1.0, sum + x, c, d)
  {
  }

  /** The parallel-axis identity. */
  lemma {:induction false} ParallelAxis(s: seq<real>, c: real, d: real)
    ensures SquaredDeviations(s, d)
         == Recentred(SquaredDeviations(s, c), |s| as real, Sum(s), c, d)
  {
    if s != [] {
      var init, x := s[..|s| - 1], s[|s| - 1];
      ParallelAxis(init, c, d);
      RecentredStep(SquaredDeviations(init, c), |init| as real, Sum(init), x, c, d);
    }
  }

  ghost predicate IsMean(k: real, mean: real, sum: real) {
    k * mean == sum
  }

  ghost predicate WelfordUpdate(n: real, x: real, mean: real, m2: real, mean': real, m2': real) {
    n >= 1.0 && mean' == mean + (x - mean) / n && m2' == m2 + (x - mean) * (x - mean')
  }

  /** One Welford update, bringing in the `n`-th sample. */
  function Update(n: nat, sample: real, mean: real, m2: real): (r: (real, real))
    requires n > 0
    ensures WelfordUpdate(n as real, sample, mean, m2, r.0, r.1)
  {
    var delta := sample - mean;
    var mean' := mean + delta / n as real;
    (mean', m2 + delta * (sample - mean'))
  }

  lemma WelfordMean(k: real, x: real, mean: real, m2: real, mean': real, m2': real, sum: real)
    requires WelfordUpdate(k + 1.0, x, mean, m2, mean', m2') && IsMean(k, mean, sum)
    ensures IsMean(k + 1.0, mean', sum + x)
    ensures (k + 1.0) * (mean' - mean) == x - mean
  {
  }

  lemma WelfordSquares(k: real, x: real, mean: real, m2: real, mean': real, m2': real, sum: real)
    requires WelfordUpdate(k + 1.0, x, mean, m2, mean', m2') && IsMean(k, mean, sum)
    ensures m2' == Recentred(m2, k, sum, mean, mean') + Square(x - mean')
  {
    WelfordMean(k, x, mean, m2, mean', m2', sum);
    var step := mean' - mean;
    assert x - mean == (k + 1.0) * step && x - mean' == k * step;
    assert sum - k * mean == 0.0;
    assert Square(mean - mean') == step * step;
    assert Square(x - mean') == (k * step) * (k * step);
    assert (x - mean) * (x - mean') == ((k + 1.0) * step) * (k * step);
  }

  /** The accumulators a Welford pass holds after the samples `s`. */
  ghost predicate Accumulated(s: seq<real>, mean: real, m2: real) {
    IsMean(|s| as real, mean, Sum(s)) && m2 == SquaredDeviations(s, mean)
  }

  /** One more sample: the running mean and the running sum of squares stay exact. */
  lemma WelfordStep(s: seq<real>, x: real, mean: real, m2: real)
    requires Accumulated(s, mean, m2)
    ensures var (mean', m2') := Update(|s| + 1, x, mean, m2); Accumulated(s + [x], mean', m2')
  {
    var (mean', m2') := Update(|s| + 1, x, mean, m2);
    var k := |s| as real;
    var t := s + [x];
    assert t[..|t| - 1] == s && |t| as real == k + 1.0 == (|s| + 1) as real;
    WelfordMean(k, x, mean, m2, mean', m2', Sum(s));
    assert Sum(t) == Sum(s) + x;
    WelfordSquares(k, x, mean, m2, mean', m2', Sum(s));
    ParallelAxis(s, mean, mean');
    assert SquaredDeviations(t, mean') == SquaredDeviations(s, mean') + Square(x - mean');
  }

  /** `aggregate(samples)`: an error on no samples, otherwise the textbook distribution. */
  method ComputeAggregate(samples: seq<real>) returns (r: Result<Aggregate, AggregateError>)
    ensures r == if samples == [] then Err(EmptySamples) else Ok(Distribution(samples))
  {
    hide Accumulated, Distribution, Sort, Percentile;
    if samples == [] {
      return Err(EmptySamples);
    }
    var sorted := Sort(samples);
    var mean, m2, n := 0.0, 0.0, 0;
    NothingAccumulated(sorted);
    while n < |sorted|
      invariant 0 <= n <= |sorted|
      invariant Accumulated(sorted[..n], mean, m2)
    {
      WelfordStep(sorted[..n], sorted[n], mean, m2);
      assert sorted[..n + 1] == sorted[..n] + [sorted[n]];
      n := n + 1;
      var (mean', m2') := Update(n, sorted[n - 1], mean, m2);
      mean, m2 := mean', m2';
    }
    assert sorted[..n] == sorted;
    AccumulatedDistribution(samples, mean, m2);
    r := Ok(Aggregate(
      Percentile(sorted, 0.5), Percentile(sorted, 0.95), mean,
      if n > 1 then m2 / (n - 1) as real else 0.0,
      Percentile(sorted, 0.0), Percentile(sorted, 1.0), n));
  }

  lemma NothingAccumulated(s: seq<real>)
    ensures Accumulated(s[..0], 0.0, 0.0)
  {
  }

  /** The accumulators of a whole pass are the textbook mean and sum of squares. */
  lemma AccumulatedDistribution(samples: seq<real>, mean: real, m2: real)
    requires samples != [] && Accumulated(Sort(samples), mean, m2)
    ensures var sorted, n := Sort(samples), |samples|;
            Distribution(samples) == Aggregate(
              Percentile(sorted, 0.5), Percentile(sorted, 0.95), mean,
              if n > 1 then m2 / (n - 1) as real else 0.0,
              Percentile(sorted, 0.0), Percentile(sorted, 1.0), n)
  {
    hide Sort, Percentile;
    SumsIgnoreOrder(samples, Sort(samples), mean);
    MeanFromTotal(|samples| as real, mean, Sum(samples));
  }

  lemma MeanFromTotal(n: real, mean: real, total: real)
    requires n > 0.0 && IsMean(n, mean, total)
    ensures mean == total / n
  {
  }

  // ----- what a reader may rely on

  ghost predicate Between(n: real, lo: real, total: real, hi: real) {
    n * lo <= total <= n * hi
  }

  lemma {:induction false} SumBounds(s: seq<real>, lo: real, hi: real)
    requires forall i :: 0 <= i < |s| ==> lo <= s[i] <= hi
    ensures Between(|s| as real, lo, Sum(s), hi)
  {
    if s != [] {
      SumBounds(s[..|s| - 1], lo, hi);
    }
  }

  lemma QuotientBetween(n: real, total: real, lo: real, hi: real)
    requires n > 0.0 && Between(n, lo, total, hi)
    ensures lo <= total / n <= hi
  {
    var q := total / n;
    assert n * q == total;
    assert n * (q - lo) >= 0.0 && n * (hi - q) >= 0.0;
  }

  /** Every aggregate is ordered `min <= p50 <= p95 <= max`, brackets its mean, reports the true
      extremes and has a nonnegative variance. */
  lemma AggregateIsOrdered(samples: seq<real>)
    requires samples != []
    ensures var a := Distribution(samples);
            a.min <= a.p50 <= a.p95 <= a.max && a.min <= a.mean <= a.max && a.variance >= 0.0
            && a.min in samples && a.max in samples
            && forall x :: x in samples ==> a.min <= x <= a.max
  {
    PercentilesAreOrdered(Sort(samples));
    MeanIsBracketed(samples);
    if |samples| > 1 {
      NonNegativeQuotient(SquaredDeviations(samples, Mean(samples)), (|samples| - 1) as real);
    }
  }

  lemma PercentilesAreOrdered(sorted: seq<real>)
    requires sorted != [] && Sorted(sorted)
    ensures Percentile(sorted, 0.0) == sorted[0] && Percentile(sorted, 1.0) == sorted[|sorted| - 1]
    ensures sorted[0] <= Percentile(sorted, 0.5) <= Percentile(sorted, 0.95) <= sorted[|sorted| - 1]
  {
    PercentileMonotone(sorted, 0.0, 0.5);
    PercentileMonotone(sorted, 0.5, 0.95);
    PercentileMonotone(sorted, 0.95, 1.0);
    PercentileEnds(sorted);
  }

  lemma MeanIsBracketed(samples: seq<real>)
    requires samples != []
    ensures var sorted := Sort(samples); var least, most := sorted[0], sorted[|samples| - 1];
            least in samples && most in samples && least <= Mean(samples) <= most
            && forall x :: x in samples ==> least <= x <= most
  {
    var sorted := Sort(samples);
    forall x | x in samples ensures sorted[0] <= x <= sorted[|samples| - 1] {
      SortedEnds(samples, x);
    }
    assert sorted[0] in multiset(samples) && sorted[|samples| - 1] in multiset(samples);
    assert forall i :: 0 <= i < |samples| ==> samples[i] in samples;
    SumBounds(samples, sorted[0], sorted[|samples| - 1]);
    QuotientBetween(|samples| as real, Sum(samples), sorted[0], sorted[|samples| - 1]);
  }

  lemma NonNegativeQuotient(a: real, b: real)
    requires a >= 0.0 && b > 0.0
    ensures a / b >= 0.0
  {
  }

  /** Shuffling the samples changes no field of the aggregate. */
  lemma AggregateIgnoresOrder(samples: seq<real>, shuffled: seq<real>)
    requires samples != [] && multiset(samples) == multiset(shuffled)
    ensures |shuffled| == |samples| && Distribution(samples) == Distribution(shuffled)
  {
    assert |multiset(samples)| == |multiset(shuffled)|;
    SortIgnoresOrder(samples, shuffled);
    SumsIgnoreOrder(samples, shuffled, Mean(samples));
  }
}
