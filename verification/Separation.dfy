/** The separation verdict between two providers' replicate sandboxes, and how many sandboxes it needs. */
module Separation {
  import opened Coverage
  import opened Sequences
  import opened Sorting
  import opened OrderStatistics
  import opened Choose
  import opened Splits
  import opened Midranks
  import opened ExactNull
  import opened MannWhitney
  import opened MannWhitneyLaws
  import opened Wrappers

  const DEFAULT_ALPHA := 0.05

  datatype Verdict = Verdict(
    level: real, method_: PValueMethod, pValue: real, minAttainablePValue: real, separated: bool)

  datatype SeparationError = NoReplicate | NoSample | LevelOutOfRange

  /** `canSeparate`: could the test have reached significance at all? */
  predicate CanSeparate(test: RankSumTest, alpha: real) {
    test.minAttainablePValue < alpha
  }

  function VerdictOf(test: RankSumTest, level: real): Verdict {
    Verdict(level, test.method_, test.pValue, test.minAttainablePValue, test.pValue < 1.0 - level)
  }

  function ReplicateError(replicates: seq<seq<real>>): Option<SeparationError> {
    if replicates == [] then Some(NoReplicate) else if [] in replicates then Some(NoSample) else None
  }

  ghost function Separate(a: seq<seq<real>>, b: seq<seq<real>>, level: Option<real>, tail: NormalTail)
    : Result<Verdict, SeparationError>
  {
    if ReplicateError(a).Some? then Err(ReplicateError(a).value)
    else if ReplicateError(b).Some? then Err(ReplicateError(b).value)
    else if !IsCoverage(LevelOf(level)) then Err(LevelOutOfRange)
    else Ok(VerdictOf(RankSum(SandboxMedians(a), SandboxMedians(b), tail), LevelOf(level)))
  }

  /** A verdict reports the rank-sum test of the sandbox medians, and separates by its p-value. */
  ghost predicate Decided(a: seq<seq<real>>, b: seq<seq<real>>, level: Option<real>, tail: NormalTail, v: Verdict)
    requires a != [] && b != [] && [] !in a && [] !in b
  {
    var t := RankSum(SandboxMedians(a), SandboxMedians(b), tail);
    v.level == (if level.Some? then level.value else 0.95)
    && v.method_ == t.method_ && v.pValue == t.pValue && v.minAttainablePValue == t.minAttainablePValue
    && (v.separated <==> v.pValue < 1.0 - v.level)
  }

  method ClusterSeparation(a: seq<seq<real>>, b: seq<seq<real>>, level: Option<real>, tail: NormalTail)
    returns (r: Result<Verdict, SeparationError>)
    ensures r == Separate(a, b, level, tail)
    ensures r.Ok? <==> a != [] && b != [] && [] !in a && [] !in b && (level.Some? ==> 0.0 < level.value < 1.0)
    ensures a == [] || (b == [] && [] !in a) ==> r == Err(NoReplicate)
    ensures [] in a || ([] in b && a != []) ==> r == Err(NoSample)
    ensures r.Ok? ==> Decided(a, b, level, tail, r.value)
  {
    hide RankSum, SandboxMedians;
    var error := ReplicateError(a);
    if error.None? {
      error := ReplicateError(b);
    }
    if error.Some? {
      return Err(error.value);
    }
    var resolved := LevelOf(level);
    if !IsCoverage(resolved) {
      return Err(LevelOutOfRange);
    }
    var test := MannWhitneyU(SandboxMedians(a), SandboxMedians(b), tail);
    r := Ok(VerdictOf(test.value, resolved));
  }

  // ----- one verdict either way round

  /** Swapping the providers gives the same verdict, field by field. */
  lemma VerdictIsSymmetric(a: seq<seq<real>>, b: seq<seq<real>>, level: Option<real>, tail: NormalTail)
    requires Separate(a, b, level, tail).Ok?
    ensures Separate(b, a, level, tail) == Separate(a, b, level, tail)
  {
    hide RankSum, SandboxMedians;
    TestIsSymmetric(SandboxMedians(a), SandboxMedians(b), tail);
  }

  /** Reordering the trials inside each sandbox, or listing the sandboxes in another order, changes
      no verdict. */
  lemma VerdictIgnoresOrder(
    a: seq<seq<real>>, a': seq<seq<real>>, b: seq<seq<real>>, level: Option<real>, tail: NormalTail)
    requires Separate(a, b, level, tail).Ok?
    requires multiset(a) == multiset(a')
          || (|a| == |a'| && forall i :: 0 <= i < |a| ==> multiset(a[i]) == multiset(a'[i]))
    ensures Separate(a', b, level, tail) == Separate(a, b, level, tail)
  {
    hide RankSum;
    MediansIgnoreOrder(a, a');
    TestIgnoresOrder(SandboxMedians(a), SandboxMedians(a'), SandboxMedians(b), SandboxMedians(b), tail);
  }

  lemma MediansIgnoreOrder(a: seq<seq<real>>, a': seq<seq<real>>)
    requires a != [] && [] !in a
    requires multiset(a) == multiset(a')
          || (|a| == |a'| && forall i :: 0 <= i < |a| ==> multiset(a[i]) == multiset(a'[i]))
    ensures a' != [] && [] !in a' && multiset(SandboxMedians(a)) == multiset(SandboxMedians(a'))
  {
    hide Median;
    if multiset(a) == multiset(a') {
      assert [] !in multiset(a');
      MediansOfShuffled(a, a');
    } else {
      forall i | 0 <= i < |a| ensures a'[i] != [] && Median(a[i]) == Median(a'[i]) {
        assert a[i] in a && |multiset(a[i])| == |multiset(a'[i])|;
        SameMedian(a[i], a'[i]);
      }
      assert SandboxMedians(a) == SandboxMedians(a');
    }
  }

  lemma SameMedian(s: seq<real>, t: seq<real>)
    requires s != [] && t != [] && multiset(s) == multiset(t)
    ensures Median(s) == Median(t)
  {
    SortIgnoresOrder(s, t);
  }

  lemma {:induction false} MediansOfShuffled(a: seq<seq<real>>, a': seq<seq<real>>)
    requires [] !in a && [] !in a' && multiset(a) == multiset(a')
    ensures multiset(SandboxMedians(a)) == multiset(SandboxMedians(a'))
  {
    hide Median, SandboxMedians;
    assert |multiset(a)| == |multiset(a')|;
    if a != [] {
      var j := Removable(a, a');
      var init, last, before, after := a[..|a| - 1], [a[|a| - 1]], a'[..j], a'[j + 1..];
      assert a == init + last && a' == before + last + after;
      MediansOfShuffled(init, before + after);
      MediansConcat(init, last);
      MediansConcat(before, last);
      MediansConcat(before + last, after);
      MediansConcat(before, after);
    }
  }

  lemma MediansConcat(a: seq<seq<real>>, b: seq<seq<real>>)
    requires [] !in a && [] !in b
    ensures SandboxMedians(a + b) == SandboxMedians(a) + SandboxMedians(b)
  {
    hide Median;
  }

  // ----- how many sandboxes a verdict needs

  lemma CentralBinomials()
    ensures Binomial(2, 1) == 2 && Binomial(4, 2) == 6 && Binomial(6, 3) == 20 && Binomial(8, 4) == 70
  {
    hide Binomial;
    RowTwo(1);
    RowFour(2);
    RowFour(1);
    Absorption(5, 2);
    Absorption(6, 3);
    Absorption(5, 1);
    RowStarts(4);
    Absorption(6, 2);
    Absorption(7, 3);
    Absorption(8, 4);
  }

  lemma {:induction false} CentralGrows(r: nat)
    requires r >= 4
    ensures Binomial(2 * r, r) >= 70
  {
    if r == 4 {
      CentralBinomials();
    } else {
      CentralGrows(r - 1);
      Diagonal(2 * r, r);
    }
  }

  lemma Diagonal(n: nat, k: nat)
    requires n >= 2 && k >= 1
    ensures Binomial(n, k) >= Binomial(n - 2, k - 1)
  {
    assert Binomial(n, k) >= Binomial(n - 1, k - 1);
    BinomialGrows(n - 2, n - 1, k - 1);
  }

  /** With R sandboxes a side, R at most 3, no data separates the two at the default coverage, and the
      power guard says so; with one a side the p-value is 1, so no coverage separates them. */
  lemma SmallSamplesNeverSeparate(a: seq<seq<real>>, b: seq<seq<real>>, level: Option<real>, tail: NormalTail)
    requires Separate(a, b, level, tail).Ok? && 1 <= |a| == |b| <= 3
    ensures var v := Separate(a, b, level, tail).value;
            (|a| == 1 ==> v.pValue == 1.0 && !v.separated)
            && (level.None? ==> !v.separated)
            && v.pValue >= v.minAttainablePValue >= 0.1
            && !CanSeparate(RankSum(SandboxMedians(a), SandboxMedians(b), tail), DEFAULT_ALPHA)
  {
    hide DoubledU, ExactP, ExactFloor, DoubledRanks, Binomial, SandboxMedians, Variance, TieSum, Statistic;
    var x := SandboxMedians(a) + SandboxMedians(b);
    BalancedFloor(x, |a|);
    FloorIsSmallestAttainable(DoubledRanks(x), |a|, |a|);
    SmallFloors(|a|);
  }

  lemma SmallFloors(r: nat)
    requires 1 <= r <= 3
    ensures Binomial(2 * r, r) > 0
    ensures 2.0 / Binomial(2 * r, r) as real >= if r == 1 then 1.0 else 0.1
  {
    CentralBinomials();
  }

  /** Four sandboxes a side are enough: completely separated medians are declared different at the
      default coverage, whichever provider is ahead and whatever ties its own medians hold. */
  lemma FourSandboxesCanSeparate(a: seq<seq<real>>, b: seq<seq<real>>, tail: NormalTail)
    requires Separate(a, b, None, tail).Ok? && 4 <= |a| == |b| && |a| + |b| <= MAX_EXACT_N
    requires var p, q := SandboxMedians(a), SandboxMedians(b);
             AllBelow(p, q) || AllBelow(q, p)
    ensures Separate(a, b, None, tail).value.separated
  {
    hide SandboxMedians, AllBelow, RankSum;
    if AllBelow(SandboxMedians(a), SandboxMedians(b)) {
      LowerFourSeparate(a, b, tail);
    } else {
      VerdictIsSymmetric(a, b, None, tail);
      LowerFourSeparate(b, a, tail);
    }
  }

  lemma LowerFourSeparate(a: seq<seq<real>>, b: seq<seq<real>>, tail: NormalTail)
    requires Separate(a, b, None, tail).Ok? && 4 <= |a| == |b| && |a| + |b| <= MAX_EXACT_N
    requires AllBelow(SandboxMedians(a), SandboxMedians(b))
    ensures Separate(a, b, None, tail).value.separated
  {
    hide ExactP, ExactFloor, DoubledRanks, Binomial, SandboxMedians, AllBelow, Extremes, Separate;
    ExactVerdict(a, b, None, tail);
    EqualSidesSeparate(SandboxMedians(a), SandboxMedians(b));
    CentralGrows(|a|);
    SmallShare(Binomial(|a| + |b|, |a|));
  }

  lemma SmallShare(n: nat)
    requires n >= 70
    ensures 2.0 / n as real < 0.05
  {
    assert 0.05 * n as real > 2.0;
  }

  // ----- what decides a verdict

  /** On the exact path a verdict counts splits: it separates exactly when those at least as far out as
      the observed one are fewer than their share 1 - level of all C(N, nA). */
  lemma VerdictCountsSplits(a: seq<seq<real>>, b: seq<seq<real>>, level: Option<real>, tail: NormalTail)
    requires Separate(a, b, level, tail).Ok? && |a| + |b| <= 50
    ensures var v := Separate(a, b, level, tail).value;
            v.separated <==> FewerThan(
                               |SplitsAsExtreme(SandboxMedians(a), SandboxMedians(b))|, 1.0 - v.level,
                               Binomial(|a| + |b|, |a|))
  {
    hide *;
    ExactVerdict(a, b, level, tail);
    var p, q := SandboxMedians(a), SandboxMedians(b);
    ExactPCountsSplits(p, q);
    ShareBelow(|SplitsAsExtreme(p, q)|, Binomial(|a| + |b|, |a|), 1.0 - LevelOf(level));
  }

  /** `k` is less than the share `share` of `n`. */
  predicate FewerThan(k: nat, share: real, n: nat) {
    k as real < share * n as real
  }

  lemma ShareBelow(k: nat, n: nat, share: real)
    requires n > 0
    ensures k as real / n as real < share <==> FewerThan(k, share, n)
  {
    Divide(k as real, n as real, share);
  }

  lemma Divide(x: real, n: real, y: real)
    requires n > 0.0
    ensures x / n < y <==> x < y * n
  {
    var z := x / n;
    assert z * n == x;
    if z < y {
      assert (y - z) * n > 0.0;
    } else {
      assert (z - y) * n >= 0.0;
    }
  }

  lemma ExactVerdict(a: seq<seq<real>>, b: seq<seq<real>>, level: Option<real>, tail: NormalTail)
    requires Separate(a, b, level, tail).Ok? && |a| + |b| <= 50
    ensures a != [] && b != [] && [] !in a && [] !in b && 0.0 < LevelOf(level) < 1.0
    ensures var v := Separate(a, b, level, tail).value;
            v.pValue == ExactP(DoubledRanks(SandboxMedians(a) + SandboxMedians(b)), |a|, |b|)
            && v.level == LevelOf(level) && (v.separated <==> v.pValue < 1.0 - v.level)
  {
    hide SandboxMedians, RankSum, ExactP, DoubledRanks;
    ExactFields(SandboxMedians(a), SandboxMedians(b), tail);
  }

  /** The power guard in terms of data: it lets a comparison through exactly when some split of the same
      pooled medians would come out below alpha. */
  lemma GuardIsAttainability(p: seq<real>, q: seq<real>, tail: NormalTail, alpha: real)
    requires p != [] && q != [] && |p| + |q| <= 50
    ensures var d := DoubledRanks(p + q);
            CanSeparate(RankSum(p, q, tail), alpha)
            <==> exists s :: s in Picks(|p| + |q|, |p|)
                             && TailShare(d, |p|, |q|, Deviation(d, |p|, |q|, s)) < alpha
  {
    hide DoubledRanks, ExactP, TailShare, Deviation, Picks, Statistic;
    FloorIsSmallestAttainable(DoubledRanks(p + q), |p|, |q|);
  }

  /** A pool whose sides win as many pairs as they lose has p-value 1: no coverage separates it. */
  lemma EvenPairsNeverSeparate(a: seq<seq<real>>, b: seq<seq<real>>, level: Option<real>, tail: NormalTail)
    requires Separate(a, b, level, tail).Ok? && |a| + |b| <= 50
    requires DoubledU(SandboxMedians(a), SandboxMedians(b)) == |a| * |b|
    ensures var v := Separate(a, b, level, tail).value;
            v.pValue == 1.0 && !v.separated
  {
    hide *;
    var p, q := SandboxMedians(a), SandboxMedians(b);
    ExactVerdict(a, b, level, tail);
    ExactPCountsSplits(p, q);
    EverySplitCounts(p, q);
    Whole(Binomial(|a| + |b|, |a|));
  }

  lemma Whole(n: nat)
    requires n > 0
    ensures n as real / n as real == 1.0
  {
  }

  lemma EverySplitCounts(p: seq<real>, q: seq<real>)
    requires DoubledU(p, q) == |p| * |q|
    ensures |SplitsAsExtreme(p, q)| == Binomial(|p| + |q|, |p|)
  {
    hide DoubledU, Picks, Pick, Leave, Binomial;
    assert SplitsAsExtreme(p, q) == Picks(|p + q|, |p|);
    PicksAreBinomial(|p + q|, |p|);
  }

  /** Four sandboxes a side with distinct medians need not separate, although the test could have:
      1, 4, 6, 7 against 2, 3, 5, 8. */
  lemma FourSandboxesNeedNotSeparate(tail: NormalTail)
    ensures var a, b := [[1.0], [4.0], [6.0], [7.0]], [[2.0], [3.0], [5.0], [8.0]];
            Separate(a, b, None, tail).Ok? && !Separate(a, b, None, tail).value.separated
            && CanSeparate(RankSum(SandboxMedians(a), SandboxMedians(b), tail), DEFAULT_ALPHA)
  {
    hide *;
    var a, b := [[1.0], [4.0], [6.0], [7.0]], [[2.0], [3.0], [5.0], [8.0]];
    var p, q := [1.0, 4.0, 6.0, 7.0], [2.0, 3.0, 5.0, 8.0];
    MediansOfSingles(a, p);
    MediansOfSingles(b, q);
    EvenPairs(p, q);
    EightDistinct(p, q);
    GuardLetsFourThrough(p, q, tail);
    EvenFours(a, b, tail);
  }

  lemma EvenFours(a: seq<seq<real>>, b: seq<seq<real>>, tail: NormalTail)
    requires |a| == |b| == 4 && [] !in a && [] !in b
    requires DoubledU(SandboxMedians(a), SandboxMedians(b)) == 16
    ensures Separate(a, b, None, tail).Ok? && !Separate(a, b, None, tail).value.separated
  {
    hide SandboxMedians, DoubledU, RankSum, VerdictOf;
    EvenPairsNeverSeparate(a, b, None, tail);
  }

  lemma EightDistinct(p: seq<real>, q: seq<real>)
    requires p == [1.0, 4.0, 6.0, 7.0] && q == [2.0, 3.0, 5.0, 8.0]
    ensures Distinct(p + q)
  {
  }

  lemma GuardLetsFourThrough(p: seq<real>, q: seq<real>, tail: NormalTail)
    requires |p| == |q| == 4 && Distinct(p + q)
    ensures CanSeparate(RankSum(p, q, tail), DEFAULT_ALPHA)
  {
    hide DoubledRanks, ExactFloor, ExactP, Binomial, RankSum, Distinct;
    DistinctFloor(p + q, 4, 4);
    CentralBinomials();
    ExactFields(p, q, tail);
  }

  lemma MediansOfSingles(a: seq<seq<real>>, p: seq<real>)
    requires |a| == |p| && forall i :: 0 <= i < |a| ==> a[i] == [p[i]]
    ensures [] !in a && SandboxMedians(a) == p
  {
    hide Median;
    forall i | 0 <= i < |a| ensures a[i] != [] && Median(a[i]) == p[i] {
      MedianOfOne(a[i]);
    }
  }

  lemma EvenPairs(p: seq<real>, q: seq<real>)
    requires p == [1.0, 4.0, 6.0, 7.0] && q == [2.0, 3.0, 5.0, 8.0]
    ensures DoubledU(p, q) == 16
  {
    hide Wins;
    WinsOfFour(1.0, q);
    WinsOfFour(4.0, q);
    WinsOfFour(6.0, q);
    WinsOfFour(7.0, q);
    assert p[..3] == [1.0, 4.0, 6.0] && p[..3][..2] == [1.0, 4.0] && p[..3][..2][..1] == [1.0];
    assert DoubledU(p[..3][..2][..1], q) == Wins(1.0, q);
    assert DoubledU(p[..3][..2], q) == Wins(1.0, q) + Wins(4.0, q);
    assert DoubledU(p[..3], q) == Wins(1.0, q) + Wins(4.0, q) + Wins(6.0, q);
  }

  function WinOf(v: real, w: real): nat {
    if w < v then 2 else if w == v then 1 else 0
  }

  lemma WinsOfFour(v: real, q: seq<real>)
    requires |q| == 4
    ensures Wins(v, q) == WinOf(v, q[0]) + WinOf(v, q[1]) + WinOf(v, q[2]) + WinOf(v, q[3])
  {
    assert q[..3][..2][..1] == [q[0]] && q[..3][..2][..1][..0] == [];
    assert Wins(v, q[..3][..2][..1]) == WinOf(v, q[0]);
    assert Wins(v, q[..3][..2]) == WinOf(v, q[0]) + WinOf(v, q[1]);
    assert Wins(v, q[..3]) == WinOf(v, q[0]) + WinOf(v, q[1]) + WinOf(v, q[2]);
  }

  // ----- ties

  /** `[2]` against `[1, 1]`: the floor is 1/3, below the 2/3 an untied one-against-two has, so no
      formula in the sample sizes alone can give it. */
  lemma TiesHalveTheFloor()
    ensures ExactFloor(DoubledRanks([2.0, 1.0, 1.0]), 1, 2) == 1.0 / 3.0
    ensures ExactFloor(DoubledRanks([3.0, 1.0, 2.0]), 1, 2) == 2.0 / 3.0
  {
    hide ExactFloor, DoubledRanks, Binomial;
    var x := [2.0, 1.0, 1.0];
    var upper := FirstPick(3, 1);
    assert upper == {0} by { assert Indices(1) == {0}; }
    forall s | s in Picks(3, 1) ensures !LowerSplit(x, s) {
      NoLowerSingleton(x, s);
    }
    OneSidedFloor(x, 1, 2, upper);
    DistinctFloor([3.0, 1.0, 2.0], 1, 2);
    RowThree(1);
  }

  lemma NoLowerSingleton(x: seq<real>, s: set<nat>)
    requires x == [2.0, 1.0, 1.0] && s in Picks(3, 1)
    ensures !LowerSplit(x, s)
  {
    var i :| i in s;
    assert i in Indices(3) && |s - {i}| == 0;
    var j: nat := if i == 0 then 1 else 3 - i;
    assert j !in s && !(x[i] < x[j]);
  }

  // ----- the asymptotic branch's degenerate exit

  /** The tie correction of `k` values, each occurring `n` times in the pool. */
  function FullTies(k: nat, n: nat): int {
    k * (n * n - 1)
  }

  lemma {:induction false} TieSumBound(s: seq<real>, pool: multiset<real>, n: nat)
    requires n > 0 && forall v :: pool[v] <= n
    ensures TieSum(s, pool) <= FullTies(|s|, n)
    ensures TieSum(s, pool) == FullTies(|s|, n) <==> forall i :: 0 <= i < |s| ==> pool[s[i]] == n
  {
    if s != [] {
      var init, last := s[..|s| - 1], s[|s| - 1];
      TieSumBound(init, pool, n);
      SquareBound(pool[last], n);
      OneMoreTie(|init|, n);
      assert TieSum(s, pool) == TieSum(init, pool) + pool[last] * pool[last] - 1;
      assert s == init + [last];
    }
  }

  lemma OneMoreTie(k: nat, n: nat)
    ensures FullTies(k + 1, n) == FullTies(k, n) + n * n - 1
  {
  }

  lemma SquareBound(t: nat, n: nat)
    requires t <= n
    ensures t * t <= n * n && (t * t == n * n <==> t == n)
  {
    assert n * n - t * t == (n - t) * (n + t);
  }

  lemma {:induction false} FullMultiplicity(x: seq<real>, v: real)
    ensures multiset(x)[v] <= |x|
    ensures multiset(x)[v] == |x| <==> forall i :: 0 <= i < |x| ==> x[i] == v
  {
    if x != [] {
      FullMultiplicity(x[..|x| - 1], v);
      assert x == x[..|x| - 1] + [x[|x| - 1]];
    }
  }

  lemma VarianceSign(nA: nat, nB: nat, t: int)
    requires nA > 0 && nB > 0 && t <= FullTies(nA + nB, nA + nB)
    ensures Variance(nA, nB, t) >= 0.0
    ensures Variance(nA, nB, t) == 0.0 <==> t == FullTies(nA + nB, nA + nB)
  {
    hide FullTies;
    var n := nA + nB;
    PositiveProduct(nA, nB);
    PositiveProduct(n, n - 1);
    TopOfTies(n);
    CorrectedSign((nA * nB) as real / 12.0, (n + 1) as real, t as real, (n * (n - 1)) as real);
  }

  lemma CorrectedSign(c: real, bound: real, t: real, scale: real)
    requires c > 0.0 && scale > 0.0 && t <= bound * scale
    ensures c * (bound - t / scale) >= 0.0
    ensures c * (bound - t / scale) == 0.0 <==> t == bound * scale
  {
    QuotientSign(t, scale, bound);
    ScaleSign(c, bound - t / scale);
  }

  lemma PositiveProduct(x: nat, y: nat)
    requires x > 0 && y > 0
    ensures x * y > 0
  {
  }

  lemma TopOfTies(n: nat)
    requires n > 1
    ensures FullTies(n, n) as real == (n + 1) as real * (n * (n - 1)) as real
  {
    assert FullTies(n, n) == (n + 1) * (n * (n - 1));
  }

  lemma QuotientSign(t: real, scale: real, bound: real)
    requires scale > 0.0 && t <= bound * scale
    ensures t / scale <= bound && (t / scale == bound <==> t == bound * scale)
  {
    assert t / scale * scale == t;
  }

  lemma ScaleSign(c: real, y: real)
    requires c > 0.0 && y >= 0.0
    ensures c * y >= 0.0 && (c * y == 0.0 <==> y == 0.0)
  {
  }

  /** The tie-corrected variance is never negative, and it is 0, the exit that reports p = 1, exactly
      when every pooled value is the same. */
  lemma NoVarianceIffConstant(a: seq<real>, b: seq<real>)
    requires a != [] && b != []
    ensures var x := a + b;
            var variance := Variance(|a|, |b|, TieSum(x, multiset(x)));
            variance >= 0.0 && (variance <= 0.0 <==> forall i :: 0 <= i < |x| ==> x[i] == x[0])
  {
    hide Variance, TieSum, FullTies;
    var x := a + b;
    forall v ensures multiset(x)[v] <= |x| {
      FullMultiplicity(x, v);
    }
    TieSumBound(x, multiset(x), |x|);
    VarianceSign(|a|, |b|, TieSum(x, multiset(x)));
    forall i | 0 <= i < |x|
      ensures multiset(x)[x[i]] == |x| <==> forall j :: 0 <= j < |x| ==> x[j] == x[i]
    {
      FullMultiplicity(x, x[i]);
    }
  }
}
