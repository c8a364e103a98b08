/** The Mann-Whitney test on pooled midranks, the power floor it reports, and the separation verdict a
    ranking reads from it. */
module MannWhitney {
  import opened Reals
  import opened Sorting
  import opened Choose
  import opened Splits
  import opened Midranks
  import opened ExactNull
  import opened Wrappers

  datatype PValueMethod = Exact | Asymptotic

  datatype RankSumTest = RankSumTest(
    statistic: real, pValue: real, minAttainablePValue: real, method_: PValueMethod, nA: nat, nB: nat)

  datatype RankSumError = EmptySide

  /** The tail of the normal approximation: a function of the deviation and the tie-corrected variance. */
  type NormalTail = (real, real) -> real

  // ----- what the test reports

  function HalfOf(n: nat): real {
    n as real / 2.0
  }

  /** `min(uA, uB)`, each U being its side's pairs won plus half the pairs tied. */
  function Statistic(a: seq<real>, b: seq<real>): real {
    Min(HalfOf(DoubledU(a, b)), HalfOf(DoubledU(b, a)))
  }

  function Variance(nA: nat, nB: nat, tieCorrection: int): real
    requires nA > 0 && nB > 0
  {
    var n := nA + nB;
    (nA * nB) as real / 12.0 * ((n + 1) as real - tieCorrection as real / (n * (n - 1)) as real)
  }

  ghost function RankSum(a: seq<real>, b: seq<real>, tail: NormalTail): RankSumTest
    requires a != [] && b != []
  {
    var pooled, nA, nB := a + b, |a|, |b|;
    if nA + nB <= MAX_EXACT_N then
      var d := DoubledRanks(pooled);
      RankSumTest(Statistic(a, b), ExactP(d, nA, nB), ExactFloor(d, nA, nB), Exact, nA, nB)
    else
      var mu := HalfOf(nA * nB);
      var variance := Variance(nA, nB, TieSum(pooled, multiset(pooled)));
      if variance <= 0.0 then RankSumTest(Statistic(a, b), 1.0, 1.0, Asymptotic, nA, nB)
      else RankSumTest(Statistic(a, b), tail(Distance(Statistic(a, b), mu), variance), tail(mu, variance),
                       Asymptotic, nA, nB)
  }

  method MannWhitneyU(a: seq<real>, b: seq<real>, tail: NormalTail)
    returns (r: Result<RankSumTest, RankSumError>)
    ensures a == [] || b == [] ==> r == Err(EmptySide)
    ensures a != [] && b != [] ==> r == Ok(RankSum(a, b, tail))
  {
    hide RankTotal, DoubledRank, DoubledRanks, ExactP, ExactFloor, Doubled, Variance, TieSum, DoubledU;
    if a == [] || b == [] {
      return Err(EmptySide);
    }
    var nA, nB := |a|, |b|;
    var ranks, tieCorrection := ComputeMidranks(a + b);
    var rankSumA := RankSumFirst(a, b, ranks);
    var uA := rankSumA - (nA * (nA + 1)) as real / 2.0;
    var uB := (nA * nB) as real - uA;
    UFromRankSum(a, b, rankSumA);
    var statistic := Min(uA, uB);
    if nA + nB <= MAX_EXACT_N {
      DoubledMidranks(a + b, ranks[..]);
      var pValue, floor := ExactMannWhitney(ranks[..], nA, nB);
      return Ok(RankSumTest(statistic, pValue, floor, Exact, nA, nB));
    }
    var mu := (nA * nB) as real / 2.0;
    var variance := Variance(nA, nB, tieCorrection);
    if variance <= 0.0 {
      return Ok(RankSumTest(statistic, 1.0, 1.0, Asymptotic, nA, nB));
    }
    r := Ok(RankSumTest(statistic, tail(Distance(statistic, mu), variance), tail(mu, variance),
                        Asymptotic, nA, nB));
  }

  method RankSumFirst(a: seq<real>, b: seq<real>, ranks: array<real>) returns (rankSumA: real)
    requires ranks.Length == |a + b|
    requires forall i :: 0 <= i < |a + b| ==> ranks[i] == DoubledRank(a + b, (a + b)[i]) as real / 2.0
    ensures rankSumA == HalfOf(RankTotal(a + b, a))
  {
    hide DoubledRank;
    rankSumA := 0.0;
    for i := 0 to |a|
      invariant rankSumA == HalfOf(RankTotal(a + b, a[..i]))
    {
      assert a[..i + 1][..i] == a[..i] && (a + b)[i] == a[i];
      rankSumA := rankSumA + ranks[i];
    }
    assert a[..|a|] == a;
  }

  /** `rankSumA - nA(nA + 1)/2` is U_A, and `nA * nB - uA` is U_B. */
  lemma UFromRankSum(a: seq<real>, b: seq<real>, rankSumA: real)
    requires rankSumA == HalfOf(RankTotal(a + b, a))
    ensures rankSumA - (|a| * (|a| + 1)) as real / 2.0 == HalfOf(DoubledU(a, b))
    ensures (|a| * |b|) as real - HalfOf(DoubledU(a, b)) == HalfOf(DoubledU(b, a))
  {
    hide RankTotal, DoubledU, HalfOf;
    var offset: nat, pairs: nat := |a| * (|a| + 1), |a| * |b|;
    RankSumCountsPairs(a, b);
    PairCountsAddUp(a, b);
    Halves(RankTotal(a + b, a), offset, pairs, DoubledU(a, b), DoubledU(b, a));
  }

  lemma Halves(ranks: nat, offset: nat, pairs: nat, won: nat, lost: nat)
    requires ranks == won + offset && won + lost == 2 * pairs
    ensures HalfOf(ranks) - offset as real / 2.0 == HalfOf(won)
    ensures pairs as real - HalfOf(won) == HalfOf(lost)
  {
  }

  /** Doubling and rounding the midranks recovers the integer doubled ranks. */
  lemma DoubledMidranks(x: seq<real>, ranks: seq<real>)
    requires |ranks| == |x|
    requires forall i :: 0 <= i < |x| ==> ranks[i] == DoubledRank(x, x[i]) as real / 2.0
    ensures forall i :: 0 <= i < |ranks| ==> ranks[i] >= 0.0
    ensures Doubled(ranks) == DoubledRanks(x)
  {
    hide DoubledRank;
    forall i | 0 <= i < |x| ensures Round(ranks[i] * 2.0) == DoubledRank(x, x[i]) {
      RoundExact(DoubledRank(x, x[i]), ranks[i]);
    }
  }

  lemma RoundExact(n: nat, r: real)
    requires r == n as real / 2.0
    ensures Round(r * 2.0) == n
  {
  }

  // ----- the observed split

  lemma {:induction false} PickPrefix(a: seq<real>, b: seq<real>)
    ensures Pick(a + b, Indices(|a|)) == a && Leave(a + b, Indices(|a|)) == b
  {
    var n := |a|;
    if b != [] {
      assert (a + b)[..|a + b| - 1] == a + b[..|b| - 1];
      PickPrefix(a, b[..|b| - 1]);
    } else {
      assert a + b == a;
      PickAll(a, n);
    }
  }

  lemma {:induction false} PickAll(a: seq<real>, n: nat)
    requires n >= |a|
    ensures Pick(a, Indices(n)) == a && Leave(a, Indices(n)) == []
  {
    if a != [] {
      PickAll(a[..|a| - 1], n);
    }
  }

  /** A split's deviation, as a statement about pairs rather than ranks. */
  lemma DeviationCountsPairs(x: seq<real>, nA: nat, nB: nat, s: set<nat>)
    requires |x| == nA + nB && s in Picks(|x|, nA)
    ensures Deviation(DoubledRanks(x), nA, nB, s) == Abs(DoubledU(Pick(x, s), Leave(x, s)) - nA * nB)
  {
    hide DoubledU, Pick, Leave, DoubledRanks, SumAt, Picks;
    SplitCountsPairs(x, nA, s);
  }

  lemma ObservedDeviation(a: seq<real>, b: seq<real>)
    ensures Indices(|a|) in Picks(|a + b|, |a|)
    ensures Deviation(DoubledRanks(a + b), |a|, |b|, Indices(|a|)) == Abs(DoubledU(a, b) - |a| * |b|)
  {
    hide DoubledU, Pick, Leave, DoubledRanks, SumAt, Picks, Deviation;
    var s := FirstPick(|a + b|, |a|);
    DeviationCountsPairs(a + b, |a|, |b|, s);
    PickPrefix(a, b);
  }

  // ----- the test in numbers

  /** How far a doubled pair count lies from its mean. */
  function PairDeviation(u: nat, nA: nat, nB: nat): nat {
    Abs(u - nA * nB)
  }

  /** The splits of the pool at least as far from their mean as the observed one, in pairs won and tied. */
  ghost function SplitsAsExtreme(a: seq<real>, b: seq<real>): set<set<nat>> {
    set s | s in Picks(|a + b|, |a|)
            && PairDeviation(DoubledU(Pick(a + b, s), Leave(a + b, s)), |a|, |b|)
               >= PairDeviation(DoubledU(a, b), |a|, |b|)
  }

  /** The exact p-value counts splits by the pairs they win: no ranks, no table. */
  lemma ExactPCountsSplits(a: seq<real>, b: seq<real>)
    ensures Binomial(|a| + |b|, |a|) > 0
    ensures ExactP(DoubledRanks(a + b), |a|, |b|)
            == |SplitsAsExtreme(a, b)| as real / Binomial(|a| + |b|, |a|) as real
  {
    hide *;
    BinomialPositive(|a| + |b|, |a|);
    ExactPIsShare(DoubledRanks(a + b), |a|, |b|);
    TailIsSplitsAsExtreme(a, b);
  }

  lemma ExactPIsShare(d: seq<nat>, nA: nat, nB: nat)
    requires |d| == nA + nB
    ensures Binomial(nA + nB, nA) > 0
    ensures ExactP(d, nA, nB)
            == |TailPicks(d, nA, Centre(nA, nB), Deviation(d, nA, nB, Indices(nA)))| as real
               / Binomial(nA + nB, nA) as real
  {
    hide Binomial, Deviation, TailPicks, Centre, Indices;
    BinomialPositive(nA + nB, nA);
  }

  lemma TailIsSplitsAsExtreme(a: seq<real>, b: seq<real>)
    ensures var d := DoubledRanks(a + b);
            TailPicks(d, |a|, Centre(|a|, |b|), Deviation(d, |a|, |b|, Indices(|a|))) == SplitsAsExtreme(a, b)
  {
    hide DoubledU, Pick, Leave, DoubledRanks, Picks, Deviation, PairDeviation, Indices;
    var x, d := a + b, DoubledRanks(a + b);
    ObservedPairs(a, b);
    forall s | s in Picks(|x|, |a|)
      ensures s in TailPicks(d, |a|, Centre(|a|, |b|), Deviation(d, |a|, |b|, Indices(|a|)))
              <==> s in SplitsAsExtreme(a, b)
    {
      SplitPairs(x, |a|, |b|, s);
      TailByDeviation(d, |a|, |b|, s, Deviation(d, |a|, |b|, Indices(|a|)));
    }
  }

  lemma TailByDeviation(d: seq<nat>, nA: nat, nB: nat, s: set<nat>, threshold: nat)
    requires |d| == nA + nB && s in Picks(|d|, nA)
    ensures s in TailPicks(d, nA, Centre(nA, nB), threshold) <==> Deviation(d, nA, nB, s) >= threshold
  {
    hide Picks, SumAt, Centre;
  }

  lemma SplitPairs(x: seq<real>, nA: nat, nB: nat, s: set<nat>)
    requires |x| == nA + nB && s in Picks(|x|, nA)
    ensures Deviation(DoubledRanks(x), nA, nB, s) == PairDeviation(DoubledU(Pick(x, s), Leave(x, s)), nA, nB)
  {
    hide DoubledU, Pick, Leave, DoubledRanks, Picks, Deviation;
    DeviationCountsPairs(x, nA, nB, s);
  }

  lemma ObservedPairs(a: seq<real>, b: seq<real>)
    ensures Deviation(DoubledRanks(a + b), |a|, |b|, Indices(|a|)) == PairDeviation(DoubledU(a, b), |a|, |b|)
  {
    hide DoubledU, DoubledRanks, Deviation, Indices;
    ObservedDeviation(a, b);
  }

  /** The smaller of the two U values, doubled. */
  lemma StatisticIsSmallerU(a: seq<real>, b: seq<real>)
    ensures 2.0 * Statistic(a, b)
            == (if DoubledU(a, b) <= DoubledU(b, a) then DoubledU(a, b) else DoubledU(b, a)) as real
  {
    hide DoubledU;
  }

  /** The tie-corrected variance, cleared of its denominators. */
  lemma VarianceInNumbers(nA: nat, nB: nat, t: int)
    requires nA > 0 && nB > 0
    ensures var n := nA + nB;
            Variance(nA, nB, t) * 12.0 * (n * (n - 1)) as real
            == (nA * nB) as real * ((n + 1) as real * (n * (n - 1)) as real - t as real)
  {
    var n := nA + nB;
    PairsPositive(n);
    ClearDenominators((nA * nB) as real, (n + 1) as real, t as real, (n * (n - 1)) as real);
  }

  lemma PairsPositive(n: nat)
    requires n > 1
    ensures n * (n - 1) > 0
  {
  }

  lemma ClearDenominators(c: real, bound: real, t: real, scale: real)
    requires scale > 0.0
    ensures c / 12.0 * (bound - t / scale) * 12.0 * scale == c * (bound * scale - t)
  {
    var q := t / scale;
    assert q * scale == t;
    assert (bound - q) * scale == bound * scale - t;
    assert c / 12.0 * (bound - q) * 12.0 * scale == c * ((bound - q) * scale);
  }

  lemma ExactFields(a: seq<real>, b: seq<real>, tail: NormalTail)
    requires a != [] && b != [] && |a| + |b| <= 50
    ensures var t := RankSum(a, b, tail);
            t.pValue == ExactP(DoubledRanks(a + b), |a|, |b|)
            && t.minAttainablePValue == ExactFloor(DoubledRanks(a + b), |a|, |b|)
  {
    hide Statistic, ExactP, ExactFloor, DoubledRanks;
  }

  /** What the test reports on each of its three ways out: up to 50 pooled values the exact shares, beyond
      them the tail of the deviation and of the largest deviation, or 1 without variance. */
  lemma TestInNumbers(a: seq<real>, b: seq<real>, tail: NormalTail)
    requires a != [] && b != []
    ensures var t, n := RankSum(a, b, tail), |a| + |b|;
            var v := Variance(|a|, |b|, TieSum(a + b, multiset(a + b)));
            t.nA == |a| && t.nB == |b| && t.statistic == Statistic(a, b)
            && (t.method_ == Exact <==> n <= 50)
            && (n <= 50 ==> t.pValue == ExactP(DoubledRanks(a + b), |a|, |b|)
                            && t.minAttainablePValue == ExactFloor(DoubledRanks(a + b), |a|, |b|))
            && (n > 50 && v <= 0.0 ==> t.pValue == 1.0 && t.minAttainablePValue == 1.0)
            && (n > 50 && v > 0.0 ==>
                  var mu := (|a| * |b|) as real / 2.0;
                  t.minAttainablePValue == tail(mu, v)
                  && t.pValue == tail(if t.statistic >= mu then t.statistic - mu else mu - t.statistic, v))
  {
    hide Statistic, Variance, TieSum, ExactP, ExactFloor, DoubledRanks;
  }

  // ----- the floor

  lemma FloorThreshold(d: seq<nat>, nA: nat, nB: nat, m: nat)
    requires |d| == nA + nB && IsMaxDeviation(d, nA, Centre(nA, nB), m)
    ensures ExactFloor(d, nA, nB) == TailShare(d, nA, nB, m)
  {
    hide TailShare, IsMaxDeviation, MaxDeviation, Centre, Total;
    MaxDeviationIsMax(d, nA, Centre(nA, nB));
    MaxDeviationUnique(d, nA, Centre(nA, nB));
  }

  lemma ShareMonotone(d: seq<nat>, nA: nat, nB: nat, high: nat, low: nat)
    requires |d| == nA + nB && low <= high
    ensures TailShare(d, nA, nB, high) <= TailShare(d, nA, nB, low)
  {
    hide Binomial, Picks, SumAt, Centre;
    BinomialPositive(|d|, nA);
    SubsetSize(TailPicks(d, nA, Centre(nA, nB), high), TailPicks(d, nA, Centre(nA, nB), low));
    QuotientMonotone(|TailPicks(d, nA, Centre(nA, nB), high)|, |TailPicks(d, nA, Centre(nA, nB), low)|,
                     Binomial(|d|, nA));
  }

  lemma QuotientMonotone(x: nat, y: nat, n: nat)
    requires x <= y && n > 0
    ensures x as real / n as real <= y as real / n as real
  {
  }

  /** The floor is the smallest p-value any split of these ranks could yield: no split's is lower, the
      observed one's included, and some split attains it. It is positive and at most 1. */
  lemma FloorIsSmallestAttainable(d: seq<nat>, nA: nat, nB: nat)
    requires |d| == nA + nB
    ensures forall s :: s in Picks(|d|, nA) ==>
              ExactFloor(d, nA, nB) <= TailShare(d, nA, nB, Deviation(d, nA, nB, s))
    ensures exists s :: s in Picks(|d|, nA)
              && ExactFloor(d, nA, nB) == TailShare(d, nA, nB, Deviation(d, nA, nB, s))
    ensures 0.0 < ExactFloor(d, nA, nB) <= ExactP(d, nA, nB) <= 1.0
  {
    hide TailShare, MaxDeviation, Centre, Total, Picks, ExactFloor, SumAt;
    var m := MaxDeviation(d, nA, Centre(nA, nB), Total(d) + 1);
    MaxDeviationIsMax(d, nA, Centre(nA, nB));
    FloorThreshold(d, nA, nB, m);
    forall s | s in Picks(|d|, nA)
      ensures ExactFloor(d, nA, nB) <= TailShare(d, nA, nB, Deviation(d, nA, nB, s))
    {
      ShareMonotone(d, nA, nB, m, Deviation(d, nA, nB, s));
    }
    var first := FirstPick(|d|, nA);
    ShareWithinOne(d, nA, nB, Deviation(d, nA, nB, first));
    var s :| s in Picks(|d|, nA) && Deviation(d, nA, nB, s) == m;
    SharePositive(d, nA, nB, s);
  }

  lemma SharePositive(d: seq<nat>, nA: nat, nB: nat, s: set<nat>)
    requires |d| == nA + nB && s in Picks(|d|, nA)
    ensures TailShare(d, nA, nB, Deviation(d, nA, nB, s)) > 0.0
  {
    hide Binomial, Picks, SumAt, Centre;
    BinomialPositive(|d|, nA);
    assert s in TailPicks(d, nA, Centre(nA, nB), Deviation(d, nA, nB, s));
    QuotientPositive(|TailPicks(d, nA, Centre(nA, nB), Deviation(d, nA, nB, s))|, Binomial(|d|, nA));
  }

  lemma QuotientPositive(x: nat, n: nat)
    requires x > 0 && n > 0
    ensures x as real / n as real > 0.0
  {
  }
}
