/** The exact two-sided Mann-Whitney null: a table of split counts filled in place by dynamic programming,
    and the two tail masses read off its last row. */
module ExactNull {
  import opened Choose
  import opened Reals
  import opened Splits

  /** Twice `mu`, offset by the smallest rank sum `nA` ranks can have. */
  function Centre(nA: nat, nB: nat): nat {
    nA * (nA + 1) + nA * nB
  }

  /** How far, doubled, a split's U lies from its mean. */
  function Deviation(d: seq<nat>, nA: nat, nB: nat, s: set<nat>): nat {
    Abs(SumAt(d, s) - Centre(nA, nB))
  }

  /** The share of all C(N, nA) splits whose deviation is at least `threshold`. */
  ghost function TailShare(d: seq<nat>, nA: nat, nB: nat, threshold: int): real
    requires |d| == nA + nB
  {
    BinomialPositive(|d|, nA);
    |TailPicks(d, nA, Centre(nA, nB), threshold)| as real / Binomial(|d|, nA) as real
  }

  /** `P(|U - mu| >= |U_obs - mu|)` when the first `nA` pooled values are the observed split. */
  ghost function ExactP(d: seq<nat>, nA: nat, nB: nat): real
    requires |d| == nA + nB
  {
    TailShare(d, nA, nB, Deviation(d, nA, nB, Indices(nA)))
  }

  /** The null's mass at its most extreme split. */
  ghost function ExactFloor(d: seq<nat>, nA: nat, nB: nat): real
    requires |d| == nA + nB
  {
    TailShare(d, nA, nB, MaxDeviation(d, nA, Centre(nA, nB), Total(d) + 1))
  }

  // ----- the table

  lemma {:induction false} NoNegativeSums(d: seq<nat>, k: nat, sum: int)
    requires sum < 0
    ensures PickCount(d, k, sum) == 0
  {
    if d != [] {
      NoNegativeSums(d[..|d| - 1], k, sum);
      if k > 0 {
        NoNegativeSums(d[..|d| - 1], k - 1, sum - d[|d| - 1]);
      }
    }
  }

  /** Bringing in one more rank: the 0/1-knapsack recurrence. */
  lemma OneMoreRank(d: seq<nat>, rank: nat, k: nat, sum: int)
    ensures PickCount(d + [rank], k, sum)
         == PickCount(d, k, sum) + if k > 0 then PickCount(d, k - 1, sum - rank) else 0
  {
    assert (d + [rank])[..|d + [rank]| - 1] == d;
  }

  /** Every cell of `counts` is the number of size-`k` index subsets of `d` with that sum, except that
      row `k + 1` from column `from` on, and all rows above it, already include the next rank. */
  ghost predicate Filled(counts: array2<nat>, d: seq<nat>, rank: nat, k: int, from: int)
    reads counts
  {
    forall r, s :: 0 <= r < counts.Length0 && 0 <= s < counts.Length1 ==>
      counts[r, s] == if r > k + 1 || (r == k + 1 && s >= from)
                      then PickCount(d + [rank], r, s) else PickCount(d, r, s)
  }

  ghost predicate Table(counts: array2<nat>, d: seq<nat>)
    reads counts
  {
    forall r, s :: 0 <= r < counts.Length0 && 0 <= s < counts.Length1 ==> counts[r, s] == PickCount(d, r, s)
  }

  method FillCounts(doubled: seq<nat>, nA: nat, total: nat) returns (counts: array2<nat>)
    requires |doubled| <= MAX_EXACT_N && total == Total(doubled)
    ensures fresh(counts) && counts.Length0 == nA + 1 && counts.Length1 == total + 1
    ensures Table(counts, doubled)
    ensures forall r, s :: 0 <= r <= nA && 0 <= s <= total ==> counts[r, s] <= MAX_SAFE_INTEGER
  {
    hide PickCount, Binomial;
    counts := new nat[nA + 1, total + 1]((k, s) => if k == 0 && s == 0 then 1 else 0);
    EmptyTable(counts);
    for m := 0 to |doubled|
      invariant Table(counts, doubled[..m])
    {
      var rank := doubled[m];
      assert doubled[..m + 1] == doubled[..m] + [rank];
      RankWithinTotal(doubled, m);
      AddRank(counts, doubled[..m], rank);
    }
    assert doubled[..|doubled|] == doubled;
    SafeCells(counts, doubled);
  }

  lemma EmptyTable(counts: array2<nat>)
    requires forall k, s :: 0 <= k < counts.Length0 && 0 <= s < counts.Length1 ==>
               counts[k, s] == if k == 0 && s == 0 then 1 else 0
    ensures Table(counts, [])
  {
  }

  lemma {:induction false} RankWithinTotal(d: seq<nat>, m: nat)
    requires m < |d|
    ensures d[m] <= Total(d)
  {
    if m < |d| - 1 {
      RankWithinTotal(d[..|d| - 1], m);
    }
  }

  lemma SafeCells(counts: array2<nat>, d: seq<nat>)
    requires |d| <= MAX_EXACT_N && Table(counts, d)
    ensures forall r, s :: 0 <= r < counts.Length0 && 0 <= s < counts.Length1 ==> counts[r, s] <= MAX_SAFE_INTEGER
  {
    hide PickCount, Binomial;
    forall r, s | 0 <= r < counts.Length0 && 0 <= s < counts.Length1
      ensures counts[r, s] <= MAX_SAFE_INTEGER
    {
      PickCountBounded(d, r, s);
      BinomialIsSafe(|d|, r);
    }
  }

  /** One rank enters the table in place: rows downward, so that no subset takes it twice. Every sum
      written is a safe integer. */
  method AddRank(counts: array2<nat>, ghost d: seq<nat>, rank: nat)
    requires counts.Length0 > 0 && rank < counts.Length1 && Table(counts, d) && |d| < MAX_EXACT_N
    modifies counts
    ensures Table(counts, d + [rank])
  {
    hide PickCount, Binomial;
    for k := counts.Length0 - 1 downto 0
      invariant Filled(counts, d, rank, k, 0)
    {
      for s := counts.Length1 - rank downto 0
        invariant Filled(counts, d, rank, k, s + rank)
      {
        CellStep(d, rank, k, s);
        counts[k + 1, s + rank] := counts[k + 1, s + rank] + counts[k, s];
        assert counts[k + 1, s + rank] <= MAX_SAFE_INTEGER;
      }
      RowStart(counts, d, rank, k);
    }
    FirstRow(counts, d, rank);
  }

  lemma CellStep(d: seq<nat>, rank: nat, k: nat, s: nat)
    requires |d| < MAX_EXACT_N
    ensures PickCount(d + [rank], k + 1, s + rank) == PickCount(d, k + 1, s + rank) + PickCount(d, k, s)
    ensures PickCount(d + [rank], k + 1, s + rank) <= MAX_SAFE_INTEGER
  {
    hide PickCount, Binomial;
    OneMoreRank(d, rank, k + 1, s + rank);
    PickCountBounded(d + [rank], k + 1, s + rank);
    BinomialIsSafe(|d| + 1, k + 1);
  }

  /** Columns below the new rank do not change: no subset that takes it sums to less. */
  lemma RowStart(counts: array2<nat>, d: seq<nat>, rank: nat, k: nat)
    requires k + 1 < counts.Length0 && Filled(counts, d, rank, k, rank)
    ensures Filled(counts, d, rank, k, 0)
  {
    hide PickCount;
    var r := k + 1;
    forall s: nat | s < rank ensures PickCount(d + [rank], r, s) == PickCount(d, r, s) {
      OneMoreRank(d, rank, r, s);
      NoNegativeSums(d, k, s - rank);
    }
  }

  lemma FirstRow(counts: array2<nat>, d: seq<nat>, rank: nat)
    requires Filled(counts, d, rank, 0, 0)
    ensures Table(counts, d + [rank])
  {
    hide PickCount;
    forall s: nat ensures PickCount(d + [rank], 0, s) == PickCount(d, 0, s) {
      OneMoreRank(d, rank, 0, s);
    }
  }

  // ----- the two sweeps of the last row

  method MostExtreme(counts: array2<nat>, d: seq<nat>, nA: nat, centre: int) returns (maxDeviation: nat)
    requires counts.Length0 == nA + 1 && counts.Length1 == Total(d) + 1 && Table(counts, d)
    ensures maxDeviation == MaxDeviation(d, nA, centre, Total(d) + 1)
  {
    hide PickCount;
    maxDeviation := 0;
    for s := 0 to counts.Length1
      invariant maxDeviation == MaxDeviation(d, nA, centre, s)
    {
      if counts[nA, s] != 0 && Abs(s - centre) > maxDeviation {
        maxDeviation := Abs(s - centre);
      }
    }
  }

  /** The mass at least `threshold` from the centre; every partial tally is a safe integer. */
  method TailTally(counts: array2<nat>, d: seq<nat>, nA: nat, centre: int, threshold: nat)
    returns (tally: nat)
    requires |d| <= MAX_EXACT_N
    requires counts.Length0 == nA + 1 && counts.Length1 == Total(d) + 1 && Table(counts, d)
    ensures tally == |TailPicks(d, nA, centre, threshold)| <= MAX_SAFE_INTEGER
  {
    hide PickCount, TailPicks;
    tally := 0;
    for s := 0 to counts.Length1
      invariant tally == TailMass(d, nA, centre, threshold, s) <= MAX_SAFE_INTEGER
    {
      if counts[nA, s] != 0 && Abs(s - centre) >= threshold {
        tally := tally + counts[nA, s];
      }
      SafeTally(d, nA, centre, threshold, s + 1);
    }
    TailMassIsCardinality(d, nA, centre, threshold);
  }

  lemma SafeTally(d: seq<nat>, nA: nat, centre: int, threshold: nat, bound: nat)
    requires |d| <= MAX_EXACT_N
    ensures TailMass(d, nA, centre, threshold, bound) <= MAX_SAFE_INTEGER
  {
    hide TailMass, PickCount, Binomial, Picks;
    TailMassBelow(d, nA, centre, threshold, bound);
    SubsetSize(TailBelow(d, nA, centre, threshold, bound), Picks(|d|, nA));
    PicksAreBinomial(|d|, nA);
    BinomialIsSafe(|d|, nA);
  }

  lemma {:induction false} SubsetSize<T>(a: set<T>, b: set<T>)
    requires a <= b
    ensures |a| <= |b|
  {
    if a != {} {
      var x :| x in a;
      SubsetSize(a - {x}, b - {x});
    }
  }

  /** `Math.round`. */
  function Round(x: real): int {
    (x + 0.5).Floor
  }

  function Doubled(ranks: seq<real>): (d: seq<nat>)
    requires forall i :: 0 <= i < |ranks| ==> ranks[i] >= 0.0
    ensures |d| == |ranks|
  {
    seq(|ranks|, i requires 0 <= i < |ranks| => Round(ranks[i] * 2.0))
  }

  /** The p-value and its floor, from the ranks of the pooled sample with side A first. */
  method ExactMannWhitney(ranks: seq<real>, nA: nat, nB: nat)
    returns (pValue: real, minAttainablePValue: real)
    requires |ranks| == nA + nB <= MAX_EXACT_N && forall i :: 0 <= i < |ranks| ==> ranks[i] >= 0.0
    ensures pValue == ExactP(Doubled(ranks), nA, nB)
    ensures minAttainablePValue == ExactFloor(Doubled(ranks), nA, nB)
  {
    hide Total, SumAt, TailPicks, MaxDeviation, Binomial, Doubled, Table, PickCount, Centre, TailShare, Min;
    var doubled := Doubled(ranks);
    var total := SumFirst(doubled, |doubled|);
    assert doubled[..|doubled|] == doubled;
    var counts := FillCounts(doubled, nA, total);
    var centre: int := Centre(nA, nB);
    var rankSumA2: int := SumFirst(doubled, nA);
    SumAtFirst(doubled, nA);
    var observedDeviation := Abs(rankSumA2 - centre);
    var maxDeviation := MostExtreme(counts, doubled, nA, centre);
    var atLeastAsExtreme := TailTally(counts, doubled, nA, centre, observedDeviation);
    var atMostExtreme := TailTally(counts, doubled, nA, centre, maxDeviation);
    var splits := ChooseExact(nA + nB, nA);
    BinomialPositive(nA + nB, nA);
    ShareOfSplits(doubled, nA, nB, observedDeviation);
    ShareOfSplits(doubled, nA, nB, maxDeviation);
    pValue := Min(1.0, atLeastAsExtreme as real / splits as real);
    minAttainablePValue := Min(1.0, atMostExtreme as real / splits as real);
  }

  method SumFirst(d: seq<nat>, n: nat) returns (sum: nat)
    requires n <= |d|
    ensures sum == Total(d[..n])
  {
    sum := 0;
    for i := 0 to n
      invariant sum == Total(d[..i])
    {
      assert d[..i + 1][..i] == d[..i];
      sum := sum + d[i];
    }
  }

  lemma SumAtFirst(d: seq<nat>, n: nat)
    requires n <= |d|
    ensures SumAt(d, Indices(n)) == Total(d[..n])
  {
    SumAtUpTo(d, n, |d|);
    assert d[..|d|] == d;
  }

  lemma {:induction false} SumAtUpTo(d: seq<nat>, i: nat, n: nat)
    requires i <= |d| && n <= |d|
    ensures SumAt(d[..n], Indices(i)) == Total(d[..if i <= n then i else n])
  {
    if n > 0 {
      SumAtUpTo(d, i, n - 1);
      assert d[..n][..n - 1] == d[..n - 1];
    }
  }

  /** A tail is a set of splits: its share of all splits never exceeds 1. */
  lemma ShareWithinOne(d: seq<nat>, nA: nat, nB: nat, threshold: nat)
    requires |d| == nA + nB
    ensures 0.0 <= TailShare(d, nA, nB, threshold) <= 1.0
  {
    hide Binomial, Picks;
    BinomialPositive(|d|, nA);
    PicksAreBinomial(|d|, nA);
    SubsetSize(TailPicks(d, nA, Centre(nA, nB), threshold), Picks(|d|, nA));
    ShareBound(|TailPicks(d, nA, Centre(nA, nB), threshold)|, Binomial(|d|, nA));
  }

  lemma ShareOfSplits(d: seq<nat>, nA: nat, nB: nat, threshold: nat)
    requires |d| == nA + nB
    ensures Binomial(nA + nB, nA) > 0
    ensures TailShare(d, nA, nB, threshold)
         == Min(1.0, |TailPicks(d, nA, Centre(nA, nB), threshold)| as real / Binomial(nA + nB, nA) as real)
  {
    hide Binomial, TailPicks, Centre;
    BinomialPositive(|d|, nA);
    ShareWithinOne(d, nA, nB, threshold);
  }

  lemma ShareBound(part: nat, whole: nat)
    requires part <= whole && whole > 0
    ensures 0.0 <= part as real / whole as real <= 1.0
  {
  }
}
