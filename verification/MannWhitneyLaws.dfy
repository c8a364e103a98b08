/** What the Mann-Whitney test keeps under swapping and reordering its inputs, and how far down its
    p-value can go. */
module MannWhitneyLaws {
  import opened Sequences
  import opened Sorting
  import opened Choose
  import opened Splits
  import opened Midranks
  import opened ExactNull
  import opened MannWhitney

  // ----- pair counts forget order

  lemma WinsIgnoreOrder(v: real, b: seq<real>, b': seq<real>)
    requires multiset(b) == multiset(b')
    ensures Wins(v, b) == Wins(v, b')
  {
    hide DoubledRank;
    RankCountsWins(b, v);
    RankCountsWins(b', v);
    SameRank(b, b', v);
  }

  lemma {:induction false} DoubledURightOrder(a: seq<real>, b: seq<real>, b': seq<real>)
    requires multiset(b) == multiset(b')
    ensures DoubledU(a, b) == DoubledU(a, b')
  {
    if a != [] {
      DoubledURightOrder(a[..|a| - 1], b, b');
      WinsIgnoreOrder(a[|a| - 1], b, b');
    }
  }

  lemma DoubledUIgnoresOrder(a: seq<real>, a': seq<real>, b: seq<real>, b': seq<real>)
    requires multiset(a) == multiset(a') && multiset(b) == multiset(b')
    ensures |a| == |a'| && |b| == |b'| && DoubledU(a, b) == DoubledU(a', b')
  {
    hide DoubledU;
    assert |multiset(a)| == |multiset(a')| && |multiset(b)| == |multiset(b')|;
    DoubledURightOrder(a, b, b');
    PairCountsAddUp(a, b');
    DoubledURightOrder(b', a, a');
    PairCountsAddUp(a', b');
  }

  // ----- the exact null depends on the ranks as a multiset, and mirrors when the sides swap

  lemma ExactIgnoresOrder(d: seq<nat>, e: seq<nat>, nA: nat, nB: nat)
    requires |d| == nA + nB && multiset(d) == multiset(e)
    ensures |e| == |d| && ExactFloor(d, nA, nB) == ExactFloor(e, nA, nB)
    ensures forall t: nat :: TailShare(d, nA, nB, t) == TailShare(e, nA, nB, t)
  {
    hide MaxDeviation, Total, TailPicks, IsMaxDeviation, Centre, Binomial;
    assert |multiset(d)| == |multiset(e)|;
    forall t: nat ensures TailShare(d, nA, nB, t) == TailShare(e, nA, nB, t) {
      TailIgnoresOrder(d, e, nA, Centre(nA, nB), t);
    }
    var m := MaxDeviation(d, nA, Centre(nA, nB), Total(d) + 1);
    MaxDeviationIsMax(d, nA, Centre(nA, nB));
    TailIgnoresOrder(d, e, nA, Centre(nA, nB), 0);
    FloorThreshold(d, nA, nB, m);
    FloorThreshold(e, nA, nB, m);
  }

  lemma CentreMirrors(nA: nat, nB: nat)
    ensures (nA + nB) * (nA + nB + 1) - Centre(nA, nB) == Centre(nB, nA)
  {
  }

  lemma ExactMirrors(x: seq<real>, nA: nat, nB: nat)
    requires |x| == nA + nB
    ensures var d := DoubledRanks(x);
            ExactFloor(d, nA, nB) == ExactFloor(d, nB, nA)
            && forall t: nat :: TailShare(d, nA, nB, t) == TailShare(d, nB, nA, t)
  {
    hide MaxDeviation, TailPicks, IsMaxDeviation, Binomial, DoubledRanks, Centre, Total;
    var d := DoubledRanks(x);
    TotalOfRanks(x);
    CentreMirrors(nA, nB);
    assert Total(d) - Centre(nA, nB) == Centre(nB, nA);
    BinomialSymmetric(nA + nB, nA);
    forall t: nat ensures TailShare(d, nA, nB, t) == TailShare(d, nB, nA, t) {
      TailMirrors(d, nA, Centre(nA, nB), t);
    }
    var m := MaxDeviation(d, nA, Centre(nA, nB), Total(d) + 1);
    MaxDeviationIsMax(d, nA, Centre(nA, nB));
    TailMirrors(d, nA, Centre(nA, nB), 0);
    FloorThreshold(d, nA, nB, m);
    FloorThreshold(d, nB, nA, m);
  }

  lemma ExactPFromPairs(a: seq<real>, b: seq<real>)
    ensures ExactP(DoubledRanks(a + b), |a|, |b|)
         == TailShare(DoubledRanks(a + b), |a|, |b|, Abs(DoubledU(a, b) - |a| * |b|))
  {
    hide DoubledU, DoubledRanks, TailShare, Deviation, Picks;
    ObservedDeviation(a, b);
  }

  /** Reordering either side's samples changes nothing the test reports, on either path. */
  lemma TestIgnoresOrder(
    a: seq<real>, a': seq<real>, b: seq<real>, b': seq<real>, tail: NormalTail)
    requires a != [] && b != [] && multiset(a) == multiset(a') && multiset(b) == multiset(b')
    ensures a' != [] && b' != [] && RankSum(a, b, tail) == RankSum(a', b', tail)
  {
    hide DoubledU, DoubledRanks, TailShare, ExactP, ExactFloor, TieSum, Variance;
    DoubledUIgnoresOrder(a, a', b, b');
    DoubledUIgnoresOrder(b, b', a, a');
    assert multiset(a + b) == multiset(a' + b');
    TieSumIgnoresOrder(a + b, a' + b', multiset(a + b));
    RanksIgnoreOrder(a + b, a' + b');
    ExactIgnoresOrder(DoubledRanks(a + b), DoubledRanks(a' + b'), |a|, |b|);
    ExactPFromPairs(a, b);
    ExactPFromPairs(a', b');
  }

  /** Swapping the sides changes neither the statistic, nor the p-value, nor the floor, on either path. */
  lemma TestIsSymmetric(a: seq<real>, b: seq<real>, tail: NormalTail)
    requires a != [] && b != []
    ensures var t, u := RankSum(a, b, tail), RankSum(b, a, tail);
            u == t.(nA := |b|, nB := |a|)
  {
    hide DoubledU, DoubledRanks, TailShare, ExactP, ExactFloor, TieSum, Variance;
    assert multiset(a + b) == multiset(b + a);
    TieSumIgnoresOrder(a + b, b + a, multiset(a + b));
    VarianceSymmetric(|a|, |b|, TieSum(a + b, multiset(a + b)));
    RanksIgnoreOrder(a + b, b + a);
    ExactIgnoresOrder(DoubledRanks(a + b), DoubledRanks(b + a), |a|, |b|);
    ExactMirrors(b + a, |a|, |b|);
    ExactPFromPairs(a, b);
    ExactPFromPairs(b, a);
    PairCountsAddUp(a, b);
    SameDeviation(DoubledU(a, b), DoubledU(b, a), |a| * |b|);
  }

  lemma SameDeviation(u: nat, v: nat, product: nat)
    requires u + v == 2 * product
    ensures Abs(u - product) == Abs(v - product)
  {
  }

  lemma VarianceSymmetric(nA: nat, nB: nat, tieCorrection: int)
    requires nA > 0 && nB > 0
    ensures Variance(nA, nB, tieCorrection) == Variance(nB, nA, tieCorrection)
  {
    assert nA * nB == nB * nA;
  }

  // ----- the floor under every tie pattern, with equally many values a side

  /** With R values on each side the complement of an extreme split is extreme too, so at least two
      splits sit at the maximum: the floor is never below 2/C(2R, R), whatever the ties. */
  lemma BalancedFloor(x: seq<real>, r: nat)
    requires r > 0 && |x| == 2 * r
    ensures Binomial(2 * r, r) > 0
    ensures ExactFloor(DoubledRanks(x), r, r) >= 2.0 / Binomial(2 * r, r) as real
  {
    hide MaxDeviation, DoubledRanks, Binomial, Centre, Picks, SumAt, Total, Complement;
    var d := DoubledRanks(x);
    var c := Centre(r, r);
    var m := MaxDeviation(d, r, c, Total(d) + 1);
    BinomialPositive(2 * r, r);
    MaxDeviationIsMax(d, r, c);
    FloorThreshold(d, r, r, m);
    var s :| s in Picks(|d|, r) && Abs(SumAt(d, s) - c) == m;
    ComplementPick(d, r, s);
    var t := Complement(|d|)(s);
    TotalOfRanks(x);
    CentreMirrors(r, r);
    NotItsComplement(|d|, r, s);
    assert {s, t} <= TailPicks(d, r, c, m);
    SubsetSize({s, t}, TailPicks(d, r, c, m));
    QuotientMonotone(2, |TailPicks(d, r, c, m)|, Binomial(2 * r, r));
  }

  lemma NotItsComplement(n: nat, r: nat, s: set<nat>)
    requires r > 0 && s in Picks(n, r)
    ensures Complement(n)(s) != s
  {
    var i :| i in s;
    assert i !in Complement(n)(s);
  }

  // ----- the floor of distinct values

  /** Every picked value is below every value left over. */
  ghost predicate LowerSplit(x: seq<real>, s: set<nat>) {
    forall i: nat, j: nat :: i < |x| && j < |x| && i in s && j !in s ==> x[i] < x[j]
  }

  ghost predicate UpperSplit(x: seq<real>, s: set<nat>) {
    forall i: nat, j: nat :: i < |x| && j < |x| && i in s && j !in s ==> x[j] < x[i]
  }

  lemma {:induction false} WinsNone(v: real, b: seq<real>)
    ensures Wins(v, b) <= 2 * |b|
    ensures Wins(v, b) == 0 <==> forall j :: 0 <= j < |b| ==> v < b[j]
    ensures Wins(v, b) == 2 * |b| <==> forall j :: 0 <= j < |b| ==> b[j] < v
  {
    if b != [] {
      WinsNone(v, b[..|b| - 1]);
    }
  }

  /** A side wins no pair exactly when it lies entirely below, and every pair when entirely above. */
  lemma {:induction false} DoubledUExtremes(a: seq<real>, b: seq<real>)
    ensures DoubledU(a, b) <= 2 * (|a| * |b|)
    ensures DoubledU(a, b) == 0 <==> forall i, j :: 0 <= i < |a| && 0 <= j < |b| ==> a[i] < b[j]
    ensures DoubledU(a, b) == 2 * (|a| * |b|) <==> forall i, j :: 0 <= i < |a| && 0 <= j < |b| ==> b[j] < a[i]
  {
    if a != [] {
      DoubledUExtremes(a[..|a| - 1], b);
      WinsNone(a[|a| - 1], b);
      OneMoreRow(|a| - 1, |b|);
    }
  }

  /** A relation between picked and left-over values is one between picked and left-over indices. */
  lemma PairsAreIndexPairs(x: seq<real>, s: set<nat>, below: (real, real) -> bool)
    ensures (forall p, q :: 0 <= p < |Pick(x, s)| && 0 <= q < |Leave(x, s)| ==>
              below(Pick(x, s)[p], Leave(x, s)[q]))
       <==> (forall i: nat, j: nat :: i < |x| && j < |x| && i in s && j !in s ==> below(x[i], x[j]))
  {
    hide Pick, Leave;
    var a, b := Pick(x, s), Leave(x, s);
    if forall p, q :: 0 <= p < |a| && 0 <= q < |b| ==> below(a[p], b[q]) {
      forall i: nat, j: nat | i < |x| && j < |x| && i in s && j !in s ensures below(x[i], x[j]) {
        PickedValue(x, s, i);
        PickedValue(x, s, j);
      }
    }
    if forall i: nat, j: nat :: i < |x| && j < |x| && i in s && j !in s ==> below(x[i], x[j]) {
      forall p, q | 0 <= p < |a| && 0 <= q < |b| ensures below(a[p], b[q]) {
        var i := PickedIndex(x, s, a[p]);
        var j := LeftIndex(x, s, b[q]);
      }
    }
  }

  lemma SplitExtremes(x: seq<real>, s: set<nat>)
    ensures DoubledU(Pick(x, s), Leave(x, s)) == 0 <==> LowerSplit(x, s)
    ensures DoubledU(Pick(x, s), Leave(x, s)) == 2 * (|Pick(x, s)| * |Leave(x, s)|) <==> UpperSplit(x, s)
  {
    hide DoubledU, Pick, Leave;
    var less: (real, real) -> bool := (u, v) => u < v;
    var more: (real, real) -> bool := (u, v) => v < u;
    DoubledUExtremes(Pick(x, s), Leave(x, s));
    PairsAreIndexPairs(x, s, less);
    PairsAreIndexPairs(x, s, more);
  }

  /** There is at most one lower split of each size, ties or not. */
  lemma LowerSplitUnique(x: seq<real>, k: nat, s: set<nat>, t: set<nat>)
    requires s in Picks(|x|, k) && t in Picks(|x|, k) && LowerSplit(x, s) && LowerSplit(x, t)
    ensures s == t
  {
    assert forall i: nat :: i in s || i in t ==> i in Indices(|x|);
    if s != t {
      var i, j := DifferBothWays(s, t);
    }
  }

  lemma UpperSplitUnique(x: seq<real>, k: nat, s: set<nat>, t: set<nat>)
    requires s in Picks(|x|, k) && t in Picks(|x|, k) && UpperSplit(x, s) && UpperSplit(x, t)
    ensures s == t
  {
    assert forall i: nat :: i in s || i in t ==> i in Indices(|x|);
    if s != t {
      var i, j := DifferBothWays(s, t);
    }
  }

  /** Distinct values have a lower split of every size. */
  lemma {:induction false} LowerSplitExists(x: seq<real>, k: nat) returns (s: set<nat>)
    requires Distinct(x) && k <= |x|
    ensures s in Picks(|x|, k) && LowerSplit(x, s)
  {
    if k == 0 {
      s := {};
    } else {
      var lower := LowerSplitExists(x, k - 1);
      var m := LeastLeft(x, lower, k - 1);
      s := lower + {m};
      assert s <= Indices(|x|);
    }
  }

  /** Some index outside `s` has the smallest value left. */
  lemma LeastLeft(x: seq<real>, s: set<nat>, k: nat) returns (m: nat)
    requires s in Picks(|x|, k) && k < |x|
    ensures m < |x| && m !in s && forall j: nat :: j < |x| && j !in s ==> x[m] <= x[j]
  {
    var i := Outside(|x|, s, k);
    m := LeastLeftUpTo(x, s, |x|, i);
  }

  lemma Outside(n: nat, s: set<nat>, k: nat) returns (i: nat)
    requires s in Picks(n, k) && k < n
    ensures i < n && i !in s
  {
    var rest := Indices(n) - s;
    assert Indices(n) == s + rest;
    assert |rest| == n - k;
    i :| i in Indices(n) && i !in s;
  }

  lemma {:induction false} LeastLeftUpTo(x: seq<real>, s: set<nat>, n: nat, i: nat) returns (m: nat)
    requires i < |x| && i !in s && n <= |x|
    ensures m < |x| && m !in s && x[m] <= x[i] && forall j: nat :: j < n && j !in s ==> x[m] <= x[j]
  {
    if n == 0 {
      m := i;
    } else {
      m := LeastLeftUpTo(x, s, n - 1, i);
      if n - 1 !in s && x[n - 1] < x[m] {
        m := n - 1;
      }
    }
  }

  lemma UpperSplitExists(x: seq<real>, k: nat) returns (s: set<nat>)
    requires Distinct(x) && k <= |x|
    ensures s in Picks(|x|, k) && UpperSplit(x, s)
  {
    var lower := LowerSplitExists(x, |x| - k);
    s := Indices(|x|) - lower;
    assert lower + s == Indices(|x|);
  }

  /** The completely separated splits: at most one each way. */
  ghost function Extremes(x: seq<real>, k: nat): set<set<nat>> {
    set s | s in Picks(|x|, k) && (LowerSplit(x, s) || UpperSplit(x, s))
  }

  /** Once the pool admits a completely separated split, those are exactly the splits at the maximal
      deviation nA * nB, and the floor is their number over C(N, nA). */
  lemma ExtremeFloor(x: seq<real>, nA: nat, nB: nat)
    requires |x| == nA + nB && Extremes(x, nA) != {}
    ensures Binomial(nA + nB, nA) > 0
    ensures IsMaxDeviation(DoubledRanks(x), nA, Centre(nA, nB), nA * nB)
    ensures ExactFloor(DoubledRanks(x), nA, nB) == |Extremes(x, nA)| as real / Binomial(nA + nB, nA) as real
  {
    hide DoubledU, Pick, Leave, DoubledRanks, Binomial, Centre, Picks, SumAt, LowerSplit, UpperSplit;
    var d := DoubledRanks(x);
    BinomialPositive(nA + nB, nA);
    forall s | s in Picks(|x|, nA)
      ensures Deviation(d, nA, nB, s) <= nA * nB
      ensures Deviation(d, nA, nB, s) == nA * nB <==> s in Extremes(x, nA)
    {
      ExtremeOnly(x, nA, nB, s);
    }
    var extreme :| extreme in Extremes(x, nA);
    assert IsMaxDeviation(d, nA, Centre(nA, nB), nA * nB) by {
      assert Abs(SumAt(d, extreme) - Centre(nA, nB)) == Deviation(d, nA, nB, extreme);
    }
    FloorThreshold(d, nA, nB, nA * nB);
    assert TailPicks(d, nA, Centre(nA, nB), nA * nB) == Extremes(x, nA);
  }

  lemma ExtremeOnly(x: seq<real>, nA: nat, nB: nat, s: set<nat>)
    requires |x| == nA + nB && s in Picks(|x|, nA)
    ensures Deviation(DoubledRanks(x), nA, nB, s) <= nA * nB
    ensures Deviation(DoubledRanks(x), nA, nB, s) == nA * nB <==> LowerSplit(x, s) || UpperSplit(x, s)
  {
    hide DoubledU, Pick, Leave, DoubledRanks, Picks, LowerSplit, UpperSplit, Deviation;
    SplitCountsPairs(x, nA, s);
    DeviationCountsPairs(x, nA, nB, s);
    SplitExtremes(x, s);
    DoubledUExtremes(Pick(x, s), Leave(x, s));
  }

  /** A pool that can be separated completely both ways has floor 2/C(N, nA), whatever ties the sides hold. */
  lemma TwoSidedFloor(x: seq<real>, nA: nat, nB: nat, lower: set<nat>, upper: set<nat>)
    requires |x| == nA + nB && nA > 0 && nB > 0 && lower in Picks(|x|, nA) && upper in Picks(|x|, nA)
    requires LowerSplit(x, lower) && UpperSplit(x, upper)
    ensures Binomial(nA + nB, nA) > 0
    ensures ExactFloor(DoubledRanks(x), nA, nB) == 2.0 / Binomial(nA + nB, nA) as real
  {
    hide DoubledRanks, Binomial, Picks, LowerSplit, UpperSplit, ExactFloor;
    forall s | s in Extremes(x, nA) ensures s == lower || s == upper {
      if LowerSplit(x, s) {
        LowerSplitUnique(x, nA, s, lower);
      } else {
        UpperSplitUnique(x, nA, s, upper);
      }
    }
    LowerIsNotUpper(x, nA, nB, lower, upper);
    assert Extremes(x, nA) == {lower, upper};
    ExtremeFloor(x, nA, nB);
  }

  /** A pool that can be separated completely one way only has half that floor. */
  lemma OneSidedFloor(x: seq<real>, nA: nat, nB: nat, only: set<nat>)
    requires |x| == nA + nB && only in Picks(|x|, nA)
    requires (LowerSplit(x, only) && forall s :: s in Picks(|x|, nA) ==> !UpperSplit(x, s))
          || (UpperSplit(x, only) && forall s :: s in Picks(|x|, nA) ==> !LowerSplit(x, s))
    ensures Binomial(nA + nB, nA) > 0
    ensures ExactFloor(DoubledRanks(x), nA, nB) == 1.0 / Binomial(nA + nB, nA) as real
  {
    hide DoubledRanks, Binomial, Picks, LowerSplit, UpperSplit, ExactFloor;
    forall s | s in Extremes(x, nA) ensures s == only {
      if LowerSplit(x, s) {
        LowerSplitUnique(x, nA, s, only);
      } else {
        UpperSplitUnique(x, nA, s, only);
      }
    }
    assert Extremes(x, nA) == {only};
    ExtremeFloor(x, nA, nB);
  }

  /** Distinct values on two non-empty sides can be separated both ways: the floor is 2/C(N, nA). */
  lemma DistinctFloor(x: seq<real>, nA: nat, nB: nat)
    requires Distinct(x) && |x| == nA + nB && nA > 0 && nB > 0
    ensures Binomial(nA + nB, nA) > 0
    ensures ExactFloor(DoubledRanks(x), nA, nB) == 2.0 / Binomial(nA + nB, nA) as real
  {
    hide DoubledRanks, Binomial, Picks, LowerSplit, UpperSplit, ExactFloor;
    var lower := LowerSplitExists(x, nA);
    var upper := UpperSplitExists(x, nA);
    TwoSidedFloor(x, nA, nB, lower, upper);
  }

  // ----- complete separation

  ghost predicate AllBelow(a: seq<real>, b: seq<real>) {
    forall i, j :: 0 <= i < |a| && 0 <= j < |b| ==> a[i] < b[j]
  }

  lemma FirstSideIsLower(a: seq<real>, b: seq<real>)
    requires AllBelow(a, b)
    ensures Indices(|a|) in Picks(|a + b|, |a|) && LowerSplit(a + b, Indices(|a|))
  {
    var s := FirstPick(|a + b|, |a|);
    var x := a + b;
    forall i: nat, j: nat | i < |x| && j < |x| && i in s && j !in s ensures x[i] < x[j] {
      assert x[i] == a[i] && x[j] == b[j - |a|];
    }
  }

  lemma SecondSideIsUpper(a: seq<real>, b: seq<real>)
    requires AllBelow(a, b) && |a| == |b|
    ensures Indices(|a + b|) - Indices(|a|) in Picks(|a + b|, |a|)
    ensures UpperSplit(a + b, Indices(|a + b|) - Indices(|a|))
  {
    FirstSideIsLower(a, b);
    var lower, all := Indices(|a|), Indices(|a + b|);
    assert all == lower + (all - lower);
  }

  /** A completely separated observation attains the floor: no split of its pool is more extreme. */
  lemma CompleteSeparationAttainsFloor(a: seq<real>, b: seq<real>)
    requires AllBelow(a, b)
    ensures Binomial(|a| + |b|, |a|) > 0
    ensures ExactP(DoubledRanks(a + b), |a|, |b|) == ExactFloor(DoubledRanks(a + b), |a|, |b|)
         == |Extremes(a + b, |a|)| as real / Binomial(|a| + |b|, |a|) as real
  {
    hide DoubledU, DoubledRanks, Binomial, TailShare, IsMaxDeviation, Centre, ExactP, ExactFloor, Extremes, AllBelow;
    HasExtreme(a, b);
    ExtremeFloor(a + b, |a|, |b|);
    ExactPFromPairs(a, b);
    MostDeviant(a, b);
    FloorThreshold(DoubledRanks(a + b), |a|, |b|, |a| * |b|);
  }

  lemma HasExtreme(a: seq<real>, b: seq<real>)
    requires AllBelow(a, b)
    ensures Extremes(a + b, |a|) != {}
  {
    hide Picks, LowerSplit, UpperSplit;
    FirstSideIsLower(a, b);
    assert Indices(|a|) in Extremes(a + b, |a|);
  }

  lemma MostDeviant(a: seq<real>, b: seq<real>)
    requires AllBelow(a, b)
    ensures Abs(DoubledU(a, b) - |a| * |b|) == |a| * |b|
  {
    hide DoubledU;
    DoubledUExtremes(a, b);
  }

  /** Equal sides, completely separated: p is exactly 2/C(2R, R), ties inside the sides allowed. */
  lemma EqualSidesSeparate(a: seq<real>, b: seq<real>)
    requires AllBelow(a, b) && |a| == |b| > 0
    ensures Binomial(|a| + |b|, |a|) > 0
    ensures ExactP(DoubledRanks(a + b), |a|, |b|) == ExactFloor(DoubledRanks(a + b), |a|, |b|)
         == 2.0 / Binomial(|a| + |b|, |a|) as real
  {
    hide DoubledRanks, Binomial, ExactP, ExactFloor, Picks, LowerSplit, UpperSplit, AllBelow, Extremes, Indices;
    CompleteSeparationAttainsFloor(a, b);
    FirstSideIsLower(a, b);
    SecondSideIsUpper(a, b);
    TwoSidedFloor(a + b, |a|, |b|, Indices(|a|), Indices(|a + b|) - Indices(|a|));
  }

  lemma LowerIsNotUpper(x: seq<real>, nA: nat, nB: nat, lower: set<nat>, upper: set<nat>)
    requires |x| == nA + nB && nA > 0 && nB > 0
    requires lower in Picks(|x|, nA) && LowerSplit(x, lower) && UpperSplit(x, upper)
    ensures lower != upper
  {
    var i :| i in lower;
    assert i in Indices(|x|);
    var j := Outside(|x|, lower, nA);
    assert x[i] < x[j];
  }

  lemma DifferBothWays(s: set<nat>, t: set<nat>) returns (i: nat, j: nat)
    requires |s| == |t| && s != t
    ensures i in s && i !in t && j in t && j !in s
  {
    SameSizeSubset(s, t);
    SameSizeSubset(t, s);
    i :| i in s && i !in t;
    j :| j in t && j !in s;
  }

  lemma SameSizeSubset(s: set<nat>, t: set<nat>)
    requires |s| == |t|
    ensures s <= t ==> s == t
  {
    if s <= t {
      assert t == s + (t - s) && |t - s| == 0;
    }
  }
}
