/** The two-pointer sweep that computes the Kolmogorov-Smirnov statistic. */
module KolmogorovSmirnov {
  import opened Reals
  import opened Sorting
  import opened Wrappers

  datatype KsError = EmptySide

  function Ratio(i: nat, n: nat): (r: real)
    requires n > 0
    ensures r * n as real == i as real
  {
    i as real / n as real
  }

  /** The empirical distribution function of `s`: the share of samples at or below `z`. */
  function Ecdf(s: seq<real>, z: real): real
    requires s != []
  {
    Ratio(Count(s, AtMost(z)), |s|)
  }

  function Gap(a: seq<real>, b: seq<real>, z: real): real
    requires a != [] && b != []
  {
    Distance(Ecdf(a, z), Ecdf(b, z))
  }

  /** `d` is the supremum, attained, of the gap over the whole line. */
  ghost predicate IsSupremum(a: seq<real>, b: seq<real>, d: real)
    requires a != [] && b != []
  {
    (forall z :: Gap(a, b, z) <= d) && exists z :: Gap(a, b, z) == d
  }

  /** The distribution function in numbers: how many of the samples lie at or below `z`. */
  lemma EcdfCountsSamples(s: seq<real>, z: real)
    requires s != []
    ensures Ecdf(s, z) * |s| as real == |set i: nat | i < |s| && s[i] <= z| as real
  {
    CountIsCardinality(s, AtMost(z));
    assert (set i: nat | i < |s| && s[i] <= z) == set i: nat | i < |s| && AtMost(z)(s[i]);
  }

  // ----- the sweep

  /** `i` elements of the sorted `s` are at or below the sweep line; no copy of a value straddles it. */
  ghost predicate Cut(s: seq<real>, i: nat) {
    i <= |s| && forall p, q :: 0 <= p < i <= q < |s| ==> s[p] < s[q]
  }

  /** `z` lies left of everything the sweep has not yet passed. */
  ghost predicate Passed(s: seq<real>, i: nat, z: real) {
    i < |s| ==> z < s[i]
  }

  /** The running maximum covers every point of the line behind the sweep, and is attained there. */
  ghost predicate Covers(a: seq<real>, b: seq<real>, i: nat, j: nat, d: real)
    requires a != [] && b != []
  {
    (forall z :: Passed(a, i, z) && Passed(b, j, z) ==> Gap(a, b, z) <= d)
    && exists z :: Gap(a, b, z) == d
  }

  /** The state of the sweep after a step. */
  ghost predicate Swept(a: seq<real>, b: seq<real>, i: nat, j: nat, d: real) {
    a != [] && b != [] && Sorted(a) && Sorted(b)
    && Cut(a, i) && Cut(b, j)
    && (forall p, q :: 0 <= p < i && j <= q < |b| ==> a[p] < b[q])
    && (forall p, q :: 0 <= p < j && i <= q < |a| ==> b[p] < a[q])
    && Covers(a, b, i, j, d) && Distance(Ratio(i, |a|), Ratio(j, |b|)) <= d
  }

  method Sweep(a: seq<real>, b: seq<real>) returns (r: Result<real, KsError>)
    ensures a == [] || b == [] ==> r == Err(EmptySide)
    ensures a != [] && b != [] ==> r.Ok? && IsSupremum(a, b, r.value)
  {
    hide Sort, Swept, IsSupremum;
    if a == [] || b == [] {
      return Err(EmptySide);
    }
    var sortedA, sortedB := Sort(a), Sort(b);
    var i, j: nat, statistic := 0, 0, 0.0;
    SweepStarts(sortedA, sortedB);
    while i < |sortedA| && j < |sortedB|
      invariant i <= |sortedA| && j <= |sortedB|
      invariant Swept(sortedA, sortedB, i, j, statistic)
      decreases |sortedA| - i + |sortedB| - j
    {
      var x, y := sortedA[i], sortedB[j];
      var i', j' := i, j;
      if x <= y {
        i' := SkipCopies(sortedA, i);
      }
      if y <= x {
        j' := SkipCopies(sortedB, j);
      }
      SweepStep(sortedA, sortedB, i, j, i', j', statistic);
      i, j := i', j';
      var gap := Distance(Ratio(i, |a|), Ratio(j, |b|));
      statistic := if gap > statistic then gap else statistic;
    }
    SweepEnds(sortedA, sortedB, i, j, statistic);
    SupremumIgnoresOrder(sortedA, a, sortedB, b, statistic);
    r := Ok(statistic);
  }

  /** Past every copy of `s[i]`. */
  method SkipCopies(s: seq<real>, i: nat) returns (k: nat)
    requires i < |s|
    ensures i < k <= |s| && (forall p :: i <= p < k ==> s[p] == s[i]) && (k < |s| ==> s[k] != s[i])
  {
    k := i;
    while k < |s| && s[k] == s[i]
      invariant i <= k <= |s| && forall p :: i <= p < k ==> s[p] == s[i]
    {
      k := k + 1;
    }
  }

  // ----- why it works

  lemma SweepStarts(a: seq<real>, b: seq<real>)
    requires a != [] && b != [] && Sorted(a) && Sorted(b)
    ensures Swept(a, b, 0, 0, 0.0)
  {
    hide Gap, Ratio;
    forall z | Passed(a, 0, z) && Passed(b, 0, z) ensures Gap(a, b, z) == 0.0 {
      NoGapBefore(a, b, z);
    }
    NoDistanceYet(a, b);
    var z := if a[0] < b[0] then a[0] - 1.0 else b[0] - 1.0;
    assert Passed(a, 0, z) && Passed(b, 0, z);
    assert Gap(a, b, z) == 0.0;
  }

  lemma NoGapBefore(a: seq<real>, b: seq<real>, z: real)
    requires a != [] && b != [] && Sorted(a) && Sorted(b) && Passed(a, 0, z) && Passed(b, 0, z)
    ensures Gap(a, b, z) == 0.0
  {
    BehindCut(a, 0, z);
    BehindCut(b, 0, z);
    NoDistanceYet(a, b);
  }

  lemma NoDistanceYet(a: seq<real>, b: seq<real>)
    requires a != [] && b != []
    ensures Distance(Ratio(0, |a|), Ratio(0, |b|)) == 0.0
  {
  }

  /** Between the last passed value and the next one the distribution function is flat. */
  lemma BehindCut(s: seq<real>, i: nat, z: real)
    requires Sorted(s) && i <= |s| && Passed(s, i, z)
    requires forall p :: 0 <= p < i ==> s[p] <= z
    ensures Count(s, AtMost(z)) == i
  {
    CountPrefix(s, AtMost(z), i);
  }

  /** What one pass of the loop body does to the pointers. */
  ghost predicate Advanced(a: seq<real>, b: seq<real>, i: nat, j: nat, i': nat, j': nat) {
    i < |a| && j < |b| && i <= i' <= |a| && j <= j' <= |b|
    && (if a[i] <= b[j] then i < i' && (forall p :: i <= p < i' ==> a[p] == a[i]) && (i' < |a| ==> a[i'] != a[i])
        else i' == i)
    && (if b[j] <= a[i] then j < j' && (forall p :: j <= p < j' ==> b[p] == b[j]) && (j' < |b| ==> b[j'] != b[j])
        else j' == j)
  }

  lemma SweepStep(a: seq<real>, b: seq<real>, i: nat, j: nat, i': nat, j': nat, d: real)
    requires Swept(a, b, i, j, d) && Advanced(a, b, i, j, i', j')
    ensures var gap := Distance(Ratio(i', |a|), Ratio(j', |b|));
            Swept(a, b, i', j', if gap > d then gap else d)
  {
    var gap := Distance(Ratio(i', |a|), Ratio(j', |b|));
    var d' := if gap > d then gap else d;
    var v := if a[i] <= b[j] then a[i] else b[j];
    StepCuts(a, b, i, j, i', j', d, v);
    forall z | Passed(a, i', z) && Passed(b, j', z) ensures Gap(a, b, z) <= d' {
      if v <= z {
        BehindCut(a, i', z);
        BehindCut(b, j', z);
      } else {
        assert Passed(a, i, z) && Passed(b, j, z);
      }
    }
    assert Passed(a, i', v) && Passed(b, j', v);
    BehindCut(a, i', v);
    BehindCut(b, j', v);
    assert Gap(a, b, v) == gap;
  }

  lemma StepCuts(a: seq<real>, b: seq<real>, i: nat, j: nat, i': nat, j': nat, d: real, v: real)
    requires Swept(a, b, i, j, d) && Advanced(a, b, i, j, i', j')
    requires v == if a[i] <= b[j] then a[i] else b[j]
    ensures forall p :: 0 <= p < i' ==> a[p] <= v
    ensures forall p :: i' <= p < |a| ==> v < a[p]
    ensures forall p :: 0 <= p < j' ==> b[p] <= v
    ensures forall p :: j' <= p < |b| ==> v < b[p]
  {
  }

  /** Once one side is used up its distribution function is 1, and the other only closes in on it. */
  lemma SweepEnds(a: seq<real>, b: seq<real>, i: nat, j: nat, d: real)
    requires Swept(a, b, i, j, d) && (i == |a| || j == |b|)
    ensures IsSupremum(a, b, d)
  {
    forall z ensures Gap(a, b, z) <= d {
      if !(Passed(a, i, z) && Passed(b, j, z)) {
        if i == |a| {
          TailGap(a, b, j, d, z);
        } else {
          TailGap(b, a, i, d, z);
        }
      }
    }
  }

  lemma TailGap(a: seq<real>, b: seq<real>, j: nat, d: real, z: real)
    requires a != [] && b != [] && j <= |b| && Distance(Ratio(|a|, |a|), Ratio(j, |b|)) <= d
    requires (forall p :: 0 <= p < |a| ==> a[p] <= z) && (forall p :: 0 <= p < j ==> b[p] <= z)
    ensures Gap(a, b, z) <= d && Gap(b, a, z) <= d
  {
    var c := Count(b, AtMost(z));
    CountPrefix(a, AtMost(z), |a|);
    CountAtLeast(b, AtMost(z), j);
    RatioMonotone(|a|, |a|, |a|);
    RatioMonotone(j, c, |b|);
    RatioMonotone(c, |b|, |b|);
    hide Ratio, Count;
  }

  lemma {:induction false} CountAtLeast(s: seq<real>, p: real -> bool, i: nat)
    requires i <= |s| && forall j :: 0 <= j < i ==> p(s[j])
    ensures i <= Count(s, p)
  {
    if i > 0 {
      CountAtLeast(s[..|s| - 1], p, if i == |s| then i - 1 else i);
    }
  }

  lemma RatioMonotone(i: nat, j: nat, n: nat)
    requires n > 0 && i <= j
    ensures Ratio(i, n) <= Ratio(j, n) && Ratio(n, n) == 1.0
  {
  }

  lemma SupremumIgnoresOrder(a: seq<real>, a': seq<real>, b: seq<real>, b': seq<real>, d: real)
    requires a != [] && b != [] && multiset(a) == multiset(a') && multiset(b) == multiset(b')
    requires IsSupremum(a, b, d)
    ensures a' != [] && b' != [] && IsSupremum(a', b', d)
  {
    assert |multiset(a)| == |multiset(a')| && |multiset(b)| == |multiset(b')|;
    forall z ensures Gap(a, b, z) == Gap(a', b', z) {
      CountIgnoresOrder(a, a', AtMost(z));
      CountIgnoresOrder(b, b', AtMost(z));
    }
    var z :| Gap(a, b, z) == d;
    assert Gap(a', b', z) == d;
  }

  // ----- what the statistic tells

  /** There is only one supremum, so the contract of `Sweep` fixes its result. */
  lemma SupremumUnique(a: seq<real>, b: seq<real>, d: real, e: real)
    requires a != [] && b != [] && IsSupremum(a, b, d) && IsSupremum(a, b, e)
    ensures d == e
  {
    var y :| Gap(a, b, y) == d;
    var z :| Gap(a, b, z) == e;
  }

  /** The statistic does not depend on which side comes first. */
  lemma SupremumSymmetric(a: seq<real>, b: seq<real>, d: real, e: real)
    requires a != [] && b != [] && IsSupremum(a, b, d) && IsSupremum(b, a, e)
    ensures d == e
  {
    assert forall z :: Gap(a, b, z) == Gap(b, a, z);
    assert IsSupremum(b, a, d);
    SupremumUnique(b, a, d, e);
  }

  /** The statistic is 0 exactly when the two empirical distributions coincide, and never leaves [0, 1]. */
  lemma SupremumZeroIffSameDistribution(a: seq<real>, b: seq<real>, d: real)
    requires a != [] && b != [] && IsSupremum(a, b, d)
    ensures d == 0.0 <==> forall z :: Ecdf(a, z) == Ecdf(b, z)
    ensures 0.0 <= d <= 1.0
  {
    var y :| Gap(a, b, y) == d;
    if d == 0.0 {
      forall z ensures Ecdf(a, z) == Ecdf(b, z) {
        assert Gap(a, b, z) <= 0.0;
      }
    }
    RatioInUnit(Count(a, AtMost(y)), |a|);
    RatioInUnit(Count(b, AtMost(y)), |b|);
  }

  lemma RatioInUnit(i: nat, n: nat)
    requires n > 0 && i <= n
    ensures 0.0 <= Ratio(i, n) <= 1.0
  {
    RatioMonotone(0, i, n);
    RatioMonotone(i, n, n);
  }
}
