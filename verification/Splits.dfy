/** Splits of a pooled sample into sides, as sets of indices so that tied ranks stay distinct, and the
    counts the dynamic program tabulates. */
module Splits {
  import opened Choose
  import Sorting

  function Indices(n: nat): (s: set<nat>)
    ensures |s| == n && forall i: nat :: i in s <==> i < n
  {
    if n == 0 then {}
    else
      var init := Indices(n - 1);
      assert n - 1 !in init;
      init + {n - 1}
  }

  /** The sum of `d[i]` over the indices in `s`. */
  function SumAt(d: seq<nat>, s: set<nat>): nat {
    if d == [] then 0
    else SumAt(d[..|d| - 1], s) + if |d| - 1 in s then d[|d| - 1] else 0
  }

  function Total(d: seq<nat>): nat {
    if d == [] then 0 else Total(d[..|d| - 1]) + d[|d| - 1]
  }

  /** Every way to pick `k` of `n` indices. */
  ghost function Picks(n: nat, k: nat): set<set<nat>> {
    set s: set<nat> | s <= Indices(n) && |s| == k
  }

  /** The picks whose doubled ranks add up to `sum`. */
  ghost function PicksWithSum(d: seq<nat>, k: nat, sum: int): set<set<nat>> {
    set s | s in Picks(|d|, k) && SumAt(d, s) == sum
  }

  function Abs(x: int): nat {
    if x < 0 then -x else x
  }

  /** The picks whose sum lies at least `threshold` from `centre`: a two-sided tail. */
  ghost function TailPicks(d: seq<nat>, k: nat, centre: int, threshold: int): set<set<nat>> {
    set s | s in Picks(|d|, k) && Abs(SumAt(d, s) - centre) >= threshold
  }

  // ----- counting by recursion on the last index

  function PickCount(d: seq<nat>, k: nat, sum: int): nat {
    if d == [] then (if k == 0 && sum == 0 then 1 else 0)
    else
      var init, x := d[..|d| - 1], d[|d| - 1];
      PickCount(init, k, sum) + if k > 0 then PickCount(init, k - 1, sum - x) else 0
  }

  lemma {:induction false} SumAtIgnoresBeyond(d: seq<nat>, s: set<nat>, i: nat)
    requires i >= |d|
    ensures SumAt(d, s + {i}) == SumAt(d, s)
  {
    if d != [] {
      SumAtIgnoresBeyond(d[..|d| - 1], s, i);
    }
  }

  lemma {:induction false} SumAtBounded(d: seq<nat>, s: set<nat>)
    ensures SumAt(d, s) <= Total(d)
  {
    if d != [] {
      SumAtBounded(d[..|d| - 1], s);
    }
  }

  lemma {:induction false} InjectiveImage(x: set<set<nat>>, y: set<set<nat>>, f: set<nat> -> set<nat>)
    requires forall s :: s in x ==> f(s) in y
    requires forall t :: t in y ==> exists s :: s in x && f(s) == t
    requires forall s, s' :: s in x && s' in x && f(s) == f(s') ==> s == s'
    ensures |x| == |y|
  {
    if x == {} {
      assert y == {};
    } else {
      var s :| s in x;
      InjectiveImage(x - {s}, y - {f(s)}, f);
    }
  }

  function With(i: nat): set<nat> -> set<nat> {
    s => s + {i}
  }

  /** Picks from one more index: those that leave the new index out, and those that take it. */
  lemma PicksByLast(n: nat, k: nat)
    requires n > 0
    ensures Picks(n, k) == Picks(n - 1, k) + (set s | s in Picks(n, k) && n - 1 in s)
    ensures Picks(n - 1, k) !! (set s | s in Picks(n, k) && n - 1 in s)
  {
    forall s | s in Picks(n, k) && n - 1 !in s ensures s in Picks(n - 1, k) {
      assert s <= Indices(n - 1);
    }
    forall s | s in Picks(n - 1, k) ensures s in Picks(n, k) {
      assert s <= Indices(n);
    }
  }

  /** Taking the new index is one more pick from the others. */
  lemma PicksWithLast(n: nat, k: nat, t: set<nat>)
    requires n > 0 && t in Picks(n, k) && n - 1 in t
    ensures k > 0 && t - {n - 1} in Picks(n - 1, k - 1) && t == t - {n - 1} + {n - 1}
  {
    assert t - {n - 1} <= Indices(n - 1);
  }

  lemma PicksExtend(n: nat, k: nat, s: set<nat>)
    requires n > 0 && k > 0 && s in Picks(n - 1, k - 1)
    ensures s + {n - 1} in Picks(n, k) && n - 1 !in s
  {
    assert s + {n - 1} <= Indices(n);
  }

  /** `PickCount` counts the picks with a given sum. */
  lemma {:induction false} PickCountIsCardinality(d: seq<nat>, k: nat, sum: int)
    ensures PickCount(d, k, sum) == |PicksWithSum(d, k, sum)|
  {
    if d == [] {
      NoIndices(k, sum);
    } else {
      var n, init, x := |d|, d[..|d| - 1], d[|d| - 1];
      var all := PicksWithSum(d, k, sum);
      var without := PicksWithSum(init, k, sum);
      var taking := set s | s in all && n - 1 in s;
      SumSplits(d, k, sum);
      PickCountIsCardinality(init, k, sum);
      if k > 0 {
        PickCountIsCardinality(init, k - 1, sum - x);
        TakingLast(d, k, sum);
      } else {
        assert taking == {} by {
          forall s | s in taking ensures false { PicksWithLast(n, k, s); }
        }
      }
    }
  }

  lemma NoIndices(k: nat, sum: int)
    ensures |PicksWithSum([], k, sum)| == if k == 0 && sum == 0 then 1 else 0
  {
    if k == 0 && sum == 0 {
      assert PicksWithSum([], k, sum) == {{}};
    } else {
      assert PicksWithSum([], k, sum) == {};
    }
  }

  lemma SumSplits(d: seq<nat>, k: nat, sum: int)
    requires d != []
    ensures var all := PicksWithSum(d, k, sum); var taking := set s | s in all && |d| - 1 in s;
            |all| == |PicksWithSum(d[..|d| - 1], k, sum)| + |taking|
  {
    var all := PicksWithSum(d, k, sum);
    var taking := set s | s in all && |d| - 1 in s;
    var without := PicksWithSum(d[..|d| - 1], k, sum);
    PicksByLast(|d|, k);
    assert all == without + taking;
    assert without !! taking;
  }

  lemma TakingLast(d: seq<nat>, k: nat, sum: int)
    requires d != [] && k > 0
    ensures var taking := set s | s in PicksWithSum(d, k, sum) && |d| - 1 in s;
            |taking| == |PicksWithSum(d[..|d| - 1], k - 1, sum - d[|d| - 1])|
  {
    hide SumAt, Picks;
    var n := |d|;
    var taking := set s | s in PicksWithSum(d, k, sum) && n - 1 in s;
    var rest := PicksWithSum(d[..n - 1], k - 1, sum - d[n - 1]);
    forall s | s in rest ensures With(n - 1)(s) in taking && n - 1 !in s {
      AddLast(d, k, s);
    }
    forall t | t in taking ensures t - {n - 1} in rest && With(n - 1)(t - {n - 1}) == t {
      DropLast(d, k, t);
    }
    forall s, s' | s in rest && s' in rest && With(n - 1)(s) == With(n - 1)(s') ensures s == s' {
      assert s == With(n - 1)(s) - {n - 1} && s' == With(n - 1)(s') - {n - 1};
    }
    InjectiveImage(rest, taking, With(n - 1));
  }

  lemma AddLast(d: seq<nat>, k: nat, s: set<nat>)
    requires d != [] && k > 0 && s in Picks(|d| - 1, k - 1)
    ensures var n := |d|;
            n - 1 !in s && s + {n - 1} in Picks(n, k)
            && SumAt(d, s + {n - 1}) == SumAt(d[..n - 1], s) + d[n - 1]
  {
    PicksExtend(|d|, k, s);
    SumAtIgnoresBeyond(d[..|d| - 1], s, |d| - 1);
  }

  lemma DropLast(d: seq<nat>, k: nat, t: set<nat>)
    requires d != [] && t in Picks(|d|, k) && |d| - 1 in t
    ensures var n := |d|;
            k > 0 && t - {n - 1} in Picks(n - 1, k - 1) && t - {n - 1} + {n - 1} == t
            && SumAt(d, t) == SumAt(d[..n - 1], t - {n - 1}) + d[n - 1]
  {
    PicksWithLast(|d|, k, t);
    AddLast(d, k, t - {|d| - 1});
  }

  /** There are C(n, k) picks: the picks of n zeros whose sum is 0. */
  lemma PicksAreBinomial(n: nat, k: nat)
    ensures |Picks(n, k)| == Binomial(n, k)
  {
    var zeros := seq(n, _ => 0);
    ZeroPicks(zeros, k);
    forall s | s in Picks(n, k) ensures SumAt(zeros, s) == 0 {
      ZeroSum(zeros, s);
    }
    assert PicksWithSum(zeros, k, 0) == Picks(n, k);
    PickCountIsCardinality(zeros, k, 0);
  }

  lemma {:induction false} ZeroSum(zeros: seq<nat>, s: set<nat>)
    requires forall i :: 0 <= i < |zeros| ==> zeros[i] == 0
    ensures SumAt(zeros, s) == 0
  {
    if zeros != [] {
      ZeroSum(zeros[..|zeros| - 1], s);
    }
  }

  lemma {:induction false} ZeroPicks(zeros: seq<nat>, k: nat)
    requires forall i :: 0 <= i < |zeros| ==> zeros[i] == 0
    ensures PickCount(zeros, k, 0) == Binomial(|zeros|, k)
  {
    if zeros != [] {
      ZeroPicks(zeros[..|zeros| - 1], k);
      if k > 0 {
        ZeroPicks(zeros[..|zeros| - 1], k - 1);
      }
    }
  }

  /** No cell of the table exceeds a binomial coefficient. */
  lemma {:induction false} PickCountBounded(d: seq<nat>, k: nat, sum: int)
    ensures PickCount(d, k, sum) <= Binomial(|d|, k)
  {
    if d != [] {
      PickCountBounded(d[..|d| - 1], k, sum);
      if k > 0 {
        PickCountBounded(d[..|d| - 1], k - 1, sum - d[|d| - 1]);
      }
    }
  }

  // ----- tails and extremes of the distribution of sums

  /** The mass of the sums below `bound` that lie at least `threshold` from `centre`. */
  function TailMass(d: seq<nat>, k: nat, centre: int, threshold: int, bound: nat): nat {
    if bound == 0 then 0
    else
      var sum := bound - 1;
      TailMass(d, k, centre, threshold, sum)
      + if Abs(sum - centre) >= threshold then PickCount(d, k, sum) else 0
  }

  ghost function TailBelow(d: seq<nat>, k: nat, centre: int, threshold: int, bound: nat): set<set<nat>> {
    set s | s in TailPicks(d, k, centre, threshold) && SumAt(d, s) < bound
  }

  lemma {:induction false} TailMassBelow(d: seq<nat>, k: nat, centre: int, threshold: int, bound: nat)
    ensures TailMass(d, k, centre, threshold, bound) == |TailBelow(d, k, centre, threshold, bound)|
  {
    if bound == 0 {
      assert TailBelow(d, k, centre, threshold, 0) == {};
    } else {
      TailMassBelow(d, k, centre, threshold, bound - 1);
      PickCountIsCardinality(d, k, bound - 1);
      TailGrows(d, k, centre, threshold, bound);
    }
  }

  lemma TailGrows(d: seq<nat>, k: nat, centre: int, threshold: int, bound: nat)
    requires bound > 0
    ensures |TailBelow(d, k, centre, threshold, bound)|
         == |TailBelow(d, k, centre, threshold, bound - 1)|
            + if Abs(bound - 1 - centre) >= threshold then |PicksWithSum(d, k, bound - 1)| else 0
  {
    hide SumAt, Picks;
    var now := TailBelow(d, k, centre, threshold, bound);
    var before := TailBelow(d, k, centre, threshold, bound - 1);
    var level := PicksWithSum(d, k, bound - 1);
    if Abs(bound - 1 - centre) >= threshold {
      assert now == before + level;
      assert before !! level;
    } else {
      assert now == before;
    }
  }

  /** The swept mass is the number of picks in the tail. */
  lemma TailMassIsCardinality(d: seq<nat>, k: nat, centre: int, threshold: int)
    ensures TailMass(d, k, centre, threshold, Total(d) + 1) == |TailPicks(d, k, centre, threshold)|
  {
    TailMassBelow(d, k, centre, threshold, Total(d) + 1);
    forall s | s in TailPicks(d, k, centre, threshold) ensures SumAt(d, s) < Total(d) + 1 {
      SumAtBounded(d, s);
    }
    assert TailBelow(d, k, centre, threshold, Total(d) + 1) == TailPicks(d, k, centre, threshold);
  }

  /** The largest deviation among the sums below `bound` that some pick attains. */
  function MaxDeviation(d: seq<nat>, k: nat, centre: int, bound: nat): nat {
    if bound == 0 then 0
    else
      var rest, deviation := MaxDeviation(d, k, centre, bound - 1), Abs(bound - 1 - centre);
      if PickCount(d, k, bound - 1) != 0 && deviation > rest then deviation else rest
  }

  /** `m` is the deviation of the most extreme pick. */
  ghost predicate IsMaxDeviation(d: seq<nat>, k: nat, centre: int, m: nat) {
    (forall s :: s in Picks(|d|, k) ==> Abs(SumAt(d, s) - centre) <= m)
    && exists s :: s in Picks(|d|, k) && Abs(SumAt(d, s) - centre) == m
  }

  lemma {:induction false} MaxDeviationBelow(d: seq<nat>, k: nat, centre: int, bound: nat, s: set<nat>)
    requires s in Picks(|d|, k) && SumAt(d, s) < bound
    ensures var m := MaxDeviation(d, k, centre, bound);
            Abs(SumAt(d, s) - centre) <= m
            && exists s' :: s' in Picks(|d|, k) && Abs(SumAt(d, s') - centre) == m
  {
    var sum := bound - 1;
    PickCountIsCardinality(d, k, sum);
    if SumAt(d, s) == sum {
      assert s in PicksWithSum(d, k, sum);
      var rest := MaxDeviation(d, k, centre, sum);
      if Abs(sum - centre) <= rest && rest != Abs(sum - centre) {
        AttainedBelow(d, k, centre, sum);
      }
    } else {
      MaxDeviationBelow(d, k, centre, sum, s);
      if PickCount(d, k, sum) != 0 {
        var t :| t in PicksWithSum(d, k, sum);
        assert Abs(SumAt(d, t) - centre) == Abs(sum - centre);
      }
    }
  }

  /** A positive maximum is some pick's deviation. */
  lemma {:induction false} AttainedBelow(d: seq<nat>, k: nat, centre: int, bound: nat)
    requires MaxDeviation(d, k, centre, bound) > 0
    ensures exists s :: s in Picks(|d|, k) && Abs(SumAt(d, s) - centre) == MaxDeviation(d, k, centre, bound)
  {
    var sum := bound - 1;
    if PickCount(d, k, sum) != 0 && Abs(sum - centre) > MaxDeviation(d, k, centre, sum) {
      PickCountIsCardinality(d, k, sum);
      var t :| t in PicksWithSum(d, k, sum);
      assert Abs(SumAt(d, t) - centre) == Abs(sum - centre);
    } else {
      AttainedBelow(d, k, centre, sum);
    }
  }

  /** The swept maximum is the deviation of the most extreme pick. */
  lemma MaxDeviationIsMax(d: seq<nat>, k: nat, centre: int)
    requires k <= |d|
    ensures IsMaxDeviation(d, k, centre, MaxDeviation(d, k, centre, Total(d) + 1))
  {
    hide MaxDeviation, Picks, SumAt, Total, Abs, Indices;
    forall s | s in Picks(|d|, k)
      ensures Abs(SumAt(d, s) - centre) <= MaxDeviation(d, k, centre, Total(d) + 1)
    {
      SumAtBounded(d, s);
      MaxDeviationBelow(d, k, centre, Total(d) + 1, s);
    }
    var s := FirstPick(|d|, k);
    SumAtBounded(d, s);
    MaxDeviationBelow(d, k, centre, Total(d) + 1, s);
  }

  lemma FirstPick(n: nat, k: nat) returns (s: set<nat>)
    requires k <= n
    ensures s == Indices(k) && s in Picks(n, k)
  {
    s := Indices(k);
    assert s <= Indices(n);
  }

  // ----- order of the ranks, and swapping the sides

  lemma {:induction false} PickCountAround(before: seq<nat>, x: nat, after: seq<nat>, k: nat, sum: int)
    ensures PickCount(before + [x] + after, k, sum)
         == PickCount(before + after, k, sum)
            + if k > 0 then PickCount(before + after, k - 1, sum - x) else 0
  {
    var whole := before + [x] + after;
    if after == [] {
      assert whole[..|whole| - 1] == before && before + after == before;
    } else {
      var init, last := after[..|after| - 1], after[|after| - 1];
      assert whole[..|whole| - 1] == before + [x] + init;
      assert (before + after)[..|before + after| - 1] == before + init;
      PickCountAround(before, x, init, k, sum);
      if k > 0 {
        PickCountAround(before, x, init, k - 1, sum - last);
      }
    }
  }

  /** The counts depend on the ranks as a multiset only. */
  lemma {:induction false} PickCountIgnoresOrder(d: seq<nat>, e: seq<nat>, k: nat, sum: int)
    requires multiset(d) == multiset(e)
    ensures PickCount(d, k, sum) == PickCount(e, k, sum)
  {
    assert |multiset(d)| == |multiset(e)|;
    if d != [] {
      var j := Sorting.Removable(d, e);
      PickCountAround(e[..j], e[j], e[j + 1..], k, sum);
      PickCountIgnoresOrder(d[..|d| - 1], e[..j] + e[j + 1..], k, sum);
      if k > 0 {
        PickCountIgnoresOrder(d[..|d| - 1], e[..j] + e[j + 1..], k - 1, sum - e[j]);
      }
    }
  }

  lemma {:induction false} TotalAround(before: seq<nat>, x: nat, after: seq<nat>)
    ensures Total(before + [x] + after) == Total(before + after) + x
  {
    var whole := before + [x] + after;
    if after == [] {
      assert whole[..|whole| - 1] == before && before + after == before;
    } else {
      assert whole[..|whole| - 1] == before + [x] + after[..|after| - 1];
      assert (before + after)[..|before + after| - 1] == before + after[..|after| - 1];
      TotalAround(before, x, after[..|after| - 1]);
    }
  }

  lemma {:induction false} TotalIgnoresOrder(d: seq<nat>, e: seq<nat>)
    requires multiset(d) == multiset(e)
    ensures Total(d) == Total(e)
  {
    assert |multiset(d)| == |multiset(e)|;
    if d != [] {
      var j := Sorting.Removable(d, e);
      TotalAround(e[..j], e[j], e[j + 1..]);
      TotalIgnoresOrder(d[..|d| - 1], e[..j] + e[j + 1..]);
    }
  }

  lemma {:induction false} SweepIgnoresOrder(
    d: seq<nat>, e: seq<nat>, k: nat, centre: int, threshold: int, bound: nat)
    requires multiset(d) == multiset(e)
    ensures TailMass(d, k, centre, threshold, bound) == TailMass(e, k, centre, threshold, bound)
    ensures MaxDeviation(d, k, centre, bound) == MaxDeviation(e, k, centre, bound)
  {
    if bound > 0 {
      SweepIgnoresOrder(d, e, k, centre, threshold, bound - 1);
      PickCountIgnoresOrder(d, e, k, bound - 1);
    }
  }

  /** Tail and extreme deviation depend on the ranks as a multiset only. */
  lemma TailIgnoresOrder(d: seq<nat>, e: seq<nat>, k: nat, centre: int, threshold: int)
    requires multiset(d) == multiset(e) && k <= |d|
    ensures |TailPicks(d, k, centre, threshold)| == |TailPicks(e, k, centre, threshold)|
    ensures forall m :: IsMaxDeviation(d, k, centre, m) <==> IsMaxDeviation(e, k, centre, m)
  {
    hide *;
    assert |multiset(d)| == |multiset(e)|;
    TotalIgnoresOrder(d, e);
    SweepIgnoresOrder(d, e, k, centre, threshold, Total(d) + 1);
    TailMassIsCardinality(d, k, centre, threshold);
    TailMassIsCardinality(e, k, centre, threshold);
    MaxDeviationIsMax(d, k, centre);
    MaxDeviationIsMax(e, k, centre);
    MaxDeviationUnique(d, k, centre);
    MaxDeviationUnique(e, k, centre);
  }

  lemma MaxDeviationUnique(d: seq<nat>, k: nat, centre: int)
    ensures forall m, m' :: IsMaxDeviation(d, k, centre, m) && IsMaxDeviation(d, k, centre, m') ==> m == m'
  {
  }

  function Complement(n: nat): set<nat> -> set<nat> {
    s => Indices(n) - s
  }

  lemma {:induction false} SumAtComplement(d: seq<nat>, s: set<nat>, n: nat)
    requires |d| <= n
    ensures SumAt(d, Indices(n) - s) == Total(d) - SumAt(d, s)
  {
    if d != [] {
      SumAtComplement(d[..|d| - 1], s, n);
    }
  }

  /** What one side leaves is the other side, and the ranks it leaves are the rest of the total. */
  lemma ComplementPick(d: seq<nat>, k: nat, s: set<nat>)
    requires s in Picks(|d|, k)
    ensures k <= |d| && Complement(|d|)(s) in Picks(|d|, |d| - k)
    ensures SumAt(d, Complement(|d|)(s)) == Total(d) - SumAt(d, s)
    ensures Complement(|d|)(Complement(|d|)(s)) == s
  {
    var n := |d|;
    assert |s| + |Indices(n) - s| == n by { assert s + (Indices(n) - s) == Indices(n); }
    SumAtComplement(d, s, n);
  }

  /** Taking the other side's picks instead mirrors the whole distribution. */
  lemma TailMirrors(d: seq<nat>, k: nat, centre: int, threshold: int)
    requires k <= |d|
    ensures |TailPicks(d, k, centre, threshold)| == |TailPicks(d, |d| - k, Total(d) - centre, threshold)|
    ensures forall m :: IsMaxDeviation(d, k, centre, m)
                   <==> IsMaxDeviation(d, |d| - k, Total(d) - centre, m)
  {
    hide SumAt, Picks, Complement, Total;
    var other := |d| - k;
    var mirrored := Total(d) - centre;
    forall s | s in Picks(|d|, k) ensures Mirrors(d, k, centre, s) {
      ComplementPick(d, k, s);
    }
    forall s | s in Picks(|d|, other) ensures Mirrors(d, other, mirrored, s) {
      ComplementPick(d, other, s);
    }
    InjectiveImage(TailPicks(d, k, centre, threshold), TailPicks(d, other, mirrored, threshold), Complement(|d|));
    forall m ensures IsMaxDeviation(d, k, centre, m) <==> IsMaxDeviation(d, other, mirrored, m) {
      MaxMirrors(d, k, centre, other, mirrored, m);
      MaxMirrors(d, other, mirrored, k, centre, m);
    }
  }

  ghost predicate Mirrors(d: seq<nat>, k: nat, centre: int, s: set<nat>)
    requires k <= |d|
  {
    var t := Complement(|d|)(s);
    t in Picks(|d|, |d| - k) && Complement(|d|)(t) == s
    && Abs(SumAt(d, t) - (Total(d) - centre)) == Abs(SumAt(d, s) - centre)
  }

  lemma MaxMirrors(d: seq<nat>, k: nat, centre: int, other: nat, mirrored: int, m: nat)
    requires k <= |d| && other == |d| - k && mirrored == Total(d) - centre
    requires forall s :: s in Picks(|d|, k) ==> Mirrors(d, k, centre, s)
    requires forall s :: s in Picks(|d|, other) ==> Mirrors(d, other, mirrored, s)
    ensures IsMaxDeviation(d, k, centre, m) ==> IsMaxDeviation(d, other, mirrored, m)
  {
    hide SumAt, Picks, Complement, Total;
    if IsMaxDeviation(d, k, centre, m) {
      var s :| s in Picks(|d|, k) && Abs(SumAt(d, s) - centre) == m;
      assert Mirrors(d, k, centre, s);
    }
  }
}
