/** Midranks of a pooled sample, the tie correction, and what rank sums count. */
module Midranks {
  import opened Sorting
  import opened Splits

  /** Twice the midrank of `v` among `x`: twice the smaller values, plus the equal ones, plus one. */
  function DoubledRank(x: seq<real>, v: real): nat {
    2 * Count(x, Below(v)) + multiset(x)[v] + 1
  }

  /** The doubled ranks, in the pool `x`, of the values `y`. */
  function RanksIn(x: seq<real>, y: seq<real>): (d: seq<nat>)
    ensures |d| == |y|
  {
    seq(|y|, i requires 0 <= i < |y| => DoubledRank(x, y[i]))
  }

  function DoubledRanks(x: seq<real>): (d: seq<nat>)
    ensures |d| == |x|
  {
    RanksIn(x, x)
  }

  /** The tie correction, value by value: a value that occurs t times contributes t * t - 1 each time,
      so a group of t contributes t^3 - t. */
  function TieSum(s: seq<real>, pool: multiset<real>): int {
    if s == [] then 0
    else TieSum(s[..|s| - 1], pool) + pool[s[|s| - 1]] * pool[s[|s| - 1]] - 1
  }

  // ----- the sorted order of the pool, as indices

  ghost predicate InRange(order: seq<nat>, n: nat) {
    forall p :: 0 <= p < |order| ==> order[p] < n
  }

  function Values(x: seq<real>, order: seq<nat>): (v: seq<real>)
    requires InRange(order, |x|)
    ensures |v| == |order|
  {
    seq(|order|, p requires 0 <= p < |order| => x[order[p]])
  }

  lemma ValuesAppend(x: seq<real>, order: seq<nat>, i: nat)
    requires InRange(order, |x|) && i < |x|
    ensures InRange(order + [i], |x|) && Values(x, order + [i]) == Values(x, order) + [x[i]]
  {
  }

  /** Insert index `i` behind every index whose value is not larger: a stable insertion. */
  function InsertIndex(x: seq<real>, order: seq<nat>, i: nat): (r: seq<nat>)
    requires i < |x| && InRange(order, |x|) && Sorted(Values(x, order))
    ensures InRange(r, |x|) && forall o :: o in r <==> o in order || o == i
    ensures Sorted(Values(x, r)) && multiset(Values(x, r)) == multiset(Values(x, order)) + multiset{x[i]}
  {
    if order == [] then
      [i]
    else
      var n := |order| - 1;
      assert order == order[..n] + [order[n]];
      ValuesAppend(x, order[..n], order[n]);
      ValuesAppend(x, order, i);
      assert Sorted(Values(x, order[..n])) by {
        assert forall p :: 0 <= p < n ==> Values(x, order[..n])[p] == Values(x, order)[p];
      }
      if x[order[n]] <= x[i] then
        assert forall p :: 0 <= p < n ==> Values(x, order)[p] <= Values(x, order)[n];
        order + [i]
      else
        var r := InsertIndex(x, order[..n], i);
        InsertedSorted(x, order, i, r);
        r + [order[n]]
  }

  lemma InsertedSorted(x: seq<real>, order: seq<nat>, i: nat, r: seq<nat>)
    requires order != [] && i < |x| && InRange(order, |x|) && InRange(r, |x|)
    requires Sorted(Values(x, order)) && Sorted(Values(x, r)) && x[i] < x[order[|order| - 1]]
    requires multiset(Values(x, r)) == multiset(Values(x, order[..|order| - 1])) + multiset{x[i]}
    ensures InRange(r + [order[|order| - 1]], |x|)
    ensures Values(x, r + [order[|order| - 1]]) == Values(x, r) + [x[order[|order| - 1]]]
    ensures Sorted(Values(x, r + [order[|order| - 1]]))
  {
    var n := |order| - 1;
    var v := Values(x, r);
    ValuesAppend(x, r, order[n]);
    forall p | 0 <= p < |v| ensures v[p] <= x[order[n]] {
      assert v[p] in multiset(v);
      if v[p] != x[i] {
        assert v[p] in multiset(Values(x, order[..n]));
        var q :| 0 <= q < n && Values(x, order[..n])[q] == v[p];
        assert Values(x, order)[q] <= Values(x, order)[n];
      }
    }
  }

  /** The first `n` indices in ascending order of their values. */
  function SortedOrder(x: seq<real>, n: nat): (r: seq<nat>)
    requires n <= |x|
    ensures InRange(r, |x|) && forall o: nat :: o in r <==> o < n
    ensures Sorted(Values(x, r)) && multiset(Values(x, r)) == multiset(x[..n])
  {
    if n == 0 then []
    else
      assert x[..n] == x[..n - 1] + [x[n - 1]];
      InsertIndex(x, SortedOrder(x, n - 1), n - 1)
  }

  // ----- the ranking loop

  /** A maximal run `[i, j]` of equal values in the sorted pool. */
  ghost predicate TieGroup(v: seq<real>, i: nat, j: nat) {
    i <= j < |v| && (forall p :: i <= p <= j ==> v[p] == v[i])
    && (forall p :: 0 <= p < i ==> v[p] < v[i]) && (forall p :: j < p < |v| ==> v[i] < v[p])
  }

  /** Its value has `i` smaller ones and occurs `j - i + 1` times, so its doubled rank is `i + j + 2`. */
  lemma TieGroupRank(x: seq<real>, v: seq<real>, i: nat, j: nat)
    requires TieGroup(v, i, j) && multiset(v) == multiset(x)
    ensures multiset(x)[v[i]] == j - i + 1 && DoubledRank(x, v[i]) == i + j + 2
  {
    CountPrefix(v, Below(v[i]), i);
    CountIgnoresOrder(v, x, Below(v[i]));
    var group := v[i..j + 1];
    assert v == v[..i] + group + v[j + 1..];
    AllEqual(group, v[i]);
    assert v[i] !in v[..i] && v[i] !in v[j + 1..];
  }

  lemma {:induction false} AllEqual(s: seq<real>, v: real)
    requires forall p :: 0 <= p < |s| ==> s[p] == v
    ensures multiset(s)[v] == |s|
  {
    if s != [] {
      assert s == s[..|s| - 1] + [v];
      AllEqual(s[..|s| - 1], v);
    }
  }

  lemma {:induction false} TieSumGroup(v: seq<real>, i: nat, j: nat, pool: multiset<real>, t: nat)
    requires i <= j <= |v| && forall p :: i <= p < j ==> pool[v[p]] == t
    ensures TieSum(v[..j], pool) == TieSum(v[..i], pool) + (j - i) * (t * t - 1)
  {
    if i < j {
      TieSumGroup(v, i, j - 1, pool, t);
      assert v[..j][..j - 1] == v[..j - 1] && v[..j][j - 1] == v[j - 1];
      OneMoreSquare(j - i, t * t - 1);
    }
  }

  lemma OneMoreSquare(k: nat, x: int)
    requires k > 0
    ensures k * x == (k - 1) * x + x
  {
  }

  lemma {:induction false} TieSumAround(before: seq<real>, y: real, after: seq<real>, pool: multiset<real>)
    ensures TieSum(before + [y] + after, pool) == TieSum(before + after, pool) + pool[y] * pool[y] - 1
  {
    var whole := before + [y] + after;
    if after == [] {
      assert whole[..|whole| - 1] == before && before + after == before;
    } else {
      assert whole[..|whole| - 1] == before + [y] + after[..|after| - 1];
      assert (before + after)[..|before + after| - 1] == before + after[..|after| - 1];
      TieSumAround(before, y, after[..|after| - 1], pool);
    }
  }

  lemma {:induction false} TieSumIgnoresOrder(s: seq<real>, t: seq<real>, pool: multiset<real>)
    requires multiset(s) == multiset(t)
    ensures TieSum(s, pool) == TieSum(t, pool)
  {
    assert |multiset(s)| == |multiset(t)|;
    if s != [] {
      var j := Removable(s, t);
      TieSumAround(t[..j], t[j], t[j + 1..], pool);
      TieSumIgnoresOrder(s[..|s| - 1], t[..j] + t[j + 1..], pool);
    }
  }

  /** The positions before `i` are ranked, and `i` starts a tie group. */
  ghost predicate Ranked(x: seq<real>, order: seq<nat>, v: seq<real>, i: nat, ranks: seq<real>) {
    |ranks| == |x| && |v| == |order| && i <= |order| && InRange(order, |x|)
    && (forall p :: 0 <= p < i ==> ranks[order[p]] == DoubledRank(x, x[order[p]]) as real / 2.0)
  }

  ghost predicate GroupStart(v: seq<real>, i: nat) {
    i <= |v| && forall p, q :: 0 <= p < i <= q < |v| ==> v[p] < v[q]
  }

  /** `midranks(pooled)`: every value gets (number less) + (number equal + 1) / 2. */
  method ComputeMidranks(pooled: seq<real>) returns (ranks: array<real>, tieCorrection: int)
    ensures fresh(ranks) && ranks.Length == |pooled|
    ensures forall i :: 0 <= i < |pooled| ==> ranks[i] == DoubledRank(pooled, pooled[i]) as real / 2.0
    ensures tieCorrection == TieSum(pooled, multiset(pooled))
  {
    hide DoubledRank, TieSum, Sorted, SortedOrder, InsertIndex, GroupStart, TieGroup;
    var order := SortedOrder(pooled, |pooled|);
    assert pooled[..|pooled|] == pooled;
    ghost var v := Values(pooled, order);
    assert |multiset(v)| == |multiset(pooled)|;
    ranks := new real[|pooled|];
    tieCorrection := 0;
    var i: nat := 0;
    NothingRanked(v, multiset(pooled));
    while i < |order|
      invariant Ranked(pooled, order, v, i, ranks[..]) && GroupStart(v, i)
      invariant tieCorrection == TieSum(v[..i], multiset(pooled))
    {
      var j := i;
      while j + 1 < |order| && pooled[order[j + 1]] == pooled[order[i]]
        invariant i <= j < |order| && forall p :: i <= p <= j ==> v[p] == v[i]
      {
        j := j + 1;
      }
      GroupEnds(v, i, j);
      TieGroupRank(pooled, v, i, j);
      var mean := (i + j + 2) as real / 2.0;
      var t := j - i + 1;
      TieGroupCorrection(v, i, j, multiset(pooled), t);
      tieCorrection := tieCorrection + (t * t * t - t);
      WriteGroup(pooled, order, i, j, mean, ranks);
      i := j + 1;
    }
    assert v[..i] == v;
    TieSumIgnoresOrder(v, pooled, multiset(pooled));
    forall k | 0 <= k < |pooled| ensures ranks[k] == DoubledRank(pooled, pooled[k]) as real / 2.0 {
      assert k in order;
      var p :| 0 <= p < |order| && order[p] == k;
      assert ranks[..][order[p]] == ranks[k];
    }
  }

  /** Every index of a tie group gets the group's mean rank. */
  method WriteGroup(pooled: seq<real>, order: seq<nat>, i: nat, j: nat, mean: real, ranks: array<real>)
    requires InRange(order, |pooled|) && Ranked(pooled, order, Values(pooled, order), i, ranks[..])
    requires i <= j < |order|
    requires forall p :: i <= p <= j ==> mean == DoubledRank(pooled, Values(pooled, order)[p]) as real / 2.0
    modifies ranks
    ensures Ranked(pooled, order, Values(pooled, order), j + 1, ranks[..])
  {
    hide DoubledRank;
    ghost var v := Values(pooled, order);
    for k := i to j + 1
      invariant Ranked(pooled, order, v, k, ranks[..])
    {
      assert v[k] == pooled[order[k]];
      ranks[order[k]] := mean;
    }
  }

  lemma NothingRanked(v: seq<real>, pool: multiset<real>)
    ensures GroupStart(v, 0) && TieSum(v[..0], pool) == 0
  {
  }

  lemma GroupEnds(v: seq<real>, i: nat, j: nat)
    requires Sorted(v) && GroupStart(v, i) && i <= j < |v| && (forall p :: i <= p <= j ==> v[p] == v[i])
    requires j + 1 < |v| ==> v[j + 1] != v[i]
    ensures TieGroup(v, i, j) && GroupStart(v, j + 1)
  {
  }

  lemma TieGroupCorrection(v: seq<real>, i: nat, j: nat, pool: multiset<real>, t: nat)
    requires TieGroup(v, i, j) && pool[v[i]] == t == j - i + 1
    ensures TieSum(v[..j + 1], pool) == TieSum(v[..i], pool) + (t * t * t - t)
  {
    TieSumGroup(v, i, j + 1, pool, t);
    Cube(t);
  }

  lemma Cube(t: nat)
    ensures t * (t * t - 1) == t * t * t - t
  {
  }

  // ----- rank sums count pairs

  /** Twice the pairs won by `v` against `b`: a smaller opponent counts 2, an equal one 1. */
  function Wins(v: real, b: seq<real>): nat {
    if b == [] then 0
    else Wins(v, b[..|b| - 1]) + if b[|b| - 1] < v then 2 else if b[|b| - 1] == v then 1 else 0
  }

  /** Twice the Mann-Whitney pair count of `a` over `b`. */
  function DoubledU(a: seq<real>, b: seq<real>): nat {
    if a == [] then 0 else DoubledU(a[..|a| - 1], b) + Wins(a[|a| - 1], b)
  }

  function RankTotal(x: seq<real>, a: seq<real>): nat {
    if a == [] then 0 else RankTotal(x, a[..|a| - 1]) + DoubledRank(x, a[|a| - 1])
  }

  lemma {:induction false} RankCountsWins(x: seq<real>, v: real)
    ensures DoubledRank(x, v) == Wins(v, x) + 1
  {
    if x != [] {
      RankCountsWins(x[..|x| - 1], v);
      assert x == x[..|x| - 1] + [x[|x| - 1]];
    }
  }

  lemma {:induction false} WinsConcat(v: real, b: seq<real>, c: seq<real>)
    ensures Wins(v, b + c) == Wins(v, b) + Wins(v, c)
  {
    if c == [] {
      assert b + c == b;
    } else {
      assert (b + c)[..|b + c| - 1] == b + c[..|c| - 1];
      WinsConcat(v, b, c[..|c| - 1]);
    }
  }

  lemma {:induction false} DoubledUAgainstOne(a: seq<real>, v: real)
    ensures DoubledU(a, [v]) + Wins(v, a) == 2 * |a|
  {
    if a != [] {
      var w := a[|a| - 1];
      assert [v][..|[v]| - 1] == [];
      assert Wins(w, [v]) == Wins(w, []) + if v < w then 2 else if v == w then 1 else 0;
      DoubledUAgainstOne(a[..|a| - 1], v);
    }
  }

  lemma {:induction false} DoubledUConcat(a: seq<real>, b: seq<real>, c: seq<real>)
    ensures DoubledU(a, b + c) == DoubledU(a, b) + DoubledU(a, c)
  {
    if a != [] {
      DoubledUConcat(a[..|a| - 1], b, c);
      WinsConcat(a[|a| - 1], b, c);
    }
  }

  /** Every pair is won by one side or shared: the two counts add up to all pairs. */
  lemma {:induction false} PairCountsAddUp(a: seq<real>, b: seq<real>)
    ensures DoubledU(a, b) + DoubledU(b, a) == 2 * (|a| * |b|)
  {
    if a == [] {
      NoWins(b);
    } else {
      var init, v := a[..|a| - 1], a[|a| - 1];
      PairCountsAddUp(init, b);
      assert a == init + [v];
      DoubledUConcat(b, init, [v]);
      DoubledUAgainstOne(b, v);
      OneMoreRow(|init|, |b|);
    }
  }

  lemma OneMoreRow(m: nat, n: nat)
    ensures (m + 1) * n == m * n + n
  {
  }

  lemma {:induction false} NoWins(b: seq<real>)
    ensures DoubledU(b, []) == 0
  {
    if b != [] {
      NoWins(b[..|b| - 1]);
    }
  }

  lemma {:induction false} RankTotalCountsWins(x: seq<real>, a: seq<real>)
    ensures RankTotal(x, a) == |a| + DoubledU(a, x)
  {
    if a != [] {
      RankTotalCountsWins(x, a[..|a| - 1]);
      RankCountsWins(x, a[|a| - 1]);
    }
  }

  /** The rank sum of one side is its own triangle number plus what it wins from the other side:
      `2 * (rankSumA - nA(nA + 1) / 2)` is twice the pairs with a_i > b_j plus the equal pairs. */
  lemma RankSumCountsPairs(a: seq<real>, b: seq<real>)
    ensures RankTotal(a + b, a) == |a| * (|a| + 1) + DoubledU(a, b)
  {
    RankTotalCountsWins(a + b, a);
    DoubledUConcat(a, a, b);
    PairCountsAddUp(a, a);
    OneMoreRow(|a|, |a|);
  }

  // ----- rank sums of splits

  /** The values at the picked indices, and the values left over. */
  function Pick(y: seq<real>, s: set<nat>): seq<real> {
    if y == [] then []
    else Pick(y[..|y| - 1], s) + if |y| - 1 in s then [y[|y| - 1]] else []
  }

  function Leave(y: seq<real>, s: set<nat>): seq<real> {
    if y == [] then []
    else Leave(y[..|y| - 1], s) + if |y| - 1 in s then [] else [y[|y| - 1]]
  }

  lemma {:induction false} PickAndLeave(y: seq<real>, s: set<nat>)
    ensures multiset(Pick(y, s)) + multiset(Leave(y, s)) == multiset(y)
  {
    if y != [] {
      var init, last := y[..|y| - 1], y[|y| - 1];
      PickAndLeave(init, s);
      assert y == init + [last];
      assert multiset(y) == multiset(init) + multiset{last};
      if |y| - 1 in s {
        assert Pick(y, s) == Pick(init, s) + [last];
        assert Leave(y, s) == Leave(init, s);
      } else {
        assert Leave(y, s) == Leave(init, s) + [last];
        assert Pick(y, s) == Pick(init, s);
      }
    }
  }

  lemma {:induction false} PickedValue(y: seq<real>, s: set<nat>, i: nat)
    requires i < |y|
    ensures if i in s then y[i] in Pick(y, s) else y[i] in Leave(y, s)
  {
    if i < |y| - 1 {
      PickedValue(y[..|y| - 1], s, i);
    }
  }

  lemma {:induction false} PickedIndex(y: seq<real>, s: set<nat>, v: real) returns (i: nat)
    requires v in Pick(y, s)
    ensures i < |y| && i in s && y[i] == v
  {
    if |y| - 1 in s && y[|y| - 1] == v {
      i := |y| - 1;
    } else {
      i := PickedIndex(y[..|y| - 1], s, v);
    }
  }

  lemma {:induction false} LeftIndex(y: seq<real>, s: set<nat>, v: real) returns (i: nat)
    requires v in Leave(y, s)
    ensures i < |y| && i !in s && y[i] == v
  {
    if |y| - 1 !in s && y[|y| - 1] == v {
      i := |y| - 1;
    } else {
      i := LeftIndex(y[..|y| - 1], s, v);
    }
  }

  lemma {:induction false} PickSize(y: seq<real>, s: set<nat>)
    requires s <= Indices(|y|)
    ensures |Pick(y, s)| == |s|
  {
    if y == [] {
      assert s == {};
    } else {
      var n := |y| - 1;
      assert s - {n} <= Indices(n);
      PickSize(y[..n], s - {n});
      PickIgnoresBeyond(y[..n], s, n);
      if n !in s {
        assert s - {n} == s;
      }
    }
  }

  lemma {:induction false} PickIgnoresBeyond(y: seq<real>, s: set<nat>, i: nat)
    requires i >= |y|
    ensures Pick(y, s - {i}) == Pick(y, s)
  {
    if y != [] {
      PickIgnoresBeyond(y[..|y| - 1], s, i);
    }
  }

  lemma {:induction false} SumAtIsRankTotal(x: seq<real>, y: seq<real>, s: set<nat>)
    ensures SumAt(RanksIn(x, y), s) == RankTotal(x, Pick(y, s))
  {
    if y != [] {
      var init, last := y[..|y| - 1], y[|y| - 1];
      SumAtIsRankTotal(x, init, s);
      assert RanksIn(x, y)[..|y| - 1] == RanksIn(x, init);
      assert RanksIn(x, y)[|y| - 1] == DoubledRank(x, last);
      var p := Pick(init, s);
      if |y| - 1 in s {
        assert (p + [last])[..|p|] == p;
      } else {
        assert Pick(y, s) == p;
      }
    }
  }

  lemma {:induction false} RankTotalIgnoresOrder(x: seq<real>, y: seq<real>, a: seq<real>)
    requires multiset(x) == multiset(y)
    ensures RankTotal(x, a) == RankTotal(y, a)
  {
    if a != [] {
      RankTotalIgnoresOrder(x, y, a[..|a| - 1]);
      CountIgnoresOrder(x, y, Below(a[|a| - 1]));
    }
  }

  /** The doubled rank sum of any split, ties or not, in terms of the pairs its side wins. */
  lemma SplitCountsPairs(x: seq<real>, k: nat, s: set<nat>)
    requires s in Picks(|x|, k)
    ensures var a, b := Pick(x, s), Leave(x, s);
            |a| == k && |b| == |x| - k
            && SumAt(DoubledRanks(x), s) == k * (k + 1) + DoubledU(a, b)
  {
    var a, b := Pick(x, s), Leave(x, s);
    PickAndLeave(x, s);
    PickSize(x, s);
    assert |multiset(a + b)| == |multiset(x)|;
    SumAtIsRankTotal(x, x, s);
    RankTotalIgnoresOrder(x, a + b, a);
    RankSumCountsPairs(a, b);
  }

  /** All doubled ranks together: N(N + 1), whatever the ties. */
  lemma TotalOfRanks(x: seq<real>)
    ensures Total(DoubledRanks(x)) == |x| * (|x| + 1)
  {
    TotalIsRankTotal(x, x);
    RankTotalCountsWins(x, x);
    PairCountsAddUp(x, x);
    OneMoreRow(|x|, |x|);
  }

  lemma {:induction false} TotalIsRankTotal(x: seq<real>, y: seq<real>)
    ensures Total(RanksIn(x, y)) == RankTotal(x, y)
  {
    if y != [] {
      TotalIsRankTotal(x, y[..|y| - 1]);
      assert RanksIn(x, y)[..|y| - 1] == RanksIn(x, y[..|y| - 1]);
    }
  }

  lemma RanksInConcat(x: seq<real>, y: seq<real>, z: seq<real>)
    ensures RanksIn(x, y + z) == RanksIn(x, y) + RanksIn(x, z)
  {
  }

  lemma SameRank(x: seq<real>, x': seq<real>, v: real)
    requires multiset(x) == multiset(x')
    ensures DoubledRank(x, v) == DoubledRank(x', v)
  {
    CountIgnoresOrder(x, x', Below(v));
  }

  lemma {:induction false} RanksInIgnoresOrder(x: seq<real>, x': seq<real>, y: seq<real>, y': seq<real>)
    requires multiset(x) == multiset(x') && multiset(y) == multiset(y')
    ensures multiset(RanksIn(x, y)) == multiset(RanksIn(x', y'))
  {
    hide RanksIn, DoubledRank;
    assert |multiset(y)| == |multiset(y')|;
    if y != [] {
      var j := Removable(y, y');
      var v, init, before, after := y'[j], y[..|y| - 1], y'[..j], y'[j + 1..];
      RanksInIgnoresOrder(x, x', init, before + after);
      SameRank(x, x', v);
      OneRank(x, v);
      OneRank(x', v);
      RanksInConcat(x, init, [v]);
      assert y == init + [v];
      RanksInConcat(x', before, after);
      RanksInConcat(x', before, [v]);
      RanksInConcat(x', before + [v], after);
    } else {
      NoRanks(x);
      NoRanks(x');
    }
  }

  lemma OneRank(x: seq<real>, v: real)
    ensures RanksIn(x, [v]) == [DoubledRank(x, v)]
  {
  }

  lemma NoRanks(x: seq<real>)
    ensures RanksIn(x, []) == []
  {
  }

  /** Reordering the pool reorders its doubled ranks. */
  lemma RanksIgnoreOrder(x: seq<real>, y: seq<real>)
    requires multiset(x) == multiset(y)
    ensures |x| == |y| && multiset(DoubledRanks(x)) == multiset(DoubledRanks(y))
  {
    assert |multiset(x)| == |multiset(y)|;
    RanksInIgnoresOrder(x, y, x, y);
  }
}
