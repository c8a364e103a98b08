/** Sorting as the analysis code uses it: `Array.prototype.sort` with a numeric comparator returns the
    ascending arrangement of its elements, and that arrangement is unique. */
module Sorting {

  ghost predicate Sorted(s: seq<real>) {
    forall i, j :: 0 <= i < j < |s| ==> s[i] <= s[j]
  }

  function Insert(x: real, s: seq<real>): (r: seq<real>)
    requires Sorted(s)
    ensures Sorted(r)
    ensures multiset(r) == multiset(s) + multiset{x}
  {
    if s == [] then [x]
    else if x <= s[0] then [x] + s
    else
      assert s == [s[0]] + s[1..];
      var rest := Insert(x, s[1..]);
      InsertedAbove(x, s, rest);
      [s[0]] + rest
  }

  lemma InsertedAbove(x: real, s: seq<real>, rest: seq<real>)
    requires s != [] && Sorted(s) && s[0] <= x && Sorted(rest) && multiset(rest) == multiset(s[1..]) + multiset{x}
    ensures Sorted([s[0]] + rest)
  {
    forall i | 0 <= i < |rest| ensures s[0] <= rest[i] {
      assert rest[i] in multiset(rest);
      assert rest[i] == x || rest[i] in s[1..];
    }
  }

  /** The ascending arrangement of `s`. */
  function Sort(s: seq<real>): (r: seq<real>)
    ensures Sorted(r)
    ensures multiset(r) == multiset(s)
    ensures |r| == |s|
  {
    if s == [] then []
    else
      assert s == [s[0]] + s[1..];
      var r := Insert(s[0], Sort(s[1..]));
      assert |multiset(r)| == |multiset(s)|;
      r
  }

  lemma {:induction false} SortedUnique(s: seq<real>, t: seq<real>)
    requires Sorted(s) && Sorted(t)
    requires multiset(s) == multiset(t)
    ensures s == t
  {
    assert |multiset(s)| == |multiset(t)|;
    if s != [] {
      SortedHead(s, t);
      SortedHead(t, s);
      DropHead(s);
      DropHead(t);
      SortedUnique(s[1..], t[1..]);
    }
  }

  lemma SortedHead(s: seq<real>, t: seq<real>)
    requires Sorted(s) && s != [] && t != [] && multiset(s) == multiset(t)
    ensures s[0] <= t[0]
  {
    assert t[0] in multiset(s);
  }

  lemma DropHead<T>(s: seq<T>)
    requires s != []
    ensures multiset(s[1..]) == multiset(s) - multiset{s[0]}
    ensures s == [s[0]] + s[1..]
  {
    assert s == [s[0]] + s[1..];
  }

  /** Sorting forgets the order its input arrived in. */
  lemma SortIgnoresOrder(s: seq<real>, t: seq<real>)
    requires multiset(s) == multiset(t)
    ensures Sort(s) == Sort(t)
  {
    SortedUnique(Sort(s), Sort(t));
  }

  /** Every element of a sequence lies between its sorted ends. */
  lemma SortedEnds(s: seq<real>, x: real)
    requires x in s
    ensures Sort(s)[0] <= x <= Sort(s)[|s| - 1]
  {
    hide Sort;
    assert x in multiset(Sort(s));
    var i :| 0 <= i < |Sort(s)| && Sort(s)[i] == x;
  }

  /** How many elements satisfy `p`. */
  function Count(s: seq<real>, p: real -> bool): (n: nat)
    ensures n <= |s|
  {
    if s == [] then 0 else Count(s[..|s| - 1], p) + if p(s[|s| - 1]) then 1 else 0
  }

  /** Counting counts indices. */
  lemma {:induction false} CountIsCardinality(s: seq<real>, p: real -> bool)
    ensures Count(s, p) == |set i: nat | i < |s| && p(s[i])|
  {
    var all := set i: nat | i < |s| && p(s[i]);
    if s == [] {
      assert all == {};
    } else {
      CountIsCardinality(s[..|s| - 1], p);
      IndicesGrow(s, p);
    }
  }

  lemma IndicesGrow(s: seq<real>, p: real -> bool)
    requires s != []
    ensures var n := |s| - 1;
            |set i: nat | i < |s| && p(s[i])|
            == |set i: nat | i < |s[..n]| && p(s[..n][i])| + if p(s[n]) then 1 else 0
  {
    var n := |s| - 1;
    var all, init := set i: nat | i < |s| && p(s[i]), set i: nat | i < |s[..n]| && p(s[..n][i]);
    forall i: nat ensures i in all <==> i in init || (i == n && p(s[n])) {
      assert i < n ==> s[..n][i] == s[i];
    }
    if p(s[n]) {
      assert all == init + {n};
    } else {
      assert all == init;
    }
  }

  function Below(v: real): real -> bool {
    x => x < v
  }

  function AtMost(v: real): real -> bool {
    x => x <= v
  }

  lemma {:induction false} CountConcat(s: seq<real>, t: seq<real>, p: real -> bool)
    ensures Count(s + t, p) == Count(s, p) + Count(t, p)
  {
    if t == [] {
      assert s + t == s;
    } else {
      assert (s + t)[..|s + t| - 1] == s + t[..|t| - 1];
      CountConcat(s, t[..|t| - 1], p);
    }
  }

  lemma {:induction false} CountIgnoresOrder(s: seq<real>, t: seq<real>, p: real -> bool)
    requires multiset(s) == multiset(t)
    ensures Count(s, p) == Count(t, p)
  {
    assert |multiset(s)| == |multiset(t)|;
    if s != [] {
      var j := Removable(s, t);
      CountIgnoresOrder(s[..|s| - 1], t[..j] + t[j + 1..], p);
      CountAround(t[..j], t[j], t[j + 1..], p);
    }
  }

  lemma CountAround(before: seq<real>, x: real, after: seq<real>, p: real -> bool)
    ensures Count(before + [x] + after, p) == Count(before + after, p) + if p(x) then 1 else 0
  {
    assert (before + [x])[..|before|] == before;
    CountConcat(before, after, p);
    CountConcat(before + [x], after, p);
  }

  /** When exactly the first `i` elements satisfy `p`, the count is `i`. */
  lemma {:induction false} CountPrefix(s: seq<real>, p: real -> bool, i: nat)
    requires i <= |s| && (forall j :: 0 <= j < i ==> p(s[j])) && (forall j :: i <= j < |s| ==> !p(s[j]))
    ensures Count(s, p) == i
  {
    if s != [] {
      CountPrefix(s[..|s| - 1], p, if i == |s| then i - 1 else i);
    }
  }

  /** The last element of `s` also occurs in its rearrangement `t`; taking it out of both leaves
      rearrangements of each other. */
  lemma Removable<T>(s: seq<T>, t: seq<T>) returns (j: nat)
    requires s != [] && multiset(s) == multiset(t)
    ensures j < |t| && t[j] == s[|s| - 1]
    ensures t == t[..j] + [t[j]] + t[j + 1..]
    ensures multiset(s[..|s| - 1]) == multiset(t[..j] + t[j + 1..])
  {
    var x := s[|s| - 1];
    assert s == s[..|s| - 1] + [x];
    assert x in multiset(t);
    j :| 0 <= j < |t| && t[j] == x;
    assert t == t[..j] + [x] + t[j + 1..];
    assert multiset(s[..|s| - 1]) == multiset(s) - multiset{x};
    assert multiset(t[..j] + t[j + 1..]) == multiset(t) - multiset{x};
  }
}
