/** The canonical form of a JSON tree: members sorted by the collation of their keys. */
module CanonicalTree {
  import opened Wrappers
  import opened JsonText
  import opened JsonTree

  /** The collation behind `localeCompare`: keys compare as their weights do, and may tie. */
  type Collation = Text -> real

  // ----- the stable sort

  function InsertMember(sorted: seq<Member>, m: Member, w: Collation): seq<Member> {
    if sorted == [] then [m]
    else if w(sorted[0].key) <= w(m.key) then [sorted[0]] + InsertMember(sorted[1..], m, w)
    else [m] + sorted
  }

  function SortMembers(ms: seq<Member>, w: Collation): seq<Member> {
    if ms == [] then []
    else InsertMember(SortMembers(ms[..|ms| - 1], w), ms[|ms| - 1], w)
  }

  ghost predicate SortedBy(ms: seq<Member>, w: Collation) {
    forall i, j :: 0 <= i < j < |ms| ==> w(ms[i].key) <= w(ms[j].key)
  }

  lemma {:induction false} InsertPermutes(sorted: seq<Member>, m: Member, w: Collation)
    ensures multiset(InsertMember(sorted, m, w)) == multiset(sorted) + multiset{m}
  {
    if sorted != [] && w(sorted[0].key) <= w(m.key) {
      var rest := InsertMember(sorted[1..], m, w);
      InsertPermutes(sorted[1..], m, w);
      assert sorted == [sorted[0]] + sorted[1..];
      assert multiset(sorted) == multiset{sorted[0]} + multiset(sorted[1..]);
      assert multiset([sorted[0]] + rest) == multiset{sorted[0]} + multiset(rest);
    } else {
      assert multiset([m] + sorted) == multiset{m} + multiset(sorted);
    }
  }

  lemma {:induction false} InsertKeepsSorted(sorted: seq<Member>, m: Member, w: Collation)
    requires SortedBy(sorted, w)
    ensures SortedBy(InsertMember(sorted, m, w), w)
  {
    if sorted != [] && w(sorted[0].key) <= w(m.key) {
      var rest := InsertMember(sorted[1..], m, w);
      InsertKeepsSorted(sorted[1..], m, w);
      InsertedAbove(sorted[1..], m, w, w(sorted[0].key));
      LeastInFront(sorted[0], rest, w);
    }
  }

  lemma {:induction false} InsertedAbove(sorted: seq<Member>, m: Member, w: Collation, low: real)
    requires low <= w(m.key) && forall i :: 0 <= i < |sorted| ==> low <= w(sorted[i].key)
    ensures forall i :: 0 <= i < |InsertMember(sorted, m, w)| ==> low <= w(InsertMember(sorted, m, w)[i].key)
  {
    if sorted != [] && w(sorted[0].key) <= w(m.key) {
      InsertedAbove(sorted[1..], m, w, low);
    }
  }

  lemma LeastInFront(m: Member, rest: seq<Member>, w: Collation)
    requires SortedBy(rest, w) && forall i :: 0 <= i < |rest| ==> w(m.key) <= w(rest[i].key)
    ensures SortedBy([m] + rest, w)
  {
  }

  lemma {:induction false} SortPermutes(ms: seq<Member>, w: Collation)
    ensures multiset(SortMembers(ms, w)) == multiset(ms) && |SortMembers(ms, w)| == |ms|
  {
    if ms != [] {
      var n := |ms| - 1;
      SortPermutes(ms[..n], w);
      InsertPermutes(SortMembers(ms[..n], w), ms[n], w);
      assert ms == ms[..n] + [ms[n]];
    }
    assert |multiset(SortMembers(ms, w))| == |SortMembers(ms, w)|;
  }

  lemma {:induction false} SortSorts(ms: seq<Member>, w: Collation)
    ensures SortedBy(SortMembers(ms, w), w)
  {
    if ms != [] {
      SortSorts(ms[..|ms| - 1], w);
      InsertKeepsSorted(SortMembers(ms[..|ms| - 1], w), ms[|ms| - 1], w);
    }
  }

  lemma SameMembers(ms: seq<Member>, w: Collation, m: Member)
    ensures m in SortMembers(ms, w) <==> m in ms
  {
    SortPermutes(ms, w);
    assert m in multiset(SortMembers(ms, w)) <==> m in multiset(ms);
  }

  // ----- distinct keys

  lemma {:induction false} OneMemberPerKey(ms: seq<Member>, m: Member)
    requires DistinctKeys(ms) && m in ms
    ensures multiset(ms)[m] == 1
  {
    assert ms == [ms[0]] + ms[1..];
    if m in ms[1..] {
      var i :| 0 <= i < |ms| - 1 && ms[1..][i] == m;
      assert ms[i + 1] == m;
      assert ms[0].key != ms[i + 1].key;
      assert DistinctKeys(ms[1..]);
      OneMemberPerKey(ms[1..], m);
    }
  }

  lemma {:induction false} DistinctByCount(ms: seq<Member>, ns: seq<Member>)
    requires DistinctKeys(ms) && multiset(ns) == multiset(ms)
    ensures DistinctKeys(ns)
  {
    forall i, j | 0 <= i < j < |ns| ensures ns[i].key != ns[j].key {
      assert ns[i] in multiset(ms) && ns[j] in multiset(ms);
      OneMemberPerKey(ms, ns[i]);
      assert ns == ns[..i] + [ns[i]] + ns[i + 1..];
      assert multiset(ns) == multiset(ns[..i]) + multiset{ns[i]} + multiset(ns[i + 1..]);
      assert ns[j] in ns[i + 1..];
      assert ns[j] != ns[i];
      var p :| 0 <= p < |ms| && ms[p] == ns[i];
      var q :| 0 <= q < |ms| && ms[q] == ns[j];
    }
  }

  /** Members without a repeated key that all occur in as many others are those others. */
  lemma {:induction false} CoversAll(ms: seq<Member>, ns: seq<Member>)
    requires DistinctKeys(ms) && |ms| == |ns| && forall m :: m in ms ==> m in ns
    ensures multiset(ms) == multiset(ns)
    decreases |ms|
  {
    if ms == [] {
      assert ns == [];
    } else {
      var m, rest := ms[0], ms[1..];
      assert m in ms;
      var k :| 0 <= k < |ns| && ns[k] == m;
      var others := ns[..k] + ns[k + 1..];
      assert ns == ns[..k] + [m] + ns[k + 1..];
      assert multiset(ns) == multiset(others) + multiset{m};
      assert ms == [m] + rest;
      forall x | x in rest ensures x in others {
        var i :| 0 <= i < |rest| && rest[i] == x;
        assert ms[i + 1] == x && ms[0].key != ms[i + 1].key;
        assert x in ns;
      }
      CoversAll(rest, others);
    }
  }

  // ----- one canonical order

  /** No two keys tie. */
  ghost predicate TotalOrder(w: Collation) {
    forall a: Text, b: Text :: w(a) == w(b) ==> a == b
  }

  lemma {:induction false} SortedUnique(a: seq<Member>, b: seq<Member>, w: Collation)
    requires TotalOrder(w) && SortedBy(a, w) && SortedBy(b, w) && DistinctKeys(a)
    requires multiset(a) == multiset(b)
    ensures a == b
    decreases |a|
  {
    hide TotalOrder, SortedBy, DistinctKeys;
    assert |multiset(a)| == |a| && |multiset(b)| == |b|;
    if a != [] {
      SameFirst(a, b, w);
      WithoutFirst(a);
      WithoutFirst(b);
      RestSorted(a, w);
      RestSorted(b, w);
      RestDistinct(a);
      SortedUnique(a[1..], b[1..], w);
      assert a == [a[0]] + a[1..] && b == [b[0]] + b[1..];
    }
  }

  lemma RestSorted(ms: seq<Member>, w: Collation)
    requires ms != [] && SortedBy(ms, w)
    ensures SortedBy(ms[1..], w)
  {
  }

  lemma RestDistinct(ms: seq<Member>)
    requires ms != [] && DistinctKeys(ms)
    ensures DistinctKeys(ms[1..])
  {
  }

  lemma WithoutFirst(ms: seq<Member>)
    requires ms != []
    ensures multiset(ms[1..]) == multiset(ms) - multiset{ms[0]}
  {
    assert ms == [ms[0]] + ms[1..];
  }

  lemma SameFirst(a: seq<Member>, b: seq<Member>, w: Collation)
    requires TotalOrder(w) && SortedBy(a, w) && SortedBy(b, w) && DistinctKeys(a)
    requires a != [] && b != [] && multiset(a) == multiset(b)
    ensures a[0] == b[0]
  {
    assert a[0] in multiset(b) && b[0] in multiset(a);
    var i :| 0 <= i < |b| && b[i] == a[0];
    var j :| 0 <= j < |a| && a[j] == b[0];
    assert w(a[0].key) <= w(a[j].key) && w(b[0].key) <= w(b[i].key);
    assert a[0].key == a[j].key;
  }

  // ----- the canonical tree

  function Canon(v: Json, w: Collation): Json
    decreases v
  {
    match v
    case Array(items) => Array(seq(|items|, i requires 0 <= i < |items| => Canon(items[i], w)))
    case Object(ms) =>
      Object(SortMembers(seq(|ms|, i requires 0 <= i < |ms| => Member(ms[i].key, Canon(ms[i].value, w))), w))
    case _ => v
  }

  /** Members with canonical values, still in their own order. */
  function CanonMembers(ms: seq<Member>, w: Collation): (r: seq<Member>)
    ensures |r| == |ms|
    ensures forall i :: 0 <= i < |ms| ==> r[i] == Member(ms[i].key, Canon(ms[i].value, w))
  {
    seq(|ms|, i requires 0 <= i < |ms| => Member(ms[i].key, Canon(ms[i].value, w)))
  }

  lemma CanonObject(ms: seq<Member>, w: Collation)
    ensures Canon(Object(ms), w) == Object(SortMembers(CanonMembers(ms, w), w))
  {
    assert CanonMembers(ms, w) == seq(|ms|, i requires 0 <= i < |ms| => Member(ms[i].key, Canon(ms[i].value, w)));
  }

  /** Structural equality: arrays item by item, objects key by key in whatever order. */
  ghost predicate Equal(a: Json, b: Json)
    decreases a
  {
    match a
    case Array(items) => b.Array? && |items| == |b.items|
                         && forall i :: 0 <= i < |items| ==> Equal(items[i], b.items[i])
    case Object(ms) => b.Object? && |ms| == |b.members|
                       && forall i :: 0 <= i < |ms| ==>
                            exists j :: 0 <= j < |b.members| && ms[i].key == b.members[j].key
                                        && Equal(ms[i].value, b.members[j].value)
    case _ => a == b
  }

  lemma {:induction false} CanonIsJson(v: Json, w: Collation)
    requires IsJson(v)
    ensures IsJson(Canon(v, w))
    decreases v
  {
    match v {
      case Array(items) =>
        forall i | 0 <= i < |items| ensures IsJson(Canon(items[i], w)) {
          CanonIsJson(items[i], w);
        }
      case Object(ms) =>
        CanonObject(ms, w);
        var all := CanonMembers(ms, w);
        forall i | 0 <= i < |ms| ensures IsJson(all[i].value) {
          CanonIsJson(ms[i].value, w);
        }
        SortPermutes(all, w);
        DistinctByCount(all, SortMembers(all, w));
        forall i | 0 <= i < |ms| ensures IsJson(SortMembers(all, w)[i].value) {
          SameMembers(all, w, SortMembers(all, w)[i]);
        }
      case _ =>
    }
  }

  /** Trees with the same canonical form are structurally equal, ties or not. */
  lemma {:induction false} SameCanonIsEqual(a: Json, b: Json, w: Collation)
    requires IsJson(a) && IsJson(b) && Canon(a, w) == Canon(b, w)
    ensures Equal(a, b)
    decreases a
  {
    match a {
      case Array(items) =>
        forall i | 0 <= i < |items| ensures Equal(items[i], b.items[i]) {
          assert Canon(a, w).items[i] == Canon(b, w).items[i];
          SameCanonIsEqual(items[i], b.items[i], w);
        }
      case Object(ms) =>
        SameSize(ms, b.members, w);
        forall i | 0 <= i < |ms|
          ensures exists j :: 0 <= j < |b.members| && ms[i].key == b.members[j].key
                              && Equal(ms[i].value, b.members[j].value)
        {
          var j := Counterpart(ms, b.members, i, w);
          SameCanonIsEqual(ms[i].value, b.members[j].value, w);
        }
      case _ =>
    }
  }

  lemma SameSize(ms: seq<Member>, ns: seq<Member>, w: Collation)
    requires Canon(Object(ms), w) == Canon(Object(ns), w)
    ensures multiset(CanonMembers(ms, w)) == multiset(CanonMembers(ns, w)) && |ms| == |ns|
  {
    hide Canon, SortMembers;
    CanonObject(ms, w);
    CanonObject(ns, w);
    SortPermutes(CanonMembers(ms, w), w);
    SortPermutes(CanonMembers(ns, w), w);
  }

  /** The member of the other object that has the same key and the same canonical value. */
  lemma Counterpart(ms: seq<Member>, ns: seq<Member>, i: nat, w: Collation) returns (j: nat)
    requires i < |ms| && Canon(Object(ms), w) == Canon(Object(ns), w)
    ensures j < |ns| && ms[i].key == ns[j].key && Canon(ms[i].value, w) == Canon(ns[j].value, w)
  {
    hide Canon;
    SameSize(ms, ns, w);
    var x, y := CanonMembers(ms, w), CanonMembers(ns, w);
    assert x[i] in multiset(y);
    j :| 0 <= j < |y| && y[j] == x[i];
  }

  /** When no keys tie, structurally equal trees have one canonical form. */
  lemma {:induction false} EqualHaveSameCanon(a: Json, b: Json, w: Collation)
    requires TotalOrder(w) && IsJson(a) && IsJson(b) && Equal(a, b)
    ensures Canon(a, w) == Canon(b, w)
    decreases a
  {
    hide Canon, TotalOrder, DistinctKeys;
    match a {
      case Array(items) =>
        forall i | 0 <= i < |items| ensures Canon(items[i], w) == Canon(b.items[i], w) {
          EqualHaveSameCanon(items[i], b.items[i], w);
        }
        SameArrays(items, b.items, w);
      case Object(ms) =>
        forall i | 0 <= i < |ms| ensures HasCounterpart(ms[i], b.members, w) {
          var j :| 0 <= j < |b.members| && ms[i].key == b.members[j].key && Equal(ms[i].value, b.members[j].value);
          EqualHaveSameCanon(ms[i].value, b.members[j].value, w);
        }
        SameObjects(ms, b.members, w);
      case _ =>
    }
  }

  lemma SameArrays(a: seq<Json>, b: seq<Json>, w: Collation)
    requires |a| == |b| && forall i :: 0 <= i < |a| ==> Canon(a[i], w) == Canon(b[i], w)
    ensures Canon(Array(a), w) == Canon(Array(b), w)
  {
    assert Canon(Array(a), w).items == Canon(Array(b), w).items;
  }

  /** A member with the same key and the same canonical value. */
  ghost predicate HasCounterpart(m: Member, ns: seq<Member>, w: Collation) {
    exists j :: 0 <= j < |ns| && m.key == ns[j].key && Canon(m.value, w) == Canon(ns[j].value, w)
  }

  lemma SameObjects(ms: seq<Member>, ns: seq<Member>, w: Collation)
    requires TotalOrder(w) && DistinctKeys(ms) && |ms| == |ns|
    requires forall i :: 0 <= i < |ms| ==> HasCounterpart(ms[i], ns, w)
    ensures Canon(Object(ms), w) == Canon(Object(ns), w)
  {
    hide Canon, TotalOrder;
    CanonObject(ms, w);
    CanonObject(ns, w);
    var x, y := CanonMembers(ms, w), CanonMembers(ns, w);
    forall i | 0 <= i < |x| ensures x[i] in y {
      assert HasCounterpart(ms[i], ns, w);
      var j :| 0 <= j < |ns| && ms[i].key == ns[j].key && Canon(ms[i].value, w) == Canon(ns[j].value, w);
      assert y[j] == x[i];
    }
    SameSorted(x, y, w);
  }

  lemma SameSorted(x: seq<Member>, y: seq<Member>, w: Collation)
    requires TotalOrder(w) && DistinctKeys(x) && |x| == |y| && forall m :: m in x ==> m in y
    ensures SortMembers(x, w) == SortMembers(y, w)
  {
    CoversAll(x, y);
    SortPermutes(x, w);
    SortPermutes(y, w);
    SortSorts(x, w);
    SortSorts(y, w);
    DistinctByCount(x, SortMembers(x, w));
    SortedUnique(SortMembers(x, w), SortMembers(y, w), w);
  }

  // ----- canonical text

  function Render(v: Json, w: Collation): Text {
    Print(Canon(v, w))
  }

  /** The text determines the tree: equal texts mean structurally equal trees, ties or not. */
  lemma RenderInjective(a: Json, b: Json, w: Collation)
    requires IsJson(a) && IsJson(b) && Render(a, w) == Render(b, w)
    ensures Equal(a, b)
  {
    hide Print, Canon, Equal, IsJson;
    CanonIsJson(a, w);
    CanonIsJson(b, w);
    PrintInjective(Canon(a, w), Canon(b, w));
    SameCanonIsEqual(a, b, w);
  }

  /** Two objects that differ only in the order of two tied keys. */
  lemma TieBreaksByInsertion(k: Text, l: Text, w: Collation)
    requires k != l && w(k) == w(l)
    ensures var a, b := Object([Member(k, Null), Member(l, Null)]), Object([Member(l, Null), Member(k, Null)]);
            IsJson(a) && IsJson(b) && Equal(a, b) && Render(a, w) != Render(b, w)
  {
    var p, q := Member(k, Null), Member(l, Null);
    var a, b := Object([p, q]), Object([q, p]);
    SortPair(p, q, w);
    SortPair(q, p, w);
    assert CanonMembers([p, q], w) == [p, q] && CanonMembers([q, p], w) == [q, p];
    CanonObject([p, q], w);
    CanonObject([q, p], w);
    assert a.members[0] == b.members[1] && a.members[1] == b.members[0];
    assert a.members[0] != b.members[0];
    if Print(a) == Print(b) {
      PrintInjective(a, b);
    }
  }

  lemma SortPair(p: Member, q: Member, w: Collation)
    requires w(p.key) == w(q.key)
    ensures SortMembers([p, q], w) == [p, q]
  {
    assert [p, q][..1] == [p] && [p][..0] == [] && [p][1..] == [];
    assert SortMembers([p], w) == InsertMember([], p, w) == [p];
    assert SortMembers([p, q], w) == InsertMember([p], q, w) == [p] + InsertMember([], q, w);
  }

  /** Insertion order never shows in the text exactly when the collation never ties two keys. */
  lemma OrderIgnoredIffTotal(w: Collation)
    ensures TotalOrder(w)
            <==> forall a: Json, b: Json :: IsJson(a) && IsJson(b) && Equal(a, b) ==> Render(a, w) == Render(b, w)
  {
    if TotalOrder(w) {
      forall a: Json, b: Json | IsJson(a) && IsJson(b) && Equal(a, b) ensures Render(a, w) == Render(b, w) {
        EqualHaveSameCanon(a, b, w);
      }
    } else {
      var k, l :| w(k) == w(l) && k != l;
      TieBreaksByInsertion(k, l, w);
      var a, b := Object([Member(k, Null), Member(l, Null)]), Object([Member(l, Null), Member(k, Null)]);
      assert IsJson(a) && IsJson(b) && Equal(a, b) && Render(a, w) != Render(b, w);
    }
  }

  // ----- canonical form is stable

  lemma {:induction false} InsertLast(sorted: seq<Member>, m: Member, w: Collation)
    requires forall i :: 0 <= i < |sorted| ==> w(sorted[i].key) <= w(m.key)
    ensures InsertMember(sorted, m, w) == sorted + [m]
  {
    if sorted != [] {
      InsertLast(sorted[1..], m, w);
      assert sorted == [sorted[0]] + sorted[1..];
    }
  }

  lemma {:induction false} SortOfSorted(ms: seq<Member>, w: Collation)
    requires SortedBy(ms, w)
    ensures SortMembers(ms, w) == ms
  {
    if ms != [] {
      var n := |ms| - 1;
      SortOfSorted(ms[..n], w);
      InsertLast(ms[..n], ms[n], w);
      assert ms == ms[..n] + [ms[n]];
    }
  }

  lemma {:induction false} CanonTwice(v: Json, w: Collation)
    ensures Canon(Canon(v, w), w) == Canon(v, w)
    decreases v
  {
    match v {
      case Array(items) =>
        forall i | 0 <= i < |items| ensures Canon(Canon(items[i], w), w) == Canon(items[i], w) {
          CanonTwice(items[i], w);
        }
        assert Canon(Canon(v, w), w).items == Canon(v, w).items;
      case Object(ms) =>
        CanonObject(ms, w);
        var all := CanonMembers(ms, w);
        var sorted := SortMembers(all, w);
        CanonObject(sorted, w);
        SortSorts(all, w);
        SortPermutes(all, w);
        forall i | 0 <= i < |sorted| ensures CanonMembers(sorted, w)[i] == sorted[i] {
          SameMembers(all, w, sorted[i]);
          var j :| 0 <= j < |all| && all[j] == sorted[i];
          CanonTwice(ms[j].value, w);
        }
        assert CanonMembers(sorted, w) == sorted;
        SortOfSorted(sorted, w);
      case _ =>
    }
  }

  /** Canonical text is a fixed point: it reads back as the canonical tree, whose text it is. */
  lemma CanonicalTextIsStable(v: Json, w: Collation)
    requires IsJson(v)
    ensures Parse(Render(v, w)) == Some(Read(Canon(v, w), []))
    ensures Render(Canon(v, w), w) == Render(v, w)
  {
    hide Print, Parse, Canon, IsJson;
    CanonIsJson(v, w);
    PrintRoundTrip(Canon(v, w), []);
    assert Print(Canon(v, w)) + [] == Print(Canon(v, w));
    CanonTwice(v, w);
  }
}
