/** The canonical JSON printer: a recursive visitor that counts nodes and bytes as it goes and gives up
    at the first limit it exceeds. */
module CanonicalJson {
  import opened Wrappers
  import opened JsonText
  import opened JsonTree
  import opened CanonicalTree

  datatype Limits = Limits(
    maxBytes: int, maxDepth: int, maxNodes: int, maxArrayLength: int, maxObjectKeys: int, maxStringLength: int,
    maxKeyLength: int)

  const PROVIDER_RESPONSE_LIMITS: Limits := Limits(64 * 1024, 16, 4096, 1024, 1024, 8192, 256)

  datatype Error =
    | NodeLimit | TooDeep | NonFiniteNumber | StringTooLong | NotJson | ArrayTooLong | TooManyKeys | KeyTooLong
    | ByteLimit | NotContainer

  // ----- what a tree costs

  function Nodes(v: Json): nat
    decreases v
  {
    match v
    case Array(items) => 1 + ItemNodes(items)
    case Object(ms) => 1 + MemberNodes(ms)
    case _ => 1
  }

  function ItemNodes(items: seq<Json>): nat
    decreases items
  {
    if items == [] then 0 else Nodes(items[0]) + ItemNodes(items[1..])
  }

  function NodesOf(m: Member): nat
    decreases m
  {
    Nodes(m.value)
  }

  function MemberNodes(ms: seq<Member>): nat
    decreases ms
  {
    if ms == [] then 0 else NodesOf(ms[0]) + MemberNodes(ms[1..])
  }

  /** Every shape limit holds, at every depth. */
  ghost predicate Admissible(v: Json, depth: int, lim: Limits)
    decreases v
  {
    depth <= lim.maxDepth
    && match v
       case String(s) => |s| <= lim.maxStringLength
       case Array(items) =>
         |items| <= lim.maxArrayLength && forall i :: 0 <= i < |items| ==> Admissible(items[i], depth + 1, lim)
       case Object(ms) =>
         |ms| <= lim.maxObjectKeys
         && forall i :: 0 <= i < |ms| ==>
              |ms[i].key| <= lim.maxKeyLength && Admissible(ms[i].value, depth + 1, lim)
       case NonFinite => false
       case Foreign => false
       case _ => true
  }

  ghost predicate AdmissibleMember(m: Member, depth: int, lim: Limits) {
    |m.key| <= lim.maxKeyLength && Admissible(m.value, depth, lim)
  }

  /** The UTF-8 length of a value's canonical text. */
  function Size(v: Json, w: Collation): nat {
    Utf8Len(Render(v, w))
  }

  function ItemSizes(items: seq<Json>, w: Collation): nat {
    if items == [] then 0 else Size(items[0], w) + ItemSizes(items[1..], w)
  }

  function KeySize(m: Member): nat {
    Utf8Len(Quote(m.key) + [COLON])
  }

  function MemberSizes(ms: seq<Member>, w: Collation): nat {
    if ms == [] then 0 else KeySize(ms[0]) + Size(ms[0].value, w) + MemberSizes(ms[1..], w)
  }

  /** Brackets and commas around `n` parts. */
  function FrameSize(n: nat): nat {
    if n == 0 then 2 else n + 1
  }

  // ----- what the measures mean

  /** A node for every value: leaves count one, containers one more than their parts together. */
  lemma NodesInCases(v: Json, items: seq<Json>, ms: seq<Member>, k: Text)
    requires !v.Array? && !v.Object?
    ensures Nodes(v) == 1 && Nodes(Array([])) == 1 && Nodes(Object([])) == 1
    ensures Nodes(Array([v] + items)) == 1 + Nodes(Array(items))
    ensures Nodes(Array([Array(items)] + items)) == Nodes(Array(items)) + Nodes(Array(items))
    ensures Nodes(Object([Member(k, Object(ms))] + ms)) == Nodes(Object(ms)) + Nodes(Object(ms))
  {
    assert ([v] + items)[1..] == items && ([Array(items)] + items)[1..] == items;
    var m := Member(k, Object(ms));
    assert ([m] + ms)[1..] == ms && NodesOf(m) == Nodes(Object(ms));
    assert MemberNodes([m] + ms) == NodesOf(m) + MemberNodes(ms);
  }

  /** `part` stands `d` levels below the top of `v`. */
  ghost predicate StandsAt(v: Json, part: Json, d: nat)
    decreases v
  {
    if d == 0 then v == part
    else match v
      case Array(items) => exists i :: 0 <= i < |items| && StandsAt(items[i], part, d - 1)
      case Object(ms) => exists i :: 0 <= i < |ms| && StandsAt(ms[i].value, part, d - 1)
      case _ => false
  }

  /** What the limits ask of one value, its parts aside. */
  ghost predicate FitsAlone(v: Json, lim: Limits) {
    !v.NonFinite? && !v.Foreign?
    && (v.String? ==> |v.s| <= lim.maxStringLength)
    && (v.Array? ==> |v.items| <= lim.maxArrayLength)
    && (v.Object? ==> |v.members| <= lim.maxObjectKeys
                      && forall i :: 0 <= i < |v.members| ==> |v.members[i].key| <= lim.maxKeyLength)
  }

  ghost predicate FitsBelow(v: Json, depth: int, lim: Limits) {
    forall part: Json, d: nat :: StandsAt(v, part, d) ==> depth + d <= lim.maxDepth && FitsAlone(part, lim)
  }

  lemma {:induction false} AdmissibleBelow(v: Json, depth: int, lim: Limits, part: Json, d: nat)
    requires Admissible(v, depth, lim) && StandsAt(v, part, d)
    ensures depth + d <= lim.maxDepth && FitsAlone(part, lim)
    decreases v
  {
    if d > 0 {
      match v {
        case Array(items) =>
          var i :| 0 <= i < |items| && StandsAt(items[i], part, d - 1);
          AdmissibleBelow(items[i], depth + 1, lim, part, d - 1);
        case Object(ms) =>
          var i :| 0 <= i < |ms| && StandsAt(ms[i].value, part, d - 1);
          AdmissibleBelow(ms[i].value, depth + 1, lim, part, d - 1);
      }
    }
  }

  /** A value is admissible exactly when every value in it fits by itself and none stands too deep. */
  lemma {:induction false} AdmissibleIffAllFit(v: Json, depth: int, lim: Limits)
    ensures Admissible(v, depth, lim) <==> FitsBelow(v, depth, lim)
    decreases v
  {
    if Admissible(v, depth, lim) {
      forall part: Json, d: nat | StandsAt(v, part, d) ensures depth + d <= lim.maxDepth && FitsAlone(part, lim) {
        AdmissibleBelow(v, depth, lim, part, d);
      }
    }
    if FitsBelow(v, depth, lim) {
      assert StandsAt(v, v, 0);
      match v {
        case Array(items) =>
          forall i | 0 <= i < |items| ensures Admissible(items[i], depth + 1, lim) {
            PartsFit(v, items[i], depth, lim);
            AdmissibleIffAllFit(items[i], depth + 1, lim);
          }
        case Object(ms) =>
          forall i | 0 <= i < |ms| ensures Admissible(ms[i].value, depth + 1, lim) {
            PartsFit(v, ms[i].value, depth, lim);
            AdmissibleIffAllFit(ms[i].value, depth + 1, lim);
          }
        case _ =>
      }
    }
  }

  lemma PartsFit(v: Json, child: Json, depth: int, lim: Limits)
    requires FitsBelow(v, depth, lim)
    requires (v.Array? && child in v.items)
          || (v.Object? && exists i :: 0 <= i < |v.members| && v.members[i].value == child)
    ensures FitsBelow(child, depth + 1, lim)
  {
    forall part: Json, d: nat | StandsAt(child, part, d)
      ensures depth + 1 + d <= lim.maxDepth && FitsAlone(part, lim)
    {
      assert StandsAt(v, part, d + 1);
    }
  }

  /** Visiting `v` from these counters stays within every limit. */
  ghost predicate Accepts(v: Json, depth: int, lim: Limits, w: Collation, nodes: int, bytes: int) {
    Admissible(v, depth, lim) && nodes + Nodes(v) <= lim.maxNodes && bytes + Size(v, w) <= lim.maxBytes
  }

  ghost predicate AcceptsItems(items: seq<Json>, depth: int, lim: Limits, w: Collation, nodes: int, bytes: int) {
    (forall i :: 0 <= i < |items| ==> Admissible(items[i], depth, lim))
    && nodes + ItemNodes(items) <= lim.maxNodes && bytes + ItemSizes(items, w) <= lim.maxBytes
  }

  ghost predicate AcceptsMembers(ms: seq<Member>, depth: int, lim: Limits, w: Collation, nodes: int, bytes: int) {
    (forall i :: 0 <= i < |ms| ==> AdmissibleMember(ms[i], depth, lim))
    && nodes + MemberNodes(ms) <= lim.maxNodes && bytes + MemberSizes(ms, w) <= lim.maxBytes
  }

  // ----- text and sizes of containers

  function Joined(parts: seq<Text>): Text {
    if parts == [] then [] else parts[0] + (if |parts| == 1 then [] else [COMMA] + Joined(parts[1..]))
  }

  function ItemTexts(items: seq<Json>, w: Collation): seq<Text> {
    if items == [] then [] else [Render(items[0], w)] + ItemTexts(items[1..], w)
  }

  function MemberText(m: Member, w: Collation): Text {
    Quote(m.key) + [COLON] + Render(m.value, w)
  }

  function MemberTexts(ms: seq<Member>, w: Collation): seq<Text> {
    if ms == [] then [] else [MemberText(ms[0], w)] + MemberTexts(ms[1..], w)
  }

  function CanonItems(items: seq<Json>, w: Collation): (r: seq<Json>)
    ensures |r| == |items| && forall i :: 0 <= i < |items| ==> r[i] == Canon(items[i], w)
  {
    seq(|items|, i requires 0 <= i < |items| => Canon(items[i], w))
  }

  lemma {:induction false} PrintsItems(items: seq<Json>, w: Collation)
    ensures PrintItems(CanonItems(items, w)) == Joined(ItemTexts(items, w))
    ensures |ItemTexts(items, w)| == |items|
  {
    hide Print, Canon;
    if items != [] {
      PrintsItems(items[1..], w);
      assert CanonItems(items, w)[1..] == CanonItems(items[1..], w);
      assert ItemTexts(items, w)[1..] == ItemTexts(items[1..], w);
    }
  }

  lemma RenderArray(items: seq<Json>, w: Collation)
    ensures Render(Array(items), w) == [OPEN_ARRAY] + Joined(ItemTexts(items, w)) + [CLOSE_ARRAY]
  {
    PrintsItems(items, w);
    assert Canon(Array(items), w).items == CanonItems(items, w);
  }

  lemma {:induction false} PrintsMembers(ms: seq<Member>, w: Collation)
    ensures PrintMembers(CanonMembers(ms, w)) == Joined(MemberTexts(ms, w))
    ensures |MemberTexts(ms, w)| == |ms|
  {
    hide Print, Canon, Quote;
    if ms != [] {
      PrintsMembers(ms[1..], w);
      assert CanonMembers(ms, w)[1..] == CanonMembers(ms[1..], w);
      assert MemberTexts(ms, w)[1..] == MemberTexts(ms[1..], w);
      assert PrintMember(CanonMembers(ms, w)[0]) == MemberText(ms[0], w);
    }
  }

  lemma {:induction false} InsertCommutes(sorted: seq<Member>, m: Member, w: Collation)
    ensures CanonMembers(InsertMember(sorted, m, w), w)
            == InsertMember(CanonMembers(sorted, w), Member(m.key, Canon(m.value, w)), w)
  {
    hide Canon, CanonMembers;
    var done := Member(m.key, Canon(m.value, w));
    CanonOfOne(m, w);
    if sorted == [] {
      CanonMembersConcat([], [], w);
    } else {
      var first, rest := sorted[0], sorted[1..];
      assert sorted == [first] + rest;
      CanonOfOne(first, w);
      CanonMembersConcat([first], rest, w);
      InsertCommutes(rest, m, w);
      CanonMembersConcat([first], InsertMember(rest, m, w), w);
      CanonMembersConcat([m], sorted, w);
      assert CanonMembers(sorted, w)[1..] == CanonMembers(rest, w);
    }
  }

  lemma CanonOfOne(m: Member, w: Collation)
    ensures CanonMembers([m], w) == [Member(m.key, Canon(m.value, w))]
  {
    hide Canon;
  }

  lemma CanonMembersConcat(a: seq<Member>, b: seq<Member>, w: Collation)
    ensures CanonMembers(a + b, w) == CanonMembers(a, w) + CanonMembers(b, w)
  {
    hide Canon;
  }

  /** Sorting keys first and visiting afterwards gives the members of the canonical tree. */
  lemma {:induction false} SortCommutes(ms: seq<Member>, w: Collation)
    ensures SortMembers(CanonMembers(ms, w), w) == CanonMembers(SortMembers(ms, w), w)
  {
    hide Canon, InsertMember;
    if ms != [] {
      var n := |ms| - 1;
      SortCommutes(ms[..n], w);
      InsertCommutes(SortMembers(ms[..n], w), ms[n], w);
      assert CanonMembers(ms, w)[..n] == CanonMembers(ms[..n], w);
    }
  }

  lemma RenderObject(ms: seq<Member>, w: Collation)
    ensures Render(Object(ms), w) == [OPEN_OBJECT] + Joined(MemberTexts(SortMembers(ms, w), w)) + [CLOSE_OBJECT]
  {
    hide Canon, CanonMembers, SortMembers, MemberTexts;
    CanonObject(ms, w);
    SortCommutes(ms, w);
    PrintsMembers(SortMembers(ms, w), w);
  }

  /** A text that no cut in front of it can split: it starts with no low surrogate. */
  predicate Solid(t: Text) {
    t != [] && !Low(t[0])
  }

  function TextSizes(parts: seq<Text>): nat {
    if parts == [] then 0 else Utf8Len(parts[0]) + TextSizes(parts[1..])
  }

  lemma {:induction false} JoinedSize(parts: seq<Text>)
    requires forall i :: 0 <= i < |parts| ==> Solid(parts[i])
    ensures Utf8Len(Joined(parts)) == TextSizes(parts) + (if parts == [] then 0 else |parts| - 1)
    ensures parts != [] ==> Solid(Joined(parts))
  {
    hide Utf8Len;
    if parts == [] {
      AsciiLen([]);
    } else if |parts| == 1 {
      assert Joined(parts) == parts[0] && parts[1..] == [];
    } else {
      JoinedSize(parts[1..]);
      var rest := Joined(parts[1..]);
      Utf8Concat(parts[0], [COMMA] + rest);
      Utf8Concat([COMMA], rest);
      AsciiLen([COMMA]);
    }
  }

  lemma FramedSize(open: Unit, parts: seq<Text>, close: Unit)
    requires open < 0x80 && close < 0x80 && forall i :: 0 <= i < |parts| ==> Solid(parts[i])
    ensures Utf8Len([open] + Joined(parts) + [close]) == FrameSize(|parts|) + TextSizes(parts)
  {
    hide Utf8Len, Joined;
    JoinedSize(parts);
    var body := Joined(parts);
    AsciiLen([open]);
    AsciiLen([close]);
    Utf8Concat([open] + body, [close]);
    if parts == [] {
      EmptyJoin();
      assert [open] + body == [open];
    } else {
      Utf8Concat([open], body);
    }
  }

  lemma EmptyJoin()
    ensures Joined([]) == []
  {
  }

  lemma PrintIsSolid(v: Json)
    requires !v.NonFinite? && !v.Foreign?
    ensures Solid(Print(v))
  {
    if v.Number? {
      NumeralUnits(v.numeral);
    }
  }

  lemma RenderIsSolid(v: Json, w: Collation)
    requires !v.NonFinite? && !v.Foreign?
    ensures Solid(Render(v, w))
  {
    hide Print;
    PrintIsSolid(Canon(v, w));
  }

  ghost predicate AllPrintable(items: seq<Json>) {
    forall i :: 0 <= i < |items| ==> !items[i].NonFinite? && !items[i].Foreign?
  }

  lemma {:induction false} ItemTextSizes(items: seq<Json>, w: Collation)
    requires AllPrintable(items)
    ensures TextSizes(ItemTexts(items, w)) == ItemSizes(items, w)
    ensures |ItemTexts(items, w)| == |items|
    ensures forall i :: 0 <= i < |items| ==> Solid(ItemTexts(items, w)[i])
  {
    hide Render, Solid, Utf8Len;
    if items != [] {
      ItemTextSizes(items[1..], w);
      RenderIsSolid(items[0], w);
      assert ItemTexts(items, w)[1..] == ItemTexts(items[1..], w);
    }
  }

  ghost predicate AllPrintableValues(ms: seq<Member>) {
    forall i :: 0 <= i < |ms| ==> !ms[i].value.NonFinite? && !ms[i].value.Foreign?
  }

  lemma MemberTextSize(m: Member, w: Collation)
    requires !m.value.NonFinite? && !m.value.Foreign?
    ensures Utf8Len(MemberText(m, w)) == KeySize(m) + Size(m.value, w) && Solid(MemberText(m, w))
  {
    hide Render, Utf8Len;
    RenderIsSolid(m.value, w);
    Utf8Concat(Quote(m.key) + [COLON], Render(m.value, w));
  }

  lemma {:induction false} MemberTextSizes(ms: seq<Member>, w: Collation)
    requires AllPrintableValues(ms)
    ensures TextSizes(MemberTexts(ms, w)) == MemberSizes(ms, w)
    ensures |MemberTexts(ms, w)| == |ms|
    ensures forall i :: 0 <= i < |ms| ==> Solid(MemberTexts(ms, w)[i])
  {
    hide MemberText, Solid, Utf8Len, KeySize, Size;
    if ms != [] {
      MemberTextSizes(ms[1..], w);
      MemberTextSize(ms[0], w);
      assert MemberTexts(ms, w)[1..] == MemberTexts(ms[1..], w);
    }
  }

  lemma ArraySize(items: seq<Json>, w: Collation)
    requires AllPrintable(items)
    ensures Size(Array(items), w) == FrameSize(|items|) + ItemSizes(items, w)
  {
    hide Utf8Len, ItemTexts, Render;
    RenderArray(items, w);
    ItemTextSizes(items, w);
    FramedSize(OPEN_ARRAY, ItemTexts(items, w), CLOSE_ARRAY);
  }

  lemma ObjectSize(ms: seq<Member>, w: Collation)
    requires AllPrintableValues(SortMembers(ms, w))
    ensures Size(Object(ms), w) == FrameSize(|ms|) + MemberSizes(SortMembers(ms, w), w)
  {
    hide Utf8Len, MemberTexts, Render, SortMembers;
    RenderObject(ms, w);
    MemberTextSizes(SortMembers(ms, w), w);
    SortPermutes(ms, w);
    FramedSize(OPEN_OBJECT, MemberTexts(SortMembers(ms, w), w), CLOSE_OBJECT);
  }

  lemma {:induction false} InsertNodes(sorted: seq<Member>, m: Member, w: Collation)
    ensures MemberNodes(InsertMember(sorted, m, w)) == MemberNodes(sorted) + NodesOf(m)
  {
    hide NodesOf;
    if sorted != [] && w(sorted[0].key) <= w(m.key) {
      InsertNodes(sorted[1..], m, w);
      assert InsertMember(sorted, m, w)[1..] == InsertMember(sorted[1..], m, w);
    } else {
      assert ([m] + sorted)[1..] == sorted;
    }
  }

  lemma {:induction false} LastMemberNodes(ms: seq<Member>, m: Member)
    ensures MemberNodes(ms + [m]) == MemberNodes(ms) + NodesOf(m)
  {
    hide NodesOf;
    if ms == [] {
      assert ms + [m] == [m] && [m][1..] == [];
    } else {
      assert (ms + [m])[1..] == ms[1..] + [m];
      LastMemberNodes(ms[1..], m);
    }
  }

  lemma {:induction false} SortKeepsNodes(ms: seq<Member>, w: Collation)
    ensures MemberNodes(SortMembers(ms, w)) == MemberNodes(ms)
  {
    hide MemberNodes, InsertMember;
    if ms != [] {
      var n := |ms| - 1;
      SortKeepsNodes(ms[..n], w);
      InsertNodes(SortMembers(ms[..n], w), ms[n], w);
      LastMemberNodes(ms[..n], ms[n]);
      assert ms == ms[..n] + [ms[n]];
    } else {
      assert SortMembers(ms, w) == ms;
    }
  }

  // ----- acceptance, one part at a time

  lemma NextItem(items: seq<Json>, i: nat, depth: int, lim: Limits, w: Collation, nodes: int, bytes: int)
    requires i < |items|
    ensures AcceptsItems(items[i..], depth, lim, w, nodes, bytes)
            <==> Admissible(items[i], depth, lim)
                 && AcceptsItems(items[i + 1..], depth, lim, w, nodes + Nodes(items[i]), bytes + Size(items[i], w))
    ensures AcceptsItems(items[i..], depth, lim, w, nodes, bytes) ==> Accepts(items[i], depth, lim, w, nodes, bytes)
  {
    hide Admissible, Nodes, Size;
    var rest, later := items[i..], items[i + 1..];
    assert rest[1..] == later && rest[0] == items[i];
    assert forall j :: 0 <= j < |later| ==> later[j] == rest[j + 1];
    assert forall j :: 0 < j < |rest| ==> rest[j] == later[j - 1];
  }

  lemma MemberAccepts(m: Member, depth: int, lim: Limits, w: Collation, nodes: int, bytes: int)
    ensures AdmissibleMember(m, depth, lim) && nodes + Nodes(m.value) <= lim.maxNodes
            && bytes + Size(m.value, w) <= lim.maxBytes
            <==> |m.key| <= lim.maxKeyLength && Accepts(m.value, depth, lim, w, nodes, bytes)
  {
    hide Admissible, Nodes, Size;
  }

  lemma NextMember(ms: seq<Member>, i: nat, depth: int, lim: Limits, w: Collation, nodes: int, bytes: int)
    requires i < |ms|
    ensures var m := ms[i];
            AcceptsMembers(ms[i..], depth, lim, w, nodes, bytes)
            <==> AdmissibleMember(m, depth, lim)
                 && AcceptsMembers(
                      ms[i + 1..], depth, lim, w, nodes + Nodes(m.value), bytes + KeySize(m) + Size(m.value, w))
    ensures AcceptsMembers(ms[i..], depth, lim, w, nodes, bytes) ==>
              |ms[i].key| <= lim.maxKeyLength && bytes + KeySize(ms[i]) <= lim.maxBytes
              && Accepts(ms[i].value, depth, lim, w, nodes, bytes + KeySize(ms[i]))
  {
    hide Admissible, Nodes, Size, KeySize, AdmissibleMember, MemberNodes, MemberSizes;
    MemberAccepts(ms[i], depth, lim, w, nodes, bytes + KeySize(ms[i]));
    FirstMember(ms, i, w);
    var rest, later := ms[i..], ms[i + 1..];
    assert rest[0] == ms[i];
    assert forall j :: 0 <= j < |later| ==> later[j] == rest[j + 1];
    if AcceptsMembers(rest, depth, lim, w, nodes, bytes) {
      forall j | 0 <= j < |later| ensures AdmissibleMember(later[j], depth, lim) {
        assert AdmissibleMember(rest[j + 1], depth, lim);
      }
    }
    forall j | 0 < j < |rest| ensures rest[j] == later[j - 1] {
    }
  }

  lemma AcceptsArray(items: seq<Json>, depth: int, lim: Limits, w: Collation, nodes: int, bytes: int)
    ensures Accepts(Array(items), depth, lim, w, nodes, bytes)
            <==> nodes + 1 <= lim.maxNodes && depth <= lim.maxDepth && |items| <= lim.maxArrayLength
                 && bytes + FrameSize(|items|) <= lim.maxBytes
                 && AcceptsItems(items, depth + 1, lim, w, nodes + 1, bytes + FrameSize(|items|))
  {
    hide Size, ItemSizes, ItemNodes;
    if forall i :: 0 <= i < |items| ==> Admissible(items[i], depth + 1, lim) {
      ArraySize(items, w);
    }
  }

  lemma SortedAdmissible(ms: seq<Member>, depth: int, lim: Limits, w: Collation)
    ensures (forall i :: 0 <= i < |ms| ==> AdmissibleMember(ms[i], depth, lim))
            <==> forall i :: 0 <= i < |ms| && i < |SortMembers(ms, w)| ==>
                   AdmissibleMember(SortMembers(ms, w)[i], depth, lim)
  {
    hide AdmissibleMember, SortMembers;
    var sorted := SortMembers(ms, w);
    SortPermutes(ms, w);
    forall i | 0 <= i < |ms| ensures ms[i] in sorted && sorted[i] in ms {
      SameMembers(ms, w, ms[i]);
      SameMembers(ms, w, sorted[i]);
    }
  }

  lemma AcceptsObject(ms: seq<Member>, depth: int, lim: Limits, w: Collation, nodes: int, bytes: int)
    ensures Accepts(Object(ms), depth, lim, w, nodes, bytes)
            <==> nodes + 1 <= lim.maxNodes && depth <= lim.maxDepth && |ms| <= lim.maxObjectKeys
                 && bytes + FrameSize(|ms|) <= lim.maxBytes
                 && AcceptsMembers(SortMembers(ms, w), depth + 1, lim, w, nodes + 1, bytes + FrameSize(|ms|))
  {
    hide Size, MemberSizes, MemberNodes, SortMembers;
    var sorted := SortMembers(ms, w);
    SortedAdmissible(ms, depth + 1, lim, w);
    SortPermutes(ms, w);
    SortKeepsNodes(ms, w);
    assert (forall i :: 0 <= i < |ms| ==> |ms[i].key| <= lim.maxKeyLength && Admissible(ms[i].value, depth + 1, lim))
      <==> forall i :: 0 <= i < |ms| ==> AdmissibleMember(ms[i], depth + 1, lim);
    if forall i :: 0 <= i < |ms| ==> AdmissibleMember(sorted[i], depth + 1, lim) {
      ObjectSize(ms, w);
    }
  }

  function Commas(n: nat): (t: Text)
    ensures |t| == n && forall i :: 0 <= i < n ==> t[i] == COMMA
  {
    if n == 0 then [] else [COMMA] + Commas(n - 1)
  }

  /** The brackets and commas charged before a container's parts. */
  function Frame(open: Unit, n: nat, close: Unit): Text {
    [open] + Commas(if n == 0 then 0 else n - 1) + [close]
  }

  lemma FrameLen(open: Unit, n: nat, close: Unit)
    requires open < 0x80 && close < 0x80
    ensures Utf8Len(Frame(open, n, close)) == FrameSize(n)
  {
    AsciiLen(Frame(open, n, close));
  }

  // ----- the visitor

  class Printer {
    const limits: Limits
    const collation: Collation
    var nodes: int
    var bytes: int

    constructor (limits: Limits, collation: Collation)
      ensures this.limits == limits && this.collation == collation && nodes == 0 && bytes == 0
    {
      this.limits, this.collation, nodes, bytes := limits, collation, 0, 0;
    }

    method Charge(fragment: Text) returns (r: Result<Text, Error>)
      modifies this`bytes
      ensures bytes == old(bytes) + Utf8Len(fragment)
      ensures r == if bytes <= limits.maxBytes then Ok(fragment) else Err(ByteLimit)
    {
      bytes := bytes + Utf8Len(fragment);
      r := if bytes > limits.maxBytes then Err(ByteLimit) else Ok(fragment);
    }

    /** `visit`: it succeeds exactly when the whole subtree fits what is left of every limit, with the
        canonical text, and the counters have then grown by its nodes and its UTF-8 length. */
    method Visit(input: Json, depth: int) returns (r: Result<Text, Error>)
      modifies this
      decreases input, 2
      ensures r != Err(NotContainer)
      ensures r.Ok? <==> Accepts(input, depth, limits, collation, old(nodes), old(bytes))
      ensures r.Ok? ==> r.value == Render(input, collation)
                        && nodes == old(nodes) + Nodes(input) && bytes == old(bytes) + Size(input, collation)
    {
      hide Utf8Len, Quote, Accepts, AcceptsItems, AcceptsMembers, ItemSizes, MemberSizes, Joined, SortMembers, Canon;
      hide Frame, ItemNodes, MemberNodes, ItemTexts, MemberTexts, Render, Size, FrameSize, Commas, Admissible, Nodes;
      nodes := nodes + 1;
      if nodes > limits.maxNodes {
        Refused(input, depth, limits, collation, old(nodes), old(bytes));
        return Err(NodeLimit);
      }
      if depth > limits.maxDepth {
        Refused(input, depth, limits, collation, old(nodes), old(bytes));
        return Err(TooDeep);
      }
      match input {
        case Null | Bool(_) | Number(_) =>
          LeafCosts(input, depth, limits, collation, old(nodes), old(bytes));
          r := Charge(Print(input));
        case NonFinite =>
          Refused(input, depth, limits, collation, old(nodes), old(bytes));
          r := Err(NonFiniteNumber);
        case Foreign =>
          Refused(input, depth, limits, collation, old(nodes), old(bytes));
          r := Err(NotJson);
        case String(s) =>
          LeafCosts(input, depth, limits, collation, old(nodes), old(bytes));
          if |s| > limits.maxStringLength {
            return Err(StringTooLong);
          }
          r := Charge(Print(input));
        case Array(_) =>
          r := VisitArray(input, depth);
        case Object(_) =>
          r := VisitObject(input, depth);
      }
    }

    /** The array branch, its node already counted. */
    method VisitArray(input: Json, depth: int) returns (r: Result<Text, Error>)
      requires input.Array? && nodes <= limits.maxNodes && depth <= limits.maxDepth
      modifies this
      decreases input, 1
      ensures r != Err(NotContainer)
      ensures r.Ok? <==> Accepts(input, depth, limits, collation, old(nodes) - 1, old(bytes))
      ensures r.Ok? ==> r.value == Render(input, collation)
                        && nodes == old(nodes) - 1 + Nodes(input) && bytes == old(bytes) + Size(input, collation)
    {
      hide Utf8Len, Accepts, AcceptsItems, ItemSizes, Joined, Canon, Frame, ItemNodes, ItemTexts, Render, Size;
      hide FrameSize, Commas, Admissible, Nodes;
      var items := input.items;
      AcceptsArray(items, depth, limits, collation, nodes - 1, bytes);
      if |items| > limits.maxArrayLength {
        return Err(ArrayTooLong);
      }
      FrameLen(OPEN_ARRAY, |items|, CLOSE_ARRAY);
      var charged := Charge(Frame(OPEN_ARRAY, |items|, CLOSE_ARRAY));
      if charged.Err? {
        return charged;
      }
      ghost var start, size := nodes, bytes;
      var texts: seq<Text> := [];
      assert items[0..] == items;
      for i := 0 to |items|
        invariant nodes <= limits.maxNodes && bytes <= limits.maxBytes
        invariant nodes + ItemNodes(items[i..]) == start + ItemNodes(items)
        invariant bytes + ItemSizes(items[i..], collation) == size + ItemSizes(items, collation)
        invariant texts + ItemTexts(items[i..], collation) == ItemTexts(items, collation)
        invariant AcceptsItems(items, depth + 1, limits, collation, start, size)
                  <==> AcceptsItems(items[i..], depth + 1, limits, collation, nodes, bytes)
      {
        ghost var n, b := nodes, bytes;
        NextItem(items, i, depth + 1, limits, collation, nodes, bytes);
        FirstItem(items, i, collation);
        var text := Visit(items[i], depth + 1);
        if text.Err? {
          return text;
        }
        AcceptsBounds(items[i], depth + 1, limits, collation, n, b);
        texts := texts + [text.value];
      }
      NothingLeft(items, depth + 1, limits, collation, nodes, bytes);
      ArrayDone(items, depth, limits, collation, old(nodes) - 1, old(bytes));
      assert texts == ItemTexts(items, collation) by {
        assert texts + [] == texts;
      }
      r := Ok([OPEN_ARRAY] + Joined(texts) + [CLOSE_ARRAY]);
    }

    /** The object branch: keys are sorted first, and visited in that order. */
    method VisitObject(input: Json, depth: int) returns (r: Result<Text, Error>)
      requires input.Object? && nodes <= limits.maxNodes && depth <= limits.maxDepth
      modifies this
      decreases input, 1
      ensures r != Err(NotContainer)
      ensures r.Ok? <==> Accepts(input, depth, limits, collation, old(nodes) - 1, old(bytes))
      ensures r.Ok? ==> r.value == Render(input, collation)
                        && nodes == old(nodes) - 1 + Nodes(input) && bytes == old(bytes) + Size(input, collation)
    {
      hide Utf8Len, Accepts, AcceptsMembers, MemberSizes, Joined, Canon, Frame, MemberNodes, MemberTexts, Render, Size;
      hide FrameSize, Commas, Admissible, Nodes, SortMembers, Quote, KeySize, MemberText;
      var ms := SortMembers(input.members, collation);
      SortPermutes(input.members, collation);
      AcceptsObject(input.members, depth, limits, collation, nodes - 1, bytes);
      if |ms| > limits.maxObjectKeys {
        return Err(TooManyKeys);
      }
      FrameLen(OPEN_OBJECT, |ms|, CLOSE_OBJECT);
      var charged := Charge(Frame(OPEN_OBJECT, |ms|, CLOSE_OBJECT));
      if charged.Err? {
        return charged;
      }
      ghost var start, size := nodes, bytes;
      var texts: seq<Text> := [];
      assert ms[0..] == ms;
      for i := 0 to |ms|
        invariant nodes <= limits.maxNodes && bytes <= limits.maxBytes
        invariant nodes + MemberNodes(ms[i..]) == start + MemberNodes(ms)
        invariant bytes + MemberSizes(ms[i..], collation) == size + MemberSizes(ms, collation)
        invariant texts + MemberTexts(ms[i..], collation) == MemberTexts(ms, collation)
        invariant AcceptsMembers(ms, depth + 1, limits, collation, start, size)
                  <==> AcceptsMembers(ms[i..], depth + 1, limits, collation, nodes, bytes)
      {
        var m := ms[i];
        NextMember(ms, i, depth + 1, limits, collation, nodes, bytes);
        FirstMember(ms, i, collation);
        SameMembers(input.members, collation, m);
        var text := VisitMember(input, m, depth + 1);
        if text.Err? {
          return text;
        }
        texts := texts + [text.value];
      }
      NoMemberLeft(ms, depth + 1, limits, collation, nodes, bytes);
      ObjectDone(input.members, depth, limits, collation, old(nodes) - 1, old(bytes));
      assert texts == MemberTexts(ms, collation) by {
        assert texts + [] == texts;
      }
      r := Ok([OPEN_OBJECT] + Joined(texts) + [CLOSE_OBJECT]);
    }

    /** One member: its key is charged before its value is visited. */
    method VisitMember(ghost parent: Json, m: Member, depth: int) returns (r: Result<Text, Error>)
      requires parent.Object? && m in parent.members
      modifies this
      decreases parent, 0
      ensures r != Err(NotContainer)
      ensures r.Ok? <==> |m.key| <= limits.maxKeyLength && old(bytes) + KeySize(m) <= limits.maxBytes
                         && Accepts(m.value, depth, limits, collation, old(nodes), old(bytes) + KeySize(m))
      ensures r.Ok? ==> r.value == MemberText(m, collation) && Admissible(m.value, depth, limits)
                        && nodes == old(nodes) + Nodes(m.value) <= limits.maxNodes
                        && bytes == old(bytes) + KeySize(m) + Size(m.value, collation) <= limits.maxBytes
    {
      hide Utf8Len, Accepts, Canon, Render, Size, Admissible, Nodes, Quote, KeySize, MemberText;
      if |m.key| > limits.maxKeyLength {
        return Err(KeyTooLong);
      }
      KeyCost(m);
      var charged := Charge(Quote(m.key) + [COLON]);
      if charged.Err? {
        return charged;
      }
      ValueIsSmaller(parent, m);
      var text := Visit(m.value, depth);
      if text.Err? {
        return text;
      }
      AcceptsBounds(m.value, depth, limits, collation, old(nodes), old(bytes) + KeySize(m));
      MemberTextIs(m, collation);
      r := Ok(Quote(m.key) + [COLON] + text.value);
    }
  }

  lemma FirstItem(items: seq<Json>, i: nat, w: Collation)
    requires i < |items|
    ensures ItemTexts(items[i..], w) == [Render(items[i], w)] + ItemTexts(items[i + 1..], w)
    ensures ItemNodes(items[i..]) == Nodes(items[i]) + ItemNodes(items[i + 1..])
    ensures ItemSizes(items[i..], w) == Size(items[i], w) + ItemSizes(items[i + 1..], w)
  {
    hide Render, Nodes, Size;
    assert items[i..][1..] == items[i + 1..];
  }

  lemma FirstMember(ms: seq<Member>, i: nat, w: Collation)
    requires i < |ms|
    ensures MemberTexts(ms[i..], w) == [MemberText(ms[i], w)] + MemberTexts(ms[i + 1..], w)
    ensures MemberNodes(ms[i..]) == Nodes(ms[i].value) + MemberNodes(ms[i + 1..])
    ensures MemberSizes(ms[i..], w) == KeySize(ms[i]) + Size(ms[i].value, w) + MemberSizes(ms[i + 1..], w)
  {
    hide MemberText, Nodes, Size, KeySize;
    assert ms[i..][1..] == ms[i + 1..];
  }

  lemma AcceptsBounds(v: Json, depth: int, lim: Limits, w: Collation, nodes: int, bytes: int)
    requires Accepts(v, depth, lim, w, nodes, bytes)
    ensures Admissible(v, depth, lim) && nodes + Nodes(v) <= lim.maxNodes && bytes + Size(v, w) <= lim.maxBytes
  {
  }

  lemma NothingLeft(items: seq<Json>, depth: int, lim: Limits, w: Collation, nodes: int, bytes: int)
    requires nodes <= lim.maxNodes && bytes <= lim.maxBytes
    ensures AcceptsItems(items[|items|..], depth, lim, w, nodes, bytes)
    ensures ItemNodes(items[|items|..]) == 0 && ItemSizes(items[|items|..], w) == 0
    ensures ItemTexts(items[|items|..], w) == []
  {
  }

  lemma NoMemberLeft(ms: seq<Member>, depth: int, lim: Limits, w: Collation, nodes: int, bytes: int)
    requires nodes <= lim.maxNodes && bytes <= lim.maxBytes
    ensures AcceptsMembers(ms[|ms|..], depth, lim, w, nodes, bytes)
    ensures MemberNodes(ms[|ms|..]) == 0 && MemberSizes(ms[|ms|..], w) == 0
    ensures MemberTexts(ms[|ms|..], w) == []
  {
  }

  lemma ArrayDone(items: seq<Json>, depth: int, lim: Limits, w: Collation, nodes: int, bytes: int)
    requires Accepts(Array(items), depth, lim, w, nodes, bytes)
    ensures Nodes(Array(items)) == 1 + ItemNodes(items)
    ensures Size(Array(items), w) == FrameSize(|items|) + ItemSizes(items, w)
    ensures Render(Array(items), w) == [OPEN_ARRAY] + Joined(ItemTexts(items, w)) + [CLOSE_ARRAY]
  {
    hide Size, ItemSizes, ItemNodes, Render, FrameSize, Joined, ItemTexts;
    LeavesPrint(items, depth + 1, lim);
    ArraySize(items, w);
    RenderArray(items, w);
  }

  lemma LeavesPrint(items: seq<Json>, depth: int, lim: Limits)
    requires forall i :: 0 <= i < |items| ==> Admissible(items[i], depth, lim)
    ensures AllPrintable(items)
  {
  }

  lemma ValuesPrint(ms: seq<Member>, depth: int, lim: Limits, w: Collation)
    requires forall i :: 0 <= i < |ms| ==> Admissible(ms[i].value, depth, lim)
    ensures AllPrintableValues(SortMembers(ms, w))
  {
    hide SortMembers;
    var sorted := SortMembers(ms, w);
    SortPermutes(ms, w);
    forall i | 0 <= i < |sorted| ensures !sorted[i].value.NonFinite? && !sorted[i].value.Foreign? {
      SameMembers(ms, w, sorted[i]);
      var j :| 0 <= j < |ms| && ms[j] == sorted[i];
      assert Admissible(ms[j].value, depth, lim);
    }
  }

  lemma ObjectDone(ms: seq<Member>, depth: int, lim: Limits, w: Collation, nodes: int, bytes: int)
    requires Accepts(Object(ms), depth, lim, w, nodes, bytes)
    ensures Nodes(Object(ms)) == 1 + MemberNodes(SortMembers(ms, w))
    ensures Size(Object(ms), w) == FrameSize(|ms|) + MemberSizes(SortMembers(ms, w), w)
    ensures Render(Object(ms), w) == [OPEN_OBJECT] + Joined(MemberTexts(SortMembers(ms, w), w)) + [CLOSE_OBJECT]
  {
    hide Size, MemberSizes, MemberNodes, Render, SortMembers, FrameSize, Joined, MemberTexts;
    ValuesPrint(ms, depth + 1, lim, w);
    ObjectSize(ms, w);
    RenderObject(ms, w);
    SortKeepsNodes(ms, w);
  }

  lemma KeyCost(m: Member)
    ensures Utf8Len(Quote(m.key) + [COLON]) == KeySize(m)
  {
  }

  lemma MemberTextIs(m: Member, w: Collation)
    ensures MemberText(m, w) == Quote(m.key) + [COLON] + Render(m.value, w)
  {
  }

  lemma ValueIsSmaller(v: Json, m: Member)
    requires v.Object? && m in v.members
    ensures m.value < v
  {
    var i :| 0 <= i < |v.members| && v.members[i] == m;
    assert v.members[i].value < v;
  }

  /** What a visit refuses at once. */
  lemma Refused(v: Json, depth: int, lim: Limits, w: Collation, nodes: int, bytes: int)
    requires nodes + 1 > lim.maxNodes || depth > lim.maxDepth || v.NonFinite? || v.Foreign?
    ensures !Accepts(v, depth, lim, w, nodes, bytes)
  {
    hide Size, ItemNodes, MemberNodes;
  }

  lemma LeafCosts(v: Json, depth: int, lim: Limits, w: Collation, nodes: int, bytes: int)
    requires v.Null? || v.Bool? || v.Number? || v.String?
    requires depth <= lim.maxDepth && nodes + 1 <= lim.maxNodes
    ensures Accepts(v, depth, lim, w, nodes, bytes)
            <==> (v.String? ==> |v.s| <= lim.maxStringLength) && bytes + Utf8Len(Print(v)) <= lim.maxBytes
    ensures Render(v, w) == Print(v) && Nodes(v) == 1 && Size(v, w) == Utf8Len(Print(v))
  {
    hide Print, Utf8Len;
  }

  // ----- the entry points

  /** The whole value fits every limit and is a container. */
  ghost predicate Within(v: Json, lim: Limits, w: Collation) {
    (v.Array? || v.Object?) && Accepts(v, 0, lim, w, 0, 0)
  }

  /** `canonicalJsonString`: the canonical text exactly when the value is within limits. The bytes charged
      on the way are the text's UTF-8 length, so it never exceeds `maxBytes`. */
  method CanonicalJsonString(value: Json, limits: Limits, w: Collation) returns (r: Result<Text, Error>)
    ensures r.Ok? <==> Within(value, limits, w)
    ensures r.Ok? ==> r.value == Render(value, w) && Utf8Len(r.value) <= limits.maxBytes
    ensures r == Err(NotContainer) <==> !value.Array? && !value.Object?
  {
    hide Render, Utf8Len;
    if !value.Array? && !value.Object? {
      return Err(NotContainer);
    }
    var printer := new Printer(limits, w);
    r := printer.Visit(value, 0);
  }

  /** `canonicalJsonEqual`: a value beyond the limits equals nothing, itself included. */
  method CanonicalJsonEqual(left: Json, right: Json, w: Collation) returns (equal: bool)
    ensures var lim := Limits(65_536, 16, 4_096, 1_024, 1_024, 8_192, 256);
            equal <==> Within(left, lim, w) && Within(right, lim, w) && Render(left, w) == Render(right, w)
  {
    hide Within, Render, Utf8Len;
    var l := CanonicalJsonString(left, PROVIDER_RESPONSE_LIMITS, w);
    if l.Err? {
      return false;
    }
    var r := CanonicalJsonString(right, PROVIDER_RESPONSE_LIMITS, w);
    equal := r.Ok? && l.value == r.value;
  }

  /** No object holds a key twice, as no JavaScript object can. */
  ghost predicate Keyed(v: Json) {
    match v
    case Array(items) => forall i :: 0 <= i < |items| ==> Keyed(items[i])
    case Object(ms) => DistinctKeys(ms) && forall i :: 0 <= i < |ms| ==> Keyed(ms[i].value)
    case _ => true
  }

  lemma {:induction false} AdmissibleIsJson(v: Json, depth: int, lim: Limits)
    requires Keyed(v) && Admissible(v, depth, lim)
    ensures IsJson(v)
    decreases v
  {
    match v {
      case Array(items) =>
        forall i | 0 <= i < |items| ensures IsJson(items[i]) {
          AdmissibleIsJson(items[i], depth + 1, lim);
        }
      case Object(ms) =>
        forall i | 0 <= i < |ms| ensures IsJson(ms[i].value) {
          AdmissibleIsJson(ms[i].value, depth + 1, lim);
        }
      case _ =>
    }
  }

  /** Within limits, two values have the same canonical text exactly when they are structurally equal;
      for one direction the collation must not tie two keys. */
  lemma TextEqualityIsStructural(a: Json, b: Json, lim: Limits, w: Collation)
    requires Keyed(a) && Keyed(b) && Within(a, lim, w) && Within(b, lim, w)
    ensures Render(a, w) == Render(b, w) ==> Equal(a, b)
    ensures TotalOrder(w) ==> (Render(a, w) == Render(b, w) <==> Equal(a, b))
  {
    hide Render, Equal, IsJson, Keyed, Admissible, Nodes, Size, Canon;
    AdmissibleIsJson(a, 0, lim);
    AdmissibleIsJson(b, 0, lim);
    if Render(a, w) == Render(b, w) {
      RenderInjective(a, b, w);
    }
    if TotalOrder(w) && Equal(a, b) {
      EqualHaveSameCanon(a, b, w);
      SameRender(a, b, w);
    }
  }

  lemma SameRender(a: Json, b: Json, w: Collation)
    requires Canon(a, w) == Canon(b, w)
    ensures Render(a, w) == Render(b, w)
  {
  }

  /** An accepted value's text follows the grammar: it reads back whole, as the value in canonical order. */
  lemma AcceptedTextIsJson(v: Json, lim: Limits, w: Collation)
    requires Keyed(v) && Within(v, lim, w)
    ensures Parse(Render(v, w)) == Some(Read(Canon(v, w), []))
    ensures Render(Canon(v, w), w) == Render(v, w)
  {
    hide Render, IsJson, Keyed, Admissible, Nodes, Size, Canon, Parse;
    AdmissibleIsJson(v, 0, lim);
    CanonicalTextIsStable(v, w);
  }
}
