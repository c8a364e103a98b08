/** JSON trees, their compact text, and a reader for that text after the grammar of RFC 8259. */
module JsonTree {
  import opened Wrappers
  import opened JsonText

  // ----- numerals: section 6

  predicate Digit(u: Unit) {
    0x30 <= u <= 0x39
  }

  /** What follows the leading digits. */
  function SkipDigits(t: Text): (rest: Text)
    ensures |rest| <= |t|
  {
    if t != [] && Digit(t[0]) then SkipDigits(t[1..]) else t
  }

  predicate StartsWithDigit(t: Text) {
    t != [] && Digit(t[0])
  }

  /** Nothing, or an exponent. */
  predicate IsExponent(t: Text) {
    t == []
    || ((t[0] == 0x65 || t[0] == 0x45)
        && var digits := if |t| > 1 && (t[1] == 0x2b || t[1] == 0x2d) then t[2..] else t[1..];
           StartsWithDigit(digits) && SkipDigits(digits) == [])
  }

  /** An optional fraction, then an optional exponent. */
  predicate IsFraction(t: Text) {
    if t != [] && t[0] == 0x2e then StartsWithDigit(t[1..]) && IsExponent(SkipDigits(t[1..]))
    else IsExponent(t)
  }

  /** An integer part without superfluous zeros, and the rest. */
  predicate IsUnsigned(t: Text) {
    StartsWithDigit(t)
    && (t[0] == 0x30 ==> |SkipDigits(t)| == |t| - 1)
    && IsFraction(SkipDigits(t))
  }

  predicate IsNumber(t: Text) {
    IsUnsigned(if t != [] && t[0] == 0x2d then t[1..] else t)
  }

  /** The text `JSON.stringify` gives a finite number; a number is identified with it. */
  type Numeral = t: Text | IsNumber(t) witness [0x30]

  predicate NumberUnit(u: Unit) {
    Digit(u) || u == 0x2b || u == 0x2d || u == 0x2e || u == 0x45 || u == 0x65
  }

  ghost predicate AllNumberUnits(t: Text) {
    forall i :: 0 <= i < |t| ==> NumberUnit(t[i])
  }

  lemma NumberUnitsFirst(t: Text)
    requires t != [] && NumberUnit(t[0]) && AllNumberUnits(t[1..])
    ensures AllNumberUnits(t)
  {
    forall i | 0 <= i < |t| ensures NumberUnit(t[i]) {
      assert i > 0 ==> t[i] == t[1..][i - 1];
    }
  }

  lemma {:induction false} DigitsAreNumberUnits(t: Text)
    requires AllNumberUnits(SkipDigits(t))
    ensures AllNumberUnits(t)
  {
    if t != [] && Digit(t[0]) {
      DigitsAreNumberUnits(t[1..]);
      NumberUnitsFirst(t);
    }
  }

  lemma ExponentUnits(t: Text)
    requires IsExponent(t)
    ensures AllNumberUnits(t)
  {
    if t != [] {
      if |t| > 1 && (t[1] == 0x2b || t[1] == 0x2d) {
        DigitsAreNumberUnits(t[2..]);
        assert t[1..][1..] == t[2..];
        NumberUnitsFirst(t[1..]);
      } else {
        DigitsAreNumberUnits(t[1..]);
      }
      NumberUnitsFirst(t);
    }
  }

  lemma FractionUnits(t: Text)
    requires IsFraction(t)
    ensures AllNumberUnits(t)
  {
    if t != [] && t[0] == 0x2e {
      ExponentUnits(SkipDigits(t[1..]));
      DigitsAreNumberUnits(t[1..]);
      NumberUnitsFirst(t);
    } else {
      ExponentUnits(t);
    }
  }

  lemma NumeralUnits(n: Numeral)
    ensures n != [] && AllNumberUnits(n) && (Digit(n[0]) || n[0] == 0x2d)
  {
    hide IsFraction;
    if n != [] && n[0] == 0x2d {
      FractionUnits(SkipDigits(n[1..]));
      DigitsAreNumberUnits(n[1..]);
      NumberUnitsFirst(n);
    } else {
      FractionUnits(SkipDigits(n));
      DigitsAreNumberUnits(n);
    }
  }

  /** How many number units `t` starts with. */
  function Span(t: Text): (n: nat)
    ensures n <= |t|
  {
    if t == [] || !NumberUnit(t[0]) then 0
    else
      var more := Span(t[1..]);
      1 + more
  }

  /** A numeral ends where its units end. */
  predicate Delimited(more: Text) {
    more == [] || !NumberUnit(more[0])
  }

  lemma {:induction false} SpanOf(n: Text, more: Text)
    requires AllNumberUnits(n) && Delimited(more)
    ensures Span(n + more) == |n|
  {
    if n == [] {
      assert n + more == more;
    } else {
      assert (n + more)[1..] == n[1..] + more;
      SpanOf(n[1..], more);
    }
  }

  // ----- trees

  /** A value as the visitor meets it: JSON, a number that is not finite, or something JSON cannot say. */
  datatype Json =
    | Null
    | Bool(b: bool)
    | Number(numeral: Numeral)
    | String(s: Text)
    | Array(items: seq<Json>)
    | Object(members: seq<Member>)
    | NonFinite
    | Foreign

  /** Members stand in insertion order. */
  datatype Member = Member(key: Text, value: Json)

  ghost predicate DistinctKeys(ms: seq<Member>) {
    forall i, j :: 0 <= i < j < |ms| ==> ms[i].key != ms[j].key
  }

  /** A JSON tree throughout, with no key twice in an object. */
  ghost predicate IsJson(v: Json) {
    match v
    case Array(items) => forall i :: 0 <= i < |items| ==> IsJson(items[i])
    case Object(ms) => DistinctKeys(ms) && forall i :: 0 <= i < |ms| ==> IsJson(ms[i].value)
    case NonFinite => false
    case Foreign => false
    case _ => true
  }

  // ----- text

  const NULL_TEXT: Text := [0x6e, 0x75, 0x6c, 0x6c]
  const TRUE_TEXT: Text := [0x74, 0x72, 0x75, 0x65]
  const FALSE_TEXT: Text := [0x66, 0x61, 0x6c, 0x73, 0x65]
  const OPEN_ARRAY: Unit := 0x5b
  const CLOSE_ARRAY: Unit := 0x5d
  const OPEN_OBJECT: Unit := 0x7b
  const CLOSE_OBJECT: Unit := 0x7d

  function Print(v: Json): Text
    decreases v
  {
    match v
    case Null => NULL_TEXT
    case Bool(b) => if b then TRUE_TEXT else FALSE_TEXT
    case Number(numeral) => numeral
    case String(s) => Quote(s)
    case Array(items) => [OPEN_ARRAY] + PrintItems(items) + [CLOSE_ARRAY]
    case Object(ms) => [OPEN_OBJECT] + PrintMembers(ms) + [CLOSE_OBJECT]
    case NonFinite => []
    case Foreign => []
  }

  function PrintItems(items: seq<Json>): Text
    decreases items
  {
    if items == [] then []
    else Print(items[0]) + (if |items| == 1 then [] else [COMMA] + PrintItems(items[1..]))
  }

  function PrintMember(m: Member): Text
    decreases m
  {
    Quote(m.key) + [COLON] + Print(m.value)
  }

  function PrintMembers(ms: seq<Member>): Text
    decreases ms
  {
    if ms == [] then []
    else PrintMember(ms[0]) + (if |ms| == 1 then [] else [COMMA] + PrintMembers(ms[1..]))
  }

  /** ASCII text as code units. */
  function Ascii(s: string): (t: Text)
    requires forall i :: 0 <= i < |s| ==> s[i] as int < 0x80
    ensures |t| == |s| && forall i :: 0 <= i < |s| ==> t[i] == s[i] as int
  {
    seq(|s|, i requires 0 <= i < |s| => s[i] as int)
  }

  /** The words, letter for letter. */
  lemma WordSyntax(n: Numeral)
    ensures Print(Null) == Ascii("null") && Print(Bool(true)) == Ascii("true") && Print(Bool(false)) == Ascii("false")
    ensures Print(Number(n)) == n
  {
  }

  /** The punctuation of arrays, letter for letter. */
  lemma ArraySyntax(a: Json, b: Json)
    ensures Print(Array([a, b])) == Ascii("[") + Print(a) + Ascii(",") + Print(b) + Ascii("]")
    ensures Print(Array([])) == Ascii("[]")
  {
    assert Ascii("[") == [OPEN_ARRAY] && Ascii(",") == [COMMA] && Ascii("]") == [CLOSE_ARRAY];
    assert Ascii("[]") == [OPEN_ARRAY, CLOSE_ARRAY];
    PrintsTwo(a, b);
    Unparenthesise([OPEN_ARRAY], Print(a), [COMMA], Print(b), [CLOSE_ARRAY]);
  }

  lemma PrintsTwo(a: Json, b: Json)
    ensures PrintItems([a, b]) == Print(a) + ([COMMA] + Print(b))
  {
    hide Print;
    assert [a, b][1..] == [b];
    assert PrintItems([b]) == Print(b);
  }

  /** The punctuation of objects, letter for letter. */
  lemma ObjectSyntax(a: Member, b: Member)
    ensures Print(Object([a, b]))
            == Ascii("{") + (Quote(a.key) + Ascii(":") + Print(a.value)) + Ascii(",")
               + (Quote(b.key) + Ascii(":") + Print(b.value)) + Ascii("}")
    ensures Print(Object([])) == Ascii("{}")
  {
    hide Quote, Print;
    PrintsPair(a, b);
    var x, y := PrintMember(a), PrintMember(b);
    assert Ascii(":") == [COLON] && Ascii(",") == [COMMA];
    assert Ascii("{") == [OPEN_OBJECT] && Ascii("}") == [CLOSE_OBJECT];
    assert Ascii("{}") == [OPEN_OBJECT, CLOSE_OBJECT];
    Unparenthesise([OPEN_OBJECT], x, [COMMA], y, [CLOSE_OBJECT]);
  }

  lemma PrintsPair(a: Member, b: Member)
    ensures Print(Object([a, b])) == [OPEN_OBJECT] + (PrintMember(a) + ([COMMA] + PrintMember(b))) + [CLOSE_OBJECT]
    ensures Print(Object([])) == [OPEN_OBJECT, CLOSE_OBJECT]
  {
    hide PrintMember;
    assert [a, b][1..] == [b];
    assert PrintMembers([b]) == PrintMember(b);
    assert PrintMembers([a, b]) == PrintMember(a) + ([COMMA] + PrintMembers([b]));
  }

  lemma Unparenthesise(a: Text, b: Text, c: Text, d: Text, e: Text)
    ensures a + (b + (c + d)) + e == a + b + c + d + e
  {
  }

  // ----- reading

  function ReadNumber(t: Text): (r: Option<Read<Json>>)
    ensures r.Some? ==> |r.value.rest| < |t|
  {
    var n := Span(t);
    if n > 0 && IsNumber(t[..n]) then Some(Read(Number(t[..n]), t[n..])) else None
  }

  function ReadWord(t: Text, word: Text, v: Json): (r: Option<Read<Json>>)
    requires word != []
    ensures r.Some? ==> |r.value.rest| < |t|
  {
    if word <= t then Some(Read(v, t[|word|..])) else None
  }

  /** One value at the start of `t`. */
  function Parse(t: Text): (r: Option<Read<Json>>)
    ensures r.Some? ==> |r.value.rest| < |t|
    decreases |t|, 1
  {
    if t == [] then None
    else if t[0] == 0x6e then ReadWord(t, NULL_TEXT, Null)
    else if t[0] == 0x74 then ReadWord(t, TRUE_TEXT, Bool(true))
    else if t[0] == 0x66 then ReadWord(t, FALSE_TEXT, Bool(false))
    else if t[0] == QUOTE_MARK then
      var s := ReadString(t);
      if s.None? then None else Some(Read(String(s.value.value), s.value.rest))
    else if t[0] == OPEN_ARRAY then
      if |t| > 1 && t[1] == CLOSE_ARRAY then Some(Read(Array([]), t[2..]))
      else
        var items := ParseItems(t[1..]);
        if items.None? then None else Some(Read(Array(items.value.value), items.value.rest))
    else if t[0] == OPEN_OBJECT then
      if |t| > 1 && t[1] == CLOSE_OBJECT then Some(Read(Object([]), t[2..]))
      else
        var ms := ParseMembers(t[1..]);
        if ms.None? then None else Some(Read(Object(ms.value.value), ms.value.rest))
    else
      ReadNumber(t)
  }

  /** One or more values separated by commas, and the closing bracket. */
  function ParseItems(t: Text): (r: Option<Read<seq<Json>>>)
    ensures r.Some? ==> |r.value.rest| < |t|
    decreases |t|, 2
  {
    var first := Parse(t);
    if first.None? || first.value.rest == [] then None
    else
      var v, rest := first.value.value, first.value.rest;
      if rest[0] == CLOSE_ARRAY then Some(Read([v], rest[1..]))
      else if rest[0] == COMMA then
        var more := ParseItems(rest[1..]);
        if more.None? then None else Some(Read([v] + more.value.value, more.value.rest))
      else None
  }

  function ParseMember(t: Text): (r: Option<Read<Member>>)
    ensures r.Some? ==> |r.value.rest| < |t|
    decreases |t|, 2
  {
    var key := ReadString(t);
    if key.None? || key.value.rest == [] || key.value.rest[0] != COLON then None
    else
      var v := Parse(key.value.rest[1..]);
      if v.None? then None else Some(Read(Member(key.value.value, v.value.value), v.value.rest))
  }

  /** One or more members separated by commas, and the closing brace. */
  function ParseMembers(t: Text): (r: Option<Read<seq<Member>>>)
    ensures r.Some? ==> |r.value.rest| < |t|
    decreases |t|, 3
  {
    var first := ParseMember(t);
    if first.None? || first.value.rest == [] then None
    else
      var m, rest := first.value.value, first.value.rest;
      if rest[0] == CLOSE_OBJECT then Some(Read([m], rest[1..]))
      else if rest[0] == COMMA then
        var more := ParseMembers(rest[1..]);
        if more.None? then None else Some(Read([m] + more.value.value, more.value.rest))
      else None
  }

  // ----- the round trip

  lemma PrintStarts(v: Json)
    requires IsJson(v)
    ensures Print(v) != [] && Print(v)[0] != CLOSE_ARRAY
  {
    if v.Number? {
      NumeralUnits(v.numeral);
    }
  }

  lemma WordRoundTrip(word: Text, v: Json, more: Text)
    requires word != []
    ensures ReadWord(word + more, word, v) == Some(Read(v, more))
  {
    assert (word + more)[|word|..] == more;
  }

  lemma NumberRoundTrip(n: Numeral, more: Text)
    requires Delimited(more)
    ensures Parse(n + more) == Some(Read(Number(n), more))
  {
    hide IsNumber, Digit, Span, ReadString;
    NumeralUnits(n);
    SpanOf(n, more);
    var t := n + more;
    assert t[..|n|] == n && t[|n|..] == more;
    assert ReadNumber(t) == Some(Read(Number(n), more));
    NumeralDispatch(n, t);
  }

  lemma NumeralDispatch(n: Numeral, t: Text)
    requires n <= t && n != []
    ensures Parse(t) == ReadNumber(t)
  {
    hide ReadNumber;
    NumeralUnits(n);
    assert t[0] == n[0];
  }

  /** A value's text is read back as that value, and nothing more is consumed. */
  lemma {:induction false} PrintRoundTrip(v: Json, more: Text)
    requires IsJson(v) && Delimited(more)
    ensures Parse(Print(v) + more) == Some(Read(v, more))
    decreases v
  {
    hide ReadString, Quote, ReadNumber, ParseItems, ParseMembers, PrintItems, PrintMembers;
    match v {
      case Null => WordRoundTrip(NULL_TEXT, Null, more);
      case Bool(b) => WordRoundTrip(if b then TRUE_TEXT else FALSE_TEXT, Bool(b), more);
      case Number(n) => NumberRoundTrip(n, more);
      case String(s) =>
        QuotedIsRead(s, more);
        QuoteStarts(s);
      case Array(items) =>
        if items == [] {
          EmptyArray(more);
        } else {
          ItemsRoundTrip(items, more);
          ArrayFromItems(items, more);
        }
      case Object(ms) =>
        if ms == [] {
          EmptyObject(more);
        } else {
          MembersRoundTrip(ms, more);
          ObjectFromMembers(ms, more);
        }
    }
  }

  lemma QuoteStarts(s: Text)
    ensures Quote(s)[0] == QUOTE_MARK
  {
  }

  lemma EmptyArray(more: Text)
    ensures Parse(Print(Array([])) + more) == Some(Read(Array([]), more))
  {
    var t := Print(Array([])) + more;
    assert t == [OPEN_ARRAY, CLOSE_ARRAY] + more && t[2..] == more;
  }

  lemma EmptyObject(more: Text)
    ensures Parse(Print(Object([])) + more) == Some(Read(Object([]), more))
  {
    var t := Print(Object([])) + more;
    assert t == [OPEN_OBJECT, CLOSE_OBJECT] + more && t[2..] == more;
  }

  lemma ArrayFromItems(items: seq<Json>, more: Text)
    requires items != [] && IsJson(Array(items))
    requires ParseItems(PrintItems(items) + [CLOSE_ARRAY] + more) == Some(Read(items, more))
    ensures Parse(Print(Array(items)) + more) == Some(Read(Array(items), more))
  {
    hide ParseItems, ParseMembers, ReadNumber, ReadString, PrintMembers;
    var t := Print(Array(items)) + more;
    PrintStarts(items[0]);
    assert t[1..] == PrintItems(items) + [CLOSE_ARRAY] + more;
    assert t[1] == Print(items[0])[0];
  }

  lemma ObjectFromMembers(ms: seq<Member>, more: Text)
    requires ms != [] && IsJson(Object(ms))
    requires ParseMembers(PrintMembers(ms) + [CLOSE_OBJECT] + more) == Some(Read(ms, more))
    ensures Parse(Print(Object(ms)) + more) == Some(Read(Object(ms), more))
  {
    hide ParseItems, ParseMembers, ReadNumber, ReadString, PrintItems;
    var t := Print(Object(ms)) + more;
    assert t[1..] == PrintMembers(ms) + [CLOSE_OBJECT] + more;
    assert t[1] == QUOTE_MARK;
  }

  lemma {:induction false} ItemsRoundTrip(items: seq<Json>, more: Text)
    requires items != [] && forall i :: 0 <= i < |items| ==> IsJson(items[i])
    ensures ParseItems(PrintItems(items) + [CLOSE_ARRAY] + more) == Some(Read(items, more))
    decreases items
  {
    hide Parse, Print;
    var t := PrintItems(items) + [CLOSE_ARRAY] + more;
    if |items| == 1 {
      assert t == Print(items[0]) + ([CLOSE_ARRAY] + more);
      PrintRoundTrip(items[0], [CLOSE_ARRAY] + more);
      assert ([CLOSE_ARRAY] + more)[1..] == more && items == [items[0]];
    } else {
      var next := PrintItems(items[1..]) + [CLOSE_ARRAY] + more;
      assert t == Print(items[0]) + ([COMMA] + next);
      PrintRoundTrip(items[0], [COMMA] + next);
      assert ([COMMA] + next)[1..] == next;
      ItemsRoundTrip(items[1..], more);
      assert items == [items[0]] + items[1..];
    }
  }

  lemma {:induction false} MemberRoundTrip(m: Member, more: Text)
    requires IsJson(m.value) && Delimited(more)
    ensures ParseMember(PrintMember(m) + more) == Some(Read(m, more))
    decreases m
  {
    hide Parse, Print, ReadString, Quote;
    var next := [COLON] + (Print(m.value) + more);
    assert PrintMember(m) + more == Quote(m.key) + next;
    QuotedIsRead(m.key, next);
    assert next[1..] == Print(m.value) + more;
    PrintRoundTrip(m.value, more);
  }

  lemma {:induction false} MembersRoundTrip(ms: seq<Member>, more: Text)
    requires ms != [] && forall i :: 0 <= i < |ms| ==> IsJson(ms[i].value)
    ensures ParseMembers(PrintMembers(ms) + [CLOSE_OBJECT] + more) == Some(Read(ms, more))
    decreases ms
  {
    hide ParseMember, PrintMember;
    var t := PrintMembers(ms) + [CLOSE_OBJECT] + more;
    if |ms| == 1 {
      assert t == PrintMember(ms[0]) + ([CLOSE_OBJECT] + more);
      MemberRoundTrip(ms[0], [CLOSE_OBJECT] + more);
      assert ([CLOSE_OBJECT] + more)[1..] == more && ms == [ms[0]];
    } else {
      var next := PrintMembers(ms[1..]) + [CLOSE_OBJECT] + more;
      assert t == PrintMember(ms[0]) + ([COMMA] + next);
      MemberRoundTrip(ms[0], [COMMA] + next);
      assert ([COMMA] + next)[1..] == next;
      MembersRoundTrip(ms[1..], more);
      assert ms == [ms[0]] + ms[1..];
    }
  }

  /** Different trees have different texts. */
  lemma PrintInjective(a: Json, b: Json)
    requires IsJson(a) && IsJson(b) && Print(a) == Print(b)
    ensures a == b
  {
    hide Print, Parse;
    PrintRoundTrip(a, []);
    PrintRoundTrip(b, []);
    assert Print(a) + [] == Print(a);
  }
}
