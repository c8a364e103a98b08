/** JSON strings as sequences of UTF-16 code units: quoting as `JSON.stringify` does it, reading as
    section 7 of RFC 8259 defines it, and the length of the UTF-8 encoding. */
module JsonText {
  import opened Wrappers

  type Unit = u: int | 0 <= u < 0x1_0000
  type Text = seq<Unit>

  const QUOTE_MARK: Unit := 0x22
  const BACKSLASH: Unit := 0x5c
  const COMMA: Unit := 0x2c
  const COLON: Unit := 0x3a

  predicate High(u: Unit) {
    0xd800 <= u < 0xdc00
  }

  predicate Low(u: Unit) {
    0xdc00 <= u < 0xe000
  }

  /** The text starts with a surrogate pair. */
  predicate StartsPair(t: Text) {
    |t| >= 2 && High(t[0]) && Low(t[1])
  }

  /** The code point a surrogate pair stands for. */
  function CodePoint(a: Unit, b: Unit): int {
    0x1_0000 + (a - 0xd800) * 0x400 + (b - 0xdc00)
  }

  /** Surrogate pairs are the code points beyond the basic plane, each once, and nothing else. */
  lemma PairsAreSupplementary(c: int) returns (a: Unit, b: Unit)
    requires 0x1_0000 <= c < 0x11_0000
    ensures High(a) && Low(b) && CodePoint(a, b) == c
    ensures forall x: Unit, y: Unit :: High(x) && Low(y) && CodePoint(x, y) == c ==> x == a && y == b
    ensures forall x: Unit, y: Unit :: High(x) && Low(y) ==> 0x1_0000 <= CodePoint(x, y) < 0x11_0000
  {
    var d := c - 0x1_0000;
    a, b := 0xd800 + d / 0x400, 0xdc00 + d % 0x400;
  }

  // ----- quoting

  function Hex(d: nat): Unit
    requires d < 16
  {
    if d < 10 then 0x30 + d else 0x61 + d - 10
  }

  function Escaped(u: Unit): Text {
    [BACKSLASH, 0x75, Hex(u / 0x1000), Hex(u / 0x100 % 16), Hex(u / 16 % 16), Hex(u % 16)]
  }

  /** One code unit that is not part of a surrogate pair. */
  function QuoteUnit(u: Unit): Text {
    if u == QUOTE_MARK || u == BACKSLASH then [BACKSLASH, u]
    else if u == 0x08 then [BACKSLASH, 0x62]
    else if u == 0x09 then [BACKSLASH, 0x74]
    else if u == 0x0a then [BACKSLASH, 0x6e]
    else if u == 0x0c then [BACKSLASH, 0x66]
    else if u == 0x0d then [BACKSLASH, 0x72]
    else if u < 0x20 || High(u) || Low(u) then Escaped(u)
    else [u]
  }

  function QuoteBody(s: Text): Text {
    if s == [] then []
    else if StartsPair(s) then [s[0], s[1]] + QuoteBody(s[2..])
    else QuoteUnit(s[0]) + QuoteBody(s[1..])
  }

  /** `JSON.stringify` of a string. */
  function Quote(s: Text): Text {
    [QUOTE_MARK] + QuoteBody(s) + [QUOTE_MARK]
  }

  // ----- reading

  function HexValue(u: Unit): Option<nat> {
    if 0x30 <= u <= 0x39 then Some(u - 0x30)
    else if 0x41 <= u <= 0x46 then Some(u - 0x41 + 10)
    else if 0x61 <= u <= 0x66 then Some(u - 0x61 + 10)
    else None
  }

  /** The four hexadecimal digits after `\u`. */
  function ReadHex(t: Text): Option<Unit>
    requires |t| >= 4
  {
    var a, b, c, d := HexValue(t[0]), HexValue(t[1]), HexValue(t[2]), HexValue(t[3]);
    if a.None? || b.None? || c.None? || d.None? then None
    else
      Four(a.value, b.value, c.value, d.value)
  }

  function Four(a: nat, b: nat, c: nat, d: nat): Option<Unit> {
    var u := a * 0x1000 + b * 0x100 + c * 16 + d;
    if u < 0x1_0000 then Some(u) else None
  }

  function ReadEscape(u: Unit): Option<Unit> {
    if u == QUOTE_MARK || u == BACKSLASH || u == 0x2f then Some(u)
    else if u == 0x62 then Some(0x08)
    else if u == 0x66 then Some(0x0c)
    else if u == 0x6e then Some(0x0a)
    else if u == 0x72 then Some(0x0d)
    else if u == 0x74 then Some(0x09)
    else None
  }

  datatype Read<+T> = Read(value: T, rest: Text)

  /** One character of a string: escaped, a surrogate pair, or an unescaped unit from %x20 up other than
      the quotation mark, the reverse solidus and a lone surrogate. */
  function ReadChar(t: Text): (r: Option<Read<Text>>)
    ensures r.Some? ==> |r.value.rest| < |t|
  {
    if t == [] then None
    else if t[0] == BACKSLASH then
      if |t| >= 6 && t[1] == 0x75 then
        var u := ReadHex(t[2..]);
        if u.None? then None else Some(Read([u.value], t[6..]))
      else if |t| >= 2 then
        var u := ReadEscape(t[1]);
        if u.None? then None else Some(Read([u.value], t[2..]))
      else None
    else if StartsPair(t) then Some(Read([t[0], t[1]], t[2..]))
    else if t[0] < 0x20 || t[0] == QUOTE_MARK || High(t[0]) || Low(t[0]) then None
    else Some(Read([t[0]], t[1..]))
  }

  function ReadBody(t: Text): (r: Option<Read<Text>>)
    ensures r.Some? ==> |r.value.rest| < |t|
    decreases |t|
  {
    if t == [] then None
    else if t[0] == QUOTE_MARK then Some(Read([], t[1..]))
    else
      var c := ReadChar(t);
      if c.None? then None
      else
        var more := ReadBody(c.value.rest);
        if more.None? then None else Some(Read(c.value.value + more.value.value, more.value.rest))
  }

  /** A whole string token at the start of `t`. */
  function ReadString(t: Text): (r: Option<Read<Text>>)
    ensures r.Some? ==> |r.value.rest| < |t|
  {
    if t == [] || t[0] != QUOTE_MARK then None else ReadBody(t[1..])
  }

  lemma HexIsRead(d: nat)
    requires d < 16
    ensures HexValue(Hex(d)) == Some(d) && (d >= 10 ==> HexValue(0x41 + d - 10) == Some(d))
  {
  }

  lemma FourDigits(u: Unit)
    ensures u == u / 0x1000 * 0x1000 + u / 0x100 % 16 * 0x100 + u / 16 % 16 * 16 + u % 16
  {
    assert u / 0x100 == u / 0x1000 * 16 + u / 0x100 % 16;
    assert u / 16 == u / 0x100 * 16 + u / 16 % 16;
    assert u == u / 16 * 16 + u % 16;
  }

  lemma EscapedIsRead(u: Unit, more: Text)
    ensures ReadChar(Escaped(u) + more) == Some(Read([u], more))
  {
    hide Hex, HexValue;
    var t := Escaped(u) + more;
    FourDigits(u);
    HexIsRead(u / 0x1000);
    HexIsRead(u / 0x100 % 16);
    HexIsRead(u / 16 % 16);
    HexIsRead(u % 16);
    assert ReadHex(t[2..]) == Some(u);
    assert t[6..] == more;
  }


  /** Reading what was quoted gives the string back, lone surrogates and control characters included. */
  lemma {:induction false} QuoteRoundTrip(s: Text, more: Text)
    ensures ReadBody(QuoteBody(s) + [QUOTE_MARK] + more) == Some(Read(s, more))
    decreases |s|
  {
    hide ReadChar, QuoteUnit;
    var t := QuoteBody(s) + [QUOTE_MARK] + more;
    if s == [] {
      assert t[1..] == more;
    } else if StartsPair(s) {
      var next := QuoteBody(s[2..]) + [QUOTE_MARK] + more;
      QuoteRoundTrip(s[2..], more);
      assert t == [s[0], s[1]] + next;
      PairIsRead(s[0], s[1], next);
      assert s == [s[0], s[1]] + s[2..];
    } else {
      var next := QuoteBody(s[1..]) + [QUOTE_MARK] + more;
      QuoteRoundTrip(s[1..], more);
      assert t == QuoteUnit(s[0]) + next;
      QuoteUnitIsRead(s[0], next);
      assert s == [s[0]] + s[1..];
    }
  }

  lemma PairIsRead(a: Unit, b: Unit, more: Text)
    requires High(a) && Low(b)
    ensures ReadChar([a, b] + more) == Some(Read([a, b], more))
  {
    assert ([a, b] + more)[2..] == more;
  }

  lemma QuoteUnitIsRead(u: Unit, more: Text)
    ensures QuoteUnit(u) != [] && QuoteUnit(u)[0] != QUOTE_MARK
    ensures ReadChar(QuoteUnit(u) + more) == Some(Read([u], more))
  {
    var t := QuoteUnit(u) + more;
    if u < 0x20 || High(u) || Low(u) {
      if QuoteUnit(u) == Escaped(u) {
        EscapedIsRead(u, more);
      } else {
        assert t[1] != 0x75 && t[2..] == more;
      }
    } else if |QuoteUnit(u)| == 2 {
      assert t[1] != 0x75 && t[2..] == more;
    } else {
      assert t[1..] == more;
    }
  }

  /** A quoted string is one string token, and it denotes the string. */
  lemma QuotedIsRead(s: Text, more: Text)
    ensures ReadString(Quote(s) + more) == Some(Read(s, more))
  {
    var t := Quote(s) + more;
    assert t[1..] == QuoteBody(s) + [QUOTE_MARK] + more;
    QuoteRoundTrip(s, more);
  }

  // ----- the shortest token

  lemma UnitIsShortest(u: Unit, t: Text, rest: Text)
    requires ReadChar(t) == Some(Read([u], rest))
    ensures |QuoteUnit(u)| <= |t| - |rest|
  {
  }

  lemma PairOrUnit(t: Text)
    requires ReadChar(t).Some?
    ensures var v, rest := ReadChar(t).value.value, ReadChar(t).value.rest;
            |rest| < |t| && (|v| == 1 || (|v| == 2 && StartsPair(v) && |t| - |rest| == 2))
  {
  }

  lemma QuoteFirst(v: Text, s: Text, n: nat)
    requires (|v| == 1 && |QuoteUnit(v[0])| <= n) || (|v| == 2 && StartsPair(v) && n == 2)
    ensures |QuoteBody(v + s)| <= n + |QuoteBody(s)|
  {
    if |v| == 2 {
      assert StartsPair(v + s) && (v + s)[2..] == s;
    } else if StartsPair(v + s) {
      assert (v + s)[2..] == s[1..] && !StartsPair(s);
    } else {
      assert (v + s)[1..] == s;
    }
  }

  /** No token that denotes the string is shorter than its quotation: nothing is escaped that need not be. */
  lemma {:induction false} QuoteIsShortest(s: Text, t: Text)
    requires ReadBody(t) == Some(Read(s, []))
    ensures |QuoteBody(s)| + 1 <= |t|
    decreases |t|
  {
    hide ReadChar, QuoteUnit, QuoteBody;
    if t[0] == QUOTE_MARK {
      EmptyBody();
    } else {
      var c := ReadChar(t).value;
      var more := ReadBody(c.rest).value;
      PairOrUnit(t);
      QuoteIsShortest(more.value, c.rest);
      if |c.value| == 1 {
        assert c.value == [c.value[0]];
        UnitIsShortest(c.value[0], t, c.rest);
      }
      QuoteFirst(c.value, more.value, |t| - |c.rest|);
    }
  }

  lemma EmptyBody()
    ensures QuoteBody([]) == []
  {
  }

  /** Escapes are written in lower case, and a surrogate pair is not escaped. */
  lemma EscapesAreLowerCase(u: Unit, a: Unit, b: Unit)
    requires High(a) && Low(b)
    ensures forall i :: 0 <= i < 6 ==> !(0x41 <= Escaped(u)[i] <= 0x46)
    ensures Quote([a, b]) == [0x22, a, b, 0x22]
  {
    assert [a, b][2..] == [];
    assert QuoteBody([a, b]) == [a, b] + QuoteBody([]);
  }

  // ----- UTF-8

  lemma Utf8OfUnits(u: Unit, a: Unit, b: Unit)
    requires High(a) && Low(b)
    ensures Utf8Len([u]) == if u < 0x80 then 1 else if u < 0x800 then 2 else 3
    ensures Utf8Len([a, b]) == 4
  {
    assert [u][1..] == [] && [a, b][2..] == [];
  }

  /** The bytes `TextEncoder` writes: a lone surrogate becomes U+FFFD. */
  function Utf8Len(t: Text): nat {
    if t == [] then 0
    else if StartsPair(t) then 4 + Utf8Len(t[2..])
    else (if t[0] < 0x80 then 1 else if t[0] < 0x800 then 2 else 3) + Utf8Len(t[1..])
  }

  /** Encodings concatenate as long as the cut does not split a surrogate pair. */
  lemma {:induction false} Utf8Concat(a: Text, b: Text)
    requires b == [] || !Low(b[0])
    ensures Utf8Len(a + b) == Utf8Len(a) + Utf8Len(b)
    decreases |a|
  {
    var t := a + b;
    if a == [] {
      assert t == b;
    } else if StartsPair(a) {
      assert StartsPair(t) && t[2..] == a[2..] + b;
      Utf8Concat(a[2..], b);
    } else {
      assert !StartsPair(t);
      assert t[1..] == a[1..] + b;
      Utf8Concat(a[1..], b);
    }
  }

  lemma {:induction false} AsciiLen(t: Text)
    requires forall i :: 0 <= i < |t| ==> t[i] < 0x80
    ensures Utf8Len(t) == |t|
  {
    if t != [] {
      AsciiLen(t[1..]);
    }
  }
}
