/** The generated-region rewriter over file text. Each result is tied to the line-by-line view, in which
    the fixed-point and frame properties are proved. */
module GeneratedRegion {
  import opened Wrappers
  import opened TextLines
  import opened RegionLines

  datatype Region = Region(file: string, name: string, body: string)

  const GENERATOR_COMMAND: string := "bun run generate-provider-wiring"

  function EndsWith(s: string, suffix: string): bool {
    |suffix| <= |s| && s[|s| - |suffix|..] == suffix
  }

  function Comment(file: string, marker: string): (r: Marker)
    ensures r == if EndsWith(file, ".md") then "<!-- " + marker + " -->" else "# " + marker
  {
    if EndsWith(file, ".md") then
      assert ("<!-- " + marker + " -->")[0] == '<';
      "<!-- " + marker + " -->"
    else
      assert ("# " + marker)[0] == '#';
      "# " + marker
  }

  function StartText(name: string): string {
    ">>> generated: " + name + (" \U{2014} " + GENERATOR_COMMAND)
  }

  function EndText(name: string): string {
    "<<< end generated: " + name + ""
  }

  function Start(region: Region): Marker {
    Comment(region.file, StartText(region.name))
  }

  function End(region: Region): Marker {
    Comment(region.file, EndText(region.name))
  }

  function BlockOf(region: Region): Block {
    Block(Start(region), End(region), Split(region.body))
  }

  lemma EndsWithMeans(s: string, suffix: string)
    ensures EndsWith(s, suffix) <==> exists stem: string :: s == stem + suffix
  {
    if EndsWith(s, suffix) {
      assert s == s[..|s| - |suffix|] + suffix;
    }
    if stem: string :| s == stem + suffix {
      assert s[|s| - |suffix|..] == suffix;
    }
  }

  /** The wording of the markers, letter for letter. */
  lemma MarkerTexts(name: string)
    ensures StartText(name) == ">>> generated: " + name + " \U{2014} bun run generate-provider-wiring"
    ensures EndText(name) == "<<< end generated: " + name
  {
    assert " \U{2014} " + GENERATOR_COMMAND == " \U{2014} bun run generate-provider-wiring";
    assert EndText(name) == "<<< end generated: " + name;
  }

  /** Markdown files get HTML comments, all others hash comments. */
  lemma CommentStyles(region: Region)
    ensures (exists stem: string :: region.file == stem + ".md") ==>
              Start(region) == "<!-- " + StartText(region.name) + " -->"
              && End(region) == "<!-- " + EndText(region.name) + " -->"
    ensures (forall stem: string :: region.file != stem + ".md") ==>
              Start(region) == "# " + StartText(region.name) && End(region) == "# " + EndText(region.name)
  {
    hide StartText, EndText, EndsWith;
    EndsWithMeans(region.file, ".md");
  }

  /** A start marker is never an end marker, whatever the regions' names. */
  lemma StartIsNoEnd(r: Region, s: Region)
    requires r.file == s.file
    ensures Start(r) != End(s)
  {
    assert StartText(r.name)[0] == '>' && EndText(s.name)[0] == '<';
    if Start(r) == End(s) {
      Strip(r.file, StartText(r.name), EndText(s.name));
    }
  }

  /** Regions of one file with different names have four different markers. */
  lemma NamesSeparate(r: Region, s: Region)
    requires r.file == s.file && r.name != s.name
    ensures Start(r) != Start(s) && End(r) != End(s) && Start(r) != End(s) && End(r) != Start(s)
  {
    hide Start, End, StartText, EndText;
    StartIsNoEnd(r, s);
    StartIsNoEnd(s, r);
    if Start(r) == Start(s) {
      SameStart(r, s);
    }
    if End(r) == End(s) {
      SameEnd(r, s);
    }
  }

  lemma SameStart(r: Region, s: Region)
    requires r.file == s.file && Start(r) == Start(s)
    ensures r.name == s.name
  {
    Strip(r.file, StartText(r.name), StartText(s.name));
    Middle(">>> generated: ", r.name, s.name, " \U{2014} " + GENERATOR_COMMAND);
  }

  lemma SameEnd(r: Region, s: Region)
    requires r.file == s.file && End(r) == End(s)
    ensures r.name == s.name
  {
    Strip(r.file, EndText(r.name), EndText(s.name));
    Middle("<<< end generated: ", r.name, s.name, "");
  }

  lemma Middle(a: string, x: string, y: string, b: string)
    requires a + x + b == a + y + b
    ensures x == y
  {
    assert |x| == |y|;
    assert (a + x + b)[|a|..|a| + |x|] == x && (a + y + b)[|a|..|a| + |y|] == y;
  }

  lemma Strip(file: string, x: string, y: string)
    requires Comment(file, x) == Comment(file, y)
    ensures x == y
  {
    if EndsWith(file, ".md") {
      Middle("<!-- ", x, y, " -->");
    } else {
      assert "# " + x + "" == "# " + x && "# " + y + "" == "# " + y;
      Middle("# ", x, y, "");
    }
  }

  // ----- marker positions

  /** A marker stands alone on its line, indented by white space. */
  ghost predicate IsMarkerAt(source: string, marker: Marker, i: nat) {
    i + |marker| <= |source| && source[i..i + |marker|] == marker && Line(marker)
    && (i + |marker| == |source| || source[i + |marker|] == '\n')
    && exists start: nat :: start <= i && Indentation(source, start, i)
  }

  ghost predicate Indentation(source: string, start: nat, i: nat)
    requires start <= i <= |source|
  {
    (start == 0 || source[start - 1] == '\n')
    && forall k :: start <= k < i ==> White(source[k]) && source[k] != '\n'
  }

  /** Where the markers among the first `n` lines stand. */
  function MarkerIndices(lines: seq<string>, marker: Marker, n: nat): seq<nat>
    requires n <= |lines|
  {
    if n == 0 then []
    else
      MarkerIndices(lines, marker, n - 1) + if IsMarker(lines[n - 1], marker) then [IndexOf(lines, n - 1)] else []
  }

  function IndexOf(lines: seq<string>, k: nat): nat
    requires k < |lines|
  {
    |Text(lines[..k])| + Indent(lines[k])
  }

  lemma {:induction false} IndicesAreLines(lines: seq<string>, marker: Marker, n: nat, i: nat)
    requires n <= |lines|
    ensures i in MarkerIndices(lines, marker, n)
            <==> exists k: nat :: k < n && IsMarker(lines[k], marker) && i == IndexOf(lines, k)
  {
    if n > 0 {
      IndicesAreLines(lines, marker, n - 1, i);
    }
  }

  lemma {:induction false} OffsetsGrow(lines: seq<string>, j: nat, k: nat)
    requires j < k <= |lines|
    ensures |Text(lines[..j])| + |lines[j]| + 1 <= |Text(lines[..k])|
  {
    TextGrows(lines, k - 1);
    if j < k - 1 {
      OffsetsGrow(lines, j, k - 1);
    }
  }

  lemma {:induction false} IndicesIncrease(lines: seq<string>, marker: Marker, n: nat)
    requires n <= |lines|
    ensures forall p, q :: 0 <= p < q < |MarkerIndices(lines, marker, n)| ==>
              MarkerIndices(lines, marker, n)[p] < MarkerIndices(lines, marker, n)[q]
  {
    if n > 0 {
      IndicesIncrease(lines, marker, n - 1);
      var before := MarkerIndices(lines, marker, n - 1);
      forall p | 0 <= p < |before| ensures before[p] < IndexOf(lines, n - 1) {
        IndicesAreLines(lines, marker, n - 1, before[p]);
        var k: nat :| k < n - 1 && IsMarker(lines[k], marker) && before[p] == IndexOf(lines, k);
        OffsetsGrow(lines, k, n - 1);
      }
    }
  }

  predicate Blank(s: string) {
    forall k :: 0 <= k < |s| ==> White(s[k]) && s[k] != '\n'
  }

  predicate EndsLine(s: string) {
    s == "" || s[|s| - 1] == '\n'
  }

  predicate BeginsLine(s: string) {
    s == "" || s[0] == '\n'
  }

  lemma PositionBetween(pre: string, blank: string, marker: Marker, after: string)
    requires EndsLine(pre) && Blank(blank) && Line(marker) && BeginsLine(after)
    ensures IsMarkerAt(pre + blank + marker + after, marker, |pre| + |blank|)
  {
    var source, i := pre + blank + marker + after, |pre| + |blank|;
    assert source[i..i + |marker|] == marker;
    forall k | |pre| <= k < i ensures White(source[k]) && source[k] != '\n' {
      assert source[k] == blank[k - |pre|];
    }
    assert Indentation(source, |pre|, i);
  }

  lemma AroundPosition(source: string, marker: Marker, i: nat) returns (pre: string, blank: string, after: string)
    requires IsMarkerAt(source, marker, i)
    ensures source == pre + blank + marker + after && i == |pre| + |blank|
    ensures EndsLine(pre) && Blank(blank) && Line(marker) && BeginsLine(after)
  {
    var start: nat :| start <= i && Indentation(source, start, i);
    pre, blank, after := source[..start], source[start..i], source[i + |marker|..];
    forall k | 0 <= k < |blank| ensures White(blank[k]) && blank[k] != '\n' {
      assert blank[k] == source[start + k];
    }
  }

  lemma AfterBeginsLine(lines: seq<string>, k: nat)
    requires k < |lines|
    ensures BeginsLine(After(lines, k))
  {
  }

  lemma {:induction false} TextEndsLine(lines: seq<string>)
    ensures EndsLine(Text(lines))
  {
    if lines != [] {
      TextEndsLine(lines[1..]);
    }
  }

  lemma Regroup(pre: string, blank: string, marker: string, after: string)
    ensures pre + (blank + marker) + after == pre + blank + marker + after
  {
  }

  lemma MarkerLine(line: string, marker: Marker)
    requires Line(line) && IsMarker(line, marker)
    ensures line == line[..Indent(line)] + marker && Blank(line[..Indent(line)]) && Line(marker)
  {
    hide Indent, White;
    var n := Indent(line);
    assert line == line[..n] + line[n..];
    forall k | 0 <= k < |marker| ensures marker[k] != '\n' {
      assert marker[k] == line[n + k];
    }
  }

  /** A marker line is a marker position of the text. */
  lemma LineIsPosition(lines: seq<string>, marker: Marker, k: nat)
    requires Lines(lines) && k < |lines| && IsMarker(lines[k], marker)
    ensures IsMarkerAt(Join(lines), marker, IndexOf(lines, k))
  {
    hide Join, Text, After, IsMarkerAt, EndsLine, BeginsLine, Blank, IsMarker, Indent, Line, White;
    var pre, blank, after := Text(lines[..k]), lines[k][..Indent(lines[k])], After(lines, k);
    AroundLine(lines, k);
    AfterBeginsLine(lines, k);
    TextEndsLine(lines[..k]);
    MarkerLine(lines[k], marker);
    Regroup(pre, blank, marker, after);
    PositionBetween(pre, blank, marker, after);
  }

  function FirstNewline(s: string): nat {
    if s == "" || s[0] == '\n' then 0 else 1 + FirstNewline(s[1..])
  }

  lemma {:induction false} LineEnds(line: string, after: string)
    requires Line(line) && BeginsLine(after)
    ensures FirstNewline(line + after) == |line|
  {
    if line != "" {
      assert (line + after)[1..] == line[1..] + after;
      LineEnds(line[1..], after);
    } else {
      assert line + after == after;
    }
  }

  /** A marker position of the text is a marker line. */
  lemma PositionIsLine(lines: seq<string>, marker: Marker, i: nat) returns (k: nat)
    requires lines != [] && Lines(lines) && IsMarkerAt(Join(lines), marker, i)
    ensures k < |lines| && IsMarker(lines[k], marker) && i == IndexOf(lines, k)
  {
    hide Join, Text, After, IsMarkerAt, BeginsLine;
    var source := Join(lines);
    var pre, blank, after := AroundPosition(source, marker, i);
    k := StartsLine(lines, |pre|);
    AroundLine(lines, k);
    AfterBeginsLine(lines, k);
    assert source == pre + ((blank + marker) + after);
    assert source == Text(lines[..k]) + (lines[k] + After(lines, k));
    assert source[|pre|..] == (blank + marker) + after == lines[k] + After(lines, k);
    assert Line(blank + marker);
    LineEnds(blank + marker, after);
    LineEnds(lines[k], After(lines, k));
    assert source[|pre|..][..|lines[k]|] == lines[k] == blank + marker;
    IndentOf(blank, marker);
    assert (blank + marker)[|blank|..] == marker;
  }

  /** `exactMarkerIndices`: exactly the marker positions, in order. */
  method ExactMarkerIndices(source: string, marker: Marker) returns (indices: seq<nat>)
    ensures forall p, q :: 0 <= p < q < |indices| ==> indices[p] < indices[q]
    ensures forall i: nat :: i in indices <==> IsMarkerAt(source, marker, i)
    ensures indices == MarkerIndices(Split(source), marker, |Split(source)|)
  {
    hide Split, Text, Join, IsMarkerAt;
    var lines := Split(source);
    indices := [];
    var offset := 0;
    NoText(lines);
    for k := 0 to |lines|
      invariant offset == |Text(lines[..k])|
      invariant indices == MarkerIndices(lines, marker, k)
    {
      var indent := Indent(lines[k]);
      if lines[k][indent..] == marker {
        indices := indices + [offset + indent];
      }
      TextGrows(lines, k);
      offset := offset + |lines[k]| + 1;
    }
    IndicesIncrease(lines, marker, |lines|);
    forall i: nat ensures i in indices <==> IsMarkerAt(source, marker, i) {
      IndexIsPosition(source, marker, i);
    }
  }

  lemma NoText(lines: seq<string>)
    ensures Text(lines[..0]) == ""
  {
  }

  lemma IndexIsPosition(source: string, marker: Marker, i: nat)
    ensures i in MarkerIndices(Split(source), marker, |Split(source)|) <==> IsMarkerAt(source, marker, i)
  {
    hide Split, Text, Join, IsMarkerAt;
    var lines := Split(source);
    JoinSplit(source);
    IndicesAreLines(lines, marker, |lines|, i);
    if i in MarkerIndices(lines, marker, |lines|) {
      var k: nat :| k < |lines| && IsMarker(lines[k], marker) && i == IndexOf(lines, k);
      LineIsPosition(lines, marker, k);
    }
    if IsMarkerAt(source, marker, i) {
      var k := PositionIsLine(lines, marker, i);
    }
  }

  // ----- rewriting

  lemma IndicesFollowLines(lines: seq<string>, j: nat, k: nat)
    requires j < |lines| && k < |lines|
    ensures j < k <==> IndexOf(lines, j) < IndexOf(lines, k)
  {
    if j < k {
      OffsetsGrow(lines, j, k);
    } else if k < j {
      OffsetsGrow(lines, k, j);
    }
  }

  /** One index means one marker line, and that is where it stands. */
  lemma OneIndex(lines: seq<string>, marker: Marker) returns (k: nat)
    requires |MarkerIndices(lines, marker, |lines|)| == 1
    ensures UniqueAt(lines, marker, k) && MarkerIndices(lines, marker, |lines|)[0] == IndexOf(lines, k)
  {
    hide IndexOf, IsMarker, MarkerIndices;
    var indices := MarkerIndices(lines, marker, |lines|);
    IndicesAreLines(lines, marker, |lines|, indices[0]);
    k :| 0 <= k < |lines| && IsMarker(lines[k], marker) && indices[0] == IndexOf(lines, k);
    forall j: nat | j < |lines| && j != k ensures !IsMarker(lines[j], marker) {
      if IsMarker(lines[j], marker) {
        IndicesAreLines(lines, marker, |lines|, IndexOf(lines, j));
        IndicesFollowLines(lines, j, k);
        IndicesFollowLines(lines, k, j);
      }
    }
  }

  lemma UniqueHasOneIndex(lines: seq<string>, marker: Marker, k: nat)
    requires UniqueAt(lines, marker, k)
    ensures MarkerIndices(lines, marker, |lines|) == [IndexOf(lines, k)]
  {
    hide IndexOf, IsMarker, MarkerIndices;
    var indices := MarkerIndices(lines, marker, |lines|);
    IndicesIncrease(lines, marker, |lines|);
    assert |indices| > 1 ==> indices[0] < indices[1];
    IndicesAreLines(lines, marker, |lines|, IndexOf(lines, k));
    forall p | 0 <= p < |indices| ensures indices[p] == IndexOf(lines, k) {
      IndicesAreLines(lines, marker, |lines|, indices[p]);
    }
  }

  /** Where the line that holds position `i` starts. */
  function LineStart(source: string, i: nat): (start: nat)
    requires i <= |source|
    ensures start <= i
  {
    if i == 0 || source[i - 1] == '\n' then i else LineStart(source, i - 1)
  }

  lemma {:induction false} LineStartIs(pre: string, blank: string, more: string)
    requires EndsLine(pre) && Blank(blank)
    ensures LineStart(pre + blank + more, |pre| + |blank|) == |pre|
  {
    var source := pre + blank + more;
    if blank == "" {
      assert pre != "" ==> source[|pre| - 1] == '\n';
    } else {
      var n := |blank| - 1;
      assert source[|pre| + n] == blank[n];
      assert source == pre + blank[..n] + ([blank[n]] + more);
      LineStartIs(pre, blank[..n], [blank[n]] + more);
    }
  }

  datatype Problem = Malformed | Repeated

  ghost predicate FirstAt(source: string, marker: Marker, i: nat) {
    IsMarkerAt(source, marker, i) && forall j: nat :: j < i ==> !IsMarkerAt(source, marker, j)
  }

  /** Both markers occur, and the first start does not come after the first end. */
  ghost predicate OpensFirst(source: string, region: Region) {
    exists i: nat, j: nat :: FirstAt(source, Start(region), i) && FirstAt(source, End(region), j) && i <= j
  }

  /** What is kept and what is written: everything up to the end of the start marker and from the end
      marker on stays, and the end marker takes the start marker's indentation. */
  ghost predicate Framed(source: string, region: Region, out: string) {
    exists i: nat, j: nat :: FramedAt(source, region, out, i, j)
  }

  ghost predicate FramedAt(source: string, region: Region, out: string, i: nat, j: nat) {
    IsMarkerAt(source, Start(region), i) && IsMarkerAt(source, End(region), j) && i < j
    && out == source[..i + |Start(region)|] + "\n" + region.body + "\n" + source[LineStart(source, i)..i] + source[j..]
  }

  lemma FirstIndex(source: string, marker: Marker, indices: seq<nat>)
    requires forall p, q :: 0 <= p < q < |indices| ==> indices[p] < indices[q]
    requires forall i: nat :: i in indices <==> IsMarkerAt(source, marker, i)
    ensures indices != [] ==> FirstAt(source, marker, indices[0])
    ensures forall i: nat :: FirstAt(source, marker, i) ==> indices != [] && i == indices[0]
  {
    hide IsMarkerAt;
    forall i: nat | FirstAt(source, marker, i) ensures indices != [] && i == indices[0] {
      assert i in indices;
      assert indices[0] in indices;
    }
  }

  /** The text around the region, in lines. */
  lemma SourceAroundRegion(lines: seq<string>, r: Block, a: nat, b: nat)
    requires Lines(lines) && Rewritable(lines, r, a, b)
    ensures var source, i, j := Join(lines), IndexOf(lines, a), IndexOf(lines, b);
            i < j && i + |r.start| <= |source| && j <= |source|
            && source[..i + |r.start|] == Text(lines[..a]) + lines[a]
            && source[j..] == r.end + After(lines, b)
            && source[LineStart(source, i)..i] == lines[a][..Indent(lines[a])]
  {
    AroundMarker(lines, r.start, a);
    AroundMarker(lines, r.end, b);
    IndicesFollowLines(lines, a, b);
  }

  lemma AroundMarker(lines: seq<string>, marker: Marker, k: nat)
    requires Lines(lines) && k < |lines| && IsMarker(lines[k], marker)
    ensures var source, i := Join(lines), IndexOf(lines, k);
            i + |marker| <= |source|
            && source[..i + |marker|] == Text(lines[..k]) + lines[k]
            && source[i..] == marker + After(lines, k)
            && source[LineStart(source, i)..i] == lines[k][..Indent(lines[k])]
  {
    hide Join, Text, After, EndsLine, BeginsLine, Blank, IsMarker, Indent, Line, White, LineStart;
    var pre, blank, after := Text(lines[..k]), lines[k][..Indent(lines[k])], After(lines, k);
    AroundLine(lines, k);
    TextEndsLine(lines[..k]);
    MarkerLine(lines[k], marker);
    Regroup(pre, blank, marker, after);
    var source := pre + blank + marker + after;
    assert source == pre + blank + (marker + after);
    LineStartIs(pre, blank, marker + after);
    assert source[|pre|..|pre| + |blank|] == blank;
    assert source[|pre| + |blank|..] == marker + after;
    assert source == pre + lines[k] + after;
  }

  /** Joining the rewritten lines gives the spliced text. */
  lemma JoinRewrite(lines: seq<string>, r: Block, body: string, a: nat, b: nat)
    requires a < b < |lines| && r.body == Split(body)
    ensures Join(Rewrite(lines, r, a, b))
            == Text(lines[..a]) + lines[a] + "\n" + body + "\n" + EndLine(lines[a], r) + After(lines, b)
  {
    hide Join, Text, Split, EndLine;
    var head, tail := lines[..a + 1] + r.body, [EndLine(lines[a], r)] + lines[b + 1..];
    assert Rewrite(lines, r, a, b) == head + tail;
    JoinAppends(head, tail);
    TextAppends(lines[..a + 1], r.body);
    TextGrows(lines, a);
    TextIsJoin(r.body);
    JoinSplit(body);
    FirstLine(tail);
    assert tail[1..] == lines[b + 1..];
  }

  lemma RewriteIsLines(lines: seq<string>, r: Block, a: nat, b: nat)
    requires Lines(lines) && Lines(r.body) && Rewritable(lines, r, a, b)
    ensures Lines(Rewrite(lines, r, a, b))
  {
    hide IsMarker, Indent, White, Line;
    MarkerLine(lines[a], r.start);
    MarkerLine(lines[b], r.end);
    BlankThenMarker(lines[a][..Indent(lines[a])], r.end);
  }

  lemma BlankThenMarker(blank: string, marker: string)
    requires Blank(blank) && Line(marker)
    ensures Line(blank + marker)
  {
  }

  /** The spliced text is the rewriting of the lines. */
  lemma SpliceRewrites(source: string, region: Region, a: nat, b: nat, out: string)
    requires Rewritable(Split(source), BlockOf(region), a, b)
    requires var i, j := IndexOf(Split(source), a), IndexOf(Split(source), b);
             i + |Start(region)| <= |source| && j <= |source|
             && out == source[..i + |Start(region)|] + "\n" + region.body + "\n"
                       + source[LineStart(source, i)..i] + source[j..]
    ensures Rewrites(Split(source), BlockOf(region), Split(out))
    ensures Framed(source, region, out)
  {
    hide Join, Text, Split, After, Start, End, IsMarker, Indent, White, Line, LineStart, IsMarkerAt, IndexOf, Rewrite;
    var lines, r := Split(source), BlockOf(region);
    JoinSplit(source);
    SpliceIsRewrite(lines, region, r, a, b, out);
    RewriteIsLines(lines, r, a, b);
    RewriteLength(lines, r, a, b);
    SplitJoin(Rewrite(lines, r, a, b));
    IndicesFollowLines(lines, a, b);
    LineIsPosition(lines, r.start, a);
    LineIsPosition(lines, r.end, b);
    assert FramedAt(source, region, out, IndexOf(lines, a), IndexOf(lines, b));
  }

  lemma SpliceIsRewrite(lines: seq<string>, region: Region, r: Block, a: nat, b: nat, out: string)
    requires lines != [] && Lines(lines) && Rewritable(lines, r, a, b) && r.body == Split(region.body)
    requires var source, i, j := Join(lines), IndexOf(lines, a), IndexOf(lines, b);
             i + |r.start| <= |source| && j <= |source|
             && out == source[..i + |r.start|] + "\n" + region.body + "\n"
                       + source[LineStart(source, i)..i] + source[j..]
    ensures out == Join(Rewrite(lines, r, a, b))
  {
    hide Join, Text, Split, After, IsMarker, Indent, White, Line, LineStart, IndexOf, Rewrite, UniqueAt;
    SourceAroundRegion(lines, r, a, b);
    IsLine(lines, r.end, b);
    JoinRewrite(lines, r, region.body, a, b);
    SpliceText(Text(lines[..a]) + lines[a], region.body, lines[a][..Indent(lines[a])], r.end, After(lines, b));
  }

  lemma SpliceText(head: string, body: string, blank: string, end: string, after: string)
    ensures head + "\n" + body + "\n" + blank + (end + after) == head + "\n" + body + "\n" + (blank + end) + after
  {
  }

  /** `replaceGeneratedRegion`: it succeeds exactly when each marker stands on one line, the start first. */
  method ReplaceGeneratedRegion(source: string, region: Region) returns (r: Result<string, Problem>)
    ensures r.Ok? <==> Present(Split(source), BlockOf(region))
    ensures r.Ok? ==> Rewrites(Split(source), BlockOf(region), Split(r.value)) && Framed(source, region, r.value)
    ensures r == Err(Malformed) <==> !OpensFirst(source, region)
  {
    hide Split, Start, End, IsMarkerAt, IndexOf, MarkerIndices, LineStart, Rewrites, Framed, OpensFirst, Present;
    hide Rewritable, White;
    var start, end := Start(region), End(region);
    var starts := ExactMarkerIndices(source, start);
    var ends := ExactMarkerIndices(source, end);
    Diagnose(source, region, starts, ends);
    if |starts| == 0 || |ends| == 0 || ends[0] < starts[0] {
      return Err(Malformed);
    }
    if |starts| != 1 || |ends| != 1 {
      return Err(Repeated);
    }
    var startIndex, endIndex := starts[0], ends[0];
    ghost var a, b := RegionLinesAt(source, region);
    SpliceInRange(source, region, a, b);
    var bodyStart := startIndex + |start|;
    var indent := source[LineStart(source, startIndex)..startIndex];
    r := Ok(source[..bodyStart] + "\n" + region.body + "\n" + indent + source[endIndex..]);
    SpliceRewrites(source, region, a, b, r.value);
  }

  lemma SpliceInRange(source: string, region: Region, a: nat, b: nat)
    requires Rewritable(Split(source), BlockOf(region), a, b)
    ensures IndexOf(Split(source), a) + |Start(region)| <= |source| && IndexOf(Split(source), b) <= |source|
  {
    hide Split, Start, End, IndexOf, LineStart;
    JoinSplit(source);
    SourceAroundRegion(Split(source), BlockOf(region), a, b);
  }

  /** What the two index lists say about the source. */
  lemma Diagnose(source: string, region: Region, starts: seq<nat>, ends: seq<nat>)
    requires forall p, q :: 0 <= p < q < |starts| ==> starts[p] < starts[q]
    requires forall p, q :: 0 <= p < q < |ends| ==> ends[p] < ends[q]
    requires forall i: nat :: i in starts <==> IsMarkerAt(source, Start(region), i)
    requires forall i: nat :: i in ends <==> IsMarkerAt(source, End(region), i)
    requires starts == MarkerIndices(Split(source), Start(region), |Split(source)|)
    requires ends == MarkerIndices(Split(source), End(region), |Split(source)|)
    ensures OpensFirst(source, region) <==> starts != [] && ends != [] && starts[0] <= ends[0]
    ensures Present(Split(source), BlockOf(region)) <==> |starts| == 1 && |ends| == 1 && starts[0] <= ends[0]
  {
    hide Split, Start, End, IsMarkerAt, IndexOf, MarkerIndices, Rewritable, FirstAt;
    FirstIndex(source, Start(region), starts);
    FirstIndex(source, End(region), ends);
    if Present(Split(source), BlockOf(region)) {
      PresentHasIndices(Split(source), BlockOf(region));
    }
    if |starts| == 1 && |ends| == 1 && starts[0] <= ends[0] {
      var a, b := RegionLinesAt(source, region);
    }
  }

  lemma PresentHasIndices(lines: seq<string>, r: Block)
    requires Present(lines, r)
    ensures var starts, ends := MarkerIndices(lines, r.start, |lines|), MarkerIndices(lines, r.end, |lines|);
            |starts| == 1 && |ends| == 1 && starts[0] < ends[0]
  {
    hide UniqueAt, MarkerIndices, IndexOf;
    var a: nat, b: nat :| Rewritable(lines, r, a, b);
    UniqueHasOneIndex(lines, r.start, a);
    UniqueHasOneIndex(lines, r.end, b);
    IsLine(lines, r.start, a);
    IsLine(lines, r.end, b);
    IndicesFollowLines(lines, a, b);
  }

  lemma IsLine(lines: seq<string>, marker: Marker, k: nat)
    requires UniqueAt(lines, marker, k)
    ensures k < |lines| && IsMarker(lines[k], marker)
  {
  }

  lemma RegionLinesAt(source: string, region: Region) returns (a: nat, b: nat)
    requires var lines, r := Split(source), BlockOf(region);
             var starts, ends := MarkerIndices(lines, r.start, |lines|), MarkerIndices(lines, r.end, |lines|);
             |starts| == 1 && |ends| == 1 && starts[0] <= ends[0]
    ensures var lines, r := Split(source), BlockOf(region);
            Rewritable(lines, r, a, b)
            && MarkerIndices(lines, r.start, |lines|)[0] == IndexOf(lines, a)
            && MarkerIndices(lines, r.end, |lines|)[0] == IndexOf(lines, b)
  {
    hide Split, Start, End, UniqueAt, MarkerIndices, IndexOf;
    var lines, r := Split(source), BlockOf(region);
    StartIsNoEnd(region, region);
    a := OneIndex(lines, r.start);
    b := OneIndex(lines, r.end);
    IsLine(lines, r.start, a);
    IsLine(lines, r.end, b);
    IndicesFollowLines(lines, b, a);
  }
}
