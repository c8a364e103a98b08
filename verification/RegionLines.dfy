/** Generated regions seen line by line: which lines are markers, and what rewriting a region changes. */
module RegionLines {
  /** JavaScript white space and line terminators, as `trimStart` removes them. */
  predicate White(c: char) {
    c in {'\t', '\n', '\U{000b}', '\U{000c}', '\r', ' ', '\U{00a0}', '\U{1680}', '\U{2028}', '\U{2029}',
          '\U{202f}', '\U{205f}', '\U{3000}', '\U{feff}'}
    || '\U{2000}' <= c <= '\U{200a}'
  }

  /** Among ASCII characters: tab, line feed, vertical tab, form feed, carriage return and space. */
  lemma WhiteAscii(c: char)
    requires c as int < 0x80
    ensures White(c) <==> 9 <= c as int <= 13 || c as int == 32
  {
    assert '\t' as int == 9 && '\U{000d}' == '\r';
  }

  type Marker = s: string | s != "" && !White(s[0]) witness "#"

  function Indent(line: string): (n: nat)
    ensures n <= |line| && (forall i :: 0 <= i < n ==> White(line[i])) && (n < |line| ==> !White(line[n]))
  {
    if line == "" || !White(line[0]) then 0
    else
      var rest := Indent(line[1..]);
      1 + rest
  }

  predicate IsMarker(line: string, marker: Marker) {
    line[Indent(line)..] == marker
  }

  /** A region's two markers and the lines it is to hold. */
  datatype Block = Block(start: Marker, end: Marker, body: seq<string>) {
    predicate Valid() {
      start != end
    }
  }

  ghost predicate UniqueAt(lines: seq<string>, marker: Marker, k: nat) {
    k < |lines| && IsMarker(lines[k], marker)
    && forall j :: 0 <= j < |lines| && j != k ==> !IsMarker(lines[j], marker)
  }

  ghost predicate Free(lines: seq<string>, marker: Marker) {
    forall j :: 0 <= j < |lines| ==> !IsMarker(lines[j], marker)
  }

  /** The region can be rewritten: its start marker is the only one, on line `a`, and its end marker the
      only one, on the later line `b`. */
  ghost predicate Rewritable(lines: seq<string>, r: Block, a: nat, b: nat) {
    UniqueAt(lines, r.start, a) && UniqueAt(lines, r.end, b) && a < b
  }

  function EndLine(start: string, r: Block): string {
    start[..Indent(start)] + r.end
  }

  function Rewrite(lines: seq<string>, r: Block, a: nat, b: nat): seq<string>
    requires a < b < |lines|
  {
    lines[..a + 1] + r.body + [EndLine(lines[a], r)] + lines[b + 1..]
  }

  // ----- lines

  lemma {:induction false} IndentOf(blank: string, rest: string)
    requires forall i :: 0 <= i < |blank| ==> White(blank[i])
    requires rest != "" ==> !White(rest[0])
    ensures Indent(blank + rest) == |blank|
  {
    var n, line := Indent(blank + rest), blank + rest;
    assert forall i :: 0 <= i < |blank| ==> line[i] == blank[i];
    assert rest != "" ==> line[|blank|] == rest[0];
  }

  lemma EndLineIsMarker(start: string, r: Block)
    ensures IsMarker(EndLine(start, r), r.end)
    ensures forall m: Marker :: IsMarker(EndLine(start, r), m) ==> m == r.end
  {
    var blank := start[..Indent(start)];
    IndentOf(blank, r.end);
    assert (blank + r.end)[|blank|..] == r.end;
  }

  /** The new lines one by one: kept, written, or the re-indented end marker. */
  lemma RewriteAt(lines: seq<string>, r: Block, a: nat, b: nat, i: nat)
    requires a < b < |lines| && i < |Rewrite(lines, r, a, b)|
    ensures |Rewrite(lines, r, a, b)| == |lines| - (b - a - 1) + |r.body|
    ensures var e := a + 1 + |r.body|;
            Rewrite(lines, r, a, b)[i]
            == if i <= a then lines[i] else if i < e then r.body[i - a - 1]
               else if i == e then EndLine(lines[a], r) else lines[i - e + b]
  {
  }

  lemma RewriteLength(lines: seq<string>, r: Block, a: nat, b: nat)
    requires a < b < |lines|
    ensures |Rewrite(lines, r, a, b)| == |lines| - (b - a - 1) + |r.body|
  {
  }

  // ----- rewriting one region

  /** A body without marker lines leaves the region rewritable, with its end after the body. */
  lemma RewriteKeepsRegion(lines: seq<string>, r: Block, a: nat, b: nat)
    requires r.Valid() && Rewritable(lines, r, a, b) && Free(r.body, r.start) && Free(r.body, r.end)
    ensures Rewritable(Rewrite(lines, r, a, b), r, a, a + 1 + |r.body|)
  {
    hide Rewrite, EndLine, IsMarker;
    var all, e := Rewrite(lines, r, a, b), a + 1 + |r.body|;
    RewriteLength(lines, r, a, b);
    EndLineIsMarker(lines[a], r);
    RewriteAt(lines, r, a, b, a);
    RewriteAt(lines, r, a, b, e);
    forall j | 0 <= j < |all| ensures IsMarker(all[j], r.start) <==> j == a
                              ensures IsMarker(all[j], r.end) <==> j == e {
      RewriteAt(lines, r, a, b, j);
      if j > e {
        assert IsMarker(lines[a], r.start) && j - e + b > b;
      }
    }
  }

  lemma Twice(lines: seq<string>, r: Block, a: nat, b: nat)
    requires a < b < |lines|
    ensures var all := Rewrite(lines, r, a, b);
            a + 1 + |r.body| < |all| && Rewrite(all, r, a, a + 1 + |r.body|) == all
  {
    var all, e := Rewrite(lines, r, a, b), a + 1 + |r.body|;
    RewriteLength(lines, r, a, b);
    RewriteAt(lines, r, a, b, a);
    RewriteAt(lines, r, a, b, e);
    var head := lines[..a + 1];
    assert all == head + r.body + [EndLine(lines[a], r)] + lines[b + 1..];
    assert all[..a + 1] == head && all[e + 1..] == lines[b + 1..];
  }

  /** A marker line in the body makes the rewritten file unrewritable. */
  lemma BodyMarkerBlocks(lines: seq<string>, r: Block, a: nat, b: nat, a2: nat, b2: nat)
    requires r.Valid() && Rewritable(lines, r, a, b) && Rewritable(Rewrite(lines, r, a, b), r, a2, b2)
    ensures Free(r.body, r.start) && Free(r.body, r.end)
  {
    hide Rewrite, EndLine, IsMarker;
    var all, e := Rewrite(lines, r, a, b), a + 1 + |r.body|;
    RewriteLength(lines, r, a, b);
    RewriteAt(lines, r, a, b, a);
    RewriteAt(lines, r, a, b, e);
    EndLineIsMarker(lines[a], r);
    assert a2 == a && b2 == e;
    forall j | 0 <= j < |r.body| ensures !IsMarker(r.body[j], r.start) && !IsMarker(r.body[j], r.end) {
      RewriteAt(lines, r, a, b, a + 1 + j);
      assert !IsMarker(all[a + 1 + j], r.start) && !IsMarker(all[a + 1 + j], r.end);
    }
  }

  // ----- regions beside each other

  /** Where a line outside the region goes. */
  function Moved(r: Block, a: nat, b: nat, k: nat): nat
    requires a < b && (k < a || k > b)
  {
    if k < a then k else k - b + (a + 1 + |r.body|)
  }

  /** A marker line outside the region stays the only one of its kind. */
  lemma RewriteKeepsOther(lines: seq<string>, r: Block, a: nat, b: nat, other: Marker, k: nat)
    requires a < b < |lines| && (k < a || k > b)
    requires UniqueAt(lines, other, k) && other != r.end && Free(r.body, other)
    ensures UniqueAt(Rewrite(lines, r, a, b), other, Moved(r, a, b, k))
    ensures Rewrite(lines, r, a, b)[Moved(r, a, b, k)] == lines[k]
  {
    hide Rewrite, EndLine, IsMarker;
    var all, e := Rewrite(lines, r, a, b), a + 1 + |r.body|;
    RewriteLength(lines, r, a, b);
    RewriteAt(lines, r, a, b, Moved(r, a, b, k));
    EndLineIsMarker(lines[a], r);
    forall j | 0 <= j < |all| && j != Moved(r, a, b, k) ensures !IsMarker(all[j], other) {
      RewriteAt(lines, r, a, b, j);
      if j > e {
        assert j - e + b != k;
      }
    }
  }

  /** Two regions that can live in one file: four different markers, neither body holding the other's. */
  ghost predicate Apart(r: Block, s: Block) {
    r.start != s.start && r.start != s.end && r.end != s.start && r.end != s.end
    && Free(r.body, s.start) && Free(r.body, s.end) && Free(s.body, r.start) && Free(s.body, r.end)
  }

  /** Rewriting a region leaves the ones beside it rewritable, moved with their lines. */
  lemma RewriteKeepsSpan(lines: seq<string>, r: Block, a: nat, b: nat, s: Block, c: nat, d: nat)
    requires Apart(r, s) && Rewritable(lines, r, a, b) && Rewritable(lines, s, c, d) && (b < c || d < a)
    ensures Rewritable(Rewrite(lines, r, a, b), s, Moved(r, a, b, c), Moved(r, a, b, d))
  {
    hide Rewrite, IsMarker;
    RewriteKeepsOther(lines, r, a, b, s.start, c);
    RewriteKeepsOther(lines, r, a, b, s.end, d);
  }

  /** Rewriting two regions beside each other in either order writes the same file. */
  lemma RewritesCommuteAt(lines: seq<string>, r: Block, a: nat, b: nat, s: Block, c: nat, d: nat)
    requires a < b < c < d < |lines|
    ensures |Rewrite(lines, r, a, b)| > Moved(r, a, b, d) && |Rewrite(lines, s, c, d)| > b
    ensures Rewrite(Rewrite(lines, r, a, b), s, Moved(r, a, b, c), Moved(r, a, b, d))
            == Rewrite(Rewrite(lines, s, c, d), r, a, b)
  {
    hide Rewrite, EndLine;
    RewriteLength(lines, r, a, b);
    RewriteLength(lines, s, c, d);
    var viaR, viaS := Rewrite(lines, r, a, b), Rewrite(lines, s, c, d);
    RewriteLength(viaR, s, Moved(r, a, b, c), Moved(r, a, b, d));
    RewriteLength(viaS, r, a, b);
    var left := Rewrite(viaR, s, Moved(r, a, b, c), Moved(r, a, b, d));
    var right := Rewrite(viaS, r, a, b);
    forall i: nat | i < |left| ensures left[i] == right[i] {
      SameLine(lines, r, a, b, s, c, d, i);
    }
  }

  lemma SameLine(lines: seq<string>, r: Block, a: nat, b: nat, s: Block, c: nat, d: nat, i: nat)
    requires a < b < c < d < |lines|
    requires |Rewrite(lines, r, a, b)| > Moved(r, a, b, d) && |Rewrite(lines, s, c, d)| > b
    requires i < |Rewrite(Rewrite(lines, r, a, b), s, Moved(r, a, b, c), Moved(r, a, b, d))|
    requires i < |Rewrite(Rewrite(lines, s, c, d), r, a, b)|
    ensures Rewrite(Rewrite(lines, r, a, b), s, Moved(r, a, b, c), Moved(r, a, b, d))[i]
            == Rewrite(Rewrite(lines, s, c, d), r, a, b)[i]
  {
    hide Rewrite, EndLine;
    var viaR, viaS := Rewrite(lines, r, a, b), Rewrite(lines, s, c, d);
    var c2, d2 := Moved(r, a, b, c), Moved(r, a, b, d);
    var e, e2 := a + 1 + |r.body|, c2 + 1 + |s.body|;
    RewriteAt(viaR, s, c2, d2, i);
    RewriteAt(lines, r, a, b, c2);
    RewriteAt(viaS, r, a, b, i);
    RewriteAt(lines, s, c, d, a);
    if i <= c2 {
      RewriteAt(lines, r, a, b, i);
    }
    if i > e2 {
      RewriteAt(lines, r, a, b, i - e2 + d2);
    }
    if i <= a {
      RewriteAt(lines, s, c, d, i);
    }
    if i > e {
      RewriteAt(lines, s, c, d, i - e + b);
    }
  }

  // ----- rewriting as a relation between files

  ghost predicate Rewrites(lines: seq<string>, r: Block, out: seq<string>) {
    exists a: nat, b: nat :: Rewritable(lines, r, a, b) && out == Rewrite(lines, r, a, b)
  }

  /** Rewriting changes nothing any more. */
  ghost predicate Settled(lines: seq<string>, r: Block) {
    Rewrites(lines, r, lines)
  }

  ghost predicate OwnBody(r: Block) {
    r.Valid() && Free(r.body, r.start) && Free(r.body, r.end)
  }

  ghost predicate Beside(lines: seq<string>, r: Block, s: Block) {
    exists a: nat, b: nat, c: nat, d: nat ::
      Rewritable(lines, r, a, b) && Rewritable(lines, s, c, d) && (b < c || d < a)
  }

  lemma RewritesUnique(lines: seq<string>, r: Block, a: nat, b: nat, out: seq<string>)
    requires Rewritable(lines, r, a, b)
    ensures Rewrites(lines, r, out) <==> out == Rewrite(lines, r, a, b)
  {
    hide Rewrite, IsMarker;
    if Rewrites(lines, r, out) {
      var a2: nat, b2: nat :| Rewritable(lines, r, a2, b2) && out == Rewrite(lines, r, a2, b2);
      assert a2 == a && b2 == b;
    }
  }

  /** Running a second time succeeds exactly when the body holds no marker of its own region, and then
      it changes nothing. */
  lemma RewritesAgain(lines: seq<string>, r: Block, out: seq<string>)
    requires r.Valid() && Rewrites(lines, r, out)
    ensures OwnBody(r) <==> exists again :: Rewrites(out, r, again)
    ensures OwnBody(r) <==> Settled(out, r)
  {
    hide Rewrite, IsMarker, Free;
    var a: nat, b: nat :| Rewritable(lines, r, a, b) && out == Rewrite(lines, r, a, b);
    if OwnBody(r) {
      RewriteKeepsRegion(lines, r, a, b);
      Twice(lines, r, a, b);
      assert Settled(out, r);
    }
    if again :| Rewrites(out, r, again) {
      var a2: nat, b2: nat :| Rewritable(out, r, a2, b2) && again == Rewrite(out, r, a2, b2);
      BodyMarkerBlocks(lines, r, a, b, a2, b2);
    }
  }

  /** Neither order of rewriting two regions beside each other fails, and both write the same file. */
  lemma RewritesCommute(lines: seq<string>, r: Block, s: Block) returns (out: seq<string>)
    requires Apart(r, s) && Beside(lines, r, s)
    ensures exists viaR :: Rewrites(lines, r, viaR) && Rewrites(viaR, s, out)
    ensures exists viaS :: Rewrites(lines, s, viaS) && Rewrites(viaS, r, out)
  {
    hide Rewrite, IsMarker, Free;
    var a: nat, b: nat, c: nat, d: nat :|
      Rewritable(lines, r, a, b) && Rewritable(lines, s, c, d) && (b < c || d < a);
    if b < c {
      out := CommuteInOrder(lines, r, a, b, s, c, d);
    } else {
      out := CommuteInOrder(lines, s, c, d, r, a, b);
    }
  }

  lemma CommuteInOrder(lines: seq<string>, r: Block, a: nat, b: nat, s: Block, c: nat, d: nat)
    returns (out: seq<string>)
    requires Apart(r, s) && Rewritable(lines, r, a, b) && Rewritable(lines, s, c, d) && b < c
    ensures Rewrites(lines, r, Rewrite(lines, r, a, b)) && Rewrites(Rewrite(lines, r, a, b), s, out)
    ensures Rewrites(lines, s, Rewrite(lines, s, c, d)) && Rewrites(Rewrite(lines, s, c, d), r, out)
  {
    hide Rewrite, IsMarker, Free, Apart;
    RewritesCommuteAt(lines, r, a, b, s, c, d);
    RewriteKeepsSpan(lines, r, a, b, s, c, d);
    ApartSymmetric(r, s);
    RewriteKeepsSpan(lines, s, c, d, r, a, b);
    out := Rewrite(Rewrite(lines, s, c, d), r, a, b);
  }

  // ----- the sequential fold over one file

  ghost predicate RewritesAll(lines: seq<string>, rs: seq<Block>, out: seq<string>)
    decreases |rs|
  {
    if rs == [] then out == lines
    else
      var before, last := rs[..|rs| - 1], rs[|rs| - 1];
      exists mid :: RewritesAll(lines, before, mid) && Rewrites(mid, last, out)
  }

  /** Regions that may share a file. */
  ghost predicate Compatible(rs: seq<Block>) {
    (forall i :: 0 <= i < |rs| ==> OwnBody(rs[i]))
    && forall i, j :: 0 <= i < |rs| && 0 <= j < |rs| && i != j ==> Apart(rs[i], rs[j])
  }

  ghost predicate SideBySide(lines: seq<string>, rs: seq<Block>) {
    (forall i :: 0 <= i < |rs| ==> Present(lines, rs[i]))
    && forall i, j :: 0 <= i < |rs| && 0 <= j < |rs| && i != j ==> Beside(lines, rs[i], rs[j])
  }

  ghost predicate Present(lines: seq<string>, r: Block) {
    exists a: nat, b: nat :: Rewritable(lines, r, a, b)
  }

  lemma ApartSymmetric(r: Block, s: Block)
    requires Apart(r, s)
    ensures Apart(s, r)
  {
  }

  lemma BesideSymmetric(lines: seq<string>, r: Block, s: Block)
    requires Beside(lines, r, s)
    ensures Beside(lines, s, r)
  {
    hide Rewritable;
    var a: nat, b: nat, c: nat, d: nat :|
      Rewritable(lines, r, a, b) && Rewritable(lines, s, c, d) && (b < c || d < a);
  }

  /** Rewriting `r` leaves a neighbour beside it, and settles it only in its own place. */
  lemma RewriteKeepsNeighbour(lines: seq<string>, r: Block, s: Block, out: seq<string>)
    requires OwnBody(r) && Apart(r, s) && Beside(lines, r, s) && Rewrites(lines, r, out)
    ensures Beside(out, r, s)
    ensures Settled(lines, s) ==> Settled(out, s)
  {
    hide Rewrite, IsMarker, Free;
    var a: nat, b: nat, c: nat, d: nat :|
      Rewritable(lines, r, a, b) && Rewritable(lines, s, c, d) && (b < c || d < a);
    RewritesUnique(lines, r, a, b, out);
    RewriteKeepsRegion(lines, r, a, b);
    RewritesUnique(lines, s, c, d, lines);
    RewriteKeepsSpan(lines, r, a, b, s, c, d);
    if b < c {
      RewritesCommuteAt(lines, r, a, b, s, c, d);
    } else {
      RewritesCommuteAt(lines, s, c, d, r, a, b);
      assert Settled(lines, s) ==> Moved(s, c, d, a) == a && Moved(s, c, d, b) == b by {
        RewriteLength(lines, s, c, d);
      }
    }
  }

  /** Rewriting one region keeps two others beside each other. */
  lemma RewriteKeepsPair(lines: seq<string>, r: Block, s: Block, t: Block, out: seq<string>)
    requires Apart(r, s) && Apart(r, t) && Rewrites(lines, r, out)
    requires Beside(lines, r, s) && Beside(lines, r, t) && Beside(lines, s, t)
    ensures Beside(out, s, t)
  {
    hide Rewrite, UniqueAt, IsMarker, Apart;
    forall k: nat, l: nat | Rewritable(lines, r, k, l) ensures l < |lines| {
      SpanInOrder(lines, r, k, l);
    }
    var a: nat, b: nat :| Rewritable(lines, r, a, b) && out == Rewrite(lines, r, a, b);
    var c: nat, d: nat, e: nat, f: nat :|
      Rewritable(lines, s, c, d) && Rewritable(lines, t, e, f) && (d < e || f < c);
    BesidePositions(lines, r, a, b, s, c, d);
    BesidePositions(lines, r, a, b, t, e, f);
    RewriteKeepsSpan(lines, r, a, b, s, c, d);
    RewriteKeepsSpan(lines, r, a, b, t, e, f);
    SpanInOrder(lines, s, c, d);
    SpanInOrder(lines, t, e, f);
    SpanInOrder(lines, r, a, b);
  }

  /** The positions that witness two regions lying beside each other are the only ones. */
  lemma BesidePositions(lines: seq<string>, r: Block, a: nat, b: nat, s: Block, c: nat, d: nat)
    requires Beside(lines, r, s) && Rewritable(lines, r, a, b) && Rewritable(lines, s, c, d)
    ensures b < c || d < a
  {
    hide IsMarker;
  }

  lemma SpanInOrder(lines: seq<string>, r: Block, a: nat, b: nat)
    requires Rewritable(lines, r, a, b)
    ensures a < b < |lines|
  {
  }

  /** One step of the fold: every region stays beside every other, the rewritten one is settled, and those
      already settled stay so. */
  lemma StepKeepsAll(lines: seq<string>, rs: seq<Block>, n: nat, out: seq<string>)
    requires Compatible(rs) && SideBySide(lines, rs) && n < |rs| && Rewrites(lines, rs[n], out)
    ensures SideBySide(out, rs) && Settled(out, rs[n])
    ensures forall i :: 0 <= i < |rs| && Settled(lines, rs[i]) ==> Settled(out, rs[i])
  {
    hide Rewrites, Apart, OwnBody, Beside, Present, Settled;
    assert OwnBody(rs[n]);
    SettlesItself(lines, rs[n], out);
    forall j | 0 <= j < |rs| && j != n
      ensures Beside(out, rs[n], rs[j]) && Beside(out, rs[j], rs[n]) && Present(out, rs[j])
      ensures Settled(lines, rs[j]) ==> Settled(out, rs[j])
    {
      assert Apart(rs[n], rs[j]) && Beside(lines, rs[n], rs[j]);
      RewriteKeepsNeighbour(lines, rs[n], rs[j], out);
      BesideSymmetric(out, rs[n], rs[j]);
      BesideIsPresent(out, rs[n], rs[j]);
    }
    forall i, j | 0 <= i < |rs| && 0 <= j < |rs| && i != j ensures Beside(out, rs[i], rs[j]) {
      if i != n && j != n {
        assert Beside(lines, rs[n], rs[i]) && Beside(lines, rs[n], rs[j]) && Beside(lines, rs[i], rs[j]);
        assert Apart(rs[n], rs[i]) && Apart(rs[n], rs[j]);
        RewriteKeepsPair(lines, rs[n], rs[i], rs[j], out);
      }
    }
  }

  lemma SettlesItself(lines: seq<string>, r: Block, out: seq<string>)
    requires OwnBody(r) && Rewrites(lines, r, out)
    ensures Settled(out, r) && Present(out, r)
  {
    hide Rewrite, Rewritable, Free;
    RewritesAgain(lines, r, out);
  }

  lemma BesideIsPresent(lines: seq<string>, r: Block, s: Block)
    requires Beside(lines, r, s)
    ensures Present(lines, s)
  {
    hide Rewritable;
  }

  /** After the fold every region is settled. */
  lemma {:induction false} FoldSettles(lines: seq<string>, rs: seq<Block>, n: nat, out: seq<string>)
    requires Compatible(rs) && SideBySide(lines, rs) && n <= |rs| && RewritesAll(lines, rs[..n], out)
    ensures SideBySide(out, rs)
    ensures forall i :: 0 <= i < n ==> Settled(out, rs[i])
  {
    hide Rewrites, Compatible, SideBySide, Settled;
    if n > 0 {
      assert rs[..n][..n - 1] == rs[..n - 1];
      var mid :| RewritesAll(lines, rs[..n - 1], mid) && Rewrites(mid, rs[n - 1], out);
      FoldSettles(lines, rs, n - 1, mid);
      StepKeepsAll(mid, rs, n - 1, out);
    }
  }

  /** Compatible regions lying side by side can always all be rewritten. */
  lemma {:induction false} FoldSucceeds(lines: seq<string>, rs: seq<Block>, n: nat) returns (out: seq<string>)
    requires Compatible(rs) && SideBySide(lines, rs) && n <= |rs|
    ensures RewritesAll(lines, rs[..n], out)
  {
    hide Rewrite, Compatible, SideBySide;
    if n == 0 {
      out := lines;
    } else {
      assert rs[..n][..n - 1] == rs[..n - 1];
      var mid := FoldSucceeds(lines, rs, n - 1);
      FoldSettles(lines, rs, n - 1, mid);
      IsPresent(mid, rs, n - 1);
      var a: nat, b: nat :| Rewritable(mid, rs[n - 1], a, b);
      out := Rewrite(mid, rs[n - 1], a, b);
      assert Rewrites(mid, rs[n - 1], out);
    }
  }

  lemma IsPresent(lines: seq<string>, rs: seq<Block>, i: nat)
    requires SideBySide(lines, rs) && i < |rs|
    ensures Present(lines, rs[i])
  {
  }

  lemma {:induction false} SettledFold(lines: seq<string>, rs: seq<Block>, n: nat, out: seq<string>)
    requires n <= |rs| && forall i :: 0 <= i < n ==> Settled(lines, rs[i])
    ensures RewritesAll(lines, rs[..n], out) <==> out == lines
  {
    hide Rewrite, IsMarker;
    if n > 0 {
      assert rs[..n][..n - 1] == rs[..n - 1];
      var a: nat, b: nat :| Rewritable(lines, rs[n - 1], a, b) && lines == Rewrite(lines, rs[n - 1], a, b);
      RewritesUnique(lines, rs[n - 1], a, b, out);
      var front := rs[..n - 1];
      forall mid ensures RewritesAll(lines, front, mid) <==> mid == lines {
        SettledFold(lines, rs, n - 1, mid);
      }
    }
  }

  /** The whole fold is a fixed point: a second run writes the file it read. */
  lemma FoldIsFixedPoint(lines: seq<string>, rs: seq<Block>, out: seq<string>, again: seq<string>)
    requires Compatible(rs) && SideBySide(lines, rs) && RewritesAll(lines, rs, out)
    ensures RewritesAll(out, rs, again) <==> again == out
  {
    assert rs[..|rs|] == rs;
    FoldSettles(lines, rs, |rs|, out);
    SettledFold(out, rs, |rs|, again);
  }
}
