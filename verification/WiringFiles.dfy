/** The sequential pass over every generated region of every file, and what a second pass does. */
module WiringFiles {
  import opened Wrappers
  import opened TextLines
  import opened RegionLines
  import opened GeneratedRegion

  // ----- one region of one file

  /** `out` is the file text after the region of `source` was rewritten. */
  ghost predicate Replaces(source: string, region: Region, out: string) {
    Rewrites(Split(source), BlockOf(region), Split(out))
  }

  /** Neither marker of the region is a line of its own body. */
  ghost predicate CleanBody(region: Region) {
    OwnBody(BlockOf(region))
  }

  lemma SplitInjective(a: string, b: string)
    requires Split(a) == Split(b)
    ensures a == b
  {
    JoinSplit(a);
    JoinSplit(b);
  }

  /** A second rewrite succeeds exactly when the body holds no marker line, and then writes what it read. */
  lemma SecondRewriteIsIdentity(source: string, region: Region, out: string, again: string)
    requires Replaces(source, region, out)
    ensures CleanBody(region) <==> Present(Split(out), BlockOf(region))
    ensures CleanBody(region) ==> (Replaces(out, region, again) <==> again == out)
  {
    hide Rewrite, Split, Start, End, IsMarker, Free;
    StartIsNoEnd(region, region);
    RewritesAgain(Split(source), BlockOf(region), Split(out));
    PresentRewrites(Split(out), BlockOf(region));
    if CleanBody(region) {
      var a: nat, b: nat :|
        Rewritable(Split(out), BlockOf(region), a, b) && Split(out) == Rewrite(Split(out), BlockOf(region), a, b);
      RewritesUnique(Split(out), BlockOf(region), a, b, Split(again));
      if Split(again) == Split(out) {
        SplitInjective(again, out);
      }
    }
  }

  lemma PresentRewrites(lines: seq<string>, r: Block)
    ensures Present(lines, r) <==> exists out :: Rewrites(lines, r, out)
  {
    hide Rewrite;
    if Present(lines, r) {
      var a: nat, b: nat :| Rewritable(lines, r, a, b);
      assert Rewrites(lines, r, Rewrite(lines, r, a, b));
    }
  }

  /** A rewritable file has exactly one position of either marker. */
  lemma OneMarkerEach(source: string, region: Region) returns (i: nat, j: nat)
    requires Present(Split(source), BlockOf(region))
    ensures forall p: nat :: IsMarkerAt(source, Start(region), p) <==> p == i
    ensures forall p: nat :: IsMarkerAt(source, End(region), p) <==> p == j
    ensures i < j
  {
    hide Split, Start, End, UniqueAt, MarkerIndices, IndexOf, IsMarkerAt;
    var lines, r := Split(source), BlockOf(region);
    PresentHasIndices(lines, r);
    i := MarkerIndices(lines, r.start, |lines|)[0];
    j := MarkerIndices(lines, r.end, |lines|)[0];
    forall p: nat ensures IsMarkerAt(source, Start(region), p) <==> p == i {
      IndexIsPosition(source, Start(region), p);
    }
    forall p: nat ensures IsMarkerAt(source, End(region), p) <==> p == j {
      IndexIsPosition(source, End(region), p);
    }
  }

  /** Two regions of one file that lie beside each other may be rewritten in either order. */
  lemma ReplacementsCommute(source: string, r: Region, s: Region) returns (out: string, viaR: string, viaS: string)
    requires Apart(BlockOf(r), BlockOf(s)) && Beside(Split(source), BlockOf(r), BlockOf(s))
    ensures Replaces(source, r, viaR) && Replaces(viaR, s, out)
    ensures Replaces(source, s, viaS) && Replaces(viaS, r, out)
  {
    hide Split, Start, End, Rewrites, Apart, Beside;
    var lines := RewritesCommute(Split(source), BlockOf(r), BlockOf(s));
    var first :| Rewrites(Split(source), BlockOf(r), first) && Rewrites(first, BlockOf(s), lines);
    var second :| Rewrites(Split(source), BlockOf(s), second) && Rewrites(second, BlockOf(r), lines);
    viaR := AsText(Split(source), r, first);
    viaS := AsText(Split(source), s, second);
    out := AsText(first, s, lines);
  }

  /** Rewritten lines are the lines of some text. */
  lemma AsText(lines: seq<string>, region: Region, out: seq<string>) returns (text: string)
    requires Lines(lines) && Rewrites(lines, BlockOf(region), out)
    ensures Split(text) == out
  {
    hide Join, Split, Start, End, Rewrite, IsMarker;
    var r := BlockOf(region);
    var a: nat, b: nat :| Rewritable(lines, r, a, b) && out == Rewrite(lines, r, a, b);
    assert r.body == Split(region.body);
    RewriteIsLines(lines, r, a, b);
    IsLine(lines, r.end, b);
    RewriteLength(lines, r, a, b);
    SplitJoin(out);
    text := Join(out);
  }

  // ----- every region of every file

  function BlocksFor(regions: seq<Region>, file: string): seq<Block> {
    if regions == [] then []
    else
      var last := regions[|regions| - 1];
      BlocksFor(regions[..|regions| - 1], file) + if last.file == file then [BlockOf(last)] else []
  }

  /** A file's blocks are those of its regions, in the order of the list. */
  lemma {:induction false} BlocksForConcat(a: seq<Region>, b: seq<Region>, r: Region, file: string)
    ensures BlocksFor(a + b, file) == BlocksFor(a, file) + BlocksFor(b, file)
    ensures BlocksFor([r], file) == if r.file == file then [BlockOf(r)] else []
  {
    hide BlockOf;
    assert [r][..0] == [];
    if b == [] {
      assert a + b == a;
    } else {
      assert (a + b)[..|a + b| - 1] == a + b[..|b| - 1];
      BlocksForConcat(a, b[..|b| - 1], r, file);
    }
  }

  /** The pass over `regions` can be completed for this file. */
  ghost predicate CanFold(source: string, rs: seq<Block>) {
    exists out :: RewritesAll(Split(source), rs, out)
  }

  /** `rendered` holds exactly the files that have regions, each with all its regions rewritten in order. */
  ghost predicate Renders(regions: seq<Region>, files: map<string, string>, rendered: map<string, string>) {
    forall file :: RendersFile(BlocksFor(regions, file), files, rendered, file)
  }

  ghost predicate RendersFile(rs: seq<Block>, files: map<string, string>, rendered: map<string, string>, file: string) {
    (file in rendered <==> rs != [])
    && (file in rendered ==> file in files && RewritesAll(Split(files[file]), rs, Split(rendered[file])))
  }

  ghost predicate Renderable(regions: seq<Region>, files: map<string, string>) {
    forall file :: FileRenderable(BlocksFor(regions, file), files, file)
  }

  ghost predicate FileRenderable(rs: seq<Block>, files: map<string, string>, file: string) {
    rs != [] ==> file in files && CanFold(files[file], rs)
  }

  lemma {:induction false} FoldUnique(lines: seq<string>, rs: seq<Block>, a: seq<string>, b: seq<string>)
    requires RewritesAll(lines, rs, a) && RewritesAll(lines, rs, b)
    ensures a == b
    decreases |rs|
  {
    hide Rewrites;
    if rs != [] {
      var before, last := rs[..|rs| - 1], rs[|rs| - 1];
      var x :| RewritesAll(lines, before, x) && Rewrites(x, last, a);
      var y :| RewritesAll(lines, before, y) && Rewrites(y, last, b);
      FoldUnique(lines, before, x, y);
      OneResult(x, last, a, b);
    }
  }

  lemma OneResult(lines: seq<string>, r: Block, a: seq<string>, b: seq<string>)
    requires Rewrites(lines, r, a) && Rewrites(lines, r, b)
    ensures a == b
  {
    hide Rewrite, IsMarker;
    var i: nat, j: nat :| Rewritable(lines, r, i, j) && a == Rewrite(lines, r, i, j);
    RewritesUnique(lines, r, i, j, b);
  }

  /** A region that cannot be rewritten stops every longer pass over the file. */
  lemma {:induction false} StuckStaysStuck(
    lines: seq<string>, rs: seq<Block>, n: nat, mid: seq<string>, out: seq<string>)
    requires n < |rs| && RewritesAll(lines, rs[..n], mid) && !Present(mid, rs[n])
    ensures !RewritesAll(lines, rs, out)
    decreases |rs|
  {
    hide Rewrites, Present;
    if RewritesAll(lines, rs, out) {
      var before, last := rs[..|rs| - 1], rs[|rs| - 1];
      var x :| RewritesAll(lines, before, x) && Rewrites(x, last, out);
      if n == |rs| - 1 {
        FoldUnique(lines, before, x, mid);
        PresentRewrites(mid, last);
      } else {
        assert before[..n] == rs[..n];
        StuckStaysStuck(lines, before, n, mid, x);
      }
    }
  }

  lemma {:induction false} BlocksForPrefix(regions: seq<Region>, k: nat, file: string)
    requires k <= |regions|
    ensures BlocksFor(regions[..k], file) <= BlocksFor(regions, file)
  {
    if k < |regions| {
      var n := |regions| - 1;
      assert regions[..n][..k] == regions[..k];
      BlocksForPrefix(regions[..n], k, file);
    } else {
      assert regions[..k] == regions;
    }
  }

  lemma BlocksForNext(regions: seq<Region>, k: nat, file: string)
    requires k < |regions|
    ensures BlocksFor(regions[..k + 1], file)
            == BlocksFor(regions[..k], file) + if regions[k].file == file then [BlockOf(regions[k])] else []
  {
    assert regions[..k + 1][..k] == regions[..k];
  }

  datatype Failure = Unreadable(file: string) | BadRegion(file: string, problem: Problem)

  /** The rewriting loop of `renderProviderWiringFiles`: a region reads its file's latest text. */
  method RenderRegions(regions: seq<Region>, files: map<string, string>)
    returns (r: Result<map<string, string>, Failure>)
    ensures r.Ok? <==> Renderable(regions, files)
    ensures r.Ok? ==> Renders(regions, files, r.value)
    ensures r.Err? && r.error.Unreadable? ==> r.error.file !in files
    ensures r.Err? && r.error.BadRegion?
            ==> r.error.file in files && !CanFold(files[r.error.file], BlocksFor(regions, r.error.file))
  {
    hide RewritesAll, Split, Present, Rewrites, BlocksFor, BlockOf, OpensFirst, Framed, CanFold;
    var rendered: map<string, string> := map[];
    NothingRendered(files);
    assert regions[..0] == [];
    for k := 0 to |regions|
      invariant Renders(regions[..k], files, rendered)
    {
      var region := regions[k];
      var file := region.file;
      var source: string;
      if file in rendered {
        source := rendered[file];
      } else if file in files {
        source := files[file];
      } else {
        NoFile(regions, k, files);
        return Err(Unreadable(file));
      }
      Latest(regions, k, files, rendered, source);
      var replaced := ReplaceGeneratedRegion(source, region);
      if replaced.Err? {
        NoRegion(regions, k, files, source);
        return Err(BadRegion(file, replaced.error));
      }
      RenderNext(regions, k, files, rendered, source, replaced.value);
      rendered := rendered[file := replaced.value];
    }
    assert regions[..|regions|] == regions;
    AllRendered(regions, files, rendered);
    return Ok(rendered);
  }

  lemma NothingRendered(files: map<string, string>)
    ensures Renders([], files, map[])
  {
  }

  /** The text the next region of the file is rewritten in. */
  lemma Latest(regions: seq<Region>, k: nat, files: map<string, string>, rendered: map<string, string>, source: string)
    requires k < |regions| && Renders(regions[..k], files, rendered)
    requires if regions[k].file in rendered then source == rendered[regions[k].file]
             else regions[k].file in files && source == files[regions[k].file]
    ensures regions[k].file in files
    ensures RewritesAll(Split(files[regions[k].file]), BlocksFor(regions[..k], regions[k].file), Split(source))
  {
    hide Split, BlocksFor;
    var file := regions[k].file;
    assert RendersFile(BlocksFor(regions[..k], file), files, rendered, file);
  }

  lemma NoFile(regions: seq<Region>, k: nat, files: map<string, string>)
    requires k < |regions| && regions[k].file !in files
    ensures !Renderable(regions, files)
  {
    var file := regions[k].file;
    BlocksForNext(regions, k, file);
    BlocksForPrefix(regions, k + 1, file);
    assert !FileRenderable(BlocksFor(regions, file), files, file);
  }

  lemma NoRegion(regions: seq<Region>, k: nat, files: map<string, string>, source: string)
    requires k < |regions| && regions[k].file in files
    requires RewritesAll(Split(files[regions[k].file]), BlocksFor(regions[..k], regions[k].file), Split(source))
    requires !Present(Split(source), BlockOf(regions[k]))
    ensures !Renderable(regions, files)
    ensures !CanFold(files[regions[k].file], BlocksFor(regions, regions[k].file))
  {
    hide Split, BlocksFor, BlockOf, Present, RewritesAll;
    var file := regions[k].file;
    var done, all := BlocksFor(regions[..k], file), BlocksFor(regions, file);
    BlocksForNext(regions, k, file);
    BlocksForPrefix(regions, k + 1, file);
    assert done + [BlockOf(regions[k])] <= all;
    assert all[..|done|] == done && all[|done|] == BlockOf(regions[k]);
    forall out ensures !RewritesAll(Split(files[file]), all, out) {
      StuckStaysStuck(Split(files[file]), all, |done|, Split(source), out);
    }
    assert !FileRenderable(all, files, file);
  }

  lemma RenderNext(
    regions: seq<Region>, k: nat, files: map<string, string>, rendered: map<string, string>, source: string,
    out: string)
    requires k < |regions| && Renders(regions[..k], files, rendered) && regions[k].file in files
    requires RewritesAll(Split(files[regions[k].file]), BlocksFor(regions[..k], regions[k].file), Split(source))
    requires Rewrites(Split(source), BlockOf(regions[k]), Split(out))
    ensures Renders(regions[..k + 1], files, rendered[regions[k].file := out])
  {
    hide Split, BlocksFor, BlockOf, Rewrites, RewritesAll;
    var next := rendered[regions[k].file := out];
    var upTo := regions[..k + 1];
    forall file ensures RendersFile(BlocksFor(upTo, file), files, next, file) {
      BlocksForNext(regions, k, file);
      assert BlocksFor(regions[..k], file) + [] == BlocksFor(regions[..k], file);
      assert RendersFile(BlocksFor(regions[..k], file), files, rendered, file);
      if file == regions[k].file {
        FoldNext(Split(files[file]), BlocksFor(regions[..k], file), BlockOf(regions[k]), Split(source), Split(out));
      }
    }
  }

  lemma FoldNext(lines: seq<string>, rs: seq<Block>, r: Block, mid: seq<string>, out: seq<string>)
    requires RewritesAll(lines, rs, mid) && Rewrites(mid, r, out)
    ensures RewritesAll(lines, rs + [r], out)
  {
    assert (rs + [r])[..|rs|] == rs;
  }

  lemma AllRendered(regions: seq<Region>, files: map<string, string>, rendered: map<string, string>)
    requires Renders(regions, files, rendered)
    ensures Renderable(regions, files)
  {
    hide Split, BlocksFor, RewritesAll;
    forall file ensures FileRenderable(BlocksFor(regions, file), files, file) {
      assert RendersFile(BlocksFor(regions, file), files, rendered, file);
    }
  }

  // ----- a second run over the written files

  /** Every file's regions can share it and lie side by side. */
  ghost predicate WellPlaced(regions: seq<Region>, files: map<string, string>) {
    forall file :: file in files ==> FileWellPlaced(BlocksFor(regions, file), files[file])
  }

  ghost predicate FileWellPlaced(rs: seq<Block>, source: string) {
    Compatible(rs) && SideBySide(Split(source), rs)
  }

  /** Well-placed regions of readable files can all be rewritten: the pass succeeds. */
  lemma WellPlacedIsRenderable(regions: seq<Region>, files: map<string, string>)
    requires WellPlaced(regions, files)
    requires forall file :: BlocksFor(regions, file) != [] ==> file in files
    ensures Renderable(regions, files)
  {
    hide Split, BlocksFor, RewritesAll, Compatible, SideBySide;
    forall file ensures FileRenderable(BlocksFor(regions, file), files, file) {
      var rs := BlocksFor(regions, file);
      if rs != [] {
        assert FileWellPlaced(rs, files[file]);
        var out := FoldSucceeds(Split(files[file]), rs, |rs|);
        assert rs[..|rs|] == rs;
      }
    }
  }

  /** The generator is a fixed point: over the files it wrote it succeeds, and renders the same files. */
  lemma SecondRunIsIdentity(
    regions: seq<Region>, files: map<string, string>, rendered: map<string, string>, again: map<string, string>)
    requires WellPlaced(regions, files) && Renders(regions, files, rendered)
    ensures Renders(regions, files + rendered, again) <==> again == rendered
    ensures Renderable(regions, files + rendered)
  {
    SecondRunRenders(regions, files, rendered, again);
    SecondRunRenders(regions, files, rendered, rendered);
    AllRendered(regions, files + rendered, rendered);
  }

  lemma SecondRunRenders(
    regions: seq<Region>, files: map<string, string>, rendered: map<string, string>, again: map<string, string>)
    requires WellPlaced(regions, files) && Renders(regions, files, rendered)
    ensures Renders(regions, files + rendered, again) <==> again == rendered
  {
    hide Split, BlocksFor, RewritesAll, Compatible, SideBySide;
    var written := files + rendered;
    forall file ensures RendersFile(BlocksFor(regions, file), written, again, file)
                        <==> (file in again <==> file in rendered)
                             && (file in again ==> again[file] == rendered[file])
    {
      assert RendersFile(BlocksFor(regions, file), files, rendered, file);
      if file in rendered {
        assert FileWellPlaced(BlocksFor(regions, file), files[file]);
        if file in again {
          SecondRunOfFile(files[file], BlocksFor(regions, file), rendered[file], again[file]);
        }
      }
    }
  }

  lemma SecondRunOfFile(source: string, rs: seq<Block>, out: string, again: string)
    requires FileWellPlaced(rs, source) && RewritesAll(Split(source), rs, Split(out))
    ensures RewritesAll(Split(out), rs, Split(again)) <==> again == out
  {
    hide Split, RewritesAll, Compatible, SideBySide;
    FoldIsFixedPoint(Split(source), rs, Split(out), Split(again));
    if Split(again) == Split(out) {
      SplitInjective(again, out);
    }
  }
}
