/** Splitting text on "\n" and joining lines again. */
module TextLines {
  predicate Line(s: string) {
    '\n' !in s
  }

  ghost predicate Lines(s: seq<string>) {
    forall i :: 0 <= i < |s| ==> Line(s[i])
  }

  /** `source.split("\n")`. */
  function Split(source: string): (lines: seq<string>)
    ensures |lines| >= 1 && Lines(lines)
  {
    if source == "" then [""]
    else
      var rest := Split(source[1..]);
      if source[0] == '\n' then [""] + rest else [[source[0]] + rest[0]] + rest[1..]
  }

  function Join(lines: seq<string>): string
    requires lines != []
  {
    if |lines| == 1 then lines[0] else lines[0] + "\n" + Join(lines[1..])
  }

  /** Every line followed by its newline. */
  function Text(lines: seq<string>): string {
    if lines == [] then "" else lines[0] + "\n" + Text(lines[1..])
  }

  lemma {:induction false} JoinSplit(source: string)
    ensures Join(Split(source)) == source
  {
    if source != "" {
      var rest := Split(source[1..]);
      JoinSplit(source[1..]);
      if source[0] == '\n' {
        assert ([""] + rest)[1..] == rest;
      } else {
        var lines := Split(source);
        assert lines[0] == [source[0]] + rest[0] && lines[1..] == rest[1..];
        assert Join(lines) == [source[0]] + Join(rest);
      }
      assert source == [source[0]] + source[1..];
    }
  }

  lemma {:induction false} SplitLine(line: string, more: string)
    requires Line(line)
    ensures Split(line) == [line]
    ensures Split(line + "\n" + more) == [line] + Split(more)
  {
    var text := line + "\n" + more;
    if line == "" {
      assert text[1..] == more;
    } else {
      SplitLine(line[1..], more);
      assert text[1..] == line[1..] + "\n" + more;
      assert text[0] == line[0] != '\n';
      assert [line[0]] + line[1..] == line;
    }
  }

  lemma {:induction false} SplitJoin(lines: seq<string>)
    requires lines != [] && Lines(lines)
    ensures Split(Join(lines)) == lines
  {
    if |lines| == 1 {
      SplitLine(lines[0], "");
    } else {
      SplitLine(lines[0], Join(lines[1..]));
      SplitJoin(lines[1..]);
    }
  }

  lemma {:induction false} JoinAppends(a: seq<string>, b: seq<string>)
    requires b != []
    ensures Join(a + b) == Text(a) + Join(b)
  {
    if a == [] {
      assert a + b == b;
    } else {
      assert (a + b)[1..] == a[1..] + b;
      JoinAppends(a[1..], b);
    }
  }

  lemma {:induction false} TextAppends(a: seq<string>, b: seq<string>)
    ensures Text(a + b) == Text(a) + Text(b)
  {
    if a == [] {
      assert a + b == b;
    } else {
      assert (a + b)[1..] == a[1..] + b;
      TextAppends(a[1..], b);
    }
  }

  lemma TextOfOne(line: string)
    ensures Text([line]) == line + "\n" && Join([line]) == line
  {
    assert [line][1..] == [];
  }

  lemma {:induction false} TextIsJoin(lines: seq<string>)
    requires lines != []
    ensures Text(lines) == Join(lines) + "\n"
  {
    if |lines| == 1 {
      assert lines == [lines[0]];
      TextOfOne(lines[0]);
    } else {
      TextIsJoin(lines[1..]);
    }
  }

  /** What follows a line: nothing, or a newline and the later lines. */
  function After(lines: seq<string>, k: nat): string
    requires k < |lines|
  {
    if k + 1 == |lines| then "" else "\n" + Join(lines[k + 1..])
  }

  /** The source around line `k`. */
  lemma AroundLine(lines: seq<string>, k: nat)
    requires k < |lines|
    ensures Join(lines) == Text(lines[..k]) + lines[k] + After(lines, k)
  {
    hide Join, Text;
    assert lines == lines[..k] + lines[k..];
    JoinAppends(lines[..k], lines[k..]);
    FirstLine(lines[k..]);
    assert lines[k..][1..] == lines[k + 1..];
  }

  lemma FirstLine(lines: seq<string>)
    requires lines != []
    ensures Join(lines) == lines[0] + After(lines, 0)
  {
  }

  lemma TextGrows(lines: seq<string>, k: nat)
    requires k < |lines|
    ensures Text(lines[..k + 1]) == Text(lines[..k]) + lines[k] + "\n"
  {
    assert lines[..k + 1] == lines[..k] + [lines[k]];
    TextAppends(lines[..k], [lines[k]]);
    TextOfOne(lines[k]);
  }

  /** A position that starts the file or follows a newline starts a line. */
  lemma {:induction false} StartsLine(lines: seq<string>, at: nat) returns (k: nat)
    requires lines != [] && Lines(lines) && at <= |Join(lines)|
    requires at == 0 || Join(lines)[at - 1] == '\n'
    ensures k < |lines| && |Text(lines[..k])| == at
  {
    if at == 0 {
      k := 0;
    } else {
      var source := Join(lines);
      var n := |lines[0]|;
      forall i | 0 <= i < n ensures source[i] != '\n' {
        assert source[i] == lines[0][i];
      }
      assert |lines| > 1 && source[n + 1..] == Join(lines[1..]);
      assert at > n + 1 ==> source[at - 1] == Join(lines[1..])[at - 1 - (n + 1)];
      var rest := StartsLine(lines[1..], at - (n + 1));
      k := rest + 1;
      assert lines[..k][0] == lines[0] && lines[..k][1..] == lines[1..][..rest];
    }
  }
}
