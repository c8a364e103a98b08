/** Secret redaction of the CLI driver: argument lists and echoed diagnostics. */
module Redaction {
  const MASK: string := "***"

  // ----- which arguments are secret

  /** The argument after a secret flag is secret, unless that flag is itself a hidden value. */
  predicate Hidden(args: seq<string>, flags: set<string>, k: nat)
    requires k < |args|
  {
    k > 0 && args[k - 1] in flags && !Hidden(args, flags, k - 1)
  }

  /** The `m` arguments before `k` are secret flags, and the one before those is not. */
  ghost predicate FlagRun(args: seq<string>, flags: set<string>, k: nat, m: nat)
    requires k < |args|
  {
    m <= k && (forall j :: k - m <= j < k ==> args[j] in flags) && (m < k ==> args[k - m - 1] !in flags)
  }

  /** Flags alternate with their values: an argument is hidden exactly when the run of flags in front of it
      is of odd length. */
  lemma {:induction false} HiddenAfterOddRun(args: seq<string>, flags: set<string>, k: nat, m: nat)
    requires k < |args| && FlagRun(args, flags, k, m)
    ensures Hidden(args, flags, k) <==> m % 2 == 1
    decreases m
  {
    if m > 0 {
      assert args[k - 1] in flags;
      HiddenAfterOddRun(args, flags, k - 1, m - 1);
    } else if k > 0 {
      assert args[k - 1] !in flags;
    }
  }

  /** `redactArgs`: exactly the secret positions are masked. */
  method RedactArgs(args: seq<string>, flags: set<string>) returns (redacted: seq<string>)
    ensures |redacted| == |args|
    ensures forall k: nat :: k < |args| ==> redacted[k] == if Hidden(args, flags, k) then MASK else args[k]
  {
    hide Hidden;
    redacted := [];
    var hiding := false;
    if args != [] {
      HiddenNext(args, flags, 0);
    }
    for i := 0 to |args|
      invariant |redacted| == i
      invariant forall k: nat :: k < i ==> redacted[k] == if Hidden(args, flags, k) then MASK else args[k]
      invariant i < |args| ==> hiding == Hidden(args, flags, i)
    {
      if i + 1 < |args| {
        HiddenNext(args, flags, i + 1);
      }
      if hiding {
        redacted := redacted + [MASK];
        hiding := false;
      } else {
        redacted := redacted + [args[i]];
        hiding := args[i] in flags;
      }
    }
  }

  lemma HiddenNext(args: seq<string>, flags: set<string>, k: nat)
    requires k < |args|
    ensures Hidden(args, flags, k) <==> k > 0 && args[k - 1] in flags && !Hidden(args, flags, k - 1)
  {
  }

  /** The secrets among the first `n` arguments of one command, in order; empty ones hide nothing. */
  function SecretsUpTo(args: seq<string>, flags: set<string>, n: nat): seq<string>
    requires n <= |args|
  {
    if n == 0 then []
    else
      SecretsUpTo(args, flags, n - 1)
      + if Hidden(args, flags, n - 1) && args[n - 1] != "" then [args[n - 1]] else []
  }

  function Secrets(commands: seq<seq<string>>, flags: set<string>): seq<string> {
    if commands == [] then []
    else
      var last := commands[|commands| - 1];
      Secrets(commands[..|commands| - 1], flags) + SecretsUpTo(last, flags, |last|)
  }

  /** What a command list keeps secret: the non-empty values at the positions `RedactArgs` masks. */
  ghost predicate IsSecret(commands: seq<seq<string>>, flags: set<string>, secret: string) {
    secret != "" && exists c: nat, k: nat :: SecretAt(commands, flags, c, k, secret)
  }

  ghost predicate SecretAt(commands: seq<seq<string>>, flags: set<string>, c: nat, k: nat, secret: string) {
    c < |commands| && k < |commands[c]| && Hidden(commands[c], flags, k) && commands[c][k] == secret
  }

  lemma {:induction false} SecretsOfCommand(args: seq<string>, flags: set<string>, n: nat, secret: string)
    requires n <= |args|
    ensures secret in SecretsUpTo(args, flags, n)
            <==> secret != "" && exists k: nat :: k < n && Hidden(args, flags, k) && args[k] == secret
  {
    if n > 0 {
      SecretsOfCommand(args, flags, n - 1, secret);
    }
  }

  /** Collection is exact: nothing else is treated as secret, and no masked value is forgotten. */
  lemma {:induction false} SecretsAreMaskedValues(commands: seq<seq<string>>, flags: set<string>, secret: string)
    ensures secret in Secrets(commands, flags) <==> IsSecret(commands, flags, secret)
  {
    if commands != [] {
      var n := |commands| - 1;
      var rest, last := commands[..n], commands[n];
      SecretsAreMaskedValues(rest, flags, secret);
      SecretsOfCommand(last, flags, |last|, secret);
      if secret in Secrets(rest, flags) {
        var c: nat, k: nat :| SecretAt(rest, flags, c, k, secret);
        assert SecretAt(commands, flags, c, k, secret);
      }
      if secret in SecretsUpTo(last, flags, |last|) {
        var k: nat :| k < |last| && Hidden(last, flags, k) && last[k] == secret;
        assert SecretAt(commands, flags, n, k, secret);
      }
      if IsSecret(commands, flags, secret) {
        var c: nat, k: nat :| SecretAt(commands, flags, c, k, secret);
        if c < n {
          assert SecretAt(rest, flags, c, k, secret);
        }
      }
    }
  }

  // ----- longest first

  function InsertByLength(sorted: seq<string>, x: string): seq<string> {
    if sorted == [] then [x]
    else if |sorted[0]| >= |x| then [sorted[0]] + InsertByLength(sorted[1..], x)
    else [x] + sorted
  }

  /** The stable sort by decreasing length. */
  function LongestFirst(secrets: seq<string>): seq<string> {
    if secrets == [] then []
    else InsertByLength(LongestFirst(secrets[..|secrets| - 1]), secrets[|secrets| - 1])
  }

  function OfLength(secrets: seq<string>, n: nat): seq<string> {
    if secrets == [] then []
    else (if |secrets[0]| == n then [secrets[0]] else []) + OfLength(secrets[1..], n)
  }

  ghost predicate Shortening(s: seq<string>) {
    forall i, j :: 0 <= i < j < |s| ==> |s[i]| >= |s[j]|
  }

  lemma {:induction false} InsertIsPermutation(sorted: seq<string>, x: string)
    ensures multiset(InsertByLength(sorted, x)) == multiset(sorted) + multiset{x}
  {
    if sorted != [] && |sorted[0]| >= |x| {
      assert sorted == [sorted[0]] + sorted[1..];
      InsertIsPermutation(sorted[1..], x);
    }
  }

  lemma {:induction false} InsertSorts(sorted: seq<string>, x: string)
    requires Shortening(sorted)
    ensures Shortening(InsertByLength(sorted, x))
  {
    if sorted != [] && |sorted[0]| >= |x| {
      var rest := InsertByLength(sorted[1..], x);
      InsertSorts(sorted[1..], x);
      InsertedAreShort(sorted[1..], x, |sorted[0]|);
      LongestInFront(sorted[0], rest);
    }
  }

  lemma {:induction false} InsertedAreShort(sorted: seq<string>, x: string, n: nat)
    requires |x| <= n && forall i :: 0 <= i < |sorted| ==> |sorted[i]| <= n
    ensures forall i :: 0 <= i < |InsertByLength(sorted, x)| ==> |InsertByLength(sorted, x)[i]| <= n
  {
    if sorted != [] && |sorted[0]| >= |x| {
      InsertedAreShort(sorted[1..], x, n);
    }
  }

  lemma LongestInFront(x: string, rest: seq<string>)
    requires Shortening(rest) && forall i :: 0 <= i < |rest| ==> |rest[i]| <= |x|
    ensures Shortening([x] + rest)
  {
  }

  lemma {:induction false} InsertIsStable(sorted: seq<string>, x: string, n: nat)
    requires Shortening(sorted)
    ensures OfLength(InsertByLength(sorted, x), n) == OfLength(sorted, n) + OfLength([x], n)
  {
    hide OfLength, InsertByLength, Shortening;
    if sorted == [] {
      InsertCases(sorted, x);
      NoneThatLong([], n);
    } else {
      var first, rest := sorted[0], sorted[1..];
      assert sorted == [first] + rest;
      InsertCases(sorted, x);
      if |first| >= |x| {
        RestOfList(sorted);
        InsertIsStable(rest, x, n);
        OfLengthConcat([first], InsertByLength(rest, x), n);
        OfLengthConcat([first], rest, n);
      } else {
        OfLengthConcat([x], sorted, n);
        InFrontOfShorter(sorted, x, n);
      }
    }
  }

  lemma InsertCases(sorted: seq<string>, x: string)
    ensures sorted == [] ==> InsertByLength(sorted, x) == [x]
    ensures sorted != [] && |sorted[0]| >= |x| ==>
              InsertByLength(sorted, x) == [sorted[0]] + InsertByLength(sorted[1..], x)
    ensures sorted != [] && |sorted[0]| < |x| ==> InsertByLength(sorted, x) == [x] + sorted
  {
  }

  lemma InFrontOfShorter(sorted: seq<string>, x: string, n: nat)
    requires Shortening(sorted) && sorted != [] && |sorted[0]| < |x|
    ensures OfLength([x], n) + OfLength(sorted, n) == OfLength(sorted, n) + OfLength([x], n)
  {
    hide OfLength;
    if n == |x| {
      NoneThatLong(sorted, n);
    } else {
      OtherLength(x, n);
    }
  }

  lemma OtherLength(x: string, n: nat)
    requires |x| != n
    ensures OfLength([x], n) == []
  {
  }

  lemma {:induction false} NoneThatLong(s: seq<string>, n: nat)
    requires forall i :: 0 <= i < |s| ==> |s[i]| < n
    ensures OfLength(s, n) == []
  {
    if s != [] {
      NoneThatLong(s[1..], n);
    }
  }

  lemma {:induction false} OfLengthConcat(a: seq<string>, b: seq<string>, n: nat)
    ensures OfLength(a + b, n) == OfLength(a, n) + OfLength(b, n)
  {
    if a == [] {
      assert a + b == b;
    } else {
      var first: seq<string> := if |a[0]| == n then [a[0]] else [];
      assert (a + b)[1..] == a[1..] + b;
      OfLengthConcat(a[1..], b, n);
      assert OfLength(a + b, n) == first + OfLength(a[1..] + b, n);
      assert first + (OfLength(a[1..], n) + OfLength(b, n)) == OfLength(a, n) + OfLength(b, n);
    }
  }

  /** Longest first, every secret kept, and equally long ones in their original order. */
  lemma {:induction false} LongestFirstSorts(secrets: seq<string>)
    ensures Shortening(LongestFirst(secrets))
    ensures multiset(LongestFirst(secrets)) == multiset(secrets)
    ensures forall n :: OfLength(LongestFirst(secrets), n) == OfLength(secrets, n)
  {
    if secrets != [] {
      var rest, last := secrets[..|secrets| - 1], secrets[|secrets| - 1];
      LongestFirstSorts(rest);
      InsertSorts(LongestFirst(rest), last);
      InsertIsPermutation(LongestFirst(rest), last);
      assert secrets == rest + [last];
      forall n ensures OfLength(LongestFirst(secrets), n) == OfLength(secrets, n) {
        InsertIsStable(LongestFirst(rest), last, n);
        OfLengthConcat(rest, [last], n);
      }
    }
  }

  /** A secret that is a proper prefix of another is replaced after it. */
  lemma PrefixComesLater(secrets: seq<string>, i: nat, j: nat)
    requires i < |LongestFirst(secrets)| && j < |LongestFirst(secrets)|
    requires LongestFirst(secrets)[i] < LongestFirst(secrets)[j]
    ensures j < i
  {
    LongestFirstSorts(secrets);
  }

  // ----- replacement

  /** `replaceAll` with a literal, non-empty pattern: leftmost, non-overlapping. */
  function ReplaceAll(text: string, secret: string): string
    requires secret != ""
  {
    if |text| < |secret| then text
    else if secret <= text then MASK + ReplaceAll(text[|secret|..], secret)
    else [text[0]] + ReplaceAll(text[1..], secret)
  }

  ghost predicate At(part: string, text: string, i: nat) {
    i + |part| <= |text| && text[i..i + |part|] == part
  }

  ghost predicate Occurs(part: string, text: string) {
    exists i: nat :: At(part, text, i)
  }

  /** A secret no mask can complete: no edge star and no whole mask inside. */
  ghost predicate Safe(secret: string) {
    secret != "" && secret[0] != '*' && secret[|secret| - 1] != '*' && !Occurs(MASK, secret)
  }

  lemma StarFreeIsSafe(secret: string)
    requires secret != "" && '*' !in secret
    ensures Safe(secret)
  {
    forall i: nat ensures !At(MASK, secret, i) {
      if i + 3 <= |secret| {
        assert secret[i..i + 3][0] == secret[i];
      }
    }
  }

  /** A prefix of the result that ends off a mask and holds none was a prefix of the text. */
  lemma {:induction false} PrefixIsCopied(part: string, text: string, secret: string)
    requires secret != "" && part <= ReplaceAll(text, secret)
    requires part != "" ==> part[|part| - 1] != '*'
    requires !Occurs(MASK, part)
    ensures part <= text
    decreases |text|
  {
    if part == "" || |text| < |secret| {
    } else if secret <= text {
      NoPrefixOfMask(part, ReplaceAll(text[|secret|..], secret));
    } else {
      MaskFreeTail(part);
      PrefixIsCopied(part[1..], text[1..], secret);
      assert part == [part[0]] + part[1..] && text == [text[0]] + text[1..];
    }
  }

  lemma NoPrefixOfMask(part: string, rest: string)
    requires part != "" && part[|part| - 1] != '*' && !Occurs(MASK, part)
    ensures !(part <= MASK + rest)
  {
    if |part| >= 3 {
      assert !At(MASK, part, 0);
      assert (MASK + rest)[0..3] == MASK;
    } else {
      assert (MASK + rest)[|part| - 1] == '*';
    }
  }

  lemma MaskFreeTail(part: string)
    requires part != "" && !Occurs(MASK, part)
    ensures !Occurs(MASK, part[1..])
  {
    if Occurs(MASK, part[1..]) {
      OccursInSuffix(MASK, part, 1);
    }
  }

  /** One step of the replacement: a mask for a match at the start, or one character kept. */
  lemma ReplaceStep(text: string, secret: string)
    requires secret != ""
    ensures |text| < |secret| ==> ReplaceAll(text, secret) == text
    ensures secret <= text ==> ReplaceAll(text, secret) == MASK + ReplaceAll(text[|secret|..], secret)
    ensures |text| >= |secret| && !(secret <= text) ==>
              ReplaceAll(text, secret) == [text[0]] + ReplaceAll(text[1..], secret)
  {
  }

  lemma AtBehind(part: string, front: string, rest: string, i: nat)
    requires i >= |front|
    ensures At(part, front + rest, i) <==> At(part, rest, i - |front|)
  {
    var text := front + rest;
    if i + |part| <= |text| {
      assert text[i..i + |part|] == rest[i - |front|..i - |front| + |part|];
    }
  }

  /** A safe secret found in masked text lies behind the mask. */
  lemma BehindMask(part: string, rest: string, i: nat)
    requires Safe(part) && At(part, MASK + rest, i)
    ensures i >= 3 && At(part, rest, i - 3)
  {
    hide At;
    forall k: nat | k < 3 ensures !At(part, MASK + rest, k) {
      assert (MASK + rest)[k] == '*';
      Mismatch(part, MASK + rest, k, 0);
    }
    AtBehind(part, MASK, rest, i);
  }

  lemma AtStart(part: string, text: string)
    ensures At(part, text, 0) <==> part <= text
  {
    if |part| <= |text| {
      assert text[0..0 + |part|] == text[..|part|];
    }
  }

  lemma Occurrence(part: string, text: string, i: nat)
    requires At(part, text, i)
    ensures Occurs(part, text)
  {
  }

  lemma SafeCopies(part: string, text: string, secret: string)
    requires secret != "" && Safe(part) && At(part, ReplaceAll(text, secret), 0)
    ensures part <= text
  {
    AtStart(part, ReplaceAll(text, secret));
    PrefixIsCopied(part, text, secret);
  }

  /** Replacing one secret never creates another, and never leaves an occurrence of itself. */
  lemma {:induction false} ReplacementCreatesNothing(part: string, text: string, secret: string, i: nat)
    requires secret != "" && Safe(part) && At(part, ReplaceAll(text, secret), i)
    ensures Occurs(part, text) && part != secret
    decreases |text|
  {
    hide ReplaceAll, Occurs, Safe, At;
    ReplaceStep(text, secret);
    if |text| < |secret| {
      Occurrence(part, text, i);
      AtIsShort(part, text, i);
    } else if secret <= text {
      BehindMask(part, ReplaceAll(text[|secret|..], secret), i);
      ReplacementCreatesNothing(part, text[|secret|..], secret, i - 3);
      OccursInSuffix(part, text, |secret|);
    } else if i == 0 {
      SafeCopies(part, text, secret);
      AtStart(part, text);
      Occurrence(part, text, 0);
    } else {
      AtBehind(part, [text[0]], ReplaceAll(text[1..], secret), i);
      ReplacementCreatesNothing(part, text[1..], secret, i - 1);
      OccursInSuffix(part, text, 1);
    }
  }

  lemma AtIsShort(part: string, text: string, i: nat)
    requires At(part, text, i)
    ensures i + |part| <= |text|
  {
  }

  lemma OccursInSuffix(part: string, text: string, k: nat)
    requires k <= |text| && Occurs(part, text[k..])
    ensures Occurs(part, text)
  {
    var i: nat :| At(part, text[k..], i);
    assert text[k..][i..i + |part|] == text[k + i..k + i + |part|];
    assert At(part, text, k + i);
  }

  /** `redactDiagnostics` after collection: one replacement per secret, in list order. */
  function ReplaceEach(text: string, secrets: seq<string>): string
    requires "" !in secrets
  {
    if secrets == [] then text
    else
      ReplaceAll(ReplaceEach(text, secrets[..|secrets| - 1]), secrets[|secrets| - 1])
  }

  lemma {:induction false} EachIsGone(text: string, secrets: seq<string>, part: string)
    requires "" !in secrets && Safe(part) && (part in secrets || !Occurs(part, text))
    ensures !Occurs(part, ReplaceEach(text, secrets))
  {
    if secrets != [] {
      var n := |secrets| - 1;
      var before := ReplaceEach(text, secrets[..n]);
      assert secrets == secrets[..n] + [secrets[n]];
      if part != secrets[n] {
        EachIsGone(text, secrets[..n], part);
      }
      forall i: nat ensures !At(part, ReplaceAll(before, secrets[n]), i) {
        if At(part, ReplaceAll(before, secrets[n]), i) {
          ReplacementCreatesNothing(part, before, secrets[n], i);
        }
      }
    }
  }

  lemma NoEmptySecret(commands: seq<seq<string>>, flags: set<string>)
    ensures "" !in Secrets(commands, flags) && "" !in LongestFirst(Secrets(commands, flags))
  {
    var secrets := Secrets(commands, flags);
    SecretsAreMaskedValues(commands, flags, "");
    LongestFirstSorts(secrets);
    assert "" in LongestFirst(secrets) <==> "" in multiset(secrets);
  }

  ghost function Redacted(text: string, commands: seq<seq<string>>, flags: set<string>): string {
    NoEmptySecret(commands, flags);
    ReplaceEach(text, LongestFirst(Secrets(commands, flags)))
  }

  /** `redactDiagnostics`: collect over every command, order by length, replace. */
  method RedactDiagnostics(text: string, commands: seq<seq<string>>, flags: set<string>) returns (redacted: string)
    ensures redacted == Redacted(text, commands, flags)
  {
    hide ReplaceAll, LongestFirst;
    var secrets: seq<string> := [];
    for c := 0 to |commands|
      invariant secrets == Secrets(commands[..c], flags)
    {
      var args, takeSecret := commands[c], false;
      for i := 0 to |args|
        invariant secrets == Secrets(commands[..c], flags) + SecretsUpTo(args, flags, i)
        invariant i < |args| ==> takeSecret == Hidden(args, flags, i)
      {
        if takeSecret {
          if args[i] != "" {
            secrets := secrets + [args[i]];
          }
          takeSecret := false;
        } else {
          takeSecret := args[i] in flags;
        }
      }
      assert commands[..c + 1][..c] == commands[..c];
    }
    assert commands[..|commands|] == commands;
    NoEmptySecret(commands, flags);
    secrets := LongestFirst(secrets);
    redacted := text;
    for i := 0 to |secrets|
      invariant redacted == ReplaceEach(text, secrets[..i])
    {
      assert secrets[..i + 1][..i] == secrets[..i];
      redacted := ReplaceAll(redacted, secrets[i]);
    }
    assert secrets[..|secrets|] == secrets;
  }

  /** No safe secret of any command survives anywhere in the redacted text. */
  lemma SecretsAreRemoved(text: string, commands: seq<seq<string>>, flags: set<string>, secret: string)
    requires IsSecret(commands, flags, secret) && Safe(secret)
    ensures !Occurs(secret, Redacted(text, commands, flags))
  {
    var secrets := Secrets(commands, flags);
    SecretsAreMaskedValues(commands, flags, secret);
    NoEmptySecret(commands, flags);
    LongestFirstSorts(secrets);
    assert secret in LongestFirst(secrets) <==> secret in multiset(secrets);
    EachIsGone(text, LongestFirst(secrets), secret);
  }

  /** Text in which no secret occurs is left alone. */
  lemma {:induction false} NothingToReplace(text: string, secret: string)
    requires secret != "" && !Occurs(secret, text)
    ensures ReplaceAll(text, secret) == text
    decreases |text|
  {
    if |text| >= |secret| {
      assert !At(secret, text, 0);
      if Occurs(secret, text[1..]) {
        OccursInSuffix(secret, text, 1);
      }
      NothingToReplace(text[1..], secret);
    }
  }

  lemma {:induction false} InnocentTextIsKept(text: string, secrets: seq<string>)
    requires "" !in secrets && forall s :: s in secrets ==> !Occurs(s, text)
    ensures ReplaceEach(text, secrets) == text
  {
    if secrets != [] {
      InnocentTextIsKept(text, secrets[..|secrets| - 1]);
      NothingToReplace(text, secrets[|secrets| - 1]);
    }
  }

  // ----- the exact condition

  /** The text `before + secret + after` when the secret first matches in the middle. */
  lemma {:induction false} ReplacesMiddle(before: string, secret: string, after: string)
    requires secret != "" && |after| < |secret|
    requires forall i: nat :: i < |before| ==> !At(secret, before + secret + after, i)
    ensures ReplaceAll(before + secret + after, secret) == before + MASK + after
    decreases |before|
  {
    hide At, ReplaceAll;
    var text := before + secret + after;
    if before == "" {
      MatchAtStart(secret, after);
      assert text == secret + after && "" + MASK + after == MASK + after;
    } else {
      assert !At(secret, text, 0);
      var rest := before[1..] + secret + after;
      assert text[1..] == rest;
      forall i: nat | i < |before| - 1 ensures !At(secret, rest, i) {
        assert !At(secret, text, i + 1);
        AtInSuffix(secret, text, i);
      }
      ReplacesMiddle(before[1..], secret, after);
      NoMatchAtStart(secret, text);
      assert before + MASK + after == [text[0]] + (before[1..] + MASK + after);
    }
  }

  lemma MatchAtStart(secret: string, after: string)
    requires secret != "" && |after| < |secret|
    ensures ReplaceAll(secret + after, secret) == MASK + after
  {
    assert (secret + after)[..|secret|] == secret && (secret + after)[|secret|..] == after;
  }

  lemma NoMatchAtStart(secret: string, text: string)
    requires secret != "" && |text| >= |secret| && !At(secret, text, 0)
    ensures ReplaceAll(text, secret) == [text[0]] + ReplaceAll(text[1..], secret)
  {
  }

  lemma AtInSuffix(part: string, text: string, i: nat)
    requires text != ""
    ensures At(part, text[1..], i) <==> At(part, text, i + 1)
  {
    if i + 1 + |part| <= |text| {
      assert text[1..][i..i + |part|] == text[i + 1..i + 1 + |part|];
    }
  }

  /** The text that defeats an unsafe secret: its own replacement puts it back. */
  lemma UnsafeSecretSurvives(secret: string) returns (text: string)
    requires secret != "" && !Safe(secret)
    ensures Occurs(secret, ReplaceAll(text, secret))
  {
    if secret[0] == '*' {
      text := StarInFront(secret);
    } else if secret[|secret| - 1] == '*' {
      text := StarAtEnd(secret);
    } else {
      text := MaskInside(secret);
    }
  }

  lemma StarInFront(secret: string) returns (text: string)
    requires secret != "" && secret[0] == '*'
    ensures Occurs(secret, ReplaceAll(text, secret))
  {
    hide ReplaceAll;
    text := "" + secret + secret[1..];
    ReplacesMiddle("", secret, secret[1..]);
    assert ("" + MASK + secret[1..])[2..2 + |secret|] == secret;
    Occurrence(secret, ReplaceAll(text, secret), 2);
  }

  lemma StarAtEnd(secret: string) returns (text: string)
    requires secret != "" && secret[0] != '*' && secret[|secret| - 1] == '*'
    ensures Occurs(secret, ReplaceAll(text, secret))
  {
    hide ReplaceAll, Occurs;
    var u := secret[..|secret| - 1];
    text := u + secret + "";
    forall i: nat | i < |u| ensures !At(secret, text, i) {
      MatchNeedsFirst(secret, u, "", i);
    }
    ReplacesMiddle(u, secret, "");
    assert (u + MASK + "")[0..|secret|] == secret;
    Occurrence(secret, ReplaceAll(text, secret), 0);
  }

  lemma MaskInside(secret: string) returns (text: string)
    requires secret != "" && Occurs(MASK, secret)
    ensures Occurs(secret, ReplaceAll(text, secret))
  {
    hide ReplaceAll, Occurs, At;
    var k := FirstMask(secret);
    AroundMask(secret, k);
    var before, after := secret[..k], secret[k + 3..];
    text := before + secret + after;
    forall i: nat | i < k ensures !At(secret, text, i) {
      MatchNeedsMask(secret, k, after, i);
    }
    ReplacesMiddle(before, secret, after);
    AtStart(secret, secret);
    Occurrence(secret, ReplaceAll(text, secret), 0);
  }

  lemma AroundMask(secret: string, k: nat)
    requires At(MASK, secret, k)
    ensures k + 3 <= |secret| && secret == secret[..k] + MASK + secret[k + 3..]
  {
  }

  /** Where the secret's last character is a star and its first is not, an early match is impossible. */
  lemma MatchNeedsFirst(secret: string, u: string, after: string, i: nat)
    requires secret != "" && u == secret[..|secret| - 1] && i < |u|
    requires secret[0] != '*' && secret[|secret| - 1] == '*'
    ensures !At(secret, u + secret + after, i)
  {
    Mismatch(secret, u + secret + after, i, if secret[i] == '*' then 0 else |u|);
  }

  lemma Mismatch(part: string, text: string, i: nat, k: nat)
    requires k < |part| && (i + k < |text| ==> text[i + k] != part[k])
    ensures !At(part, text, i)
  {
    if i + |part| <= |text| {
      assert text[i..i + |part|][k] == text[i + k];
    }
  }

  lemma OffMask(text: string, i: nat) returns (d: nat)
    requires i + 3 <= |text| && !At(MASK, text, i)
    ensures d < 3 && text[i + d] != '*'
  {
    d := if text[i] != '*' then 0 else if text[i + 1] != '*' then 1 else 2;
    assert text[i..i + 3] == [text[i], text[i + 1], text[i + 2]];
  }

  lemma MatchNeedsMask(secret: string, k: nat, after: string, i: nat)
    requires At(MASK, secret, k) && i < k && !At(MASK, secret, i)
    ensures !At(secret, secret[..k] + secret + after, i)
  {
    var d := OffMask(secret, i);
    assert secret[k..k + 3][d] == secret[k + d];
    Mismatch(secret, secret[..k] + secret + after, i, k + d);
  }

  lemma FirstMask(secret: string) returns (k: nat)
    requires Occurs(MASK, secret)
    ensures At(MASK, secret, k) && forall i: nat :: i < k ==> !At(MASK, secret, i)
  {
    k := 0;
    while !At(MASK, secret, k)
      invariant forall i: nat :: i < k ==> !At(MASK, secret, i)
      decreases |secret| - k
    {
      k := k + 1;
    }
  }

  lemma SafeIsRemoved(secret: string, text: string)
    requires Safe(secret)
    ensures !Occurs(secret, ReplaceAll(text, secret))
  {
    if i: nat :| At(secret, ReplaceAll(text, secret), i) {
      ReplacementCreatesNothing(secret, text, secret, i);
    }
  }

  /** A secret's own replacement removes it from every text exactly when it is safe. */
  lemma RemovedIffSafe(secret: string)
    requires secret != ""
    ensures Safe(secret) <==> forall text: string :: !Occurs(secret, ReplaceAll(text, secret))
  {
    hide ReplaceAll, Occurs, Safe;
    if Safe(secret) {
      forall text: string ensures !Occurs(secret, ReplaceAll(text, secret)) {
        SafeIsRemoved(secret, text);
      }
    } else {
      var text := UnsafeSecretSurvives(secret);
      assert Occurs(secret, ReplaceAll(text, secret));
    }
  }

  // ----- the exact condition on whole redactions

  /** One command that passes one secret: its diagnostics are redacted by one replacement. */
  lemma RedactsOneSecret(text: string, flag: string, secret: string)
    requires secret != ""
    ensures IsSecret([[flag, secret]], {flag}, secret)
    ensures Redacted(text, [[flag, secret]], {flag}) == ReplaceAll(text, secret)
  {
    hide ReplaceAll;
    var args, commands, flags := [flag, secret], [[flag, secret]], {flag};
    assert !Hidden(args, flags, 0) && Hidden(args, flags, 1);
    assert SecretAt(commands, flags, 0, 1, secret);
    assert SecretsUpTo(args, flags, 0) == [] && SecretsUpTo(args, flags, 1) == [];
    assert SecretsUpTo(args, flags, 2) == [secret];
    assert commands[..0] == [] && Secrets([], flags) == [];
    assert Secrets(commands, flags) == [secret];
    assert [secret][..0] == [] && LongestFirst([]) == [];
    assert LongestFirst([secret]) == InsertByLength([], secret) == [secret];
    assert ReplaceEach(text, []) == text;
    assert ReplaceEach(text, [secret]) == ReplaceAll(text, secret);
  }

  /** A command list and a text whose redaction still shows the secret it was to hide. */
  lemma UnsafeSecretSurvivesRedaction(secret: string, flag: string) returns (text: string)
    requires secret != "" && !Safe(secret)
    ensures IsSecret([[flag, secret]], {flag}, secret)
    ensures Occurs(secret, Redacted(text, [[flag, secret]], {flag}))
  {
    hide ReplaceAll, Occurs, Safe, Redacted, IsSecret;
    text := UnsafeSecretSurvives(secret);
    RedactsOneSecret(text, flag, secret);
  }

  ghost predicate AlwaysRedacted(secret: string) {
    forall text: string, commands: seq<seq<string>>, flags: set<string> ::
      IsSecret(commands, flags, secret) ==> !Occurs(secret, Redacted(text, commands, flags))
  }

  /** Redaction removes a secret from every text, for every command list that passes it, exactly when the
      secret is safe. */
  lemma RedactedIffSafe(secret: string)
    requires secret != ""
    ensures Safe(secret) <==> AlwaysRedacted(secret)
  {
    hide Occurs, Safe, Redacted, IsSecret;
    if Safe(secret) {
      forall text: string, commands: seq<seq<string>>, flags: set<string> | IsSecret(commands, flags, secret)
        ensures !Occurs(secret, Redacted(text, commands, flags))
      {
        SecretsAreRemoved(text, commands, flags, secret);
      }
    } else {
      var text := UnsafeSecretSurvivesRedaction(secret, "--token");
    }
  }

  // ----- what the order of replacement is for

  /** Secrets of one length are one secret. */
  ghost predicate LengthsTell(s: seq<string>) {
    forall x, y :: x in s && y in s && |x| == |y| ==> x == y
  }

  lemma {:induction false} ShorteningUnique(a: seq<string>, b: seq<string>)
    requires Shortening(a) && Shortening(b) && multiset(a) == multiset(b) && LengthsTell(a)
    ensures a == b
    decreases |a|
  {
    hide Shortening, LengthsTell;
    assert |multiset(a)| == |a| && |multiset(b)| == |b|;
    if a != [] {
      SameLongest(a, b);
      RestOfList(a);
      RestOfList(b);
      ShorteningUnique(a[1..], b[1..]);
      assert a == [a[0]] + a[1..] && b == [b[0]] + b[1..];
    }
  }

  lemma SameLongest(a: seq<string>, b: seq<string>)
    requires a != [] && b != [] && Shortening(a) && Shortening(b) && multiset(a) == multiset(b) && LengthsTell(a)
    ensures a[0] == b[0]
  {
    assert a[0] in multiset(b) && b[0] in multiset(a);
    var i :| 0 <= i < |b| && b[i] == a[0];
    var j :| 0 <= j < |a| && a[j] == b[0];
    assert |a[0]| >= |a[j]| && |b[0]| >= |b[i]|;
  }

  lemma RestOfList(a: seq<string>)
    requires a != []
    ensures multiset(a[1..]) == multiset(a) - multiset{a[0]}
    ensures Shortening(a) ==> Shortening(a[1..])
    ensures LengthsTell(a) ==> LengthsTell(a[1..])
  {
    assert a == [a[0]] + a[1..];
    assert forall s :: s in a[1..] ==> s in a;
  }

  /** Which command passed a secret first does not matter: as long as equally long secrets are the same,
      any two command lists with the same secrets redact alike. */
  lemma CommandOrderIsIrrelevant(
    text: string, commands: seq<seq<string>>, flags: set<string>, others: seq<seq<string>>, otherFlags: set<string>)
    requires multiset(Secrets(commands, flags)) == multiset(Secrets(others, otherFlags))
    requires LengthsTell(Secrets(commands, flags))
    ensures Redacted(text, commands, flags) == Redacted(text, others, otherFlags)
  {
    hide LongestFirst, ReplaceEach;
    var a, b := Secrets(commands, flags), Secrets(others, otherFlags);
    LongestFirstSorts(a);
    LongestFirstSorts(b);
    SameSecrets(a);
    ShorteningUnique(LongestFirst(a), LongestFirst(b));
  }

  lemma {:induction false} ReplaceEachConcat(text: string, a: seq<string>, b: seq<string>)
    requires "" !in a && "" !in b
    ensures ReplaceEach(text, a + b) == ReplaceEach(ReplaceEach(text, a), b)
  {
    hide ReplaceAll;
    if b == [] {
      assert a + b == a;
    } else {
      assert (a + b)[..|a + b| - 1] == a + b[..|b| - 1];
      ReplaceEachConcat(text, a, b[..|b| - 1]);
    }
  }

  /** A text in which the secret stands in one place only. */
  lemma {:induction false} ReplacesOnly(before: string, secret: string, after: string)
    requires secret != ""
    requires forall i: nat :: At(secret, before + secret + after, i) ==> i == |before|
    ensures ReplaceAll(before + secret + after, secret) == before + MASK + after
    decreases |before|
  {
    hide At, ReplaceAll, Occurs;
    var text := before + secret + after;
    ReplaceStep(text, secret);
    if before == "" {
      assert text == secret + after;
      NotBehind(secret, after);
      NothingToReplace(after, secret);
      assert text[|secret|..] == after && secret <= text;
      assert before + MASK + after == MASK + after;
    } else {
      var rest := before[1..] + secret + after;
      assert text == [text[0]] + rest && text[1..] == rest;
      assert !At(secret, text, 0);
      AtStart(secret, text);
      forall i: nat ensures At(secret, rest, i) ==> i == |before| - 1 {
        AtInSuffix(secret, text, i);
      }
      ReplacesOnly(before[1..], secret, after);
      assert before + MASK + after == [text[0]] + (before[1..] + MASK + after);
    }
  }

  lemma NotBehind(secret: string, after: string)
    requires secret != "" && forall i: nat :: At(secret, secret + after, i) ==> i == 0
    ensures !Occurs(secret, after)
  {
    forall i: nat ensures !At(secret, after, i) {
      AtBehind(secret, secret, after, i + |secret|);
    }
  }

  /** A safe secret that occurs around a mask occurs before it or after it. */
  lemma BesideMask(part: string, before: string, after: string, i: nat)
    requires Safe(part) && At(part, before + MASK + after, i)
    ensures i + |part| <= |before| || i >= |before| + 3
  {
    hide Occurs, At;
    var text, n := before + MASK + after, |before|;
    AtIsShort(part, text, i);
    forall k: nat | n - |part| < k < n + 3 ensures !At(part, text, k) {
      if k >= n {
        assert text[k] == '*';
        Mismatch(part, text, k, 0);
      } else if k + |part| <= n + 3 {
        assert text[k + |part| - 1] == '*';
        Mismatch(part, text, k, |part| - 1);
      } else {
        CoversMask(part, before, after, k);
      }
    }
  }

  lemma CoversMask(part: string, before: string, after: string, k: nat)
    requires Safe(part) && k < |before| && |before| + 3 < k + |part|
    ensures !At(part, before + MASK + after, k)
  {
    var text, d := before + MASK + after, |before| - k;
    assert !At(MASK, part, d);
    var e := OffMask(part, d);
    assert text[k + d + e] == '*';
    Mismatch(part, text, k, d + e);
  }

  /** Where the text has it, the masked text has it: an occurrence beside the mask. */
  lemma BesideOccurrence(part: string, before: string, secret: string, after: string, i: nat)
    requires Safe(part) && At(part, before + MASK + after, i)
    ensures i + |part| <= |before| || i >= |before| + 3
    ensures At(part, before + secret + after, if i + |part| <= |before| then i else i - 3 + |secret|)
  {
    hide Safe, At;
    BesideMask(part, before, after, i);
    if i + |part| <= |before| {
      AtFront(part, before, MASK + after, i);
      AtFront(part, before, secret + after, i);
      assert before + MASK + after == before + (MASK + after) && before + secret + after == before + (secret + after);
    } else {
      AtBehind(part, before + MASK, after, i);
      AtBehind(part, before + secret, after, i - 3 + |secret|);
    }
  }

  lemma AtFront(part: string, front: string, rest: string, i: nat)
    requires i + |part| <= |front|
    ensures At(part, front + rest, i) <==> At(part, front, i)
  {
    assert (front + rest)[i..i + |part|] == front[i..i + |part|];
  }

  /** Every occurrence of a secret in the text lies inside this one. */
  ghost predicate OnlyInside(before: string, secret: string, after: string, secrets: seq<string>) {
    forall t: string, i: nat :: t in secrets && At(t, before + secret + after, i) ==>
                                  |before| <= i && i + |t| <= |before| + |secret|
  }

  lemma LongerIsElsewhere(before: string, secret: string, after: string, secrets: seq<string>, t: string)
    requires OnlyInside(before, secret, after, secrets) && t in secrets && t != secret && |t| >= |secret|
    ensures !Occurs(t, before + secret + after)
  {
    var text := before + secret + after;
    assert text[|before|..|before| + |secret|] == secret;
    forall i: nat ensures !At(t, text, i) {
      assert At(t, text, i) ==> i == |before| && |t| == |secret|;
    }
  }

  lemma NothingBesideMask(before: string, secret: string, after: string, secrets: seq<string>, t: string)
    requires OnlyInside(before, secret, after, secrets) && t in secrets && Safe(t)
    ensures !Occurs(t, before + MASK + after)
  {
    hide At;
    forall i: nat ensures !At(t, before + MASK + after, i) {
      if At(t, before + MASK + after, i) {
        BesideOccurrence(t, before, secret, after, i);
      }
    }
  }

  /** A credential is masked whole, however many of its own parts are secrets too and in whatever order
      the commands passed them: not one of its characters survives. */
  lemma OccurrenceIsMaskedWhole(
    before: string, secret: string, after: string, commands: seq<seq<string>>, flags: set<string>)
    requires secret in Secrets(commands, flags) && forall t :: t in Secrets(commands, flags) ==> Safe(t)
    requires OnlyInside(before, secret, after, Secrets(commands, flags))
    ensures Redacted(before + secret + after, commands, flags) == before + MASK + after
  {
    hide ReplaceEach, ReplaceAll, LongestFirst, Occurs, Safe, At, OnlyInside, Secrets;
    var secrets, text, masked := Secrets(commands, flags), before + secret + after, before + MASK + after;
    var list := LongestFirst(secrets);
    NoEmptySecret(commands, flags);
    LongestFirstSorts(secrets);
    SameSecrets(secrets);
    var k := FirstPlace(list, secret);
    var x, y := list[..k], list[k + 1..];
    assert list == x + [secret] + y;
    forall t | t in x ensures t != secret && !Occurs(t, text) {
      LongerIsElsewhere(before, secret, after, secrets, t);
    }
    InnocentTextIsKept(text, x);
    OnePlace(before, secret, after, secrets);
    ReplacesOnly(before, secret, after);
    forall t | t in y ensures !Occurs(t, masked) {
      NothingBesideMask(before, secret, after, secrets, t);
    }
    InnocentTextIsKept(masked, y);
    ReplaceEachConcat(text, x + [secret], y);
    ReplaceEachConcat(text, x, [secret]);
    ReplaceOne(text, secret);
  }

  lemma SameSecrets(secrets: seq<string>)
    ensures forall s :: s in LongestFirst(secrets) <==> s in secrets
  {
    LongestFirstSorts(secrets);
    forall s ensures s in LongestFirst(secrets) <==> s in secrets {
      assert s in multiset(LongestFirst(secrets)) <==> s in multiset(secrets);
    }
  }

  lemma FirstPlace(list: seq<string>, s: string) returns (k: nat)
    requires s in list && Shortening(list)
    ensures k < |list| && list[k] == s && forall t :: t in list[..k] ==> t != s && |t| >= |s|
  {
    k := 0;
    while list[k] != s
      invariant k < |list| && s in list[k..] && forall t :: t in list[..k] ==> t != s
      decreases |list| - k
    {
      assert list[..k + 1] == list[..k] + [list[k]];
      k := k + 1;
    }
  }

  lemma OnePlace(before: string, secret: string, after: string, secrets: seq<string>)
    requires OnlyInside(before, secret, after, secrets) && secret in secrets
    ensures forall i: nat :: At(secret, before + secret + after, i) ==> i == |before|
  {
  }

  lemma ReplaceOne(text: string, secret: string)
    requires secret != ""
    ensures ReplaceEach(text, [secret]) == ReplaceAll(text, secret)
  {
    assert [secret][..0] == [];
  }

  /** Two star-free secrets, the shorter a prefix of the longer, passed in either order: the longer one is
      masked whole, and leaves no tail. */
  lemma PrefixLeavesNoTail(
    before: string, short: string, long: string, after: string, commands: seq<seq<string>>, flags: set<string>)
    requires short < long && short != "" && '*' !in long
    requires forall t :: t in Secrets(commands, flags) <==> t == short || t == long
    requires OnlyInside(before, long, after, [short, long])
    ensures Redacted(before + long + after, commands, flags) == before + MASK + after
  {
    hide Secrets, Redacted, Safe;
    StarFreeIsSafe(short);
    StarFreeIsSafe(long);
    OccurrenceIsMaskedWhole(before, long, after, commands, flags);
  }

  /** An occurrence no earlier one overlaps is replaced whole, and the text on both sides by itself. */
  lemma {:induction false} FreeOccurrenceIsReplaced(text: string, secret: string, i: nat)
    requires secret != "" && At(secret, text, i) && NoneOverlaps(text, secret, i)
    ensures SplitsAt(text, secret, i)
    decreases |text|
  {
    hide At, ReplaceAll, SplitsAt, NoneOverlaps;
    AtIsShort(secret, text, i);
    AtStart(secret, text);
    if i == 0 {
      SplitsAtStart(text, secret);
    } else if secret <= text {
      NotYet(text, secret, i);
      OverlapsBehind(text, secret, i, |secret|);
      FreeOccurrenceIsReplaced(text[|secret|..], secret, i - |secret|);
      SplitsBehindMatch(text, secret, i);
    } else {
      OverlapsBehind(text, secret, i, 1);
      FreeOccurrenceIsReplaced(text[1..], secret, i - 1);
      SplitsBehindFirst(text, secret, i);
    }
  }

  /** No earlier occurrence overlaps the one at `i`. */
  ghost predicate NoneOverlaps(text: string, secret: string, i: nat) {
    forall k: nat :: k < i < k + |secret| ==> !At(secret, text, k)
  }

  /** The occurrence at `i` is replaced, and both sides by themselves. */
  ghost predicate SplitsAt(text: string, secret: string, i: nat)
    requires secret != "" && i + |secret| <= |text|
  {
    ReplaceAll(text, secret) == ReplaceAll(text[..i], secret) + MASK + ReplaceAll(text[i + |secret|..], secret)
  }

  lemma SplitsAtStart(text: string, secret: string)
    requires secret != "" && secret <= text
    ensures SplitsAt(text, secret, 0)
  {
    hide ReplaceAll;
    ReplaceStep(text, secret);
    ReplaceStep(text[..0], secret);
    assert text[..0] == "";
  }

  lemma NotYet(text: string, secret: string, i: nat)
    requires NoneOverlaps(text, secret, i) && At(secret, text, 0) && 0 < i
    ensures i >= |secret|
  {
    hide At;
  }

  lemma OverlapsBehind(text: string, secret: string, i: nat, n: nat)
    requires NoneOverlaps(text, secret, i) && At(secret, text, i) && n <= i && n <= |text|
    ensures NoneOverlaps(text[n..], secret, i - n) && At(secret, text[n..], i - n)
  {
    hide At;
    AtFromEnd(secret, text, n, i - n);
    forall k: nat | k < i - n < k + |secret| ensures !At(secret, text[n..], k) {
      assert !At(secret, text, k + n);
      AtFromEnd(secret, text, n, k);
    }
  }

  lemma SplitsBehindMatch(text: string, secret: string, i: nat)
    requires secret != "" && secret <= text && |secret| <= i && i + |secret| <= |text|
    requires SplitsAt(text[|secret|..], secret, i - |secret|)
    ensures SplitsAt(text, secret, i)
  {
    hide ReplaceAll;
    var n := |secret|;
    PartsBehind(text, n, i, n);
    ReplaceStep(text, secret);
    ReplaceStep(text[..i], secret);
    InFront(MASK, ReplaceAll(text[n..][..i - n], secret), ReplaceAll(text[i + n..], secret));
  }

  lemma SplitsBehindFirst(text: string, secret: string, i: nat)
    requires secret != "" && !(secret <= text) && 0 < i && i + |secret| <= |text|
    requires SplitsAt(text[1..], secret, i - 1)
    ensures SplitsAt(text, secret, i)
  {
    hide ReplaceAll;
    PartsBehind(text, 1, i, |secret|);
    ReplaceStep(text, secret);
    ShortOrNot(text, secret, i);
    InFront([text[0]], ReplaceAll(text[1..][..i - 1], secret), ReplaceAll(text[i + |secret|..], secret));
  }

  lemma InFront(front: string, a: string, b: string)
    ensures front + (a + MASK + b) == (front + a) + MASK + b
  {
  }

  lemma PartsBehind(text: string, n: nat, i: nat, m: nat)
    requires n <= i && i + m <= |text|
    ensures text[..i][n..] == text[n..][..i - n] && text[i + m..] == text[n..][i - n + m..]
    ensures text[..i][..n] == text[..n]
  {
  }

  lemma AtFromEnd(part: string, text: string, n: nat, k: nat)
    requires n <= |text|
    ensures At(part, text[n..], k) <==> At(part, text, k + n)
  {
    if k + n + |part| <= |text| {
      assert text[n..][k..k + |part|] == text[k + n..k + n + |part|];
    }
  }

  lemma ShortOrNot(text: string, secret: string, i: nat)
    requires secret != "" && 0 < i <= |text| && !(secret <= text)
    ensures ReplaceAll(text[..i], secret) == [text[0]] + ReplaceAll(text[1..][..i - 1], secret)
  {
    hide ReplaceAll;
    var t := text[..i];
    assert t[1..] == text[1..][..i - 1] && t[0] == text[0];
    ReplaceStep(t, secret);
    ReplaceStep(t[1..], secret);
    if |t| < |secret| {
      assert t == [t[0]] + t[1..];
    }
  }

  /** A secret longer than every other is replaced in the text as it came. */
  lemma LongestGoesFirst(text: string, secret: string, commands: seq<seq<string>>, flags: set<string>)
    requires secret in Secrets(commands, flags)
    requires forall t :: t in Secrets(commands, flags) ==> t == secret || |t| < |secret|
    ensures var list := LongestFirst(Secrets(commands, flags));
            list != [] && list[0] == secret && "" !in list && "" !in list[1..]
            && Redacted(text, commands, flags) == ReplaceEach(ReplaceAll(text, secret), list[1..])
  {
    hide ReplaceEach, ReplaceAll, LongestFirst, Secrets;
    var secrets := Secrets(commands, flags);
    var list := LongestFirst(secrets);
    NoEmptySecret(commands, flags);
    LongestFirstSorts(secrets);
    SameSecrets(secrets);
    LongestIsFirst(list, secret);
    assert list == [list[0]] + list[1..];
    ReplaceEachConcat(text, [secret], list[1..]);
    ReplaceOne(text, secret);
  }

  lemma LongestIsFirst(list: seq<string>, s: string)
    requires s in list && Shortening(list) && forall t :: t in list ==> t == s || |t| < |s|
    ensures list[0] == s
  {
    var k :| 0 <= k < |list| && list[k] == s;
    assert |list[0]| >= |list[k]| && list[0] in list;
  }

  /** An occurrence that overlaps an earlier one of the same secret is not replaced whole. */
  lemma OverlapLeavesTail()
    ensures Redacted("ababa", [["-t", "aba"]], {"-t"}) == "***ba"
  {
    hide Redacted;
    RedactsOneSecret("ababa", "-t", "aba");
    assert "ababa" == "" + "aba" + "ba";
    ReplacesMiddle("", "aba", "ba");
    assert "" + MASK + "ba" == "***ba";
  }
}
