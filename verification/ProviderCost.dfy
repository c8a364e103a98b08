/** The complete-total fold over provider cost evidence: an amount is published only when the evidence
    covers the expected cells exactly. Schema validation happens before; `None` and `Rejected` are inputs
    the schemas refuse. */
module ProviderCost {
  import opened Sequences
  import opened Wrappers

  const NUL: char := '\0'

  /** Every vocabulary a cell field is drawn from excludes the key separator. */
  type Field = s: string | NUL !in s

  datatype Cell = Cell(runId: Field, providerId: Field, suite: Field, replicateIndex: Option<nat>)

  /** What the schema admits as an amount. */
  type Charge = a: real | a >= 0.0

  datatype Evidence =
    | Rejected
    | Missing(cell: Cell)
    | Observed(cell: Cell, sandboxId: string, amount: Charge, currency: string)

  // ----- cell keys

  function Decimal(n: nat): string {
    (if n < 10 then "" else Decimal(n / 10)) + [('0' as int + n % 10) as char]
  }

  function Replicate(index: Option<nat>): string {
    match index
    case None => "single"
    case Some(n) => Decimal(n)
  }

  /** `providerCostCellKey`. */
  function Key(cell: Cell): string {
    cell.runId + [NUL] + cell.providerId + [NUL] + cell.suite + [NUL] + Replicate(cell.replicateIndex)
  }

  lemma {:induction false} DecimalDigits(n: nat)
    ensures forall k :: 0 <= k < |Decimal(n)| ==> '0' <= Decimal(n)[k] <= '9'
  {
    if n >= 10 {
      DecimalDigits(n / 10);
    }
  }

  lemma {:induction false} DecimalInjective(m: nat, n: nat)
    requires Decimal(m) == Decimal(n)
    ensures m == n
  {
    var s, t := Decimal(m), Decimal(n);
    assert s[|s| - 1] == t[|t| - 1];
    assert m % 10 == n % 10;
    assert s[..|s| - 1] == t[..|t| - 1];
    assert s[..|s| - 1] == if m < 10 then "" else Decimal(m / 10);
    assert t[..|t| - 1] == if n < 10 then "" else Decimal(n / 10);
    if m >= 10 && n >= 10 {
      DecimalInjective(m / 10, n / 10);
    }
  }

  lemma NotSingle(n: nat)
    ensures Decimal(n) != "single"
  {
    DecimalDigits(n);
    var single := "single";
    assert single[0] > '9';
  }

  lemma ReplicateInjective(a: Option<nat>, b: Option<nat>)
    requires Replicate(a) == Replicate(b)
    ensures a == b
  {
    match (a, b) {
      case (Some(m), Some(n)) => DecimalInjective(m, n);
      case (Some(m), None) => NotSingle(m);
      case (None, Some(n)) => NotSingle(n);
      case (None, None) =>
    }
  }

  function FirstNul(s: string): nat {
    if s == "" || s[0] == NUL then 0 else 1 + FirstNul(s[1..])
  }

  lemma {:induction false} FirstNulEndsField(a: string, x: string)
    requires NUL !in a
    ensures FirstNul(a + [NUL] + x) == |a|
  {
    var s := a + [NUL] + x;
    if a == "" {
      assert s[0] == NUL;
    } else {
      assert s[1..] == a[1..] + [NUL] + x;
      FirstNulEndsField(a[1..], x);
    }
  }

  lemma SplitAtNul(a: Field, x: string, b: Field, y: string)
    requires a + [NUL] + x == b + [NUL] + y
    ensures a == b && x == y
  {
    var s, t := a + [NUL] + x, b + [NUL] + y;
    FirstNulEndsField(a, x);
    FirstNulEndsField(b, y);
    assert s[..|a|] == a && t[..|b|] == b;
    assert s[|a| + 1..] == x && t[|b| + 1..] == y;
  }

  function AfterProvider(cell: Cell): string {
    cell.suite + [NUL] + Replicate(cell.replicateIndex)
  }

  function AfterRun(cell: Cell): string {
    cell.providerId + [NUL] + AfterProvider(cell)
  }

  lemma KeyNests(cell: Cell)
    ensures Key(cell) == cell.runId + [NUL] + AfterRun(cell)
  {
    hide Replicate;
    var run, rest := cell.runId + [NUL], [NUL] + cell.suite + [NUL] + Replicate(cell.replicateIndex);
    assert Key(cell) == run + cell.providerId + rest;
    assert AfterRun(cell) == cell.providerId + rest;
  }

  /** What a decimal numeral is worth. */
  function Worth(s: string): int {
    if s == "" then 0 else Worth(s[..|s| - 1]) * 10 + (s[|s| - 1] as int - '0' as int)
  }

  lemma {:induction false} DecimalIsWorth(n: nat)
    ensures Worth(Decimal(n)) == n
  {
    var s := Decimal(n);
    if n < 10 {
      assert s[..0] == "";
    } else {
      assert s[..|s| - 1] == Decimal(n / 10);
      DecimalIsWorth(n / 10);
    }
  }

  /** The key, letter for letter. */
  lemma KeyText(cell: Cell)
    ensures Key(cell) == cell.runId + "\0" + cell.providerId + "\0" + cell.suite + "\0"
                         + if cell.replicateIndex.None? then "single" else Decimal(cell.replicateIndex.value)
  {
    hide Decimal;
    assert "\0" == [NUL];
  }

  /** The key identifies the cell. */
  lemma KeyInjective(a: Cell, b: Cell)
    requires Key(a) == Key(b)
    ensures a == b
  {
    hide Key, Replicate;
    KeyNests(a);
    KeyNests(b);
    SplitAtNul(a.runId, AfterRun(a), b.runId, AfterRun(b));
    SplitAtNul(a.providerId, AfterProvider(a), b.providerId, AfterProvider(b));
    SplitAtNul(a.suite, Replicate(a.replicateIndex), b.suite, Replicate(b.replicateIndex));
    ReplicateInjective(a.replicateIndex, b.replicateIndex);
  }

  // ----- what a complete total means

  ghost predicate AllValid(expected: seq<Option<Cell>>) {
    forall i :: 0 <= i < |expected| ==> expected[i].Some?
  }

  ghost predicate AllObserved(records: seq<Evidence>) {
    forall i :: 0 <= i < |records| ==> records[i].Observed?
  }

  ghost function Cells(expected: seq<Option<Cell>>): (r: seq<Cell>)
    requires AllValid(expected)
    ensures |r| == |expected|
  {
    seq(|expected|, i requires 0 <= i < |expected| => expected[i].value)
  }

  ghost function RecordCells(records: seq<Evidence>): (r: seq<Cell>)
    requires AllObserved(records)
    ensures |r| == |records|
  {
    seq(|records|, i requires 0 <= i < |records| => records[i].cell)
  }

  ghost predicate DistinctSandboxes(records: seq<Evidence>)
    requires AllObserved(records)
  {
    forall i, j :: 0 <= i < j < |records| ==> records[i].sandboxId != records[j].sandboxId
  }

  ghost predicate OneCurrency(records: seq<Evidence>)
    requires AllObserved(records)
  {
    forall i :: 0 <= i < |records| ==> records[i].currency == records[0].currency
  }

  function Amount(records: seq<Evidence>): real {
    if records == [] then 0.0
    else
      var last := records[|records| - 1];
      Amount(records[..|records| - 1]) + if last.Observed? then last.amount else 0.0
  }

  /** The amount adds up over any cut of the records, and one record is worth its own. */
  lemma {:induction false} AmountAddsUp(
    a: seq<Evidence>, b: seq<Evidence>, cell: Cell, id: string, x: Charge, c: string)
    ensures Amount(a + b) == Amount(a) + Amount(b)
    ensures Amount([Observed(cell, id, x, c)]) == x
  {
    assert [Observed(cell, id, x, c)][..0] == [];
    if b == [] {
      assert a + b == a;
    } else {
      assert (a + b)[..|a + b| - 1] == a + b[..|b| - 1];
      AmountAddsUp(a, b[..|b| - 1], cell, id, x, c);
    }
  }

  /** No partial sum overflows. */
  ghost predicate Finite(records: seq<Evidence>, largest: real) {
    forall i :: 0 <= i <= |records| ==> Amount(records[..i]) <= largest
  }

  /** The evidence covers the expected cells: as collections without repetition they are the same. */
  ghost predicate Complete(records: seq<Evidence>, expected: seq<Option<Cell>>, largest: real) {
    records != []
    && AllValid(expected) && AllObserved(records)
    && Distinct(Cells(expected)) && multiset(RecordCells(records)) == multiset(Cells(expected))
    && DistinctSandboxes(records) && OneCurrency(records) && Finite(records, largest)
  }

  // ----- the fold

  ghost predicate KeySet(keys: set<string>, cells: seq<Cell>) {
    forall k :: k in keys <==> exists i :: 0 <= i < |cells| && k == Key(cells[i])
  }

  lemma KeyIn(keys: set<string>, cells: seq<Cell>, cell: Cell)
    requires KeySet(keys, cells)
    ensures Key(cell) in keys <==> cell in cells
  {
    if Key(cell) in keys {
      var i :| 0 <= i < |cells| && Key(cell) == Key(cells[i]);
      KeyInjective(cell, cells[i]);
    }
  }

  lemma KeyAdded(keys: set<string>, cells: seq<Cell>, cell: Cell)
    requires KeySet(keys, cells)
    ensures KeySet(keys + {Key(cell)}, cells + [cell])
  {
    var all := cells + [cell];
    forall k ensures k in keys + {Key(cell)} <==> exists i :: 0 <= i < |all| && k == Key(all[i]) {
      if k == Key(cell) {
        assert k == Key(all[|cells|]);
      }
      if k in keys {
        var i :| 0 <= i < |cells| && k == Key(cells[i]);
        assert k == Key(all[i]);
      }
      if i :| 0 <= i < |all| && k == Key(all[i]) {
        if i < |cells| {
          assert k == Key(cells[i]);
        }
      }
    }
  }

  lemma DistinctAdded<T>(s: seq<T>, x: T)
    requires Distinct(s)
    ensures Distinct(s + [x]) <==> x !in s
  {
    if i :| 0 <= i < |s| && s[i] == x {
      assert (s + [x])[i] == (s + [x])[|s|];
    }
  }

  lemma DistinctPrefix<T>(s: seq<T>, n: nat)
    requires n <= |s| && !Distinct(s[..n])
    ensures !Distinct(s)
  {
    var i, j :| 0 <= i < j < n && s[..n][i] == s[..n][j];
    assert s[i] == s[j];
  }

  lemma {:induction false} DistinctCovers<T>(a: seq<T>, b: seq<T>)
    requires Distinct(a) && |a| == |b| && forall x :: x in a ==> x in b
    ensures multiset(a) == multiset(b) && Distinct(b)
    decreases |a|
  {
    hide Distinct;
    if a == [] {
      assert b == [];
      NoneRepeated(b);
    } else {
      var x, rest := a[0], a[1..];
      assert x in a && x in b;
      var k :| 0 <= k < |b| && b[k] == x;
      var others := b[..k] + b[k + 1..];
      TakenOut(b, k);
      assert a == [x] + rest;
      HeadOnce(a);
      forall y | y in rest ensures y in others {
        assert y in a && y != x;
      }
      DistinctCovers(rest, others);
      assert x in others <==> x in multiset(others);
      DistinctWithout(b, k);
    }
  }

  lemma NoneRepeated<T>(s: seq<T>)
    requires s == []
    ensures Distinct(s)
  {
  }

  lemma TakenOut<T>(b: seq<T>, k: nat)
    requires k < |b|
    ensures var others := b[..k] + b[k + 1..];
            |others| == |b| - 1 && multiset(b) == multiset(others) + multiset{b[k]}
            && forall y :: y in b && y != b[k] ==> y in others
  {
    assert b == b[..k] + [b[k]] + b[k + 1..];
  }

  lemma HeadOnce<T>(a: seq<T>)
    requires a != [] && Distinct(a)
    ensures a[0] !in a[1..] && Distinct(a[1..])
  {
    forall i | 0 <= i < |a| - 1 ensures a[1..][i] != a[0] {
      assert a[i + 1] != a[0];
    }
  }

  lemma DistinctWithout<T>(b: seq<T>, k: nat)
    requires k < |b| && Distinct(b[..k] + b[k + 1..]) && b[k] !in b[..k] + b[k + 1..]
    ensures Distinct(b)
  {
    var others := b[..k] + b[k + 1..];
    forall i, j | 0 <= i < j < |b| ensures b[i] != b[j] {
      if i == k {
        assert b[j] == others[j - 1];
      } else if j == k {
        assert b[i] == others[i];
      } else {
        assert b[i] == others[if i < k then i else i - 1] && b[j] == others[if j < k then j else j - 1];
      }
    }
  }

  lemma DistinctLikewise<T>(a: seq<T>, b: seq<T>)
    requires multiset(a) == multiset(b) && Distinct(b)
    ensures Distinct(a) && |a| == |b| && forall x :: x in a <==> x in b
  {
    assert |multiset(a)| == |a| && |multiset(b)| == |b|;
    forall x ensures x in a <==> x in b {
      assert x in multiset(a) <==> x in multiset(b);
    }
    DistinctCovers(b, a);
  }

  /** The expected cells accepted so far. */
  ghost predicate Fresh(expected: seq<Option<Cell>>) {
    AllValid(expected) && Distinct(Cells(expected))
  }

  lemma FreshExtends(expected: seq<Option<Cell>>, e: Option<Cell>)
    requires Fresh(expected)
    ensures Fresh(expected + [e]) <==> e.Some? && e.value !in Cells(expected)
    ensures e.Some? ==> AllValid(expected + [e]) && Cells(expected + [e]) == Cells(expected) + [e.value]
  {
    assert (expected + [e])[|expected|] == e;
    if e.Some? {
      assert AllValid(expected + [e]);
      assert Cells(expected + [e]) == Cells(expected) + [e.value];
      DistinctAdded(Cells(expected), e.value);
    }
  }

  lemma FreshPrefix(expected: seq<Option<Cell>>, n: nat)
    requires n <= |expected| && Fresh(expected)
    ensures Fresh(expected[..n])
  {
    assert Cells(expected[..n]) == Cells(expected)[..n];
    if !Distinct(Cells(expected[..n])) {
      DistinctPrefix(Cells(expected), n);
    }
  }

  /** The expected keys, or `None` when a cell is refused or repeated. */
  method ExpectedKeys(expected: seq<Option<Cell>>) returns (keys: Option<set<string>>)
    ensures keys.Some? <==> AllValid(expected) && Distinct(Cells(expected))
    ensures keys.Some? ==> KeySet(keys.value, Cells(expected)) && |keys.value| == |expected|
  {
    hide Key, Distinct, KeySet, Cells;
    var seen: set<string> := {};
    NothingYet();
    var i := 0;
    while i < |expected|
      invariant 0 <= i <= |expected| && Fresh(expected[..i])
      invariant KeySet(seen, Cells(expected[..i])) && |seen| == i
    {
      var done, input := expected[..i], expected[i];
      assert expected[..i + 1] == done + [input];
      FreshExtends(done, input);
      if Fresh(expected) {
        FreshPrefix(expected, i + 1);
      }
      if input.None? {
        return None;
      }
      KeyIn(seen, Cells(done), input.value);
      if Key(input.value) in seen {
        return None;
      }
      KeyAdded(seen, Cells(done), input.value);
      seen := seen + {Key(input.value)};
      i := i + 1;
    }
    assert expected[..i] == expected;
    return Some(seen);
  }

  lemma NothingYet()
    ensures Fresh([]) && KeySet({}, Cells([]))
  {
  }

  datatype Total = Total(amount: real, currency: string)

  /** The records folded so far pass every test of the loop. */
  ghost predicate Accepted(records: seq<Evidence>, expected: seq<Cell>, largest: real) {
    AllObserved(records) && Distinct(RecordCells(records)) && (forall c :: c in RecordCells(records) ==> c in expected)
    && DistinctSandboxes(records) && OneCurrency(records) && Finite(records, largest)
  }

  ghost predicate SandboxSet(sandboxes: set<string>, records: seq<Evidence>)
    requires AllObserved(records)
  {
    forall id :: id in sandboxes <==> exists i :: 0 <= i < |records| && records[i].sandboxId == id
  }

  lemma AcceptedExtends(records: seq<Evidence>, r: Evidence, expected: seq<Cell>, largest: real)
    requires Accepted(records, expected, largest)
    ensures Accepted(records + [r], expected, largest)
            <==> r.Observed? && r.cell in expected && r.cell !in RecordCells(records)
                 && (forall i :: 0 <= i < |records| ==> records[i].sandboxId != r.sandboxId)
                 && (records != [] ==> r.currency == records[0].currency)
                 && Amount(records) + r.amount <= largest
  {
    hide Amount, Finite, DistinctSandboxes, OneCurrency, Distinct;
    var all := records + [r];
    assert all[|records|] == r && all[..|records|] == records;
    if r.Observed? {
      assert AllObserved(all);
      assert RecordCells(all) == RecordCells(records) + [r.cell];
      DistinctAdded(RecordCells(records), r.cell);
      SandboxesExtend(records, r);
      CurrencyExtends(records, r);
      FiniteExtends(records, r, largest);
      assert r.cell in RecordCells(all);
    }
  }

  lemma FiniteExtends(records: seq<Evidence>, r: Evidence, largest: real)
    requires Finite(records, largest) && r.Observed?
    ensures Amount(records + [r]) == Amount(records) + r.amount
    ensures Finite(records + [r], largest) <==> Amount(records) + r.amount <= largest
  {
    var all := records + [r];
    assert all[..|records|] == records && all[..|all|] == all;
    assert Amount(all) == Amount(records) + r.amount;
    forall i | 0 <= i <= |records| ensures all[..i] == records[..i] {
    }
  }

  lemma SandboxesExtend(records: seq<Evidence>, r: Evidence)
    requires AllObserved(records) && r.Observed?
    ensures DistinctSandboxes(records + [r])
            <==> DistinctSandboxes(records) && forall i :: 0 <= i < |records| ==> records[i].sandboxId != r.sandboxId
  {
    var all := records + [r];
    if DistinctSandboxes(all) {
      forall i | 0 <= i < |records| ensures records[i].sandboxId != r.sandboxId {
        assert all[i].sandboxId != all[|records|].sandboxId;
      }
      forall i, j | 0 <= i < j < |records| ensures records[i].sandboxId != records[j].sandboxId {
        assert all[i].sandboxId != all[j].sandboxId;
      }
    }
  }

  lemma CurrencyExtends(records: seq<Evidence>, r: Evidence)
    requires AllObserved(records) && OneCurrency(records) && r.Observed?
    ensures OneCurrency(records + [r]) <==> records != [] ==> r.currency == records[0].currency
  {
    var all := records + [r];
    assert all[|records|] == r;
    assert records != [] ==> all[0] == records[0];
  }

  lemma AcceptedPrefix(records: seq<Evidence>, n: nat, expected: seq<Cell>, largest: real)
    requires n <= |records| && Accepted(records, expected, largest)
    ensures Accepted(records[..n], expected, largest)
  {
    var part := records[..n];
    assert AllObserved(part);
    assert RecordCells(part) == RecordCells(records)[..n];
    if !Distinct(RecordCells(part)) {
      DistinctPrefix(RecordCells(records), n);
    }
    forall i | 0 <= i <= n ensures part[..i] == records[..i] {
    }
    assert forall i :: 0 <= i < n ==> part[i] == records[i];
  }

  /** A fold over as many records as expected cells accepts exactly complete evidence. */
  lemma AcceptedIsComplete(records: seq<Evidence>, expected: seq<Option<Cell>>, largest: real)
    requires records != [] && AllValid(expected) && Distinct(Cells(expected))
    ensures Complete(records, expected, largest)
            <==> |records| == |expected| && Accepted(records, Cells(expected), largest)
  {
    hide Amount, Finite, DistinctSandboxes, OneCurrency;
    if |records| == |expected| && Accepted(records, Cells(expected), largest) {
      DistinctCovers(RecordCells(records), Cells(expected));
    }
    if Complete(records, expected, largest) {
      DistinctLikewise(RecordCells(records), Cells(expected));
    }
  }

  /** `providerCostTotal`: an amount exactly for complete evidence, and then the sum. */
  method ProviderCostTotal(records: seq<Evidence>, expected: seq<Option<Cell>>, largest: real)
    returns (total: Option<Total>)
    requires largest >= 0.0
    ensures total.Some? <==> Complete(records, expected, largest)
    ensures total.Some? ==> total.value == Total(Amount(records), records[0].currency)
  {
    hide Finite, Distinct, DistinctSandboxes, OneCurrency, Accepted, KeySet, SandboxSet, Key;
    if records == [] || expected == [] {
      NothingExpected(records, expected, largest);
      return None;
    }
    var keys := ExpectedKeys(expected);
    if keys.None? {
      return None;
    }
    AcceptedIsComplete(records, expected, largest);
    if |records| != |keys.value| {
      return None;
    }
    total := FoldRecords(records, Cells(expected), keys.value, largest);
  }

  lemma NothingExpected(records: seq<Evidence>, expected: seq<Option<Cell>>, largest: real)
    requires records == [] || expected == []
    ensures !Complete(records, expected, largest)
  {
    if AllObserved(records) && AllValid(expected) {
      assert |multiset(RecordCells(records))| == |records| && |multiset(Cells(expected))| == |expected|;
    }
  }

  /** The loop over the records; the final size test cannot fail once the lengths agree. */
  method FoldRecords(records: seq<Evidence>, ghost wanted: seq<Cell>, expected: set<string>, largest: real)
    returns (total: Option<Total>)
    requires KeySet(expected, wanted) && |records| == |expected| > 0 && largest >= 0.0
    ensures total.Some? <==> Accepted(records, wanted, largest)
    ensures total.Some? ==> total.value == Total(Amount(records), records[0].currency)
  {
    hide Finite, Distinct, DistinctSandboxes, OneCurrency, KeySet, SandboxSet, Key;
    var cells: set<string> := {};
    var sandboxes: set<string> := {};
    var currency: Option<string> := None;
    var amount := 0.0;
    var i := 0;
    Empty(wanted, largest);
    while i < |records|
      invariant 0 <= i <= |records| && Accepted(records[..i], wanted, largest)
      invariant KeySet(cells, RecordCells(records[..i])) && |cells| == i
      invariant SandboxSet(sandboxes, records[..i])
      invariant amount == Amount(records[..i])
      invariant currency == if i == 0 then None else Some(records[0].currency)
    {
      var done, record := records[..i], records[i];
      assert records[..i + 1] == done + [record];
      Step(records, i, wanted, largest);
      if record.Observed? {
        KeyIn(expected, wanted, record.cell);
        KeyIn(cells, RecordCells(done), record.cell);
        SandboxIn(sandboxes, done, record.sandboxId);
        if Key(record.cell) !in expected || Key(record.cell) in cells || record.sandboxId in sandboxes {
          return None;
        }
        KeyAdded(cells, RecordCells(done), record.cell);
        SandboxAdded(sandboxes, done, record);
        cells := cells + {Key(record.cell)};
        sandboxes := sandboxes + {record.sandboxId};
        if currency.Some? && currency.value != record.currency {
          return None;
        }
        currency := Some(record.currency);
        amount := amount + record.amount;
        if amount > largest {
          return None;
        }
        assert RecordCells(records[..i + 1]) == RecordCells(done) + [record.cell];
        i := i + 1;
      } else {
        return None;
      }
    }
    assert records[..i] == records;
    return if currency.None? || |cells| != |expected| then None else Some(Total(amount, currency.value));
  }

  lemma Empty(wanted: seq<Cell>, largest: real)
    requires largest >= 0.0
    ensures Accepted([], wanted, largest) && KeySet({}, RecordCells([])) && SandboxSet({}, [])
  {
    assert Amount([]) == 0.0;
  }

  lemma Step(records: seq<Evidence>, i: nat, wanted: seq<Cell>, largest: real)
    requires i < |records| && Accepted(records[..i], wanted, largest)
    ensures AllObserved(records[..i])
    ensures Accepted(records, wanted, largest) ==> Accepted(records[..i + 1], wanted, largest)
    ensures Accepted(records[..i + 1], wanted, largest)
            <==> records[i].Observed? && records[i].cell in wanted && records[i].cell !in RecordCells(records[..i])
                 && (forall k :: 0 <= k < i ==> records[..i][k].sandboxId != records[i].sandboxId)
                 && (i > 0 ==> records[i].currency == records[0].currency)
                 && Amount(records[..i]) + records[i].amount <= largest
    ensures Amount(records[..i + 1])
            == Amount(records[..i]) + if records[i].Observed? then records[i].amount else 0.0
  {
    assert records[..i + 1] == records[..i] + [records[i]];
    assert records[..i + 1][..i] == records[..i];
    AcceptedExtends(records[..i], records[i], wanted, largest);
    if Accepted(records, wanted, largest) {
      AcceptedPrefix(records, i + 1, wanted, largest);
    }
  }

  lemma SandboxIn(sandboxes: set<string>, records: seq<Evidence>, id: string)
    requires AllObserved(records) && SandboxSet(sandboxes, records)
    ensures id in sandboxes <==> exists i :: 0 <= i < |records| && records[i].sandboxId == id
  {
  }

  lemma SandboxAdded(sandboxes: set<string>, records: seq<Evidence>, r: Evidence)
    requires AllObserved(records) && SandboxSet(sandboxes, records) && r.Observed?
    ensures AllObserved(records + [r]) && SandboxSet(sandboxes + {r.sandboxId}, records + [r])
  {
    var all := records + [r];
    forall id ensures id in sandboxes + {r.sandboxId} <==> exists i :: 0 <= i < |all| && all[i].sandboxId == id {
      assert all[|records|].sandboxId == r.sandboxId;
      if id in sandboxes {
        var i :| 0 <= i < |records| && records[i].sandboxId == id;
        assert all[i].sandboxId == id;
      }
      if i :| 0 <= i < |all| && all[i].sandboxId == id {
        assert i < |records| ==> records[i].sandboxId == id;
      }
    }
  }

  // ----- what a caller may conclude

  /** Records and expected cells correspond one to one: each side determines its partner. */
  ghost predicate OneToOne(records: seq<Evidence>, expected: seq<Option<Cell>>) {
    (forall i :: 0 <= i < |records| ==> Covers(records[i], expected))
    && (forall j :: 0 <= j < |expected| ==> Covered(expected[j], records))
    && (forall i, j :: 0 <= i < j < |records| ==> !SameCell(records[i], records[j]))
    && forall i, j :: 0 <= i < j < |expected| ==> expected[i] != expected[j]
  }

  predicate SameCell(a: Evidence, b: Evidence) {
    a.Observed? && b.Observed? && a.cell == b.cell
  }

  ghost predicate Covers(r: Evidence, expected: seq<Option<Cell>>) {
    r.Observed? && exists j :: 0 <= j < |expected| && expected[j] == Some(r.cell)
  }

  ghost predicate Covered(e: Option<Cell>, records: seq<Evidence>) {
    e.Some? && exists i :: 0 <= i < |records| && records[i].Observed? && records[i].cell == e.value
  }

  /** Complete evidence and the expected cells biject, and nothing else is asked of cells. */
  lemma CompleteIsBijection(records: seq<Evidence>, expected: seq<Option<Cell>>, largest: real)
    requires records != []
    ensures Complete(records, expected, largest)
            <==> OneToOne(records, expected) && AllObserved(records) && DistinctSandboxes(records)
                 && OneCurrency(records) && Finite(records, largest)
  {
    hide Amount, Finite, DistinctSandboxes, OneCurrency;
    if OneToOne(records, expected) {
      OneToOneIsValid(records, expected);
    }
    if AllValid(expected) && AllObserved(records) {
      var have, want := RecordCells(records), Cells(expected);
      if Complete(records, expected, largest) {
        CompleteCovers(records, expected);
      }
      if OneToOne(records, expected) {
        forall x | x in have ensures x in want {
          var i :| 0 <= i < |have| && have[i] == x;
          assert Covers(records[i], expected);
          var j :| 0 <= j < |expected| && expected[j] == Some(x);
          assert want[j] == x;
        }
        forall x | x in want ensures x in have {
          var j :| 0 <= j < |want| && want[j] == x;
          assert Covered(expected[j], records);
          var i :| 0 <= i < |records| && records[i].cell == x;
          assert have[i] == x;
        }
        forall i, j | 0 <= i < j < |have| ensures have[i] != have[j] {
          assert !SameCell(records[i], records[j]);
        }
        forall i, j | 0 <= i < j < |want| ensures want[i] != want[j] {
          assert expected[i] != expected[j];
        }
        SameElements(have, want);
      }
    }
  }

  lemma OneToOneIsValid(records: seq<Evidence>, expected: seq<Option<Cell>>)
    requires OneToOne(records, expected)
    ensures AllValid(expected) && AllObserved(records)
  {
    assert forall i :: 0 <= i < |records| ==> Covers(records[i], expected);
    assert forall j :: 0 <= j < |expected| ==> Covered(expected[j], records);
  }

  lemma CompleteCovers(records: seq<Evidence>, expected: seq<Option<Cell>>)
    requires AllValid(expected) && AllObserved(records) && Distinct(Cells(expected))
    requires multiset(RecordCells(records)) == multiset(Cells(expected))
    ensures OneToOne(records, expected)
  {
    var have, want := RecordCells(records), Cells(expected);
    DistinctLikewise(have, want);
    forall i | 0 <= i < |records| ensures Covers(records[i], expected) {
      assert have[i] in want;
      var j :| 0 <= j < |want| && want[j] == have[i];
      assert expected[j] == Some(records[i].cell);
    }
    forall j | 0 <= j < |expected| ensures Covered(expected[j], records) {
      assert want[j] in have;
      var i :| 0 <= i < |have| && have[i] == want[j];
      assert records[i].cell == expected[j].value;
    }
    forall i, j | 0 <= i < j < |records| ensures !SameCell(records[i], records[j]) {
      assert have[i] != have[j];
    }
    forall i, j | 0 <= i < j < |expected| ensures expected[i] != expected[j] {
      assert want[i] != want[j];
    }
  }

  lemma {:induction false} SameElements<T>(a: seq<T>, b: seq<T>)
    requires Distinct(a) && Distinct(b) && forall x :: x in a <==> x in b
    ensures multiset(a) == multiset(b)
  {
    forall x ensures multiset(a)[x] == multiset(b)[x] {
      OnceEach(a, x);
      OnceEach(b, x);
    }
  }

  lemma {:induction false} OnceEach<T>(s: seq<T>, x: T)
    requires Distinct(s)
    ensures multiset(s)[x] == if x in s then 1 else 0
  {
    if s != [] {
      assert s == [s[0]] + s[1..];
      assert Distinct(s[1..]) by {
        assert forall i :: 0 <= i < |s| - 1 ==> s[1..][i] == s[i + 1];
      }
      OnceEach(s[1..], x);
      forall i | 0 <= i < |s| - 1 ensures s[1..][i] != s[0] {
        assert s[i + 1] != s[0];
      }
    }
  }

  /** Charges are never negative, so the running test for overflow is a test of the total alone. */
  lemma {:induction false} FiniteIsTotalFits(records: seq<Evidence>, largest: real)
    ensures Finite(records, largest) <==> Amount(records) <= largest
  {
    assert records[..|records|] == records;
    if records != [] {
      var n := |records| - 1;
      assert Amount(records) >= Amount(records[..n]);
      FiniteIsTotalFits(records[..n], largest);
      forall i | 0 <= i <= n ensures records[..n][..i] == records[..i] {
      }
    }
  }
}
