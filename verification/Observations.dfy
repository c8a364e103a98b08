/** What is known about one generated sandbox name: the environment's answers in order, and the
    observations they amount to. */
module Observations {
  import opened Wrappers

  /** What is observed about one generated sandbox name, in order. `Absent` records when the observing
      command began and when its answer was read; `confirming` marks the re-observation that
      `retryCleanup` makes after waiting out the horizon. */
  datatype Event =
    | CreateIssued
    | Located
    | Destroyed
    | Absent(begun: real, seen: real, confirming: bool)

  /** The absence the horizon is measured from: the first one since the last positive lookup. */
  function FirstMissing(log: seq<Event>): Option<real> {
    if log == [] then None
    else
      var before := FirstMissing(log[..|log| - 1]);
      match log[|log| - 1]
      case Located => None
      case Absent(_, seen, false) => if before.None? then Some(seen) else before
      case _ => before
  }

  /** The last event proves the allocation gone: a destroy was acknowledged, or it is an absence read at
      least `horizon` after the one the horizon is measured from. */
  predicate Conclusive(log: seq<Event>, horizon: real) {
    log != []
    && match log[|log| - 1]
       case Destroyed => true
       case Absent(_, seen, _) =>
         FirstMissing(log[..|log| - 1]).Some? && seen - FirstMissing(log[..|log| - 1]).value >= horizon
       case _ => false
  }

  // ----- what the fold means

  ghost predicate NoLookupBetween(log: seq<Event>, i: nat, j: nat)
    requires j <= |log|
  {
    forall k :: i < k < j ==> log[k] != Located
  }

  /** `FirstMissing` is a recorded absence with no positive lookup after it. */
  lemma {:induction false} FirstMissingIsRecorded(log: seq<Event>) returns (i: nat)
    requires FirstMissing(log).Some?
    ensures i < |log| && log[i].Absent? && log[i].seen == FirstMissing(log).value
    ensures NoLookupBetween(log, i, |log|)
  {
    var n := |log| - 1;
    if log[n].Absent? && !log[n].confirming && FirstMissing(log[..n]).None? {
      i := n;
    } else {
      i := FirstMissingIsRecorded(log[..n]);
      forall k | i < k < |log| ensures log[k] != Located {
        if k < n {
          assert log[..n][k] == log[k];
        }
      }
    }
  }

  /** A conclusive log ends in an acknowledged destroy, or in an absence for which an earlier absence
      was recorded at least `horizon` before, with no positive lookup between the two. */
  lemma ConclusiveMeansGone(log: seq<Event>, horizon: real)
    requires Conclusive(log, horizon)
    ensures var n := |log| - 1;
            log[n] == Destroyed
            || (log[n].Absent?
                && exists i: nat :: i < n && log[i].Absent? && log[n].seen - log[i].seen >= horizon
                                    && NoLookupBetween(log, i, n))
  {
    var n := |log| - 1;
    if log[n] != Destroyed {
      var i := FirstMissingIsRecorded(log[..n]);
      assert log[i] == log[..n][i];
      forall k | i < k < n ensures log[k] != Located {
        assert log[..n][k] == log[k];
      }
    }
  }

  /** Conversely, a first absence after the latest positive lookup followed by an absence read a horizon
      later, with only absences in between, is conclusive: absence that lasts is always accepted. */
  lemma LastingAbsenceIsConclusive(log: seq<Event>, i: nat, horizon: real)
    requires i < |log| - 1 && log[i].Absent? && !log[i].confirming
    requires FirstMissing(log[..i]).None?
    requires forall k :: i < k < |log| ==> log[k].Absent?
    requires log[|log| - 1].seen - log[i].seen >= horizon
    ensures Conclusive(log, horizon)
  {
    StillMissing(log, i, |log| - 1);
  }

  lemma {:induction false} StillMissing(log: seq<Event>, i: nat, j: nat)
    requires i < j <= |log| && log[i].Absent? && !log[i].confirming && FirstMissing(log[..i]).None?
    requires forall k :: i < k < j ==> log[k].Absent?
    ensures FirstMissing(log[..j]) == Some(log[i].seen)
  {
    assert log[..j][..j - 1] == log[..j - 1];
    if i < j - 1 {
      StillMissing(log, i, j - 1);
    }
  }

  // ----- when the second observation may begin

  /** The horizon has passed by `now`, if there is one. */
  ghost predicate LateEnough(log: seq<Event>, horizon: real, now: real) {
    FirstMissing(log).Some? ==> now >= FirstMissing(log).value + horizon
  }

  /** The last event, if it is an absence measured against an earlier one, was asked for a horizon later. */
  ghost predicate AskedLate(log: seq<Event>, horizon: real) {
    log != []
    && (var n := |log| - 1;
        log[n].Absent? && FirstMissing(log[..n]).Some? ==>
          log[n].begun >= FirstMissing(log[..n]).value + horizon)
  }

  /** Whatever answers a look that begins at `now` or later: an absence it proves was asked for late. */
  ghost predicate NeverEarly(log: seq<Event>, horizon: real, now: real) {
    forall begun: real, seen: real :: now <= begun <= seen ==> NotEarly(log, horizon, begun, seen)
  }

  ghost predicate NotEarly(log: seq<Event>, horizon: real, begun: real, seen: real) {
    var after := log + [Absent(begun, seen, false)];
    Conclusive(after, horizon) ==> AskedLate(after, horizon)
  }

  /** The exact condition under which no accepted absence can have been asked for before the horizon had
      passed: it had passed when the look began. The horizon is measured between the times answers were
      read, so a slow answer to an early question is accepted. */
  lemma NeverEarlyIffHorizonPassed(log: seq<Event>, horizon: real, now: real)
    ensures NeverEarly(log, horizon, now) <==> LateEnough(log, horizon, now)
  {
    if LateEnough(log, horizon, now) {
      forall begun: real, seen: real | now <= begun <= seen ensures NotEarly(log, horizon, begun, seen) {
        Extend(log, Absent(begun, seen, false));
      }
    } else {
      var seen := FirstMissing(log).value + (if horizon > 0.0 then horizon else 0.0);
      var late := if seen >= now then seen else now;
      Extend(log, Absent(now, late, false));
      assert !NotEarly(log, horizon, now, late);
    }
  }

  /** Two cleanup calls, the second of them asking before the horizon had passed and answered after it. */
  lemma AcceptedObservationMayBeginEarly(horizon: real)
    requires horizon > 1.0
    ensures var log := [CreateIssued, Absent(0.0, 1.0, false), Absent(2.0, 1.0 + horizon, false)];
            Conclusive(log, horizon) && !AskedLate(log, horizon)
  {
    var log := [CreateIssued, Absent(0.0, 1.0, false), Absent(2.0, 1.0 + horizon, false)];
    assert log[..2][..1] == [CreateIssued] && [CreateIssued][..0] == [];
    assert FirstMissing([CreateIssued]) == None;
    StillMissing(log, 1, 2);
  }

  lemma Extend(log: seq<Event>, e: Event)
    ensures (log + [e])[..|log + [e]| - 1] == log
    ensures FirstMissing(log + [e]) == match e
              case Located => None
              case Absent(_, seen, false) => if FirstMissing(log).None? then Some(seen) else FirstMissing(log)
              case _ => FirstMissing(log)
  {
  }

  // ----- the environment's answers

  datatype DestroyReply = DestroyThrew | NotFound | NonzeroExit | Acknowledged

  /** The lookup lane's answer: `Row` carries whether its id parses and what the diagnostic classifier says. */
  datatype ListReply = ListThrew | ListFailed | NoRow | Row(idValid: bool, terminal: bool)

  /** The create command and the readiness polling. */
  datatype CreateReply = CreateReply(ready: bool, createFailed: bool, hasExitCode: bool, retryable: bool)

  /** One thing that happened to the driver: an answer it was given, a cleanup it was asked for, or a
      clock reading. */
  datatype Answer =
    | Created(create: CreateReply)
    | Called
    | DestroyRan(begun: real, destroy: DestroyReply)
    | ListRan(begun: real, list: ListReply)
    | ClockRead(reading: real)

  /** The CLI said that the name does not exist. */
  predicate SaysAbsent(a: Answer) {
    (a.DestroyRan? && a.destroy == NotFound) || (a.ListRan? && a.list == NoRow)
  }

  predicate SaysPresent(a: Answer) {
    a.ListRan? && a.list.Row?
  }

  predicate SaysDestroyed(a: Answer) {
    a.DestroyRan? && a.destroy == Acknowledged
  }

  /** The observations a history amounts to, with the answer each rests on. `pending` is an absence whose
      answer has not been dated yet; `confirming` says that this cleanup call has dated one before. */
  datatype Reading = Reading(events: seq<Event>, at: seq<nat>, pending: Option<nat>, confirming: bool)

  function Next(r: Reading, history: seq<Answer>, a: Answer): Reading
    requires r.pending.Some? ==> r.pending.value < |history| && SaysAbsent(history[r.pending.value])
  {
    var n := |history|;
    if a.Created? then r.(events := r.events + [CreateIssued], at := r.at + [n], pending := None)
    else if a.Called? then r.(pending := None, confirming := false)
    else if SaysAbsent(a) then r.(pending := Some(n))
    else if SaysPresent(a) then r.(events := r.events + [Located], at := r.at + [n], pending := None)
    else if SaysDestroyed(a) then r.(events := r.events + [Destroyed], at := r.at + [n], pending := None)
    else if a.ClockRead? && r.pending.Some? then
      Reading(r.events + [Absent(history[r.pending.value].begun, a.reading, r.confirming)],
              r.at + [r.pending.value], None, true)
    else if a.ClockRead? then r
    else r.(pending := None)
  }

  /** An absence is dated by the first clock reading after its answer. */
  function Read(history: seq<Answer>): (r: Reading)
    ensures |r.at| == |r.events|
    ensures r.pending.Some? ==> r.pending.value < |history| && SaysAbsent(history[r.pending.value])
  {
    if history == [] then Reading([], [], None, false)
    else Next(Read(history[..|history| - 1]), history[..|history| - 1], history[|history| - 1])
  }

  lemma ReadNext(history: seq<Answer>, a: Answer)
    ensures Read(history + [a]) == Next(Read(history), history, a)
  {
    assert (history + [a])[..|history|] == history;
  }

  // ----- observations rest on answers

  /** The first clock reading after answer `i`. */
  ghost predicate DatedAt(history: seq<Answer>, i: nat, t: real) {
    exists m: nat :: i < m < |history| && history[m] == ClockRead(t)
                     && forall k: nat :: i < k < m ==> !history[k].ClockRead?
  }

  /** An observation rests on the answer at `i`. */
  ghost predicate RestsOn(history: seq<Answer>, e: Event, i: nat) {
    i < |history|
    && match e
       case CreateIssued => history[i].Created?
       case Located => SaysPresent(history[i])
       case Destroyed => SaysDestroyed(history[i])
       case Absent(begun, seen, _) =>
         SaysAbsent(history[i]) && history[i].begun == begun && DatedAt(history, i, seen)
  }

  /** Every observation rests on an answer, in order; no positive or acknowledged answer is left out, and
      no absence that was dated at once. */
  ghost predicate Faithful(history: seq<Answer>, r: Reading) {
    |r.at| == |r.events|
    && (forall k: nat :: k < |r.events| ==> RestsOn(history, r.events[k], r.at[k]))
    && (forall j: nat, k: nat :: j < k < |r.at| ==> r.at[j] < r.at[k])
    && (forall i: nat :: i < |history| && (SaysPresent(history[i]) || SaysDestroyed(history[i])) ==> i in r.at)
    && (forall i: nat, j: nat ::
          i < j < |history| && j == i + 1 && SaysAbsent(history[i]) && history[j].ClockRead? ==> i in r.at)
    && (history != [] && SaysAbsent(history[|history| - 1]) ==> r.pending == Some(|history| - 1))
    && (r.pending.Some? ==>
          r.pending.value < |history| && SaysAbsent(history[r.pending.value])
          && (forall k: nat :: k < |r.at| ==> r.at[k] < r.pending.value)
          && forall k: nat :: r.pending.value < k < |history| ==> !history[k].ClockRead?)
  }

  lemma DatedLater(history: seq<Answer>, a: Answer, i: nat, t: real)
    requires DatedAt(history, i, t)
    ensures DatedAt(history + [a], i, t)
  {
    var m: nat :|
      i < m < |history| && history[m] == ClockRead(t) && forall k: nat :: i < k < m ==> !history[k].ClockRead?;
    assert (history + [a])[m] == ClockRead(t);
    forall k: nat | i < k < m ensures !(history + [a])[k].ClockRead? {
      assert (history + [a])[k] == history[k];
    }
  }

  lemma RestsLater(history: seq<Answer>, a: Answer, e: Event, i: nat)
    requires RestsOn(history, e, i)
    ensures RestsOn(history + [a], e, i)
  {
    hide DatedAt, SaysAbsent, SaysPresent, SaysDestroyed;
    assert (history + [a])[i] == history[i];
    if e.Absent? {
      DatedLater(history, a, i, e.seen);
    }
  }

  /** Adding an observation that rests on an answer later than all before. */
  lemma FaithfulAdds(history: seq<Answer>, a: Answer, r: Reading, e: Event, i: nat, confirming: bool)
    requires Faithful(history, r) && RestsOn(history + [a], e, i)
    requires forall k: nat :: k < |r.at| ==> r.at[k] < i
    requires (SaysPresent(a) || SaysDestroyed(a)) ==> i == |history|
    requires !SaysAbsent(a) && (a.ClockRead? ==> r.pending == Some(i))
    ensures Faithful(history + [a], Reading(r.events + [e], r.at + [i], None, confirming))
  {
    hide RestsOn, SaysPresent, SaysDestroyed, SaysAbsent;
    var all, next := history + [a], Reading(r.events + [e], r.at + [i], None, confirming);
    forall k: nat | k < |next.events| ensures RestsOn(all, next.events[k], next.at[k]) {
      if k < |r.events| {
        RestsLater(history, a, r.events[k], r.at[k]);
      }
    }
    forall k: nat | k < |all| && (SaysPresent(all[k]) || SaysDestroyed(all[k])) ensures k in next.at {
      if k < |history| {
        assert all[k] == history[k];
      } else {
        assert next.at[|r.at|] == i;
      }
    }
    forall k: nat, m: nat | k < m < |all| && m == k + 1 && SaysAbsent(all[k]) && all[m].ClockRead?
      ensures k in next.at
    {
      assert all[k] == history[k];
      if m < |history| {
        assert all[m] == history[m];
      } else {
        assert next.at[|r.at|] == i;
      }
    }
  }

  /** Keeping the observations when the answer is neither positive nor an acknowledgement. */
  lemma FaithfulKeeps(history: seq<Answer>, a: Answer, r: Reading, pending: Option<nat>, confirming: bool)
    requires Faithful(history, r) && !SaysPresent(a) && !SaysDestroyed(a)
    requires (SaysAbsent(a) ==> pending == Some(|history|)) && (a.ClockRead? ==> r.pending.None?)
    requires pending == None || (pending == Some(|history|) && SaysAbsent(a)) || (pending == r.pending && !a.ClockRead?)
    ensures Faithful(history + [a], Reading(r.events, r.at, pending, confirming))
  {
    hide SaysPresent, SaysDestroyed, SaysAbsent;
    var all, next := history + [a], Reading(r.events, r.at, pending, confirming);
    forall k: nat | k < |r.events| ensures RestsOn(all, next.events[k], next.at[k]) && r.at[k] < |history| {
      RestsLater(history, a, r.events[k], r.at[k]);
    }
    forall k: nat | k < |all| && (SaysPresent(all[k]) || SaysDestroyed(all[k])) ensures k in next.at {
      assert k < |history| ==> all[k] == history[k];
    }
    forall k: nat, m: nat | k < m < |all| && m == k + 1 && SaysAbsent(all[k]) && all[m].ClockRead?
      ensures k in next.at
    {
      assert all[k] == history[k];
      assert m < |history| ==> all[m] == history[m];
    }
    if pending.Some? && pending.value < |history| {
      assert all[pending.value] == history[pending.value];
      forall k: nat | pending.value < k < |all| ensures !all[k].ClockRead? {
        assert k < |history| ==> all[k] == history[k];
      }
    }
  }

  lemma InRange(history: seq<Answer>, r: Reading)
    requires Faithful(history, r)
    ensures forall k: nat :: k < |r.at| ==> r.at[k] < |history|
  {
    hide SaysPresent, SaysDestroyed, SaysAbsent, DatedAt;
    forall k: nat | k < |r.at| ensures r.at[k] < |history| {
      assert RestsOn(history, r.events[k], r.at[k]);
    }
  }

  lemma StepIsFaithful(history: seq<Answer>, r: Reading, a: Answer)
    requires Faithful(history, r)
    ensures Faithful(history + [a], Next(r, history, a))
  {
    hide Faithful, DatedAt;
    var n, all := |history|, history + [a];
    assert all[n] == a;
    InRange(history, r);
    if a.Created? {
      CreatedIsFaithful(history, r, a);
    } else if SaysPresent(a) {
      FaithfulAdds(history, a, r, Located, n, r.confirming);
    } else if SaysDestroyed(a) {
      FaithfulAdds(history, a, r, Destroyed, n, r.confirming);
    } else if a.ClockRead? && r.pending.Some? {
      DatesPending(history, r, a);
    } else if a.ClockRead? {
      FaithfulKeeps(history, a, r, None, r.confirming);
    } else if SaysAbsent(a) {
      FaithfulKeeps(history, a, r, Some(n), r.confirming);
    } else if a.Called? {
      FaithfulKeeps(history, a, r, None, false);
    } else {
      FaithfulKeeps(history, a, r, None, r.confirming);
    }
  }

  lemma CreatedIsFaithful(history: seq<Answer>, r: Reading, a: Answer)
    requires Faithful(history, r) && a.Created?
    ensures Faithful(history + [a], r.(events := r.events + [CreateIssued], at := r.at + [|history|], pending := None))
  {
    hide Faithful, DatedAt;
    assert (history + [a])[|history|] == a;
    InRange(history, r);
    FaithfulAdds(history, a, r, CreateIssued, |history|, r.confirming);
  }

  lemma DatesPending(history: seq<Answer>, r: Reading, a: Answer)
    requires Faithful(history, r) && a.ClockRead? && r.pending.Some?
    ensures r.pending.value < |history| && SaysAbsent(history[r.pending.value])
    ensures Faithful(history + [a], Next(r, history, a))
  {
    var all, p := history + [a], r.pending.value;
    forall k: nat | p < k < |history| ensures !all[k].ClockRead? {
      assert all[k] == history[k];
    }
    assert all[|history|] == a && all[p] == history[p];
    assert DatedAt(all, p, a.reading);
    FaithfulAdds(history, a, r, Absent(history[p].begun, a.reading, r.confirming), p, true);
  }

  /** What is read from a history is true of it. */
  lemma {:induction false} ReadIsFaithful(history: seq<Answer>)
    ensures Faithful(history, Read(history))
  {
    hide Faithful, Next;
    if history == [] {
      NothingRead();
    } else {
      var n := |history| - 1;
      ReadIsFaithful(history[..n]);
      StepIsFaithful(history[..n], Read(history[..n]), history[n]);
      assert history == history[..n] + [history[n]];
    }
  }

  lemma NothingRead()
    ensures Faithful([], Read([]))
  {
  }

  // ----- proof of absence, in the CLI's own answers

  /** The CLI acknowledged a destroy, or it said twice that the name is absent, the second answer read at
      least `horizon` after the first; and it has not shown the name since. */
  ghost predicate GoneForReal(history: seq<Answer>, horizon: real) {
    (exists i: nat :: i < |history| && SaysDestroyed(history[i]) && NotShownSince(history, i))
    || exists i: nat, j: nat, t: real, u: real :: AbsentTwice(history, horizon, i, j, t, u)
  }

  ghost predicate NotShownSince(history: seq<Answer>, i: nat) {
    forall k: nat :: i < k < |history| ==> !SaysPresent(history[k])
  }

  ghost predicate AbsentTwice(history: seq<Answer>, horizon: real, i: nat, j: nat, t: real, u: real) {
    i < j < |history| && SaysAbsent(history[i]) && SaysAbsent(history[j])
    && DatedAt(history, i, t) && DatedAt(history, j, u) && u - t >= horizon && NotShownSince(history, i)
  }

  lemma NotShown(history: seq<Answer>, r: Reading, i: nat)
    requires Faithful(history, r) && i < |r.events| && NoLookupBetween(r.events, i, |r.events|)
    ensures NotShownSince(history, r.at[i])
  {
    hide DatedAt;
    forall m: nat | i < m < |r.at| ensures r.at[m] < |history| && !SaysPresent(history[r.at[m]]) {
      assert RestsOn(history, r.events[m], r.at[m]);
    }
    forall m: nat | m <= i ensures r.at[m] <= r.at[i] {
    }
    forall k: nat | r.at[i] < k < |history| ensures !SaysPresent(history[k]) {
      assert forall m: nat :: m < |r.at| && r.at[m] == k ==> i < m;
    }
  }

  /** A conclusive history of observations is a real proof of absence. */
  lemma ConclusiveIsReal(history: seq<Answer>, horizon: real)
    requires Conclusive(Read(history).events, horizon)
    ensures GoneForReal(history, horizon)
  {
    hide Read, Conclusive, FirstMissing, DatedAt;
    var r := Read(history);
    var log, n := r.events, |r.events| - 1;
    ReadIsFaithful(history);
    ConclusiveIsNotEmpty(log, horizon);
    ConclusiveMeansGone(log, horizon);
    assert RestsOn(history, log[n], r.at[n]);
    if log[n] == Destroyed {
      NotShown(history, r, n);
    } else {
      var i: nat :| i < n && log[i].Absent? && log[n].seen - log[i].seen >= horizon && NoLookupBetween(log, i, n);
      assert RestsOn(history, log[i], r.at[i]) && r.at[i] < r.at[n];
      NotShown(history, r, i);
      assert AbsentTwice(history, horizon, r.at[i], r.at[n], log[i].seen, log[n].seen);
    }
  }

  lemma ConclusiveIsNotEmpty(log: seq<Event>, horizon: real)
    requires Conclusive(log, horizon)
    ensures log != []
  {
  }
}
