/** Failed-create reconciliation of the CLI driver: who owns an allocation whose create failed, and when
    its absence may be believed. The environment (runner outcomes, clock, signals) is arbitrary, and it
    alone writes the history of what it answered. */
module FailedCreate {
  import opened Reals
  import opened Wrappers
  import opened Observations

  // ----- the environment

  class World {
    var clock: real
    ghost var history: seq<Answer>

    constructor ()
      ensures history == []
    {
      clock, history := 0.0, [];
    }

    /** What the history amounts to. */
    ghost function View(): Reading
      reads this
    {
      Read(history)
    }

    ghost function Log(): seq<Event>
      reads this
    {
      View().events
    }

    /** `performance.now()`: any reading, never before the last one. */
    method Now() returns (t: real)
      modifies this
      ensures t == clock >= old(clock) && history == old(history) + [ClockRead(t)]
      ensures View() == Next(old(View()), old(history), ClockRead(t))
    {
      hide Read, Next;
      t := Pass();
      ReadNext(history, ClockRead(t));
      history := history + [ClockRead(t)];
    }

    /** Time passes. */
    method Pass() returns (t: real)
      modifies this`clock
      ensures t == clock >= old(clock)
    {
      var step: real := *;
      clock := if step > 0.0 then clock + step else clock;
      t := clock;
    }

    /** A timer: it may be cut short by an abort, but never fires early. */
    method Delay(ms: real) returns (elapsed: bool)
      requires ms >= 0.0
      modifies this`clock
      ensures clock >= old(clock) && (elapsed ==> clock >= old(clock) + ms)
    {
      elapsed := *;
      clock := if elapsed then clock + ms else clock;
      var _ := Pass();
    }

    method RunDestroy() returns (reply: DestroyReply, ghost begun: real)
      modifies this
      ensures old(clock) == begun <= clock && history == old(history) + [DestroyRan(begun, reply)]
      ensures View() == Next(old(View()), old(history), DestroyRan(begun, reply))
    {
      hide Read, Next;
      begun, reply := clock, *;
      var _ := Pass();
      ReadNext(history, DestroyRan(begun, reply));
      history := history + [DestroyRan(begun, reply)];
    }

    method RunList() returns (reply: ListReply, ghost begun: real)
      modifies this
      ensures old(clock) == begun <= clock && history == old(history) + [ListRan(begun, reply)]
      ensures View() == Next(old(View()), old(history), ListRan(begun, reply))
    {
      hide Read, Next;
      begun, reply := clock, *;
      var _ := Pass();
      ReadNext(history, ListRan(begun, reply));
      history := history + [ListRan(begun, reply)];
    }

    /** The create command and the readiness polling. */
    method RunCreate() returns (reply: CreateReply)
      modifies this
      ensures clock >= old(clock) && history == old(history) + [Created(reply)]
      ensures View() == Next(old(View()), old(history), Created(reply))
    {
      hide Read, Next;
      reply := *;
      var _ := Pass();
      ReadNext(history, Created(reply));
      history := history + [Created(reply)];
    }

    /** Somebody asks for a cleanup. */
    method Call()
      modifies this`history
      ensures history == old(history) + [Called]
      ensures View() == Next(old(View()), old(history), Called)
    {
      hide Read, Next;
      ReadNext(history, Called);
      history := history + [Called];
    }

    method Signal() returns (aborted: bool)
    {
      aborted := *;
    }
  }

  datatype CleanupKind = ByCommand | ByLookup

  /** The create failure being reported; `marked` says a retry has been granted. */
  datatype Primary = Primary(createFailed: bool, hasExitCode: bool, diagnosed: bool, marked: bool)

  datatype Observation = Gone | Missing | Errored

  datatype CleanupError = Interrupted | BudgetExhausted | Unconfirmed | ObservationFailed | HandedOver | Deferred

  /** The events one observation may add before its answer is classified. */
  ghost predicate Looked(before: seq<Event>, after: seq<Event>) {
    after == before || after == before + [Located]
  }

  /** An absence read before the horizon's own re-observation is always preceded by a full wait. */
  ghost predicate ConfirmedLate(log: seq<Event>, horizon: real, from: nat) {
    forall j :: from <= j < |log| && log[j].Absent? && log[j].confirming && FirstMissing(log[..j]).Some?
      ==> log[j].begun - FirstMissing(log[..j]).value >= horizon
  }

  datatype Judgement = Proved | Inconclusive | Unknown

  /** Reconciliation only observes: it extends the log and issues no create. */
  ghost predicate Observed(before: seq<Event>, after: seq<Event>) {
    before <= after && forall j :: |before| <= j < |after| ==> after[j] != CreateIssued
  }

  /** What one judged observation adds, and what the judgement says about it. */
  ghost predicate Judged(before: seq<Event>, after: seq<Event>, horizon: real, v: Judgement) {
    Observed(before, after)
    && (v == Proved <==> |after| > |before| && Conclusive(after, horizon))
    && (v == Inconclusive ==> |after| > |before|)
  }

  lemma JudgeAbsence(
    before: seq<Event>, looked: seq<Event>, horizon: real, begun: real, seen: real, confirming: bool, v: Judgement)
    requires Looked(before, looked)
    requires v == if FirstMissing(looked).Some? && seen - FirstMissing(looked).value >= horizon
                  then Proved else Inconclusive
    requires confirming ==> LateEnough(before, horizon, begun)
    ensures var after := looked + [Absent(begun, seen, confirming)];
            Judged(before, after, horizon, v) && ConfirmedLate(after, horizon, |before|)
            && (LateEnough(before, horizon, begun) ==> AskedLate(after, horizon))
  {
    var after := looked + [Absent(begun, seen, confirming)];
    Extend(looked, Absent(begun, seen, confirming));
    Extend(before, Located);
    forall j | |before| <= j < |after| && after[j].Absent? ensures after[..j] == looked {
    }
  }

  lemma JudgeOther(before: seq<Event>, after: seq<Event>, horizon: real, v: Judgement)
    requires v != Inconclusive
    requires v == Proved ==> after != [] && after[|after| - 1] == Destroyed && Looked(before, after[..|after| - 1])
    requires v == Unknown ==> Looked(before, after)
    ensures Judged(before, after, horizon, v) && ConfirmedLate(after, horizon, |before|)
    ensures v == Proved ==> AskedLate(after, horizon)
  {
    if v == Proved {
      assert after == after[..|after| - 1] + [Destroyed];
    }
  }

  lemma ConfirmedLateJoins(first: seq<Event>, all: seq<Event>, horizon: real, from: nat)
    requires first <= all && ConfirmedLate(first, horizon, from) && ConfirmedLate(all, horizon, |first|)
    ensures ConfirmedLate(all, horizon, from)
  {
    forall j | 0 <= j < |first| ensures all[j] == first[j] && all[..j] == first[..j] {
    }
  }

  /** What the last answer says about the name. */
  ghost predicate Tells(history: seq<Answer>, o: Observation) {
    history != []
    && var last := history[|history| - 1];
       match o
       case Gone => last.DestroyRan? && last.destroy == Acknowledged
       case Missing => (last.DestroyRan? && last.destroy == NotFound) || (last.ListRan? && last.list == NoRow)
       case Errored => !(last.DestroyRan? && (last.destroy == Acknowledged || last.destroy == NotFound))
                       && !(last.ListRan? && last.list == NoRow)
  }

  /** The history goes on, and no create is issued. */
  ghost predicate OnlyAsks(before: seq<Answer>, after: seq<Answer>) {
    before <= after && forall j: nat :: |before| <= j < |after| ==> !after[j].Created?
  }

  /** Nothing is left to be dated. */
  ghost predicate Settled(r: Reading) {
    r.pending.None?
  }

  /** The closure a failed create leaves behind: it owns the generated name until absence is proved. */
  class Reconciliation {
    const world: World
    const kind: CleanupKind
    const horizon: real
    var firstMissingAt: Option<real>
    var primary: Primary

    ghost predicate Valid()
      reads this, world
    {
      horizon >= 0.0 && firstMissingAt == FirstMissing(world.Log())
    }

    constructor (world: World, kind: CleanupKind, horizon: real, primary: Primary)
      requires horizon >= 0.0 && FirstMissing(world.Log()) == None
      ensures Valid() && this.world == world && this.kind == kind && this.horizon == horizon
      ensures this.primary == primary
    {
      this.world, this.kind, this.horizon, this.primary := world, kind, horizon, primary;
      firstMissingAt := None;
    }

    /** One observation: destroy by name, or look the name up and destroy by id. Its outcome is what the
        last answer says. */
    method Observe(timeoutMs: real) returns (o: Observation)
      requires Valid() && Settled(world.View())
      modifies this, world
      ensures Valid() && old(world.clock) <= world.clock && Tells(world.history, o)
      ensures o == Gone ==> Settled(world.View()) && world.Log() != [] && world.Log()[|world.Log()| - 1] == Destroyed
                            && Looked(old(world.Log()), world.Log()[..|world.Log()| - 1])
      ensures o != Gone ==> Looked(old(world.Log()), world.Log()) && (o == Missing <==> !Settled(world.View()))
      ensures o == Missing ==> world.history[world.View().pending.value].begun >= old(world.clock)
      ensures world.View().confirming == old(world.View().confirming)
      ensures kind == ByCommand && o != Gone ==> world.Log() == old(world.Log())
      ensures primary.createFailed == old(primary.createFailed) && primary.marked == old(primary.marked)
      ensures OnlyAsks(old(world.history), world.history)
    {
      hide FirstMissing, Read;
      var start := world.Now();
      var observationDeadline := start + timeoutMs;
      if kind == ByCommand {
        o := DestroyOnce();
        return;
      }
      ghost var before := world.Log();
      var listed, begun := world.RunList();
      match listed {
        case ListThrew | ListFailed => o := Errored;
        case NoRow => o := Missing;
        case Row(idValid, terminal) =>
          if !primary.diagnosed && primary.createFailed && primary.hasExitCode && terminal {
            primary := primary.(diagnosed := true);
          }
          Extend(before, Located);
          firstMissingAt := None;
          o := DestroyRow(idValid, observationDeadline);
      }
    }

    /** Destroy the row that was found, if its id parses and the attempt can still afford it. */
    method DestroyRow(idValid: bool, observationDeadline: real) returns (o: Observation)
      requires Valid() && Settled(world.View())
      requires world.history != [] && SaysPresent(world.history[|world.history| - 1])
      modifies this, world
      ensures Valid() && world.clock >= old(world.clock) && primary == old(primary) && Tells(world.history, o)
      ensures OnlyAsks(old(world.history), world.history)
      ensures world.Log() == if o == Gone then old(world.Log()) + [Destroyed] else old(world.Log())
      ensures o == Missing <==> !Settled(world.View())
      ensures o == Missing ==> world.history[world.View().pending.value].begun >= old(world.clock)
      ensures world.View().confirming == old(world.View().confirming)
    {
      hide FirstMissing, Read;
      if !idValid {
        o := Errored;
        return;
      }
      var now := world.Now();
      if Max(0.0, observationDeadline - now) < 1.0 {
        o := Errored;
        return;
      }
      o := DestroyOnce();
    }

    /** `destroyByArgs`: not-found wins over the exit code. */
    method DestroyOnce() returns (o: Observation)
      requires Valid() && Settled(world.View())
      modifies this, world
      ensures Valid() && world.clock >= old(world.clock) && primary == old(primary) && Tells(world.history, o)
      ensures OnlyAsks(old(world.history), world.history)
      ensures world.Log() == if o == Gone then old(world.Log()) + [Destroyed] else old(world.Log())
      ensures o == Missing <==> !Settled(world.View())
      ensures o == Missing ==> world.history[world.View().pending.value].begun >= old(world.clock)
      ensures world.View().confirming == old(world.View().confirming)
    {
      hide FirstMissing, Read;
      ghost var before := world.Log();
      var reply, begun := world.RunDestroy();
      match reply {
        case DestroyThrew => o := Errored;
        case NotFound => o := Missing;
        case NonzeroExit => o := Errored;
        case Acknowledged =>
          Extend(before, Destroyed);
          o := Gone;
      }
    }

    /** Observe, read the clock, and judge the answer. Only a first observation starts a horizon: an
        absence that follows a positive lookup inside the re-observation has none to be measured from. */
    method ObserveAndJudge(timeoutMs: real, confirming: bool) returns (v: Judgement)
      requires Valid() && Settled(world.View()) && world.View().confirming == confirming
      requires confirming ==> LateEnough(world.Log(), horizon, world.clock)
      modifies this, world
      ensures Valid() && Judged(old(world.Log()), world.Log(), horizon, v)
      ensures v == Inconclusive ==> Settled(world.View()) && world.View().confirming
      ensures !confirming && v == Inconclusive ==> firstMissingAt.Some?
      ensures ConfirmedLate(world.Log(), horizon, |old(world.Log())|)
      ensures v == Proved && LateEnough(old(world.Log()), horizon, old(world.clock)) ==> AskedLate(world.Log(), horizon)
      ensures primary.createFailed == old(primary.createFailed) && primary.marked == old(primary.marked)
      ensures OnlyAsks(old(world.history), world.history)
    {
      hide FirstMissing, Conclusive, ConfirmedLate, Judged, AskedLate, Read, Tells, Looked;
      ghost var before, start := world.Log(), world.clock;
      var outcome := Observe(timeoutMs);
      if outcome == Missing {
        v := JudgeMissing(before, start, confirming);
      } else {
        v := if outcome == Gone then Proved else Unknown;
        JudgeOther(before, world.Log(), horizon, v);
      }
    }

    /** Date an absence and weigh it. */
    method JudgeMissing(ghost before: seq<Event>, ghost start: real, confirming: bool) returns (v: Judgement)
      requires Valid() && !Settled(world.View()) && world.View().confirming == confirming
      requires Looked(before, world.Log()) && (confirming ==> LateEnough(before, horizon, start))
      requires world.history[world.View().pending.value].begun >= start
      modifies this, world
      ensures Valid() && Judged(before, world.Log(), horizon, v) && v != Unknown
      ensures Settled(world.View()) && world.View().confirming
      ensures !confirming && v == Inconclusive ==> firstMissingAt.Some?
      ensures ConfirmedLate(world.Log(), horizon, |before|)
      ensures LateEnough(before, horizon, start) ==> AskedLate(world.Log(), horizon)
      ensures primary == old(primary) && OnlyAsks(old(world.history), world.history)
    {
      hide FirstMissing, Conclusive, ConfirmedLate, Judged, AskedLate, Read, Looked;
      ghost var looked, begun := world.Log(), world.history[world.View().pending.value].begun;
      var seen := world.Now();
      var proved := firstMissingAt.Some? && seen - firstMissingAt.value >= horizon;
      Extend(looked, Absent(begun, seen, confirming));
      if !confirming && firstMissingAt.None? {
        firstMissingAt := Some(seen);
      }
      v := if proved then Proved else Inconclusive;
      LateStaysLate(before, horizon, start, begun);
      JudgeAbsence(before, looked, horizon, begun, seen, confirming, v);
    }

    /** `retryCleanup`: it returns normally exactly when the observations have become conclusive, and then
        the CLI's own answers prove the name gone; otherwise it stays the owner. Called once the horizon
        has passed, it accepts no absence asked for early. */
    method RetryCleanup(timeoutMs: real) returns (r: Result<(), CleanupError>)
      requires Valid()
      modifies this, world
      ensures Valid() && Observed(old(world.Log()), world.Log())
      ensures r.Ok? <==> |world.Log()| > |old(world.Log())| && Conclusive(world.Log(), horizon)
      ensures r.Ok? ==> GoneForReal(world.history, horizon)
      ensures ConfirmedLate(world.Log(), horizon, |old(world.Log())|)
      ensures r.Ok? && LateEnough(old(world.Log()), horizon, old(world.clock)) ==> AskedLate(world.Log(), horizon)
      ensures primary.createFailed == old(primary.createFailed) && primary.marked == old(primary.marked)
      ensures OnlyAsks(old(world.history), world.history)
    {
      hide FirstMissing, Conclusive, AskedLate, Read, Judged, LateEnough, ConfirmedLate, GoneForReal, Observed;
      world.Call();
      ghost var before, began := world.Log(), world.clock;
      NothingAdded(before, horizon);
      var aborted := world.Signal();
      if aborted {
        return Err(Interrupted);
      }
      var start := world.Now();
      var attemptDeadline := start + timeoutMs;
      var now := world.Now();
      var initialBudget := Max(0.0, attemptDeadline - now);
      if initialBudget < 1.0 {
        return Err(BudgetExhausted);
      }
      LateStaysLate(before, horizon, began, world.clock);
      var judgement := ObserveAndJudge(initialBudget, false);
      JudgedMeans(before, world.Log(), horizon, judgement);
      if judgement == Proved {
        ConclusiveIsReal(world.history, horizon);
        return Ok(());
      }
      if judgement == Unknown {
        return Err(ObservationFailed);
      }
      ghost var first := world.Log();
      r := Confirm(attemptDeadline);
      ObservedJoins(before, first, world.Log());
      ConfirmedLateJoins(first, world.Log(), horizon, |before|);
      if r.Ok? {
        ConclusiveIsReal(world.history, horizon);
      }
    }

    /** Wait out the horizon if the attempt can afford it, and look again. */
    method Confirm(attemptDeadline: real) returns (r: Result<(), CleanupError>)
      requires Valid() && firstMissingAt.Some? && !Conclusive(world.Log(), horizon)
      requires Settled(world.View()) && world.View().confirming
      modifies this, world
      ensures Valid() && Observed(old(world.Log()), world.Log())
      ensures r.Ok? <==> Conclusive(world.Log(), horizon)
      ensures ConfirmedLate(world.Log(), horizon, |old(world.Log())|)
      ensures r.Ok? ==> AskedLate(world.Log(), horizon)
      ensures primary.createFailed == old(primary.createFailed) && primary.marked == old(primary.marked)
      ensures OnlyAsks(old(world.history), world.history)
    {
      hide FirstMissing, Conclusive, AskedLate, Read, Judged, ConfirmedLate, Observed;
      ghost var before := world.Log();
      NothingAdded(before, horizon);
      var confirmationAt := firstMissingAt.value + horizon;
      var now := world.Now();
      var waitDurationMs := Ceiling(Max(0.0, confirmationAt - now)) as real;
      now := world.Now();
      if Max(0.0, attemptDeadline - now) <= waitDurationMs {
        return Err(Unconfirmed);
      }
      if waitDurationMs > 0.0 {
        var elapsed := world.Delay(waitDurationMs);
        if !elapsed {
          return Err(Interrupted);
        }
      }
      now := world.Now();
      var confirmationBudget := Max(0.0, attemptDeadline - now);
      if confirmationBudget < 1.0 {
        return Err(Unconfirmed);
      }
      var judgement := ObserveAndJudge(confirmationBudget, true);
      JudgedMeans(before, world.Log(), horizon, judgement);
      r := if judgement == Proved then Ok(())
           else Err(if judgement == Unknown then ObservationFailed else Unconfirmed);
    }
  }

  lemma NothingNew(log: seq<Event>, horizon: real, after: seq<Event>)
    requires Observed(log, after) && |after| == |log| && !Conclusive(log, horizon)
    ensures !Conclusive(after, horizon)
  {
    assert after == log;
  }

  lemma LateStaysLate(log: seq<Event>, horizon: real, now: real, later: real)
    requires later >= now
    ensures LateEnough(log, horizon, now) ==> LateEnough(log, horizon, later)
  {
  }

  lemma NothingAdded(log: seq<Event>, horizon: real)
    ensures Observed(log, log) && ConfirmedLate(log, horizon, |log|)
  {
  }

  lemma ObservedJoins(a: seq<Event>, b: seq<Event>, c: seq<Event>)
    requires Observed(a, b) && Observed(b, c)
    ensures Observed(a, c) && a <= b <= c
  {
  }

  lemma JudgedMeans(before: seq<Event>, after: seq<Event>, horizon: real, v: Judgement)
    requires Judged(before, after, horizon, v)
    ensures Observed(before, after) && |before| <= |after| && (|after| == |before| ==> after == before)
    ensures v == Proved <==> |after| > |before| && Conclusive(after, horizon)
    ensures v == Inconclusive ==> |after| > |before|
  {
  }
}
