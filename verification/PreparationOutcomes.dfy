/** Why a caller of the shared preparation is told what it is told: every outcome has its cause in the
    readings, timers, signals and settlements of the run. */
module PreparationOutcomes {
  import opened Wrappers
  import opened Preparation

  // ----- runs with their events

  ghost predicate RunBy(lockOf: LockOf, trace: seq<State>, events: seq<Event>) {
    |trace| == |events| + 1 && trace[0] == INIT
    && forall i: nat :: i < |events| ==> StepBy(lockOf, trace[i], events[i], trace[i + 1])
  }

  ghost predicate StepBy(lockOf: LockOf, s: State, e: Event, s': State) {
    Enabled(s, e) && s' == Apply(lockOf, s, e)
  }

  /** The runs are the same, with or without their events. */
  lemma {:induction false} RunHasEvents(lockOf: LockOf, trace: seq<State>) returns (events: seq<Event>)
    requires Run(lockOf, trace)
    ensures RunBy(lockOf, trace, events)
  {
    hide Apply, Enabled;
    if |trace| == 1 {
      events := [];
    } else {
      var n := |trace| - 1;
      assert Steps(lockOf, trace[n - 1], trace[n - 1 + 1]);
      RunPrefix(lockOf, trace, n);
      var before := RunHasEvents(lockOf, trace[..n]);
      var e :| Enabled(trace[n - 1], e) && trace[n] == Apply(lockOf, trace[n - 1], e);
      events := before + [e];
      forall i: nat | i < |events| ensures StepBy(lockOf, trace[i], events[i], trace[i + 1]) {
        if i < n - 1 {
          assert StepBy(lockOf, trace[..n][i], before[i], trace[..n][i + 1]);
        }
      }
    }
  }

  lemma RunPrefix(lockOf: LockOf, trace: seq<State>, n: nat)
    requires Run(lockOf, trace) && 0 < n <= |trace|
    ensures Run(lockOf, trace[..n])
  {
    hide Steps;
    forall i | 0 <= i < n - 1 ensures Steps(lockOf, trace[..n][i], trace[..n][i + 1]) {
      assert Steps(lockOf, trace[i], trace[i + 1]);
    }
  }

  lemma RunByIsRun(lockOf: LockOf, trace: seq<State>, events: seq<Event>)
    requires RunBy(lockOf, trace, events)
    ensures Run(lockOf, trace)
  {
    hide Apply, Enabled;
    forall i | 0 <= i < |trace| - 1 ensures Steps(lockOf, trace[i], trace[i + 1]) {
      assert StepBy(lockOf, trace[i], events[i], trace[i + 1]);
    }
  }

  // ----- causes

  /** What the caller read of its clock and signal at this event, if it read them. */
  function ReadingOf(e: Event, c: CallerId): Option<Reading> {
    match e
    case Call(caller, _, now) => if caller == c then Some(now) else None
    case Resume(caller, now) => if caller == c then Some(now) else None
    case Leave(caller, now) => if caller == c then Some(now) else None
    case _ => None
  }

  /** Its deadline had passed when it looked, or its timer fired. */
  predicate SaysTimedOut(e: Event, c: CallerId) {
    (ReadingOf(e, c).Some? && ReadingOf(e, c).value.expired) || e == GiveUp(c, TimedOut) || e == Race(c, TimedOut)
  }

  /** Its signal was aborted when it looked, or the abort reached it while it waited. */
  predicate SaysCancelled(e: Event, c: CallerId) {
    (ReadingOf(e, c).Some? && ReadingOf(e, c).value.aborted) || e == GiveUp(c, Cancelled) || e == Race(c, Cancelled)
  }

  /** It was live when it looked at a prepared context, or its race was won. */
  predicate SaysFulfilled(s: State, e: Event, c: CallerId) {
    (ReadingOf(e, c).Some? && !e.Leave? && ReadingOf(e, c).value == Reading(false, false)
     && ((e.Call? && PrepareOf(s, e.context) == Prepared)
         || (e.Resume? && c in s.callers && PrepareOf(s, s.callers[c].context) == Prepared)))
    || (e == Race(c, Fulfilled) && OwnTaskIs(s, c, Settled(true)))
  }

  predicate OwnTaskIs(s: State, c: CallerId, phase: Phase) {
    c in s.callers && s.callers[c].place.Waiting? && s.callers[c].place.task < |s.tasks|
    && s.tasks[s.callers[c].place.task].phase == phase
  }

  /** Event `e` in state `s` gives caller `c` the outcome. */
  predicate Causes(s: State, e: Event, c: CallerId, outcome: Outcome) {
    match outcome
    case TimedOut => SaysTimedOut(e, c)
    case Cancelled => SaysCancelled(e, c)
    case Failed => e == Race(c, Failed) && OwnTaskIs(s, c, Settled(false))
    case Fulfilled => SaysFulfilled(s, e, c)
  }

  /** The caller knows its outcome. */
  predicate Has(s: State, c: CallerId, outcome: Outcome) {
    c in s.callers
    && match s.callers[c].place
       case Raced(_, o) => o == outcome
       case Draining(_, o) => o == outcome
       case Returned(o) => o == outcome
       case _ => false
  }

  lemma StepCauses(lockOf: LockOf, s: State, e: Event, c: CallerId, outcome: Outcome)
    requires Enabled(s, e) && Has(Apply(lockOf, s, e), c, outcome)
    ensures Has(s, c, outcome) || Causes(s, e, c, outcome)
  {
    match e {
      case Call(caller, x, now) => EnterCauses(lockOf, s, e, caller, x, now, c, outcome);
      case Resume(caller, now) => EnterCauses(lockOf, s, e, caller, s.callers[caller].context, now, c, outcome);
      case _ =>
    }
  }

  lemma EnterCauses(
    lockOf: LockOf, s: State, e: Event, caller: CallerId, x: ContextId, now: Reading, c: CallerId, outcome: Outcome)
    requires PrepareOf(s, x).InFlight? ==> PrepareOf(s, x).task < |s.tasks|
    requires e == Call(caller, x, now)
          || (e == Resume(caller, now) && caller in s.callers && s.callers[caller].context == x)
    requires Has(Enter(lockOf, s, caller, x, now), c, outcome)
    ensures Has(s, c, outcome) || Causes(s, e, c, outcome)
  {
  }

  ghost predicate CausedBefore(trace: seq<State>, events: seq<Event>, i: nat, c: CallerId, outcome: Outcome)
    requires i < |trace| == |events| + 1
  {
    exists k: nat :: k < i && Causes(trace[k], events[k], c, outcome)
  }

  /** Over every run: nobody is told it timed out unless its deadline passed, cancelled unless its signal
      was aborted, failed unless its own preparation settled with a failure, or fulfilled unless its
      context was prepared or its own preparation succeeded. */
  lemma {:induction false} OutcomesHaveCauses(
    lockOf: LockOf, trace: seq<State>, events: seq<Event>, i: nat, c: CallerId, outcome: Outcome)
    requires RunBy(lockOf, trace, events) && i < |trace| && Has(trace[i], c, outcome)
    ensures CausedBefore(trace, events, i, c, outcome)
  {
    hide Apply, Enabled, Causes, Has;
    if i == 0 {
      NobodyYet(c, outcome);
    } else {
      var k: nat := i - 1;
      assert StepBy(lockOf, trace[k], events[k], trace[k + 1]);
      StepCauses(lockOf, trace[k], events[k], c, outcome);
      if Has(trace[k], c, outcome) {
        OutcomesHaveCauses(lockOf, trace, events, k, c, outcome);
      }
    }
  }

  lemma NobodyYet(c: CallerId, outcome: Outcome)
    ensures !Has(INIT, c, outcome)
  {
  }

  // ----- what a live caller is told

  /** A call on a prepared context: fulfilled unless its own signal or deadline says otherwise, the signal
      first. */
  lemma PreparedCallAnswers(lockOf: LockOf, s: State, c: CallerId, x: ContextId, now: Reading)
    requires PrepareOf(s, x) == Prepared
    ensures var place := Enter(lockOf, s, c, x, now).callers[c].place;
            place.Returned?
            && (place.outcome == Fulfilled <==> !now.aborted && !now.expired)
            && (place.outcome == Cancelled <==> now.aborted)
            && (place.outcome == TimedOut <==> now.expired && !now.aborted)
  {
  }

  /** A call on an unprepared context is turned away exactly when its deadline has passed; otherwise it owns
      a preparation, or waits for a cancelled one to drain. */
  lemma UnpreparedCallAnswers(lockOf: LockOf, s: State, c: CallerId, x: ContextId, now: Reading)
    requires PrepareOf(s, x) != Prepared
    requires PrepareOf(s, x).InFlight? ==> PrepareOf(s, x).task < |s.tasks|
    ensures var s' := Enter(lockOf, s, c, x, now);
            var place := s'.callers[c].place;
            if now.expired then place == Returned(TimedOut) && s'.tasks == s.tasks
            else if PrepareOf(s, x).InFlight? && s.tasks[PrepareOf(s, x).task].aborted then
              place == Retiring(PrepareOf(s, x).task) && s'.tasks == s.tasks
            else place.Waiting? && PrepareOf(s', x) == InFlight(place.task) && place.task < |s'.tasks|
                 && c in s'.tasks[place.task].waiters && !s'.tasks[place.task].aborted
                 && (PrepareOf(s, x).InFlight? <==> |s'.tasks| == |s.tasks|)
  {
  }

  /** A won race stands unless the caller finds its own signal aborted or its deadline passed. */
  lemma WonRaceAnswers(lockOf: LockOf, s: State, c: CallerId, now: Reading)
    requires Inv(lockOf, s) && Enabled(s, Leave(c, now)) && s.callers[c].place.outcome == Fulfilled
    ensures LeaveTask(s, c, now).callers[c].place
            == Returned(if now.aborted then Cancelled else if now.expired then TimedOut else Fulfilled)
  {
    hide Ownership, OnePerContext, Successors, Chained, HasSuccess;
    ToldHasSuccess(s, c);
    assert PrepareOf(s, s.callers[c].context) == Prepared;
  }

  /** A lost race keeps its reason, through the drain if it was the last owner. */
  lemma LostRaceAnswers(s: State, c: CallerId, now: Reading)
    requires Enabled(s, Leave(c, now)) && s.callers[c].place.outcome != Fulfilled
    ensures var place := LeaveTask(s, c, now).callers[c].place;
            (place.Returned? || place.Draining?) && place.outcome == s.callers[c].place.outcome
  {
  }

  /** A cancelled preparation that is still queued never runs: it settles with a failure. */
  lemma CancelledNeverRuns(lockOf: LockOf, s: State, e: Event, t: TaskId)
    requires Enabled(s, e) && t < |s.tasks| && s.tasks[t].phase == Queued
    ensures t < |Apply(lockOf, s, e).tasks|
    ensures Apply(lockOf, s, e).tasks[t].phase == Running ==> e == Begin(t) && !s.tasks[t].aborted
    ensures e == Begin(t) ==>
              Apply(lockOf, s, e).tasks[t].phase == if s.tasks[t].aborted then Settled(false) else Running
  {
  }
}
