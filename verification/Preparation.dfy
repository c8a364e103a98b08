/** The shared profile preparation of the CLI driver, as atomic steps. Callers of `create` join one
    preparation per driver context; the last owner to leave cancels it and waits for it to drain;
    later callers wait for the drain and then start or join a successor. Preparations that authenticate
    first also queue behind one another per CLI binary. */
module Preparation {
  import opened Wrappers

  type ContextId = nat
  type TaskId = nat
  type CallerId = nat
  type Binary = nat

  /** `context.prepare`: undefined, the preparation in flight, or `true`. */
  datatype Prepare = Unset | InFlight(task: TaskId) | Prepared

  datatype Phase = Queued | Running | Settled(ok: bool)

  /** One preparation: its owners, its cancellation signal, and the lock-chain entry it queues behind. */
  datatype Task = Task(context: ContextId, waiters: set<CallerId>, aborted: bool, prior: Option<TaskId>, phase: Phase)

  datatype Outcome = Fulfilled | Failed | TimedOut | Cancelled

  /** Where a caller of `ensurePreparedOnce` stands. */
  datatype Place =
    | Retiring(task: TaskId)                     // waits for a cancelled preparation to drain
    | Waiting(task: TaskId)                      // races the preparation, its deadline and its signal
    | Raced(task: TaskId, outcome: Outcome)      // the race is over, its `finally` has not run
    | Draining(task: TaskId, outcome: Outcome)   // the last owner, waiting for the runner to be reaped
    | Returned(outcome: Outcome)

  datatype Caller = Caller(context: ContextId, place: Place)

  datatype State = State(
    tasks: seq<Task>, prepare: map<ContextId, Prepare>, locks: map<Binary, TaskId>, callers: map<CallerId, Caller>)

  /** What the clock and the caller's signal say when the code reads them. */
  datatype Reading = Reading(expired: bool, aborted: bool)

  datatype Event =
    | Call(caller: CallerId, context: ContextId, now: Reading)
    | Resume(caller: CallerId, now: Reading)
    | GiveUp(caller: CallerId, why: Outcome)
    | Race(caller: CallerId, outcome: Outcome)
    | Leave(caller: CallerId, now: Reading)
    | Drain(caller: CallerId)
    | Begin(task: TaskId)
    | Settle(task: TaskId, ok: bool)

  /** The lock a context's preparations take: none unless its CLI authenticates first. */
  type LockOf = ContextId -> Option<Binary>

  const INIT := State([], map[], map[], map[])

  function PrepareOf(s: State, context: ContextId): Prepare {
    if context in s.prepare then s.prepare[context] else Unset
  }

  function PriorOf(lockOf: LockOf, s: State, context: ContextId): Option<TaskId> {
    match lockOf(context)
    case None => None
    case Some(binary) => if binary in s.locks then Some(s.locks[binary]) else None
  }

  predicate IsSettled(s: State, t: TaskId) {
    t < |s.tasks| && s.tasks[t].phase.Settled?
  }

  // ----- the steps

  function Place'(s: State, caller: CallerId, context: ContextId, place: Place): State {
    s.(callers := s.callers[caller := Caller(context, place)])
  }

  /** One pass through `ensurePreparedOnce`, up to its first wait. */
  function Enter(lockOf: LockOf, s: State, caller: CallerId, context: ContextId, now: Reading): State
    requires PrepareOf(s, context).InFlight? ==> PrepareOf(s, context).task < |s.tasks|
  {
    match PrepareOf(s, context)
    case Prepared =>
      Place'(s, caller, context,
        Returned(if now.aborted then Cancelled else if now.expired then TimedOut else Fulfilled))
    case Unset =>
      if now.expired then Place'(s, caller, context, Returned(TimedOut))
      else
        var t := |s.tasks|;
        var phase := if lockOf(context).Some? then Queued else Running;
        var task := Task(context, {caller}, false, PriorOf(lockOf, s, context), phase);
        State(s.tasks + [task], s.prepare[context := InFlight(t)],
              match lockOf(context) case None => s.locks case Some(binary) => s.locks[binary := t],
              s.callers[caller := Caller(context, Waiting(t))])
    case InFlight(t) =>
      if now.expired then Place'(s, caller, context, Returned(TimedOut))
      else if s.tasks[t].aborted then Place'(s, caller, context, Retiring(t))
      else
        var task := s.tasks[t];
        Place'(s.(tasks := s.tasks[t := task.(waiters := task.waiters + {caller})]), caller, context, Waiting(t))
  }

  /** A preparation settles: its context and its lock entry are released if they are still its own. */
  function SettleTask(lockOf: LockOf, s: State, t: TaskId, ok: bool): State
    requires t < |s.tasks|
  {
    var task := s.tasks[t];
    var context := task.context;
    State(
      s.tasks[t := task.(phase := Settled(ok))],
      if PrepareOf(s, context) == InFlight(t) then s.prepare[context := if ok then Prepared else Unset] else s.prepare,
      match lockOf(context)
      case None => s.locks
      case Some(binary) => if binary in s.locks && s.locks[binary] == t then s.locks - {binary} else s.locks,
      s.callers)
  }

  /** The `finally` of a race: stop waiting, and cancel the preparation if nobody waits any more. */
  function LeaveTask(s: State, caller: CallerId, now: Reading): State
    requires caller in s.callers && s.callers[caller].place.Raced? && s.callers[caller].place.task < |s.tasks|
  {
    var Caller(context, Raced(t, raced)) := s.callers[caller];
    var outcome := if raced != Fulfilled then raced
                   else if now.aborted then Cancelled else if now.expired then TimedOut else Fulfilled;
    var task := s.tasks[t].(waiters := s.tasks[t].waiters - {caller});
    if task.waiters == {} && PrepareOf(s, context) == InFlight(t) then
      Place'(s.(tasks := s.tasks[t := task.(aborted := true)]), caller, context, Draining(t, outcome))
    else
      Place'(s.(tasks := s.tasks[t := task]), caller, context, Returned(outcome))
  }

  predicate CallerAt(s: State, caller: CallerId) {
    caller in s.callers && (!s.callers[caller].place.Returned? ==> s.callers[caller].place.task < |s.tasks|)
  }

  predicate Enabled(s: State, e: Event) {
    match e
    case Call(caller, context, _) =>
      caller !in s.callers && (PrepareOf(s, context).InFlight? ==> PrepareOf(s, context).task < |s.tasks|)
    case Resume(caller, _) =>
      CallerAt(s, caller)
      && var Caller(context, place) := s.callers[caller];
         place.Retiring? && IsSettled(s, place.task)
         && (PrepareOf(s, context).InFlight? ==> PrepareOf(s, context).task < |s.tasks|)
    case GiveUp(caller, why) =>
      CallerAt(s, caller) && s.callers[caller].place.Retiring? && (why == TimedOut || why == Cancelled)
    case Race(caller, outcome) =>
      CallerAt(s, caller) && s.callers[caller].place.Waiting?
      && (outcome == Fulfilled ==> s.tasks[s.callers[caller].place.task].phase == Settled(true))
      && (outcome == Failed ==> s.tasks[s.callers[caller].place.task].phase == Settled(false))
    case Leave(caller, _) => CallerAt(s, caller) && s.callers[caller].place.Raced?
    case Drain(caller) =>
      CallerAt(s, caller) && s.callers[caller].place.Draining? && IsSettled(s, s.callers[caller].place.task)
    case Begin(t) =>
      t < |s.tasks| && s.tasks[t].phase == Queued
      && (s.tasks[t].prior.Some? ==> IsSettled(s, s.tasks[t].prior.value))
    case Settle(t, _) => t < |s.tasks| && s.tasks[t].phase == Running
  }

  function Apply(lockOf: LockOf, s: State, e: Event): State
    requires Enabled(s, e)
  {
    match e
    case Call(caller, context, now) => Enter(lockOf, s, caller, context, now)
    case Resume(caller, now) => Enter(lockOf, s, caller, s.callers[caller].context, now)
    case GiveUp(caller, why) => Place'(s, caller, s.callers[caller].context, Returned(why))
    case Race(caller, outcome) =>
      Place'(s, caller, s.callers[caller].context, Raced(s.callers[caller].place.task, outcome))
    case Leave(caller, now) => LeaveTask(s, caller, now)
    case Drain(caller) => Place'(s, caller, s.callers[caller].context, Returned(s.callers[caller].place.outcome))
    case Begin(t) =>
      if s.tasks[t].aborted then SettleTask(lockOf, s, t, false)
      else s.(tasks := s.tasks[t := s.tasks[t].(phase := Running)])
    case Settle(t, ok) => SettleTask(lockOf, s, t, ok)
  }

  /** A finite run: any interleaving of callers, timers, signals and runner outcomes. */
  ghost predicate Run(lockOf: LockOf, trace: seq<State>) {
    trace != [] && trace[0] == INIT
    && forall i :: 0 <= i < |trace| - 1 ==> Steps(lockOf, trace[i], trace[i + 1])
  }

  ghost predicate Steps(lockOf: LockOf, s: State, s': State) {
    exists e :: Enabled(s, e) && s' == Apply(lockOf, s, e)
  }

  // ----- the invariant

  /** `c` counts as an owner of `t`: it is waiting for it, or its `finally` has not run yet. */
  predicate Owns(s: State, c: CallerId, t: TaskId) {
    c in s.callers && (s.callers[c].place.Waiting? || s.callers[c].place.Raced?) && s.callers[c].place.task == t
  }

  predicate Drains(s: State, c: CallerId, t: TaskId) {
    c in s.callers && s.callers[c].place.Draining? && s.callers[c].place.task == t
  }

  predicate TaskOf(s: State, t: TaskId, x: ContextId) {
    t < |s.tasks| && s.tasks[t].context == x
  }

  /** A caller's preparation belongs to its context, and is cancelled if the caller drains it. */
  predicate CallerOk(s: State, c: CallerId) {
    c in s.callers && !s.callers[c].place.Returned? ==>
      TaskOf(s, s.callers[c].place.task, s.callers[c].context)
      && (s.callers[c].place.Draining? ==> s.tasks[s.callers[c].place.task].aborted)
  }

  /** Waiters are exactly the owners; a live preparation has one, a cancelled one has none, and is being
      drained by the owner that cancelled it until it settles. */
  ghost predicate OwnedTask(s: State, t: TaskId)
    requires t < |s.tasks|
  {
    (forall c: CallerId :: c in s.tasks[t].waiters <==> Owns(s, c, t))
    && (!s.tasks[t].aborted && !s.tasks[t].phase.Settled? ==> s.tasks[t].waiters != {})
    && (s.tasks[t].aborted ==> s.tasks[t].waiters == {})
    && (s.tasks[t].aborted && !s.tasks[t].phase.Settled? ==> exists c: CallerId :: Drains(s, c, t))
  }

  ghost predicate Ownership(s: State) {
    (forall c: CallerId :: CallerOk(s, c)) && forall t: TaskId :: t < |s.tasks| ==> OwnedTask(s, t)
  }

  /** A preparation is unsettled exactly while its context points at it. */
  ghost predicate OnePerContext(s: State) {
    (forall x: ContextId :: PrepareOf(s, x).InFlight? ==> TaskOf(s, PrepareOf(s, x).task, x))
    && (forall t: TaskId :: t < |s.tasks| ==>
         (IsSettled(s, t) <==> PrepareOf(s, s.tasks[t].context) != InFlight(t)))
  }

  predicate Succeeded(s: State, t: TaskId, x: ContextId) {
    TaskOf(s, t, x) && s.tasks[t].phase == Settled(true)
  }

  ghost predicate HasSuccess(s: State, x: ContextId) {
    exists t: TaskId :: Succeeded(s, t, x)
  }

  predicate Told(place: Place) {
    !place.Retiring? && !place.Waiting? && place.outcome == Fulfilled
  }

  /** `prepare === true` exactly when a preparation of the context succeeded; nobody is told it
      succeeded otherwise. */
  ghost predicate Truthful(s: State) {
    (forall x: ContextId :: PrepareOf(s, x) == Prepared <==> HasSuccess(s, x))
    && (forall c: CallerId :: c in s.callers && Told(s.callers[c].place) ==> HasSuccess(s, s.callers[c].context))
  }

  /** A later preparation of a context exists only if the earlier one settled. */
  ghost predicate Successors(s: State) {
    forall t: TaskId, u: TaskId, x: ContextId :: t < u && TaskOf(s, t, x) && TaskOf(s, u, x) ==> IsSettled(s, t)
  }

  predicate HasLock(lockOf: LockOf, s: State, t: TaskId, binary: Binary) {
    t < |s.tasks| && lockOf(s.tasks[t].context) == Some(binary)
  }

  /** Everything of the binary that came before `u` has settled. */
  ghost predicate Clear(lockOf: LockOf, s: State, u: TaskId, binary: Binary) {
    forall t: TaskId :: t < u && HasLock(lockOf, s, t, binary) ==> IsSettled(s, t)
  }

  /** The lock map holds the latest preparation of a binary while it is unsettled. */
  ghost predicate LockOk(lockOf: LockOf, s: State, b: Binary) {
    if b in s.locks
    then HasLock(lockOf, s, s.locks[b], b) && !IsSettled(s, s.locks[b])
         && forall t: TaskId :: HasLock(lockOf, s, t, b) ==> t <= s.locks[b]
    else Clear(lockOf, s, |s.tasks|, b)
  }

  /** A preparation queues behind the one before it, and one that has begun has none unsettled before it. */
  ghost predicate ChainOk(lockOf: LockOf, s: State, u: TaskId, b: Binary)
    requires u < |s.tasks|
  {
    (s.tasks[u].prior.None? || s.tasks[u].phase != Queued ==> Clear(lockOf, s, u, b))
    && (s.tasks[u].prior.Some? ==>
         s.tasks[u].prior.value < u && HasLock(lockOf, s, s.tasks[u].prior.value, b)
         && forall t: TaskId :: s.tasks[u].prior.value < t < u ==> !HasLock(lockOf, s, t, b))
  }

  ghost predicate Chained(lockOf: LockOf, s: State) {
    (forall b: Binary :: LockOk(lockOf, s, b))
    && (forall u: TaskId, b: Binary :: HasLock(lockOf, s, u, b) ==> ChainOk(lockOf, s, u, b))
    && (forall t: TaskId :: t < |s.tasks| && s.tasks[t].phase == Queued ==> lockOf(s.tasks[t].context).Some?)
  }

  ghost predicate Inv(lockOf: LockOf, s: State) {
    Ownership(s) && OnePerContext(s) && Truthful(s) && Successors(s) && Chained(lockOf, s)
  }

  lemma InitKeeps(lockOf: LockOf)
    ensures Inv(lockOf, INIT)
  {
  }

  // ----- the lock chain

  /** Steps that begin and settle nothing leave the chain as it is. */
  lemma ChainUntouched(lockOf: LockOf, s: State, s': State)
    requires Chained(lockOf, s) && s'.locks == s.locks && |s'.tasks| == |s.tasks|
    requires forall t: TaskId :: t < |s.tasks| ==>
      s'.tasks[t].context == s.tasks[t].context && s'.tasks[t].prior == s.tasks[t].prior
      && s'.tasks[t].phase == s.tasks[t].phase
    ensures Chained(lockOf, s')
  {
    forall t: TaskId, b: Binary
      ensures HasLock(lockOf, s', t, b) == HasLock(lockOf, s, t, b) && IsSettled(s', t) == IsSettled(s, t)
    {
    }
    forall b: Binary ensures LockOk(lockOf, s', b) {
      assert LockOk(lockOf, s, b);
    }
    forall u: TaskId, b: Binary | HasLock(lockOf, s', u, b) ensures ChainOk(lockOf, s', u, b) {
      assert ChainOk(lockOf, s, u, b);
    }
  }

  lemma ChainGrows(lockOf: LockOf, s: State, c: CallerId, x: ContextId, now: Reading)
    requires Chained(lockOf, s) && PrepareOf(s, x).Unset? && !now.expired
    ensures Chained(lockOf, Enter(lockOf, s, c, x, now))
  {
    var s' := Enter(lockOf, s, c, x, now);
    var n := |s.tasks|;
    forall t: TaskId, b: Binary | t < n ensures HasLock(lockOf, s', t, b) == HasLock(lockOf, s, t, b) {
    }
    forall b: Binary ensures LockOk(lockOf, s', b) {
      assert LockOk(lockOf, s, b);
    }
    forall u: TaskId, b: Binary | HasLock(lockOf, s', u, b) ensures ChainOk(lockOf, s', u, b) {
      assert LockOk(lockOf, s, b);
      if u < n {
        assert HasLock(lockOf, s, u, b);
      }
    }
  }

  lemma ChainBegins(lockOf: LockOf, s: State, t: TaskId)
    requires Chained(lockOf, s) && Enabled(s, Begin(t))
    ensures Chained(lockOf, s.(tasks := s.tasks[t := s.tasks[t].(phase := Running)]))
    ensures lockOf(s.tasks[t].context).Some? && Clear(lockOf, s, t, lockOf(s.tasks[t].context).value)
  {
    var s' := s.(tasks := s.tasks[t := s.tasks[t].(phase := Running)]);
    var mine := lockOf(s.tasks[t].context).value;
    assert HasLock(lockOf, s, t, mine);
    PriorClears(lockOf, s, t, mine);
    forall u: TaskId, b: Binary ensures HasLock(lockOf, s', u, b) == HasLock(lockOf, s, u, b) {
    }
    forall b: Binary ensures LockOk(lockOf, s', b) {
      assert LockOk(lockOf, s, b);
    }
    forall u: TaskId, b: Binary | HasLock(lockOf, s', u, b) ensures ChainOk(lockOf, s', u, b) {
      assert ChainOk(lockOf, s, u, b);
    }
  }

  /** What a preparation queues behind had nothing unsettled before it once it settled itself. */
  lemma PriorClears(lockOf: LockOf, s: State, t: TaskId, b: Binary)
    requires Chained(lockOf, s) && HasLock(lockOf, s, t, b)
    requires s.tasks[t].prior.Some? ==> IsSettled(s, s.tasks[t].prior.value)
    ensures Clear(lockOf, s, t, b)
  {
    assert ChainOk(lockOf, s, t, b);
    if s.tasks[t].prior.Some? {
      assert ChainOk(lockOf, s, s.tasks[t].prior.value, b);
    }
  }

  lemma ChainSettles(lockOf: LockOf, s: State, t: TaskId, ok: bool)
    requires Chained(lockOf, s) && t < |s.tasks| && !s.tasks[t].phase.Settled?
    requires lockOf(s.tasks[t].context).Some? ==> Clear(lockOf, s, t, lockOf(s.tasks[t].context).value)
    ensures Chained(lockOf, SettleTask(lockOf, s, t, ok))
  {
    var s' := SettleTask(lockOf, s, t, ok);
    forall u: TaskId, b: Binary ensures HasLock(lockOf, s', u, b) == HasLock(lockOf, s, u, b) {
    }
    forall b: Binary ensures LockOk(lockOf, s', b) {
      assert LockOk(lockOf, s, b);
    }
    forall u: TaskId, b: Binary | HasLock(lockOf, s', u, b) ensures ChainOk(lockOf, s', u, b) {
      assert ChainOk(lockOf, s, u, b);
    }
  }

  // ----- owners

  /** Moving a caller that owns nothing and has nothing unsettled to drain, to a place that owns nothing. */
  lemma OwnersMove(s: State, c: CallerId, x: ContextId, place: Place)
    requires Ownership(s)
    requires c in s.callers ==>
      (s.callers[c].place.Retiring? || (s.callers[c].place.Draining? && IsSettled(s, s.callers[c].place.task)))
    requires place.Returned? || (place.Retiring? && TaskOf(s, place.task, x))
    ensures Ownership(Place'(s, c, x, place))
  {
    var s' := Place'(s, c, x, place);
    forall d: CallerId ensures CallerOk(s', d) {
      assert CallerOk(s, d);
    }
    forall t: TaskId | t < |s.tasks| ensures OwnedTask(s', t) {
      assert OwnedTask(s, t);
      forall d: CallerId ensures Owns(s', d, t) == Owns(s, d, t) {
      }
      if s.tasks[t].aborted && !s.tasks[t].phase.Settled? {
        var d: CallerId :| Drains(s, d, t);
        assert Drains(s', d, t);
      }
    }
  }

  lemma OwnersJoin(s: State, c: CallerId, x: ContextId, t: TaskId)
    requires Ownership(s) && TaskOf(s, t, x) && !s.tasks[t].aborted
    requires c in s.callers ==> s.callers[c].place.Retiring?
    ensures var task := s.tasks[t];
            Ownership(Place'(s.(tasks := s.tasks[t := task.(waiters := task.waiters + {c})]), c, x, Waiting(t)))
  {
    var s' := Place'(s.(tasks := s.tasks[t := s.tasks[t].(waiters := s.tasks[t].waiters + {c})]), c, x, Waiting(t));
    forall d: CallerId ensures CallerOk(s', d) {
      assert CallerOk(s, d);
    }
    forall u: TaskId | u < |s'.tasks| ensures OwnedTask(s', u) {
      assert OwnedTask(s, u);
      forall d: CallerId ensures Owns(s', d, u) == (Owns(s, d, u) || (u == t && d == c)) {
      }
      if s.tasks[u].aborted && !s.tasks[u].phase.Settled? {
        var d: CallerId :| Drains(s, d, u);
        assert Drains(s', d, u);
      }
    }
  }

  lemma OwnersStart(lockOf: LockOf, s: State, c: CallerId, x: ContextId, now: Reading)
    requires Ownership(s) && PrepareOf(s, x).Unset? && !now.expired
    requires c in s.callers ==> s.callers[c].place.Retiring?
    ensures Ownership(Enter(lockOf, s, c, x, now))
  {
    var s' := Enter(lockOf, s, c, x, now);
    var n := |s.tasks|;
    assert s'.callers == s.callers[c := Caller(x, Waiting(n))];
    forall d: CallerId, u: TaskId ensures Owns(s', d, u) == (Owns(s, d, u) || (u == n && d == c)) {
    }
    forall d: CallerId ensures CallerOk(s', d) {
      assert CallerOk(s, d);
    }
    forall u: TaskId | u < |s'.tasks| ensures OwnedTask(s', u) {
      if u < n {
        assert OwnedTask(s, u);
        if s.tasks[u].aborted && !s.tasks[u].phase.Settled? {
          var d: CallerId :| Drains(s, d, u);
          assert Drains(s', d, u);
        }
      } else {
        forall d: CallerId ensures !Owns(s, d, u) {
          assert CallerOk(s, d);
        }
      }
    }
  }

  lemma OwnersSettle(lockOf: LockOf, s: State, t: TaskId, ok: bool)
    requires Ownership(s) && t < |s.tasks|
    ensures Ownership(SettleTask(lockOf, s, t, ok))
  {
    var s' := SettleTask(lockOf, s, t, ok);
    PhaseKeepsOwners(s, s', t);
  }

  lemma PhaseKeepsOwners(s: State, s': State, t: TaskId)
    requires Ownership(s) && t < |s.tasks| && s'.callers == s.callers
    requires |s'.tasks| == |s.tasks| && s'.tasks == s.tasks[t := s.tasks[t].(phase := s'.tasks[t].phase)]
    requires s.tasks[t].phase.Settled? ==> s'.tasks[t].phase.Settled?
    ensures Ownership(s')
  {
    forall d: CallerId ensures CallerOk(s', d) {
      assert CallerOk(s, d);
    }
    forall u: TaskId | u < |s'.tasks| ensures OwnedTask(s', u) {
      assert OwnedTask(s, u);
      forall d: CallerId ensures Owns(s', d, u) == Owns(s, d, u) && Drains(s', d, u) == Drains(s, d, u) {
      }
    }
  }

  lemma OwnersRace(s: State, c: CallerId, outcome: Outcome)
    requires Ownership(s) && c in s.callers && s.callers[c].place.Waiting?
    ensures Ownership(Place'(s, c, s.callers[c].context, Raced(s.callers[c].place.task, outcome)))
  {
    var s' := Place'(s, c, s.callers[c].context, Raced(s.callers[c].place.task, outcome));
    forall d: CallerId ensures CallerOk(s', d) {
      assert CallerOk(s, d);
    }
    forall t: TaskId | t < |s.tasks| ensures OwnedTask(s', t) {
      assert OwnedTask(s, t);
      forall d: CallerId ensures Owns(s', d, t) == Owns(s, d, t) {
      }
      if s.tasks[t].aborted && !s.tasks[t].phase.Settled? {
        var d: CallerId :| Drains(s, d, t);
        assert Drains(s', d, t);
      }
    }
  }

  lemma OwnersLeave(s: State, c: CallerId, now: Reading)
    requires Ownership(s) && OnePerContext(s) && Enabled(s, Leave(c, now))
    ensures Ownership(LeaveTask(s, c, now))
  {
    var s' := LeaveTask(s, c, now);
    var Caller(x, Raced(t, raced)) := s.callers[c];
    assert CallerOk(s, c) && OwnedTask(s, t) && Owns(s, c, t);
    forall d: CallerId ensures CallerOk(s', d) {
      assert CallerOk(s, d);
    }
    forall u: TaskId | u < |s'.tasks| ensures OwnedTask(s', u) {
      assert OwnedTask(s, u);
      forall d: CallerId ensures Owns(s', d, u) == (Owns(s, d, u) && d != c) {
      }
      if s'.tasks[u].aborted && !s'.tasks[u].phase.Settled? {
        if u == t {
          assert Drains(s', c, t);
        } else {
          var d: CallerId :| Drains(s, d, u);
          assert Drains(s', d, u);
        }
      }
    }
  }

  // ----- contexts and what callers are told

  /** Steps that begin and settle nothing, and touch no context. */
  lemma ContextsUntouched(s: State, s': State)
    requires OnePerContext(s) && Successors(s) && s'.prepare == s.prepare && |s'.tasks| == |s.tasks|
    requires forall t: TaskId :: t < |s.tasks| ==>
      s'.tasks[t].context == s.tasks[t].context
      && (s'.tasks[t].phase == s.tasks[t].phase || (!s'.tasks[t].phase.Settled? && !s.tasks[t].phase.Settled?))
    ensures OnePerContext(s') && Successors(s')
    ensures forall x: ContextId :: HasSuccess(s', x) == HasSuccess(s, x)
    ensures forall x: ContextId :: PrepareOf(s', x) == PrepareOf(s, x)
  {
    forall t: TaskId, x: ContextId
      ensures TaskOf(s', t, x) == TaskOf(s, t, x) && IsSettled(s', t) == IsSettled(s, t)
      ensures Succeeded(s', t, x) == Succeeded(s, t, x)
    {
    }
    forall x: ContextId ensures PrepareOf(s', x) == PrepareOf(s, x) {
    }
    forall t: TaskId | t < |s'.tasks| ensures IsSettled(s', t) <==> PrepareOf(s', s'.tasks[t].context) != InFlight(t) {
      assert IsSettled(s, t) <==> PrepareOf(s, s.tasks[t].context) != InFlight(t);
    }
  }

  lemma TruthfulMove(s: State, s': State, c: CallerId)
    requires Truthful(s) && c in s'.callers
    requires forall x: ContextId :: HasSuccess(s', x) == HasSuccess(s, x) && PrepareOf(s', x) == PrepareOf(s, x)
    requires s'.callers == s.callers[c := s'.callers[c]]
    requires Told(s'.callers[c].place) ==> HasSuccess(s, s'.callers[c].context)
    ensures Truthful(s')
  {
  }

  lemma ContextStarts(lockOf: LockOf, s: State, c: CallerId, x: ContextId, now: Reading)
    requires OnePerContext(s) && Successors(s) && Truthful(s) && PrepareOf(s, x).Unset? && !now.expired
    ensures var s' := Enter(lockOf, s, c, x, now); OnePerContext(s') && Successors(s') && Truthful(s')
  {
    var s' := Enter(lockOf, s, c, x, now);
    var n := |s.tasks|;
    forall t: TaskId, y: ContextId | t < n
      ensures TaskOf(s', t, y) == TaskOf(s, t, y) && IsSettled(s', t) == IsSettled(s, t)
      ensures Succeeded(s', t, y) == Succeeded(s, t, y)
    {
    }
    forall y: ContextId
      ensures HasSuccess(s', y) == HasSuccess(s, y)
      ensures PrepareOf(s', y) == if y == x then InFlight(n) else PrepareOf(s, y)
    {
      if HasSuccess(s, y) {
        var t: TaskId :| Succeeded(s, t, y);
        assert Succeeded(s', t, y);
      }
    }
    forall t: TaskId | t < |s'.tasks| ensures IsSettled(s', t) <==> PrepareOf(s', s'.tasks[t].context) != InFlight(t) {
      if t < n {
        assert IsSettled(s, t) <==> PrepareOf(s, s.tasks[t].context) != InFlight(t);
      }
    }
    assert forall t: TaskId :: t < n && TaskOf(s, t, x) ==> IsSettled(s, t);
  }

  lemma ContextSettles(lockOf: LockOf, s: State, t: TaskId, ok: bool)
    requires OnePerContext(s) && Successors(s) && Truthful(s) && t < |s.tasks| && !s.tasks[t].phase.Settled?
    ensures var s' := SettleTask(lockOf, s, t, ok); OnePerContext(s') && Successors(s') && Truthful(s')
  {
    var s' := SettleTask(lockOf, s, t, ok);
    var x := s.tasks[t].context;
    assert !IsSettled(s, t) && PrepareOf(s, x) == InFlight(t);
    forall u: TaskId, y: ContextId
      ensures TaskOf(s', u, y) == TaskOf(s, u, y) && IsSettled(s', u) == (IsSettled(s, u) || u == t)
      ensures Succeeded(s', u, y) == (Succeeded(s, u, y) || (u == t && y == x && ok))
    {
    }
    forall y: ContextId
      ensures PrepareOf(s', y) == if y == x then (if ok then Prepared else Unset) else PrepareOf(s, y)
      ensures HasSuccess(s', y) == (HasSuccess(s, y) || (y == x && ok))
    {
      if HasSuccess(s, y) {
        var u: TaskId :| Succeeded(s, u, y);
        assert Succeeded(s', u, y);
      }
      if y == x && ok {
        assert Succeeded(s', t, x);
      }
    }
    forall u: TaskId | u < |s'.tasks| ensures IsSettled(s', u) <==> PrepareOf(s', s'.tasks[u].context) != InFlight(u) {
      assert IsSettled(s, u) <==> PrepareOf(s, s.tasks[u].context) != InFlight(u);
    }
  }

  // ----- every step keeps the invariant

  /** Moving a caller without touching any preparation. */
  lemma MoveKeeps(lockOf: LockOf, s: State, c: CallerId, x: ContextId, place: Place)
    requires Inv(lockOf, s) && Ownership(Place'(s, c, x, place))
    requires Told(place) ==> HasSuccess(s, x)
    ensures Inv(lockOf, Place'(s, c, x, place))
  {
    var s' := Place'(s, c, x, place);
    hide Ownership, OnePerContext, Truthful, Successors, Chained;
    ChainUntouched(lockOf, s, s');
    ContextsUntouched(s, s');
    TruthfulMove(s, s', c);
  }

  lemma EnterKeeps(lockOf: LockOf, s: State, c: CallerId, x: ContextId, now: Reading)
    requires Inv(lockOf, s)
    requires c in s.callers ==>
      s.callers[c].place.Retiring? && s.callers[c].context == x && IsSettled(s, s.callers[c].place.task)
    requires PrepareOf(s, x).InFlight? ==> PrepareOf(s, x).task < |s.tasks|
    ensures Inv(lockOf, Enter(lockOf, s, c, x, now))
  {
    hide Ownership, OnePerContext, Truthful, Successors, Chained;
    var s' := Enter(lockOf, s, c, x, now);
    match PrepareOf(s, x) {
      case Prepared =>
        PreparedHasSuccess(s, x);
        OwnersMove(s, c, x, s'.callers[c].place);
        MoveKeeps(lockOf, s, c, x, s'.callers[c].place);
      case Unset =>
        if now.expired {
          OwnersMove(s, c, x, Returned(TimedOut));
          MoveKeeps(lockOf, s, c, x, Returned(TimedOut));
        } else {
          OwnersStart(lockOf, s, c, x, now);
          ContextStarts(lockOf, s, c, x, now);
          ChainGrows(lockOf, s, c, x, now);
        }
      case InFlight(t) =>
        InFlightTask(s, x);
        if now.expired {
          OwnersMove(s, c, x, Returned(TimedOut));
          MoveKeeps(lockOf, s, c, x, Returned(TimedOut));
        } else if s.tasks[t].aborted {
          OwnersMove(s, c, x, Retiring(t));
          MoveKeeps(lockOf, s, c, x, Retiring(t));
        } else {
          OwnersJoin(s, c, x, t);
          ChainUntouched(lockOf, s, s');
          ContextsUntouched(s, s');
          TruthfulMove(s, s', c);
        }
    }
  }

  lemma PreparedHasSuccess(s: State, x: ContextId)
    requires Truthful(s) && PrepareOf(s, x) == Prepared
    ensures HasSuccess(s, x)
  {
  }

  lemma InFlightTask(s: State, x: ContextId)
    requires OnePerContext(s) && PrepareOf(s, x).InFlight?
    ensures TaskOf(s, PrepareOf(s, x).task, x)
  {
  }

  lemma ToldHasSuccess(s: State, c: CallerId)
    requires Truthful(s) && c in s.callers && Told(s.callers[c].place)
    ensures HasSuccess(s, s.callers[c].context)
  {
  }

  lemma CallerTask(s: State, c: CallerId)
    requires Ownership(s) && c in s.callers && !s.callers[c].place.Returned?
    ensures TaskOf(s, s.callers[c].place.task, s.callers[c].context)
  {
    assert CallerOk(s, c);
  }

  lemma LeaveKeeps(lockOf: LockOf, s: State, c: CallerId, now: Reading)
    requires Inv(lockOf, s) && Enabled(s, Leave(c, now))
    ensures Inv(lockOf, LeaveTask(s, c, now))
  {
    hide Ownership, OnePerContext, Truthful, Successors, Chained;
    var s' := LeaveTask(s, c, now);
    OwnersLeave(s, c, now);
    ChainUntouched(lockOf, s, s');
    ContextsUntouched(s, s');
    if Told(s.callers[c].place) {
      ToldHasSuccess(s, c);
    }
    TruthfulMove(s, s', c);
  }

  lemma RaceKeeps(lockOf: LockOf, s: State, c: CallerId, outcome: Outcome)
    requires Inv(lockOf, s) && Enabled(s, Race(c, outcome))
    ensures Inv(lockOf, Apply(lockOf, s, Race(c, outcome)))
  {
    hide Ownership, OnePerContext, Truthful, Successors, Chained;
    CallerTask(s, c);
    OwnersRace(s, c, outcome);
    if outcome == Fulfilled {
      assert Succeeded(s, s.callers[c].place.task, s.callers[c].context);
    }
    MoveKeeps(lockOf, s, c, s.callers[c].context, Raced(s.callers[c].place.task, outcome));
  }

  lemma SettleKeeps(lockOf: LockOf, s: State, t: TaskId, ok: bool)
    requires Inv(lockOf, s) && t < |s.tasks| && !s.tasks[t].phase.Settled?
    requires lockOf(s.tasks[t].context).Some? ==> Clear(lockOf, s, t, lockOf(s.tasks[t].context).value)
    ensures Inv(lockOf, SettleTask(lockOf, s, t, ok))
  {
    hide Ownership, OnePerContext, Truthful, Successors, Chained, SettleTask;
    OwnersSettle(lockOf, s, t, ok);
    ContextSettles(lockOf, s, t, ok);
    ChainSettles(lockOf, s, t, ok);
  }

  lemma BeginKeeps(lockOf: LockOf, s: State, t: TaskId)
    requires Inv(lockOf, s) && Enabled(s, Begin(t))
    ensures Inv(lockOf, Apply(lockOf, s, Begin(t)))
  {
    hide Ownership, OnePerContext, Truthful, Successors, Chained, SettleTask;
    ChainBegins(lockOf, s, t);
    if s.tasks[t].aborted {
      SettleKeeps(lockOf, s, t, false);
    } else {
      var s' := s.(tasks := s.tasks[t := s.tasks[t].(phase := Running)]);
      PhaseKeepsOwners(s, s', t);
      ContextsUntouched(s, s');
      TruthfulSame(s, s');
    }
  }

  lemma TruthfulSame(s: State, s': State)
    requires Truthful(s) && s'.callers == s.callers
    requires forall x: ContextId :: HasSuccess(s', x) == HasSuccess(s, x) && PrepareOf(s', x) == PrepareOf(s, x)
    ensures Truthful(s')
  {
  }

  lemma RunningIsClear(lockOf: LockOf, s: State, t: TaskId)
    requires Chained(lockOf, s) && t < |s.tasks| && s.tasks[t].phase == Running
    ensures lockOf(s.tasks[t].context).Some? ==> Clear(lockOf, s, t, lockOf(s.tasks[t].context).value)
  {
    if lockOf(s.tasks[t].context).Some? {
      assert HasLock(lockOf, s, t, lockOf(s.tasks[t].context).value);
    }
  }

  lemma StepKeeps(lockOf: LockOf, s: State, e: Event)
    requires Inv(lockOf, s) && Enabled(s, e)
    ensures Inv(lockOf, Apply(lockOf, s, e))
  {
    hide Ownership, OnePerContext, Truthful, Successors, Chained, SettleTask, Enter, LeaveTask;
    match e {
      case Call(c, x, now) => EnterKeeps(lockOf, s, c, x, now);
      case Resume(c, now) => EnterKeeps(lockOf, s, c, s.callers[c].context, now);
      case GiveUp(c, why) =>
        OwnersMove(s, c, s.callers[c].context, Returned(why));
        MoveKeeps(lockOf, s, c, s.callers[c].context, Returned(why));
      case Race(c, outcome) => RaceKeeps(lockOf, s, c, outcome);
      case Leave(c, now) => LeaveKeeps(lockOf, s, c, now);
      case Drain(c) =>
        var Caller(x, Draining(_, outcome)) := s.callers[c];
        if outcome == Fulfilled {
          ToldHasSuccess(s, c);
        }
        OwnersMove(s, c, x, Returned(outcome));
        MoveKeeps(lockOf, s, c, x, Returned(outcome));
      case Begin(t) => BeginKeeps(lockOf, s, t);
      case Settle(t, ok) =>
        RunningIsClear(lockOf, s, t);
        SettleKeeps(lockOf, s, t, ok);
    }
  }

  // ----- safety over every run

  lemma {:induction false} RunKeeps(lockOf: LockOf, trace: seq<State>, i: nat)
    requires Run(lockOf, trace) && i < |trace|
    ensures Inv(lockOf, trace[i])
  {
    hide Inv, Apply, Enabled;
    if i == 0 {
      InitKeeps(lockOf);
    } else {
      RunKeeps(lockOf, trace, i - 1);
      assert Steps(lockOf, trace[i - 1], trace[i - 1 + 1]);
      var e :| Enabled(trace[i - 1], e) && trace[i] == Apply(lockOf, trace[i - 1], e);
      StepKeeps(lockOf, trace[i - 1], e);
    }
  }

  predicate Unsettled(s: State, t: TaskId, x: ContextId) {
    TaskOf(s, t, x) && !s.tasks[t].phase.Settled?
  }

  /** In every reachable state a context has at most one unsettled preparation, and it is the latest: a
      successor exists only once its predecessors settled. */
  lemma OneUnsettledPerContext(lockOf: LockOf, trace: seq<State>, i: nat, x: ContextId)
    requires Run(lockOf, trace) && i < |trace|
    ensures forall t: TaskId, u: TaskId :: Unsettled(trace[i], t, x) && TaskOf(trace[i], u, x) ==> u <= t
  {
    RunKeeps(lockOf, trace, i);
  }

  /** In every reachable state a live preparation has an owner, a cancelled one has none, and while it
      has not settled the owner that cancelled it is still there, waiting for the runner. */
  lemma PreparationsAreOwned(lockOf: LockOf, trace: seq<State>, i: nat, t: TaskId)
    requires Run(lockOf, trace) && i < |trace| && t < |trace[i].tasks|
    ensures var s := trace[i];
            (s.tasks[t].aborted ==> s.tasks[t].waiters == {})
            && (!s.tasks[t].phase.Settled? ==>
                 if s.tasks[t].aborted then exists c: CallerId :: Drains(s, c, t)
                 else exists c: CallerId :: c in s.tasks[t].waiters && Owns(s, c, t))
  {
    RunKeeps(lockOf, trace, i);
    assert OwnedTask(trace[i], t);
  }

  /** No preparation outlives its callers: once every call has returned, everything has settled. */
  lemma NothingLeftRunning(lockOf: LockOf, trace: seq<State>, i: nat)
    requires Run(lockOf, trace) && i < |trace|
    requires forall c: CallerId :: c in trace[i].callers ==> trace[i].callers[c].place.Returned?
    ensures forall t: TaskId :: t < |trace[i].tasks| ==> IsSettled(trace[i], t)
  {
    forall t: TaskId | t < |trace[i].tasks| ensures IsSettled(trace[i], t) {
      PreparationsAreOwned(lockOf, trace, i, t);
    }
  }

  /** No caller is told the profile is prepared unless a preparation of its context succeeded, and
      `prepare` is `true` exactly when one did. */
  lemma NoSuccessWithoutPreparation(lockOf: LockOf, trace: seq<State>, i: nat)
    requires Run(lockOf, trace) && i < |trace|
    ensures forall c: CallerId :: c in trace[i].callers && trace[i].callers[c].place == Returned(Fulfilled)
              ==> HasSuccess(trace[i], trace[i].callers[c].context)
    ensures forall x: ContextId :: PrepareOf(trace[i], x) == Prepared <==> HasSuccess(trace[i], x)
  {
    RunKeeps(lockOf, trace, i);
  }

  /** Two preparations that share a lock never run at the same time, whatever contexts they belong to. */
  lemma LockExcludes(lockOf: LockOf, trace: seq<State>, i: nat, t: TaskId, u: TaskId, b: Binary)
    requires Run(lockOf, trace) && i < |trace|
    requires HasLock(lockOf, trace[i], t, b) && HasLock(lockOf, trace[i], u, b)
    requires trace[i].tasks[t].phase == Running && trace[i].tasks[u].phase == Running
    ensures t == u
  {
    RunKeeps(lockOf, trace, i);
    RunningIsClear(lockOf, trace[i], t);
    RunningIsClear(lockOf, trace[i], u);
  }

  /** What never goes back: preparations stay settled with the same result, stay cancelled with nobody
      joining them, a prepared context stays prepared, and a returned call keeps its outcome. */
  ghost predicate Forward(s: State, s': State) {
    |s.tasks| <= |s'.tasks|
    && (forall t: TaskId :: t < |s.tasks| ==>
         s'.tasks[t].context == s.tasks[t].context
         && (s.tasks[t].phase.Settled? ==> s'.tasks[t].phase == s.tasks[t].phase)
         && (s.tasks[t].aborted ==> s'.tasks[t].aborted && s'.tasks[t].waiters <= s.tasks[t].waiters))
    && (forall x: ContextId :: PrepareOf(s, x) == Prepared ==> PrepareOf(s', x) == Prepared)
    && (forall c: CallerId :: c in s.callers && s.callers[c].place.Returned? ==>
         c in s'.callers && s'.callers[c] == s.callers[c])
  }

  predicate StillHere(s: State, c: CallerId) {
    c in s.callers ==> !s.callers[c].place.Returned?
  }

  lemma PlaceForward(s: State, c: CallerId, x: ContextId, place: Place)
    requires StillHere(s, c)
    ensures Forward(s, Place'(s, c, x, place))
  {
  }

  lemma EnterForward(lockOf: LockOf, s: State, c: CallerId, x: ContextId, now: Reading)
    requires StillHere(s, c)
    requires PrepareOf(s, x).InFlight? ==> PrepareOf(s, x).task < |s.tasks|
    ensures Forward(s, Enter(lockOf, s, c, x, now))
  {
  }

  lemma LeaveForward(s: State, c: CallerId, now: Reading)
    requires c in s.callers && s.callers[c].place.Raced? && s.callers[c].place.task < |s.tasks|
    ensures Forward(s, LeaveTask(s, c, now))
  {
  }

  lemma SettleForward(lockOf: LockOf, s: State, t: TaskId, ok: bool)
    requires t < |s.tasks| && !IsSettled(s, t)
    ensures Forward(s, SettleTask(lockOf, s, t, ok))
  {
  }

  lemma RunningForward(s: State, t: TaskId)
    requires t < |s.tasks| && !IsSettled(s, t)
    ensures Forward(s, s.(tasks := s.tasks[t := s.tasks[t].(phase := Running)]))
  {
  }

  lemma StepForward(lockOf: LockOf, s: State, e: Event)
    requires Enabled(s, e)
    ensures Forward(s, Apply(lockOf, s, e))
  {
    hide Forward, Enter, LeaveTask, SettleTask, Place';
    match e {
      case Call(c, x, now) => EnterForward(lockOf, s, c, x, now);
      case Resume(c, now) => EnterForward(lockOf, s, c, s.callers[c].context, now);
      case GiveUp(c, why) => PlaceForward(s, c, s.callers[c].context, Returned(why));
      case Race(c, outcome) =>
        PlaceForward(s, c, s.callers[c].context, Raced(s.callers[c].place.task, outcome));
      case Leave(c, now) => LeaveForward(s, c, now);
      case Drain(c) => PlaceForward(s, c, s.callers[c].context, Returned(s.callers[c].place.outcome));
      case Begin(t) =>
        SettleForward(lockOf, s, t, false);
        RunningForward(s, t);
      case Settle(t, ok) => SettleForward(lockOf, s, t, ok);
    }
  }

  lemma {:induction false} RunForward(lockOf: LockOf, trace: seq<State>, i: nat, j: nat)
    requires Run(lockOf, trace) && i <= j < |trace|
    ensures Forward(trace[i], trace[j])
  {
    hide Apply, Enabled;
    if i < j {
      RunForward(lockOf, trace, i, j - 1);
      assert Steps(lockOf, trace[j - 1], trace[j - 1 + 1]);
      var e :| Enabled(trace[j - 1], e) && trace[j] == Apply(lockOf, trace[j - 1], e);
      StepForward(lockOf, trace[j - 1], e);
    }
  }
}
