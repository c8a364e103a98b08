/** The driver's mutable preparation state, updated in place step by step. Every method is one atomic
    step of `Preparation`, and keeps its invariant. */
module PreparationHost {
  import opened Wrappers
  import opened Preparation

  class Host {
    const lockOf: LockOf
    var tasks: seq<Task>
    var prepare: map<ContextId, Prepare>
    var locks: map<Binary, TaskId>
    var callers: map<CallerId, Caller>

    ghost function Snapshot(): State
      reads this
    {
      State(tasks, prepare, locks, callers)
    }

    ghost predicate Valid()
      reads this
    {
      Inv(lockOf, Snapshot())
    }

    constructor (lockOf: LockOf)
      ensures this.lockOf == lockOf && Snapshot() == INIT && Valid()
    {
      this.lockOf := lockOf;
      tasks, prepare, locks, callers := [], map[], map[], map[];
      new;
      InitKeeps(lockOf);
    }

    /** `ensurePreparedOnce`, up to its first wait: on a first call, or again after a drain. */
    method EnsurePreparedOnce(caller: CallerId, context: ContextId, now: Reading, ghost event: Event)
      requires Valid() && Enabled(Snapshot(), event)
      requires event == Call(caller, context, now)
            || (event == Resume(caller, now) && callers[caller].context == context)
      modifies this
      ensures Valid() && Snapshot() == Apply(lockOf, old(Snapshot()), event)
    {
      StepKeeps(lockOf, Snapshot(), event);
      hide Inv;
      var current := if context in prepare then prepare[context] else Unset;
      if current == Prepared {
        Move(caller, context, Returned(if now.aborted then Cancelled else if now.expired then TimedOut else Fulfilled));
        return;
      }
      if now.expired {
        Move(caller, context, Returned(TimedOut));
        return;
      }
      if current == Unset {
        var t := |tasks|;
        var prior, phase := None, Running;
        match lockOf(context) {
          case None =>
          case Some(binary) =>
            phase := Queued;
            prior := if binary in locks then Some(locks[binary]) else None;
            locks := locks[binary := t];
        }
        tasks := tasks + [Task(context, {caller}, false, prior, phase)];
        prepare := prepare[context := InFlight(t)];
        Move(caller, context, Waiting(t));
        return;
      }
      var t := current.task;
      if tasks[t].aborted {
        Move(caller, context, Retiring(t));
        return;
      }
      tasks := tasks[t := tasks[t].(waiters := tasks[t].waiters + {caller})];
      Move(caller, context, Waiting(t));
    }

    method Move(caller: CallerId, context: ContextId, place: Place)
      modifies this`callers
      ensures callers == old(callers)[caller := Caller(context, place)]
    {
      callers := callers[caller := Caller(context, place)];
    }

    /** A retiring caller's own deadline or signal fires before the drain ends. */
    method GiveUpRetiring(caller: CallerId, why: Outcome)
      requires Valid() && Enabled(Snapshot(), GiveUp(caller, why))
      modifies this
      ensures Valid() && Snapshot() == Apply(lockOf, old(Snapshot()), GiveUp(caller, why))
    {
      StepKeeps(lockOf, Snapshot(), GiveUp(caller, why));
      hide Inv;
      Move(caller, callers[caller].context, Returned(why));
    }

    /** The race of a waiting caller ends: the preparation settled, or its deadline or signal fired. */
    method FinishRace(caller: CallerId, outcome: Outcome)
      requires Valid() && Enabled(Snapshot(), Race(caller, outcome))
      modifies this
      ensures Valid() && Snapshot() == Apply(lockOf, old(Snapshot()), Race(caller, outcome))
    {
      StepKeeps(lockOf, Snapshot(), Race(caller, outcome));
      hide Inv;
      Move(caller, callers[caller].context, Raced(callers[caller].place.task, outcome));
    }

    /** The `finally` of a race. The last waiter cancels the preparation and stays to see it drained. */
    method LeaveRace(caller: CallerId, now: Reading)
      requires Valid() && Enabled(Snapshot(), Leave(caller, now))
      modifies this
      ensures Valid() && Snapshot() == Apply(lockOf, old(Snapshot()), Leave(caller, now))
    {
      StepKeeps(lockOf, Snapshot(), Leave(caller, now));
      hide Inv;
      var context, t, outcome := callers[caller].context, callers[caller].place.task, callers[caller].place.outcome;
      if outcome == Fulfilled {
        outcome := if now.aborted then Cancelled else if now.expired then TimedOut else Fulfilled;
      }
      var waiters := tasks[t].waiters - {caller};
      var last := waiters == {} && context in prepare && prepare[context] == InFlight(t);
      tasks := tasks[t := tasks[t].(waiters := waiters, aborted := tasks[t].aborted || last)];
      Move(caller, context, if last then Draining(t, outcome) else Returned(outcome));
    }

    /** The cancelled runner has been reaped: its last owner returns with its own error. */
    method FinishDrain(caller: CallerId)
      requires Valid() && Enabled(Snapshot(), Drain(caller))
      modifies this
      ensures Valid() && Snapshot() == Apply(lockOf, old(Snapshot()), Drain(caller))
    {
      StepKeeps(lockOf, Snapshot(), Drain(caller));
      hide Inv;
      Move(caller, callers[caller].context, Returned(callers[caller].place.outcome));
    }

    /** The preparation ahead in the lock chain has settled. */
    method BeginPreparation(t: TaskId)
      requires Valid() && Enabled(Snapshot(), Begin(t))
      modifies this
      ensures Valid() && Snapshot() == Apply(lockOf, old(Snapshot()), Begin(t))
    {
      StepKeeps(lockOf, Snapshot(), Begin(t));
      hide Inv;
      if tasks[t].aborted {
        Release(t, false);
      } else {
        tasks := tasks[t := tasks[t].(phase := Running)];
      }
    }

    /** A preparation settles, by itself or because its cancelled runner was reaped. */
    method SettlePreparation(t: TaskId, ok: bool)
      requires Valid() && Enabled(Snapshot(), Settle(t, ok))
      modifies this
      ensures Valid() && Snapshot() == Apply(lockOf, old(Snapshot()), Settle(t, ok))
    {
      StepKeeps(lockOf, Snapshot(), Settle(t, ok));
      hide Inv;
      Release(t, ok);
    }

    /** Settle, and release the context and the lock entry if they still belong to this preparation. */
    method Release(t: TaskId, ok: bool)
      requires t < |tasks|
      modifies this
      ensures Snapshot() == SettleTask(lockOf, old(Snapshot()), t, ok)
    {
      var context := tasks[t].context;
      tasks := tasks[t := tasks[t].(phase := Settled(ok))];
      if context in prepare && prepare[context] == InFlight(t) {
        prepare := prepare[context := if ok then Prepared else Unset];
      }
      match lockOf(context) {
        case None =>
        case Some(binary) =>
          if binary in locks && locks[binary] == t {
            locks := locks - {binary};
          }
      }
    }
  }
}
