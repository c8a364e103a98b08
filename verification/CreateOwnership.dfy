/** One `create` of the CLI driver, from preparation to return or throw: whatever the CLI, the clock and
    the signal do, an issued create is returned, proved gone, or left with an owner that can retry. */
module CreateOwnership {
  import opened Reals
  import opened Wrappers
  import opened Observations
  import opened FailedCreate

  type CallerId = nat

  /** `FailedCreateCleanupError`: the retryable cleanup record handed to the process owner. Calls that
      arrive while a cleanup is in flight share it. */
  class CleanupOwner {
    const reconciliation: Reconciliation
    const commandTimeoutMs: real
    var cleaned: bool
    var inFlight: set<CallerId>
    var results: map<CallerId, Result<(), CleanupError>>

    ghost predicate Valid()
      reads this, reconciliation, reconciliation.world
    {
      reconciliation.Valid()
      && (cleaned ==> ProvedGone(reconciliation.world.Log(), reconciliation.horizon) && inFlight == {})
      && ((exists c :: c in results && results[c].Ok?) ==> cleaned)
      && forall c :: c in inFlight ==> c !in results
    }

    constructor (reconciliation: Reconciliation, commandTimeoutMs: real)
      requires reconciliation.Valid()
      ensures Valid() && !cleaned && inFlight == {} && results == map[] && this.reconciliation == reconciliation
      ensures this.commandTimeoutMs == commandTimeoutMs
    {
      this.reconciliation, this.commandTimeoutMs := reconciliation, commandTimeoutMs;
      cleaned, inFlight, results := false, {}, map[];
    }

    /** A call: done at once after the first success, otherwise it starts a cleanup or joins the one in
        flight. It observes nothing itself. */
    method Call(c: CallerId)
      requires Valid() && c !in inFlight && c !in results
      modifies this
      ensures Valid() && cleaned == old(cleaned)
      ensures if cleaned then results == old(results)[c := Ok(())] && inFlight == old(inFlight)
              else inFlight == old(inFlight) + {c} && results == old(results)
    {
      if cleaned {
        results := results[c := Ok(())];
      } else {
        inFlight := inFlight + {c};
      }
    }

    /** The cleanup in flight settles: one reconciliation, one outcome for everyone who joined. */
    method Settle() returns (r: Result<(), CleanupError>)
      requires Valid() && inFlight != {}
      modifies this, reconciliation, reconciliation.world
      ensures Valid() && Observed(old(reconciliation.world.Log()), reconciliation.world.Log())
      ensures OnlyAsks(old(reconciliation.world.history), reconciliation.world.history)
      ensures cleaned ==> GoneForReal(reconciliation.world.history, reconciliation.horizon)
      ensures inFlight == {} && (r.Ok? <==> cleaned)
      ensures results.Keys == old(results.Keys) + old(inFlight)
      ensures forall c :: c in results ==> results[c] == if c in old(inFlight) then r else old(results)[c]
      ensures cleaned ==> Conclusive(reconciliation.world.Log(), reconciliation.horizon)
    {
      assert !cleaned;
      r := reconciliation.RetryCleanup(commandTimeoutMs);
      var outcome := r;
      results := map c | c in results.Keys + inFlight :: if c in inFlight then outcome else results[c];
      inFlight := {};
      cleaned := r.Ok?;
      if cleaned {
        assert reconciliation.world.Log()[..|reconciliation.world.Log()|] == reconciliation.world.Log();
      }
    }

    /** Any interleaving of calls and settlements: the name is given up only on proof. */
    method CleanupRepeatedly(steps: nat) returns (released: bool)
      requires Valid() && !cleaned
      modifies this, reconciliation, reconciliation.world
      ensures Valid() && Observed(old(reconciliation.world.Log()), reconciliation.world.Log())
      ensures released == cleaned
      ensures released ==> Conclusive(reconciliation.world.Log(), reconciliation.horizon)
      ensures released ==> GoneForReal(reconciliation.world.history, reconciliation.horizon)
      ensures forall c :: c in results && results[c].Ok? ==> released
    {
      for i := 0 to steps
        invariant Valid() && Observed(old(reconciliation.world.Log()), reconciliation.world.Log())
        invariant cleaned ==> Conclusive(reconciliation.world.Log(), reconciliation.horizon)
        invariant cleaned ==> GoneForReal(reconciliation.world.history, reconciliation.horizon)
      {
        var call: bool, c: CallerId := *, *;
        if call && c !in inFlight && c !in results {
          Call(c);
        } else if inFlight != {} {
          var _ := Settle();
        }
      }
      released := cleaned;
    }
  }

  /** Some prefix of the log was conclusive. */
  ghost predicate ProvedGone(log: seq<Event>, horizon: real) {
    exists n: nat :: n <= |log| && Conclusive(log[..n], horizon)
  }

  datatype CreateResult =
    | Returned
    | Threw(primary: Primary)
    | CleanupFailed(error: CleanupError, owner: CleanupOwner)

  datatype Attempt = Ready | Failure(primary: Primary, retryableReadiness: bool)

  const UNALLOCATED := Primary(false, false, false, false)

  /** The create command was issued, at most once, and this is how it went. */
  ghost predicate IssuedOnce(history: seq<Answer>, k: nat) {
    k < |history| && history[k].Created? && forall j: nat :: j < |history| && history[j].Created? ==> j == k
  }

  ghost predicate NeverIssued(history: seq<Answer>) {
    forall j: nat :: j < |history| ==> !history[j].Created?
  }

  class Driver {
    const kind: CleanupKind
    const horizon: real
    const commandTimeoutMs: real

    constructor (kind: CleanupKind, horizon: real, commandTimeoutMs: real)
      ensures this.kind == kind && this.horizon == horizon && this.commandTimeoutMs == commandTimeoutMs
    {
      this.kind, this.horizon, this.commandTimeoutMs := kind, horizon, commandTimeoutMs;
    }

    /** `create`, for one freshly generated name. An issued create is returned exactly when it became
        ready; otherwise it is thrown with its absence proved by the CLI's own answers, or kept by an
        owner. A retry is granted only on proof. A budget spent before the command is issued takes the
        same exit as a failed attempt, and leaves an owner for a name that was never used. */
    method Create(world: World, deadlineMs: real) returns (r: CreateResult, ghost issued: Option<nat>)
      requires world.history == [] && horizon >= 0.0
      modifies world
      ensures issued.None? ==> NeverIssued(world.history)
      ensures issued.Some? ==> IssuedOnce(world.history, issued.value)
      ensures r.Returned? <==> issued.Some? && world.history[issued.value].create.ready
      ensures r.Threw? && issued.Some? ==> GoneForReal(world.history, horizon)
      ensures r.Threw? && issued.None? ==> r.primary == UNALLOCATED
      ensures r.Threw? && issued.Some? ==> r.primary.createFailed == world.history[issued.value].create.createFailed
      ensures r.Threw? && r.primary.marked ==> issued.Some? && r.primary.createFailed
      ensures r.Threw? && issued.Some? && r.primary.createFailed && world.history[issued.value].create.retryable ==>
                r.primary.marked
      ensures r.CleanupFailed? ==> fresh(r.owner) && r.owner.Valid() && !r.owner.cleaned
      ensures r.CleanupFailed? ==> r.owner.reconciliation.world == world && !Conclusive(world.Log(), horizon)
      ensures r.CleanupFailed? ==> r.owner.reconciliation.horizon == horizon
      ensures r.CleanupFailed? && issued.None? ==> r.error == HandedOver || r.error == Deferred
    {
      hide Read, Conclusive, GoneForReal;
      issued := None;
      var argvBuilt: bool := *;
      if !argvBuilt {
        r := Threw(UNALLOCATED);
        return;
      }
      NothingMissing();
      var start := world.Now();
      var deadline := start + deadlineMs;
      var prepared: bool := *;
      if !prepared {
        r := Threw(UNALLOCATED);
        return;
      }
      var now := world.Now();
      if Max(0.0, deadline - now) >= 1.0 {
        issued := Some(|world.history|);
        var attempt := Issue(world);
        match attempt {
          case Ready => r := Returned;
          case Failure(primary, retryable) => r := Reconcile(world, primary, retryable, deadline, issued);
        }
      } else {
        r := Reconcile(world, UNALLOCATED, false, deadline, issued);
      }
    }

    /** The create command and the readiness polling: any failure, and a retry mark on none of them. */
    method Issue(world: World) returns (attempt: Attempt)
      requires Settled(world.View()) && world.Log() == []
      modifies world
      ensures |world.history| == |old(world.history)| + 1 && old(world.history) <= world.history
      ensures var a := world.history[|old(world.history)|];
              a.Created?
              && attempt == if a.create.ready then Ready
                            else Failure(Primary(a.create.createFailed, a.create.hasExitCode, false, false),
                                         a.create.retryable)
      ensures Settled(world.View()) && world.Log() == [CreateIssued] && world.clock >= old(world.clock)
    {
      hide Read;
      var reply := world.RunCreate();
      attempt := if reply.ready then Ready
                 else Failure(Primary(reply.createFailed, reply.hasExitCode, false, false), reply.retryable);
    }

    /** The `catch` of a create attempt. */
    method Reconcile(
      world: World, primary: Primary, retryableReadiness: bool, deadline: real, ghost issued: Option<nat>)
      returns (r: CreateResult)
      requires horizon >= 0.0 && !primary.marked && Settled(world.View())
      requires if issued.Some? then world.Log() == [CreateIssued] && IssuedOnce(world.history, issued.value)
               else world.Log() == [] && NeverIssued(world.history) && deadline - world.clock < 1.0
      modifies world
      ensures !r.Returned? && old(world.history) <= world.history
      ensures if issued.Some? then IssuedOnce(world.history, issued.value) else NeverIssued(world.history)
      ensures r.Threw? ==> issued.Some? && GoneForReal(world.history, horizon)
      ensures r.Threw? ==> r.primary.createFailed == primary.createFailed
      ensures r.Threw? && r.primary.marked ==> r.primary.createFailed
      ensures r.Threw? && r.primary.createFailed && retryableReadiness ==> r.primary.marked
      ensures r.CleanupFailed? ==> fresh(r.owner) && r.owner.Valid() && !r.owner.cleaned
      ensures r.CleanupFailed? ==> r.owner.reconciliation.world == world && !Conclusive(world.Log(), horizon)
      ensures r.CleanupFailed? ==> r.owner.reconciliation.horizon == horizon
      ensures issued.None? ==> r.CleanupFailed? && (r.error == HandedOver || r.error == Deferred)
    {
      hide Read, Conclusive, GoneForReal, FirstMissing;
      NothingMissing();
      ghost var before := world.Log();
      var reconciliation := new Reconciliation(world, kind, horizon, primary);
      var now := world.Now();
      var cleanupBudget := Max(0.0, deadline - now);
      var aborted := world.Signal();
      var cleaned: Result<(), CleanupError>;
      if aborted {
        cleaned := Err(HandedOver);
      } else if cleanupBudget < 1.0 {
        cleaned := Err(Deferred);
      } else {
        cleaned := reconciliation.RetryCleanup(
          if cleanupBudget <= commandTimeoutMs then cleanupBudget else commandTimeoutMs);
      }
      if cleaned.Err? {
        if |world.Log()| == |before| {
          NothingNew(before, horizon, world.Log());
        }
        var owner := new CleanupOwner(reconciliation, commandTimeoutMs);
        return CleanupFailed(cleaned.error, owner);
      }
      var failure := reconciliation.primary;
      if failure.createFailed {
        var classified: bool := *;
        failure := failure.(marked := retryableReadiness || classified);
      }
      r := Threw(failure);
    }
  }

  lemma NothingMissing()
    ensures FirstMissing([]) == None && FirstMissing([CreateIssued]) == None
    ensures Read([]) == Reading([], [], None, false)
    ensures forall horizon: real :: !Conclusive([], horizon) && !Conclusive([CreateIssued], horizon)
  {
    assert [CreateIssued][..0] == [];
  }
}
