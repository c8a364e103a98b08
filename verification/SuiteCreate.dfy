/** The attempt loop that creates a suite's sandbox: patience under a budget, one failure marker on every
    way out that throws, and no second allocation while the first may still land. */
module SuiteCreate {
  import opened Wrappers

  const MINUTE: int := 60_000
  const DEFAULT_ATTEMPT_TIMEOUT: int := 5 * MINUTE
  const DEFAULT_RETRY_BUDGET: int := 0
  const DEFAULT_RETRY_DELAY: int := 2 * MINUTE

  datatype Error =
    | AllocationTimeout(attempt: nat)
    | CleanupOwned(code: int)
    | CreateError(code: int)

  /** What a plan rejects with: the timeout error belongs to the loop, which makes a new one per attempt. */
  type Rejection = e: Error | !e.AllocationTimeout? witness CreateError(0)

  /** `Unstarted`: the attempt threw before any create was in flight. */
  datatype Outcome =
    | Created(handle: int)
    | Unstarted(error: Rejection)
    | Rejected(error: Rejection)
    | TimedOut

  /** One attempt. `guarded`: a handle its create still delivers will be destroyed. */
  datatype Attempt = Attempt(start: int, outcome: Outcome, end: int, guarded: bool)

  datatype Limit = Unset | AdapterOwned | Limit(ms: int)

  datatype Context = Context(
    createTimeout: Limit, ceiling: Option<int>, retryBudget: Option<int>, retryDelay: Option<int>)

  datatype Plan = Plan(isRetryable: Rejection -> bool)

  function OrElse(o: Option<int>, default: int): int {
    match o
    case Some(x) => x
    case None => default
  }

  /** The harness's own bound on one attempt, if it races the create at all. */
  function Race(ctx: Context): Option<int> {
    match ctx.createTimeout
    case Unset => Some(DEFAULT_ATTEMPT_TIMEOUT)
    case AdapterOwned => None
    case Limit(ms) => Some(ms)
  }

  /** What one more attempt may cost. */
  function Ceiling(ctx: Context): int {
    OrElse(Race(ctx), OrElse(ctx.ceiling, 0))
  }

  function Delay(ctx: Context): int {
    OrElse(ctx.retryDelay, DEFAULT_RETRY_DELAY)
  }

  function Budget(ctx: Context): int {
    OrElse(ctx.retryBudget, DEFAULT_RETRY_BUDGET)
  }

  function ErrorOf(outcome: Outcome, attempt: nat): Error
    requires !outcome.Created?
  {
    if outcome.TimedOut? then AllocationTimeout(attempt) else outcome.error
  }

  /** A create that rejected by itself, left nothing to clean up, and that the plan would ask again. */
  predicate Retryable(plan: Plan, outcome: Outcome) {
    (outcome.Rejected? || outcome.Unstarted?) && !outcome.error.CleanupOwned? && plan.isRetryable(outcome.error)
  }

  /** The terms of a run in numbers. What races an attempt is what is reserved for it: five minutes unless
      set. An adapter that bounds its own attempts is reserved the ceiling it declares, or nothing. */
  lemma TermsInNumbers(ctx: Context)
    ensures Race(ctx) == match ctx.createTimeout
              case Unset => Some(300_000)
              case AdapterOwned => None
              case Limit(ms) => Some(ms)
    ensures Race(ctx).Some? ==> Ceiling(ctx) == Race(ctx).value
    ensures Race(ctx).None? ==> Ceiling(ctx) == if ctx.ceiling.Some? then ctx.ceiling.value else 0
    ensures Delay(ctx) == if ctx.retryDelay.Some? then ctx.retryDelay.value else 120_000
    ensures Budget(ctx) == if ctx.retryBudget.Some? then ctx.retryBudget.value else 0
  {
  }

  /** An attempt may be retried exactly when it failed by itself, left no cleanup behind, and the plan says
      so; its error is its own, and a timeout's is the attempt's. */
  lemma RetryInCases(plan: Plan, outcome: Outcome, attempt: nat)
    ensures match outcome
            case Created(_) => !Retryable(plan, outcome)
            case TimedOut => !Retryable(plan, outcome) && ErrorOf(outcome, attempt) == AllocationTimeout(attempt)
            case Unstarted(e) => (Retryable(plan, outcome) <==> !e.CleanupOwned? && plan.isRetryable(e))
                                 && ErrorOf(outcome, attempt) == e
            case Rejected(e) => (Retryable(plan, outcome) <==> !e.CleanupOwned? && plan.isRetryable(e))
                                && ErrorOf(outcome, attempt) == e
  {
  }

  // ----- laws of a run

  /** `next` may start after `last`: the budget covered the backoff plus a whole attempt when it was
      decided, the backoff was slept in full, and the budget still covers the attempt when it starts. */
  ghost predicate Continues(plan: Plan, ctx: Context, deadline: int, last: Attempt, next: Attempt) {
    Retryable(plan, last.outcome)
    && last.end + Delay(ctx) + Ceiling(ctx) <= deadline
    && next.start >= last.end + Delay(ctx)
    && next.start + Ceiling(ctx) <= deadline
  }

  ghost predicate Legal(plan: Plan, ctx: Context, deadline: int, attempts: seq<Attempt>) {
    (forall i {:trigger attempts[i]} :: 0 <= i < |attempts| ==> attempts[i].end >= attempts[i].start)
    && forall i: nat :: i < |attempts| - 1 ==> ContinuesAt(plan, ctx, deadline, attempts, i)
  }

  ghost predicate ContinuesAt(plan: Plan, ctx: Context, deadline: int, attempts: seq<Attempt>, i: nat)
    requires i < |attempts| - 1
  {
    Continues(plan, ctx, deadline, attempts[i], attempts[i + 1])
  }

  lemma LegalExtends(plan: Plan, ctx: Context, deadline: int, attempts: seq<Attempt>, a: Attempt)
    requires Legal(plan, ctx, deadline, attempts) && a.end >= a.start
    requires attempts != [] ==> Continues(plan, ctx, deadline, attempts[|attempts| - 1], a)
    ensures Legal(plan, ctx, deadline, attempts + [a])
  {
    var all := attempts + [a];
    forall i: nat | i < |all| - 1 ensures ContinuesAt(plan, ctx, deadline, all, i) {
      if i < |attempts| - 1 {
        assert ContinuesAt(plan, ctx, deadline, attempts, i);
      }
    }
  }

  /** No attempt overlaps an unsettled create: all but the last settled by rejecting. */
  lemma EarlierAttemptsRejected(plan: Plan, ctx: Context, deadline: int, attempts: seq<Attempt>, i: nat)
    requires Legal(plan, ctx, deadline, attempts) && i < |attempts| - 1
    ensures !attempts[i].outcome.TimedOut? && !attempts[i].outcome.Created?
    ensures attempts[i].outcome.error != CleanupOwned(attempts[i].outcome.error.code)
  {
    assert ContinuesAt(plan, ctx, deadline, attempts, i);
  }

  /** Each backoff is slept in full, so starts drift apart. */
  lemma {:induction false} StartsDrift(plan: Plan, ctx: Context, deadline: int, attempts: seq<Attempt>, k: nat)
    requires Legal(plan, ctx, deadline, attempts) && k < |attempts|
    ensures attempts[k].start >= attempts[0].start + k * Delay(ctx)
  {
    if k > 0 {
      StartsDrift(plan, ctx, deadline, attempts, k - 1);
      assert ContinuesAt(plan, ctx, deadline, attempts, k - 1);
      assert attempts[k - 1].end >= attempts[k - 1].start;
      Distribute(k, Delay(ctx));
    }
  }

  lemma Distribute(k: nat, d: int)
    requires k > 0
    ensures k * d == (k - 1) * d + d
  {
  }

  /** Every retry is paid for by the budget: the sleeps plus one whole attempt fit inside it. */
  lemma RetriesFitBudget(plan: Plan, ctx: Context, began: int, attempts: seq<Attempt>)
    requires Legal(plan, ctx, began + Budget(ctx), attempts) && |attempts| >= 2 && attempts[0].start >= began
    ensures (|attempts| - 1) * Delay(ctx) + Ceiling(ctx) <= Budget(ctx)
  {
    var last := |attempts| - 1;
    StartsDrift(plan, ctx, began + Budget(ctx), attempts, last);
    assert ContinuesAt(plan, ctx, began + Budget(ctx), attempts, last - 1);
  }

  lemma Quotient(k: nat, d: int, n: int)
    requires d > 0 && k * d <= n
    ensures k <= n / d
  {
    var q := n / d;
    Distribute2(q, d);
    if k > q {
      ScaleUp(q + 1, k, d);
    }
  }

  lemma ScaleUp(a: int, b: int, d: int)
    requires a <= b && d > 0
    ensures a * d <= b * d
  {
  }

  lemma Distribute2(q: int, d: int)
    ensures (q + 1) * d == q * d + d
  {
  }

  /** With a positive backoff a run makes at most one attempt plus one per backoff the budget holds. */
  lemma AttemptsBounded(plan: Plan, ctx: Context, began: int, attempts: seq<Attempt>)
    requires Legal(plan, ctx, began + Budget(ctx), attempts) && attempts != [] && attempts[0].start >= began
    requires Delay(ctx) > 0 && Ceiling(ctx) >= 0 && Budget(ctx) >= 0
    ensures |attempts| <= 1 + Budget(ctx) / Delay(ctx)
  {
    if |attempts| >= 2 {
      RetriesFitBudget(plan, ctx, began, attempts);
      Quotient(|attempts| - 1, Delay(ctx), Budget(ctx));
    }
  }

  // ----- the loop

  class World {
    var clock: int
    ghost var attempts: seq<Attempt>
    ghost var markers: seq<Error>

    constructor ()
      ensures attempts == [] && markers == []
    {
      clock, attempts, markers := 0, [], [];
    }

    method Now() returns (t: int)
      modifies this`clock
      ensures t == clock >= old(clock)
    {
      var step: int := *;
      clock := if step > 0 then clock + step else clock;
      t := clock;
    }

    /** One create, raced against `race` if there is one; it starts at the last clock reading. */
    method Create(race: Option<int>) returns (outcome: Outcome)
      modifies this`clock, this`attempts
      ensures clock >= old(clock) && (race.None? ==> !outcome.TimedOut?)
      ensures attempts == old(attempts) + [Attempt(old(clock), outcome, clock, false)]
    {
      var start := clock;
      outcome := *;
      if race.None? && outcome.TimedOut? {
        var error: Rejection := *;
        outcome := Rejected(error);
      }
      var end := Now();
      attempts := attempts + [Attempt(start, outcome, end, false)];
    }

    /** Destroy the handle the last create may still deliver. */
    method GuardLateHandle()
      requires attempts != []
      modifies this`attempts
      ensures var n := |old(attempts)| - 1;
              attempts == old(attempts)[..n] + [old(attempts)[n].(guarded := true)]
    {
      var n := |attempts| - 1;
      attempts := attempts[..n] + [attempts[n].(guarded := true)];
    }

    /** A timer: never early, possibly late. */
    method Sleep(ms: int)
      modifies this`clock
      ensures clock >= old(clock) && clock >= old(clock) + ms
    {
      clock := if ms > 0 then clock + ms else clock;
      var late := Now();
    }

    /** Writing a gap marker may itself fail. */
    method WriteMarker(error: Error) returns (written: bool)
      modifies this`clock, this`markers
      ensures clock >= old(clock) && markers == old(markers) + [error]
    {
      written := *;
      markers := markers + [error];
      var t := Now();
    }
  }

  /** Some create may be in flight behind a failed attempt: then its late handle is guarded. */
  ghost predicate Guarded(attempts: seq<Attempt>) {
    forall i :: 0 <= i < |attempts| ==> GuardedAt(attempts[i])
  }

  predicate GuardedAt(a: Attempt) {
    a.guarded <==> a.outcome.Rejected? || a.outcome.TimedOut?
  }

  /** Why a run may end in failure. */
  ghost predicate OutOfPatience(plan: Plan, ctx: Context, deadline: int, last: Attempt, now: int) {
    !Retryable(plan, last.outcome) || now + (if Delay(ctx) > 0 then Delay(ctx) else 0) + Ceiling(ctx) > deadline
  }

  class Loop {
    const world: World
    const plan: Plan
    const ctx: Context
    var createDeadline: int

    constructor (world: World, plan: Plan, ctx: Context)
      ensures this.world == world && this.plan == plan && this.ctx == ctx
    {
      this.world, this.plan, this.ctx := world, plan, ctx;
      createDeadline := 0;
    }

    method FitsInBudget(inMs: int) returns (fits: bool)
      modifies world`clock
      ensures world.clock >= old(world.clock)
      ensures fits == (world.clock + inMs + Ceiling(ctx) <= createDeadline)
    {
      var now := world.Now();
      fits := now + inMs + Ceiling(ctx) <= createDeadline;
    }

    /** The single throwing exit: one marker is tried, and the attempt's own error is what escapes. */
    method GiveUp(error: Error) returns (r: Result<int, Error>)
      modifies world`clock, world`markers
      ensures world.clock >= old(world.clock)
      ensures r == Err(error) && world.markers == old(world.markers) + [error]
    {
      var _ := world.WriteMarker(error);
      r := Err(error);
    }

    /** One attempt and its bookkeeping. */
    method TryOnce(attempt: nat) returns (r: Result<int, Error>, retryable: bool)
      modifies world`clock, world`attempts
      ensures exists a :: world.attempts == old(world.attempts) + [a]
                          && a.start == old(world.clock) <= a.end == world.clock
                          && GuardedAt(a) && (Race(ctx).None? ==> !a.outcome.TimedOut?)
                          && Reported(plan, a.outcome, attempt, r, retryable)
    {
      var outcome := world.Create(Race(ctx));
      match outcome {
        case Created(handle) =>
          r, retryable := Ok(handle), false;
        case Unstarted(error) =>
          r, retryable := Err(error), !error.CleanupOwned? && plan.isRetryable(error);
        case Rejected(error) =>
          world.GuardLateHandle();
          r, retryable := Err(error), !error.CleanupOwned? && plan.isRetryable(error);
        case TimedOut =>
          world.GuardLateHandle();
          r, retryable := Err(AllocationTimeout(attempt)), false;
      }
      var guarded := outcome.Rejected? || outcome.TimedOut?;
      ghost var a := Attempt(old(world.clock), outcome, world.clock, guarded);
      assert world.attempts == old(world.attempts) + [a];
    }

    /** The run so far is legal and may go on with another attempt. */
    ghost predicate Trying(began: int)
      reads this, world
    {
      createDeadline == began + Budget(ctx) && world.clock >= began && world.markers == []
      && Legal(plan, ctx, createDeadline, world.attempts) && Guarded(world.attempts)
      && (world.attempts != [] ==>
            world.attempts[0].start >= began
            && Ready(plan, ctx, createDeadline, world.attempts[|world.attempts| - 1], world.clock))
    }

    /** The run is over, with the last attempt's handle, or with its own error after one marker. */
    ghost predicate Ended(began: int, r: Result<int, Error>)
      reads this, world
    {
      createDeadline == began + Budget(ctx) && world.attempts != [] && world.attempts[0].start >= began
      && Legal(plan, ctx, createDeadline, world.attempts) && Guarded(world.attempts)
      && var n := |world.attempts|;
         var last := world.attempts[n - 1];
         if last.outcome.Created? then r == Ok(last.outcome.handle) && world.markers == []
         else r == Err(ErrorOf(last.outcome, n)) && world.markers == [ErrorOf(last.outcome, n)]
              && OutOfPatience(plan, ctx, createDeadline, last, world.clock)
    }

    method Begin() returns (ghost began: int)
      requires world.attempts == [] && world.markers == []
      modifies this`createDeadline, world`clock
      ensures Trying(began) && began >= old(world.clock)
    {
      var now := world.Now();
      createDeadline := now + Budget(ctx);
      began := now;
      Nothing(plan, ctx, createDeadline);
    }

    /** One pass through the loop body. */
    method Round(ghost began: int, attempt: nat) returns (done: Option<Result<int, Error>>)
      requires Trying(began) && |world.attempts| == attempt - 1
      modifies world
      ensures done.Some? ==> Ended(began, done.value)
      ensures done.None? ==> Trying(began) && |world.attempts| == attempt
                             && world.clock >= old(world.clock) + Delay(ctx)
                             && world.clock + Ceiling(ctx) <= createDeadline
    {
      hide Legal, Continues, Retryable, Ceiling, Delay, Budget, Guarded, GuardedAt, Race, ErrorOf;
      ghost var before, start := world.attempts, world.clock;
      var r, retryable := TryOnce(attempt);
      ghost var a :| world.attempts == before + [a]
                     && a.start == start <= a.end == world.clock
                     && GuardedAt(a) && (Race(ctx).None? ==> !a.outcome.TimedOut?)
                     && Reported(plan, a.outcome, attempt, r, retryable);
      if before != [] {
        ReadyContinues(plan, ctx, createDeadline, before[|before| - 1], a);
      }
      LegalExtends(plan, ctx, createDeadline, before, a);
      GuardedExtends(before, a);
      if r.Ok? {
        return Some(r);
      }
      var fits := retryable;
      if retryable {
        fits := FitsInBudget(Delay(ctx));
      }
      if !fits {
        r := GiveUp(r.error);
        return Some(r);
      }
      world.Sleep(Delay(ctx));
      fits := FitsInBudget(0);
      if !fits {
        r := GiveUp(r.error);
        return Some(r);
      }
      return None;
    }

    /** Any number of rounds, with any delay: the run is legal throughout, finished or not. */
    method Rounds(rounds: nat) returns (done: Option<Result<int, Error>>, ghost began: int)
      requires world.attempts == [] && world.markers == []
      modifies this`createDeadline, world
      ensures began >= old(world.clock)
      ensures done.Some? ==> Ended(began, done.value)
      ensures done.None? ==> Trying(began) && |world.attempts| == rounds
    {
      began := Begin();
      done := None;
      for i := 0 to rounds
        invariant done.None? && Trying(began) && |world.attempts| == i
      {
        done := Round(began, i + 1);
        if done.Some? {
          return;
        }
      }
    }

    /** Create the suite's sandbox. With a positive delay the loop ends. */
    method CreateSuiteSandbox() returns (r: Result<int, Error>, ghost began: int)
      requires world.attempts == [] && world.markers == [] && Delay(ctx) > 0
      modifies this`createDeadline, world
      ensures began >= old(world.clock) && Ended(began, r)
    {
      began := Begin();
      var attempt: nat := 1;
      var done := Round(began, attempt);
      while done.None?
        invariant done.None? ==> Trying(began) && |world.attempts| == attempt
        invariant done.None? ==> world.clock + Ceiling(ctx) <= createDeadline
        invariant done.Some? ==> Ended(began, done.value)
        decreases done.None?, createDeadline - world.clock - Ceiling(ctx)
      {
        attempt := attempt + 1;
        done := Round(began, attempt);
      }
      r := done.value;
    }
  }

  /** What the loop learns from an attempt. */
  predicate Reported(plan: Plan, outcome: Outcome, attempt: nat, r: Result<int, Error>, retryable: bool) {
    retryable == Retryable(plan, outcome)
    && r == if outcome.Created? then Ok(outcome.handle) else Err(ErrorOf(outcome, attempt))
  }

  /** Another attempt may start at `now`. */
  ghost predicate Ready(plan: Plan, ctx: Context, deadline: int, last: Attempt, now: int) {
    Retryable(plan, last.outcome)
    && last.end + Delay(ctx) + Ceiling(ctx) <= deadline
    && now >= last.end + Delay(ctx)
    && now + Ceiling(ctx) <= deadline
  }

  lemma ReadyContinues(plan: Plan, ctx: Context, deadline: int, last: Attempt, next: Attempt)
    requires Ready(plan, ctx, deadline, last, next.start)
    ensures Continues(plan, ctx, deadline, last, next)
  {
  }

  lemma Nothing(plan: Plan, ctx: Context, deadline: int)
    ensures Legal(plan, ctx, deadline, []) && Guarded([])
  {
  }

  lemma GuardedExtends(attempts: seq<Attempt>, a: Attempt)
    requires Guarded(attempts) && GuardedAt(a)
    ensures Guarded(attempts + [a])
  {
  }
}
