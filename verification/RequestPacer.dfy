/** The process-wide request pacer of the DigitalOcean adapter. Any number of callers share one record;
    they interleave at every `await`, and the clock may read anything, even run backwards. */
module RequestPacer {
  import opened Reals
  import opened Wrappers

  const SPACING: real := 300.0
  const RATE_LIMIT_ATTEMPTS: nat := 8
  const DEFAULT_RETRY_AFTER: real := 30.0

  /** What happened to the shared record, in order: a slot reserved at clock reading `now`, or a pause
      asked for by a rate-limited answer. */
  datatype Event =
    | Reserved(now: real, at: real)
    | Paused(now: real, until: real)

  /** The pause in force after `log`: the latest end any answer has asked for. */
  function PausedUntil(log: seq<Event>): real {
    if log == [] then 0.0
    else
      var before := PausedUntil(log[..|log| - 1]);
      match log[|log| - 1]
      case Reserved(_, _) => before
      case Paused(_, until) => Max(before, until)
  }

  /** The slots reserved in `log`, in order of reservation. */
  function Slots(log: seq<Event>): seq<real> {
    if log == [] then []
    else
      var before := Slots(log[..|log| - 1]);
      match log[|log| - 1]
      case Reserved(_, at) => before + [at]
      case Paused(_, _) => before
  }

  /** The earliest time the next slot may have. */
  function NextFree(log: seq<Event>): real {
    var slots := Slots(log);
    if slots == [] then 0.0 else slots[|slots| - 1] + SPACING
  }

  /** Every slot is the earliest time at or after the reading, the previous slot's spacing and the pause. */
  ghost predicate Produced(log: seq<Event>) {
    forall i {:trigger log[i]} :: 0 <= i < |log| && log[i].Reserved? ==> IsSlot(log[..i], log[i].now, log[i].at)
  }

  ghost predicate IsSlot(before: seq<Event>, now: real, at: real) {
    Allowed(before, now, at) && forall t: real :: Allowed(before, now, t) ==> at <= t
  }

  predicate Allowed(before: seq<Event>, now: real, t: real) {
    t >= now && t >= NextFree(before) && t >= PausedUntil(before)
  }

  // ----- laws of every run

  /** Slots `k` apart in reservation order are at least `k` spacings apart in time. */
  ghost predicate Spaced(slots: seq<real>) {
    forall i: nat, j: nat :: i <= j < |slots| ==> slots[j] >= slots[i] + SPACING * (j - i) as real
  }

  lemma ProducedPrefix(log: seq<Event>, n: nat)
    requires Produced(log) && n <= |log|
    ensures Produced(log[..n])
  {
    forall i | 0 <= i < n && log[..n][i].Reserved?
      ensures IsSlot(log[..n][..i], log[..n][i].now, log[..n][i].at)
    {
      assert log[..n][..i] == log[..i] && log[..n][i] == log[i];
    }
  }

  lemma SpacedExtends(slots: seq<real>, at: real)
    requires Spaced(slots) && (slots != [] ==> at >= slots[|slots| - 1] + SPACING)
    ensures Spaced(slots + [at])
  {
    var all := slots + [at];
    forall i: nat, j: nat | i <= j < |all| ensures all[j] >= all[i] + SPACING * (j - i) as real {
      if i < j == |slots| {
        var last := |slots| - 1;
        assert slots[last] >= slots[i] + SPACING * (last - i) as real;
        assert SPACING * (j - i) as real == SPACING * (last - i) as real + SPACING;
      }
    }
  }

  /** However callers and clock readings interleave, reserved slots keep their distance. */
  lemma {:induction false} SlotsAreSpaced(log: seq<Event>)
    requires Produced(log)
    ensures Spaced(Slots(log))
  {
    if log != [] {
      var n := |log| - 1;
      ProducedPrefix(log, n);
      SlotsAreSpaced(log[..n]);
      if log[n].Reserved? {
        assert IsSlot(log[..n], log[n].now, log[n].at);
        SpacedExtends(Slots(log[..n]), log[n].at);
      }
    }
  }

  ghost function InWindow(slots: seq<real>, from: real, width: real): set<nat> {
    set i: nat | i < |slots| && from <= slots[i] < from + width
  }

  function Range(low: nat, n: nat): (r: set<nat>)
    ensures |r| == n
    ensures forall i: nat :: i in r <==> low <= i < low + n
    decreases n
  {
    if n == 0 then {} else Range(low, n - 1) + {low + n - 1}
  }

  lemma Subset(a: set<nat>, b: set<nat>)
    requires a <= b
    ensures |a| <= |b|
  {
    assert b == a + (b - a);
  }

  lemma Within(x: real, y: real, k: nat, d: nat)
    requires y >= x + SPACING * d as real && y < x + SPACING * k as real
    ensures d < k
  {
  }

  lemma Least(s: set<nat>) returns (m: nat)
    requires s != {}
    ensures m in s && forall i :: i in s ==> m <= i
  {
    m :| m in s;
    if s != {m} {
      var rest := Least(s - {m});
      assert forall i :: i in s ==> i == m || i in s - {m};
      if rest < m {
        m := rest;
      }
    }
  }

  /** A half-open window `k` spacings wide holds at most `k` slots. */
  lemma WindowHoldsAtMost(slots: seq<real>, from: real, k: nat)
    requires Spaced(slots)
    ensures |InWindow(slots, from, SPACING * k as real)| <= k
  {
    var window := InWindow(slots, from, SPACING * k as real);
    if window != {} {
      var first := Least(window);
      forall i | i in window ensures i in Range(first, k) {
        Within(slots[first], slots[i], k, i - first);
      }
      Subset(window, Range(first, k));
    }
  }

  /** The rate the adapter promises: at most 200 slots in any half-open minute. */
  lemma AtMostTwoHundredPerMinute(log: seq<Event>, from: real)
    requires Produced(log)
    ensures |InWindow(Slots(log), from, 60_000.0)| <= 200
  {
    SlotsAreSpaced(log);
    WindowHoldsAtMost(Slots(log), from, 200);
  }

  lemma {:induction false} PauseIsLatest(log: seq<Event>, i: nat)
    requires i < |log| && log[i].Paused?
    ensures PausedUntil(log) >= log[i].until
  {
    var n := |log| - 1;
    if i < n {
      assert log[..n][i] == log[i];
      PauseIsLatest(log[..n], i);
    }
  }

  /** A slot reserved after a rate-limited answer never falls inside the pause it asked for. */
  lemma PauseIsRespected(log: seq<Event>, i: nat, j: nat)
    requires Produced(log) && i < j < |log| && log[i].Paused? && log[j].Reserved?
    ensures log[j].at >= log[i].until
  {
    assert log[..j][i] == log[i];
    PauseIsLatest(log[..j], i);
    assert IsSlot(log[..j], log[j].now, log[j].at);
  }

  /** Whatever happens after `log`, a rate-limited answer that arrives next keeps the slot at `j` out of
      the pause it asks for. */
  ghost predicate Protected(log: seq<Event>, j: nat) {
    forall run: seq<Event> :: Produced(run) && AnsweredNext(log, run) && j < |run| && run[j].Reserved? ==>
                    run[j].at >= run[|log|].until
  }

  /** `run` goes on from `log` with a rate-limited answer. */
  ghost predicate AnsweredNext(log: seq<Event>, run: seq<Event>) {
    log < run && run[|log|].Paused?
  }

  /** A slot reserved before the answer keeps its time, and some answer's pause covers it. */
  lemma QueuedSlotCanBeOvertaken(log: seq<Event>, j: nat, now: real) returns (run: seq<Event>)
    requires Produced(log) && j < |log| && log[j].Reserved?
    ensures Produced(run) && AnsweredNext(log, run) && log[j] == run[j] && run[j].at < run[|log|].until
  {
    run := log + [Paused(now, log[j].at + 1.0)];
    Extend(log, Paused(now, log[j].at + 1.0));
  }

  /** The exact condition: a slot keeps out of the pause of a rate-limited answer in every run if and only
      if it is reserved after that answer. */
  lemma ProtectedIffReservedLater(log: seq<Event>, j: nat)
    requires Produced(log) && j != |log| && (j < |log| ==> log[j].Reserved?)
    ensures Protected(log, j) <==> j > |log|
  {
    if j < |log| {
      var run := QueuedSlotCanBeOvertaken(log, j, 0.0);
    } else {
      forall run: seq<Event> | Produced(run) && AnsweredNext(log, run) && j < |run| && run[j].Reserved?
        ensures run[j].at >= run[|log|].until
      {
        PauseIsRespected(run, |log|, j);
      }
    }
  }

  /** Two requests and a pause between the second one's reservation and its slot. */
  lemma QueuedRequestIgnoresPause()
    ensures var log := [Reserved(1.0, 1.0), Reserved(1.0, 301.0), Paused(100.0, 30_100.0)];
            Produced(log) && |Slots(log)| == 2 && Slots(log)[1] < PausedUntil(log)
  {
    var log := [Reserved(1.0, 1.0), Reserved(1.0, 301.0), Paused(100.0, 30_100.0)];
    assert log[..2][..1] == log[..1] && log[..1][..0] == [] && log[..0] == [];
    assert Slots(log[..1]) == [1.0] && Slots(log[..2]) == [1.0, 301.0];
    assert PausedUntil(log[..1]) == 0.0;
  }

  // ----- no time is wasted

  lemma {:induction false} PauseIsSomeones(log: seq<Event>)
    ensures PausedUntil(log) != 0.0 ==>
              exists i: nat :: i < |log| && log[i].Paused? && log[i].until == PausedUntil(log)
  {
    if log != [] {
      var n := |log| - 1;
      PauseIsSomeones(log[..n]);
      if PausedUntil(log) != 0.0 && PausedUntil(log) == PausedUntil(log[..n]) {
        var i: nat :| i < n && log[..n][i].Paused? && log[..n][i].until == PausedUntil(log[..n]);
        assert log[i].Paused? && log[i].until == PausedUntil(log);
      } else if PausedUntil(log) != 0.0 {
        assert log[n].Paused? && log[n].until == PausedUntil(log);
      }
    }
  }

  lemma {:induction false} SlotIsReserved(log: seq<Event>, k: nat)
    requires k < |Slots(log)|
    ensures exists i: nat :: i < |log| && log[i].Reserved? && log[i].at == Slots(log)[k]
  {
    var n := |log| - 1;
    if k < |Slots(log[..n])| {
      SlotIsReserved(log[..n], k);
      var i: nat :| i < n && log[..n][i].Reserved? && log[..n][i].at == Slots(log[..n])[k];
      assert log[i].Reserved? && log[i].at == Slots(log)[k];
    } else {
      assert log[n].Reserved?;
    }
  }

  /** What may hold a slot back: an earlier slot's spacing, or the pause of an earlier answer. */
  ghost predicate HeldBackBy(e: Event, at: real) {
    (e.Reserved? && at == e.at + 300.0) || (e.Paused? && at == e.until)
  }

  /** No slot is later than it has to be: it is the clock reading, the start of time, or held back by an
      earlier slot or pause. */
  lemma SlotsWasteNoTime(log: seq<Event>, j: nat)
    requires Produced(log) && j < |log| && log[j].Reserved?
    ensures log[j].at == log[j].now || log[j].at == 0.0
            || exists i: nat :: i < j && HeldBackBy(log[i], log[j].at)
  {
    hide Slots;
    var before, now, at := log[..j], log[j].now, log[j].at;
    assert IsSlot(before, now, at);
    assert Allowed(before, now, Max(now, Max(NextFree(before), PausedUntil(before))));
    if at == PausedUntil(before) && at != 0.0 {
      PauseIsSomeones(before);
      var i: nat :| i < |before| && before[i].Paused? && before[i].until == at;
      assert HeldBackBy(log[i], at);
    } else if at == NextFree(before) && Slots(before) != [] {
      SlotIsReserved(before, |Slots(before)| - 1);
      var i: nat :| i < |before| && before[i].Reserved? && before[i].at == Slots(before)[|Slots(before)| - 1];
      assert HeldBackBy(log[i], at);
    }
  }

  // ----- the record and its callers

  datatype Reply = Answered | Failed | RateLimited(retryAfter: Option<real>)

  datatype Outcome = Success | Error(reply: Reply) | Aborted

  /** One attempt: its slot, what came back, and when a rate-limited answer was read. */
  datatype Attempt = Attempt(at: real, reply: Reply, readAt: real)

  function RetryAfter(reply: Reply): real
    requires reply.RateLimited?
  {
    match reply.retryAfter
    case Some(seconds) => seconds
    case None => DEFAULT_RETRY_AFTER
  }

  /** Each attempt but the last was rate limited, and the next slot honours the pause it asked for. */
  ghost predicate Paced(attempts: seq<Attempt>) {
    forall i :: 0 <= i < |attempts| - 1 ==> Follows(attempts[i], attempts[i + 1].at)
  }

  ghost predicate Follows(last: Attempt, at: real) {
    last.reply.RateLimited? && at >= last.at + 300.0
    && at >= last.readAt + (match last.reply.retryAfter case Some(seconds) => seconds * 1000.0 case None => 30_000.0)
  }

  lemma LastSlot(log: seq<Event>, i: nat)
    requires Produced(log) && i < |log| && log[i].Reserved?
    ensures NextFree(log) >= log[i].at + SPACING
  {
    SlotsAreSpaced(log);
    SlotAt(log, i);
  }

  lemma {:induction false} SlotAt(log: seq<Event>, i: nat)
    requires i < |log| && log[i].Reserved?
    ensures exists k: nat :: k < |Slots(log)| && Slots(log)[k] == log[i].at
  {
    var n := |log| - 1;
    if i < n {
      assert log[..n][i] == log[i];
      SlotAt(log[..n], i);
      var k: nat :| k < |Slots(log[..n])| && Slots(log[..n])[k] == log[i].at;
      assert Slots(log)[k] == log[i].at;
    } else {
      assert Slots(log)[|Slots(log)| - 1] == log[i].at;
    }
  }

  lemma Extend(log: seq<Event>, e: Event)
    requires Produced(log) && (e.Reserved? ==> IsSlot(log, e.now, e.at))
    ensures Produced(log + [e])
    ensures PausedUntil(log + [e]) == if e.Paused? then Max(PausedUntil(log), e.until) else PausedUntil(log)
    ensures NextFree(log + [e]) == if e.Reserved? then e.at + SPACING else NextFree(log)
  {
    var all := log + [e];
    assert all[..|log|] == log;
    forall i | 0 <= i < |all| && all[i].Reserved? ensures IsSlot(all[..i], all[i].now, all[i].at) {
      if i < |log| {
        assert all[..i] == log[..i] && all[i] == log[i];
      }
    }
  }

  class Pacing {
    var next: real
    var pausedUntil: real
    ghost var log: seq<Event>

    ghost predicate Valid()
      reads this
    {
      Produced(log) && next == NextFree(log) && pausedUntil == PausedUntil(log)
    }

    constructor ()
      ensures Valid() && log == []
    {
      next, pausedUntil, log := 0.0, 0.0, [];
    }

    /** Reserve the next slot and say how long to wait for it. */
    method Slot(now: real) returns (delay: real)
      requires Valid()
      modifies this
      ensures Valid() && delay >= 0.0
      ensures log == old(log) + [Reserved(now, now + delay)]
      ensures IsSlot(old(log), now, now + delay)
    {
      var at := Max(now, Max(next, pausedUntil));
      next := at + SPACING;
      Extend(log, Reserved(now, at));
      log := log + [Reserved(now, at)];
      delay := at - now;
    }

    /** A rate-limited answer pauses every caller; it never shortens a pause. */
    method Pause(now: real, wait: real)
      requires Valid()
      modifies this
      ensures Valid() && log == old(log) + [Paused(now, now + wait * 1000.0)]
    {
      Extend(log, Paused(now, now + wait * 1000.0));
      pausedUntil := Max(pausedUntil, now + wait * 1000.0);
      log := log + [Paused(now, now + wait * 1000.0)];
    }

    /** Whatever the other callers do while one of them waits. */
    method Others()
      requires Valid()
      modifies this
      ensures Valid() && old(log) <= log
    {
      hide Produced, NextFree, PausedUntil, IsSlot;
      var steps: nat := *;
      while steps > 0
        invariant Valid() && old(log) <= log
      {
        var reserve: bool := *;
        var now: real := *;
        if reserve {
          var _ := Slot(now);
        } else {
          var wait: real := *;
          Pause(now, wait);
        }
        steps := steps - 1;
      }
    }

    /** One request: asked again only after a rate-limited answer, at most eight times in all. */
    method Request() returns (outcome: Outcome, ghost attempts: seq<Attempt>)
      requires Valid()
      modifies this
      ensures Valid() && old(log) <= log
      ensures |attempts| <= 8 && Paced(attempts)
      ensures outcome != Aborted ==> attempts != []
      ensures outcome == Success ==> attempts[|attempts| - 1].reply.Answered?
      ensures outcome.Error? ==> outcome.reply == attempts[|attempts| - 1].reply
                                 && (outcome.reply.Failed?
                                     || (outcome.reply.RateLimited? && |attempts| == 8))
    {
      hide Produced, NextFree, PausedUntil, IsSlot, Follows, RetryAfter;
      attempts := [];
      var attempt := 1;
      while true
        invariant Valid() && old(log) <= log
        invariant |attempts| == attempt - 1 < RATE_LIMIT_ATTEMPTS && Paced(attempts)
        invariant attempts != [] ==> Owed(log, attempts[|attempts| - 1])
        decreases RATE_LIMIT_ATTEMPTS - attempt
      {
        var now: real := *;
        ghost var before := log;
        var delay := Slot(now);
        if attempts != [] {
          OwedIsPaid(before, attempts[|attempts| - 1], now, now + delay);
        }
        ghost var mine := |before|;
        Others();
        var interrupted: bool := *;
        if interrupted {
          return Aborted, attempts;
        }
        var reply: Reply := *;
        var readAt: real := *;
        attempts := attempts + [Attempt(now + delay, reply, readAt)];
        match reply {
          case Answered => return Success, attempts;
          case Failed => return Error(reply), attempts;
          case RateLimited(_) =>
            if attempt >= RATE_LIMIT_ATTEMPTS {
              return Error(reply), attempts;
            }
            Pause(readAt, RetryAfter(reply));
            assert log[mine] == Reserved(now, now + delay);
            Owes(log, mine, attempts[|attempts| - 1]);
        }
        attempt := attempt + 1;
      }
    }
  }

  /** The log holds the attempt's reservation and the pause its answer asked for. */
  ghost predicate Owed(log: seq<Event>, last: Attempt) {
    last.reply.RateLimited?
    && (exists i: nat :: i < |log| && log[i].Reserved? && log[i].at == last.at)
    && exists i: nat :: i < |log| && log[i] == Paused(last.readAt, last.readAt + RetryAfter(last.reply) * 1000.0)
  }

  lemma Owes(log: seq<Event>, i: nat, last: Attempt)
    requires i < |log| - 1 && log[i].Reserved? && log[i].at == last.at && last.reply.RateLimited?
    requires log[|log| - 1] == Paused(last.readAt, last.readAt + RetryAfter(last.reply) * 1000.0)
    ensures Owed(log, last)
  {
  }

  lemma OwedIsPaid(log: seq<Event>, last: Attempt, now: real, at: real)
    requires Produced(log) && Owed(log, last) && IsSlot(log, now, at)
    ensures Follows(last, at)
  {
    var i: nat :| i < |log| && log[i].Reserved? && log[i].at == last.at;
    LastSlot(log, i);
    var p: nat :| p < |log| && log[p] == Paused(last.readAt, last.readAt + RetryAfter(last.reply) * 1000.0);
    PauseIsLatest(log, p);
  }
}
