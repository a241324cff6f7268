/** Spawning an executable that may still be open for writing: a bounded number of retries
    under an optional deadline. */
module BusyRetry {
  import opened Options

  /** Durations in nanoseconds. */
  const RETRY_DELAY: nat := 5_000_000
  const MAX_RETRIES: nat := 20

  datatype Outcome = Spawned(child: nat) | Busy | OtherError(code: int)

  datatype SpawnError = StillBusy | TimedOut | Failed(code: int)

  /** What the loop does that the world can see. */
  datatype Action = ReadClock(now: int) | Attempt(outcome: Outcome) | Sleep(duration: nat)

  function Attempts(trace: seq<Action>): nat {
    if trace == [] then 0
    else Attempts(trace[..|trace| - 1]) + (if trace[|trace| - 1].Attempt? then 1 else 0)
  }

  function Slept(trace: seq<Action>): nat {
    if trace == [] then 0
    else Slept(trace[..|trace| - 1]) + (if trace[|trace| - 1].Sleep? then trace[|trace| - 1].duration else 0)
  }

  /** With a deadline, each attempt comes right after a clock reading before it. */
  ghost predicate OnTime(trace: seq<Action>, deadline: Option<int>) {
    deadline.Some? ==>
      forall i :: 0 <= i < |trace| && trace[i].Attempt? ==>
                    i > 0 && trace[i - 1].ReadClock? && trace[i - 1].now < deadline.value
  }

  /** With a deadline, each sleep comes right after a clock reading and ends by the deadline. */
  ghost predicate WakesInTime(trace: seq<Action>, deadline: Option<int>) {
    deadline.Some? ==>
      forall i :: 0 <= i < |trace| && trace[i].Sleep? ==>
                    i > 0 && trace[i - 1].ReadClock? && trace[i - 1].now + trace[i].duration <= deadline.value
  }

  function Readings(trace: seq<Action>): nat {
    if trace == [] then 0
    else Readings(trace[..|trace| - 1]) + (if trace[|trace| - 1].ReadClock? then 1 else 0)
  }

  /** Each reading is the next one of the clock. */
  ghost predicate FollowsClock(trace: seq<Action>, clock: nat -> int) {
    forall i :: 0 <= i < |trace| && trace[i].ReadClock? ==> trace[i].now == clock(Readings(trace[..i]))
  }

  /** Attempt number k had the k-th outcome, and all but the last were busy. */
  ghost predicate FollowsOutcomes(trace: seq<Action>, outcomes: nat -> Outcome) {
    forall i :: 0 <= i < |trace| && trace[i].Attempt? ==> trace[i].outcome == outcomes(Attempts(trace[..i]))
  }

  ghost predicate AllBusy(outcomes: nat -> Outcome, n: nat) {
    forall k: nat :: k < n ==> outcomes(k) == Busy
  }

  /** What the world will do: the deadline, the k-th clock reading, and what the k-th spawn does. */
  datatype World = World(deadline: Option<int>, clock: nat -> int, outcomes: nat -> Outcome)

  datatype Tally = Tally(readings: nat, attempts: nat, slept: nat)

  function Counted(t: Tally, a: Action): Tally {
    match a
    case ReadClock(_) => t.(readings := t.readings + 1)
    case Attempt(_) => t.(attempts := t.attempts + 1)
    case Sleep(duration) => t.(slept := t.slept + duration)
  }

  /** What the loop keeps: how much it has read, tried and slept, and all of it rightly. */
  ghost predicate Account(trace: seq<Action>, w: World, t: Tally) {
    && Readings(trace) == t.readings && Attempts(trace) == t.attempts && Slept(trace) == t.slept
    && OnTime(trace, w.deadline) && WakesInTime(trace, w.deadline)
    && FollowsClock(trace, w.clock) && FollowsOutcomes(trace, w.outcomes)
  }

  lemma NothingDone(w: World)
    ensures Account([], w, Tally(0, 0, 0))
  {
  }

  lemma AccountMeans(trace: seq<Action>, w: World, t: Tally)
    requires Account(trace, w, t)
    ensures Attempts(trace) == t.attempts && Slept(trace) == t.slept
    ensures OnTime(trace, w.deadline) && WakesInTime(trace, w.deadline)
    ensures FollowsClock(trace, w.clock) && FollowsOutcomes(trace, w.outcomes)
  {
  }

  lemma Act(trace: seq<Action>, a: Action, w: World, t: Tally)
    requires Account(trace, w, t)
    requires a.ReadClock? ==> a.now == w.clock(t.readings)
    requires a.Attempt? ==> a.outcome == w.outcomes(t.attempts)
    requires !a.ReadClock? && w.deadline.Some? ==>
               && trace != [] && trace[|trace| - 1].ReadClock?
               && if a.Attempt? then trace[|trace| - 1].now < w.deadline.value
                  else trace[|trace| - 1].now + a.duration <= w.deadline.value
    ensures Account(trace + [a], w, Counted(t, a))
  {
    var longer := trace + [a];
    assert longer[..|trace|] == trace;
    forall i | 0 <= i < |longer|
      ensures longer[i].Attempt? ==> longer[i].outcome == w.outcomes(Attempts(longer[..i]))
      ensures longer[i].ReadClock? ==> longer[i].now == w.clock(Readings(longer[..i]))
    {
      if i < |trace| {
        assert longer[..i] == trace[..i];
      }
    }
  }

  function Remaining(deadline: int, now: int): nat {
    if now < deadline then deadline - now else 0
  }

  /** The pause after a busy attempt: one delay, or, when no more than that is left before the
      deadline, the rest of it and no further attempt. */
  method Pause(w: World, trace: seq<Action>, ghost t: Tally, reading: nat) returns (goOn: bool, longer: seq<Action>)
    requires Account(trace, w, t) && (w.deadline.Some? ==> reading == t.readings)
    ensures goOn <==> w.deadline.None? || w.deadline.value - w.clock(reading) > RETRY_DELAY
    ensures goOn ==> Account(longer, w, Tally(if w.deadline.Some? then t.readings + 1 else t.readings, t.attempts, t.slept + RETRY_DELAY))
    ensures !goOn ==> Account(longer, w, Tally(t.readings + 1, t.attempts, t.slept + Remaining(w.deadline.value, w.clock(reading))))
  {
    hide Account;
    longer := trace;
    ghost var tally := t;
    if w.deadline.Some? {
      var now := w.clock(reading);
      var remaining := Remaining(w.deadline.value, now);
      Act(longer, ReadClock(now), w, tally);
      longer, tally := longer + [ReadClock(now)], Counted(tally, ReadClock(now));
      if remaining <= RETRY_DELAY {
        if remaining > 0 {
          Act(longer, Sleep(remaining), w, tally);
          longer := longer + [Sleep(remaining)];
        }
        return false, longer;
      }
    }
    Act(longer, Sleep(RETRY_DELAY), w, tally);
    longer := longer + [Sleep(RETRY_DELAY)];
    goOn := true;
  }

  /** The clock check and the attempt that open one round of the loop. */
  method TryOnce(w: World, trace: seq<Action>, ghost t: Tally, reading: nat, retries: nat) returns (outcome: Option<Outcome>, longer: seq<Action>)
    requires Account(trace, w, t) && retries == t.attempts && (w.deadline.Some? ==> reading == t.readings)
    ensures outcome.None? <==> w.deadline.Some? && w.clock(reading) >= w.deadline.value
    ensures outcome.None? ==> Account(longer, w, t.(readings := t.readings + 1))
    ensures outcome.Some? ==>
              && outcome.value == w.outcomes(retries)
              && Account(longer, w, Tally(if w.deadline.Some? then t.readings + 1 else t.readings, t.attempts + 1, t.slept))
  {
    hide Account;
    longer := trace;
    ghost var tally := t;
    if w.deadline.Some? {
      var now := w.clock(reading);
      Act(longer, ReadClock(now), w, tally);
      longer, tally := longer + [ReadClock(now)], Counted(tally, ReadClock(now));
      if now >= w.deadline.value {
        return None, longer;
      }
    }
    Act(longer, Attempt(w.outcomes(retries)), w, tally);
    longer := longer + [Attempt(w.outcomes(retries))];
    outcome := Some(w.outcomes(retries));
  }

  /** How the loop ends after `n` attempts and the given sleep. The clock is read before and
      after each attempt. */
  ghost predicate EndsRightly(r: Result<nat, SpawnError>, n: nat, slept: nat, w: World) {
    && AllBusy(w.outcomes, if n == 0 then 0 else n - 1)
    && match r
       case Ok(child) => n > 0 && w.outcomes(n - 1) == Spawned(child) && slept == (n - 1) * 5_000_000
       case Err(Failed(code)) => n > 0 && w.outcomes(n - 1) == OtherError(code) && slept == (n - 1) * 5_000_000
       case Err(TimedOut) => n == 0 && slept == 0 && w.deadline.Some? && w.clock(0) >= w.deadline.value
       case Err(StillBusy) =>
         && n > 0 && w.outcomes(n - 1) == Busy
         && (|| (n == 21 && slept == 20 * 5_000_000)
             || (w.deadline.Some? && GaveUp(n, slept, w.deadline.value, w.clock)))
  }

  /** No more than one delay was left after attempt `n`, and that was slept; or at the next check
      nothing was left. */
  ghost predicate GaveUp(n: nat, slept: nat, deadline: int, clock: nat -> int)
    requires n > 0
  {
    || (clock(2 * n - 1) + 5_000_000 >= deadline && slept == (n - 1) * 5_000_000 + Remaining(deadline, clock(2 * n - 1)))
    || (clock(2 * n) >= deadline && slept == n * 5_000_000)
  }

  /** `spawn_with_busy_retry`: it stops at the first outcome that is not busy, or at a limit. */
  method SpawnWithBusyRetry(w: World) returns (r: Result<nat, SpawnError>, trace: seq<Action>)
    ensures Attempts(trace) <= 21 && Slept(trace) <= 100_000_000
    ensures OnTime(trace, w.deadline) && WakesInTime(trace, w.deadline)
    ensures FollowsClock(trace, w.clock) && FollowsOutcomes(trace, w.outcomes)
    ensures EndsRightly(r, Attempts(trace), Slept(trace), w)
  {
    hide Account, OnTime, WakesInTime, FollowsClock, FollowsOutcomes, Attempts, Slept, Readings;
    var retries := 0;
    var lastBusy := false;
    ghost var t := Tally(0, 0, 0);
    trace := [];
    NothingDone(w);
    while true
      invariant retries <= MAX_RETRIES && lastBusy == (retries > 0)
      invariant t == Tally(if w.deadline.Some? then 2 * retries else 0, retries, retries * RETRY_DELAY)
      invariant Account(trace, w, t) && AllBusy(w.outcomes, retries)
      decreases MAX_RETRIES - retries
    {
      var outcome;
      outcome, trace := TryOnce(w, trace, t, 2 * retries, retries);
      if outcome.None? {
        AccountMeans(trace, w, t.(readings := t.readings + 1));
        return Err(if lastBusy then StillBusy else TimedOut), trace;
      }
      t := Tally(if w.deadline.Some? then t.readings + 1 else t.readings, t.attempts + 1, t.slept);
      AccountMeans(trace, w, t);
      if outcome.value != Busy || retries == MAX_RETRIES {
        match outcome.value {
          case Spawned(child) => return Ok(child), trace;
          case Busy => return Err(StillBusy), trace;
          case OtherError(code) => return Err(Failed(code)), trace;
        }
      }
      var goOn;
      goOn, trace := Pause(w, trace, t, 2 * retries + 1);
      if !goOn {
        AccountMeans(trace, w, Tally(t.readings + 1, t.attempts, t.slept + Remaining(w.deadline.value, w.clock(2 * retries + 1))));
        return Err(StillBusy), trace;
      }
      retries, lastBusy := retries + 1, true;
      t := Tally(if w.deadline.Some? then t.readings + 1 else t.readings, t.attempts, t.slept + RETRY_DELAY);
    }
  }
}
