/**
 The circuit breaker around database calls. A call is admitted under the lock, runs
 outside it, and reports its outcome under the lock again; any number of calls overlap.
 */
module CircuitBreaker {
  import opened Prelude

  datatype Mode = CLOSED | OPEN | HALF_OPEN

  datatype Breaker = Breaker(mode: Mode, failureCount: nat, lastFailure: Option<real>)

  datatype Config = Config(failureThreshold: nat, recoveryTimeout: real)

  const Fresh := Breaker(CLOSED, 0, None)

  predicate Waited(c: Config, b: Breaker, now: real) {
    b.lastFailure.Some? && now - b.lastFailure.value > c.recoveryTimeout
  }

  /** The admission under the lock. */
  function Admitted(c: Config, b: Breaker, now: real): (bool, Breaker) {
    if b.mode != OPEN then (true, b)
    else if Waited(c, b, now) then (true, b.(mode := HALF_OPEN))
    else (false, b)
  }

  function Succeeded(b: Breaker): Breaker {
    if b.mode == HALF_OPEN then b.(mode := CLOSED, failureCount := 0) else b
  }

  function Failed(c: Config, b: Breaker, now: real): Breaker {
    var count := b.failureCount + 1;
    Breaker(if count >= c.failureThreshold then OPEN else b.mode, count, Some(now))
  }

  class CircuitBreaker {
    const config: Config
    var mode: Mode
    var failureCount: nat
    var lastFailure: Option<real>

    ghost function View(): Breaker
      reads this
    {
      Breaker(mode, failureCount, lastFailure)
    }

    constructor (config: Config)
      ensures this.config == config && View() == Fresh
    {
      this.config, mode, failureCount, lastFailure := config, CLOSED, 0, None;
    }

    /** An open breaker always has a latest failure, so the subtraction is safe. */
    method Enter(now: real) returns (ok: bool)
      requires mode == OPEN ==> lastFailure.Some?
      modifies this`mode
      ensures (ok, View()) == Admitted(config, old(View()), now)
    {
      if mode == OPEN {
        if now - lastFailure.value > config.recoveryTimeout {
          mode := HALF_OPEN;
        } else {
          return false;
        }
      }
      return true;
    }

    method OnSuccess()
      modifies this
      ensures View() == Succeeded(old(View()))
    {
      if mode == HALF_OPEN {
        mode := CLOSED;
        failureCount := 0;
      }
    }

    method OnFailure(now: real)
      modifies this
      ensures View() == Failed(config, old(View()), now)
    {
      failureCount := failureCount + 1;
      lastFailure := Some(now);
      if failureCount >= config.failureThreshold {
        mode := OPEN;
      }
    }
  }

  // ---- overlapping calls ----

  type CallId = nat

  datatype Event =
    | Start(call: CallId, now: real, ok: bool)
    | Success(call: CallId, now: real)
    | Failure(call: CallId, now: real)     // an expected exception
    | Uncounted(call: CallId, now: real)   // any other exception: passes through the breaker

  /** The breaker, and each call in flight with the number of the event that started it. */
  datatype System = System(breaker: Breaker, inFlight: map<CallId, nat>)

  ghost predicate Next(c: Config, s: System, n: nat, e: Event, s': System) {
    match e
    case Start(id, now, ok) =>
      && id !in s.inFlight
      && (ok, s'.breaker) == Admitted(c, s.breaker, now)
      && s'.inFlight == if ok then s.inFlight[id := n] else s.inFlight
    case Success(id, _) => id in s.inFlight && s' == System(Succeeded(s.breaker), s.inFlight - {id})
    case Failure(id, now) => id in s.inFlight && s' == System(Failed(c, s.breaker, now), s.inFlight - {id})
    case Uncounted(id, _) => id in s.inFlight && s' == s.(inFlight := s.inFlight - {id})
  }

  ghost predicate IsRun(c: Config, states: seq<System>, events: seq<Event>) {
    && |states| == |events| + 1
    && states[0] == System(Fresh, map[])
    && (forall i :: 0 < i < |events| ==> events[i - 1].now <= events[i].now)
    && forall i :: 0 <= i < |events| ==> Next(c, states[i], i, events[i], states[i + 1])
  }

  /** The time of the latest counted failure among `events`. */
  function LatestFailure(events: seq<Event>): Option<real> {
    if events == [] then None
    else if events[|events| - 1].Failure? then Some(events[|events| - 1].now)
    else LatestFailure(events[..|events| - 1])
  }

  /** Closed exactly below the threshold; the last failure time is the latest counted failure; a half-open
      breaker has waited since then. */
  ghost predicate Consistent(c: Config, b: Breaker, events: seq<Event>) {
    && (b.mode == CLOSED <==> b.failureCount < c.failureThreshold)
    && b.lastFailure == LatestFailure(events)
    && (b.failureCount > 0 ==> b.lastFailure.Some?)
    && (b.mode == HALF_OPEN ==> events != [] && Waited(c, b, events[|events| - 1].now))
  }

  lemma {:induction false} ReachableConsistent(c: Config, states: seq<System>, events: seq<Event>, n: nat)
    requires c.failureThreshold >= 1 && IsRun(c, states, events) && n <= |events|
    ensures Consistent(c, states[n].breaker, events[..n])
  {
    if n > 0 {
      ReachableConsistent(c, states, events, n - 1);
      assert events[..n][..n - 1] == events[..n - 1];
      assert Next(c, states[n - 1], n - 1, events[n - 1], states[n]);
      assert n > 1 ==> events[n - 2].now <= events[n - 1].now;
    }
  }

  /** In every reachable state, under any overlap of calls, the breaker is closed exactly below the threshold,
      and a counted failure while half-open reopens it. */
  lemma ClosedIffBelowThreshold(c: Config, states: seq<System>, events: seq<Event>, n: nat)
    requires c.failureThreshold >= 1 && IsRun(c, states, events) && n <= |events|
    ensures states[n].breaker.mode == CLOSED <==> states[n].breaker.failureCount < c.failureThreshold
    ensures n < |events| && states[n].breaker.mode != CLOSED && events[n].Failure? ==> states[n + 1].breaker.mode == OPEN
  {
    ReachableConsistent(c, states, events, n);
    if n < |events| {
      assert Next(c, states[n], n, events[n], states[n + 1]);
    }
  }

  /** No call starts on a breaker that is not closed until more than the recovery timeout after the latest
      counted failure; a call is refused exactly while that time has not passed on an open breaker. */
  lemma StartsOnlyAfterTimeout(c: Config, states: seq<System>, events: seq<Event>, n: nat)
    requires c.failureThreshold >= 1 && IsRun(c, states, events) && n < |events| && events[n].Start?
    ensures states[n].breaker.mode != CLOSED ==> LatestFailure(events[..n]).Some?
    ensures events[n].ok <==>
            states[n].breaker.mode == CLOSED || events[n].now - LatestFailure(events[..n]).value > c.recoveryTimeout
  {
    ReachableConsistent(c, states, events, n);
    assert Next(c, states[n], n, events[n], states[n + 1]);
    assert n > 0 ==> events[..n][n - 1] == events[n - 1] && events[n - 1].now <= events[n].now;
  }

  /** No success closed the breaker between two points of a run. */
  ghost predicate NoRecovery(states: seq<System>, events: seq<Event>, from: nat, to: nat)
    requires from <= to <= |events| < |states|
  {
    forall i :: from <= i < to && events[i].Success? ==> states[i].breaker.mode != HALF_OPEN
  }

  /** The counted failures from position `m` on, before position `n`. */
  ghost function FailuresIn(events: seq<Event>, m: nat, n: nat): set<int>
    requires n <= |events|
  {
    set i | m <= i < n && events[i].Failure?
  }

  lemma {:induction false} OneMoreFailure(events: seq<Event>, m: nat, n: nat)
    requires m < n <= |events|
    ensures |FailuresIn(events, m, n)| == |FailuresIn(events, m, n - 1)| + if events[n - 1].Failure? then 1 else 0
  {
    assert FailuresIn(events, m, n) == FailuresIn(events, m, n - 1) + if events[n - 1].Failure? then {n - 1} else {};
  }

  lemma {:induction false} CountAccumulates(c: Config, states: seq<System>, events: seq<Event>, m: nat, n: nat)
    requires IsRun(c, states, events) && m <= n <= |events| && NoRecovery(states, events, m, n)
    ensures states[n].breaker.failureCount == states[m].breaker.failureCount + |FailuresIn(events, m, n)|
  {
    if m < n {
      CountAccumulates(c, states, events, m, n - 1);
      assert Next(c, states[n - 1], n - 1, events[n - 1], states[n]);
      OneMoreFailure(events, m, n);
    } else {
      assert FailuresIn(events, m, n) == {};
    }
  }

  /** The count adds up every counted failure since the last recovery: successes of a closed breaker do not
      reset it, so the failures that trip it need not be consecutive. */
  lemma {:induction false} FailuresAccumulate(c: Config, states: seq<System>, events: seq<Event>, m: nat, n: nat)
    requires IsRun(c, states, events) && m <= n <= |events| && NoRecovery(states, events, m, n)
    ensures states[n].breaker.failureCount
         == states[m].breaker.failureCount + |set i | m <= i < n && events[i].Failure?|
  {
    CountAccumulates(c, states, events, m, n);
    assert FailuresIn(events, m, n) == set i | m <= i < n && events[i].Failure?;
  }

  /** From a closed breaker with a cleared count, it has tripped exactly when the threshold has been reached. */
  lemma TripsExactlyAtThreshold(c: Config, states: seq<System>, events: seq<Event>, m: nat, n: nat)
    requires c.failureThreshold >= 1 && IsRun(c, states, events) && m <= n <= |events|
    requires states[m].breaker.failureCount == 0 && NoRecovery(states, events, m, n)
    ensures states[n].breaker.mode != CLOSED <==> |set i | m <= i < n && events[i].Failure?| >= c.failureThreshold
  {
    FailuresAccumulate(c, states, events, m, n);
    ClosedIffBelowThreshold(c, states, events, n);
  }

  // ---- who closes a half-open breaker ----

  /** The call was admitted in the half-open period that is still going on at point `n`. */
  ghost predicate Probe(states: seq<System>, n: nat, id: CallId)
    requires n < |states| && id in states[n].inFlight
  {
    forall i :: states[n].inFlight[id] < i <= n ==> states[i].breaker.mode == HALF_OPEN
  }

  /** Every call in flight was started, and let in, by the event it is filed under. */
  lemma {:induction false} StartedBy(c: Config, states: seq<System>, events: seq<Event>, n: nat, id: CallId)
    requires IsRun(c, states, events) && n <= |events| && id in states[n].inFlight
    ensures var k := states[n].inFlight[id];
            k < n && events[k].Start? && events[k].call == id && events[k].ok
  {
    assert Next(c, states[n - 1], n - 1, events[n - 1], states[n]);
    if id in states[n - 1].inFlight {
      StartedBy(c, states, events, n - 1, id);
    }
  }

  /** Without a counted failure, a closed breaker stays closed and none opens. */
  lemma {:induction false} QuietStays(c: Config, states: seq<System>, events: seq<Event>, m: nat, n: nat)
    requires c.failureThreshold >= 1 && IsRun(c, states, events) && m <= n <= |events|
    requires forall i :: m <= i < n ==> !events[i].Failure?
    ensures states[m].breaker.mode == CLOSED ==> states[n].breaker.mode == CLOSED
    ensures states[m].breaker.mode != OPEN ==> states[n].breaker.mode != OPEN
  {
    if m < n {
      QuietStays(c, states, events, m, n - 1);
      assert Next(c, states[n - 1], n - 1, events[n - 1], states[n]);
    }
  }

  /** A call in flight on a half-open breaker is a probe exactly when no failure has been counted since it started. */
  lemma ProbeIff(c: Config, states: seq<System>, events: seq<Event>, n: nat, id: CallId)
    requires c.failureThreshold >= 1 && IsRun(c, states, events) && n <= |events|
    requires states[n].breaker.mode == HALF_OPEN && id in states[n].inFlight
    ensures Probe(states, n, id) <==> forall i :: states[n].inFlight[id] <= i < n ==> !events[i].Failure?
  {
    var k := states[n].inFlight[id];
    StartedBy(c, states, events, n, id);
    if Probe(states, n, id) {
      forall i | k <= i < n ensures !events[i].Failure? {
        ClosedIffBelowThreshold(c, states, events, i);
      }
    } else if forall i :: k <= i < n ==> !events[i].Failure? {
      assert Next(c, states[k], k, events[k], states[k + 1]);
      var i :| k < i <= n && states[i].breaker.mode != HALF_OPEN;
      QuietStays(c, states, events, k + 1, i);
      QuietStays(c, states, events, i, n);
    }
  }

  lemma {:induction false} LatestFailureAt(events: seq<Event>) returns (m: nat)
    requires LatestFailure(events).Some?
    ensures m < |events| && events[m].Failure? && LatestFailure(events) == Some(events[m].now)
    ensures forall i :: m < i < |events| ==> !events[i].Failure?
  {
    if events[|events| - 1].Failure? {
      m := |events| - 1;
    } else {
      m := LatestFailureAt(events[..|events| - 1]);
    }
  }

  lemma {:induction false} ClockMonotone(c: Config, states: seq<System>, events: seq<Event>, i: nat, j: nat)
    requires IsRun(c, states, events) && i <= j < |events|
    ensures events[i].now <= events[j].now
  {
    if i < j {
      ClockMonotone(c, states, events, i, j - 1);
    }
  }

  /** By the clock: a call in flight is a probe exactly when it started after the latest counted failure. */
  lemma ProbeIffStartedLater(c: Config, states: seq<System>, events: seq<Event>, n: nat, id: CallId)
    requires c.failureThreshold >= 1 && c.recoveryTimeout >= 0.0 && IsRun(c, states, events) && n <= |events|
    requires states[n].breaker.mode == HALF_OPEN && id in states[n].inFlight
    ensures states[n].inFlight[id] < n && states[n].breaker.lastFailure.Some?
    ensures Probe(states, n, id) <==> events[states[n].inFlight[id]].now > states[n].breaker.lastFailure.value
  {
    var k := states[n].inFlight[id];
    StartedBy(c, states, events, n, id);
    ProbeIff(c, states, events, n, id);
    ReachableConsistent(c, states, events, n);
    var m := LatestFailureAt(events[..n]);
    if m < k {
      StartsAfterFailure(c, states, events, m, k, n);
    } else {
      assert events[m].Failure?;
      ClockMonotone(c, states, events, k, m);
    }
  }

  /** Between the latest failure and a half-open breaker, whoever is let in has waited. */
  lemma StartsAfterFailure(c: Config, states: seq<System>, events: seq<Event>, m: nat, k: nat, n: nat)
    requires c.failureThreshold >= 1 && c.recoveryTimeout >= 0.0 && IsRun(c, states, events)
    requires m < k < n <= |events| && events[m].Failure? && events[k].Start? && events[k].ok
    requires forall i :: m < i < n ==> !events[i].Failure?
    requires states[n].breaker.mode == HALF_OPEN
    ensures events[k].now > events[m].now
  {
    QuietStays(c, states, events, k, n);
    StartsOnlyAfterTimeout(c, states, events, k);
    LatestIs(events, m, k);
  }

  lemma {:induction false} LatestIs(events: seq<Event>, m: nat, k: nat)
    requires m < k <= |events| && events[m].Failure? && forall i :: m < i < k ==> !events[i].Failure?
    ensures LatestFailure(events[..k]) == Some(events[m].now)
  {
    if m < k - 1 {
      LatestIs(events, m, k - 1);
      assert events[..k][..k - 1] == events[..k - 1];
    }
  }

  /** Whichever call in flight succeeds next closes a half-open breaker. Every possible closer is a probe
      exactly when every call in flight started after the latest counted failure. */
  lemma OnlyProbesCloseIff(c: Config, states: seq<System>, events: seq<Event>, n: nat)
    requires c.failureThreshold >= 1 && c.recoveryTimeout >= 0.0 && IsRun(c, states, events) && n <= |events|
    requires states[n].breaker.mode == HALF_OPEN
    ensures states[n].breaker.lastFailure.Some?
    ensures forall id :: id in states[n].inFlight ==> states[n].inFlight[id] < |events|
    ensures (forall id :: id in states[n].inFlight ==> Probe(states, n, id))
       <==> (forall id :: id in states[n].inFlight ==>
               events[states[n].inFlight[id]].now > states[n].breaker.lastFailure.value)
    ensures n < |events| && events[n].Success? ==> states[n + 1].breaker.mode == CLOSED
  {
    ReachableConsistent(c, states, events, n);
    forall id | id in states[n].inFlight
      ensures states[n].inFlight[id] < |events|
      ensures Probe(states, n, id) <==> events[states[n].inFlight[id]].now > states[n].breaker.lastFailure.value
    {
      ProbeIffStartedLater(c, states, events, n, id);
    }
    if n < |events| {
      assert Next(c, states[n], n, events[n], states[n + 1]);
    }
  }

  /** Call 0, started on the closed breaker and still in flight, closes the half-open breaker after the trip,
      while the only probe, call 2, is still out. */
  lemma StaleSuccessCloses() returns (c: Config, states: seq<System>, events: seq<Event>)
    ensures c.failureThreshold >= 1 && IsRun(c, states, events) && |events| == 5
    ensures events[0] == Start(0, events[0].now, true) && states[1].breaker.mode == CLOSED
    ensures states[3].breaker.mode == OPEN && states[4].breaker.mode == HALF_OPEN
    ensures 0 in states[4].inFlight && states[4].inFlight[0] == 0 && !Probe(states, 4, 0)
    ensures 2 in states[4].inFlight && Probe(states, 4, 2)
    ensures events[4].Success? && events[4].call == 0
    ensures states[5].breaker.mode == CLOSED && 2 in states[5].inFlight
  {
    c := Config(1, 60.0);
    events := [Start(0, 0.0, true), Start(1, 0.0, true), Failure(1, 1.0), Start(2, 62.0, true), Success(0, 62.0)];
    var tripped := Breaker(OPEN, 1, Some(1.0));
    states := [System(Fresh, map[]), System(Fresh, map[0 := 0]), System(Fresh, map[0 := 0, 1 := 1]),
               System(tripped, map[0 := 0]), System(tripped.(mode := HALF_OPEN), map[0 := 0, 2 := 3]),
               System(Breaker(CLOSED, 0, Some(1.0)), map[2 := 3])];
    assert Next(c, states[0], 0, events[0], states[1]) && Next(c, states[1], 1, events[1], states[2]);
    assert Next(c, states[2], 2, events[2], states[3]) && Next(c, states[3], 3, events[3], states[4]);
    assert Next(c, states[4], 4, events[4], states[5]);
    assert states[1].breaker.mode != HALF_OPEN;
  }
}
