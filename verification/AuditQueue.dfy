/**
 The audit logger's queue: events are queued, swapped out by a flush, saved as one batch,
 and put back in front when the save raises.
 */
module AuditQueue {
  import opened Prelude

  /** An event; `direct` ones are saved at once, past the queue. */
  datatype Event = Event(id: string, direct: bool)

  /** A flush between its swap and its end: its batch, and whether the save has raised. */
  datatype Flight = Flight(pending: seq<Event>, failed: bool)

  datatype State = State(
    queue: seq<Event>,
    flights: seq<Flight>,   // one per flush in progress
    stored: seq<Event>,
    logged: seq<Event>)     // history: every event whose logging went through, in order

  datatype Action =
    | Enqueue(e: Event)
    | SaveDirect(e: Event)
    | Swap
    | Commit(f: nat)
    | Raise(f: nat)
    | Requeue(f: nat)

  const Init := State([], [], [], [])

  ghost predicate Enabled(s: State, a: Action) {
    match a
    case Enqueue(e) => !e.direct
    case SaveDirect(e) => e.direct
    case Swap => s.queue != []
    case Commit(f) => f < |s.flights| && !s.flights[f].failed
    case Raise(f) => f < |s.flights| && !s.flights[f].failed
    case Requeue(f) => f < |s.flights| && s.flights[f].failed
  }

  function Without(flights: seq<Flight>, f: nat): seq<Flight>
    requires f < |flights|
  {
    flights[..f] + flights[f + 1..]
  }

  ghost function Step(s: State, a: Action): State
    requires Enabled(s, a)
  {
    match a
    case Enqueue(e) => s.(queue := s.queue + [e], logged := s.logged + [e])
    case SaveDirect(e) => s.(stored := s.stored + [e], logged := s.logged + [e])
    case Swap => s.(queue := [], flights := s.flights + [Flight(s.queue, false)])
    case Commit(f) => s.(stored := s.stored + s.flights[f].pending, flights := Without(s.flights, f))
    case Raise(f) => s.(flights := s.flights[f := s.flights[f].(failed := true)])
    case Requeue(f) => s.(queue := s.flights[f].pending + s.queue, flights := Without(s.flights, f))
  }

  ghost predicate IsRun(states: seq<State>, actions: seq<Action>) {
    && |states| == |actions| + 1
    && states[0] == Init
    && forall i :: 0 <= i < |actions| ==> Enabled(states[i], actions[i]) && states[i + 1] == Step(states[i], actions[i])
  }

  function InFlight(flights: seq<Flight>): seq<Event> {
    if flights == [] then [] else flights[0].pending + InFlight(flights[1..])
  }

  lemma {:induction false} InFlightConcat(a: seq<Flight>, b: seq<Flight>)
    ensures InFlight(a + b) == InFlight(a) + InFlight(b)
  {
    if a == [] {
      assert a + b == b;
    } else {
      assert (a + b)[1..] == a[1..] + b;
      InFlightConcat(a[1..], b);
    }
  }

  lemma {:induction false} InFlightOne(f: Flight)
    ensures InFlight([f]) == f.pending
  {
    assert [f][1..] == [];
  }

  /** What a flight contributes, wherever it stands. */
  lemma {:induction false} InFlightSplit(flights: seq<Flight>, f: nat)
    requires f < |flights|
    ensures InFlight(flights) == InFlight(flights[..f]) + flights[f].pending + InFlight(flights[f + 1..])
    ensures InFlight(Without(flights, f)) == InFlight(flights[..f]) + InFlight(flights[f + 1..])
  {
    var front, rest := flights[..f], flights[f + 1..];
    assert flights == front + ([flights[f]] + rest);
    assert ([flights[f]] + rest)[1..] == rest;
    InFlightConcat(front, [flights[f]] + rest);
    InFlightConcat(front, rest);
    assert InFlight([flights[f]] + rest) == flights[f].pending + InFlight(rest);
  }

  ghost predicate Conserved(s: State) {
    multiset(s.logged) == multiset(s.stored) + multiset(InFlight(s.flights)) + multiset(s.queue)
  }

  lemma {:induction false} RaiseKeepsInFlight(flights: seq<Flight>, f: nat)
    requires f < |flights|
    ensures InFlight(flights[f := flights[f].(failed := true)]) == InFlight(flights)
  {
    var after := flights[f := flights[f].(failed := true)];
    InFlightSplit(flights, f);
    InFlightSplit(after, f);
    assert after[..f] == flights[..f] && after[f + 1..] == flights[f + 1..];
  }

  lemma {:induction false} EndConserves(s: State, f: nat)
    requires Conserved(s) && f < |s.flights|
    ensures multiset(s.logged) == multiset(s.stored) + multiset(s.flights[f].pending)
                                  + multiset(InFlight(Without(s.flights, f))) + multiset(s.queue)
  {
    InFlightSplit(s.flights, f);
    var front, rest := InFlight(s.flights[..f]), InFlight(s.flights[f + 1..]);
    var pending := s.flights[f].pending;
    assert multiset(front + pending + rest) == multiset(front) + multiset(pending) + multiset(rest);
    assert multiset(front + rest) == multiset(front) + multiset(rest);
  }

  lemma {:induction false} StepConserves(s: State, a: Action)
    requires Conserved(s) && Enabled(s, a)
    ensures Conserved(Step(s, a))
  {
    match a {
      case Swap =>
        InFlightConcat(s.flights, [Flight(s.queue, false)]);
        InFlightOne(Flight(s.queue, false));
      case Commit(f) => EndConserves(s, f);
      case Requeue(f) => EndConserves(s, f);
      case Raise(f) => RaiseKeepsInFlight(s.flights, f);
      case _ =>
    }
  }

  /** No interleaving of logs and flushes loses or duplicates an event, whether saves commit or raise. */
  lemma {:induction false} NothingLost(states: seq<State>, actions: seq<Action>, n: nat)
    requires IsRun(states, actions) && n <= |actions|
    ensures Conserved(states[n])
  {
    if n > 0 {
      NothingLost(states, actions, n - 1);
      StepConserves(states[n - 1], actions[n - 1]);
    }
  }

  /** The history counts each event as often as it has been logged. */
  lemma {:induction false} LoggedCounts(states: seq<State>, actions: seq<Action>, n: nat, e: Event)
    requires IsRun(states, actions) && n <= |actions|
    ensures multiset(states[n].logged)[e] == |Positions(actions, n, (a: Action) => a == Enqueue(e) || a == SaveDirect(e))|
  {
    if n > 0 {
      LoggedCounts(states, actions, n - 1, e);
      PositionsSnoc(actions, n, (a: Action) => a == Enqueue(e) || a == SaveDirect(e));
      assert states[n] == Step(states[n - 1], actions[n - 1]);
    }
  }

  /** On every run each event is stored, in flight or queued exactly as often as it has been logged. */
  lemma {:induction false} EachEventOnce(states: seq<State>, actions: seq<Action>, n: nat, e: Event)
    requires IsRun(states, actions) && n <= |actions|
    ensures multiset(states[n].stored)[e] + multiset(InFlight(states[n].flights))[e] + multiset(states[n].queue)[e]
         == |set i | 0 <= i < n && (actions[i] == Enqueue(e) || actions[i] == SaveDirect(e))|
  {
    NothingLost(states, actions, n);
    LoggedCounts(states, actions, n, e);
    assert Positions(actions, n, (a: Action) => a == Enqueue(e) || a == SaveDirect(e))
        == set i | 0 <= i < n && (actions[i] == Enqueue(e) || actions[i] == SaveDirect(e));
  }

  /** The queued events among `events`, in order. */
  function Queued(events: seq<Event>): seq<Event> {
    if events == [] then []
    else Queued(events[..|events| - 1]) + if events[|events| - 1].direct then [] else [events[|events| - 1]]
  }

  lemma {:induction false} QueuedConcat(a: seq<Event>, b: seq<Event>)
    ensures Queued(a + b) == Queued(a) + Queued(b)
  {
    if b == [] {
      assert a + b == a;
    } else {
      assert (a + b)[..|a + b| - 1] == a + b[..|b| - 1];
      QueuedConcat(a, b[..|b| - 1]);
    }
  }

  ghost predicate NoneDirect(events: seq<Event>) {
    forall i :: 0 <= i < |events| ==> !events[i].direct
  }

  lemma {:induction false} QueuedAll(events: seq<Event>)
    requires NoneDirect(events)
    ensures Queued(events) == events
  {
    if events != [] {
      QueuedAll(events[..|events| - 1]);
    }
  }

  lemma {:induction false} QueuedSnoc(events: seq<Event>, e: Event)
    ensures Queued(events + [e]) == Queued(events) + if e.direct then [] else [e]
  {
    assert (events + [e])[..|events|] == events;
  }

  // ---- the order of the queued events ----

  /** What every run keeps: nothing direct is queued or in flight, and no flush flies with an empty batch. */
  ghost predicate Shape(s: State) {
    && NoneDirect(s.queue)
    && forall f :: 0 <= f < |s.flights| ==> s.flights[f].pending != [] && NoneDirect(s.flights[f].pending)
  }

  /** Stored, then in flight, then queued: the queued events stand in the order they were logged. */
  ghost predicate Ordered(s: State) {
    Queued(s.stored) + InFlight(s.flights) + s.queue == Queued(s.logged)
  }

  /** Saves commit from the oldest flush on, and failed batches come back from the newest on. */
  ghost predicate Orderly(s: State, a: Action)
    requires Enabled(s, a)
  {
    match a
    case Commit(f) => f == 0
    case Requeue(f) => f == |s.flights| - 1
    case _ => true
  }

  lemma {:induction false} ShapeKept(s: State, a: Action)
    requires Shape(s) && Enabled(s, a)
    ensures Shape(Step(s, a))
  {
    if a.Commit? || a.Requeue? {
      var rest := Without(s.flights, a.f);
      assert forall f :: 0 <= f < |rest| ==> rest[f] == s.flights[if f < a.f then f else f + 1];
    }
  }

  lemma {:induction false} RunShape(states: seq<State>, actions: seq<Action>, n: nat)
    requires IsRun(states, actions) && n <= |actions|
    ensures Shape(states[n])
  {
    if n > 0 {
      RunShape(states, actions, n - 1);
      ShapeKept(states[n - 1], actions[n - 1]);
    }
  }

  /** Only an empty line of flushes has nothing in flight. */
  lemma {:induction false} InFlightEmptyIff(flights: seq<Flight>)
    requires forall f :: 0 <= f < |flights| ==> flights[f].pending != []
    ensures InFlight(flights) == [] <==> flights == []
  {
    if flights != [] {
      assert InFlight(flights) == flights[0].pending + InFlight(flights[1..]);
    }
  }

  /** The five stretches of the order: stored, older flushes, this one, newer flushes, queue. */
  lemma {:induction false} OrderedAround(s: State, f: nat)
    requires f < |s.flights|
    ensures Ordered(s) <==>
            Queued(s.stored) + InFlight(s.flights[..f]) + s.flights[f].pending + InFlight(s.flights[f + 1..]) + s.queue
            == Queued(s.logged)
  {
    InFlightSplit(s.flights, f);
    var older, newer := InFlight(s.flights[..f]), InFlight(s.flights[f + 1..]);
    assert Queued(s.stored) + (older + s.flights[f].pending + newer)
        == Queued(s.stored) + older + s.flights[f].pending + newer;
  }

  lemma {:induction false} OrderedAfterCommit(s: State, f: nat)
    requires Shape(s) && Enabled(s, Commit(f))
    ensures Ordered(Step(s, Commit(f))) <==>
            Queued(s.stored) + s.flights[f].pending + InFlight(s.flights[..f]) + InFlight(s.flights[f + 1..]) + s.queue
            == Queued(s.logged)
  {
    var older, newer := InFlight(s.flights[..f]), InFlight(s.flights[f + 1..]);
    var after := Step(s, Commit(f));
    var first := Queued(s.stored) + s.flights[f].pending;
    assert Queued(after.stored) == first by {
      QueuedConcat(s.stored, s.flights[f].pending);
      QueuedAll(s.flights[f].pending);
    }
    assert InFlight(after.flights) == older + newer by {
      InFlightSplit(s.flights, f);
    }
    assert first + (older + newer) == first + older + newer;
  }

  lemma {:induction false} OrderedAfterRequeue(s: State, f: nat)
    requires Enabled(s, Requeue(f))
    ensures Ordered(Step(s, Requeue(f))) <==>
            Queued(s.stored) + InFlight(s.flights[..f]) + InFlight(s.flights[f + 1..]) + s.flights[f].pending + s.queue
            == Queued(s.logged)
  {
    InFlightSplit(s.flights, f);
    var older, newer := InFlight(s.flights[..f]), InFlight(s.flights[f + 1..]);
    assert Queued(s.stored) + (older + newer) + (s.flights[f].pending + s.queue)
        == Queued(s.stored) + older + newer + s.flights[f].pending + s.queue;
  }

  /** Two neighbouring stretches of a line without repeats can trade places only when one is empty. */
  lemma {:induction false} TradePlaces(x: seq<Event>, a: seq<Event>, b: seq<Event>, y: seq<Event>, z: seq<Event>)
    requires Distinct(x + a + b + y + z)
    ensures x + a + b + y + z == x + b + a + y + z <==> a == [] || b == []
  {
    var line := x + a + b + y + z;
    if a == [] {
      assert x + a == x && x + b + a == x + b;
    } else if b == [] {
      assert x + a + b == x + a && x + b == x;
    } else {
      assert line[|x|] == a[0] && line[|x| + |a|] == b[0];
      assert (x + b + a + y + z)[|x|] == b[0];
      assert line[|x|] != line[|x| + |a|];
    }
  }

  lemma {:induction false} AppendOrdered(s: State, a: Action)
    requires Ordered(s) && Enabled(s, a) && (a.Enqueue? || a.SaveDirect?)
    ensures Ordered(Step(s, a))
  {
    QueuedSnoc(s.logged, a.e);
    if a.SaveDirect? {
      QueuedSnoc(s.stored, a.e);
    } else {
      var front := Queued(s.stored) + InFlight(s.flights);
      assert front + (s.queue + [a.e]) == front + s.queue + [a.e];
    }
  }

  lemma {:induction false} SwapOrdered(s: State)
    requires Ordered(s) && Enabled(s, Swap)
    ensures Ordered(Step(s, Swap))
  {
    var f := Flight(s.queue, false);
    InFlightConcat(s.flights, [f]);
    InFlightOne(f);
    assert Queued(s.stored) + (InFlight(s.flights) + s.queue) + [] == Queued(s.stored) + InFlight(s.flights) + s.queue;
  }

  lemma {:induction false} RaiseOrdered(s: State, f: nat)
    requires Ordered(s) && Enabled(s, Raise(f))
    ensures Ordered(Step(s, Raise(f)))
  {
    RaiseKeepsInFlight(s.flights, f);
  }

  lemma {:induction false} OldestCommits(s: State)
    requires Shape(s) && Ordered(s) && Enabled(s, Commit(0))
    ensures Ordered(Step(s, Commit(0)))
  {
    OrderedAround(s, 0);
    OrderedAfterCommit(s, 0);
    assert InFlight(s.flights[..0]) == [];
    var pending := s.flights[0].pending;
    assert Queued(s.stored) + [] + pending == Queued(s.stored) + pending + [];
  }

  lemma {:induction false} NewestComesBack(s: State, f: nat)
    requires Ordered(s) && Enabled(s, Requeue(f)) && f == |s.flights| - 1
    ensures Ordered(Step(s, Requeue(f)))
  {
    OrderedAround(s, f);
    OrderedAfterRequeue(s, f);
    assert InFlight(s.flights[f + 1..]) == [];
    var front, pending := Queued(s.stored) + InFlight(s.flights[..f]), s.flights[f].pending;
    assert front + pending + [] == front + [] + pending;
  }

  /** An orderly step keeps the order, whatever is logged. */
  lemma {:induction false} OrderlyKeepsOrder(s: State, a: Action)
    requires Shape(s) && Ordered(s) && Enabled(s, a) && Orderly(s, a)
    ensures Ordered(Step(s, a))
  {
    match a {
      case Enqueue(_) => AppendOrdered(s, a);
      case SaveDirect(_) => AppendOrdered(s, a);
      case Swap => SwapOrdered(s);
      case Raise(f) => RaiseOrdered(s, f);
      case Commit(f) => OldestCommits(s);
      case Requeue(f) => NewestComesBack(s, f);
    }
  }

  lemma {:induction false} CommitOrderedIff(s: State, f: nat)
    requires Shape(s) && Ordered(s) && Distinct(Queued(s.logged)) && Enabled(s, Commit(f))
    ensures Ordered(Step(s, Commit(f))) <==> f == 0
  {
    OrderedAround(s, f);
    OrderedAfterCommit(s, f);
    InFlightEmptyIff(s.flights[..f]);
    TradePlaces(Queued(s.stored), InFlight(s.flights[..f]), s.flights[f].pending, InFlight(s.flights[f + 1..]), s.queue);
  }

  lemma {:induction false} RequeueOrderedIff(s: State, f: nat)
    requires Shape(s) && Ordered(s) && Distinct(Queued(s.logged)) && Enabled(s, Requeue(f))
    ensures Ordered(Step(s, Requeue(f))) <==> f == |s.flights| - 1
  {
    OrderedAround(s, f);
    OrderedAfterRequeue(s, f);
    InFlightEmptyIff(s.flights[f + 1..]);
    var front, pending, newer := Queued(s.stored) + InFlight(s.flights[..f]), s.flights[f].pending, InFlight(s.flights[f + 1..]);
    assert front + pending + newer + [] == front + pending + newer;
    assert front + newer + pending + [] == front + newer + pending;
    TradePlaces(front, pending, newer, [], s.queue);
  }

  /** Exactly the orderly steps keep the order: a save commits the oldest flush, or a failed one that comes back
      is the newest. */
  lemma {:induction false} StepOrderedIff(s: State, a: Action)
    requires Shape(s) && Ordered(s) && Distinct(Queued(s.logged)) && Enabled(s, a)
    ensures Ordered(Step(s, a)) <==> Orderly(s, a)
  {
    match a {
      case Commit(f) => CommitOrderedIff(s, f);
      case Requeue(f) => RequeueOrderedIff(s, f);
      case _ => OrderlyKeepsOrder(s, a);
    }
  }

  /** Logged events stay logged. */
  lemma {:induction false} LoggedEarlier(states: seq<State>, actions: seq<Action>, i: nat, n: nat)
    requires IsRun(states, actions) && i <= n <= |actions|
    ensures states[i].logged <= states[n].logged
    decreases n
  {
    if i < n {
      LoggedEarlier(states, actions, i, n - 1);
      assert states[n] == Step(states[n - 1], actions[n - 1]);
    }
  }

  lemma {:induction false} QueuedPrefix(early: seq<Event>, late: seq<Event>)
    requires early <= late
    ensures Queued(early) <= Queued(late)
  {
    assert late == early + late[|early|..];
    QueuedConcat(early, late[|early|..]);
  }

  /** So the queued events of an earlier point are distinct when the later ones are. */
  lemma {:induction false} DistinctEarlier(states: seq<State>, actions: seq<Action>, i: nat, n: nat)
    requires IsRun(states, actions) && i <= n <= |actions| && Distinct(Queued(states[n].logged))
    ensures Distinct(Queued(states[i].logged))
  {
    LoggedEarlier(states, actions, i, n);
    var early, late := Queued(states[i].logged), Queued(states[n].logged);
    QueuedPrefix(states[i].logged, states[n].logged);
    assert early == late[..|early|];
  }

  ghost predicate OrderlyUpTo(states: seq<State>, actions: seq<Action>, n: nat)
    requires IsRun(states, actions) && n <= |actions|
  {
    forall i :: 0 <= i < n ==> Enabled(states[i], actions[i]) && Orderly(states[i], actions[i])
  }

  /** A run whose saves end in an orderly way reaches the database in the order of logging. */
  lemma {:induction false} OrderlyRunOrdered(states: seq<State>, actions: seq<Action>, n: nat)
    requires IsRun(states, actions) && n <= |actions| && OrderlyUpTo(states, actions, n)
    ensures Ordered(states[n])
  {
    if n > 0 {
      OrderlyRunOrdered(states, actions, n - 1);
      RunShape(states, actions, n - 1);
      OrderlyKeepsOrder(states[n - 1], actions[n - 1]);
    }
  }

  /** The exact condition: with distinct queued events a run is in order at every point exactly when each of its
      saves commits the oldest flush and each failed batch that comes back is the newest. */
  lemma {:induction false} RunOrderedIff(states: seq<State>, actions: seq<Action>, n: nat)
    requires IsRun(states, actions) && n <= |actions| && Distinct(Queued(states[n].logged))
    ensures (forall i :: 0 <= i <= n ==> Ordered(states[i])) <==> OrderlyUpTo(states, actions, n)
  {
    if OrderlyUpTo(states, actions, n) {
      forall i | 0 <= i <= n ensures Ordered(states[i]) {
        OrderlyRunOrdered(states, actions, i);
      }
    }
    if forall i :: 0 <= i <= n ==> Ordered(states[i]) {
      forall i | 0 <= i < n ensures Enabled(states[i], actions[i]) && Orderly(states[i], actions[i]) {
        RunShape(states, actions, i);
        DistinctEarlier(states, actions, i, n);
        StepOrderedIff(states[i], actions[i]);
        assert Ordered(states[i + 1]);
      }
    }
  }

  /** With at most one flush in flight at a time every step is orderly, failed saves included. */
  lemma {:induction false} OneFlushKeepsOrder(states: seq<State>, actions: seq<Action>, n: nat)
    requires IsRun(states, actions) && n <= |actions|
    requires forall i :: 0 <= i < n ==> |states[i].flights| <= 1
    ensures Ordered(states[n])
  {
    OrderlyRunOrdered(states, actions, n);
  }

  /** An event logged to the queue is stored last by the next flush, if nothing comes between; a direct one at once. */
  lemma {:induction false} LoggedIsStored(s: State, e: Event)
    ensures !e.direct ==>
              && Enabled(s, Enqueue(e))
              && var queued := Step(s, Enqueue(e));
              && Enabled(queued, Swap)
              && var taken := Step(queued, Swap);
              && Enabled(taken, Commit(|s.flights|))
              && Step(taken, Commit(|s.flights|)) ==
                 State([], s.flights, s.stored + s.queue + [e], s.logged + [e])
    ensures e.direct ==>
              && Enabled(s, SaveDirect(e))
              && Step(s, SaveDirect(e)) == State(s.queue, s.flights, s.stored + [e], s.logged + [e])
  {
    if !e.direct {
      var queued := Step(s, Enqueue(e));
      UndisturbedFlush(queued);
      assert s.stored + (s.queue + [e]) == s.stored + s.queue + [e];
    }
  }

  /** A flush that nothing disturbs, whatever else is in flight: its own steps, one after the other. */
  lemma {:induction false} UndisturbedFlush(s: State)
    requires s.queue != []
    ensures var own := |s.flights|;
            var taken := Step(s, Swap);
            && Enabled(taken, Commit(own))
            && Step(taken, Commit(own)) == s.(stored := s.stored + s.queue, queue := [])
            && Enabled(taken, Raise(own))
            && Enabled(Step(taken, Raise(own)), Requeue(own))
            && Step(Step(taken, Raise(own)), Requeue(own)) == s
  {
    var own := |s.flights|;
    var taken := Step(s, Swap);
    assert Without(taken.flights, own) == s.flights;
    var raised := Step(taken, Raise(own));
    assert Without(raised.flights, own) == s.flights;
    assert raised.flights[own].pending + raised.queue == s.queue;
  }

  ghost predicate Reachable(s: State) {
    exists states, actions :: IsRun(states, actions) && states[|actions|] == s
  }

  lemma {:induction false} Extend(s: State, a: Action, s': State)
    requires Reachable(s) && Enabled(s, a) && s' == Step(s, a)
    ensures Reachable(s')
  {
    var states, actions :| IsRun(states, actions) && states[|actions|] == s;
    var all, acts := states + [s'], actions + [a];
    forall i | 0 <= i < |acts| ensures Enabled(all[i], acts[i]) && all[i + 1] == Step(all[i], acts[i]) {
      if i < |actions| {
        assert all[i] == states[i] && all[i + 1] == states[i + 1];
      }
    }
    assert IsRun(all, acts) && all[|acts|] == s';
  }

  lemma {:induction false} TwoInFlight(a: Event, b: Event)
    requires !a.direct && !b.direct
    ensures Reachable(State([], [Flight([a], false), Flight([b], false)], [], [a, b]))
  {
    var flightA, flightB := Flight([a], false), Flight([b], false);
    assert IsRun([Init], []);
    Extend(Init, Enqueue(a), State([a], [], [], [a]));
    Extend(State([a], [], [], [a]), Swap, State([], [flightA], [], [a]));
    Extend(State([], [flightA], [], [a]), Enqueue(b), State([b], [flightA], [], [a, b]));
    Extend(State([b], [flightA], [], [a, b]), Swap, State([], [flightA, flightB], [], [a, b]));
  }

  /** Two flushes in flight can overtake each other: the later batch is stored first. */
  lemma {:induction false} TwoFlushesCanReorder() returns (s: State)
    ensures Reachable(s) && s.queue == [] && s.flights == [] && Queued(s.stored) != Queued(s.logged)
  {
    var a, b := Event("a", false), Event("b", false);
    var flightA, flightB := Flight([a], false), Flight([b], false);
    TwoInFlight(a, b);
    assert Without([flightA, flightB], 1) == [flightA] && Without([flightA], 0) == [];
    Extend(State([], [flightA, flightB], [], [a, b]), Commit(1), State([], [flightA], [b], [a, b]));
    Extend(State([], [flightA], [b], [a, b]), Commit(0), State([], [], [b, a], [a, b]));
    s := State([], [], [b, a], [a, b]);
    QueuedAll(s.stored);
    QueuedAll(s.logged);
    assert s.stored[0] != s.logged[0];
  }

  // ---- the code, one atomic stretch at a time ----

  class AuditLogger {
    const queueLimit: nat
    var queue: seq<Event>
    var stored: seq<Event>

    constructor (queueLimit: nat)
      requires queueLimit > 0
      ensures this.queueLimit == queueLimit && queue == [] && stored == []
    {
      this.queueLimit, queue, stored := queueLimit, [], [];
    }

    /** The swap at the start of a flush. */
    method TakePending() returns (pending: seq<Event>)
      modifies this`queue
      ensures pending == old(queue) && queue == []
    {
      pending, queue := queue, [];
    }

    /** After a failed save the batch goes back in front of what has been queued meanwhile. */
    method PutBack(pending: seq<Event>)
      modifies this`queue
      ensures queue == pending + old(queue)
    {
      queue := pending + queue;
    }

    /** One undisturbed flush; `saves` tells whether the database commits the batch or raises. */
    method Flush(saves: bool) returns (written: Option<nat>)
      modifies this
      ensures stored == if saves then old(stored) + old(queue) else old(stored)
      ensures queue == if saves then [] else old(queue)
      ensures written == if saves || old(queue) == [] then Some(|old(queue)|) else None
    {
      if queue == [] {
        return Some(0);
      }
      var pending := TakePending();
      if !saves {
        PutBack(pending);
        return None;
      }
      stored := stored + pending;
      return Some(|pending|);
    }

    /** Logging flushes as soon as the queue reaches its limit: it stays below unless the flush raises. */
    method Log(e: Event, saves: bool) returns (raised: bool)
      modifies this
      ensures e.direct ==> queue == old(queue) && stored == if saves then old(stored) + [e] else old(stored)
      ensures !e.direct ==> stored + queue == old(stored) + old(queue) + [e]
      ensures !e.direct && !raised ==> |queue| < queueLimit || queueLimit == 0
      ensures raised <==> !saves && (e.direct || |old(queue)| + 1 >= queueLimit)
    {
      if e.direct {
        if saves {
          stored := stored + [e];
        }
        return !saves;
      }
      queue := queue + [e];
      if |queue| >= queueLimit {
        var written := Flush(saves);
        return written.None?;
      }
      return false;
    }
  }
}
