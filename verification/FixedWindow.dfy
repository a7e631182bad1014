/**
 The fixed-window limiter of the FastAPI adapter: one cache counter per client and path,
 whose deadline is the end of the window.
 */
module FixedWindow {
  import opened Prelude
  import opened MemoryCache
  import Decimal

  datatype Outcome = Allowed | TooMany(retryAfter: int) | NotACounter

  /** The cell of a live counter window that has seen `calls` calls and ends at `end`. */
  function Counter(calls: int, end: real): Cell {
    Some(Entry(Text(Decimal.Show(calls)), Some(end)))
  }

  class FrameworkAdapter {
    const cache: InMemoryCache
    const maxRequests: nat
    const windowSeconds: nat

    constructor (cache: InMemoryCache, maxRequests: nat, windowSeconds: nat)
      requires maxRequests > 0 && windowSeconds > 0
      ensures this.cache == cache && this.maxRequests == maxRequests && this.windowSeconds == windowSeconds
    {
      this.cache, this.maxRequests, this.windowSeconds := cache, maxRequests, windowSeconds;
    }

    /** A deadline for a first call, or for a counter that has none. */
    method Arm(key: string, count: int, now: real)
      requires cache.Valid() && windowSeconds > 0 && Find(cache.Snapshot(), key, now).Some?
      modifies cache
      ensures cache.Valid()
      ensures Untouched(old(cache.Snapshot()), cache.Snapshot(), {key}, now)
      ensures var c := Find(old(cache.Snapshot()), key, now);
              Find(cache.Snapshot(), key, now) ==
              Some(c.value.(deadline := Some(EndOfWindow(c, count, windowSeconds, now))))
    {
      if count == 1 {
        var _ := cache.Expire(key, windowSeconds, now);
      } else {
        var remaining := cache.Ttl(key, now);
        if remaining == -1 {
          var _ := cache.Expire(key, windowSeconds, now);
        }
      }
    }

    /** `incr`, then a deadline for a first call or for a counter that has none. */
    method Count(key: string, now: real) returns (reply: Reply)
      requires cache.Valid() && windowSeconds > 0
      modifies cache
      ensures cache.Valid()
      ensures Untouched(old(cache.Snapshot()), cache.Snapshot(), {key}, now)
      ensures reply == CellStep(Find(old(cache.Snapshot()), key, now), now, Op.Incr(key)).1
      ensures reply != ValueError ==>
                Find(cache.Snapshot(), key, now) ==
                Some(Entry(WithText(Find(old(cache.Snapshot()), key, now), Decimal.Show(reply.number)).value.value,
                           Some(EndOfWindow(Find(old(cache.Snapshot()), key, now), reply.number, windowSeconds, now))))
    {
      ghost var c := Find(cache.Snapshot(), key, now);
      reply := cache.Incr(key, now);
      if reply == ValueError {
        return;
      }
      assert Find(cache.Snapshot(), key, now) == WithText(c, Decimal.Show(reply.number));
      Arm(key, reply.number, now);
    }

    /** A denied caller that waits as told finds the window over. */
    method RateLimit(key: string, now: real) returns (r: Outcome)
      requires cache.Valid() && windowSeconds > 0
      modifies cache
      ensures cache.Valid()
      ensures Untouched(old(cache.Snapshot()), cache.Snapshot(), {key}, now)
      ensures Requested(key, maxRequests, windowSeconds, old(cache.Snapshot()), now, r, cache.Snapshot())
      ensures r.TooMany? ==> r.retryAfter >= 1 && Find(cache.Snapshot(), key, now + r.retryAfter as real) == None
      ensures r == NotACounter <==>
                CellStep(Find(old(cache.Snapshot()), key, now), now, Op.Incr(key)).1 == ValueError
    {
      ghost var s := cache.Snapshot();
      var reply := Count(key, now);
      if reply == ValueError {
        NumbersAreCounters(s, key, now);
        return NotACounter;
      }
      ghost var s' := cache.Snapshot();
      r := Allowed;
      if reply.number > maxRequests {
        var remaining := cache.Ttl(key, now);
        assert Find(cache.Snapshot(), key, now) == Find(s', key, now);
        r := TooMany(Max(1, remaining));
        FindLater(cache.Snapshot(), key, now, now + Max(1, remaining) as real);
      }
      RequestCounts(key, maxRequests, windowSeconds, s, now, reply.number, r, cache.Snapshot());
    }
  }

  function EndOfWindow(c: Cell, count: int, w: nat, now: real): real {
    if count == 1 || CellDeadline(c).None? then now + w as real else CellDeadline(c).value
  }

  /** What the `calls`-th call of a window hears, `left` seconds before the window ends. */
  function Judge(calls: int, maxRequests: nat, left: real): Outcome {
    if calls > maxRequests then TooMany(Max(1, Ceil(left))) else Allowed
  }

  /** A fresh window starts on an absent key; inside a window only the count moves. */
  ghost predicate Requested(key: string, maxRequests: nat, w: nat, s: Store, now: real, r: Outcome, s': Store) {
    && (Find(s, key, now) == None ==>
          r == Judge(1, maxRequests, w as real) && Find(s', key, now) == Counter(1, now + w as real))
    && (forall calls, end :: calls > 0 && Find(s, key, now) == Counter(calls, end) ==>
          r == Judge(calls + 1, maxRequests, end - now) && Find(s', key, now) == Counter(calls + 1, end))
  }

  lemma NumbersAreCounters(s: Store, key: string, now: real)
    requires CellStep(Find(s, key, now), now, Op.Incr(key)).1 == ValueError
    ensures Find(s, key, now).Some?
    ensures forall calls, end :: Find(s, key, now) != Counter(calls, end)
  {
    forall calls, end ensures Find(s, key, now) != Counter(calls, end) {
      Decimal.ReadShow(calls);
    }
  }

  lemma RequestCounts(key: string, maxRequests: nat, w: nat, s: Store, now: real, count: int, r: Outcome, s': Store)
    requires w > 0
    requires CellStep(Find(s, key, now), now, Op.Incr(key)).1 == Number(count)
    requires Find(s', key, now) ==
             Some(Entry(WithText(Find(s, key, now), Decimal.Show(count)).value.value,
                        Some(EndOfWindow(Find(s, key, now), count, w, now))))
    requires r == Judge(count, maxRequests, EndOfWindow(Find(s, key, now), count, w, now) - now)
    ensures Requested(key, maxRequests, w, s, now, r, s')
  {
    forall calls, end | calls > 0 && Find(s, key, now) == Counter(calls, end)
      ensures r == Judge(calls + 1, maxRequests, end - now) && Find(s', key, now) == Counter(calls + 1, end)
    {
      Decimal.ReadShow(calls);
    }
  }

  // ---- whole runs ----

  datatype Event =
    | Request(now: real, outcome: Outcome)
    | Other(now: real)

  /** One event, seen at the limiter's key; this is the contract of `RateLimit`. */
  ghost predicate EventStep(key: string, maxRequests: nat, w: nat, s: Store, e: Event, s': Store) {
    match e
    case Other(now) => forall t :: t >= now ==> Find(s', key, t) == Find(s, key, t)
    case Request(now, r) => Requested(key, maxRequests, w, s, now, r, s')
  }

  ghost predicate IsRun(key: string, maxRequests: nat, w: nat, stores: seq<Store>, events: seq<Event>) {
    && w > 0
    && |stores| == |events| + 1
    && (forall t :: Find(stores[0], key, t) == None)
    && (forall n :: 0 < n < |events| ==> events[n - 1].now <= events[n].now)
    && (forall n :: 0 <= n < |events| ==> EventStep(key, maxRequests, w, stores[n], events[n], stores[n + 1]))
  }

  /** The times at which requests were let through, newest first. */
  function AllowedTimes(events: seq<Event>): seq<real> {
    if events == [] then []
    else AllowedBy(events[|events| - 1]) + AllowedTimes(events[..|events| - 1])
  }

  function AllowedBy(e: Event): seq<real> {
    if e.Request? && e.outcome == Allowed then [e.now] else []
  }

  /** A counter window of the reference limiter, which keeps no cache. */
  datatype Window = Window(start: real, calls: nat, allowed: seq<real>)

  function Enter(ws: seq<Window>, e: Event, w: nat): seq<Window> {
    if e.Other? then ws
    else if ws == [] || e.now >= ws[0].start + w as real then [Window(e.now, 1, AllowedBy(e))] + ws
    else [Window(ws[0].start, ws[0].calls + 1, AllowedBy(e) + ws[0].allowed)] + ws[1..]
  }

  /** The counter windows of a run, newest first: the requests alone decide them. */
  function Windows(events: seq<Event>, w: nat): seq<Window> {
    if events == [] then [] else Enter(Windows(events[..|events| - 1], w), events[|events| - 1], w)
  }

  /** One window: at most the budget, all of it inside the window. */
  ghost predicate WindowOk(win: Window, maxRequests: nat, w: nat) {
    && win.calls > 0
    && |win.allowed| <= win.calls && |win.allowed| <= maxRequests
    && forall i :: 0 <= i < |win.allowed| ==> win.start <= win.allowed[i] < win.start + w as real
  }

  /** Every window keeps its budget and starts after the previous one has ended. */
  ghost predicate WindowsOk(ws: seq<Window>, maxRequests: nat, w: nat) {
    && (forall i :: 0 <= i < |ws| ==> WindowOk(ws[i], maxRequests, w))
    && (forall i :: 0 <= i < |ws| - 1 ==> ws[i].start >= ws[i + 1].start + w as real)
  }

  /** The cell that the newest window accounts for. */
  function CellOf(ws: seq<Window>, w: nat): Cell {
    if ws == [] then None else Counter(ws[0].calls, ws[0].start + w as real)
  }

  lemma {:induction false} EnterOk(key: string, maxRequests: nat, w: nat, s: Store, e: Event, s': Store, ws: seq<Window>, t: real)
    requires w > 0 && maxRequests > 0 && t >= e.now
    requires EventStep(key, maxRequests, w, s, e, s')
    requires WindowsOk(ws, maxRequests, w) && (ws != [] ==> ws[0].start <= e.now)
    requires Find(s, key, e.now) == AtTime(CellOf(ws, w), e.now)
    requires Find(s, key, t) == AtTime(CellOf(ws, w), t)
    ensures WindowsOk(Enter(ws, e, w), maxRequests, w)
    ensures Enter(ws, e, w) != [] ==> Enter(ws, e, w)[0].start <= e.now
    ensures Find(s', key, t) == AtTime(CellOf(Enter(ws, e, w), w), t)
    ensures ws != [] && e.Request? && e.outcome == Allowed && e.now < ws[0].start + w as real ==>
              ws[0].calls < maxRequests
  {
    var ws' := Enter(ws, e, w);
    if e.Request? {
      FindLater(s', key, e.now, t);
      if ws == [] || e.now >= ws[0].start + w as real {
        assert Find(s, key, e.now) == None;
        assert WindowOk(ws'[0], maxRequests, w);
        assert ws'[1..] == ws;
      } else {
        assert WindowOk(ws[0], maxRequests, w);
        assert Find(s, key, e.now) == Counter(ws[0].calls, ws[0].start + w as real);
        assert WindowOk(ws'[0], maxRequests, w);
        assert forall i :: 1 <= i < |ws'| ==> ws'[i] == ws[i];
      }
    }
  }

  /** At every point of a run the cache holds the newest reference window, and no window exceeds its budget. */
  lemma {:induction false} CacheTracksWindows(key: string, maxRequests: nat, w: nat, stores: seq<Store>, events: seq<Event>,
                                              n: nat, t: real)
    requires IsRun(key, maxRequests, w, stores, events) && maxRequests > 0
    requires n <= |events| && (n > 0 ==> t >= events[n - 1].now)
    ensures WindowsOk(Windows(events[..n], w), maxRequests, w)
    ensures n > 0 && Windows(events[..n], w) != [] ==> Windows(events[..n], w)[0].start <= events[n - 1].now
    ensures Find(stores[n], key, t) == AtTime(CellOf(Windows(events[..n], w), w), t)
  {
    if n > 0 {
      var e := events[n - 1];
      assert events[..n][..n - 1] == events[..n - 1];
      CacheTracksWindows(key, maxRequests, w, stores, events, n - 1, t);
      CacheTracksWindows(key, maxRequests, w, stores, events, n - 1, e.now);
      EnterOk(key, maxRequests, w, stores[n - 1], e, stores[n], Windows(events[..n - 1], w), t);
    }
  }

  // ---- the interval bound ----

  function InsideWindows(ws: seq<Window>, lo: real, hi: real): nat {
    if ws == [] then 0 else Inside(ws[0].allowed, lo, hi) + InsideWindows(ws[1..], lo, hi)
  }

  lemma InsideNone(stamps: seq<real>, lo: real, hi: real)
    requires forall i :: 0 <= i < |stamps| ==> stamps[i] < lo || stamps[i] >= hi
    ensures Inside(stamps, lo, hi) == 0
  {
  }

  lemma InsideAtMost(stamps: seq<real>, lo: real, hi: real)
    ensures Inside(stamps, lo, hi) <= |stamps|
  {
  }

  /** The windows hold exactly the allowed requests. */
  lemma {:induction false} WindowsHoldAllowed(events: seq<Event>, w: nat, lo: real, hi: real)
    ensures Inside(AllowedTimes(events), lo, hi) == InsideWindows(Windows(events, w), lo, hi)
  {
    if events != [] {
      var e, before := events[|events| - 1], events[..|events| - 1];
      WindowsHoldAllowed(before, w, lo, hi);
      InsideConcat(AllowedBy(e), AllowedTimes(before), lo, hi);
      var ws := Windows(before, w);
      if e.Request? {
        if ws == [] || e.now >= ws[0].start + w as real {
          assert Windows(events, w)[1..] == ws;
        } else {
          InsideConcat(AllowedBy(e), ws[0].allowed, lo, hi);
          assert Windows(events, w)[1..] == ws[1..];
        }
      }
    }
  }

  /** Windows that ended by `lo` contribute nothing; one more may overlap; a second one at most. */
  lemma {:induction false} OverlapBound(ws: seq<Window>, maxRequests: nat, w: nat, lo: real)
    requires w > 0 && WindowsOk(ws, maxRequests, w)
    ensures ws != [] && ws[0].start + w as real <= lo ==> InsideWindows(ws, lo, lo + w as real) == 0
    ensures ws != [] && ws[0].start < lo ==> InsideWindows(ws, lo, lo + w as real) <= maxRequests
    ensures InsideWindows(ws, lo, lo + w as real) <= 2 * maxRequests
  {
    if ws != [] {
      var hi := lo + w as real;
      assert WindowOk(ws[0], maxRequests, w);
      assert WindowsOk(ws[1..], maxRequests, w);
      OverlapBound(ws[1..], maxRequests, w, lo);
      InsideAtMost(ws[0].allowed, lo, hi);
      if ws[0].start + w as real <= lo || ws[0].start >= hi {
        InsideNone(ws[0].allowed, lo, hi);
      }
      if |ws| > 1 {
        assert ws[1..][0] == ws[1];
        assert ws[0].start >= ws[1].start + w as real;
      }
    }
  }

  ghost function AllowedInside(lo: real, hi: real): Event -> bool {
    (e: Event) => e.Request? && e.outcome == Allowed && lo <= e.now < hi
  }

  /** The allowed requests inside an interval, counted by position in the run. */
  lemma {:induction false} AllowedPositions(events: seq<Event>, n: nat, lo: real, hi: real)
    requires n <= |events|
    ensures Inside(AllowedTimes(events[..n]), lo, hi) == |Positions(events, n, AllowedInside(lo, hi))|
  {
    if n > 0 {
      var e := events[n - 1];
      AllowedPositions(events, n - 1, lo, hi);
      assert events[..n][..n - 1] == events[..n - 1];
      InsideConcat(AllowedBy(e), AllowedTimes(events[..n - 1]), lo, hi);
      PositionsSnoc(events, n, AllowedInside(lo, hi));
      assert Inside(AllowedBy(e), lo, hi) == if AllowedInside(lo, hi)(e) then 1 else 0;
    }
  }

  /** On every run, a half-open interval as long as the window holds at most twice the budget. */
  lemma {:induction false} IntervalHoldsTwiceBudget(key: string, maxRequests: nat, w: nat, stores: seq<Store>, events: seq<Event>, lo: real)
    requires IsRun(key, maxRequests, w, stores, events) && maxRequests > 0
    ensures |set i | 0 <= i < |events| && events[i].Request? && events[i].outcome == Allowed
                     && lo <= events[i].now < lo + w as real| <= 2 * maxRequests
  {
    assert events[..|events|] == events;
    var hi := lo + w as real;
    var t := if events == [] then 0.0 else events[|events| - 1].now;
    CacheTracksWindows(key, maxRequests, w, stores, events, |events|, t);
    WindowsHoldAllowed(events, w, lo, hi);
    OverlapBound(Windows(events, w), maxRequests, w, lo);
    AllowedPositions(events, |events|, lo, hi);
    assert Positions(events, |events|, AllowedInside(lo, hi))
        == set i | 0 <= i < |events| && events[i].Request? && events[i].outcome == Allowed && lo <= events[i].now < hi;
  }

  // ---- the verdict of each request ----

  /** A request opens a window when every window opened before is over. */
  ghost predicate Opens(events: seq<Event>, w: nat, m: nat)
    requires m < |events|
    decreases m
  {
    events[m].Request? && forall k: nat :: k < m && Opens(events, w, k) ==> events[m].now >= events[k].now + w as real
  }

  ghost predicate ClockMonotone(events: seq<Event>) {
    forall i, j :: 0 <= i <= j < |events| ==> events[i].now <= events[j].now
  }

  lemma {:induction false} RunMonotone(events: seq<Event>, i: nat, j: nat)
    requires forall n :: 0 < n < |events| ==> events[n - 1].now <= events[n].now
    requires i <= j < |events|
    ensures events[i].now <= events[j].now
    decreases j
  {
    if i < j {
      RunMonotone(events, i, j - 1);
    }
  }

  /** The requests from position `m` on, before position `n`. */
  ghost function Requests(events: seq<Event>, m: nat, n: nat): set<int>
    requires n <= |events|
  {
    set i | m <= i < n && events[i].Request?
  }

  /** The newest reference window was opened by request `m`, no window was opened since, and it has counted every
      request since. */
  ghost predicate NewestOpened(events: seq<Event>, w: nat, n: nat, m: nat)
    requires n <= |events|
  {
    var ws := Windows(events[..n], w);
    && ws != [] && m < n && Opens(events, w, m) && (forall k: nat :: m < k < n ==> !Opens(events, w, k))
    && ws[0].start == events[m].now && ws[0].calls == |Requests(events, m, n)|
  }

  lemma {:induction false} LatestOpener(events: seq<Event>, w: nat, m: nat, n: nat)
    requires ClockMonotone(events) && m < n < |events| && events[n].Request?
    requires Opens(events, w, m) && forall k: nat :: m < k < n ==> !Opens(events, w, k)
    ensures Opens(events, w, n) <==> events[n].now >= events[m].now + w as real
  {
    if events[n].now >= events[m].now + w as real {
      forall k: nat | k < n && Opens(events, w, k) ensures events[n].now >= events[k].now + w as real {
        assert k <= m && events[k].now <= events[m].now;
      }
    }
  }

  lemma {:induction false} RequestsSnoc(events: seq<Event>, m: nat, n: nat)
    requires m < n <= |events|
    ensures |Requests(events, m, n)| == |Requests(events, m, n - 1)| + if events[n - 1].Request? then 1 else 0
  {
    assert Requests(events, m, n) == Requests(events, m, n - 1) + if events[n - 1].Request? then {n - 1} else {};
  }

  lemma {:induction false} NoneOpened(events: seq<Event>, w: nat, n: nat)
    requires n <= |events| && Windows(events[..n], w) == []
    ensures forall k: nat :: k < n ==> !events[k].Request?
  {
    if n > 0 {
      assert events[..n][..n - 1] == events[..n - 1];
      NoneOpened(events, w, n - 1);
    }
  }

  /** One more event, seen at the newest window. */
  lemma {:induction false} NextNewest(events: seq<Event>, w: nat, n: nat, m: nat) returns (m': nat)
    requires w > 0 && ClockMonotone(events) && n < |events|
    requires Windows(events[..n], w) != [] ==> NewestOpened(events, w, n, m)
    ensures Windows(events[..n + 1], w) != [] ==> NewestOpened(events, w, n + 1, m')
    ensures events[n].Request? ==>
              && Windows(events[..n + 1], w) != [] && events[n].now < events[m'].now + w as real
              && m' == if Windows(events[..n], w) != [] && events[n].now < events[m].now + w as real then m else n
  {
    var ws, e := Windows(events[..n], w), events[n];
    assert events[..n + 1][..n] == events[..n];
    assert Windows(events[..n + 1], w) == Enter(ws, e, w);
    m' := m;
    if e.Request? {
      if ws == [] {
        NoneOpened(events, w, n);
        m' := n;
      } else {
        LatestOpener(events, w, m, n);
        m' := if e.now >= events[m].now + w as real then n else m;
      }
      RequestsSnoc(events, m', n + 1);
      assert Requests(events, n, n) == {};
    } else if ws != [] {
      RequestsSnoc(events, m, n + 1);
    }
  }

  lemma {:induction false} SomeNewest(events: seq<Event>, w: nat, n: nat) returns (m: nat)
    requires w > 0 && ClockMonotone(events) && n <= |events|
    ensures Windows(events[..n], w) != [] ==> NewestOpened(events, w, n, m)
  {
    m := 0;
    if n > 0 {
      var before := SomeNewest(events, w, n - 1);
      m := NextNewest(events, w, n - 1, before);
    }
  }

  lemma JudgeIff(calls: int, maxRequests: nat, left: real)
    ensures var r := Judge(calls, maxRequests, left);
            && (r == Allowed <==> calls <= maxRequests)
            && (r != Allowed ==> r.TooMany? && r.retryAfter >= 1 && r.retryAfter as real >= left
                                 && (r.retryAfter > 1 ==> (r.retryAfter - 1) as real < left))
  {
  }

  /** What a request hears, by the reference windows. */
  lemma {:induction false} VerdictByWindow(key: string, maxRequests: nat, w: nat, stores: seq<Store>, events: seq<Event>, n: nat)
    requires IsRun(key, maxRequests, w, stores, events) && maxRequests > 0 && n < |events| && events[n].Request?
    ensures var ws := Windows(events[..n], w);
            var over := ws == [] || events[n].now >= ws[0].start + w as real;
            events[n].outcome == if over then Judge(1, maxRequests, w as real)
                                 else Judge(ws[0].calls + 1, maxRequests, ws[0].start + w as real - events[n].now)
  {
    var e, ws := events[n], Windows(events[..n], w);
    CacheTracksWindows(key, maxRequests, w, stores, events, n, e.now);
    assert EventStep(key, maxRequests, w, stores[n], e, stores[n + 1]);
    if ws != [] && e.now < ws[0].start + w as real {
      assert WindowOk(ws[0], maxRequests, w);
      assert Find(stores[n], key, e.now) == Counter(ws[0].calls, ws[0].start + w as real);
    }
  }

  /** On every run, each request belongs to the window that some request opened, itself or an earlier one: it is
      allowed exactly when, with it, at most the budget of requests has been made in that window. A refused caller
      is told the least whole number of seconds, one at least, after which that window is over. */
  lemma {:induction false} AllowedIff(key: string, maxRequests: nat, w: nat, stores: seq<Store>, events: seq<Event>, n: nat)
    returns (m: nat)
    requires IsRun(key, maxRequests, w, stores, events) && maxRequests > 0 && n < |events| && events[n].Request?
    ensures m <= n && Opens(events, w, m) && events[m].now <= events[n].now < events[m].now + w as real
    ensures events[n].outcome == Allowed <==> |set i | m <= i <= n && events[i].Request?| <= maxRequests
    ensures events[n].outcome != Allowed ==>
              && events[n].outcome.TooMany?
              && var seconds, left := events[n].outcome.retryAfter, events[m].now + w as real - events[n].now;
              seconds >= 1 && seconds as real >= left && (seconds > 1 ==> (seconds - 1) as real < left)
  {
    forall i, j | 0 <= i <= j < |events| ensures events[i].now <= events[j].now {
      RunMonotone(events, i, j);
    }
    assert ClockMonotone(events);
    var before := SomeNewest(events, w, n);
    m := NextNewest(events, w, n, before);
    VerdictByWindow(key, maxRequests, w, stores, events, n);
    RequestsSnoc(events, m, n + 1);
    assert Requests(events, n, n) == {};
    JudgeIff(|Requests(events, m, n + 1)|, maxRequests, events[m].now + w as real - events[n].now);
    assert Requests(events, m, n + 1) == set i | m <= i <= n && events[i].Request?;
  }
}
