/**
 The sliding-window limiter over cache lists.

 Timestamps live in two cache lists per identifier. Each check trims a list by deleting
 and re-pushing what survives, and the cache may drop a whole list at its deadline. The
 results: none of this loses an entry that still counts, so every run admits exactly
 what a limiter over the full history of admissions would.
 */
module BotProtection {
  import opened Prelude
  import opened MemoryCache

  /** `str(float)` and `float(text)`; reading fails on malformed text. */
  datatype StampText = StampText(show: real -> string, read: string -> Option<real>)

  /** The text of this one stamp reads back as it was. */
  predicate ReadsBack(x: StampText, ts: real) {
    x.read(x.show(ts)) == Some(ts)
  }

  const MINUTE := 60
  const HOUR := 3600
  const ACTION_LOG_MAX_ENTRIES := 100

  function RateLimitKey(identifier: string, window: string): string {
    "tessera:ratelimit:bot:" + window + ":" + identifier
  }

  function MinuteKey(identifier: string): string { RateLimitKey(identifier, "minute") }
  function HourKey(identifier: string): string { RateLimitKey(identifier, "hour") }

  lemma KeysDistinct(i: string, j: string)
    ensures MinuteKey(i) != HourKey(j)
    ensures i != j ==> MinuteKey(i) != MinuteKey(j) && HourKey(i) != HourKey(j)
  {
    assert MinuteKey(i)[22] == 'm' && HourKey(j)[22] == 'h';
    assert MinuteKey(i)[29..] == i && MinuteKey(j)[29..] == j;
    assert HourKey(i)[27..] == i && HourKey(j)[27..] == j;
  }

  /** The timestamps later than `cutoff`, in order. */
  function After(stamps: seq<real>, cutoff: real): seq<real> {
    if stamps == [] then []
    else (if stamps[0] > cutoff then [stamps[0]] else []) + After(stamps[1..], cutoff)
  }

  /** The readable timestamps of a stored list. */
  function Stamps(x: StampText, items: seq<string>): seq<real> {
    if items == [] then []
    else (match x.read(items[0]) case Some(ts) => [ts] case None => []) + Stamps(x, items[1..])
  }

  predicate Survives(x: StampText, item: string, cutoff: real) {
    x.read(item).Some? && x.read(item).value > cutoff
  }

  /** The stored entries that a trim at `cutoff` keeps. */
  function Surviving(x: StampText, items: seq<string>, cutoff: real): seq<string> {
    if items == [] then []
    else (if Survives(x, items[0], cutoff) then [items[0]] else []) + Surviving(x, items[1..], cutoff)
  }

  /** The timestamps in a cell that count against a window of `w` seconds at time `t`. */
  function CellCounted(x: StampText, c: Cell, w: nat, t: real): seq<real> {
    After(Stamps(x, CellItems(AtTime(c, t))), t - w as real)
  }

  /** No stamp from the future, and no deadline before the newest stamp has stopped counting. */
  ghost predicate CellOk(x: StampText, c: Cell, w: nat, now: real) {
    && After(Stamps(x, CellItems(c)), now) == []
    && (CellDeadline(c).Some? ==> After(Stamps(x, CellItems(c)), CellDeadline(c).value - w as real) == [])
  }

  ghost function Counted(x: StampText, s: Store, key: string, w: nat, t: real): seq<real> {
    CellCounted(x, Find(s, key, t), w, t)
  }

  ghost predicate WindowOk(x: StampText, s: Store, key: string, w: nat, now: real) {
    CellOk(x, Find(s, key, now), w, now)
  }

  // ---- list facts ----

  lemma AfterConcat(a: seq<real>, b: seq<real>, cutoff: real)
    ensures After(a + b, cutoff) == After(a, cutoff) + After(b, cutoff)
  {
    if a == [] {
      assert a + b == b;
    } else {
      assert (a + b)[1..] == a[1..] + b;
      AfterConcat(a[1..], b, cutoff);
    }
  }

  lemma AfterAfter(a: seq<real>, c1: real, c2: real)
    requires c1 <= c2
    ensures After(After(a, c1), c2) == After(a, c2)
    ensures After(a, c1) == [] ==> After(a, c2) == []
  {
    if a != [] {
      AfterAfter(a[1..], c1, c2);
      AfterConcat(if a[0] > c1 then [a[0]] else [], After(a[1..], c1), c2);
    }
  }

  lemma AfterLater(a: seq<real>, c1: real, c2: real)
    ensures c1 <= c2 && After(a, c1) == [] ==> After(a, c2) == []
  {
    if c1 <= c2 {
      AfterAfter(a, c1, c2);
    }
  }

  lemma {:induction false} StampsOne(x: StampText, item: string, rest: seq<string>)
    ensures Stamps(x, [item] + rest) == (if x.read(item).Some? then [x.read(item).value] else []) + Stamps(x, rest)
  {
    assert ([item] + rest)[1..] == rest;
  }

  lemma {:induction false} AfterOne(ts: real, rest: seq<real>, cutoff: real)
    ensures After([ts] + rest, cutoff) == (if ts > cutoff then [ts] else []) + After(rest, cutoff)
  {
    assert ([ts] + rest)[1..] == rest;
  }

  /** The stamps of the survivors are the stamps after the cutoff, one for each survivor. */
  lemma {:induction false} SurvivingStamps(x: StampText, items: seq<string>, cutoff: real)
    ensures Stamps(x, Surviving(x, items, cutoff)) == After(Stamps(x, items), cutoff)
    ensures |Stamps(x, Surviving(x, items, cutoff))| == |Surviving(x, items, cutoff)|
  {
    if items != [] {
      var first, rest := items[0], Surviving(x, items[1..], cutoff);
      SurvivingStamps(x, items[1..], cutoff);
      assert [first] + items[1..] == items;
      StampsOne(x, first, items[1..]);
      StampsOne(x, first, rest);
      if Survives(x, first, cutoff) {
        AfterOne(x.read(first).value, Stamps(x, items[1..]), cutoff);
        assert Surviving(x, items, cutoff) == [first] + rest;
      } else {
        assert Surviving(x, items, cutoff) == [] + rest == rest;
        assert After(Stamps(x, items), cutoff) == After(Stamps(x, items[1..]), cutoff) by {
          if x.read(first).Some? {
            AfterOne(x.read(first).value, Stamps(x, items[1..]), cutoff);
          } else {
            assert Stamps(x, items) == Stamps(x, items[1..]);
          }
        }
      }
    }
  }

  /** Trimming drops entries or leaves the list alone. */
  lemma {:induction false} SurvivingLength(x: StampText, items: seq<string>, cutoff: real)
    ensures |Surviving(x, items, cutoff)| <= |items|
    ensures |Surviving(x, items, cutoff)| == |items| ==> Surviving(x, items, cutoff) == items
  {
    if items != [] {
      SurvivingLength(x, items[1..], cutoff);
      assert [items[0]] + items[1..] == items;
    }
  }

  lemma SurvivingSnoc(x: StampText, items: seq<string>, item: string, cutoff: real)
    ensures Surviving(x, items + [item], cutoff)
         == Surviving(x, items, cutoff) + if Survives(x, item, cutoff) then [item] else []
  {
    if items == [] {
      assert items + [item] == [item];
    } else {
      assert (items + [item])[1..] == items[1..] + [item];
      SurvivingSnoc(x, items[1..], item, cutoff);
    }
  }

  // ---- one window ----

  /** What a maintenance pass leaves: the survivors, in order, with a fresh deadline. */
  function Trimmed(x: StampText, c: Cell, w: nat, now: real): Cell {
    var kept := Surviving(x, CellItems(c), now - w as real);
    if CellItems(c) == [] then c
    else if kept == [] then None
    else if |kept| == |CellItems(c)| then Some(c.value.(deadline := Some(now + w as real)))
    else Some(Entry(Items(kept), Some(now + w as real)))
  }

  function Recorded(x: StampText, c: Cell, w: nat, now: real): Cell {
    Some(Entry(Items([x.show(now)] + CellItems(c)), Some(now + w as real)))
  }

  /** Expiry is invisible: a list that has been dropped held nothing that still counts. */
  lemma {:induction false} ExpiryInvisible(x: StampText, c: Cell, w: nat, now: real, t: real)
    requires CellOk(x, c, w, now) && t >= now
    ensures CellCounted(x, c, w, t) == After(Stamps(x, CellItems(c)), t - w as real)
  {
    if CellDeadline(c).Some? {
      AfterLater(Stamps(x, CellItems(c)), CellDeadline(c).value - w as real, t - w as real);
    }
  }

  lemma TrimmedItems(x: StampText, c: Cell, w: nat, now: real)
    ensures CellItems(Trimmed(x, c, w, now)) == Surviving(x, CellItems(c), now - w as real)
  {
    SurvivingLength(x, CellItems(c), now - w as real);
  }

  lemma {:induction false} TrimmedStamps(x: StampText, c: Cell, w: nat, now: real)
    ensures Stamps(x, CellItems(Trimmed(x, c, w, now))) == After(Stamps(x, CellItems(c)), now - w as real)
  {
    TrimmedItems(x, c, w, now);
    SurvivingStamps(x, CellItems(c), now - w as real);
  }

  lemma {:induction false} TrimmedOk(x: StampText, c: Cell, w: nat, now: real)
    requires CellOk(x, c, w, now)
    ensures CellOk(x, Trimmed(x, c, w, now), w, now)
  {
    TrimmedStamps(x, c, w, now);
    AfterAfter(Stamps(x, CellItems(c)), now - w as real, now);
  }

  /** Stamps at or before an early cutoff make no difference to what is after a late one. */
  lemma {:induction false} SameAfter(all: seq<real>, kept: seq<real>, early: real, late: real)
    requires early <= late && kept == After(all, early)
    ensures After(kept, late) == After(all, late)
  {
    AfterAfter(all, early, late);
  }

  /** Trimming, re-pushing and the new deadline lose nothing that counts now or later. */
  lemma {:induction false} TrimKeepsCounted(x: StampText, c: Cell, w: nat, now: real, t: real)
    requires CellOk(x, c, w, now) && t >= now
    ensures CellOk(x, Trimmed(x, c, w, now), w, now)
    ensures CellCounted(x, Trimmed(x, c, w, now), w, t) == CellCounted(x, c, w, t)
  {
    var c' := Trimmed(x, c, w, now);
    TrimmedOk(x, c, w, now);
    calc {
      CellCounted(x, c', w, t);
    ==  { ExpiryInvisible(x, c', w, now, t); }
      After(Stamps(x, CellItems(c')), t - w as real);
    ==  { TrimmedStamps(x, c, w, now); SameAfter(Stamps(x, CellItems(c)), Stamps(x, CellItems(c')), now - w as real, t - w as real); }
      After(Stamps(x, CellItems(c)), t - w as real);
    ==  { ExpiryInvisible(x, c, w, now, t); }
      CellCounted(x, c, w, t);
    }
  }

  lemma StampsCons(x: StampText, ts: real, items: seq<string>)
    requires ReadsBack(x, ts)
    ensures Stamps(x, [x.show(ts)] + items) == [ts] + Stamps(x, items)
  {
    assert x.read(x.show(ts)) == Some(ts);
    assert ([x.show(ts)] + items)[1..] == items;
  }

  lemma {:induction false} RecordedOk(x: StampText, c: Cell, w: nat, now: real)
    requires ReadsBack(x, now) && CellOk(x, c, w, now)
    ensures CellOk(x, Recorded(x, c, w, now), w, now)
  {
    StampsCons(x, now, CellItems(c));
    AfterConcat([now], Stamps(x, CellItems(c)), now);
    assert After([now], now) == [];
    assert CellDeadline(Recorded(x, c, w, now)).value - w as real == now;
  }

  /** Recording an admission adds exactly that admission to what counts. */
  lemma {:induction false} RecordAddsOne(x: StampText, c: Cell, w: nat, now: real, t: real)
    requires ReadsBack(x, now) && CellOk(x, c, w, now) && t >= now
    ensures CellCounted(x, Recorded(x, c, w, now), w, t) == After([now], t - w as real) + CellCounted(x, c, w, t)
  {
    var c', cutoff := Recorded(x, c, w, now), t - w as real;
    RecordedOk(x, c, w, now);
    calc {
      CellCounted(x, c', w, t);
    ==  { ExpiryInvisible(x, c', w, now, t); }
      After(Stamps(x, CellItems(c')), cutoff);
    ==  { StampsCons(x, now, CellItems(c)); }
      After([now] + Stamps(x, CellItems(c)), cutoff);
    ==  { AfterConcat([now], Stamps(x, CellItems(c)), cutoff); }
      After([now], cutoff) + After(Stamps(x, CellItems(c)), cutoff);
    ==  { ExpiryInvisible(x, c, w, now, t); }
      After([now], cutoff) + CellCounted(x, c, w, t);
    }
  }

  datatype Verdict = Admitted | MinuteExceeded(count: nat) | HourExceeded(count: nat)

  function Judge(perMinute: nat, perHour: nat, minuteCount: nat, hourCount: nat): Verdict {
    if minuteCount >= perMinute then MinuteExceeded(minuteCount)
    else if hourCount >= perHour then HourExceeded(hourCount)
    else Admitted
  }

  /** From time `now` on, `key` counts in `s'` what it counted in `s`, and `more`. */
  ghost predicate Counts(x: StampText, s: Store, s': Store, key: string, w: nat, now: real, more: seq<real>) {
    && WindowOk(x, s', key, w, now)
    && forall t {:trigger Counted(x, s', key, w, t)} :: t >= now ==>
         Counted(x, s', key, w, t) == After(more, t - w as real) + Counted(x, s, key, w, t)
  }

  /** One rate-limit check on `identifier` at `now` took the cache from `s` to `s'`. */
  ghost predicate Checked(x: StampText, perMinute: nat, perHour: nat, s: Store, now: real, identifier: string,
                          verdict: Verdict, s': Store) {
    var mk, hk := MinuteKey(identifier), HourKey(identifier);
    var more := if verdict == Admitted then [now] else [];
    && verdict == Judge(perMinute, perHour, |Counted(x, s, mk, MINUTE, now)|, |Counted(x, s, hk, HOUR, now)|)
    && Counts(x, s, s', mk, MINUTE, now, more)
    && Counts(x, s, s', hk, HOUR, now, more)
    && Untouched(s, s', {mk, hk}, now)
  }

  lemma ReverseOne(v: string)
    ensures Reverse([v]) == [v]
  {
  }

  lemma {:induction false} UntouchedCounts(x: StampText, s: Store, s': Store, key: string, w: nat, now: real, keys: set<string>)
    requires Untouched(s, s', keys, now) && key !in keys && WindowOk(x, s, key, w, now)
    ensures Counts(x, s, s', key, w, now, [])
  {
    assert Find(s', key, now) == Find(s, key, now);
    forall t | t >= now
      ensures Counted(x, s', key, w, t) == After([], t - w as real) + Counted(x, s, key, w, t)
    {
      assert Find(s', key, t) == Find(s, key, t);
    }
  }

  lemma Prepend(c: seq<real>, c1: seq<real>, c2: seq<real>, m1: seq<real>, m2: seq<real>)
    requires c1 == m1 + c && c2 == m2 + c1
    ensures c2 == (m2 + m1) + c
  {
  }

  lemma {:induction false} CountsChain(x: StampText, s: Store, s1: Store, s2: Store, key: string, w: nat, now: real,
                    more1: seq<real>, more2: seq<real>, more: seq<real>)
    requires Counts(x, s, s1, key, w, now, more1) && Counts(x, s1, s2, key, w, now, more2)
    requires more == more2 + more1
    ensures Counts(x, s, s2, key, w, now, more)
  {
    forall t | t >= now
      ensures Counted(x, s2, key, w, t) == After(more, t - w as real) + Counted(x, s, key, w, t)
    {
      var cutoff := t - w as real;
      AfterConcat(more2, more1, cutoff);
      Prepend(Counted(x, s, key, w, t), Counted(x, s1, key, w, t), Counted(x, s2, key, w, t),
              After(more1, cutoff), After(more2, cutoff));
    }
  }

  lemma KeptIsCounted(x: StampText, s: Store, key: string, w: nat, now: real)
    ensures var raw := CellItems(Find(s, key, now));
            var kept := Surviving(x, raw, now - w as real);
            && |kept| == |Counted(x, s, key, w, now)|
            && |kept| <= |raw| && (|kept| == |raw| ==> kept == raw)
  {
    FindLater(s, key, now, now);
    SurvivingStamps(x, CellItems(Find(s, key, now)), now - w as real);
    SurvivingLength(x, CellItems(Find(s, key, now)), now - w as real);
  }

  /** A maintenance pass, seen from the windows. */
  lemma {:induction false} Settled(x: StampText, s: Store, s': Store, key: string, w: nat, now: real)
    requires WindowOk(x, s, key, w, now)
    requires Find(s', key, now) == Trimmed(x, Find(s, key, now), w, now)
    ensures Counts(x, s, s', key, w, now, [])
  {
    var c := Find(s, key, now);
    forall t | t >= now
      ensures Counted(x, s', key, w, t) == After([], t - w as real) + Counted(x, s, key, w, t)
    {
      FindLater(s, key, now, t);
      FindLater(s', key, now, t);
      TrimKeepsCounted(x, c, w, now, t);
    }
    TrimKeepsCounted(x, c, w, now, now);
  }

  /** Maintenance of one window, then of the other. */
  lemma {:induction false} BothMeasured(x: StampText, s0: Store, s1: Store, s2: Store, mk: string, hk: string, now: real)
    requires mk != hk
    requires Counts(x, s0, s1, mk, MINUTE, now, []) && Untouched(s0, s1, {mk}, now)
    requires Counts(x, s1, s2, hk, HOUR, now, []) && Untouched(s1, s2, {hk}, now)
    requires WindowOk(x, s0, hk, HOUR, now)
    ensures Counts(x, s0, s2, mk, MINUTE, now, []) && Counts(x, s0, s2, hk, HOUR, now, [])
    ensures Untouched(s0, s2, {mk, hk}, now)
  {
    UntouchedCounts(x, s0, s1, hk, HOUR, now, {mk});
    UntouchedCounts(x, s1, s2, mk, MINUTE, now, {hk});
    CountsChain(x, s0, s1, s2, mk, MINUTE, now, [], [], []);
    CountsChain(x, s0, s1, s2, hk, HOUR, now, [], [], []);
    forall k, t | k !in {mk, hk} && t >= now ensures Find(s2, k, t) == Find(s0, k, t) {
      assert Find(s2, k, t) == Find(s1, k, t);
    }
  }

  lemma {:induction false} RejectedByMinute(x: StampText, perMinute: nat, perHour: nat, s: Store, now: real, identifier: string,
                         minuteCount: nat, s': Store)
    requires minuteCount == |Surviving(x, CellItems(Find(s, MinuteKey(identifier), now)), now - MINUTE as real)|
    requires minuteCount >= perMinute
    requires Counts(x, s, s', MinuteKey(identifier), MINUTE, now, [])
    requires Counts(x, s, s', HourKey(identifier), HOUR, now, [])
    requires Untouched(s, s', {MinuteKey(identifier)}, now)
    ensures Checked(x, perMinute, perHour, s, now, identifier, MinuteExceeded(minuteCount), s')
  {
    KeptIsCounted(x, s, MinuteKey(identifier), MINUTE, now);
  }

  lemma {:induction false} Judged(x: StampText, perMinute: nat, perHour: nat, s: Store, now: real, identifier: string,
               minuteCount: nat, hourCount: nat, s': Store)
    requires minuteCount == |Surviving(x, CellItems(Find(s, MinuteKey(identifier), now)), now - MINUTE as real)|
    requires hourCount == |Surviving(x, CellItems(Find(s, HourKey(identifier), now)), now - HOUR as real)|
    requires var more := if Judge(perMinute, perHour, minuteCount, hourCount) == Admitted then [now] else [];
             && Counts(x, s, s', MinuteKey(identifier), MINUTE, now, more)
             && Counts(x, s, s', HourKey(identifier), HOUR, now, more)
    requires Untouched(s, s', {MinuteKey(identifier), HourKey(identifier)}, now)
    ensures Checked(x, perMinute, perHour, s, now, identifier, Judge(perMinute, perHour, minuteCount, hourCount), s')
  {
    KeptIsCounted(x, s, MinuteKey(identifier), MINUTE, now);
    KeptIsCounted(x, s, HourKey(identifier), HOUR, now);
  }

  lemma {:induction false} SurvivingPositions(x: StampText, items: seq<string>, n: nat, cutoff: real)
    requires n <= |items|
    ensures |Surviving(x, items[..n], cutoff)| == |Positions(items, n, (item: string) => Survives(x, item, cutoff))|
  {
    if n > 0 {
      var front, last := items[..n - 1], items[n - 1];
      SurvivingPositions(x, items, n - 1, cutoff);
      assert items[..n] == front + [last];
      SurvivingSnoc(x, front, last, cutoff);
      PositionsSnoc(items, n, (item: string) => Survives(x, item, cutoff));
    }
  }

  /** The survivors of a trim, counted by position. */
  lemma {:induction false} SurvivingCount(x: StampText, items: seq<string>, cutoff: real)
    ensures |Surviving(x, items, cutoff)| == |set i | 0 <= i < |items| && x.read(items[i]).Some? && x.read(items[i]).value > cutoff|
  {
    SurvivingPositions(x, items, |items|, cutoff);
    assert items[..|items|] == items;
    assert Positions(items, |items|, (item: string) => Survives(x, item, cutoff))
        == set i | 0 <= i < |items| && x.read(items[i]).Some? && x.read(items[i]).value > cutoff;
  }

  lemma {:induction false} CountedCount(x: StampText, s: Store, key: string, w: nat, now: real)
    ensures var items := CellItems(Find(s, key, now));
            |Counted(x, s, key, w, now)| ==
            |set i | 0 <= i < |items| && x.read(items[i]).Some? && x.read(items[i]).value > now - w as real|
  {
    KeptIsCounted(x, s, key, w, now);
    SurvivingCount(x, CellItems(Find(s, key, now)), now - w as real);
  }

  lemma JudgeIff(perMinute: nat, perHour: nat, inMinute: nat, inHour: nat)
    ensures var verdict := Judge(perMinute, perHour, inMinute, inHour);
            && (verdict == Admitted <==> inMinute < perMinute && inHour < perHour)
            && (forall k :: verdict == MinuteExceeded(k) <==> k == inMinute && inMinute >= perMinute)
            && (forall k :: verdict == HourExceeded(k) <==> inMinute < perMinute && k == inHour && inHour >= perHour)
  {
  }

  /** The verdict of a check, by the stamps in the two stored lists. */
  lemma {:induction false} VerdictByStamps(x: StampText, perMinute: nat, perHour: nat, s: Store, now: real,
                                           identifier: string, verdict: Verdict, s': Store)
    requires Checked(x, perMinute, perHour, s, now, identifier, verdict, s')
    ensures var minutes := CellItems(Find(s, MinuteKey(identifier), now));
            var hours := CellItems(Find(s, HourKey(identifier), now));
            var inMinute := |set i | 0 <= i < |minutes| && x.read(minutes[i]).Some? && x.read(minutes[i]).value > now - 60.0|;
            var inHour := |set i | 0 <= i < |hours| && x.read(hours[i]).Some? && x.read(hours[i]).value > now - 3600.0|;
            && (verdict == Admitted <==> inMinute < perMinute && inHour < perHour)
            && (forall k :: verdict == MinuteExceeded(k) <==> k == inMinute && inMinute >= perMinute)
            && (forall k :: verdict == HourExceeded(k) <==> inMinute < perMinute && k == inHour && inHour >= perHour)
  {
    CountedCount(x, s, MinuteKey(identifier), MINUTE, now);
    CountedCount(x, s, HourKey(identifier), HOUR, now);
    JudgeIff(perMinute, perHour, |Counted(x, s, MinuteKey(identifier), MINUTE, now)|,
             |Counted(x, s, HourKey(identifier), HOUR, now)|);
  }

  /** An admission recorded, seen from the window. */
  lemma {:induction false} RecordedCounts(x: StampText, s: Store, s': Store, key: string, w: nat, now: real)
    requires ReadsBack(x, now) && WindowOk(x, s, key, w, now)
    requires Find(s', key, now) == Recorded(x, Find(s, key, now), w, now)
    ensures Counts(x, s, s', key, w, now, [now])
  {
    var c := Find(s, key, now);
    RecordedOk(x, c, w, now);
    forall t | t >= now
      ensures Counted(x, s', key, w, t) == After([now], t - w as real) + Counted(x, s, key, w, t)
    {
      FindLater(s, key, now, t);
      FindLater(s', key, now, t);
      RecordAddsOne(x, c, w, now, t);
    }
  }

  lemma {:induction false} RePushed(key: string, kept: seq<string>, now: real)
    requires kept != []
    ensures CellStep(None, now, LPush(key, Reverse(kept))).0 == Some(Entry(Items(kept), None))
  {
    ReverseTwice(kept);
    assert kept + [] == kept;
    assert |Reverse(kept)| == |kept|;
  }

  class BotProtectionManager {
    const cache: InMemoryCache
    const x: StampText
    const enableRateLimiting: bool
    const maxRequestsPerMinute: nat
    const maxRequestsPerHour: nat

    constructor (cache: InMemoryCache, x: StampText, enableRateLimiting: bool, perMinute: nat, perHour: nat)
      requires perMinute > 0 && perHour > 0
      ensures this.cache == cache && this.x == x && this.enableRateLimiting == enableRateLimiting
      ensures maxRequestsPerMinute == perMinute && maxRequestsPerHour == perHour
    {
      this.cache, this.x, this.enableRateLimiting := cache, x, enableRateLimiting;
      maxRequestsPerMinute, maxRequestsPerHour := perMinute, perHour;
    }

    /** The trimming loop: keep what is readable and inside the window. */
    method KeepRecent(raw: seq<string>, cutoff: real) returns (kept: seq<string>)
      ensures kept == Surviving(x, raw, cutoff)
    {
      kept := [];
      for i := 0 to |raw|
        invariant kept == Surviving(x, raw[..i], cutoff)
      {
        SurvivingSnoc(x, raw[..i], raw[i], cutoff);
        assert raw[..i + 1] == raw[..i] + [raw[i]];
        var ts := x.read(raw[i]);
        if ts.Some? && ts.value > cutoff {
          kept := kept + [raw[i]];
        }
      }
      assert raw[..|raw|] == raw;
    }

    /** `lrange(key, 0, -1)`: the whole list. */
    method ReadAll(key: string, now: real) returns (raw: seq<string>)
      requires cache.Valid()
      modifies cache
      ensures cache.Valid()
      ensures raw == CellItems(Find(old(cache.Snapshot()), key, now))
      ensures Find(cache.Snapshot(), key, now) == Find(old(cache.Snapshot()), key, now)
      ensures Untouched(old(cache.Snapshot()), cache.Snapshot(), {key}, now)
    {
      raw := cache.LRange(key, 0, -1, now);
    }

    /** Delete and re-push: the list comes back in the same order, its deadline is dropped. */
    method Rebuild(key: string, kept: seq<string>, now: real)
      requires cache.Valid()
      modifies cache
      ensures cache.Valid()
      ensures Find(cache.Snapshot(), key, now) == if kept == [] then None else Some(Entry(Items(kept), None))
      ensures Untouched(old(cache.Snapshot()), cache.Snapshot(), {key}, now)
    {
      var _ := cache.Delete(key, now);
      if kept != [] {
        RePushed(key, kept, now);
        var _ := cache.LPush(key, Reverse(kept), now);
      }
    }

    /** The rest of a maintenance pass, once the survivors are known. */
    method Maintain(key: string, raw: seq<string>, kept: seq<string>, w: nat, now: real)
      requires cache.Valid() && w > 0
      requires raw == CellItems(Find(cache.Snapshot(), key, now))
      requires |kept| <= |raw| && (|kept| == |raw| ==> kept == raw)
      modifies cache
      ensures cache.Valid()
      ensures Find(cache.Snapshot(), key, now) ==
              if raw == [] then Find(old(cache.Snapshot()), key, now)
              else if kept == [] then None
              else if kept == raw then Some(Find(old(cache.Snapshot()), key, now).value.(deadline := Some(now + w as real)))
              else Some(Entry(Items(kept), Some(now + w as real)))
      ensures Untouched(old(cache.Snapshot()), cache.Snapshot(), {key}, now)
    {
      if |kept| != |raw| {
        Rebuild(key, kept, now);
      }
      if kept != [] {
        var _ := cache.Expire(key, w, now);
      }
    }

    method WindowCount(key: string, w: nat, now: real) returns (count: nat)
      requires cache.Valid() && w > 0
      modifies cache
      ensures cache.Valid()
      ensures count == |Surviving(x, CellItems(Find(old(cache.Snapshot()), key, now)), now - w as real)|
      ensures Untouched(old(cache.Snapshot()), cache.Snapshot(), {key}, now)
      ensures Find(cache.Snapshot(), key, now) == Trimmed(x, Find(old(cache.Snapshot()), key, now), w, now)
    {
      var cutoff := now - w as real;
      var raw := ReadAll(key, now);
      var kept := KeepRecent(raw, cutoff);
      KeptIsCounted(x, old(cache.Snapshot()), key, w, now);
      Maintain(key, raw, kept, w, now);
      return |kept|;
    }

    /** The count again, with what the maintenance means for the window. */
    method Measure(key: string, w: nat, now: real) returns (count: nat)
      requires cache.Valid() && w > 0
      requires WindowOk(x, cache.Snapshot(), key, w, now)
      modifies cache
      ensures cache.Valid()
      ensures count == |Surviving(x, CellItems(Find(old(cache.Snapshot()), key, now)), now - w as real)|
      ensures Counts(x, old(cache.Snapshot()), cache.Snapshot(), key, w, now, [])
      ensures Untouched(old(cache.Snapshot()), cache.Snapshot(), {key}, now)
    {
      count := WindowCount(key, w, now);
      Settled(x, old(cache.Snapshot()), cache.Snapshot(), key, w, now);
    }

    /** `lpush` of the new stamp and a fresh deadline. */
    method Record(key: string, w: nat, now: real)
      requires ReadsBack(x, now) && cache.Valid() && w > 0
      requires WindowOk(x, cache.Snapshot(), key, w, now)
      modifies cache
      ensures cache.Valid()
      ensures Counts(x, old(cache.Snapshot()), cache.Snapshot(), key, w, now, [now])
      ensures Untouched(old(cache.Snapshot()), cache.Snapshot(), {key}, now)
    {
      ghost var s, c := cache.Snapshot(), Find(cache.Snapshot(), key, now);
      ReverseOne(x.show(now));
      var _ := cache.LPush(key, [x.show(now)], now);
      assert Find(cache.Snapshot(), key, now) == Some(Entry(Items([x.show(now)] + CellItems(c)), CellDeadline(c)));
      var _ := cache.Expire(key, w, now);
      assert Find(cache.Snapshot(), key, now) == Recorded(x, c, w, now);
      RecordedCounts(x, s, cache.Snapshot(), key, w, now);
    }

    /** The admission is recorded in both windows. */
    method RecordBoth(minuteKey: string, hourKey: string, now: real)
      requires ReadsBack(x, now) && cache.Valid() && minuteKey != hourKey
      requires WindowOk(x, cache.Snapshot(), minuteKey, MINUTE, now)
      requires WindowOk(x, cache.Snapshot(), hourKey, HOUR, now)
      modifies cache
      ensures cache.Valid()
      ensures Counts(x, old(cache.Snapshot()), cache.Snapshot(), minuteKey, MINUTE, now, [now])
      ensures Counts(x, old(cache.Snapshot()), cache.Snapshot(), hourKey, HOUR, now, [now])
      ensures Untouched(old(cache.Snapshot()), cache.Snapshot(), {minuteKey, hourKey}, now)
    {
      ghost var s := cache.Snapshot();
      Record(minuteKey, MINUTE, now);
      ghost var s1 := cache.Snapshot();
      UntouchedCounts(x, s, s1, hourKey, HOUR, now, {minuteKey});
      Record(hourKey, HOUR, now);
      ghost var s2 := cache.Snapshot();
      CountsChain(x, s, s1, s2, hourKey, HOUR, now, [], [now], [now]);
      UntouchedCounts(x, s1, s2, minuteKey, MINUTE, now, {hourKey});
      CountsChain(x, s, s1, s2, minuteKey, MINUTE, now, [now], [], [now]);
    }

    /** The two windows, one after the other, then the recording. */
    method JudgeAndRecord(identifier: string, now: real) returns (verdict: Verdict)
      requires ReadsBack(x, now) && cache.Valid()
      requires WindowOk(x, cache.Snapshot(), MinuteKey(identifier), MINUTE, now)
      requires WindowOk(x, cache.Snapshot(), HourKey(identifier), HOUR, now)
      modifies cache
      ensures cache.Valid()
      ensures Checked(x, maxRequestsPerMinute, maxRequestsPerHour,
                      old(cache.Snapshot()), now, identifier, verdict, cache.Snapshot())
    {
      var minuteKey, hourKey := MinuteKey(identifier), HourKey(identifier);
      KeysDistinct(identifier, identifier);
      ghost var s0 := cache.Snapshot();
      var minuteCount := Measure(minuteKey, MINUTE, now);
      ghost var s1 := cache.Snapshot();
      UntouchedCounts(x, s0, s1, hourKey, HOUR, now, {minuteKey});
      assert Find(s1, hourKey, now) == Find(s0, hourKey, now);
      if minuteCount >= maxRequestsPerMinute {
        RejectedByMinute(x, maxRequestsPerMinute, maxRequestsPerHour, s0, now, identifier, minuteCount, s1);
        return MinuteExceeded(minuteCount);
      }
      var hourCount := Measure(hourKey, HOUR, now);
      ghost var s2 := cache.Snapshot();
      BothMeasured(x, s0, s1, s2, minuteKey, hourKey, now);
      if hourCount >= maxRequestsPerHour {
        Judged(x, maxRequestsPerMinute, maxRequestsPerHour, s0, now, identifier, minuteCount, hourCount, s2);
        return HourExceeded(hourCount);
      }
      RecordBoth(minuteKey, hourKey, now);
      ghost var s4 := cache.Snapshot();
      CountsChain(x, s0, s2, s4, minuteKey, MINUTE, now, [], [now], [now]);
      CountsChain(x, s0, s2, s4, hourKey, HOUR, now, [], [now], [now]);
      Judged(x, maxRequestsPerMinute, maxRequestsPerHour, s0, now, identifier, minuteCount, hourCount, s4);
      return Admitted;
    }

    /** Admitted exactly when both stored lists hold fewer stamps inside their window than the budget; refused by
        the minute, with its count, whenever that is full, and by the hour only when the minute has room. */
    method CheckRateLimit(identifier: string, now: real) returns (verdict: Verdict)
      requires ReadsBack(x, now) && cache.Valid()
      requires WindowOk(x, cache.Snapshot(), MinuteKey(identifier), MINUTE, now)
      requires WindowOk(x, cache.Snapshot(), HourKey(identifier), HOUR, now)
      modifies cache
      ensures cache.Valid()
      ensures !enableRateLimiting ==> verdict == Admitted && cache.Snapshot() == old(cache.Snapshot())
      ensures enableRateLimiting ==>
                Checked(x, maxRequestsPerMinute, maxRequestsPerHour,
                        old(cache.Snapshot()), now, identifier, verdict, cache.Snapshot())
      ensures enableRateLimiting ==>
                var minutes := CellItems(Find(old(cache.Snapshot()), MinuteKey(identifier), now));
                var hours := CellItems(Find(old(cache.Snapshot()), HourKey(identifier), now));
                var inMinute := |set i | 0 <= i < |minutes| && x.read(minutes[i]).Some? && x.read(minutes[i]).value > now - 60.0|;
                var inHour := |set i | 0 <= i < |hours| && x.read(hours[i]).Some? && x.read(hours[i]).value > now - 3600.0|;
                && (verdict == Admitted <==> inMinute < maxRequestsPerMinute && inHour < maxRequestsPerHour)
                && (forall k :: verdict == MinuteExceeded(k) <==> k == inMinute && inMinute >= maxRequestsPerMinute)
                && (forall k :: verdict == HourExceeded(k) <==>
                      inMinute < maxRequestsPerMinute && k == inHour && inHour >= maxRequestsPerHour)
    {
      if !enableRateLimiting {
        return Admitted;
      }
      verdict := JudgeAndRecord(identifier, now);
      VerdictByStamps(x, maxRequestsPerMinute, maxRequestsPerHour, old(cache.Snapshot()), now, identifier, verdict, cache.Snapshot());
    }

    /** The analytics ledger keeps the newest entries only, newest first, and lives a day from the last one. */
    method RecordAction(key: string, entry: string, now: real)
      requires cache.Valid()
      modifies cache
      ensures cache.Valid()
      ensures Find(cache.Snapshot(), key, now) ==
              Some(Entry(Items(Newest([entry] + CellItems(Find(old(cache.Snapshot()), key, now)))),
                         Some(now + 86400.0)))
      ensures Untouched(old(cache.Snapshot()), cache.Snapshot(), {key}, now)
    {
      ReverseOne(entry);
      var _ := cache.LPush(key, [entry], now);
      var all := ReadAll(key, now);
      KeepNewest(key, all, now);
    }

    method KeepNewest(key: string, all: seq<string>, now: real)
      requires cache.Valid() && all != []
      requires Find(cache.Snapshot(), key, now).Some? && Find(cache.Snapshot(), key, now).value.value == Items(all)
      modifies cache
      ensures cache.Valid()
      ensures Find(cache.Snapshot(), key, now) == Some(Entry(Items(Newest(all)), Some(now + 86400.0)))
      ensures Untouched(old(cache.Snapshot()), cache.Snapshot(), {key}, now)
    {
      if |all| > ACTION_LOG_MAX_ENTRIES {
        Rebuild(key, all[..ACTION_LOG_MAX_ENTRIES], now);
      }
      var _ := cache.Expire(key, 86400, now);
    }
  }

  function Newest(log: seq<string>): (r: seq<string>)
    ensures r <= log && |r| == if |log| > 100 then 100 else |log|
  {
    if |log| > ACTION_LOG_MAX_ENTRIES then log[..ACTION_LOG_MAX_ENTRIES] else log
  }

  lemma {:induction false} WindowClears(x: StampText, s: Store, key: string, w: nat, now: real, t: real)
    requires WindowOk(x, s, key, w, now) && t >= now + w as real
    ensures Counted(x, s, key, w, t) == []
  {
    var c := Find(s, key, now);
    FindLater(s, key, now, t);
    ExpiryInvisible(x, c, w, now, t);
    AfterLater(Stamps(x, CellItems(c)), now, t - w as real);
  }

  /** A refused caller that waits as told, a minute or an hour, with no admission meanwhile, finds the exceeded
      window empty. */
  lemma {:induction false} RetryAfterSuffices(x: StampText, perMinute: nat, perHour: nat, s: Store, now: real,
                                              identifier: string, verdict: Verdict, s': Store, t: real)
    requires Checked(x, perMinute, perHour, s, now, identifier, verdict, s')
    ensures verdict.MinuteExceeded? && t >= now + 60.0 ==> Counted(x, s', MinuteKey(identifier), MINUTE, t) == []
    ensures verdict.HourExceeded? && t >= now + 3600.0 ==> Counted(x, s', HourKey(identifier), HOUR, t) == []
  {
    if verdict.MinuteExceeded? && t >= now + 60.0 {
      WindowClears(x, s', MinuteKey(identifier), MINUTE, now, t);
    }
    if verdict.HourExceeded? && t >= now + 3600.0 {
      WindowClears(x, s', HourKey(identifier), HOUR, now, t);
    }
  }

  // ---- whole runs ----

  /** A check on some identifier, or other cache traffic that leaves every limiter key alone. */
  datatype Event =
    | Check(now: real, identifier: string, verdict: Verdict)
    | Other(now: real)

  ghost predicate LimiterKeysUntouched(s: Store, now: real, s': Store) {
    forall i, t :: t >= now ==>
      && Find(s', MinuteKey(i), t) == Find(s, MinuteKey(i), t)
      && Find(s', HourKey(i), t) == Find(s, HourKey(i), t)
  }

  ghost predicate EventStep(x: StampText, perMinute: nat, perHour: nat, s: Store, e: Event, s': Store) {
    match e
    case Check(now, i, v) => Checked(x, perMinute, perHour, s, now, i, v, s')
    case Other(now) => LimiterKeysUntouched(s, now, s')
  }

  /** A run of the limiter: no limiter key to begin with, and a clock that never goes back. */
  ghost predicate IsRun(x: StampText, perMinute: nat, perHour: nat, stores: seq<Store>, events: seq<Event>) {
    && |stores| == |events| + 1
    && (forall i, t :: Find(stores[0], MinuteKey(i), t) == None && Find(stores[0], HourKey(i), t) == None)
    && (forall n :: 0 < n < |events| ==> events[n - 1].now <= events[n].now)
    && (forall n :: 0 <= n < |events| ==> EventStep(x, perMinute, perHour, stores[n], events[n], stores[n + 1]))
  }

  function AdmittedBy(e: Event, identifier: string): seq<real> {
    if e.Check? && e.identifier == identifier && e.verdict == Admitted then [e.now] else []
  }

  /** Every admission of `identifier` so far, newest first, never trimmed. */
  function Admissions(events: seq<Event>, identifier: string): seq<real> {
    if events == [] then []
    else AdmittedBy(events[|events| - 1], identifier) + Admissions(events[..|events| - 1], identifier)
  }

  /** What a limiter that remembers everything would say. */
  function FullHistoryVerdict(perMinute: nat, perHour: nat, history: seq<real>, now: real): Verdict {
    Judge(perMinute, perHour, |After(history, now - MINUTE as real)|, |After(history, now - HOUR as real)|)
  }

  ghost predicate Tracked(x: StampText, s: Store, key: string, w: nat, history: seq<real>, t: real) {
    WindowOk(x, s, key, w, t) && Counted(x, s, key, w, t) == After(history, t - w as real)
  }

  lemma WindowOkLater(x: StampText, s: Store, key: string, w: nat, now: real, t: real)
    requires WindowOk(x, s, key, w, now) && t >= now
    ensures WindowOk(x, s, key, w, t)
  {
    FindLater(s, key, now, t);
    AfterLater(Stamps(x, CellItems(Find(s, key, now))), now, t);
  }

  lemma {:induction false} TrackedStep(x: StampText, s: Store, s': Store, key: string, w: nat, now: real, t: real,
                    history: seq<real>, more: seq<real>)
    requires t >= now && Counts(x, s, s', key, w, now, more)
    requires Counted(x, s, key, w, t) == After(history, t - w as real)
    ensures Tracked(x, s', key, w, more + history, t)
  {
    WindowOkLater(x, s', key, w, now, t);
    AfterConcat(more, history, t - w as real);
  }

  lemma {:induction false} UntouchedTracks(x: StampText, s: Store, s': Store, key: string, w: nat, history: seq<real>, t: real)
    requires Tracked(x, s, key, w, history, t) && Find(s', key, t) == Find(s, key, t)
    ensures Tracked(x, s', key, w, [] + history, t)
  {
    assert [] + history == history;
  }

  /** An event on another identifier leaves this one's keys alone. */
  lemma {:induction false} ElsewhereLeaves(x: StampText, perMinute: nat, perHour: nat, s: Store, e: Event, s': Store,
                                           identifier: string, t: real)
    requires EventStep(x, perMinute, perHour, s, e, s') && t >= e.now
    requires e.Check? ==> e.identifier != identifier
    ensures Find(s', MinuteKey(identifier), t) == Find(s, MinuteKey(identifier), t)
    ensures Find(s', HourKey(identifier), t) == Find(s, HourKey(identifier), t)
  {
    if e.Check? {
      KeysDistinct(identifier, e.identifier);
      KeysDistinct(e.identifier, identifier);
    }
  }

  lemma {:induction false} EventTracks(x: StampText, perMinute: nat, perHour: nat, s: Store, e: Event, s': Store,
                    identifier: string, t: real, history: seq<real>)
    requires EventStep(x, perMinute, perHour, s, e, s') && t >= e.now
    requires Tracked(x, s, MinuteKey(identifier), MINUTE, history, t)
    requires Tracked(x, s, HourKey(identifier), HOUR, history, t)
    ensures Tracked(x, s', MinuteKey(identifier), MINUTE, AdmittedBy(e, identifier) + history, t)
    ensures Tracked(x, s', HourKey(identifier), HOUR, AdmittedBy(e, identifier) + history, t)
  {
    var mk, hk := MinuteKey(identifier), HourKey(identifier);
    if e.Check? && e.identifier == identifier {
      TrackedStep(x, s, s', mk, MINUTE, e.now, t, history, AdmittedBy(e, identifier));
      TrackedStep(x, s, s', hk, HOUR, e.now, t, history, AdmittedBy(e, identifier));
    } else {
      ElsewhereLeaves(x, perMinute, perHour, s, e, s', identifier, t);
      UntouchedTracks(x, s, s', mk, MINUTE, history, t);
      UntouchedTracks(x, s, s', hk, HOUR, history, t);
    }
  }

  /** What the cache counts is what the full history counts, for every identifier, from the last event on. */
  lemma {:induction false} CacheTracksHistory(x: StampText, perMinute: nat, perHour: nat, stores: seq<Store>, events: seq<Event>,
                                              n: nat, identifier: string, t: real)
    requires IsRun(x, perMinute, perHour, stores, events)
    requires n <= |events| && (n > 0 ==> t >= events[n - 1].now)
    ensures Tracked(x, stores[n], MinuteKey(identifier), MINUTE, Admissions(events[..n], identifier), t)
    ensures Tracked(x, stores[n], HourKey(identifier), HOUR, Admissions(events[..n], identifier), t)
  {
    if n > 0 {
      CacheTracksHistory(x, perMinute, perHour, stores, events, n - 1, identifier, t);
      assert events[..n][..n - 1] == events[..n - 1];
      EventTracks(x, perMinute, perHour, stores[n - 1], events[n - 1], stores[n], identifier, t,
                  Admissions(events[..n - 1], identifier));
    }
  }

  lemma {:induction false} RunStep(x: StampText, perMinute: nat, perHour: nat, stores: seq<Store>, events: seq<Event>, n: nat)
    requires IsRun(x, perMinute, perHour, stores, events) && n < |events|
    ensures EventStep(x, perMinute, perHour, stores[n], events[n], stores[n + 1])
    ensures n > 0 ==> events[n - 1].now <= events[n].now
  {
  }

  lemma {:induction false} CheckJudged(x: StampText, perMinute: nat, perHour: nat, s: Store, e: Event, s': Store, history: seq<real>)
    requires e.Check? && EventStep(x, perMinute, perHour, s, e, s')
    requires Tracked(x, s, MinuteKey(e.identifier), MINUTE, history, e.now)
    requires Tracked(x, s, HourKey(e.identifier), HOUR, history, e.now)
    ensures e.verdict == FullHistoryVerdict(perMinute, perHour, history, e.now)
  {
  }

  lemma {:induction false} CheckedByHistory(x: StampText, perMinute: nat, perHour: nat, stores: seq<Store>, events: seq<Event>, n: nat)
    requires IsRun(x, perMinute, perHour, stores, events)
    requires n < |events| && events[n].Check?
    ensures events[n].verdict ==
            FullHistoryVerdict(perMinute, perHour, Admissions(events[..n], events[n].identifier), events[n].now)
  {
    var e := events[n];
    CacheTracksHistory(x, perMinute, perHour, stores, events, n, e.identifier, e.now);
    RunStep(x, perMinute, perHour, stores, events, n);
    CheckJudged(x, perMinute, perHour, stores[n], e, stores[n + 1], Admissions(events[..n], e.identifier));
  }

  /** An admission of `identifier` after `cutoff`. */
  ghost function AdmittedAfter(identifier: string, cutoff: real): Event -> bool {
    (e: Event) => e.Check? && e.identifier == identifier && e.verdict == Admitted && e.now > cutoff
  }

  ghost function AdmittedInside(identifier: string, lo: real, hi: real): Event -> bool {
    (e: Event) => e.Check? && e.identifier == identifier && e.verdict == Admitted && lo <= e.now < hi
  }

  /** The admissions after `cutoff`, counted by position in the run. */
  lemma {:induction false} AdmissionsAfter(events: seq<Event>, n: nat, identifier: string, cutoff: real)
    requires n <= |events|
    ensures |After(Admissions(events[..n], identifier), cutoff)| == |Positions(events, n, AdmittedAfter(identifier, cutoff))|
  {
    if n > 0 {
      var e, before := events[n - 1], Admissions(events[..n - 1], identifier);
      AdmissionsAfter(events, n - 1, identifier, cutoff);
      assert events[..n][..n - 1] == events[..n - 1];
      AfterConcat(AdmittedBy(e, identifier), before, cutoff);
      PositionsSnoc(events, n, AdmittedAfter(identifier, cutoff));
      assert |After(AdmittedBy(e, identifier), cutoff)| == if AdmittedAfter(identifier, cutoff)(e) then 1 else 0;
    }
  }

  /** The admissions inside an interval, counted by position in the run. */
  lemma {:induction false} AdmissionsInside(events: seq<Event>, n: nat, identifier: string, lo: real, hi: real)
    requires n <= |events|
    ensures Inside(Admissions(events[..n], identifier), lo, hi) == |Positions(events, n, AdmittedInside(identifier, lo, hi))|
  {
    if n > 0 {
      var e, before := events[n - 1], Admissions(events[..n - 1], identifier);
      AdmissionsInside(events, n - 1, identifier, lo, hi);
      assert events[..n][..n - 1] == events[..n - 1];
      InsideConcat(AdmittedBy(e, identifier), before, lo, hi);
      PositionsSnoc(events, n, AdmittedInside(identifier, lo, hi));
      assert Inside(AdmittedBy(e, identifier), lo, hi) == if AdmittedInside(identifier, lo, hi)(e) then 1 else 0;
    }
  }

  lemma {:induction false} AfterByPosition(events: seq<Event>, n: nat, identifier: string, cutoff: real)
    requires n <= |events|
    ensures |After(Admissions(events[..n], identifier), cutoff)|
         == |set i | 0 <= i < n && events[i].Check? && events[i].identifier == identifier
                     && events[i].verdict == Admitted && events[i].now > cutoff|
  {
    AdmissionsAfter(events, n, identifier, cutoff);
    assert Positions(events, n, AdmittedAfter(identifier, cutoff))
        == set i | 0 <= i < n && events[i].Check? && events[i].identifier == identifier
                   && events[i].verdict == Admitted && events[i].now > cutoff;
  }

  lemma {:induction false} InsideByPosition(events: seq<Event>, n: nat, identifier: string, lo: real, hi: real)
    requires n <= |events|
    ensures Inside(Admissions(events[..n], identifier), lo, hi)
         == |set i | 0 <= i < n && events[i].Check? && events[i].identifier == identifier
                     && events[i].verdict == Admitted && lo <= events[i].now < hi|
  {
    AdmissionsInside(events, n, identifier, lo, hi);
    assert Positions(events, n, AdmittedInside(identifier, lo, hi))
        == set i | 0 <= i < n && events[i].Check? && events[i].identifier == identifier
                   && events[i].verdict == Admitted && lo <= events[i].now < hi;
  }

  /** On every run a check is admitted exactly when fewer than the budget of the identifier's admissions are
      less than a minute old, and fewer than the budget less than an hour old; it is refused by the minute, with
      that count, whenever the minute is full, and by the hour, with that count, only when the minute has room. */
  lemma {:induction false} ChecksMatchFullHistory(x: StampText, perMinute: nat, perHour: nat, stores: seq<Store>, events: seq<Event>, n: nat)
    requires IsRun(x, perMinute, perHour, stores, events)
    requires n < |events| && events[n].Check?
    ensures var e := events[n];
            var inMinute := |set i | 0 <= i < n && events[i].Check? && events[i].identifier == e.identifier
                                     && events[i].verdict == Admitted && events[i].now > e.now - 60.0|;
            var inHour := |set i | 0 <= i < n && events[i].Check? && events[i].identifier == e.identifier
                                   && events[i].verdict == Admitted && events[i].now > e.now - 3600.0|;
            && (e.verdict == Admitted <==> inMinute < perMinute && inHour < perHour)
            && (forall k :: e.verdict == MinuteExceeded(k) <==> k == inMinute && inMinute >= perMinute)
            && (forall k :: e.verdict == HourExceeded(k) <==> inMinute < perMinute && k == inHour && inHour >= perHour)
  {
    var e := events[n];
    CheckedByHistory(x, perMinute, perHour, stores, events, n);
    AfterByPosition(events, n, e.identifier, e.now - 60.0);
    AfterByPosition(events, n, e.identifier, e.now - 3600.0);
    var history := Admissions(events[..n], e.identifier);
    JudgeIff(perMinute, perHour, |After(history, e.now - MINUTE as real)|, |After(history, e.now - HOUR as real)|);
  }

  lemma InsideAfter(stamps: seq<real>, lo: real, hi: real, cutoff: real)
    requires cutoff < lo
    ensures Inside(stamps, lo, hi) <= |After(stamps, cutoff)|
  {
  }

  /** One more admission, when fewer than the budget counted. */
  lemma {:induction false} AdmissionFits(history: seq<real>, now: real, lo: real, w: nat, budget: nat)
    requires Inside(history, lo, lo + w as real) <= budget
    requires |After(history, now - w as real)| < budget
    ensures Inside([now] + history, lo, lo + w as real) <= budget
  {
    assert ([now] + history)[1..] == history;
    if now < lo + w as real {
      InsideAfter(history, lo, lo + w as real, now - w as real);
    }
  }

  /** An event adds to neither interval more than its budget, as it is judged by what counts. */
  lemma {:induction false} EventFits(perMinute: nat, perHour: nat, e: Event, identifier: string, history: seq<real>,
                                     lo: real, w: nat, budget: nat)
    requires (w == MINUTE && budget == perMinute) || (w == HOUR && budget == perHour)
    requires e.Check? && e.identifier == identifier ==> e.verdict == FullHistoryVerdict(perMinute, perHour, history, e.now)
    requires Inside(history, lo, lo + w as real) <= budget
    ensures Inside(AdmittedBy(e, identifier) + history, lo, lo + w as real) <= budget
  {
    if AdmittedBy(e, identifier) != [] {
      AdmissionFits(history, e.now, lo, w, budget);
    } else {
      assert [] + history == history;
    }
  }

  lemma {:induction false} BudgetOfWindow(x: StampText, perMinute: nat, perHour: nat, stores: seq<Store>, events: seq<Event>,
                                          n: nat, identifier: string, lo: real, w: nat, budget: nat)
    requires IsRun(x, perMinute, perHour, stores, events) && n <= |events|
    requires (w == MINUTE && budget == perMinute) || (w == HOUR && budget == perHour)
    ensures Inside(Admissions(events[..n], identifier), lo, lo + w as real) <= budget
  {
    if n > 0 {
      BudgetOfWindow(x, perMinute, perHour, stores, events, n - 1, identifier, lo, w, budget);
      assert events[..n][..n - 1] == events[..n - 1];
      var e := events[n - 1];
      if e.Check? && e.identifier == identifier {
        CheckedByHistory(x, perMinute, perHour, stores, events, n - 1);
      }
      EventFits(perMinute, perHour, e, identifier, Admissions(events[..n - 1], identifier), lo, w, budget);
    }
  }

  /** On every run, no half-open interval of a minute holds more admissions of an identifier than the minute budget,
      and none of an hour more than the hour budget. */
  lemma {:induction false} BudgetPerInterval(x: StampText, perMinute: nat, perHour: nat, stores: seq<Store>, events: seq<Event>,
                                             n: nat, identifier: string, lo: real)
    requires IsRun(x, perMinute, perHour, stores, events) && n <= |events|
    ensures |set i | 0 <= i < n && events[i].Check? && events[i].identifier == identifier
                     && events[i].verdict == Admitted && lo <= events[i].now < lo + 60.0| <= perMinute
    ensures |set i | 0 <= i < n && events[i].Check? && events[i].identifier == identifier
                     && events[i].verdict == Admitted && lo <= events[i].now < lo + 3600.0| <= perHour
  {
    InsideByPosition(events, n, identifier, lo, lo + 60.0);
    InsideByPosition(events, n, identifier, lo, lo + 3600.0);
    BudgetOfWindow(x, perMinute, perHour, stores, events, n, identifier, lo, MINUTE, perMinute);
    BudgetOfWindow(x, perMinute, perHour, stores, events, n, identifier, lo, HOUR, perHour);
  }
}
