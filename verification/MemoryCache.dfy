/**
 The in-process cache: strings, counters, lists and hashes with lazy expiry.

 A key is purged only when an operation touches it. The reference here is an eager
 store that drops every expired key at once; each operation of the class is proved
 to do to every key, at every later moment, what the reference does.
 */
module MemoryCache {
  import opened Prelude
  import Decimal

  /** What is stored under one key; only a misplaced `incr` ever fills two of the three. */
  datatype Value = Value(
    text: Option<string>,
    items: Option<seq<string>>,
    fields: Option<map<string, string>>)

  function Text(t: string): Value { Value(Some(t), None, None) }
  function Items(items: seq<string>): Value { Value(None, Some(items), None) }
  function Fields(fields: map<string, string>): Value { Value(None, None, Some(fields)) }

  datatype Entry = Entry(value: Value, deadline: Option<real>)

  /** What one key holds: nothing, or a value with its deadline. */
  type Cell = Option<Entry>

  /** The four dictionaries of the cache, as a value. */
  datatype Store = Store(
    values: map<string, string>,
    lists: map<string, seq<string>>,
    hashes: map<string, map<string, string>>,
    expiry: map<string, real>)

  ghost predicate ExistsAny(s: Store, key: string) {
    key in s.values || key in s.lists || key in s.hashes
  }

  /** No stored empty list, no deadline without a key. */
  ghost predicate Wf(s: Store) {
    && (forall k :: k in s.lists ==> s.lists[k] != [])
    && (forall k :: k in s.expiry ==> ExistsAny(s, k))
  }

  ghost function Slot<T>(m: map<string, T>, key: string): Option<T> {
    if key in m then Some(m[key]) else None
  }

  /** What is stored under `key`, expired or not. */
  ghost function Stored(s: Store, key: string): Cell {
    if ExistsAny(s, key)
    then Some(Entry(Value(Slot(s.values, key), Slot(s.lists, key), Slot(s.hashes, key)), Slot(s.expiry, key)))
    else None
  }

  /** What `key` holds for an observer at time `t`. */
  ghost function Find(s: Store, key: string, t: real): Cell {
    if key in s.expiry && t >= s.expiry[key] then None else Stored(s, key)
  }

  /** A cell as seen at time `t`: gone once its deadline has come. */
  function AtTime(c: Cell, t: real): Cell {
    if c.Some? && c.value.deadline.Some? && t >= c.value.deadline.value then None else c
  }

  /** Later views follow from the view now. */
  lemma FindLater(s: Store, key: string, now: real, t: real)
    requires t >= now
    ensures Find(s, key, t) == AtTime(Find(s, key, now), t)
    ensures AtTime(Find(s, key, now), now) == Find(s, key, now)
  {
  }

  datatype Op =
    | Get(key: string)
    | Put(key: string, value: string, ttl: Option<int>)
    | Delete(key: string)
    | Exists(key: string)
    | Incr(key: string)
    | Expire(key: string, seconds: int)
    | Ttl(key: string)
    | LPush(key: string, pushed: seq<string>)
    | RPop(key: string)
    | LRange(key: string, start: int, stop: int)
    | HSet(key: string, mapping: map<string, string>)
    | HGetAll(key: string)
    | HDel(key: string, names: seq<string>)

  datatype Reply =
    | Done
    | Maybe(found: Option<string>)
    | Flag(flag: bool)
    | Number(number: int)
    | Strings(strings: seq<string>)
    | Dict(dict: map<string, string>)
    | ValueError

  function CellDeadline(c: Cell): Option<real> {
    if c.Some? then c.value.deadline else None
  }

  function CellText(c: Cell): Option<string> {
    if c.Some? then c.value.value.text else None
  }

  function CellItems(c: Cell): seq<string> {
    if c.Some? && c.value.value.items.Some? then c.value.value.items.value else []
  }

  function CellFields(c: Cell): map<string, string> {
    if c.Some? && c.value.value.fields.Some? then c.value.value.fields.value else map[]
  }

  /** The cell with its string set, whatever else it holds. */
  function WithText(c: Cell, t: string): Cell {
    Some(Entry(if c.Some? then c.value.value.(text := Some(t)) else Text(t), CellDeadline(c)))
  }

  /** `ceil`, through the floor of the negation. */
  function Ceil(x: real): int { -((-x).Floor) }

  function Max(a: int, b: int): int { if a >= b then a else b }
  function Min(a: int, b: int): int { if a <= b then a else b }

  /** Inclusive bounds; a negative bound counts from the end. */
  function Slice(items: seq<string>, start: int, stop: int): seq<string> {
    var first := if start < 0 then Max(0, |items| + start) else start;
    var last := if stop < 0 then |items| + stop else stop;
    if first > last || first >= |items| then [] else items[first..Min(last + 1, |items|)]
  }

  function Present(m: map<string, string>, names: seq<string>): set<string> {
    set n | n in names && n in m
  }

  /** The reference: what one operation does to the cell of its key, already live at `now`. */
  function CellStep(c: Cell, now: real, op: Op): (Cell, Reply) {
    match op
    case Get(_) => (c, Maybe(CellText(c)))
    case Put(_, v, None) => (Some(Entry(Text(v), None)), Done)
    case Put(_, v, Some(ttl)) =>
      if ttl <= 0 then (Some(Entry(Text(v), CellDeadline(c))), ValueError)
      else (Some(Entry(Text(v), Some(now + ttl as real))), Done)
    case Delete(_) => (None, Flag(c.Some?))
    case Exists(_) => (c, Flag(c.Some?))
    case Incr(_) =>
      match CellText(c) {
        case None => (WithText(c, Decimal.Show(1)), Number(1))
        case Some(t) =>
          match Decimal.Read(t) {
            case None => (c, ValueError)
            case Some(n) => (WithText(c, Decimal.Show(n + 1)), Number(n + 1))
          }
      }
    case Expire(_, seconds) =>
      if c.None? then (c, Flag(false))
      else if seconds <= 0 then (c, ValueError)
      else (Some(c.value.(deadline := Some(now + seconds as real))), Flag(true))
    case Ttl(_) =>
      if c.None? then (c, Number(-2))
      else if c.value.deadline.None? then (c, Number(-1))
      else (c, Number(Max(0, Ceil(c.value.deadline.value - now))))
    case LPush(_, pushed) =>
      if pushed == [] then (c, ValueError)
      else
        var items := Reverse(pushed) + CellItems(c);
        (Some(Entry(Items(items), CellDeadline(c))), Number(|items|))
    case RPop(_) =>
      var items := CellItems(c);
      if items == [] then (c, Maybe(None))
      else
        var rest := items[..|items| - 1];
        (if rest == [] then None else Some(c.value.(value := c.value.value.(items := Some(rest)))), Maybe(Some(items[|items| - 1])))
    case LRange(_, start, stop) => (c, Strings(Slice(CellItems(c), start, stop)))
    case HSet(_, mapping) => (Some(Entry(Fields(CellFields(c) + mapping), CellDeadline(c))), Done)
    case HGetAll(_) => (c, Dict(CellFields(c)))
    case HDel(_, names) =>
      var entry := CellFields(c);
      if entry == map[] then (c, Number(0))
      else
        var gone := Present(entry, names);
        (if entry - gone == map[] then None else Some(c.value.(value := c.value.value.(fields := Some(entry - gone)))), Number(|gone|))
  }

  /** One operation at `now` took the store from `s` to `s'`, as the reference would, at every later time. */
  ghost predicate Stepped(s: Store, now: real, op: Op, s': Store, reply: Reply) {
    && Wf(s')
    && reply == CellStep(Find(s, op.key, now), now, op).1
    && forall k, t {:trigger Find(s', k, t)} :: t >= now ==>
         Find(s', k, t) ==
         if k == op.key then AtTime(CellStep(Find(s, k, now), now, op).0, t) else Find(s, k, t)
  }

  /** `s'` differs from `s` at most in what it stores under `key`. */
  ghost predicate SameExcept(s: Store, s': Store, key: string) {
    && (forall k :: k != key ==> (k in s.values <==> k in s'.values) && (k in s.values ==> s.values[k] == s'.values[k]))
    && (forall k :: k != key ==> (k in s.lists <==> k in s'.lists) && (k in s.lists ==> s.lists[k] == s'.lists[k]))
    && (forall k :: k != key ==> (k in s.hashes <==> k in s'.hashes) && (k in s.hashes ==> s.hashes[k] == s'.hashes[k]))
    && (forall k :: k != key ==> (k in s.expiry <==> k in s'.expiry) && (k in s.expiry ==> s.expiry[k] == s'.expiry[k]))
  }

  /** `Wf` at one key. */
  ghost predicate WfAt(s: Store, key: string) {
    && (key in s.lists ==> s.lists[key] != [])
    && (key in s.expiry ==> ExistsAny(s, key))
  }

  lemma ConfinedWf(s: Store, key: string, s': Store)
    requires Wf(s) && SameExcept(s, s', key) && WfAt(s', key)
    ensures Wf(s')
  {
    forall k ensures WfAt(s', k) {
      assert k != key ==> WfAt(s, k);
    }
    assert forall k :: k in s'.lists || k in s'.expiry ==> WfAt(s', k);
  }

  /** A change confined to one key shows at that key only, at every time. */
  lemma ConfinedFind(s: Store, key: string, s': Store)
    requires SameExcept(s, s', key) && WfAt(s', key)
    ensures forall k, t {:trigger Find(s', k, t)} ::
              Find(s', k, t) == if k == key then AtTime(Stored(s', key), t) else Find(s, k, t)
  {
    forall k, t
      ensures Find(s', k, t) == if k == key then AtTime(Stored(s', key), t) else Find(s, k, t)
    {
      assert k != key ==> Stored(s', k) == Stored(s, k);
    }
  }

  /** A change confined to the operation's key is a step as soon as that one cell is right. */
  lemma Confined(s: Store, now: real, op: Op, s': Store, reply: Reply)
    requires Wf(s) && SameExcept(s, s', op.key) && WfAt(s', op.key)
    requires CellStep(Find(s, op.key, now), now, op) == (Stored(s', op.key), reply)
    ensures Stepped(s, now, op, s', reply)
  {
    ghost var cell := CellStep(Find(s, op.key, now), now, op).0;
    ConfinedWf(s, op.key, s');
    ConfinedFind(s, op.key, s');
  }

  /** From `now` on, every key outside `keys` shows in `s'` what it shows in `s`. */
  ghost predicate Untouched(s: Store, s': Store, keys: set<string>, now: real) {
    forall k, t {:trigger Find(s', k, t)} :: k !in keys && t >= now ==> Find(s', k, t) == Find(s, k, t)
  }

  class InMemoryCache {
    var values: map<string, string>
    var lists: map<string, seq<string>>
    var hashes: map<string, map<string, string>>
    var expiry: map<string, real>

    constructor ()
      ensures Valid()
      ensures forall k, t :: Find(Snapshot(), k, t) == None
    {
      values, lists, hashes, expiry := map[], map[], map[], map[];
    }

    ghost function Snapshot(): Store
      reads this
    {
      Store(values, lists, hashes, expiry)
    }

    ghost predicate Valid()
      reads this
    {
      Wf(Snapshot())
    }

    method PurgeIfExpired(key: string, now: real)
      modifies this
      ensures Snapshot() == Purged(old(Snapshot()), key, now)
      ensures old(Valid()) ==> Valid() && Stored(Snapshot(), key) == Find(old(Snapshot()), key, now)
    {
      if key in expiry && now >= expiry[key] {
        values := values - {key};
        lists := lists - {key};
        hashes := hashes - {key};
        expiry := expiry - {key};
      }
    }

    method RemoveKey(key: string) returns (existed: bool)
      modifies this
      ensures existed == ExistsAny(old(Snapshot()), key)
      ensures Snapshot() == Without(old(Snapshot()), key)
    {
      existed := key in values || key in lists || key in hashes;
      values := values - {key};
      lists := lists - {key};
      hashes := hashes - {key};
      expiry := expiry - {key};
    }

    method Get(key: string, now: real) returns (r: Option<string>)
      requires Valid()
      modifies this
      ensures Stepped(old(Snapshot()), now, Op.Get(key), Snapshot(), Maybe(r))
    {
      PurgeIfExpired(key, now);
      r := if key in values then Some(values[key]) else None;
      Confined(old(Snapshot()), now, Op.Get(key), Snapshot(), Maybe(r));
    }

    method SetExpiry(key: string, ttl: Option<int>, now: real) returns (r: Reply)
      modifies this`expiry
      ensures r == if ttl.Some? && ttl.value <= 0 then ValueError else Done
      ensures expiry == if ttl.None? then old(expiry) - {key}
                        else if ttl.value <= 0 then old(expiry)
                        else old(expiry)[key := now + ttl.value as real]
    {
      if ttl.None? {
        expiry := expiry - {key};
      } else {
        if ttl.value <= 0 {
          return ValueError;
        }
        expiry := expiry[key := now + ttl.value as real];
      }
      return Done;
    }

    /** A non-positive `ttl` raises after the value has been stored. */
    method Put(key: string, value: string, ttl: Option<int>, now: real) returns (r: Reply)
      requires Valid()
      modifies this
      ensures Stepped(old(Snapshot()), now, Op.Put(key, value, ttl), Snapshot(), r)
    {
      PurgeIfExpired(key, now);
      lists := lists - {key};
      hashes := hashes - {key};
      values := values[key := value];
      r := SetExpiry(key, ttl, now);
      Confined(old(Snapshot()), now, Op.Put(key, value, ttl), Snapshot(), r);
    }

    method Delete(key: string, now: real) returns (existed: bool)
      requires Valid()
      modifies this
      ensures Stepped(old(Snapshot()), now, Op.Delete(key), Snapshot(), Flag(existed))
    {
      PurgeIfExpired(key, now);
      existed := RemoveKey(key);
      Confined(old(Snapshot()), now, Op.Delete(key), Snapshot(), Flag(existed));
    }

    method Exists(key: string, now: real) returns (r: bool)
      requires Valid()
      modifies this
      ensures Stepped(old(Snapshot()), now, Op.Exists(key), Snapshot(), Flag(r))
    {
      PurgeIfExpired(key, now);
      r := key in values || key in lists || key in hashes;
      Confined(old(Snapshot()), now, Op.Exists(key), Snapshot(), Flag(r));
    }

    /** On a list or hash key the counter is added beside the old value. */
    method Incr(key: string, now: real) returns (r: Reply)
      requires Valid()
      modifies this
      ensures Stepped(old(Snapshot()), now, Op.Incr(key), Snapshot(), r)
    {
      PurgeIfExpired(key, now);
      var next := 1;
      if key in values {
        var n := Decimal.Read(values[key]);
        if n.None? {
          Confined(old(Snapshot()), now, Op.Incr(key), Snapshot(), ValueError);
          return ValueError;
        }
        next := n.value + 1;
      }
      values := values[key := Decimal.Show(next)];
      Confined(old(Snapshot()), now, Op.Incr(key), Snapshot(), Number(next));
      return Number(next);
    }

    method Expire(key: string, seconds: int, now: real) returns (r: Reply)
      requires Valid()
      modifies this
      ensures Stepped(old(Snapshot()), now, Op.Expire(key, seconds), Snapshot(), r)
    {
      PurgeIfExpired(key, now);
      if key !in values && key !in lists && key !in hashes {
        Confined(old(Snapshot()), now, Op.Expire(key, seconds), Snapshot(), Flag(false));
        return Flag(false);
      }
      if seconds <= 0 {
        Confined(old(Snapshot()), now, Op.Expire(key, seconds), Snapshot(), ValueError);
        return ValueError;
      }
      expiry := expiry[key := now + seconds as real];
      Confined(old(Snapshot()), now, Op.Expire(key, seconds), Snapshot(), Flag(true));
      return Flag(true);
    }

    method Ttl(key: string, now: real) returns (r: int)
      requires Valid()
      modifies this
      ensures Stepped(old(Snapshot()), now, Op.Ttl(key), Snapshot(), Number(r))
    {
      PurgeIfExpired(key, now);
      if key !in values && key !in lists && key !in hashes {
        r := -2;
      } else if key !in expiry {
        r := -1;
      } else {
        r := Max(0, Ceil(expiry[key] - now));
      }
      Confined(old(Snapshot()), now, Op.Ttl(key), Snapshot(), Number(r));
    }

    method LPush(key: string, pushed: seq<string>, now: real) returns (r: Reply)
      requires Valid()
      modifies this
      ensures Stepped(old(Snapshot()), now, Op.LPush(key, pushed), Snapshot(), r)
    {
      if pushed == [] {
        return ValueError;
      }
      PurgeIfExpired(key, now);
      values := values - {key};
      hashes := hashes - {key};
      var list := InsertFront(if key in lists then lists[key] else [], pushed);
      lists := lists[key := list];
      Confined(old(Snapshot()), now, Op.LPush(key, pushed), Snapshot(), Number(|list|));
      return Number(|list|);
    }

    method RPop(key: string, now: real) returns (r: Option<string>)
      requires Valid()
      modifies this
      ensures Stepped(old(Snapshot()), now, Op.RPop(key), Snapshot(), Maybe(r))
    {
      PurgeIfExpired(key, now);
      if key !in lists || lists[key] == [] {
        Confined(old(Snapshot()), now, Op.RPop(key), Snapshot(), Maybe(None));
        return None;
      }
      var list := lists[key];
      r := Some(list[|list| - 1]);
      list := list[..|list| - 1];
      lists := lists[key := list];
      if list == [] {
        var _ := RemoveKey(key);
      }
      Confined(old(Snapshot()), now, Op.RPop(key), Snapshot(), Maybe(r));
    }

    method LRange(key: string, start: int, stop: int, now: real) returns (r: seq<string>)
      requires Valid()
      modifies this
      ensures Stepped(old(Snapshot()), now, Op.LRange(key, start, stop), Snapshot(), Strings(r))
    {
      PurgeIfExpired(key, now);
      var list := if key in lists then lists[key] else [];
      var length := |list|;
      Confined(old(Snapshot()), now, Op.LRange(key, start, stop), Snapshot(), Strings(Slice(list, start, stop)));
      if length == 0 {
        return [];
      }
      var first, last := start, stop;
      if first < 0 {
        first := Max(0, length + first);
      }
      if last < 0 {
        last := length + last;
      }
      if first > last || first >= length {
        return [];
      }
      return list[first..Min(last + 1, length)];
    }

    method HSet(key: string, mapping: map<string, string>, now: real)
      requires Valid()
      modifies this
      ensures Stepped(old(Snapshot()), now, Op.HSet(key, mapping), Snapshot(), Done)
    {
      PurgeIfExpired(key, now);
      values := values - {key};
      lists := lists - {key};
      hashes := hashes[key := (if key in hashes then hashes[key] else map[]) + mapping];
      Confined(old(Snapshot()), now, Op.HSet(key, mapping), Snapshot(), Done);
    }

    method HGetAll(key: string, now: real) returns (r: map<string, string>)
      requires Valid()
      modifies this
      ensures Stepped(old(Snapshot()), now, Op.HGetAll(key), Snapshot(), Dict(r))
    {
      PurgeIfExpired(key, now);
      r := if key in hashes then hashes[key] else map[];
      Confined(old(Snapshot()), now, Op.HGetAll(key), Snapshot(), Dict(r));
    }

    method HDel(key: string, names: seq<string>, now: real) returns (removed: int)
      requires Valid()
      modifies this
      ensures Stepped(old(Snapshot()), now, Op.HDel(key, names), Snapshot(), Number(removed))
    {
      PurgeIfExpired(key, now);
      if key !in hashes || hashes[key] == map[] {
        Confined(old(Snapshot()), now, Op.HDel(key, names), Snapshot(), Number(0));
        return 0;
      }
      var entry;
      entry, removed := DeleteFields(hashes[key], names);
      hashes := hashes[key := entry];
      if entry == map[] {
        var _ := RemoveKey(key);
      }
      Confined(old(Snapshot()), now, Op.HDel(key, names), Snapshot(), Number(removed));
    }
  }

  /** The insertion loop of `lpush`: every value goes to the front, in turn. */
  method InsertFront(list: seq<string>, pushed: seq<string>) returns (r: seq<string>)
    ensures r == Reverse(pushed) + list
  {
    r := list;
    for i := 0 to |pushed|
      invariant r == Reverse(pushed[..i]) + list
    {
      ReverseSnoc(pushed[..i], pushed[i]);
      assert pushed[..i + 1] == pushed[..i] + [pushed[i]];
      r := [pushed[i]] + r;
    }
    assert pushed[..|pushed|] == pushed;
  }

  /** The deletion loop of `hdel`: a name given twice is counted once. */
  method DeleteFields(full: map<string, string>, names: seq<string>) returns (entry: map<string, string>, removed: nat)
    ensures entry == full - Present(full, names)
    ensures removed == |Present(full, names)|
  {
    entry, removed := full, 0;
    for i := 0 to |names|
      invariant entry == full - Present(full, names[..i])
      invariant removed == |Present(full, names[..i])|
    {
      ghost var seen, next := Present(full, names[..i]), Present(full, names[..i + 1]);
      assert names[..i + 1] == names[..i] + [names[i]];
      if names[i] in entry {
        assert next == seen + {names[i]};
        entry := entry - {names[i]};
        removed := removed + 1;
      } else {
        assert next == seen;
      }
    }
    assert names[..|names|] == names;
  }

  lemma ReverseSnoc<T>(s: seq<T>, x: T)
    ensures Reverse(s + [x]) == [x] + Reverse(s)
  {
  }

  ghost function Without(s: Store, key: string): Store {
    Store(s.values - {key}, s.lists - {key}, s.hashes - {key}, s.expiry - {key})
  }

  ghost function Purged(s: Store, key: string, now: real): Store {
    if key in s.expiry && now >= s.expiry[key] then Without(s, key) else s
  }

  // ---- whole runs ----

  datatype Call = Call(now: real, op: Op)

  /** The eager store: a plain map from which every expired key is dropped before each call. */
  type Eager = map<string, Entry>

  function Look(m: Eager, key: string): Cell {
    if key in m then Some(m[key]) else None
  }

  function DropExpired(m: Eager, now: real): Eager {
    map k | k in m && AtTime(Some(m[k]), now).Some? :: m[k]
  }

  function EagerCall(m: Eager, call: Call): (Eager, Reply) {
    var live := DropExpired(m, call.now);
    var (cell, reply) := CellStep(Look(live, call.op.key), call.now, call.op);
    (match cell { case None => live - {call.op.key} case Some(e) => live[call.op.key := e] }, reply)
  }

  function EagerRun(m: Eager, calls: seq<Call>): seq<Reply>
    decreases |calls|
  {
    if calls == [] then [] else
    var (m', reply) := EagerCall(m, calls[0]);
    [reply] + EagerRun(m', calls[1..])
  }

  /** A run of the cache: each store follows the previous one by one call of the class, clock nondecreasing. */
  ghost predicate IsRun(stores: seq<Store>, calls: seq<Call>, replies: seq<Reply>) {
    && |stores| == |calls| + 1
    && |replies| == |calls|
    && (forall i :: 0 <= i < |calls| - 1 ==> calls[i].now <= calls[i + 1].now)
    && (forall i :: 0 <= i < |calls| ==>
          Stepped(stores[i], calls[i].now, calls[i].op, stores[i + 1], replies[i]))
  }

  /** The lazy store `s` and the eager store `m` show every key alike from time `t0` on. */
  ghost predicate Agree(s: Store, m: Eager, t0: real) {
    forall k, t {:trigger Find(s, k, t)} :: t >= t0 ==> Find(s, k, t) == AtTime(Look(m, k), t)
  }

  lemma DropExpiredLooks(m: Eager, now: real)
    ensures forall k :: Look(DropExpired(m, now), k) == AtTime(Look(m, k), now)
  {
  }

  lemma CallAgrees(s: Store, m: Eager, call: Call, s': Store, reply: Reply)
    requires Agree(s, m, call.now)
    requires Stepped(s, call.now, call.op, s', reply)
    ensures reply == EagerCall(m, call).1
    ensures Agree(s', EagerCall(m, call).0, call.now)
  {
    var live := DropExpired(m, call.now);
    DropExpiredLooks(m, call.now);
    assert Find(s, call.op.key, call.now) == Look(live, call.op.key);
    var cell, m' := CellStep(Look(live, call.op.key), call.now, call.op).0, EagerCall(m, call).0;
    forall k, t | t >= call.now ensures Find(s', k, t) == AtTime(Look(m', k), t) {
      if k == call.op.key {
        assert Look(m', k) == cell;
      } else {
        assert Look(m', k) == Look(live, k);
      }
    }
  }

  /** Lazy purging is invisible: over a whole run the replies are those of the eager store. */
  lemma {:induction false} LazyRefinesEager(stores: seq<Store>, calls: seq<Call>, replies: seq<Reply>, m: Eager, t0: real)
    requires IsRun(stores, calls, replies)
    requires calls != [] ==> t0 <= calls[0].now
    requires Agree(stores[0], m, t0)
    ensures replies == EagerRun(m, calls)
    decreases |calls|
  {
    if calls != [] {
      CallAgrees(stores[0], m, calls[0], stores[1], replies[0]);
      LazyRefinesEager(stores[1..], calls[1..], replies[1..], EagerCall(m, calls[0]).0, calls[0].now);
    }
  }

  // ---- one type per key ----

  /** At most one of string, list and hash. */
  predicate OneType(c: Cell) {
    c.Some? ==>
      && !(c.value.value.text.Some? && c.value.value.items.Some?)
      && !(c.value.value.text.Some? && c.value.value.fields.Some?)
      && !(c.value.value.items.Some? && c.value.value.fields.Some?)
      && (c.value.value.text.Some? || c.value.value.items.Some? || c.value.value.fields.Some?)
  }

  /** `incr` on a key that is there but holds no string. */
  predicate Misplaced(c: Cell, op: Op) {
    op.Incr? && c.Some? && c.value.value.text.None?
  }

  /** Only a misplaced `incr` gives a key two types. */
  lemma StepOneTypeIff(c: Cell, now: real, op: Op)
    requires OneType(c)
    ensures OneType(CellStep(c, now, op).0) <==> !Misplaced(c, op)
  {
  }

  ghost predicate AllOneType(s: Store, now: real) {
    forall k :: OneType(Find(s, k, now))
  }

  lemma CallOneTypeIff(s: Store, call: Call, s': Store, reply: Reply)
    requires AllOneType(s, call.now) && Stepped(s, call.now, call.op, s', reply)
    ensures AllOneType(s', call.now) <==> !Misplaced(Find(s, call.op.key, call.now), call.op)
  {
    var c, key := Find(s, call.op.key, call.now), call.op.key;
    StepOneTypeIff(c, call.now, call.op);
    var cell := CellStep(c, call.now, call.op).0;
    assert Find(s', key, call.now) == AtTime(cell, call.now);
    assert forall k :: k != key ==> Find(s', k, call.now) == Find(s, k, call.now);
    if Misplaced(c, call.op) {
      assert AtTime(cell, call.now) == cell;
      assert !OneType(Find(s', key, call.now));
    } else {
      assert OneType(AtTime(cell, call.now));
    }
  }

  lemma AllOneTypeLater(s: Store, now: real, t: real)
    requires AllOneType(s, now) && t >= now
    ensures AllOneType(s, t)
  {
    forall k ensures OneType(Find(s, k, t)) {
      FindLater(s, k, now, t);
      assert OneType(Find(s, k, now));
    }
  }

  ghost predicate OneTypeAfter(stores: seq<Store>, calls: seq<Call>, i: nat)
    requires i < |calls| && i + 1 < |stores|
  {
    AllOneType(stores[i + 1], calls[i].now)
  }

  ghost predicate MisplacedAt(stores: seq<Store>, calls: seq<Call>, i: nat)
    requires i < |calls| && i < |stores|
  {
    Misplaced(Find(stores[i], calls[i].op.key, calls[i].now), calls[i].op)
  }

  lemma {:induction false} OneTypeAtIff(stores: seq<Store>, calls: seq<Call>, replies: seq<Reply>, i: nat)
    requires IsRun(stores, calls, replies) && i < |calls|
    requires if i == 0 then forall k, t :: Find(stores[0], k, t) == None else OneTypeAfter(stores, calls, i - 1)
    ensures OneTypeAfter(stores, calls, i) <==> !MisplacedAt(stores, calls, i)
  {
    if i > 0 {
      AllOneTypeLater(stores[i], calls[i - 1].now, calls[i].now);
    }
    CallOneTypeIff(stores[i], calls[i], stores[i + 1], replies[i]);
  }

  /** On every run from an empty cache, every key has one type after every call exactly when no call of the
      run was an `incr` on a live list or hash. */
  lemma {:induction false} OneTypeIffIncrWellPlaced(stores: seq<Store>, calls: seq<Call>, replies: seq<Reply>, n: nat)
    requires IsRun(stores, calls, replies) && n <= |calls|
    requires forall k, t :: Find(stores[0], k, t) == None
    ensures (forall i :: 0 <= i < n ==> OneTypeAfter(stores, calls, i))
       <==> (forall i :: 0 <= i < n ==> !MisplacedAt(stores, calls, i))
  {
    if n > 0 {
      OneTypeIffIncrWellPlaced(stores, calls, replies, n - 1);
      if forall i :: 0 <= i < n - 1 ==> OneTypeAfter(stores, calls, i) {
        OneTypeAtIff(stores, calls, replies, n - 1);
      }
    }
  }

  // ---- what a client sees ----

  /** Reading changes nothing, whenever one looks. */
  lemma {:induction false} ReadsChangeNothing(s: Store, now: real, op: Op, s': Store, r: Reply)
    requires Stepped(s, now, op, s', r)
    requires op.Get? || op.Exists? || op.Ttl? || op.LRange? || op.HGetAll?
    ensures forall k, t :: t >= now ==> Find(s', k, t) == Find(s, k, t)
  {
    forall k, t | t >= now ensures Find(s', k, t) == Find(s, k, t) {
      FindLater(s, k, now, t);
    }
  }

  /** A text is read back until its lifetime is over, and not from then on. */
  lemma {:induction false} GetAfterPut(s: Store, now: real, k: string, v: string, ttl: Option<int>, s1: Store, r1: Reply,
                                       t: real, s2: Store, r2: Reply)
    requires Stepped(s, now, Put(k, v, ttl), s1, r1) && Stepped(s1, t, Get(k), s2, r2) && now <= t
    requires ttl.Some? ==> ttl.value > 0
    ensures r1 == Done
    ensures r2 == Maybe(if ttl.None? || t < now + ttl.value as real then Some(v) else None)
  {
  }

  /** With a lifetime that is not positive, `set` raises, but the value is there, for as long as the old one
      would have been. */
  lemma {:induction false} GetAfterBadPut(s: Store, now: real, k: string, v: string, ttl: int, s1: Store, r1: Reply,
                                          t: real, s2: Store, r2: Reply)
    requires Stepped(s, now, Put(k, v, Some(ttl)), s1, r1) && Stepped(s1, t, Get(k), s2, r2) && now <= t && ttl <= 0
    ensures r1 == ValueError
    ensures r2 == Maybe(if Find(s, k, now).None? || Find(s, k, t).Some? then Some(v) else None)
  {
    FindLater(s, k, now, t);
  }

  /** `delete` and `exists` tell whether the key is there; a deleted key is gone for good. */
  lemma {:induction false} DeleteRemoves(s: Store, now: real, k: string, s1: Store, r1: Reply, s2: Store, r2: Reply)
    requires Stepped(s, now, Exists(k), s1, r1) && Stepped(s1, now, Delete(k), s2, r2)
    ensures r1 == r2 == Flag(Find(s, k, now) != None)
    ensures forall t :: t >= now ==> Find(s2, k, t) == None
  {
    FindLater(s, k, now, now);
  }

  /** A counter starts at one, goes up by one, is read back as its numeral, and keeps its deadline; what is no
      number raises and stays. */
  lemma {:induction false} IncrCounts(s: Store, now: real, k: string, s1: Store, r1: Reply, s2: Store, r2: Reply)
    requires Stepped(s, now, Incr(k), s1, r1) && Stepped(s1, now, Get(k), s2, r2)
    ensures Find(s, k, now) == None ==> r1 == Number(1) && r2 == Maybe(Some("1")) && CellDeadline(Find(s1, k, now)) == None
    ensures forall n, d :: Find(s, k, now) == Some(Entry(Value(Some(Decimal.Show(n)), None, None), d)) ==>
              && r1 == Number(n + 1) && r2 == Maybe(Some(Decimal.Show(n + 1)))
              && CellDeadline(Find(s1, k, now)) == d
    ensures forall v, d :: Find(s, k, now) == Some(Entry(Value(Some(v), None, None), d)) && Decimal.Read(v) == None ==>
              r1 == ValueError && Find(s1, k, now) == Find(s, k, now)
  {
    FindLater(s, k, now, now);
    FindLater(s1, k, now, now);
    Decimal.ShowIsDecimal(1);
    forall n, d | Find(s, k, now) == Some(Entry(Value(Some(Decimal.Show(n)), None, None), d))
      ensures r1 == Number(n + 1) && r2 == Maybe(Some(Decimal.Show(n + 1))) && CellDeadline(Find(s1, k, now)) == d
    {
      Decimal.ReadShow(n);
    }
  }

  /** A new deadline, on a key that is there: what it holds is there until then and not from then on. */
  lemma {:induction false} ExpireMeans(s: Store, now: real, k: string, seconds: int, s': Store, r: Reply, t: real)
    requires Stepped(s, now, Expire(k, seconds), s', r) && t >= now
    ensures r == Flag(false) <==> Find(s, k, now) == None
    ensures r == ValueError <==> Find(s, k, now) != None && seconds <= 0
    ensures r == Flag(false) || r == ValueError ==> Find(s', k, t) == Find(s, k, t)
    ensures Find(s, k, now) != None && seconds > 0 ==>
              && r == Flag(true)
              && (Find(s', k, t) != None <==> t < now + seconds as real)
              && (Find(s', k, t) != None ==> Find(s', k, t).value.value == Find(s, k, now).value.value)
  {
    FindLater(s, k, now, t);
  }

  /** -2 without the key, -1 without a deadline, else the least whole number of seconds after which the key is gone. */
  lemma {:induction false} TtlMeans(s: Store, now: real, k: string, s': Store, r: Reply)
    requires Stepped(s, now, Ttl(k), s', r)
    ensures r.Number?
    ensures r.number == -2 <==> Find(s, k, now) == None
    ensures r.number == -1 <==> Find(s, k, now) != None && forall t :: t >= now ==> Find(s, k, t) != None
    ensures r.number != -1 && r.number != -2 ==>
              && r.number >= 1 && Find(s, k, now + r.number as real) == None
              && Find(s, k, now + (r.number - 1) as real) != None
  {
    var c := Find(s, k, now);
    FindLater(s, k, now, now);
    if c.Some? && c.value.deadline.Some? {
      var end := c.value.deadline.value;
      assert now < end;
      assert Find(s, k, end) == None by {
        FindLater(s, k, now, end);
      }
      FindLater(s, k, now, now + r.number as real);
      FindLater(s, k, now, now + (r.number - 1) as real);
    } else if c.Some? {
      forall t | t >= now ensures Find(s, k, t) != None {
        FindLater(s, k, now, t);
      }
    }
  }

  /** Values pushed one after the other end up in front, the last one first; what is no list is replaced. */
  lemma {:induction false} LPushMeans(s: Store, now: real, k: string, pushed: seq<string>, s': Store, r: Reply, t: real)
    requires Stepped(s, now, LPush(k, pushed), s', r) && t >= now
    ensures pushed == [] ==> r == ValueError && Find(s', k, t) == Find(s, k, t)
    ensures pushed != [] ==>
              var before := CellItems(Find(s, k, now));
              && r == Number(|pushed| + |before|)
              && (Find(s', k, t) != None <==> Find(s, k, t) != None || Find(s, k, now) == None)
              && (Find(s', k, t) != None ==>
                    var items := Find(s', k, t).value.value.items;
                    && items.Some? && |items.value| == |pushed| + |before| && items.value[|pushed|..] == before
                    && (forall i :: 0 <= i < |pushed| ==> items.value[i] == pushed[|pushed| - 1 - i])
                    && Find(s', k, t).value.value.text == None && Find(s', k, t).value.value.fields == None)
  {
    FindLater(s, k, now, t);
  }

  /** The last element is taken, the others stay until the old deadline, and an emptied list is gone. */
  lemma {:induction false} RPopTakesLast(s: Store, now: real, k: string, s': Store, r: Reply, value: Value, rest: seq<string>,
                                         last: string, d: Option<real>, t: real)
    requires Stepped(s, now, RPop(k), s', r) && t >= now
    requires Find(s, k, now) == Some(Entry(value, d)) && value.items == Some(rest + [last])
    ensures r == Maybe(Some(last))
    ensures Find(s', k, t) == if rest == [] || (d.Some? && t >= d.value) then None
                              else Some(Entry(value.(items := Some(rest)), d))
  {
    assert (rest + [last])[..|rest|] == rest;
  }

  /** Without a list there is nothing to take. */
  lemma {:induction false} RPopOfNothing(s: Store, now: real, k: string, s': Store, r: Reply, t: real)
    requires Stepped(s, now, RPop(k), s', r) && t >= now
    requires Find(s, k, now) == None || Find(s, k, now).value.value.items == None
    ensures r == Maybe(None) && Find(s', k, t) == Find(s, k, t)
  {
    FindLater(s, k, now, t);
  }

  /** Position `k` lies between the bounds, where a negative bound counts from the end. */
  predicate Between(k: int, length: nat, start: int, stop: int) {
    (if start < 0 then length + start else start) <= k <= (if stop < 0 then length + stop else stop)
  }

  lemma {:induction false} SliceSelects(items: seq<string>, start: int, stop: int) returns (from: nat, to: nat)
    ensures from <= to <= |items| && Slice(items, start, stop) == items[from..to]
    ensures forall k :: 0 <= k < |items| ==> (from <= k < to <==> Between(k, |items|, start, stop))
  {
    var first := if start < 0 then Max(0, |items| + start) else start;
    var last := if stop < 0 then |items| + stop else stop;
    if first > last || first >= |items| {
      from, to := 0, 0;
    } else {
      from, to := first, Min(last + 1, |items|);
    }
  }

  /** Just the elements whose position lies between the bounds, in order. */
  lemma {:induction false} LRangeSelects(s: Store, now: real, k: string, start: int, stop: int, s': Store, r: Reply)
    returns (items: seq<string>, from: nat, to: nat)
    requires Stepped(s, now, LRange(k, start, stop), s', r)
    ensures items == match Find(s, k, now) case None => [] case Some(e) => if e.value.items.Some? then e.value.items.value else []
    ensures from <= to <= |items| && r == Strings(items[from..to])
    ensures forall i :: 0 <= i < |items| ==> (from <= i < to <==> Between(i, |items|, start, stop))
  {
    items := CellItems(Find(s, k, now));
    from, to := SliceSelects(items, start, stop);
  }

  /** The fields of a key, for whoever reads them. */
  ghost function FieldsSeen(s: Store, k: string, t: real): map<string, string> {
    match Find(s, k, t) case None => map[] case Some(e) => if e.value.fields.Some? then e.value.fields.value else map[]
  }

  /** New fields win, old ones stay. */
  lemma {:induction false} HGetAllAfterHSet(s: Store, now: real, k: string, mapping: map<string, string>, s1: Store, r1: Reply,
                                            s2: Store, r2: Reply)
    requires Stepped(s, now, HSet(k, mapping), s1, r1) && Stepped(s1, now, HGetAll(k), s2, r2)
    ensures r1 == Done && r2.Dict?
    ensures forall f :: f in r2.dict <==> f in mapping || f in FieldsSeen(s, k, now)
    ensures forall f :: f in r2.dict ==> r2.dict[f] == if f in mapping then mapping[f] else FieldsSeen(s, k, now)[f]
    ensures CellDeadline(Find(s1, k, now)) == CellDeadline(Find(s, k, now))
  {
    FindLater(s, k, now, now);
  }

  /** Just the named fields go, each counted once. */
  lemma {:induction false} HGetAllAfterHDel(s: Store, now: real, k: string, names: seq<string>, s1: Store, r1: Reply,
                                            s2: Store, r2: Reply)
    requires Stepped(s, now, HDel(k, names), s1, r1) && Stepped(s1, now, HGetAll(k), s2, r2)
    ensures r1 == Number(|set f | f in FieldsSeen(s, k, now) && f in names|)
    ensures r2.Dict?
    ensures forall f :: f in r2.dict <==> f in FieldsSeen(s, k, now) && f !in names
    ensures forall f :: f in r2.dict ==> r2.dict[f] == FieldsSeen(s, k, now)[f]
    ensures (exists f :: f in FieldsSeen(s, k, now) && f in names) && r2.dict == map[] ==> Find(s1, k, now) == None
  {
    FindLater(s, k, now, now);
    var fields := FieldsSeen(s, k, now);
    assert fields == CellFields(Find(s, k, now));
    assert Present(fields, names) == set f | f in fields && f in names;
    if fields == map[] {
      assert (set f | f in fields && f in names) == {};
    }
  }

  // ---- first in, first out ----

  /** Everything pushed under `k`, in order. */
  function Pushed(calls: seq<Call>, k: string): seq<string> {
    if calls == [] then []
    else
      var op := calls[|calls| - 1].op;
      Pushed(calls[..|calls| - 1], k) + PushedBy(op, k)
  }

  /** Everything popped under `k`, in order. */
  function Popped(calls: seq<Call>, replies: seq<Reply>, k: string): seq<string>
    requires |calls| == |replies|
  {
    if calls == [] then []
    else
      var n := |calls| - 1;
      Popped(calls[..n], replies[..n], k) + Taken(calls[n].op, replies[n], k)
  }

  function Taken(op: Op, r: Reply, k: string): seq<string> {
    if op.RPop? && op.key == k && r.Maybe? && r.found.Some? then [r.found.value] else []
  }

  /** A key used as a queue is only pushed to, popped from and read as a list. */
  predicate QueueOp(op: Op, k: string) {
    op.key == k ==> op.LPush? || op.RPop? || op.LRange?
  }

  /** The list of a queue, oldest element last. */
  ghost predicate Holds(s: Store, k: string, t: real, waiting: seq<string>) {
    Find(s, k, t) == if waiting == [] then None else Some(Entry(Value(None, Some(Reverse(waiting)), None), None))
  }

  lemma {:induction false} HoldsLater(s: Store, k: string, now: real, t: real, waiting: seq<string>)
    requires Holds(s, k, now, waiting) && t >= now
    ensures Holds(s, k, t, waiting)
  {
    FindLater(s, k, now, t);
  }

  lemma {:induction false} ReverseConcat(a: seq<string>, b: seq<string>)
    ensures Reverse(a + b) == Reverse(b) + Reverse(a)
  {
    if a == [] {
      assert a + b == b;
    } else {
      assert (a + b)[1..] == a[1..] + b;
      ReverseConcat(a[1..], b);
    }
  }

  lemma {:induction false} PushHolds(s: Store, k: string, now: real, pushed: seq<string>, s': Store, r: Reply, waiting: seq<string>)
    requires Stepped(s, now, LPush(k, pushed), s', r) && Holds(s, k, now, waiting)
    ensures Holds(s', k, now, waiting + pushed)
  {
    ReverseConcat(waiting, pushed);
    if pushed == [] {
      assert waiting + pushed == waiting;
    }
    if waiting == [] {
      assert Reverse(pushed) + [] == Reverse(pushed);
    }
  }

  lemma {:induction false} PopHolds(s: Store, k: string, now: real, s': Store, r: Reply, waiting: seq<string>)
    requires Stepped(s, now, RPop(k), s', r) && Holds(s, k, now, waiting)
    ensures waiting == [] ==> r == Maybe(None) && Holds(s', k, now, [])
    ensures waiting != [] ==> r == Maybe(Some(waiting[0])) && Holds(s', k, now, waiting[1..])
  {
    if waiting != [] {
      var rest := Reverse(waiting[1..]);
      assert Reverse(waiting) == rest + [waiting[0]];
      RPopTakesLast(s, now, k, s', r, Value(None, Some(Reverse(waiting)), None), rest, waiting[0], None, now);
    } else {
      RPopOfNothing(s, now, k, s', r, now);
    }
  }

  /** One call, seen at the queue. */
  lemma {:induction false} QueueStep(s: Store, call: Call, s': Store, r: Reply, k: string, waiting: seq<string>)
    returns (after: seq<string>)
    requires Stepped(s, call.now, call.op, s', r) && QueueOp(call.op, k) && Holds(s, k, call.now, waiting)
    ensures Holds(s', k, call.now, after)
    ensures Taken(call.op, r, k) + after == waiting + PushedBy(call.op, k)
  {
    after := waiting;
    if call.op.key != k {
      assert [] + after == waiting + [];
    } else if call.op.LPush? {
      PushHolds(s, k, call.now, call.op.pushed, s', r, waiting);
      after := waiting + call.op.pushed;
      assert [] + after == after;
    } else if call.op.RPop? {
      PopHolds(s, k, call.now, s', r, waiting);
      after := if waiting == [] then [] else waiting[1..];
      assert waiting != [] ==> [waiting[0]] + waiting[1..] == waiting + [];
    } else {
      ReadsChangeNothing(s, call.now, call.op, s', r);
      assert [] + after == waiting + [];
    }
  }

  function PushedBy(op: Op, k: string): seq<string> {
    if op.LPush? && op.key == k then op.pushed else []
  }

  lemma {:induction false} Regroup(popped: seq<string>, taken: seq<string>, after: seq<string>, before: seq<string>,
                                   pushed: seq<string>, all: seq<string>)
    requires popped + before == all && taken + after == before + pushed
    ensures (popped + taken) + after == all + pushed
  {
    assert (popped + taken) + after == popped + (taken + after);
    assert popped + (before + pushed) == (popped + before) + pushed;
  }

  lemma {:induction false} OneMoreCall(calls: seq<Call>, replies: seq<Reply>, k: string, n: nat, before: seq<string>, after: seq<string>)
    requires 0 < n <= |calls| == |replies|
    requires Popped(calls[..n - 1], replies[..n - 1], k) + before == Pushed(calls[..n - 1], k)
    requires Taken(calls[n - 1].op, replies[n - 1], k) + after == before + PushedBy(calls[n - 1].op, k)
    ensures Popped(calls[..n], replies[..n], k) + after == Pushed(calls[..n], k)
  {
    assert calls[..n][..n - 1] == calls[..n - 1] && replies[..n][..n - 1] == replies[..n - 1];
    Regroup(Popped(calls[..n - 1], replies[..n - 1], k), Taken(calls[n - 1].op, replies[n - 1], k), after, before,
            PushedBy(calls[n - 1].op, k), Pushed(calls[..n - 1], k));
  }

  /** First in, first out: on every run on which a key is used as a queue, what has been popped and what still
      waits, oldest first, is exactly what has been pushed, in order. */
  lemma {:induction false} FirstInFirstOut(stores: seq<Store>, calls: seq<Call>, replies: seq<Reply>, k: string, n: nat, t: real)
    returns (waiting: seq<string>)
    requires IsRun(stores, calls, replies) && n <= |calls| && forall i :: 0 <= i < n ==> QueueOp(calls[i].op, k)
    requires forall t :: Find(stores[0], k, t) == None
    requires n > 0 ==> t >= calls[n - 1].now
    ensures Holds(stores[n], k, t, waiting)
    ensures Popped(calls[..n], replies[..n], k) + waiting == Pushed(calls[..n], k)
  {
    if n == 0 {
      waiting := [];
    } else {
      var call := calls[n - 1];
      var before := FirstInFirstOut(stores, calls, replies, k, n - 1, call.now);
      waiting := QueueStep(stores[n - 1], call, stores[n], replies[n - 1], k, before);
      HoldsLater(stores[n], k, call.now, t, waiting);
      OneMoreCall(calls, replies, k, n, before, waiting);
    }
  }
}
