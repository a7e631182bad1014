/**
 The audit log: a hash chain with append, prune and verify.

 The checksum covers an event's payload and the previous checksum; `id` and `sequence`
 are assigned by the database and left out of it. Verification always expects the first
 stored event to name the genesis checksum.
 */
module AuditChain {
  import opened Prelude

  datatype Payload = Payload(timestamp: real, fields: map<string, string>)

  /** A checksum, idealized: there are as many as there are checksummed payloads. */
  datatype Digest = Genesis | Digest(payload: Payload, previous: Digest)

  datatype Record = Record(id: string, sequence: nat, payload: Payload, previous: Digest, checksum: Digest)

  /** What a caller hands in; a missing sequence number is filled in. */
  datatype Draft = Draft(id: string, sequence: Option<nat>, payload: Payload)

  /** sha256 over canonical JSON, as a function of the payload and the previous checksum. */
  type Hash = (Payload, Digest) -> Digest

  const GENESIS_CHECKSUM := Genesis

  /** The idealized hash: no collisions, and never the genesis value. */
  ghost predicate Ideal(hash: Hash) {
    && (forall p, a, q, b :: hash(p, a) == hash(q, b) ==> p == q && a == b)
    && (forall p, a :: hash(p, a) != GENESIS_CHECKSUM)
  }

  /** There is such a hash, so what is proved of ideal hashes is proved of something. */
  lemma IdealHashExists()
    ensures exists hash: Hash :: Ideal(hash)
  {
    var hash: Hash := (p, a) => Digest(p, a);
    assert Ideal(hash);
  }

  function LastChecksum(chain: seq<Record>): Digest {
    if chain == [] then GENESIS_CHECKSUM else chain[|chain| - 1].checksum
  }

  function MakeRecord(hash: Hash, chain: seq<Record>, d: Draft): Record {
    var previous := LastChecksum(chain);
    var sequence := if d.sequence.Some? then d.sequence.value else |chain| + 1;
    Record(d.id, sequence, d.payload, previous, hash(d.payload, previous))
  }

  /** Every record names its predecessor's checksum, the first one `previous`, and carries its own. */
  predicate LinkedFrom(hash: Hash, previous: Digest, chain: seq<Record>)
    decreases |chain|
  {
    chain == [] ||
    (&& chain[0].previous == previous
     && chain[0].checksum == hash(chain[0].payload, previous)
     && LinkedFrom(hash, chain[0].checksum, chain[1..]))
  }

  predicate Verifies(hash: Hash, chain: seq<Record>) {
    LinkedFrom(hash, GENESIS_CHECKSUM, chain)
  }

  /** The events at or after `cutoff`, in order. */
  function Kept(chain: seq<Record>, cutoff: real): seq<Record> {
    if chain == [] then []
    else (if chain[0].payload.timestamp >= cutoff then [chain[0]] else []) + Kept(chain[1..], cutoff)
  }

  function Payloads(chain: seq<Record>): seq<Payload> {
    seq(|chain|, i requires 0 <= i < |chain| => chain[i].payload)
  }

  function DraftPayloads(drafts: seq<Draft>): seq<Payload> {
    seq(|drafts|, i requires 0 <= i < |drafts| => drafts[i].payload)
  }

  /** The id index: of records with the same id, the newest. */
  function ById(chain: seq<Record>): map<string, Record> {
    if chain == [] then map[]
    else ById(chain[..|chain| - 1])[chain[|chain| - 1].id := chain[|chain| - 1]]
  }

  lemma {:induction false} ByIdSnoc(chain: seq<Record>, r: Record)
    ensures ById(chain + [r]) == ById(chain)[r.id := r]
  {
    assert (chain + [r])[..|chain|] == chain;
  }

  /** `r` is the newest record of the chain with this id, at position `i`. */
  ghost predicate NewestAt(chain: seq<Record>, id: string, r: Record, i: int) {
    && 0 <= i < |chain| && chain[i] == r && r.id == id
    && forall j :: i < j < |chain| ==> chain[j].id != id
  }

  lemma {:induction false} NewestFound(chain: seq<Record>, id: string) returns (i: int)
    requires id in ById(chain)
    ensures NewestAt(chain, id, ById(chain)[id], i)
  {
    var front, n := chain[..|chain| - 1], |chain| - 1;
    if chain[n].id == id {
      i := n;
    } else {
      i := NewestFound(front, id);
      assert forall j :: 0 <= j < n ==> chain[j] == front[j];
    }
  }

  lemma {:induction false} IdIndexed(chain: seq<Record>, i: nat)
    requires i < |chain|
    ensures chain[i].id in ById(chain)
  {
    if i < |chain| - 1 {
      IdIndexed(chain[..|chain| - 1], i);
    }
  }

  /** An id is found exactly when some record has it, and then its newest record is found. */
  lemma {:induction false} ByIdMeans(chain: seq<Record>, id: string)
    ensures id in ById(chain) <==> exists i :: 0 <= i < |chain| && chain[i].id == id
    ensures id in ById(chain) ==> exists i :: NewestAt(chain, id, ById(chain)[id], i)
  {
    if id in ById(chain) {
      var i := NewestFound(chain, id);
      assert chain[i].id == id;
    }
    forall i | 0 <= i < |chain| && chain[i].id == id ensures id in ById(chain) {
      IdIndexed(chain, i);
    }
  }

  class AuditLog {
    const hash: Hash
    var chain: seq<Record>
    var byId: map<string, Record>

    ghost predicate Valid()
      reads this
    {
      byId == ById(chain)
    }

    constructor (hash: Hash)
      ensures Valid() && this.hash == hash && chain == []
    {
      this.hash, chain, byId := hash, [], map[];
    }

    method SaveAuditEvent(d: Draft) returns (r: Record)
      requires Valid()
      modifies this
      ensures Valid() && chain == old(chain) + [r]
      ensures r.id == d.id && r.payload == d.payload
      ensures r.sequence == if d.sequence.Some? then d.sequence.value else |old(chain)| + 1
      ensures r.previous == LastChecksum(old(chain)) && r.checksum == hash(d.payload, r.previous)
      ensures old(Verifies(hash, chain)) ==> Verifies(hash, chain)
    {
      r := MakeRecord(hash, chain, d);
      LinkedSnoc(hash, GENESIS_CHECKSUM, chain, r);
      ByIdSnoc(chain, r);
      chain := chain + [r];
      byId := byId[r.id := r];
    }

    /** One batch: all events are appended, in order. */
    method SaveAuditEvents(drafts: seq<Draft>) returns (count: nat)
      requires Valid()
      modifies this
      ensures Valid() && count == |drafts|
      ensures |chain| == |old(chain)| + |drafts| && chain[..|old(chain)|] == old(chain)
      ensures Payloads(chain) == Payloads(old(chain)) + DraftPayloads(drafts)
      ensures forall i :: 0 <= i < |drafts| ==>
                chain[|old(chain)| + i] == MakeRecord(hash, chain[..|old(chain)| + i], drafts[i])
      ensures old(Verifies(hash, chain)) ==> Verifies(hash, chain)
    {
      for i := 0 to |drafts|
        invariant Valid() && |chain| == |old(chain)| + i && chain[..|old(chain)|] == old(chain)
        invariant Payloads(chain) == Payloads(old(chain)) + DraftPayloads(drafts[..i])
        invariant forall j :: 0 <= j < i ==>
                    chain[|old(chain)| + j] == MakeRecord(hash, chain[..|old(chain)| + j], drafts[j])
        invariant old(Verifies(hash, chain)) ==> Verifies(hash, chain)
      {
        ghost var before := chain;
        var _ := SaveAuditEvent(drafts[i]);
        assert forall j :: 0 <= j <= |before| ==> chain[..j] == before[..j];
        assert before[..|before|] == before;
        assert Payloads(chain) == Payloads(before) + [drafts[i].payload];
        assert DraftPayloads(drafts[..i + 1]) == DraftPayloads(drafts[..i]) + [drafts[i].payload];
      }
      assert drafts[..|drafts|] == drafts;
      return |drafts|;
    }

    method GetAuditEvent(id: string) returns (r: Option<Record>)
      requires Valid()
      ensures r == None <==> forall i :: 0 <= i < |chain| ==> chain[i].id != id
      ensures r.Some? ==> exists i :: NewestAt(chain, id, r.value, i)
    {
      ByIdMeans(chain, id);
      r := if id in byId then Some(byId[id]) else None;
    }

    method DeleteAuditEventsBefore(cutoff: real) returns (removed: nat)
      requires Valid()
      modifies this
      ensures Valid() && chain == Kept(old(chain), cutoff) && removed == |old(chain)| - |chain|
    {
      var kept, index := [], map[];
      for i := 0 to |chain|
        modifies {}
        invariant kept == Kept(chain[..i], cutoff) && |kept| <= i && index == ById(kept)
      {
        assert chain[..i + 1] == chain[..i] + [chain[i]];
        KeptConcat(chain[..i], [chain[i]], cutoff);
        if chain[i].payload.timestamp >= cutoff {
          ByIdSnoc(kept, chain[i]);
          kept := kept + [chain[i]];
          index := index[chain[i].id := chain[i]];
        }
      }
      assert chain[..|chain|] == chain;
      removed := |chain| - |kept|;
      chain := kept;
      byId := index;
    }

    method VerifyAuditChain() returns (ok: bool)
      ensures ok <==> Verifies(hash, chain)
    {
      var previous: Option<Digest> := None;
      for i := 0 to |chain|
        invariant previous == if i == 0 then None else Some(chain[i - 1].checksum)
        invariant Verifies(hash, chain) <==>
                  LinkedFrom(hash, if i == 0 then GENESIS_CHECKSUM else chain[i - 1].checksum, chain[i..])
      {
        var record := chain[i];
        var expected := if previous.Some? then previous.value else GENESIS_CHECKSUM;
        if record.previous != expected {
          return false;
        }
        if record.checksum != hash(record.payload, expected) {
          return false;
        }
        previous := Some(record.checksum);
      }
      return true;
    }
  }

  lemma {:induction false} LinkedSnoc(hash: Hash, previous: Digest, chain: seq<Record>, r: Record)
    ensures LinkedFrom(hash, previous, chain + [r]) <==>
            && LinkedFrom(hash, previous, chain)
            && r.previous == (if chain == [] then previous else LastChecksum(chain))
            && r.checksum == hash(r.payload, r.previous)
    decreases |chain|
  {
    if chain == [] {
      assert chain + [r] == [r];
      assert [r][1..] == [];
    } else {
      assert (chain + [r])[1..] == chain[1..] + [r];
      LinkedSnoc(hash, chain[0].checksum, chain[1..], r);
    }
  }

  lemma {:induction false} KeptConcat(a: seq<Record>, b: seq<Record>, cutoff: real)
    ensures Kept(a + b, cutoff) == Kept(a, cutoff) + Kept(b, cutoff)
  {
    if a == [] {
      assert a + b == b;
    } else {
      assert (a + b)[1..] == a[1..] + b;
      KeptConcat(a[1..], b, cutoff);
      assert Kept(a + b, cutoff) == Kept(a, cutoff) + Kept(b, cutoff);
    }
  }

  /** Every record of a linked chain, seen from its neighbour. */
  lemma {:induction false} LinkedAt(hash: Hash, chain: seq<Record>, i: nat)
    requires Verifies(hash, chain) && i < |chain|
    ensures Verifies(hash, chain[..i])
    ensures chain[i].previous == LastChecksum(chain[..i])
    ensures chain[i].checksum == hash(chain[i].payload, chain[i].previous)
    decreases |chain|
  {
    var n := |chain| - 1;
    assert chain == chain[..n] + [chain[n]];
    LinkedSnoc(hash, GENESIS_CHECKSUM, chain[..n], chain[n]);
    if i < n {
      LinkedAt(hash, chain[..n], i);
      assert chain[..n][..i] == chain[..i];
    }
  }

  // ---- tamper evidence ----

  /** Two verifying chains with the same last checksum hold the same payloads in the same order. */
  lemma {:induction false} SameLastChecksumSamePayloads(hash: Hash, a: seq<Record>, b: seq<Record>)
    requires Ideal(hash) && Verifies(hash, a) && Verifies(hash, b)
    requires LastChecksum(a) == LastChecksum(b)
    ensures |a| == |b|
    ensures forall i :: 0 <= i < |a| ==> a[i].payload == b[i].payload && a[i].checksum == b[i].checksum
    decreases |a|
  {
    if a != [] {
      LinkedAt(hash, a, |a| - 1);
    }
    if b != [] {
      LinkedAt(hash, b, |b| - 1);
    }
    if a != [] && b != [] {
      SameLastChecksumSamePayloads(hash, a[..|a| - 1], b[..|b| - 1]);
    }
  }

  lemma PayloadsPointwise(a: seq<Record>, b: seq<Record>)
    ensures (|a| == |b| && forall i :: 0 <= i < |a| ==> a[i].payload == b[i].payload) ==> Payloads(a) == Payloads(b)
  {
  }

  /** Any edit, insertion, deletion or reordering of payloads changes the last checksum or fails verification. */
  lemma {:induction false} TamperingShows(hash: Hash, chain: seq<Record>, tampered: seq<Record>)
    requires Ideal(hash) && Verifies(hash, chain) && Payloads(chain) != Payloads(tampered)
    ensures !Verifies(hash, tampered) || LastChecksum(tampered) != LastChecksum(chain)
  {
    PayloadsPointwise(chain, tampered);
    if Verifies(hash, tampered) && LastChecksum(tampered) == LastChecksum(chain) {
      SameLastChecksumSamePayloads(hash, chain, tampered);
    }
  }

  /** What verification does not protect: ids and sequence numbers. */
  lemma {:induction false} VerifyIgnoresIds(hash: Hash, previous: Digest, a: seq<Record>, b: seq<Record>)
    requires |a| == |b|
    requires forall i :: 0 <= i < |a| ==> b[i].(id := a[i].id, sequence := a[i].sequence) == a[i]
    ensures LinkedFrom(hash, previous, a) <==> LinkedFrom(hash, previous, b)
    decreases |a|
  {
    if a != [] {
      assert b[0].(id := a[0].id, sequence := a[0].sequence) == a[0];
      VerifyIgnoresIds(hash, a[0].checksum, a[1..], b[1..]);
    }
  }

  /** No checksum occurs twice in a verifying chain. */
  lemma {:induction false} ChecksumsDistinct(hash: Hash, chain: seq<Record>, i: nat, j: nat)
    requires Ideal(hash) && Verifies(hash, chain) && i <= j <= |chain|
    requires LastChecksum(chain[..i]) == LastChecksum(chain[..j])
    ensures i == j
  {
    if i < |chain| {
      LinkedAt(hash, chain, i);
    }
    if j < |chain| {
      LinkedAt(hash, chain, j);
    }
    assert chain[..|chain|] == chain;
    SameLastChecksumSamePayloads(hash, chain[..i], chain[..j]);
  }

  // ---- pruning ----

  /** How many events, from the front, survive before the first one that does not. */
  function KeptPrefix(chain: seq<Record>, cutoff: real): (n: nat)
    ensures n <= |chain|
    ensures forall i :: 0 <= i < n ==> chain[i].payload.timestamp >= cutoff
    ensures n < |chain| ==> chain[n].payload.timestamp < cutoff
  {
    if chain == [] || chain[0].payload.timestamp < cutoff then 0 else 1 + KeptPrefix(chain[1..], cutoff)
  }

  lemma {:induction false} KeptAll(chain: seq<Record>, cutoff: real)
    requires forall r :: r in chain ==> r.payload.timestamp >= cutoff
    ensures Kept(chain, cutoff) == chain
  {
    if chain != [] {
      KeptAll(chain[1..], cutoff);
    }
  }

  /** The first survivor of a list, with its position. */
  lemma {:induction false} FirstKept(chain: seq<Record>, cutoff: real) returns (j: nat)
    requires Kept(chain, cutoff) != []
    ensures j < |chain| && Kept(chain, cutoff)[0] == chain[j]
  {
    if chain[0].payload.timestamp >= cutoff {
      j := 0;
    } else {
      j := FirstKept(chain[1..], cutoff);
      j := j + 1;
    }
  }

  lemma {:induction false} VerifyingPrefix(hash: Hash, chain: seq<Record>, n: nat)
    requires Verifies(hash, chain) && n <= |chain|
    ensures Verifies(hash, chain[..n])
  {
    if n < |chain| {
      LinkedAt(hash, chain, n);
    } else {
      assert chain[..n] == chain;
    }
  }

  /** The survivors: a kept prefix, then what is kept of the rest. */
  lemma {:induction false} KeptSplit(chain: seq<Record>, cutoff: real)
    ensures var n := KeptPrefix(chain, cutoff);
            Kept(chain, cutoff) == chain[..n] + Kept(chain[n..], cutoff)
  {
    var n := KeptPrefix(chain, cutoff);
    assert chain == chain[..n] + chain[n..];
    KeptConcat(chain[..n], chain[n..], cutoff);
    KeptAll(chain[..n], cutoff);
  }

  /** An event that survives behind one that does not is left with a link to nothing. */
  lemma {:induction false} GapBreaksLink(hash: Hash, chain: seq<Record>, kept: seq<Record>, n: nat, at: nat)
    requires Ideal(hash) && Verifies(hash, chain)
    requires n < at < |chain| && n < |kept| && kept[n] == chain[at] && kept[..n] == chain[..n]
    ensures !Verifies(hash, kept)
  {
    LinkedAt(hash, chain, at);
    if Verifies(hash, kept) {
      LinkedAt(hash, kept, n);
      ChecksumsDistinct(hash, chain, n, at);
    }
  }

  /** Whatever survives stands in front of whatever does not. */
  predicate OnlyTailBefore(chain: seq<Record>, cutoff: real) {
    forall i, j :: 0 <= i < j < |chain| && chain[j].payload.timestamp >= cutoff ==> chain[i].payload.timestamp >= cutoff
  }

  lemma {:induction false} KeptNone(chain: seq<Record>, cutoff: real)
    requires forall i :: 0 <= i < |chain| ==> chain[i].payload.timestamp < cutoff
    ensures Kept(chain, cutoff) == []
  {
    if chain != [] {
      KeptNone(chain[1..], cutoff);
    }
  }

  lemma {:induction false} TailGone(chain: seq<Record>, cutoff: real)
    requires OnlyTailBefore(chain, cutoff)
    ensures Kept(chain[KeptPrefix(chain, cutoff)..], cutoff) == []
  {
    var n := KeptPrefix(chain, cutoff);
    forall i | 0 <= i < |chain| - n ensures chain[n..][i].payload.timestamp < cutoff {
      assert i > 0 ==> !(chain[n + i].payload.timestamp >= cutoff);
    }
    KeptNone(chain[n..], cutoff);
  }

  lemma {:induction false} PrefixStops(chain: seq<Record>, cutoff: real, i: nat)
    requires i < |chain| && chain[i].payload.timestamp < cutoff
    ensures KeptPrefix(chain, cutoff) <= i
  {
    if i > 0 && chain[0].payload.timestamp >= cutoff {
      PrefixStops(chain[1..], cutoff, i - 1);
    }
  }

  lemma {:induction false} SomethingBehind(chain: seq<Record>, cutoff: real)
    requires !OnlyTailBefore(chain, cutoff)
    ensures Kept(chain[KeptPrefix(chain, cutoff)..], cutoff) != []
  {
    var n := KeptPrefix(chain, cutoff);
    var i, j :| 0 <= i < j < |chain| && chain[j].payload.timestamp >= cutoff && chain[i].payload.timestamp < cutoff;
    PrefixStops(chain, cutoff, i);
    KeepsEachLate(chain[n..], cutoff, j - n);
  }

  lemma {:induction false} KeepsEachLate(chain: seq<Record>, cutoff: real, j: nat)
    requires j < |chain| && chain[j].payload.timestamp >= cutoff
    ensures chain[j] in Kept(chain, cutoff)
    decreases j
  {
    if j > 0 {
      KeepsEachLate(chain[1..], cutoff, j - 1);
    }
  }

  /** Pruning a verifying chain, in time order or not, leaves one that verifies exactly when no event older
      than the cutoff stands before one that is not: losing the first event, or one in the middle, breaks it. */
  lemma {:induction false} PrunedVerifiesIff(hash: Hash, chain: seq<Record>, cutoff: real)
    requires Ideal(hash) && Verifies(hash, chain)
    ensures Verifies(hash, Kept(chain, cutoff)) <==> OnlyTailBefore(chain, cutoff)
  {
    var n := KeptPrefix(chain, cutoff);
    var rest := Kept(chain[n..], cutoff);
    KeptSplit(chain, cutoff);
    if OnlyTailBefore(chain, cutoff) {
      TailGone(chain, cutoff);
    } else {
      SomethingBehind(chain, cutoff);
    }
    if rest == [] {
      assert Kept(chain, cutoff) == chain[..n];
      VerifyingPrefix(hash, chain, n);
    } else {
      LateSurvivor(hash, chain, cutoff, n, rest);
    }
  }

  lemma {:induction false} LateSurvivor(hash: Hash, chain: seq<Record>, cutoff: real, n: nat, rest: seq<Record>)
    requires Ideal(hash) && Verifies(hash, chain)
    requires n == KeptPrefix(chain, cutoff) && rest == Kept(chain[n..], cutoff) && rest != []
    ensures !Verifies(hash, chain[..n] + rest) && rest[0] != chain[n]
  {
    var j := FirstKept(chain[n..], cutoff);
    KeptAreLate(chain[n..], cutoff);
    assert rest[0] in rest;
    assert rest[0].payload.timestamp >= cutoff && chain[n].payload.timestamp < cutoff;
    GapBreaksLink(hash, chain, chain[..n] + rest, n, n + j);
  }

  lemma {:induction false} KeptAreLate(chain: seq<Record>, cutoff: real)
    ensures forall r :: r in Kept(chain, cutoff) ==> r.payload.timestamp >= cutoff
  {
    if chain != [] {
      KeptAreLate(chain[1..], cutoff);
    }
  }

  // ---- whole runs ----

  datatype Op = Append(draft: Draft) | Prune(cutoff: real)

  function Apply(hash: Hash, chain: seq<Record>, op: Op): seq<Record> {
    match op
    case Append(d) => chain + [MakeRecord(hash, chain, d)]
    case Prune(cutoff) => Kept(chain, cutoff)
  }

  /** The chain after a run of appends and prunes. */
  function Run(hash: Hash, ops: seq<Op>): seq<Record> {
    if ops == [] then [] else Apply(hash, Run(hash, ops[..|ops| - 1]), ops[|ops| - 1])
  }

  /** Every event appended since the chain was last empty, pruned or not. */
  function SinceEmpty(hash: Hash, ops: seq<Op>): seq<Record> {
    if ops == [] then []
    else
      var before, op := ops[..|ops| - 1], ops[|ops| - 1];
      var chain := Run(hash, before);
      match op
      case Prune(_) => SinceEmpty(hash, before)
      case Append(d) =>
        (if chain == [] then [] else SinceEmpty(hash, before)) + [MakeRecord(hash, chain, d)]
  }

  predicate TimeOrdered(ops: seq<Op>) {
    forall i, j :: 0 <= i < j < |ops| && ops[i].Append? && ops[j].Append? ==>
      ops[i].draft.payload.timestamp <= ops[j].draft.payload.timestamp
  }

  predicate Sorted(chain: seq<Record>) {
    forall i, j :: 0 <= i < j < |chain| ==> chain[i].payload.timestamp <= chain[j].payload.timestamp
  }

  /** Of a time-ordered chain, pruning keeps a tail. */
  lemma {:induction false} PruneKeepsTail(chain: seq<Record>, cutoff: real)
    requires Sorted(chain)
    ensures |Kept(chain, cutoff)| <= |chain|
    ensures Kept(chain, cutoff) == chain[|chain| - |Kept(chain, cutoff)|..]
  {
    if chain != [] {
      PruneKeepsTail(chain[1..], cutoff);
      if chain[0].payload.timestamp >= cutoff {
        KeptAll(chain, cutoff);
      }
    }
  }

  ghost predicate NoLaterThan(ops: seq<Op>, t: real) {
    forall i :: 0 <= i < |ops| && ops[i].Append? ==> ops[i].draft.payload.timestamp <= t
  }

  ghost predicate TailOf(hash: Hash, log: seq<Record>, chain: seq<Record>, t: real) {
    && Verifies(hash, log) && Sorted(log)
    && (forall i :: 0 <= i < |log| ==> log[i].payload.timestamp <= t)
    && |chain| <= |log| && chain == log[|log| - |chain|..]
  }

  lemma {:induction false} SortedSnoc(base: seq<Record>, r: Record)
    requires Sorted(base) && forall i :: 0 <= i < |base| ==> base[i].payload.timestamp <= r.payload.timestamp
    ensures Sorted(base + [r])
  {
  }

  lemma {:induction false} AppendKeepsTail(hash: Hash, log: seq<Record>, chain: seq<Record>, d: Draft)
    requires TailOf(hash, log, chain, d.payload.timestamp)
    ensures var r := MakeRecord(hash, chain, d);
            TailOf(hash, (if chain == [] then [] else log) + [r], chain + [r], d.payload.timestamp)
  {
    var r := MakeRecord(hash, chain, d);
    if chain == [] {
      LinkedSnoc(hash, GENESIS_CHECKSUM, [], r);
      assert [r][0..] == [r];
    } else {
      LinkedSnoc(hash, GENESIS_CHECKSUM, log, r);
      SortedSnoc(log, r);
      TailSnoc(log, chain, r);
    }
  }

  lemma {:induction false} PruneKeepsTailOf(hash: Hash, log: seq<Record>, chain: seq<Record>, t: real, cutoff: real)
    requires TailOf(hash, log, chain, t)
    ensures TailOf(hash, log, Kept(chain, cutoff), t)
  {
    PruneKeepsTail(chain, cutoff);
    var kept := Kept(chain, cutoff);
    assert kept == log[|log| - |chain|..][|chain| - |kept|..];
  }

  lemma {:induction false} TailLater(hash: Hash, log: seq<Record>, chain: seq<Record>, t: real, u: real)
    requires TailOf(hash, log, chain, t) && t <= u
    ensures TailOf(hash, log, chain, u)
  {
  }

  lemma TailSnoc<T>(all: seq<T>, tail: seq<T>, x: T)
    requires |tail| <= |all| && tail == all[|all| - |tail|..]
    ensures tail + [x] == (all + [x])[|all| - |tail|..]
  {
  }

  /** A run in time order stores a contiguous tail of a fully linked log. */
  lemma {:induction false} RunIsTail(hash: Hash, ops: seq<Op>, t: real)
    requires TimeOrdered(ops) && NoLaterThan(ops, t)
    ensures TailOf(hash, SinceEmpty(hash, ops), Run(hash, ops), t)
    decreases |ops|
  {
    if ops != [] {
      var before, op := ops[..|ops| - 1], ops[|ops| - 1];
      match op {
        case Prune(cutoff) =>
          RunIsTail(hash, before, t);
          PruneKeepsTailOf(hash, SinceEmpty(hash, before), Run(hash, before), t, cutoff);
        case Append(d) =>
          var now := d.payload.timestamp;
          assert NoLaterThan(before, now);
          RunIsTail(hash, before, now);
          AppendKeepsTail(hash, SinceEmpty(hash, before), Run(hash, before), d);
          TailLater(hash, SinceEmpty(hash, ops), Run(hash, ops), now, t);
      }
    }
  }

  lemma {:induction false} TailVerifiesIff(hash: Hash, log: seq<Record>, chain: seq<Record>)
    requires Ideal(hash) && Verifies(hash, log)
    requires chain != [] && |chain| <= |log| && chain == log[|log| - |chain|..]
    ensures Verifies(hash, chain) <==> chain[0].previous == GENESIS_CHECKSUM
    ensures Verifies(hash, chain) <==> |chain| == |log|
  {
    var cut := |log| - |chain|;
    assert log[cut] == chain[0];
    LinkedAt(hash, log, cut);
    if cut > 0 {
      LinkedAt(hash, log, cut - 1);
      assert log[..cut][cut - 1] == log[cut - 1];
    } else {
      assert chain == log;
    }
  }

  /** After a run in time order, verification accepts exactly when the chain is empty, or nothing has been
      pruned since it was last empty; equivalently, its first stored link is the genesis checksum. */
  lemma {:induction false} RunVerifiesIff(hash: Hash, ops: seq<Op>, t: real)
    requires Ideal(hash) && TimeOrdered(ops) && NoLaterThan(ops, t)
    ensures var log, chain := SinceEmpty(hash, ops), Run(hash, ops);
            && (Verifies(hash, chain) <==> chain == [] || chain[0].previous == GENESIS_CHECKSUM)
            && (Verifies(hash, chain) <==> chain == [] || chain == log)
  {
    RunIsTail(hash, ops, t);
    var log, chain := SinceEmpty(hash, ops), Run(hash, ops);
    if chain != [] {
      TailVerifiesIff(hash, log, chain);
    }
  }

  // ---- runs in any order ----

  /** Of a chain, only its timestamps, and how many records from the front are soundly linked. */
  datatype Outline = Outline(stamps: seq<real>, sound: nat)

  function StampsKept(stamps: seq<real>, cutoff: real): seq<real> {
    if stamps == [] then []
    else (if stamps[0] >= cutoff then [stamps[0]] else []) + StampsKept(stamps[1..], cutoff)
  }

  function StampsPrefix(stamps: seq<real>, cutoff: real): (n: nat)
    ensures n <= |stamps|
  {
    if stamps == [] || stamps[0] < cutoff then 0 else 1 + StampsPrefix(stamps[1..], cutoff)
  }

  /** An append extends the sound part only when all is sound; a prune cuts it at the first event it removes. */
  function OutlineStep(o: Outline, op: Op): Outline {
    match op
    case Append(d) =>
      Outline(o.stamps + [d.payload.timestamp], if o.sound == |o.stamps| then o.sound + 1 else o.sound)
    case Prune(cutoff) =>
      var n := StampsPrefix(o.stamps, cutoff);
      Outline(StampsKept(o.stamps, cutoff), if o.sound <= n then o.sound else n)
  }

  /** The outline of a run: timestamps and cutoffs decide it. */
  function OutlineOf(ops: seq<Op>): Outline {
    if ops == [] then Outline([], 0) else OutlineStep(OutlineOf(ops[..|ops| - 1]), ops[|ops| - 1])
  }

  function StampsOf(chain: seq<Record>): seq<real> {
    seq(|chain|, i requires 0 <= i < |chain| => chain[i].payload.timestamp)
  }

  lemma {:induction false} StampsOfSnoc(chain: seq<Record>, r: Record)
    ensures StampsOf(chain + [r]) == StampsOf(chain) + [r.payload.timestamp]
  {
  }

  lemma {:induction false} StampsOfKept(chain: seq<Record>, cutoff: real)
    ensures StampsOf(Kept(chain, cutoff)) == StampsKept(StampsOf(chain), cutoff)
  {
    if chain != [] {
      var first, rest := chain[0], Kept(chain[1..], cutoff);
      StampsOfKept(chain[1..], cutoff);
      assert StampsOf(chain)[1..] == StampsOf(chain[1..]);
      assert StampsOf([first] + rest) == [first.payload.timestamp] + StampsOf(rest);
      assert [] + rest == rest;
    }
  }

  lemma {:induction false} StampsOfPrefix(chain: seq<Record>, cutoff: real)
    ensures KeptPrefix(chain, cutoff) == StampsPrefix(StampsOf(chain), cutoff)
  {
    if chain != [] {
      StampsOfPrefix(chain[1..], cutoff);
      assert StampsOf(chain)[1..] == StampsOf(chain[1..]);
    }
  }

  /** `c` is the genesis checksum or the last checksum of some fully linked log. */
  ghost predicate Logged(hash: Hash, c: Digest) {
    exists log :: Verifies(hash, log) && LastChecksum(log) == c
  }

  /** How long that log is. */
  ghost function Rank(hash: Hash, c: Digest): nat
    requires Logged(hash, c)
  {
    var log :| Verifies(hash, log) && LastChecksum(log) == c;
    |log|
  }

  lemma {:induction false} RankOfLog(hash: Hash, log: seq<Record>)
    requires Ideal(hash) && Verifies(hash, log)
    ensures Logged(hash, LastChecksum(log)) && Rank(hash, LastChecksum(log)) == |log|
  {
    var c := LastChecksum(log);
    var other :| Verifies(hash, other) && LastChecksum(other) == c && Rank(hash, c) == |other|;
    SameLastChecksumSamePayloads(hash, log, other);
  }

  lemma {:induction false} RankOfGenesis(hash: Hash)
    requires Ideal(hash)
    ensures Logged(hash, GENESIS_CHECKSUM) && Rank(hash, GENESIS_CHECKSUM) == 0
  {
    RankOfLog(hash, []);
  }

  lemma {:induction false} RankOfNext(hash: Hash, payload: Payload, previous: Digest)
    requires Ideal(hash) && Logged(hash, previous)
    ensures Logged(hash, hash(payload, previous))
    ensures Rank(hash, hash(payload, previous)) == Rank(hash, previous) + 1
  {
    var log :| Verifies(hash, log) && LastChecksum(log) == previous;
    RankOfLog(hash, log);
    var r := Record("", 0, payload, previous, hash(payload, previous));
    LinkedSnoc(hash, GENESIS_CHECKSUM, log, r);
    RankOfLog(hash, log + [r]);
  }

  /** The record was made behind a logged predecessor. */
  ghost predicate Made(hash: Hash, r: Record) {
    && Logged(hash, r.previous) && Logged(hash, r.checksum)
    && r.checksum == hash(r.payload, r.previous) && Rank(hash, r.checksum) == Rank(hash, r.previous) + 1
  }

  /** `b` was made when `a`, or something behind it, was the last record. */
  ghost predicate Behind(hash: Hash, a: Record, b: Record) {
    Made(hash, a) && Made(hash, b) && Rank(hash, a.checksum) <= Rank(hash, b.previous)
  }

  ghost predicate Ranked(hash: Hash, chain: seq<Record>) {
    && (forall i :: 0 <= i < |chain| ==> Made(hash, chain[i]))
    && (forall i, j :: 0 <= i < j < |chain| ==> Behind(hash, chain[i], chain[j]))
  }

  lemma {:induction false} RankedSnoc(hash: Hash, chain: seq<Record>, r: Record)
    requires Ranked(hash, chain) && Made(hash, r) && forall i :: 0 <= i < |chain| ==> Behind(hash, chain[i], r)
    ensures Ranked(hash, chain + [r])
  {
    var all := chain + [r];
    assert all[|chain|] == r && forall i :: 0 <= i < |chain| ==> all[i] == chain[i];
  }

  lemma {:induction false} RankedAppend(hash: Hash, chain: seq<Record>, d: Draft)
    requires Ideal(hash) && Ranked(hash, chain)
    ensures Ranked(hash, chain + [MakeRecord(hash, chain, d)])
  {
    var r := MakeRecord(hash, chain, d);
    RankOfGenesis(hash);
    assert chain != [] ==> Made(hash, chain[|chain| - 1]);
    RankOfNext(hash, d.payload, r.previous);
    forall i | 0 <= i < |chain| ensures Behind(hash, chain[i], r) {
      assert Made(hash, chain[i]);
      assert i < |chain| - 1 ==> Behind(hash, chain[i], chain[|chain| - 1]);
    }
    RankedSnoc(hash, chain, r);
  }

  lemma {:induction false} RankedCons(hash: Hash, r: Record, chain: seq<Record>)
    requires Ranked(hash, chain) && Made(hash, r) && forall i :: 0 <= i < |chain| ==> Behind(hash, r, chain[i])
    ensures Ranked(hash, [r] + chain)
  {
    var all := [r] + chain;
    assert all[0] == r && forall i :: 1 <= i < |all| ==> all[i] == chain[i - 1];
  }

  lemma {:induction false} RankedTail(hash: Hash, chain: seq<Record>)
    requires Ranked(hash, chain) && chain != []
    ensures Ranked(hash, chain[1..]) && Made(hash, chain[0])
    ensures forall i :: 0 <= i < |chain[1..]| ==> Behind(hash, chain[0], chain[1..][i])
  {
    var rest := chain[1..];
    assert forall i :: 0 <= i < |rest| ==> rest[i] == chain[i + 1];
  }

  lemma {:induction false} KeptFrom(chain: seq<Record>, cutoff: real, k: nat) returns (i: nat)
    requires k < |Kept(chain, cutoff)|
    ensures i < |chain| && Kept(chain, cutoff)[k] == chain[i]
  {
    if chain[0].payload.timestamp >= cutoff {
      if k == 0 {
        i := 0;
      } else {
        var j := KeptFrom(chain[1..], cutoff, k - 1);
        i := j + 1;
      }
    } else {
      var j := KeptFrom(chain[1..], cutoff, k);
      i := j + 1;
    }
  }

  lemma {:induction false} RankedKept(hash: Hash, chain: seq<Record>, cutoff: real)
    requires Ranked(hash, chain)
    ensures Ranked(hash, Kept(chain, cutoff))
  {
    if chain != [] {
      var rest, kept := chain[1..], Kept(chain[1..], cutoff);
      RankedTail(hash, chain);
      RankedKept(hash, rest, cutoff);
      forall k | 0 <= k < |kept| ensures Behind(hash, chain[0], kept[k]) {
        var i := KeptFrom(rest, cutoff, k);
      }
      RankedCons(hash, chain[0], kept);
      assert [] + kept == kept;
    }
  }

  /** Exactly the first `v` records are soundly linked. */
  ghost predicate SoundTo(hash: Hash, chain: seq<Record>, v: nat) {
    && v <= |chain| && Verifies(hash, chain[..v])
    && (v < |chain| ==> chain[v].previous != LastChecksum(chain[..v]))
  }

  lemma {:induction false} SoundVerifies(hash: Hash, chain: seq<Record>, v: nat)
    requires SoundTo(hash, chain, v)
    ensures Verifies(hash, chain) <==> v == |chain|
  {
    assert chain[..|chain|] == chain;
    if v < |chain| && Verifies(hash, chain) {
      LinkedAt(hash, chain, v);
    }
  }

  lemma {:induction false} SoundAppend(hash: Hash, chain: seq<Record>, v: nat, d: Draft)
    requires SoundTo(hash, chain, v)
    ensures SoundTo(hash, chain + [MakeRecord(hash, chain, d)], if v == |chain| then v + 1 else v)
  {
    var r := MakeRecord(hash, chain, d);
    var all := chain + [r];
    if v == |chain| {
      assert chain[..v] == chain && all[..v + 1] == all;
      LinkedSnoc(hash, GENESIS_CHECKSUM, chain, r);
    } else {
      assert all[..v] == chain[..v];
    }
  }

  /** A survivor behind a removed event does not link to what stands before that event. */
  lemma {:induction false} SurvivorUnlinked(hash: Hash, chain: seq<Record>, n: nat, at: nat)
    requires Ideal(hash) && Ranked(hash, chain) && n < at < |chain|
    ensures chain[at].previous != LastChecksum(chain[..n])
  {
    assert Behind(hash, chain[n], chain[at]);
    RankOfGenesis(hash);
    if n > 0 {
      assert Behind(hash, chain[n - 1], chain[n]);
    }
  }

  /** Cutting inside the sound part, or not at all, keeps it sound. */
  lemma {:induction false} SoundPart(hash: Hash, chain: seq<Record>, kept: seq<Record>, v: nat, w: nat)
    requires SoundTo(hash, chain, v) && w <= v && w <= |kept| && kept[..w] == chain[..w]
    ensures Verifies(hash, kept[..w])
  {
    assert chain[..v][..w] == chain[..w];
    VerifyingPrefix(hash, chain[..v], w);
  }

  lemma {:induction false} FirstBehind(hash: Hash, chain: seq<Record>, cutoff: real, n: nat)
    requires Ideal(hash) && Ranked(hash, chain) && n == KeptPrefix(chain, cutoff)
    requires Kept(chain[n..], cutoff) != []
    ensures Kept(chain[n..], cutoff)[0].previous != LastChecksum(chain[..n])
  {
    var j := FirstKept(chain[n..], cutoff);
    KeptAreLate(chain[n..], cutoff);
    assert Kept(chain[n..], cutoff)[0] in Kept(chain[n..], cutoff);
    SurvivorUnlinked(hash, chain, n, n + j);
  }

  lemma {:induction false} SoundShort(hash: Hash, chain: seq<Record>, kept: seq<Record>, v: nat, n: nat)
    requires SoundTo(hash, chain, v) && v < n <= |kept| && n <= |chain| && kept[..n] == chain[..n]
    ensures SoundTo(hash, kept, v)
  {
    assert kept[..v] == kept[..n][..v] && chain[..v] == chain[..n][..v];
    assert kept[v] == kept[..n][v] && chain[v] == chain[..n][v];
  }

  lemma {:induction false} SoundCut(hash: Hash, chain: seq<Record>, kept: seq<Record>, v: nat, n: nat)
    requires SoundTo(hash, chain, v) && n <= v && n <= |kept| && kept[..n] == chain[..n]
    requires n < |kept| ==> kept[n].previous != LastChecksum(chain[..n])
    ensures SoundTo(hash, kept, n)
  {
    SoundPart(hash, chain, kept, v, n);
  }

  lemma {:induction false} SoundPrune(hash: Hash, chain: seq<Record>, v: nat, cutoff: real)
    requires Ideal(hash) && Ranked(hash, chain) && SoundTo(hash, chain, v)
    ensures var n := KeptPrefix(chain, cutoff);
            SoundTo(hash, Kept(chain, cutoff), if v <= n then v else n)
  {
    var n := KeptPrefix(chain, cutoff);
    var rest := Kept(chain[n..], cutoff);
    var kept := chain[..n] + rest;
    KeptSplit(chain, cutoff);
    assert kept[..n] == chain[..n];
    if v < n {
      SoundShort(hash, chain, kept, v, n);
    } else {
      if rest != [] {
        FirstBehind(hash, chain, cutoff, n);
        assert kept[n] == rest[0];
      }
      SoundCut(hash, chain, kept, v, n);
    }
  }

  lemma {:induction false} RunOutlined(hash: Hash, ops: seq<Op>)
    requires Ideal(hash)
    ensures var chain, o := Run(hash, ops), OutlineOf(ops);
            StampsOf(chain) == o.stamps && |chain| == |o.stamps| && Ranked(hash, chain) && SoundTo(hash, chain, o.sound)
    decreases |ops|
  {
    if ops != [] {
      var before, op := ops[..|ops| - 1], ops[|ops| - 1];
      RunOutlined(hash, before);
      var chain, o := Run(hash, before), OutlineOf(before);
      match op {
        case Append(d) =>
          RankedAppend(hash, chain, d);
          SoundAppend(hash, chain, o.sound, d);
          StampsOfSnoc(chain, MakeRecord(hash, chain, d));
        case Prune(cutoff) =>
          RankedKept(hash, chain, cutoff);
          SoundPrune(hash, chain, o.sound, cutoff);
          StampsOfKept(chain, cutoff);
          StampsOfPrefix(chain, cutoff);
      }
    }
  }

  /** After any run of appends and prunes, in whatever time order, verification accepts exactly when the
      outline is sound to its end: timestamps and cutoffs alone decide it. */
  lemma {:induction false} AnyRunVerifiesIff(hash: Hash, ops: seq<Op>)
    requires Ideal(hash)
    ensures Verifies(hash, Run(hash, ops)) <==> OutlineOf(ops).sound == |OutlineOf(ops).stamps|
  {
    RunOutlined(hash, ops);
    SoundVerifies(hash, Run(hash, ops), OutlineOf(ops).sound);
  }

  lemma {:induction false} GapInOutline()
    ensures StampsKept([2.0, 1.0, 2.0], 1.5) == [2.0, 2.0]
    ensures StampsPrefix([2.0, 1.0, 2.0], 1.5) == 1
  {
    assert [2.0, 1.0, 2.0][1..] == [1.0, 2.0] && [1.0, 2.0][1..] == [2.0] && [2.0][1..] == [];
    assert StampsKept([2.0], 1.5) == [2.0];
    assert StampsKept([1.0, 2.0], 1.5) == [2.0];
    assert StampsPrefix([1.0, 2.0], 1.5) == 0;
  }

  /** Out of time order (a queued event saved after a later synchronous one) a prune can cut out the middle. */
  lemma {:induction false} OutOfOrderPruneLeavesGap(hash: Hash)
    requires Ideal(hash)
    ensures var late, early := Payload(2.0, map[]), Payload(1.0, map[]);
            !Verifies(hash, Run(hash, [Append(Draft("a", None, late)), Append(Draft("b", None, early)),
                                       Append(Draft("c", None, late)), Prune(1.5)]))
  {
    var late, early := Payload(2.0, map[]), Payload(1.0, map[]);
    var a, b, c := Append(Draft("a", None, late)), Append(Draft("b", None, early)), Append(Draft("c", None, late));
    var ops := [a, b, c, Prune(1.5)];
    AnyRunVerifiesIff(hash, ops);
    assert OutlineOf(ops) == Outline([2.0, 2.0], 1) by {
      assert ops[..3] == [a, b, c] && [a, b, c][..2] == [a, b] && [a, b][..1] == [a] && [a][..0] == [];
      assert OutlineOf([a]) == Outline([2.0], 1);
      assert OutlineOf([a, b]) == Outline([2.0, 1.0], 2);
      assert OutlineOf([a, b, c]) == Outline([2.0, 1.0, 2.0], 3);
      GapInOutline();
    }
  }
}
