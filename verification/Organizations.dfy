/**
 Organization membership over the in-memory store: last-owner rule, member cap,
 single-use invitations. The store never suspends, so each call is one atomic step.
 */
module Organizations {
  import opened Prelude

  datatype Role = Owner | Admin | Member | Guest

  datatype Plan = Free | Pro | Enterprise

  function PlanMaxMembers(p: Plan): nat {
    match p case Free => 10 case Pro => 50 case Enterprise => 1000
  }

  datatype Org = Org(id: string, name: string, slug: string, plan: Plan, maxMembers: nat)

  datatype Invitation = Invitation(id: string, orgId: string, email: string, role: Role, token: string, expiresAt: real)

  type Members = map<string, Role>

  datatype Error =
    | InvalidArgument
    | UnknownOrganization
    | SlugTaken
    | MemberLimit
    | AlreadyMember
    | NotAMember
    | LastOwner
    | PendingExists
    | RateLimited
    | UnknownInvitation
    | InvitationExpired
    | UnknownUser
    | WrongEmail

  ghost function Owners(ms: Members): set<string> {
    set u | u in ms && ms[u] == Owner
  }

  /** The owners other than `user`. */
  ghost predicate HasOtherOwner(ms: Members, user: string) {
    exists u :: u in ms && u != user && ms[u] == Owner
  }

  /** What every organization keeps: an owner, and no more members than its cap. */
  ghost predicate Healthy(org: Org, ms: Members) {
    && (exists u :: u in ms && ms[u] == Owner)
    && |ms| <= org.maxMembers
  }

  lemma OtherOwnerIff(ms: Members, user: string)
    requires user in ms && ms[user] == Owner
    ensures HasOtherOwner(ms, user) <==> |Owners(ms)| > 1
  {
    var owners := Owners(ms);
    if HasOtherOwner(ms, user) {
      var u :| u in ms && u != user && ms[u] == Owner;
      assert {user, u} <= owners;
      assert owners == {user, u} + (owners - {user, u});
    } else {
      assert owners == {user};
    }
  }

  /** Every organization has its members and its slug, and is healthy. */
  ghost predicate OrgsOk(orgs: map<string, Org>, bySlug: map<string, string>, members: map<string, Members>, issued: set<string>) {
    && members.Keys == orgs.Keys
    && (forall o :: o in orgs ==> orgs[o].id == o && o in issued && Healthy(orgs[o], members[o]))
    && (forall o :: o in orgs ==> orgs[o].slug in bySlug && bySlug[orgs[o].slug] == o)
    && (forall s :: s in bySlug ==> bySlug[s] in orgs && orgs[bySlug[s]].slug == s)
  }

  /** Stored tokens are distinct, issued and not consumed; one pending invitation per organization and address. */
  ghost predicate InvitationsOk(invitations: map<string, Invitation>, orgs: map<string, Org>, issued: set<string>, consumed: set<string>) {
    && consumed <= issued
    && (forall i :: i in invitations ==>
          && invitations[i].id == i && i in issued && invitations[i].orgId in orgs
          && invitations[i].token in issued && invitations[i].token !in consumed)
    && (forall i, j :: i in invitations && j in invitations && i != j ==> Apart(invitations[i], invitations[j]))
  }

  ghost predicate Apart(a: Invitation, b: Invitation) {
    a.token != b.token && (a.orgId == b.orgId ==> Lower(a.email) != Lower(b.email))
  }

  lemma OrgAdded(orgs: map<string, Org>, bySlug: map<string, string>, members: map<string, Members>, issued: set<string>,
                 org: Org, ms: Members)
    requires OrgsOk(orgs, bySlug, members, issued)
    requires org.id !in issued && org.slug !in bySlug && Healthy(org, ms)
    ensures OrgsOk(orgs[org.id := org], bySlug[org.slug := org.id], members[org.id := ms], issued + {org.id})
  {
  }

  lemma OrgRemoved(orgs: map<string, Org>, bySlug: map<string, string>, members: map<string, Members>, issued: set<string>, o: string)
    requires OrgsOk(orgs, bySlug, members, issued) && o in orgs
    ensures OrgsOk(orgs - {o}, bySlug - {orgs[o].slug}, members - {o}, issued)
  {
  }

  /** Dropping invitations and their tokens. */
  lemma InvitationsDropped(invitations: map<string, Invitation>, kept: map<string, Invitation>, orgs: map<string, Org>,
                           left: map<string, Org>, issued: set<string>, consumed: set<string>, dropped: set<string>)
    requires InvitationsOk(invitations, orgs, issued, consumed)
    requires forall i :: i in kept ==> i in invitations && kept[i] == invitations[i] && kept[i].orgId in left && kept[i].token !in dropped
    requires dropped <= issued
    ensures InvitationsOk(kept, left, issued, consumed + dropped)
  {
    forall i, j | i in kept && j in kept && i != j ensures Apart(kept[i], kept[j]) {
      assert Apart(invitations[i], invitations[j]);
    }
  }

  function Elsewhere(invitations: map<string, Invitation>, orgId: string): map<string, Invitation> {
    map i | i in invitations && invitations[i].orgId != orgId :: invitations[i]
  }

  ghost function TokensOf(invitations: map<string, Invitation>, orgId: string): set<string> {
    set i | i in invitations && invitations[i].orgId == orgId :: invitations[i].token
  }

  lemma OrgInvitationsDropped(invitations: map<string, Invitation>, orgs: map<string, Org>, issued: set<string>,
                              consumed: set<string>, orgId: string)
    requires InvitationsOk(invitations, orgs, issued, consumed)
    ensures InvitationsOk(Elsewhere(invitations, orgId), orgs, issued, consumed + TokensOf(invitations, orgId))
  {
    var kept, dropped := Elsewhere(invitations, orgId), TokensOf(invitations, orgId);
    forall i | i in kept ensures kept[i].token !in dropped {
      assert forall j :: j in invitations && j != i ==> Apart(invitations[i], invitations[j]);
    }
    InvitationsDropped(invitations, kept, orgs, orgs, issued, consumed, dropped);
  }

  lemma {:induction false} InvitationsElsewhere(invitations: map<string, Invitation>, orgs: map<string, Org>, issued: set<string>,
                                                consumed: set<string>, orgId: string)
    requires InvitationsOk(invitations, orgs, issued, consumed) && forall i :: i in invitations ==> invitations[i].orgId != orgId
    ensures InvitationsOk(invitations, orgs - {orgId}, issued, consumed)
  {
  }

  lemma NoneElsewhere(invitations: map<string, Invitation>, orgs: map<string, Org>, issued: set<string>,
                      consumed: set<string>, orgId: string)
    requires InvitationsOk(invitations, orgs, issued, consumed) && orgId !in orgs
    ensures Elsewhere(invitations, orgId) == invitations
  {
  }

  /** `id` is the stored invitation that a non-empty token names, if there is one. */
  ghost predicate IsToken(invitations: map<string, Invitation>, token: string, id: Option<string>) {
    match id
    case Some(id) => token != "" && id in invitations && invitations[id].token == token
    case None => token == "" || forall i :: i in invitations ==> invitations[i].token != token
  }

  lemma {:induction false} LowerEqAll(invitations: map<string, Invitation>, email: string)
    ensures forall i :: i in invitations ==>
              (Lower(invitations[i].email) == Lower(email) <==> EqualFold(invitations[i].email, email))
  {
    forall i | i in invitations
      ensures Lower(invitations[i].email) == Lower(email) <==> EqualFold(invitations[i].email, email)
    {
      LowerEqIff(invitations[i].email, email);
    }
  }

  /** No two stored invitations of an organization are for the same address, in any case. */
  lemma {:induction false} OneInvitationPerAddress(invitations: map<string, Invitation>, orgs: map<string, Org>, issued: set<string>,
                                                   consumed: set<string>, i: string, j: string)
    requires InvitationsOk(invitations, orgs, issued, consumed) && i in invitations && j in invitations && i != j
    ensures invitations[i].token != invitations[j].token
    ensures invitations[i].orgId == invitations[j].orgId ==> !EqualFold(invitations[i].email, invitations[j].email)
  {
    assert Apart(invitations[i], invitations[j]);
    LowerEqIff(invitations[i].email, invitations[j].email);
  }

  /** An invitation of the organization is pending for the address, in any case. */
  predicate PendingFor(invitations: map<string, Invitation>, orgId: string, email: string): (r: bool)
    ensures r <==> exists i :: i in invitations && invitations[i].orgId == orgId && EqualFold(invitations[i].email, email)
  {
    LowerEqAll(invitations, email);
    exists i | i in invitations.Keys :: invitations[i].orgId == orgId && Lower(invitations[i].email) == Lower(email)
  }

  lemma OrgsIssued(orgs: map<string, Org>, bySlug: map<string, string>, members: map<string, Members>, issued: set<string>, more: set<string>)
    requires OrgsOk(orgs, bySlug, members, issued) && issued <= more
    ensures OrgsOk(orgs, bySlug, members, more)
  {
  }

  lemma InvitationAdded(invitations: map<string, Invitation>, orgs: map<string, Org>, issued: set<string>, consumed: set<string>, inv: Invitation)
    requires InvitationsOk(invitations, orgs, issued, consumed)
    requires inv.orgId in orgs && inv.id !in issued && inv.token !in issued
    requires !PendingFor(invitations, inv.orgId, inv.email)
    ensures InvitationsOk(invitations[inv.id := inv], orgs, issued + {inv.id, inv.token}, consumed)
  {
    var all := invitations[inv.id := inv];
    forall i, j | i in all && j in all && i != j ensures Apart(all[i], all[j]) {
      if i != inv.id && j != inv.id {
        assert Apart(invitations[i], invitations[j]);
      }
    }
  }

  class OrganizationManager {
    var orgs: map<string, Org>
    var bySlug: map<string, string>
    var members: map<string, Members>
    var invitations: map<string, Invitation>
    /** `get_user_by_id(...)["email"]` for each known user. */
    const users: map<string, Field>
    const invitationTtl: nat

    /** Ids and tokens ever handed out; both come from a random source and do not repeat. */
    ghost var issued: set<string>
    /** Tokens whose invitation is no longer stored. */
    ghost var consumed: set<string>

    ghost predicate Valid()
      reads this
    {
      OrgsOk(orgs, bySlug, members, issued) && InvitationsOk(invitations, orgs, issued, consumed)
    }

    constructor (users: map<string, Field>, invitationTtl: nat)
      requires invitationTtl > 0
      ensures Valid() && orgs == map[] && invitations == map[] && this.users == users
    {
      this.users, this.invitationTtl := users, invitationTtl;
      orgs, bySlug, members, invitations := map[], map[], map[], map[];
      issued, consumed := {}, {};
    }

    /** The slug to try: the plain one, or the one with a random suffix when that is taken. */
    static function CandidateSlug(slugs: set<string>, base: string, suffix: string): string {
      if base in slugs then Lower(base + "-" + suffix) else base
    }

    /** The organization is stored with its owner as first member; a taken slug gets one random suffix. */
    method CreateOrganization(name: string, ownerId: string, plan: Plan, slug: string, suffix: string, freshId: string)
      returns (r: Result<Org, Error>)
      requires Valid() && freshId !in issued
      modifies this
      ensures Valid() && invitations == old(invitations) && consumed == old(consumed)
      ensures var candidate := CandidateSlug(old(bySlug).Keys, Lower(Slugify(if slug != "" then slug else name)), suffix);
              var org := Org(freshId, Strip(name), candidate, plan, PlanMaxMembers(plan));
              r == if Strip(name) == "" || Strip(ownerId) == "" then Err(InvalidArgument)
                   else if exists o :: o in old(orgs) && old(orgs)[o].slug == candidate then Err(SlugTaken)
                   else Ok(org)
      ensures r.Ok? ==> r.value.maxMembers == (match plan case Free => 10 case Pro => 50 case Enterprise => 1000)
      ensures r.Ok? ==>
                var base := Lower(Slugify(if slug != "" then slug else name));
                r.value.slug == if exists o :: o in old(orgs) && old(orgs)[o].slug == base then Lower(base + "-" + suffix) else base
      ensures r == Err(SlugTaken) <==>
                var base := Lower(Slugify(if slug != "" then slug else name));
                && Strip(name) != "" && Strip(ownerId) != ""
                && (exists o :: o in old(orgs) && old(orgs)[o].slug == base)
                && exists o :: o in old(orgs) && old(orgs)[o].slug == Lower(base + "-" + suffix)
      ensures orgs == if r.Ok? then old(orgs)[freshId := r.value] else old(orgs)
      ensures members == if r.Ok? then old(members)[freshId := map[ownerId := Owner]] else old(members)
    {
      if Strip(name) == "" || Strip(ownerId) == "" {
        return Err(InvalidArgument);
      }
      var candidate := CandidateSlug(bySlug.Keys, Lower(Slugify(if slug != "" then slug else name)), suffix);
      if candidate in bySlug {
        return Err(SlugTaken);
      }
      var org := Org(freshId, Strip(name), candidate, plan, PlanMaxMembers(plan));
      Found(org, ownerId);
      return Ok(org);
    }

    /** A new organization with its owner as first member. */
    method Found(org: Org, ownerId: string)
      requires Valid() && org.id !in issued && org.slug !in bySlug && org.maxMembers >= 1
      modifies this`orgs, this`bySlug, this`members, this`issued
      ensures Valid() && orgs == old(orgs)[org.id := org]
      ensures members == old(members)[org.id := map[ownerId := Owner]]
    {
      var ms: Members := map[ownerId := Owner];
      FirstOwnerHealthy(org, ownerId);
      OrgAdded(orgs, bySlug, members, issued, org, ms);
      orgs := orgs[org.id := org];
      bySlug := bySlug[org.slug := org.id];
      members := members[org.id := ms];
      issued := issued + {org.id};
    }

    /** `add_org_member` of the store. */
    method Insert(orgId: string, userId: string, role: Role) returns (r: Result<Role, Error>)
      requires Valid() && orgId in orgs && |members[orgId]| < orgs[orgId].maxMembers
      modifies this`members
      ensures Valid()
      ensures if userId in old(members)[orgId] then r == Err(AlreadyMember) && members == old(members)
              else r == Ok(role) && members == old(members)[orgId := old(members)[orgId][userId := role]]
    {
      if userId in members[orgId] {
        return Err(AlreadyMember);
      }
      ghost var before := members[orgId];
      var after := members[orgId][userId := role];
      assert Healthy(orgs[orgId], after) by {
        var u :| u in before && before[u] == Owner;
        assert u in after && after[u] == Owner;
      }
      members := members[orgId := after];
      return Ok(role);
    }

    method AddMember(orgId: string, userId: string, role: Role) returns (r: Result<Role, Error>)
      requires Valid()
      modifies this`members
      ensures Valid()
      ensures r == if orgId !in orgs then Err(UnknownOrganization)
                   else if Strip(userId) == "" then Err(InvalidArgument)
                   else if |old(members)[orgId]| >= orgs[orgId].maxMembers then Err(MemberLimit)
                   else if userId in old(members)[orgId] then Err(AlreadyMember)
                   else Ok(role)
      ensures members == if r.Ok? then old(members)[orgId := old(members)[orgId][userId := role]] else old(members)
    {
      if orgId !in orgs {
        return Err(UnknownOrganization);
      }
      if Strip(userId) == "" {
        return Err(InvalidArgument);
      }
      if |members[orgId]| >= orgs[orgId].maxMembers {
        return Err(MemberLimit);
      }
      r := Insert(orgId, userId, role);
    }

    /** The owner count of the guards. */
    static method CountOwners(ms: Members) returns (count: nat)
      ensures count == |Owners(ms)|
    {
      var rest := ms.Keys;
      count := 0;
      ghost var seen: set<string> := {};
      while rest != {}
        invariant rest <= ms.Keys && seen == Owners(ms) - rest && count == |seen|
        decreases rest
      {
        var u :| u in rest;
        if ms[u] == Owner {
          seen := seen + {u};
          count := count + 1;
        }
        rest := rest - {u};
        assert seen == Owners(ms) - rest;
      }
      assert seen == Owners(ms);
    }

    /** Refused exactly for the last owner. */
    method RemoveMember(orgId: string, userId: string) returns (r: Result<bool, Error>)
      requires Valid()
      modifies this`members
      ensures Valid()
      ensures r == if orgId !in orgs || userId !in old(members)[orgId] then Ok(false)
                   else if old(members)[orgId][userId] == Owner && !HasOtherOwner(old(members)[orgId], userId) then Err(LastOwner)
                   else Ok(true)
      ensures members == if r == Ok(true) then old(members)[orgId := old(members)[orgId] - {userId}] else old(members)
    {
      if orgId !in members || userId !in members[orgId] {
        return Ok(false);
      }
      ghost var before := members[orgId];
      if members[orgId][userId] == Owner {
        var owners := CountOwners(members[orgId]);
        OtherOwnerIff(before, userId);
        if owners <= 1 {
          return Err(LastOwner);
        }
      }
      var after := members[orgId] - {userId};
      StillHealthy(orgs[orgId], before, after, userId);
      members := members[orgId := after];
      return Ok(true);
    }

    method UpdateMemberRole(orgId: string, userId: string, role: Role) returns (r: Result<Role, Error>)
      requires Valid()
      modifies this`members
      ensures Valid()
      ensures r == if orgId !in orgs || userId !in old(members)[orgId] then Err(NotAMember)
                   else if old(members)[orgId][userId] == Owner && role != Owner && !HasOtherOwner(old(members)[orgId], userId)
                   then Err(LastOwner)
                   else Ok(role)
      ensures members == if r.Ok? then old(members)[orgId := old(members)[orgId][userId := role]] else old(members)
    {
      if orgId !in members || userId !in members[orgId] {
        return Err(NotAMember);
      }
      ghost var before := members[orgId];
      if members[orgId][userId] == Owner && role != Owner {
        var owners := CountOwners(members[orgId]);
        OtherOwnerIff(before, userId);
        if owners <= 1 {
          return Err(LastOwner);
        }
      }
      var after := members[orgId][userId := role];
      RoleChangeHealthy(orgs[orgId], before, userId, role);
      members := members[orgId := after];
      return Ok(role);
    }

    method DeleteOrganization(orgId: string) returns (removed: bool)
      requires Valid()
      modifies this
      ensures Valid()
      ensures removed == (orgId in old(orgs)) && orgs == old(orgs) - {orgId} && members == old(members) - {orgId}
      ensures forall i :: i in invitations <==> i in old(invitations) && old(invitations)[i].orgId != orgId
      ensures forall i :: i in invitations ==> invitations[i] == old(invitations)[i]
      ensures forall i :: i in old(invitations) && old(invitations)[i].orgId == orgId && removed ==>
                old(invitations)[i].token in consumed
    {
      if orgId !in orgs {
        NoneElsewhere(invitations, orgs, issued, consumed, orgId);
        assert members - {orgId} == members && orgs - {orgId} == orgs;
        return false;
      }
      DropInvitations(orgId);
      DropOrganization(orgId);
      return true;
    }

    /** `invitations` of the organization go first, and their tokens are used up. */
    method DropInvitations(orgId: string)
      requires Valid()
      modifies this`invitations, this`consumed
      ensures Valid()
      ensures invitations == Elsewhere(old(invitations), orgId)
      ensures consumed == old(consumed) + TokensOf(old(invitations), orgId)
    {
      OrgInvitationsDropped(invitations, orgs, issued, consumed, orgId);
      consumed := consumed + TokensOf(invitations, orgId);
      invitations := Elsewhere(invitations, orgId);
    }

    method DropOrganization(orgId: string)
      requires Valid() && orgId in orgs && forall i :: i in invitations ==> invitations[i].orgId != orgId
      modifies this`orgs, this`bySlug, this`members
      ensures Valid() && orgs == old(orgs) - {orgId} && members == old(members) - {orgId}
    {
      OrgRemoved(orgs, bySlug, members, issued, orgId);
      InvitationsElsewhere(invitations, orgs, issued, consumed, orgId);
      bySlug := bySlug - {orgs[orgId].slug};
      orgs := orgs - {orgId};
      members := members - {orgId};
    }

    method StoreInvitation(inv: Invitation)
      requires Valid() && inv.orgId in orgs && inv.id !in issued && inv.token !in issued
      requires !PendingFor(invitations, inv.orgId, inv.email)
      modifies this`invitations, this`issued
      ensures Valid() && invitations == old(invitations)[inv.id := inv]
      ensures issued == old(issued) + {inv.id, inv.token}
    {
      OrgsIssued(orgs, bySlug, members, issued, issued + {inv.id, inv.token});
      InvitationAdded(invitations, orgs, issued, consumed, inv);
      invitations := invitations[inv.id := inv];
      issued := issued + {inv.id, inv.token};
    }

    /** Rejected for an unknown organization, a malformed address, a second pending invitation to the same address
        in any case, or by the sender's rate limit, in that order. */
    static ghost function InvitationError(orgs: map<string, Org>, invitations: map<string, Invitation>, orgId: string,
                                          email: string, limited: bool): (e: Option<Error>)
      ensures e == Some(UnknownOrganization) <==> orgId !in orgs
      ensures e == Some(InvalidArgument) <==> orgId in orgs && '@' !in email
      ensures e == Some(PendingExists) <==>
                && orgId in orgs && '@' in email
                && exists i :: i in invitations && invitations[i].orgId == orgId && EqualFold(invitations[i].email, Strip(email))
      ensures e == Some(RateLimited) <==>
                limited && e !in [Some(UnknownOrganization), Some(InvalidArgument), Some(PendingExists)]
      ensures e in [None, Some(UnknownOrganization), Some(InvalidArgument), Some(PendingExists), Some(RateLimited)]
    {
      if orgId !in orgs then Some(UnknownOrganization)
      else if '@' !in email then Some(InvalidArgument)
      else if PendingFor(invitations, orgId, Strip(email)) then Some(PendingExists)
      else if limited then Some(RateLimited)
      else None
    }

    method CheckInvitation(orgId: string, email: string, limited: bool) returns (e: Option<Error>)
      ensures e == InvitationError(orgs, invitations, orgId, email, limited)
      ensures e.None? ==> orgId in orgs && !PendingFor(invitations, orgId, Strip(email))
    {
      if orgId !in orgs {
        return Some(UnknownOrganization);
      }
      if '@' !in email {
        return Some(InvalidArgument);
      }
      if PendingFor(invitations, orgId, Strip(email)) {
        return Some(PendingExists);
      }
      return if limited then Some(RateLimited) else None;
    }

    method SendInvitation(orgId: string, email: string, role: Role, hours: int, limited: bool, now: real,
                          freshId: string, freshToken: string)
      returns (r: Result<Invitation, Error>)
      requires Valid() && freshId !in issued && freshToken !in issued && freshId != freshToken && freshToken != ""
      modifies this`invitations, this`issued
      ensures Valid()
      ensures match InvitationError(orgs, old(invitations), orgId, email, limited)
              case Some(e) => r == Err(e) && invitations == old(invitations)
              case None =>
                && r == Ok(Invitation(freshId, orgId, Strip(email), role, freshToken,
                                      now + (if hours > 0 then hours * 3600 else invitationTtl) as real))
                && invitations == old(invitations)[freshId := r.value]
    {
      var e := CheckInvitation(orgId, email, limited);
      if e.Some? {
        return Err(e.value);
      }
      var inv := Issue(orgId, Strip(email), role, hours, now, freshId, freshToken);
      return Ok(inv);
    }

    method Issue(orgId: string, address: string, role: Role, hours: int, now: real, freshId: string, freshToken: string)
      returns (inv: Invitation)
      requires Valid() && freshId !in issued && freshToken !in issued
      requires orgId in orgs && !PendingFor(invitations, orgId, address)
      modifies this`invitations, this`issued
      ensures Valid() && invitations == old(invitations)[freshId := inv]
      ensures inv == Invitation(freshId, orgId, address, role, freshToken,
                                now + (if hours > 0 then hours * 3600 else invitationTtl) as real)
    {
      var ttl := if hours > 0 then hours * 3600 else invitationTtl;
      inv := Invitation(freshId, orgId, address, role, freshToken, now + ttl as real);
      StoreInvitation(inv);
    }

    /** The stored invitation with this token, if any. */
    method FindByToken(token: string) returns (id: Option<string>)
      requires Valid()
      ensures id.Some? ==> id.value in invitations && invitations[id.value].token == token
      ensures id.None? ==> forall i :: i in invitations ==> invitations[i].token != token
    {
      var rest := invitations.Keys;
      while rest != {}
        invariant rest <= invitations.Keys
        invariant forall i :: i in invitations && i !in rest ==> invitations[i].token != token
        decreases rest
      {
        var i :| i in rest;
        if invitations[i].token == token {
          return Some(i);
        }
        rest := rest - {i};
      }
      return None;
    }

    method Consume(id: string)
      requires Valid() && id in invitations
      modifies this`invitations, this`consumed
      ensures Valid() && invitations == old(invitations) - {id}
      ensures consumed == old(consumed) + {old(invitations)[id].token}
    {
      forall i | i in invitations && i != id ensures invitations[i].token != invitations[id].token {
        assert Apart(invitations[i], invitations[id]);
      }
      InvitationsDropped(invitations, invitations - {id}, orgs, orgs, issued, consumed, {invitations[id].token});
      consumed := consumed + {invitations[id].token};
      invitations := invitations - {id};
    }

    /** Addresses are compared only when both are non-empty. */
    static predicate Mismatch(invited: string, user: Field): (r: bool)
      ensures r <==> invited != "" && FieldText(user) != "" && !EqualFold(invited, FieldText(user))
    {
      LowerEqIff(invited, FieldText(user));
      Lower(invited) != "" && Lower(FieldText(user)) != "" && Lower(invited) != Lower(FieldText(user))
    }

    /** The refusals that come before the invitation is used up. */
    ghost function Refusal(inv: Invitation, userId: string, now: real): (e: Option<Error>)
      ensures e == Some(InvitationExpired) <==> inv.expiresAt <= now
      ensures e == Some(UnknownUser) <==> inv.expiresAt > now && userId !in users
      ensures e == Some(WrongEmail) <==>
                && inv.expiresAt > now && userId in users && inv.email != "" && FieldText(users[userId]) != ""
                && !EqualFold(inv.email, FieldText(users[userId]))
      ensures e in [None, Some(InvitationExpired), Some(UnknownUser), Some(WrongEmail)]
    {
      if inv.expiresAt <= now then Some(InvitationExpired)
      else if userId !in users then Some(UnknownUser)
      else if Mismatch(inv.email, users[userId]) then Some(WrongEmail)
      else None
    }

    /** The join after an invitation has been used up. */
    static ghost function JoinOutcome(org: Org, ms: Members, userId: string, role: Role): (r: Result<Role, Error>)
      ensures r == Ok(role) <==> |ms| < org.maxMembers && userId !in ms
      ensures r == Err(MemberLimit) <==> |ms| >= org.maxMembers
      ensures r == Err(AlreadyMember) <==> |ms| < org.maxMembers && userId in ms
    {
      if |ms| >= org.maxMembers then Err(MemberLimit) else if userId in ms then Err(AlreadyMember) else Ok(role)
    }

    method Join(orgId: string, userId: string, role: Role) returns (r: Result<Role, Error>)
      requires Valid() && orgId in orgs
      modifies this`members
      ensures Valid()
      ensures r == JoinOutcome(orgs[orgId], old(members)[orgId], userId, role)
      ensures members == if r.Ok? then old(members)[orgId := old(members)[orgId][userId := role]] else old(members)
    {
      if |members[orgId]| >= orgs[orgId].maxMembers {
        return Err(MemberLimit);
      }
      r := Insert(orgId, userId, role);
    }

    /** What accepting the stored invitation `inv` does: refusals leave it in place unless it has expired; otherwise
        it is used up, even when the member cap or an existing membership then stops the join. */
    ghost predicate Accepted(orgs: map<string, Org>, members: map<string, Members>, before: map<string, Invitation>,
                             inv: Invitation, userId: string, now: real, r: Result<Role, Error>)
      reads this
    {
      inv.orgId in orgs && inv.orgId in members &&
      match Refusal(inv, userId, now)
      case Some(e) =>
        r == Err(e) && invitations == if e.InvitationExpired? then before - {inv.id} else before
      case None =>
        && r == JoinOutcome(orgs[inv.orgId], members[inv.orgId], userId, inv.role)
        && invitations == before - {inv.id} && inv.token in consumed
        && (r.Ok? ==> this.members == members[inv.orgId := members[inv.orgId][userId := inv.role]])
    }

    method AcceptFound(id: string, userId: string, now: real) returns (r: Result<Role, Error>)
      requires Valid() && id in invitations
      modifies this`invitations, this`consumed, this`members
      ensures Valid() && old(consumed) <= consumed
      ensures Accepted(orgs, old(members), old(invitations), old(invitations)[id], userId, now, r)
      ensures r.Err? ==> members == old(members)
      ensures id in invitations <==> r == Err(UnknownUser) || r == Err(WrongEmail)
      ensures r.Err? && r.error in [MemberLimit, AlreadyMember] ==> old(invitations)[id].token in consumed
    {
      var inv := invitations[id];
      if inv.expiresAt <= now {
        Consume(id);
        return Err(InvitationExpired);
      }
      if userId !in users {
        return Err(UnknownUser);
      }
      if Mismatch(inv.email, users[userId]) {
        return Err(WrongEmail);
      }
      Consume(id);
      r := Join(inv.orgId, userId, inv.role);
    }

    /** A token works at most once: success uses it up, and a token used up is refused for ever. */
    method AcceptInvitation(token: string, userId: string, now: real) returns (r: Result<Role, Error>, ghost id: Option<string>)
      requires Valid()
      modifies this`invitations, this`consumed, this`members
      ensures Valid() && old(consumed) <= consumed
      ensures token in old(consumed) ==> r.Err?
      ensures r.Ok? ==> token !in old(consumed) && token in consumed
      ensures IsToken(old(invitations), token, id)
      ensures id.None? ==> r == Err(if token == "" then InvalidArgument else UnknownInvitation) && invitations == old(invitations)
      ensures r.Err? ==> members == old(members)
      ensures id.Some? ==>
                Accepted(orgs, old(members), old(invitations), old(invitations)[id.value], userId, now, r)
    {
      id := None;
      if token == "" {
        return Err(InvalidArgument), id;
      }
      var found := FindByToken(token);
      id := found;
      if found.None? {
        return Err(UnknownInvitation), id;
      }
      r := AcceptFound(found.value, userId, now);
    }

    method DeclineInvitation(token: string) returns (declined: bool)
      requires Valid()
      modifies this`invitations, this`consumed
      ensures Valid() && old(consumed) <= consumed
      ensures declined <==> exists i :: i in old(invitations) && old(invitations)[i].token == token
      ensures declined ==> token in consumed
      ensures forall i :: i in invitations <==> i in old(invitations) && old(invitations)[i].token != token
    {
      var id := FindByToken(token);
      if id.None? {
        return false;
      }
      Consume(id.value);
      return true;
    }
  }

  lemma FirstOwnerHealthy(org: Org, ownerId: string)
    requires org.maxMembers >= 1
    ensures Healthy(org, map[ownerId := Owner])
  {
    var ms: Members := map[ownerId := Owner];
    assert ownerId in ms && ms[ownerId] == Owner && |ms| == 1;
  }

  lemma StillHealthy(org: Org, before: Members, after: Members, userId: string)
    requires Healthy(org, before) && userId in before && after == before - {userId}
    requires before[userId] == Owner ==> HasOtherOwner(before, userId)
    ensures Healthy(org, after)
  {
    var u :| u in before && before[u] == Owner && u != userId;
    assert u in after && after[u] == Owner;
    assert after.Keys == before.Keys - {userId};
    assert |after.Keys| == |after| && |before.Keys| == |before|;
  }

  lemma RoleChangeHealthy(org: Org, before: Members, userId: string, role: Role)
    requires Healthy(org, before) && userId in before
    requires before[userId] == Owner && role != Owner ==> HasOtherOwner(before, userId)
    ensures Healthy(org, before[userId := role])
  {
    var after := before[userId := role];
    var u :| u in before && before[u] == Owner && (u != userId || role == Owner);
    assert u in after && after[u] == Owner;
    assert after.Keys == before.Keys;
    assert |after.Keys| == |after| && |before.Keys| == |before|;
  }
}
