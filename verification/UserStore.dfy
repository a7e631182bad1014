/** Users with unique email, username and phone, found through three indexes. */
module UserStore {
  import opened Prelude
  import opened UniqueIndex

  datatype User = User(
    id: string,
    email: Option<string>,
    username: Option<string>,
    phone: Option<string>,
    extra: map<string, string>)

  /** One entry of an update: left out, or set (possibly to nothing). */
  datatype Change = Keep | To(value: Option<string>)

  datatype Patch = Patch(
    email: Change,
    username: Change,
    phone: Change,
    extra: map<string, string>,
    touchesImmutable: bool)

  datatype Error = EmailTaken | UsernameTaken | PhoneTaken | ImmutableField

  predicate Given(v: Option<string>) { v.Some? && v.value != "" }

  function Folded(v: Option<string>): Option<string> {
    if Given(v) then Some(Lower(v.value)) else None
  }

  function Exactly(v: Option<string>): Option<string> {
    if Given(v) then v else None
  }

  const UserId: User -> string := (u: User) => u.id
  const EmailKey: User -> Option<string> := (u: User) => Folded(u.email)
  const UsernameKey: User -> Option<string> := (u: User) => Folded(u.username)
  const PhoneKey: User -> Option<string> := (u: User) => Exactly(u.phone)

  /** Two texts give the same key exactly when both are given and they differ at most in case. */
  lemma {:induction false} FoldedIff(a: Option<string>, b: Option<string>)
    ensures Folded(a).Some? <==> a.Some? && a.value != ""
    ensures Folded(a).Some? && Folded(a) == Folded(b) <==>
            a.Some? && b.Some? && a.value != "" && EqualFold(a.value, b.value)
  {
    if a.Some? && b.Some? {
      LowerEqIff(a.value, b.value);
    }
  }

  function Changed(c: Change, v: Option<string>): Option<string> {
    match c case Keep => v case To(w) => w
  }

  /** What is left out stays, what is set changes. */
  function Apply(u: User, p: Patch): (r: User)
    ensures r.id == u.id
    ensures r.email == (if p.email == Keep then u.email else p.email.value)
    ensures r.username == (if p.username == Keep then u.username else p.username.value)
    ensures r.phone == (if p.phone == Keep then u.phone else p.phone.value)
    ensures forall k :: k in r.extra <==> k in p.extra || k in u.extra
    ensures forall k :: k in r.extra ==> r.extra[k] == if k in p.extra then p.extra[k] else u.extra[k]
  {
    User(u.id, Changed(p.email, u.email), Changed(p.username, u.username), Changed(p.phone, u.phone), u.extra + p.extra)
  }

  /** Some user, other than the excluded one, has this email, in any case. */
  ghost predicate EmailInUse(users: map<string, User>, email: Option<string>, exclude: Option<string>) {
    email.Some? && email.value != "" &&
    exists i :: i in users && users[i].email.Some? && EqualFold(users[i].email.value, email.value) && exclude != Some(i)
  }

  ghost predicate UsernameInUse(users: map<string, User>, username: Option<string>, exclude: Option<string>) {
    username.Some? && username.value != "" &&
    exists i :: i in users && users[i].username.Some? && EqualFold(users[i].username.value, username.value) && exclude != Some(i)
  }

  /** Phone numbers are compared as they are. */
  ghost predicate PhoneInUse(users: map<string, User>, phone: Option<string>, exclude: Option<string>) {
    phone.Some? && phone.value != "" && exists i :: i in users && users[i].phone == phone && exclude != Some(i)
  }

  lemma {:induction false} TakenMeans(users: map<string, User>, u: User, exclude: Option<string>)
    ensures Taken(users, EmailKey, EmailKey(u), exclude) <==> EmailInUse(users, u.email, exclude)
    ensures Taken(users, UsernameKey, UsernameKey(u), exclude) <==> UsernameInUse(users, u.username, exclude)
    ensures Taken(users, PhoneKey, PhoneKey(u), exclude) <==> PhoneInUse(users, u.phone, exclude)
  {
    forall i | i in users
      ensures EmailKey(u).Some? && EmailKey(users[i]) == EmailKey(u) <==>
              Given(u.email) && users[i].email.Some? && EqualFold(users[i].email.value, u.email.value)
      ensures UsernameKey(u).Some? && UsernameKey(users[i]) == UsernameKey(u) <==>
              Given(u.username) && users[i].username.Some? && EqualFold(users[i].username.value, u.username.value)
      ensures PhoneKey(u).Some? && PhoneKey(users[i]) == PhoneKey(u) <==> Given(u.phone) && users[i].phone == u.phone
    {
      FoldedIff(users[i].email, u.email);
      FoldedIff(users[i].username, u.username);
    }
  }

  /** The first identifier of `u` that some user carries; an update excludes the user itself. */
  ghost function Conflict(users: map<string, User>, u: User, exclude: Option<string>): (e: Option<Error>)
    ensures e == Some(EmailTaken) <==> EmailInUse(users, u.email, exclude)
    ensures e == Some(UsernameTaken) <==> !EmailInUse(users, u.email, exclude) && UsernameInUse(users, u.username, exclude)
    ensures e == Some(PhoneTaken) <==>
              && !EmailInUse(users, u.email, exclude) && !UsernameInUse(users, u.username, exclude)
              && PhoneInUse(users, u.phone, exclude)
    ensures e in [None, Some(EmailTaken), Some(UsernameTaken), Some(PhoneTaken)]
  {
    TakenMeans(users, u, exclude);
    if Taken(users, EmailKey, EmailKey(u), exclude) then Some(EmailTaken)
    else if Taken(users, UsernameKey, UsernameKey(u), exclude) then Some(UsernameTaken)
    else if Taken(users, PhoneKey, PhoneKey(u), exclude) then Some(PhoneTaken)
    else None
  }

  predicate Unidentified(u: User) { !Given(u.email) && !Given(u.username) && !Given(u.phone) }

  /** The linear scan: by email, failing that by username, failing that by phone. */
  ghost predicate ScanFinds(users: map<string, User>, username: Option<string>, email: Option<string>,
                            phone: Option<string>, u: User) {
    && u.id in users && users[u.id] == u
    && if Taken(users, EmailKey, Folded(email), None) then EmailKey(u) == Folded(email)
       else if Taken(users, UsernameKey, Folded(username), None) then UsernameKey(u) == Folded(username)
       else Given(phone) && PhoneKey(u) == Exactly(phone)
  }

  ghost predicate Indexed(users: map<string, User>, byEmail: map<string, string>, byUsername: map<string, string>,
                          byPhone: map<string, string>) {
    && Filed(users, UserId)
    && Exact(byEmail, users, EmailKey)
    && Exact(byUsername, users, UsernameKey)
    && Exact(byPhone, users, PhoneKey)
  }

  /** When storing a new record, whose identifiers are free, leaves everything indexed. */
  lemma {:induction false} CreatedIndexedIff(users: map<string, User>, byEmail: map<string, string>, byUsername: map<string, string>,
                                             byPhone: map<string, string>, u: User)
    requires Indexed(users, byEmail, byUsername, byPhone) && Conflict(users, u, None) == None
    ensures Indexed(users[u.id := u], Reindex(byEmail, EmailKey(u), u.id), Reindex(byUsername, UsernameKey(u), u.id),
                    Reindex(byPhone, PhoneKey(u), u.id))
       <==> u.id != "" && (u.id in users ==> Unidentified(users[u.id]))
  {
    FiledIff(users, UserId, u);
    OverwriteExactIff(byEmail, users, EmailKey, u.id, u);
    OverwriteExactIff(byUsername, users, UsernameKey, u.id, u);
    OverwriteExactIff(byPhone, users, PhoneKey, u.id, u);
    if u.id in users {
      var old' := users[u.id];
      assert Unidentified(old') <==> EmailKey(old') == None && UsernameKey(old') == None && PhoneKey(old') == None;
    }
  }

  /** Where everything is indexed, no two users share an email or a username, in any case, or a phone number. */
  lemma {:induction false} IdentifiersUnique(users: map<string, User>, byEmail: map<string, string>, byUsername: map<string, string>,
                                             byPhone: map<string, string>, i: string, j: string)
    requires Indexed(users, byEmail, byUsername, byPhone) && i in users && j in users && i != j
    ensures users[i].email.Some? && users[j].email.Some? && EqualFold(users[i].email.value, users[j].email.value) ==>
              users[i].email.value == ""
    ensures users[i].username.Some? && users[j].username.Some? && EqualFold(users[i].username.value, users[j].username.value) ==>
              users[i].username.value == ""
    ensures users[i].phone.Some? && users[i].phone == users[j].phone ==> users[i].phone.value == ""
  {
    FoldedIff(users[i].email, users[j].email);
    FoldedIff(users[i].username, users[j].username);
    if EmailKey(users[i]).Some? && EmailKey(users[i]) == EmailKey(users[j]) {
      KeysUnique(byEmail, users, EmailKey, i, j);
    }
    if UsernameKey(users[i]).Some? && UsernameKey(users[i]) == UsernameKey(users[j]) {
      KeysUnique(byUsername, users, UsernameKey, i, j);
    }
    if PhoneKey(users[i]).Some? && PhoneKey(users[i]) == PhoneKey(users[j]) {
      KeysUnique(byPhone, users, PhoneKey, i, j);
    }
  }

  /** What the scan finds: a user with the email asked for, in any case, if there is one; else by username; else by
      phone number. */
  lemma {:induction false} ScanMeans(users: map<string, User>, username: Option<string>, email: Option<string>,
                                     phone: Option<string>, u: User)
    requires ScanFinds(users, username, email, phone, u)
    ensures u.id in users && users[u.id] == u
    ensures if EmailInUse(users, email, None) then u.email.Some? && EqualFold(u.email.value, email.value)
            else if UsernameInUse(users, username, None) then u.username.Some? && EqualFold(u.username.value, username.value)
            else phone.Some? && phone.value != "" && u.phone == phone
  {
    TakenMeans(users, User("", email, username, phone, map[]), None);
    FoldedIff(u.email, email);
    FoldedIff(u.username, username);
  }

  class InMemoryUsers {
    var users: map<string, User>
    var byEmail: map<string, string>
    var byUsername: map<string, string>
    var byPhone: map<string, string>

    ghost predicate Valid()
      reads this
    {
      Indexed(users, byEmail, byUsername, byPhone)
    }

    constructor ()
      ensures Valid() && users == map[]
    {
      users, byEmail, byUsername, byPhone := map[], map[], map[], map[];
    }

    method CheckUnique(u: User, exclude: Option<string>) returns (conflict: Option<Error>)
      requires Valid()
      ensures conflict == Conflict(users, u, exclude)
    {
      var email, username, phone := EmailKey(u), UsernameKey(u), PhoneKey(u);
      TakenIff(byEmail, users, EmailKey, email, exclude);
      TakenIff(byUsername, users, UsernameKey, username, exclude);
      TakenIff(byPhone, users, PhoneKey, phone, exclude);
      if email.Some? && email.value in byEmail && Some(byEmail[email.value]) != exclude {
        return Some(EmailTaken);
      }
      if username.Some? && username.value in byUsername && Some(byUsername[username.value]) != exclude {
        return Some(UsernameTaken);
      }
      if phone.Some? && phone.value in byPhone && Some(byPhone[phone.value]) != exclude {
        return Some(PhoneTaken);
      }
      return None;
    }

    method UnindexUser(u: User)
      modifies this`byEmail, this`byUsername, this`byPhone
      ensures byEmail == Unindex(old(byEmail), EmailKey(u), u.id)
      ensures byUsername == Unindex(old(byUsername), UsernameKey(u), u.id)
      ensures byPhone == Unindex(old(byPhone), PhoneKey(u), u.id)
    {
      byEmail := Unindex(byEmail, EmailKey(u), u.id);
      byUsername := Unindex(byUsername, UsernameKey(u), u.id);
      byPhone := Unindex(byPhone, PhoneKey(u), u.id);
    }

    method IndexUser(u: User)
      modifies this`byEmail, this`byUsername, this`byPhone
      ensures byEmail == Reindex(old(byEmail), EmailKey(u), u.id)
      ensures byUsername == Reindex(old(byUsername), UsernameKey(u), u.id)
      ensures byPhone == Reindex(old(byPhone), PhoneKey(u), u.id)
    {
      byEmail := Reindex(byEmail, EmailKey(u), u.id);
      byUsername := Reindex(byUsername, UsernameKey(u), u.id);
      byPhone := Reindex(byPhone, PhoneKey(u), u.id);
    }

    /** Refused exactly when some user carries one of the identifiers. Otherwise the record is stored under its id,
        and the indexes stay exact unless the id is empty or was in use by a user with an identifier: the old
        user's entries are not taken out. */
    method CreateUser(u: User) returns (r: Result<User, Error>)
      requires Valid()
      modifies this
      ensures match Conflict(old(users), u, None)
              case Some(e) => r == Err(e) && users == old(users) && Valid()
              case None =>
                && r == Ok(u) && users == old(users)[u.id := u]
                && (Valid() <==> u.id != "" && (u.id in old(users) ==> Unidentified(old(users)[u.id])))
    {
      var conflict := CheckUnique(u, None);
      if conflict.Some? {
        return Err(conflict.value);
      }
      CreatedIndexedIff(users, byEmail, byUsername, byPhone, u);
      users := users[u.id := u];
      IndexUser(u);
      return Ok(u);
    }

    /** The indexed lookup returns what the linear scan finds, and nothing when the scan finds nothing. */
    method GetUserByIdentifier(username: Option<string>, email: Option<string>, phone: Option<string>)
      returns (r: Option<User>)
      requires Valid()
      ensures forall u :: r == Some(u) <==> ScanFinds(users, username, email, phone, u)
    {
      TakenIff(byEmail, users, EmailKey, Folded(email), None);
      TakenIff(byUsername, users, UsernameKey, Folded(username), None);
      var id: Option<string> := None;
      if Given(email) && Lower(email.value) in byEmail {
        id := Some(byEmail[Lower(email.value)]);
      }
      if id.None? && Given(username) && Lower(username.value) in byUsername {
        id := Some(byUsername[Lower(username.value)]);
      }
      if id.None? && Given(phone) && phone.value in byPhone {
        id := Some(byPhone[phone.value]);
      }
      r := if id.None? then None else Some(users[id.value]);
    }

    /** All indexes follow the change of any of the three identifiers, given, changed or cleared. */
    method UpdateUser(id: string, p: Patch) returns (r: Result<Option<User>, Error>)
      requires Valid()
      modifies this
      ensures Valid()
      ensures id !in old(users) ==> r == Ok(None) && users == old(users)
      ensures id in old(users) && p.touchesImmutable ==> r == Err(ImmutableField) && users == old(users)
      ensures id in old(users) && !p.touchesImmutable ==>
                match Conflict(old(users), Apply(old(users)[id], p), Some(id))
                case Some(e) => r == Err(e) && users == old(users)
                case None =>
                  r == Ok(Some(Apply(old(users)[id], p))) && users == old(users)[id := Apply(old(users)[id], p)]
    {
      if id !in users {
        return Ok(None);
      }
      if p.touchesImmutable {
        return Err(ImmutableField);
      }
      var before := users[id];
      var after := Apply(before, p);
      var conflict := CheckUnique(after, Some(id));
      if conflict.Some? {
        return Err(conflict.value);
      }
      ExactReplace(byEmail, users, EmailKey, id, after);
      ExactReplace(byUsername, users, UsernameKey, id, after);
      ExactReplace(byPhone, users, PhoneKey, id, after);
      UnindexUser(before);
      users := users[id := after];
      IndexUser(after);
      return Ok(Some(after));
    }

    method DeleteUser(id: string) returns (removed: bool)
      requires Valid()
      modifies this
      ensures Valid() && removed == (id in old(users)) && users == old(users) - {id}
    {
      if id !in users {
        return false;
      }
      ExactRemove(byEmail, users, EmailKey, id);
      ExactRemove(byUsername, users, UsernameKey, id);
      ExactRemove(byPhone, users, PhoneKey, id);
      var u := users[id];
      users := users - {id};
      UnindexUser(u);
      return true;
    }
  }
}
