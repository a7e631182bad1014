/**
 The role engine: a cached role graph beside the stored one, and permission evaluation.
 */
module RoleManager {
  import opened Prelude
  import opened RoleGraph

  datatype Scope = Global | Organization | Team | Resource

  datatype Assignment = Assignment(
    userId: string,
    roleId: string,
    scope: Scope,
    scopeId: Option<string>,
    expiresAt: Option<real>)

  datatype Error =
    | InvalidName
    | UnknownParent
    | RoleNotFound
    | SystemRole
    | Cycle
    | DuplicateName
    | StillAssigned

  lemma {:induction false} BuiltInName(name: string, builtIn: string)
    requires forall i :: 0 <= i < |builtIn| ==> !('A' <= builtIn[i] <= 'Z')
    ensures Lower(name) == builtIn <==> EqualFold(name, builtIn)
  {
    LowerEqIff(name, builtIn);
    LowerFixed(builtIn);
  }

  /** Marked as such, or named like one of the built-in roles in any case. */
  predicate IsSystemRole(role: Role): (r: bool)
    ensures r <==> role.isSystem || EqualFold(role.name, "owner") || EqualFold(role.name, "admin")
                   || EqualFold(role.name, "superadmin")
  {
    BuiltInName(role.name, "owner");
    BuiltInName(role.name, "admin");
    BuiltInName(role.name, "superadmin");
    role.isSystem || Lower(role.name) in ["owner", "admin", "superadmin"]
  }

  /** Some other role already has this name. */
  ghost predicate NameTaken(g: Graph, id: string, name: string) {
    exists k :: k in g && k != id && g[k].name == name
  }

  /** Every role is filed under its own id, ids and parents have been issued, and no id or name is empty. */
  ghost predicate Filed(g: Graph, issued: set<string>) {
    && (forall k :: k in g ==> g[k].id == k && k in issued && k != "" && g[k].name != "")
    && (forall k :: k in g && g[k].inheritsFrom.Some? ==> g[k].inheritsFrom.value in issued)
  }

  class RoleStore {
    var roles: Graph
    var assignments: seq<Assignment>
    /** Every role id ever issued; ids come from a random source and are not issued twice. */
    ghost var issued: set<string>

    /** Saves under the record's id if it has one, else under `freshId`; a name is required, and unique. */
    method SaveRole(role: Role, hasId: bool, freshId: string) returns (r: Result<Role, Error>)
      modifies this
      ensures var id := if hasId then role.id else freshId;
              if role.name == ""
              then r == Err(InvalidName) && roles == old(roles) && issued == old(issued)
              else if NameTaken(old(roles), id, role.name)
              then r == Err(DuplicateName) && roles == old(roles) && issued == old(issued)
              else r == Ok(role.(id := id)) && roles == old(roles)[id := role.(id := id)]
                   && issued == old(issued) + {id}
      ensures assignments == old(assignments)
    {
      if role.name == "" {
        return Err(InvalidName);
      }
      var id := if hasId then role.id else freshId;
      var rest := roles.Keys;
      while rest != {}
        invariant rest <= roles.Keys
        invariant forall k :: k in roles && k !in rest && k != id ==> roles[k].name != role.name
        invariant roles == old(roles) && issued == old(issued) && assignments == old(assignments)
        decreases rest
      {
        var k :| k in rest;
        if k != id && roles[k].name == role.name {
          return Err(DuplicateName);
        }
        rest := rest - {k};
      }
      var record := role.(id := id);
      roles := roles[id := record];
      issued := issued + {id};
      return Ok(record);
    }

    method DeleteRole(id: string) returns (r: Result<bool, Error>)
      modifies this
      ensures id !in old(roles) ==> r == Ok(false)
      ensures id in old(roles) ==>
                r == if exists a :: a in assignments && a.roleId == id then Err(StillAssigned) else Ok(true)
      ensures roles == if r == Ok(true) then old(roles) - {id} else old(roles)
      ensures assignments == old(assignments) && issued == old(issued)
    {
      if id !in roles {
        return Ok(false);
      }
      for i := 0 to |assignments|
        invariant forall j :: 0 <= j < i ==> assignments[j].roleId != id
        invariant roles == old(roles) && issued == old(issued) && assignments == old(assignments)
      {
        if assignments[i].roleId == id {
          return Err(StillAssigned);
        }
      }
      roles := roles - {id};
      return Ok(true);
    }

    /** The user's assignments, in stored order, in the given scope and with the given scope id, each if given. */
    method QueryRoleAssignments(userId: string, scope: Option<Scope>, scopeId: Option<string>)
      returns (results: seq<Assignment>)
      ensures results == Matching(assignments, userId, scope, scopeId)
      ensures forall a :: a in results <==>
                && a in assignments && a.userId == userId
                && (scope.Some? ==> a.scope == scope.value) && (scopeId.Some? ==> a.scopeId == scopeId)
    {
      results := [];
      for i := 0 to |assignments|
        invariant results == Matching(assignments[..i], userId, scope, scopeId)
      {
        assert assignments[..i + 1][..i] == assignments[..i];
        if Asked(assignments[i], userId, scope, scopeId) {
          results := results + [assignments[i]];
        }
      }
      assert assignments[..|assignments|] == assignments;
      MatchingMeans(assignments, userId, scope, scopeId);
    }
  }

  class Manager {
    const db: RoleStore
    var rolesById: Graph
    var loaded: bool

    /** The cache equals the stored roles, and their graph is acyclic, dangling parents included. */
    ghost predicate Valid()
      reads this, db
    {
      && Filed(db.roles, db.issued)
      && Acyclic(db.roles)
      && (loaded ==> rolesById == db.roles)
    }

    constructor (db: RoleStore)
      requires Filed(db.roles, db.issued) && Acyclic(db.roles)
      ensures Valid() && this.db == db && fresh(this)
    {
      this.db, rolesById, loaded := db, map[], false;
    }

    method EnsureLoaded()
      requires Valid()
      modifies this
      ensures Valid() && loaded && rolesById == db.roles
    {
      if !loaded {
        rolesById := db.roles;
        loaded := true;
      }
    }

    /** The cycle guard: walk up from the new parent. On any graph it stops; it raises when it meets
        `roleId` or a node twice. */
    method CheckCycle(roleId: string, parentId: string) returns (raised: bool)
      ensures raised <==> OnChain(rolesById, parentId, roleId) || Endless(rolesById, parentId)
      ensures Acyclic(rolesById) ==> (raised <==> OnChain(rolesById, parentId, roleId))
    {
      ghost var g, n := rolesById, 0;
      var visited := {roleId};
      var current := Some(parentId);
      while current.Some?
        invariant current == Up(g, parentId, n) && roleId in visited
        invariant forall k :: 0 <= k < n ==> Up(g, parentId, k).Some?
        invariant forall v :: v in visited ==> v == roleId || exists k :: 0 <= k < n && Up(g, parentId, k) == Some(v)
        invariant forall k :: 0 <= k < n ==> Up(g, parentId, k).value in visited
        invariant forall k :: 0 <= k < n ==> Up(g, parentId, k) != Some(roleId)
        decreases g.Keys - visited, current.Some?
      {
        if current.value in visited {
          if current.value != roleId {
            ghost var k :| 0 <= k < n && Up(g, parentId, k) == current;
            forall m: nat ensures Up(g, parentId, m).Some? {
              RepeatIsEndless(g, parentId, k, n, m);
            }
            UpSplit(g, parentId, k, n - k);
            assert Up(g, current.value, n - k) == current;
          }
          return true;
        }
        visited := visited + {current.value};
        UpSplit(g, parentId, n, 1);
        current := Parent(rolesById, current.value);
        assert current.Some? ==> Up(g, current.value, 0) == current;
        n := n + 1;
      }
      forall k: nat ensures Up(g, parentId, k) != Some(roleId) {
        if k >= n {
          UpSplit(g, parentId, n, k - n);
        }
      }
      return false;
    }

    /** The reasons for which a new role is refused, in the order they are looked for. */
    static ghost function CreateError(g: Graph, freshId: string, name: string, parent: Option<string>): (e: Option<Error>)
      ensures e == Some(InvalidName) <==> Strip(name) == ""
      ensures e == Some(UnknownParent) <==> Strip(name) != "" && parent.Some? && parent.value !in g
      ensures e == Some(DuplicateName) <==>
                && Strip(name) != "" && (parent.Some? ==> parent.value in g)
                && exists k :: k in g && k != freshId && g[k].name == Strip(name)
      ensures e in [None, Some(InvalidName), Some(UnknownParent), Some(DuplicateName)]
    {
      if Strip(name) == "" then Some(InvalidName)
      else if parent.Some? && parent.value !in g then Some(UnknownParent)
      else if NameTaken(g, freshId, Strip(name)) then Some(DuplicateName)
      else None
    }

    method CreateRole(name: string, description: string, permissions: seq<string>, inheritsFrom: Option<string>,
                      organizationId: Option<string>, isSystem: bool, freshId: string)
      returns (r: Result<Role, Error>)
      requires Valid() && freshId !in db.issued && freshId != ""
      modifies this, db
      ensures Valid() && db.assignments == old(db.assignments)
      ensures match CreateError(old(db.roles), freshId, name, inheritsFrom)
              case Some(e) => r == Err(e) && db.roles == old(db.roles)
              case None =>
                && r == Ok(Role(freshId, Strip(name), description, permissions, inheritsFrom, organizationId, isSystem))
                && db.roles == old(db.roles)[freshId := r.value]
                && loaded
    {
      if Strip(name) == "" {
        return Err(InvalidName);
      }
      EnsureLoaded();
      if inheritsFrom.Some? && inheritsFrom.value !in rolesById {
        return Err(UnknownParent);
      }
      ghost var g := db.roles;
      var draft := Role("", Strip(name), description, permissions, inheritsFrom, organizationId, isSystem);
      r := db.SaveRole(draft, false, freshId);
      if r.Ok? {
        rolesById := rolesById[r.value.id := r.value];
        NewRoleAcyclic(g, r.value);
      }
    }

    /** The record that `update_role` stores. */
    static function Merged(role: Role, name: Option<string>, description: Option<string>,
                           permissions: Option<seq<string>>, inheritsFrom: Option<string>): (r: Role)
      ensures (r.id, r.organizationId, r.isSystem) == (role.id, role.organizationId, role.isSystem)
      ensures match name case None => r.name == role.name case Some(n) => r.name == Strip(n)
      ensures match description case None => r.description == role.description case Some(d) => r.description == d
      ensures match permissions case None => r.permissions == role.permissions case Some(p) => r.permissions == p
      ensures r.inheritsFrom == if inheritsFrom == None then role.inheritsFrom else inheritsFrom
    {
      role.(name := if name.Some? then Strip(name.value) else role.name,
            description := if description.Some? then description.value else role.description,
            permissions := if permissions.Some? then permissions.value else role.permissions,
            inheritsFrom := if inheritsFrom.Some? then inheritsFrom else role.inheritsFrom)
    }

    /** The guards of `update_role`, before anything is saved. */
    static ghost function GuardError(g: Graph, id: string, name: Option<string>, parent: Option<string>): (e: Option<Error>)
      ensures e == Some(RoleNotFound) <==> id !in g
      ensures e == Some(SystemRole) <==> id in g && IsSystemRole(g[id])
      ensures e == Some(InvalidName) <==> id in g && !IsSystemRole(g[id]) && name.Some? && Strip(name.value) == ""
      ensures e == None <==>
                && id in g && !IsSystemRole(g[id]) && (name.Some? ==> Strip(name.value) != "")
                && (parent.Some? ==> parent.value in g && Acyclic(SetParent(g, id, parent.value)))
      ensures e in [None, Some(RoleNotFound), Some(SystemRole), Some(InvalidName), Some(UnknownParent), Some(Cycle)]
      ensures e == Some(UnknownParent) ==> parent.Some? && parent.value !in g
    {
      if id !in g then Some(RoleNotFound)
      else if IsSystemRole(g[id]) then Some(SystemRole)
      else if name.Some? && Strip(name.value) == "" then Some(InvalidName)
      else if parent.Some? && parent.value !in g then Some(UnknownParent)
      else if parent.Some? && !Acyclic(SetParent(g, id, parent.value)) then Some(Cycle)
      else None
    }

    method CheckUpdate(id: string, name: Option<string>, inheritsFrom: Option<string>) returns (e: Option<Error>)
      requires Acyclic(rolesById)
      ensures e == GuardError(rolesById, id, name, inheritsFrom)
    {
      if id !in rolesById {
        return Some(RoleNotFound);
      }
      if IsSystemRole(rolesById[id]) {
        return Some(SystemRole);
      }
      if name.Some? && Strip(name.value) == "" {
        return Some(InvalidName);
      }
      if inheritsFrom.Some? {
        if inheritsFrom.value !in rolesById {
          return Some(UnknownParent);
        }
        var raised := CheckCycle(id, inheritsFrom.value);
        NewEdgeAcyclicIff(rolesById, id, inheritsFrom.value);
        if raised {
          return Some(Cycle);
        }
      }
      return None;
    }

    static ghost function UpdateError(g: Graph, id: string, name: Option<string>, parent: Option<string>): (e: Option<Error>)
      ensures GuardError(g, id, name, parent).Some? ==> e == GuardError(g, id, name, parent)
      ensures GuardError(g, id, name, parent).None? ==>
                e == if exists k :: k in g && k != id && g[k].name == (if name.Some? then Strip(name.value) else g[id].name)
                     then Some(DuplicateName) else None
    {
      if GuardError(g, id, name, parent).Some? then GuardError(g, id, name, parent)
      else if NameTaken(g, id, if name.Some? then Strip(name.value) else g[id].name) then Some(DuplicateName)
      else None
    }

    /** Refused exactly when some guard fails; the cycle guard fails exactly when the edge closes a cycle. */
    method UpdateRole(id: string, name: Option<string>, description: Option<string>,
                      permissions: Option<seq<string>>, inheritsFrom: Option<string>)
      returns (r: Result<Role, Error>)
      requires Valid()
      modifies this, db
      ensures Valid() && loaded && db.assignments == old(db.assignments)
      ensures match UpdateError(old(db.roles), id, name, inheritsFrom)
              case Some(e) => r == Err(e) && db.roles == old(db.roles)
              case None =>
                && r == Ok(Merged(old(db.roles)[id], name, description, permissions, inheritsFrom))
                && db.roles == old(db.roles)[id := r.value]
    {
      EnsureLoaded();
      ghost var g := db.roles;
      var e := CheckUpdate(id, name, inheritsFrom);
      if e.Some? {
        return Err(e.value);
      }
      var role := rolesById[id];
      var merged := Merged(role, name, description, permissions, inheritsFrom);
      UpdatedAcyclic(g, id, merged);
      r := SaveMerged(merged);
    }

    /** Saves the merged record of a role and refreshes the cache with what the store returns. */
    method SaveMerged(merged: Role) returns (r: Result<Role, Error>)
      requires Valid() && loaded && merged.id in rolesById && Acyclic(rolesById[merged.id := merged])
      requires merged.name != "" && (merged.inheritsFrom.Some? ==> merged.inheritsFrom.value in db.issued)
      modifies this`rolesById, db
      ensures Valid() && db.assignments == old(db.assignments)
      ensures if NameTaken(old(db.roles), merged.id, merged.name) then r == Err(DuplicateName) && db.roles == old(db.roles)
              else r == Ok(merged) && db.roles == old(db.roles)[merged.id := merged]
    {
      r := db.SaveRole(merged, true, "");
      if r.Ok? {
        rolesById := rolesById[r.value.id := r.value];
      }
    }

    static ghost function DeleteError(g: Graph, assignments: seq<Assignment>, id: string): (e: Option<Error>)
      ensures e == Some(SystemRole) <==> id in g && IsSystemRole(g[id])
      ensures e == Some(StillAssigned) <==>
                id in g && !IsSystemRole(g[id]) && exists i :: 0 <= i < |assignments| && assignments[i].roleId == id
      ensures e in [None, Some(SystemRole), Some(StillAssigned)]
    {
      if id in g && IsSystemRole(g[id]) then Some(SystemRole)
      else if id in g && exists a :: a in assignments && a.roleId == id then Some(StillAssigned)
      else None
    }

    /** Children of a deleted role keep its id as a dangling parent. */
    method DeleteRole(id: string) returns (r: Result<bool, Error>)
      requires Valid()
      modifies this, db
      ensures Valid() && loaded && db.assignments == old(db.assignments)
      ensures match DeleteError(old(db.roles), db.assignments, id)
              case Some(e) => r == Err(e) && db.roles == old(db.roles)
              case None => r == Ok(id in old(db.roles)) && db.roles == old(db.roles) - {id}
    {
      EnsureLoaded();
      ghost var g := db.roles;
      if id !in rolesById {
        assert g - {id} == g;
        return Ok(false);
      }
      if IsSystemRole(rolesById[id]) {
        return Err(SystemRole);
      }
      r := db.DeleteRole(id);
      if r == Ok(true) {
        rolesById := rolesById - {id};
        FewerEdgesAcyclic(g, db.roles);
      }
    }

    /** The worklist closure: exactly the permissions of the role and of every ancestor that exists,
        whatever the graph. */
    method ResolveRolePermissions(role: Role) returns (collected: set<string>)
      requires role.id in rolesById && rolesById[role.id] == role
      requires forall k :: k in rolesById ==> rolesById[k].id == k && k != ""
      ensures forall p :: p in collected <==> Inherits(rolesById, role.id, p)
    {
      ghost var g := rolesById;
      collected := {};
      var visited: set<string> := {};
      var stack := [role];
      assert Up(g, role.id, 0) == Some(role.id);
      while stack != []
        invariant |stack| <= 1
        invariant forall s :: s in stack ==> s.id in g && g[s.id] == s && OnChain(g, role.id, s.id)
        invariant role.id in visited || stack == [role]
        invariant forall v :: v in visited ==> v in g && OnChain(g, role.id, v)
        invariant forall v :: v in visited && Parent(g, v).Some? && Parent(g, v).value in g ==>
                    Parent(g, v).value in visited || stack == [g[Parent(g, v).value]]
        invariant forall p :: p in collected <==> exists v :: v in visited && p in g[v].permissions
        decreases g.Keys - visited, |stack|
      {
        var current := stack[|stack| - 1];
        stack := stack[..|stack| - 1];
        if current.id !in visited {
          visited := visited + {current.id};
          collected := collected + set p | p in current.permissions;
          var parent := current.inheritsFrom;
          if parent.Some? && parent.value != "" && parent.value in rolesById {
            ghost var n: nat :| Up(g, role.id, n) == Some(current.id);
            UpSplit(g, role.id, n, 1);
            assert Up(g, parent.value, 0) == parent;
            assert Up(g, role.id, n + 1) == parent;
            stack := stack + [rolesById[parent.value]];
          }
        }
      }
      forall p ensures p in collected <==> Inherits(g, role.id, p) {
        if n, b :| Up(g, role.id, n) == Some(b) && b in g && p in g[b].permissions {
          ClosedCoversChain(g, visited, role.id, n);
        }
      }
    }

    /** The user's assignments in the given scope, in stored order, expired ones dropped unless asked for. */
    method GetUserAssignments(userId: string, scope: Option<Scope>, scopeId: Option<string>, includeExpired: bool, now: real)
      returns (active: seq<Assignment>)
      ensures var asked := Matching(db.assignments, userId, scope, scopeId);
              active == if includeExpired then asked else Live(asked, now)
      ensures forall a :: a in active <==>
                && a in db.assignments && a.userId == userId
                && (scope.Some? ==> a.scope == scope.value) && (scopeId.Some? ==> a.scopeId == scopeId)
                && (includeExpired || a.expiresAt.None? || a.expiresAt.value > now)
    {
      var asked := db.QueryRoleAssignments(userId, scope, scopeId);
      MatchingMeans(db.assignments, userId, scope, scopeId);
      if includeExpired {
        return asked;
      }
      active := [];
      for i := 0 to |asked|
        invariant active == Live(asked[..i], now)
      {
        var a := asked[i];
        assert asked[..i + 1][..i] == asked[..i];
        if !(a.expiresAt.Some? && a.expiresAt.value <= now) {
          active := active + [a];
        }
      }
      assert asked[..|asked|] == asked;
      LiveMeans(asked, now);
    }

    method GetUserRoles(userId: string, scope: Scope, scopeId: Option<string>, now: real) returns (roles: seq<Role>)
      requires Valid()
      modifies this
      ensures Valid() && loaded
      ensures forall r :: r in roles <==>
                exists a :: Applies(db.assignments, a, userId, scope, scopeId, now)
                            && a.roleId in db.roles && r == db.roles[a.roleId]
      ensures forall r :: r in roles <==>
                exists a ::
                  && a in db.assignments && a.userId == userId && (a.expiresAt.None? || a.expiresAt.value > now)
                  && (a.scope == Global || (a.scope == scope && a.scopeId == scopeId))
                  && a.roleId in db.roles && r == db.roles[a.roleId]
      ensures forall i, j :: 0 <= i < j < |roles| ==> roles[i].id != roles[j].id
    {
      EnsureLoaded();
      var assignments := GetUserAssignments(userId, None, None, false, now);
      roles := RolesOf(assignments, scope, scopeId);
    }

    /** The existing roles of the matching assignments, each once. */
    method RolesOf(assignments: seq<Assignment>, scope: Scope, scopeId: Option<string>) returns (roles: seq<Role>)
      requires forall k :: k in rolesById ==> rolesById[k].id == k
      ensures forall r :: r in roles <==>
                exists a :: a in assignments && AssignmentMatches(a, scope, scopeId)
                            && a.roleId in rolesById && r == rolesById[a.roleId]
      ensures forall i, j :: 0 <= i < j < |roles| ==> roles[i].id != roles[j].id
    {
      roles := [];
      var seen: set<string> := {};
      for i := 0 to |assignments|
        invariant forall r :: r in roles <==>
                    exists a :: a in assignments[..i] && AssignmentMatches(a, scope, scopeId)
                                && a.roleId in rolesById && r == rolesById[a.roleId]
        invariant forall id :: id in seen <==> exists r :: r in roles && r.id == id
        invariant forall i, j :: 0 <= i < j < |roles| ==> roles[i].id != roles[j].id
      {
        var a := assignments[i];
        assert assignments[..i + 1] == assignments[..i] + [a];
        if AssignmentMatches(a, scope, scopeId) && a.roleId in rolesById {
          var role := rolesById[a.roleId];
          if role.id !in seen {
            seen := seen + {role.id};
            roles := roles + [role];
          }
        }
      }
      assert assignments[..|assignments|] == assignments;
    }

    method HasPermission(userId: string, permission: string, scope: Scope, scopeId: Option<string>, now: real)
      returns (r: bool)
      requires Valid()
      modifies this
      ensures Valid()
      ensures r <==> Granted(db.roles, db.assignments, userId, permission, scope, scopeId, now)
      ensures r <==>
              permission != "" &&
              exists a, p ::
                && a in db.assignments && a.userId == userId && (a.expiresAt.None? || a.expiresAt.value > now)
                && (a.scope == Global || (a.scope == scope && a.scopeId == scopeId))
                && a.roleId in db.roles && Inherits(db.roles, a.roleId, p) && p != ""
                && (p == permission || (p[|p| - 1] == '*' && p[..|p| - 1] <= permission))
    {
      var roles := GetUserRoles(userId, scope, scopeId, now);
      var effective: set<string> := {};
      for i := 0 to |roles|
        invariant Valid() && loaded
        invariant forall p :: p in effective <==>
                    exists k :: 0 <= k < i && Inherits(db.roles, roles[k].id, p)
      {
        assert roles[i] in roles;
        var more := ResolveRolePermissions(roles[i]);
        effective := effective + more;
      }
      r := exists p :: p in effective && PermissionMatches(p, permission);
      EffectiveIsGranted(db.roles, db.assignments, roles, effective, userId, permission, scope, scopeId, now);
      GrantedIff(db.roles, db.assignments, userId, permission, scope, scopeId, now);
    }
  }

  lemma UpdatedAcyclic(g: Graph, id: string, role: Role)
    requires id in g && Acyclic(g)
    requires role.inheritsFrom == g[id].inheritsFrom
             || (role.inheritsFrom.Some? && Acyclic(SetParent(g, id, role.inheritsFrom.value)))
    ensures Acyclic(g[id := role])
  {
    if role.inheritsFrom == g[id].inheritsFrom {
      FewerEdgesAcyclic(g, g[id := role]);
    } else {
      FewerEdgesAcyclic(SetParent(g, id, role.inheritsFrom.value), g[id := role]);
    }
  }

  predicate Expired(a: Assignment, now: real) {
    a.expiresAt.Some? && a.expiresAt.value <= now
  }

  /** A filter that is left out lets everything pass. */
  predicate Asked(a: Assignment, userId: string, scope: Option<Scope>, scopeId: Option<string>) {
    a.userId == userId && (scope.Some? ==> a.scope == scope.value) && (scopeId.Some? ==> a.scopeId == scopeId)
  }

  function Matching(assignments: seq<Assignment>, userId: string, scope: Option<Scope>, scopeId: Option<string>): seq<Assignment> {
    if assignments == [] then []
    else
      var a := assignments[|assignments| - 1];
      Matching(assignments[..|assignments| - 1], userId, scope, scopeId) + if Asked(a, userId, scope, scopeId) then [a] else []
  }

  /** The assignments that have not expired, in order. */
  function Live(assignments: seq<Assignment>, now: real): seq<Assignment> {
    if assignments == [] then []
    else
      var a := assignments[|assignments| - 1];
      Live(assignments[..|assignments| - 1], now) + if Expired(a, now) then [] else [a]
  }

  lemma {:induction false} MatchingMeans(assignments: seq<Assignment>, userId: string, scope: Option<Scope>, scopeId: Option<string>)
    ensures forall a :: a in Matching(assignments, userId, scope, scopeId) <==>
              a in assignments && Asked(a, userId, scope, scopeId)
  {
    if assignments != [] {
      var front, last := assignments[..|assignments| - 1], assignments[|assignments| - 1];
      MatchingMeans(front, userId, scope, scopeId);
      assert assignments == front + [last];
    }
  }

  /** `picked` consists of the elements of `all` at these positions, in this order, which is that of `all`. */
  ghost predicate Picks(picked: seq<Assignment>, all: seq<Assignment>, at: seq<int>) {
    && |at| == |picked|
    && (forall k :: 0 <= k < |at| ==> 0 <= at[k] < |all| && picked[k] == all[at[k]])
    && (forall j, k :: 0 <= j < k < |at| ==> at[j] < at[k])
  }

  lemma {:induction false} PicksSkip(picked: seq<Assignment>, all: seq<Assignment>, at: seq<int>)
    requires all != [] && Picks(picked, all[..|all| - 1], at)
    ensures Picks(picked, all, at)
  {
  }

  lemma {:induction false} PicksLast(picked: seq<Assignment>, all: seq<Assignment>, at: seq<int>)
    requires all != [] && Picks(picked, all[..|all| - 1], at)
    ensures Picks(picked + [all[|all| - 1]], all, at + [|all| - 1])
  {
  }

  /** The answer keeps the stored order: each of its assignments comes from its own, ever later position. */
  lemma {:induction false} MatchingInOrder(assignments: seq<Assignment>, userId: string, scope: Option<Scope>, scopeId: Option<string>)
    returns (at: seq<int>)
    ensures Picks(Matching(assignments, userId, scope, scopeId), assignments, at)
  {
    at := [];
    if assignments != [] {
      var n := |assignments| - 1;
      at := MatchingInOrder(assignments[..n], userId, scope, scopeId);
      var front := Matching(assignments[..n], userId, scope, scopeId);
      if Asked(assignments[n], userId, scope, scopeId) {
        PicksLast(front, assignments, at);
        at := at + [n];
      } else {
        PicksSkip(front, assignments, at);
        assert front + [] == front;
      }
    }
  }

  lemma {:induction false} LiveInOrder(assignments: seq<Assignment>, now: real) returns (at: seq<int>)
    ensures Picks(Live(assignments, now), assignments, at)
  {
    at := [];
    if assignments != [] {
      var n := |assignments| - 1;
      at := LiveInOrder(assignments[..n], now);
      var front := Live(assignments[..n], now);
      if !Expired(assignments[n], now) {
        PicksLast(front, assignments, at);
        at := at + [n];
      } else {
        PicksSkip(front, assignments, at);
        assert front + [] == front;
      }
    }
  }

  lemma {:induction false} LiveMeans(assignments: seq<Assignment>, now: real)
    ensures forall a :: a in Live(assignments, now) <==> a in assignments && !Expired(a, now)
  {
    if assignments != [] {
      var front, last := assignments[..|assignments| - 1], assignments[|assignments| - 1];
      LiveMeans(front, now);
      assert assignments == front + [last];
    }
  }

  /** A global grant applies everywhere; any other only in its own scope. */
  predicate AssignmentMatches(a: Assignment, scope: Scope, scopeId: Option<string>) {
    a.scope.Global? || (a.scope == scope && a.scopeId == scopeId)
  }

  ghost predicate Applies(assignments: seq<Assignment>, a: Assignment, userId: string, scope: Scope,
                          scopeId: Option<string>, now: real) {
    a in assignments && a.userId == userId && !Expired(a, now) && AssignmentMatches(a, scope, scopeId)
  }

  /** Some live assignment leads, up the inheritance chain, to a permission that covers the request. */
  ghost predicate Granted(g: Graph, assignments: seq<Assignment>, userId: string, permission: string,
                          scope: Scope, scopeId: Option<string>, now: real) {
    exists a, p :: Applies(assignments, a, userId, scope, scopeId, now) && a.roleId in g
                   && Inherits(g, a.roleId, p) && PermissionMatches(p, permission)
  }

  /** The grant, written out: some unexpired assignment of the user, global or of just this scope and id, gives a
      role that has or inherits a permission equal to the request, or with a prefix of it before a star. */
  lemma {:induction false} GrantedIff(g: Graph, assignments: seq<Assignment>, userId: string, permission: string,
                                      scope: Scope, scopeId: Option<string>, now: real)
    ensures Granted(g, assignments, userId, permission, scope, scopeId, now) <==>
            permission != "" &&
            exists a, p ::
              && a in assignments && a.userId == userId && (a.expiresAt.None? || a.expiresAt.value > now)
              && (a.scope == Global || (a.scope == scope && a.scopeId == scopeId))
              && a.roleId in g && Inherits(g, a.roleId, p) && p != ""
              && (p == permission || (p[|p| - 1] == '*' && p[..|p| - 1] <= permission))
  {
    forall a, p |
      && a in assignments && a.userId == userId && (a.expiresAt.None? || a.expiresAt.value > now)
      && (a.scope == Global || (a.scope == scope && a.scopeId == scopeId))
      && a.roleId in g && Inherits(g, a.roleId, p) && p != "" && permission != ""
      && (p == permission || (p[|p| - 1] == '*' && p[..|p| - 1] <= permission))
      ensures Granted(g, assignments, userId, permission, scope, scopeId, now)
    {
      assert Applies(assignments, a, userId, scope, scopeId, now) && PermissionMatches(p, permission);
    }
  }

  /** Nothing is granted in a scope for which the user has no unexpired assignment, global ones aside: neither one
      of another type nor one with another id counts. */
  lemma {:induction false} OutOfScopeRefused(g: Graph, assignments: seq<Assignment>, userId: string, permission: string,
                                             scope: Scope, scopeId: Option<string>, now: real)
    requires forall a :: a in assignments && a.userId == userId && (a.expiresAt.None? || a.expiresAt.value > now) ==>
               a.scope != Global && (a.scope != scope || a.scopeId != scopeId)
    ensures !Granted(g, assignments, userId, permission, scope, scopeId, now)
  {
    GrantedIff(g, assignments, userId, permission, scope, scopeId, now);
  }

  lemma EffectiveIsGranted(g: Graph, assignments: seq<Assignment>, roles: seq<Role>, effective: set<string>,
                           userId: string, permission: string, scope: Scope, scopeId: Option<string>, now: real)
    requires forall k :: k in g ==> g[k].id == k
    requires forall r :: r in roles <==>
               exists a :: Applies(assignments, a, userId, scope, scopeId, now) && a.roleId in g && r == g[a.roleId]
    requires forall p :: p in effective <==> exists k :: 0 <= k < |roles| && Inherits(g, roles[k].id, p)
    ensures (exists p :: p in effective && PermissionMatches(p, permission))
       <==> Granted(g, assignments, userId, permission, scope, scopeId, now)
  {
    if p :| p in effective && PermissionMatches(p, permission) {
      var k :| 0 <= k < |roles| && Inherits(g, roles[k].id, p);
      assert roles[k] in roles;
    }
    if Granted(g, assignments, userId, permission, scope, scopeId, now) {
      var a, p :| Applies(assignments, a, userId, scope, scopeId, now) && a.roleId in g
                  && Inherits(g, a.roleId, p) && PermissionMatches(p, permission);
      assert g[a.roleId] in roles;
      var k :| 0 <= k < |roles| && roles[k] == g[a.roleId];
      assert p in effective;
    }
  }

  /** Same roles and parents, no permission taken away. */
  ghost predicate OnlyMorePermissions(g: Graph, h: Graph) {
    && g.Keys == h.Keys
    && forall k :: k in g ==> h[k].inheritsFrom == g[k].inheritsFrom
                              && forall p :: p in g[k].permissions ==> p in h[k].permissions
  }

  lemma InheritsMore(g: Graph, h: Graph, start: string, p: string)
    requires OnlyMorePermissions(g, h) && Inherits(g, start, p)
    ensures Inherits(h, start, p)
  {
    var n, b :| Up(g, start, n) == Some(b) && b in g && p in g[b].permissions;
    SubPath(g, h, start, n);
    SubPath(h, g, start, n);
  }

  /** Adding permissions to any roles, or assignments to the user, revokes nothing. */
  lemma GrantedMonotone(g: Graph, h: Graph, assignments: seq<Assignment>, more: seq<Assignment>, userId: string,
                        permission: string, scope: Scope, scopeId: Option<string>, now: real)
    requires OnlyMorePermissions(g, h) && forall a :: a in assignments ==> a in more
    requires Granted(g, assignments, userId, permission, scope, scopeId, now)
    ensures Granted(h, more, userId, permission, scope, scopeId, now)
  {
    var a, p :| Applies(assignments, a, userId, scope, scopeId, now) && a.roleId in g
                && Inherits(g, a.roleId, p) && PermissionMatches(p, permission);
    InheritsMore(g, h, a.roleId, p);
    assert Applies(more, a, userId, scope, scopeId, now);
  }

  /** What is granted in global scope is granted in every scope, and at every earlier time. */
  lemma GlobalGrantHoldsEverywhere(g: Graph, assignments: seq<Assignment>, userId: string, permission: string,
                                   anyId: Option<string>, scope: Scope, scopeId: Option<string>, now: real, earlier: real)
    requires Granted(g, assignments, userId, permission, Global, anyId, now) && earlier <= now
    ensures Granted(g, assignments, userId, permission, scope, scopeId, earlier)
  {
    var a, p :| Applies(assignments, a, userId, Global, anyId, now) && a.roleId in g
                && Inherits(g, a.roleId, p) && PermissionMatches(p, permission);
    assert Applies(assignments, a, userId, scope, scopeId, earlier);
  }

  /** Whoever holds a wildcard holds all it covers, unless some inherited grant ends in `**`. */
  lemma WildcardCoversNarrower(g: Graph, assignments: seq<Assignment>, userId: string, wide: string, narrow: string,
                               scope: Scope, scopeId: Option<string>, now: real)
    requires Granted(g, assignments, userId, wide, scope, scopeId, now) && PermissionMatches(wide, narrow)
    requires forall a, p :: Applies(assignments, a, userId, scope, scopeId, now) && Inherits(g, a.roleId, p) ==>
               !DoubleStar(p)
    ensures Granted(g, assignments, userId, narrow, scope, scopeId, now)
  {
    var a, p :| Applies(assignments, a, userId, scope, scopeId, now) && a.roleId in g
                && Inherits(g, a.roleId, p) && PermissionMatches(p, wide);
    MatchTransitiveIff(p);
  }
}
