/**
 The inheritance graph of roles: each role has at most one parent, which may dangle.
 */
module RoleGraph {
  import opened Prelude

  datatype Role = Role(
    id: string,
    name: string,
    description: string,
    permissions: seq<string>,
    inheritsFrom: Option<string>,
    organizationId: Option<string>,
    isSystem: bool)

  type Graph = map<string, Role>

  function Parent(g: Graph, x: string): Option<string> {
    if x in g then g[x].inheritsFrom else None
  }

  /** The `n`-th ancestor of `x`; a dangling parent is reached, but leads nowhere. */
  function Up(g: Graph, x: string, n: nat): Option<string>
    decreases n
  {
    if n == 0 then Some(x)
    else match Parent(g, x) { case None => None case Some(p) => Up(g, p, n - 1) }
  }

  ghost predicate OnChain(g: Graph, start: string, x: string) {
    exists n :: Up(g, start, n) == Some(x)
  }

  /** No role is its own ancestor. */
  ghost predicate Acyclic(g: Graph) {
    forall x, n :: n > 0 ==> Up(g, x, n) != Some(x)
  }

  /** The chain from `start` never ends. */
  ghost predicate Endless(g: Graph, start: string) {
    forall n :: Up(g, start, n).Some?
  }

  lemma {:induction false} UpSplit(g: Graph, x: string, m: nat, n: nat)
    ensures Up(g, x, m + n) == match Up(g, x, m) { case None => None case Some(y) => Up(g, y, n) }
    decreases m
  {
    if m > 0 && Parent(g, x).Some? {
      UpSplit(g, Parent(g, x).value, m - 1, n);
    }
  }

  /** Meeting a node of the chain again makes the chain endless. */
  lemma {:induction false} RepeatIsEndless(g: Graph, x: string, j: nat, k: nat, n: nat)
    requires j < k && Up(g, x, k).Some? && Up(g, x, j) == Up(g, x, k)
    ensures Up(g, x, n).Some?
    decreases n
  {
    if n <= k {
      UpSplit(g, x, n, k - n);
    } else {
      UpSplit(g, x, k, n - k);
      UpSplit(g, x, j, n - k);
      RepeatIsEndless(g, x, j, k, j + (n - k));
    }
  }

  /** Graphs that agree on every parent but that of `r`. */
  ghost predicate AgreeOff(g: Graph, h: Graph, r: string) {
    forall k :: k != r ==> Parent(g, k) == Parent(h, k)
  }

  /** A path that does not leave from `r` is the same in both graphs. */
  lemma {:induction false} SamePath(g: Graph, h: Graph, r: string, x: string, n: nat)
    requires AgreeOff(g, h, r)
    requires forall i :: 0 <= i < n ==> Up(g, x, i) != Some(r)
    ensures Up(h, x, n) == Up(g, x, n)
    decreases n
  {
    if n > 0 {
      assert Up(g, x, 0) != Some(r);
      if Parent(g, x).Some? {
        var p := Parent(g, x).value;
        forall i | 0 <= i < n - 1 ensures Up(g, p, i) != Some(r) {
          assert Up(g, x, i + 1) != Some(r);
        }
        SamePath(g, h, r, p, n - 1);
      }
    }
  }

  /** The first time a chain meets `r`. */
  lemma {:induction false} FirstMeeting(g: Graph, x: string, r: string, n: nat) returns (m: nat)
    requires Up(g, x, n) == Some(r)
    ensures m <= n && Up(g, x, m) == Some(r)
    ensures forall i :: 0 <= i < m ==> Up(g, x, i) != Some(r)
  {
    if i: nat :| i < n && Up(g, x, i) == Some(r) {
      m := FirstMeeting(g, x, r, i);
    } else {
      m := n;
    }
  }

  function SetParent(g: Graph, r: string, p: string): Graph
    requires r in g
  {
    g[r := g[r].(inheritsFrom := Some(p))]
  }

  lemma EdgeOntoChainCloses(g: Graph, r: string, p: string)
    requires r in g && OnChain(g, p, r)
    ensures !Acyclic(SetParent(g, r, p))
  {
    var h := SetParent(g, r, p);
    var n :| Up(g, p, n) == Some(r);
    var m := FirstMeeting(g, p, r, n);
    SamePath(g, h, r, p, m);
    assert Up(h, r, m + 1) == Some(r);
  }

  lemma EdgeOffChainKeeps(g: Graph, r: string, p: string, x: string, n: nat)
    requires r in g && Acyclic(g) && !OnChain(g, p, r) && n > 0
    ensures Up(SetParent(g, r, p), x, n) != Some(x)
  {
    var h := SetParent(g, r, p);
    if Up(h, x, n) == Some(x) {
      if i: nat :| i < n && Up(h, x, i) == Some(r) {
        UpSplit(h, x, i, n - i);
        UpSplit(h, r, n - i, i);
        assert Up(h, r, n) == Some(r);
        assert Up(h, p, n - 1) == Some(r);
        var m := FirstMeeting(h, p, r, n - 1);
        SamePath(h, g, r, p, m);
        assert OnChain(g, p, r);
      } else {
        SamePath(h, g, r, x, n);
      }
    }
  }

  /** Giving `r` the parent `p` keeps the graph acyclic exactly when `r` is not already above `p`. */
  lemma NewEdgeAcyclicIff(g: Graph, r: string, p: string)
    requires r in g && Acyclic(g)
    ensures Acyclic(SetParent(g, r, p)) <==> !OnChain(g, p, r)
  {
    if OnChain(g, p, r) {
      EdgeOntoChainCloses(g, r, p);
    } else {
      forall x, n: nat | n > 0 ensures Up(SetParent(g, r, p), x, n) != Some(x) {
        EdgeOffChainKeeps(g, r, p, x, n);
      }
    }
  }

  lemma {:induction false} SubPath(g: Graph, h: Graph, x: string, n: nat)
    requires forall k :: Parent(h, k) == None || Parent(h, k) == Parent(g, k)
    ensures Up(h, x, n).Some? ==> Up(h, x, n) == Up(g, x, n)
    decreases n
  {
    if n > 0 && Parent(h, x).Some? {
      SubPath(g, h, Parent(h, x).value, n - 1);
    }
  }

  /** Dropping parents, or roles with children left dangling, cannot close a cycle. */
  lemma FewerEdgesAcyclic(g: Graph, h: Graph)
    requires Acyclic(g) && forall k :: Parent(h, k) == None || Parent(h, k) == Parent(g, k)
    ensures Acyclic(h)
  {
    forall x, n: nat | n > 0 ensures Up(h, x, n) != Some(x) {
      SubPath(g, h, x, n);
    }
  }

  lemma {:induction false} NothingLeadsTo(g: Graph, r: string, x: string, n: nat)
    requires n > 0 && forall k :: Parent(g, k) != Some(r)
    ensures Up(g, x, n) != Some(r)
    decreases n
  {
    if Parent(g, x).Some? {
      if n == 1 {
        assert Up(g, Parent(g, x).value, 0) == Parent(g, x);
      } else {
        NothingLeadsTo(g, r, Parent(g, x).value, n - 1);
      }
    }
  }

  /** A role under an id that nothing refers to cannot close a cycle. */
  lemma NewRoleAcyclic(g: Graph, role: Role)
    requires Acyclic(g) && role.inheritsFrom != Some(role.id)
    requires role.id !in g && forall k :: Parent(g, k) != Some(role.id)
    ensures Acyclic(g[role.id := role])
  {
    var h := g[role.id := role];
    forall x, n: nat | n > 0 ensures Up(h, x, n) != Some(x) {
      assert forall k :: k != role.id ==> Parent(h, k) == Parent(g, k);
      forall i: nat | 0 < i <= n ensures Up(h, x, i) != Some(role.id) {
        NothingLeadsTo(h, role.id, x, i);
      }
      if x != role.id {
        SamePath(h, g, role.id, x, n);
      }
    }
  }

  // ---- permissions ----

  /** Exact match, or a prefix match for a grant that ends in `*`; an empty string matches nothing. */
  predicate PermissionMatches(granted: string, requested: string) {
    if granted == "" || requested == "" then false
    else if granted == requested then true
    else granted[|granted| - 1] == '*' && granted[..|granted| - 1] <= requested
  }

  /** A permission covers itself; a grant with a star at its end covers just the non-empty permissions that start
      with what stands before the star; any other grant covers only itself. */
  lemma {:induction false} CoversIff(p: string, requested: string)
    ensures PermissionMatches(p + "*", requested) <==> requested != "" && p <= requested
    ensures p != "" ==> PermissionMatches(p, p)
    ensures (forall q :: p != q + "*") ==> (PermissionMatches(p, requested) <==> p != "" && requested == p)
  {
    assert (p + "*")[..|p|] == p;
    if p != "" && p[|p| - 1] == '*' {
      assert p == p[..|p| - 1] + "*";
    }
  }

  predicate DoubleStar(p: string) {
    |p| >= 2 && p[|p| - 1] == '*' && p[|p| - 2] == '*'
  }

  /** A grant covers all that it covers covers, exactly when it does not end in `**`. */
  lemma MatchTransitiveIff(a: string)
    ensures (forall b, c :: PermissionMatches(a, b) && PermissionMatches(b, c) ==> PermissionMatches(a, c))
       <==> !DoubleStar(a)
  {
    if DoubleStar(a) {
      var b := a[..|a| - 1];
      var c := a[..|a| - 2] + "x";
      assert b[..|b| - 1] == a[..|a| - 2];
      assert b[|b| - 1] == '*' && c[|c| - 1] == 'x';
      assert PermissionMatches(a, b) && PermissionMatches(b, c) && !PermissionMatches(a, c);
    } else {
      forall b, c | PermissionMatches(a, b) && PermissionMatches(b, c) ensures PermissionMatches(a, c) {
        if a != b && b != c {
          var prefix := a[..|a| - 1];
          assert prefix <= b && b[..|b| - 1] <= c;
          assert prefix <= b[..|b| - 1];
        }
      }
    }
  }

  /** `p` is a permission of `start` itself or of an ancestor that exists. */
  ghost predicate Inherits(g: Graph, start: string, p: string) {
    exists n, b :: Up(g, start, n) == Some(b) && b in g && p in g[b].permissions
  }

  /** A role has its own permissions and what its parent, if that exists, has. */
  lemma {:induction false} InheritsIff(g: Graph, start: string, p: string)
    ensures Inherits(g, start, p) <==>
            start in g && (p in g[start].permissions
                           || (g[start].inheritsFrom.Some? && Inherits(g, g[start].inheritsFrom.value, p)))
  {
    if Inherits(g, start, p) {
      var n: nat, b :| Up(g, start, n) == Some(b) && b in g && p in g[b].permissions;
      if n > 0 {
        assert Up(g, Parent(g, start).value, n - 1) == Some(b);
      }
    }
    if start in g && p in g[start].permissions {
      assert Up(g, start, 0) == Some(start);
    }
    if start in g && g[start].inheritsFrom.Some? && Inherits(g, g[start].inheritsFrom.value, p) {
      var n: nat, b :| Up(g, g[start].inheritsFrom.value, n) == Some(b) && b in g && p in g[b].permissions;
      assert Up(g, start, n + 1) == Some(b);
    }
  }

  ghost predicate ClosedUnderParent(g: Graph, visited: set<string>) {
    forall v :: v in visited && Parent(g, v).Some? && Parent(g, v).value in g ==> Parent(g, v).value in visited
  }

  lemma {:induction false} ClosedCoversChain(g: Graph, visited: set<string>, x: string, n: nat)
    requires x in visited && ClosedUnderParent(g, visited)
    requires Up(g, x, n).Some? && Up(g, x, n).value in g
    ensures Up(g, x, n).value in visited
    decreases n
  {
    if n > 0 {
      UpSplit(g, x, 1, n - 1);
      var p := Parent(g, x).value;
      assert Up(g, x, 1) == Some(p);
      if p in g {
        ClosedCoversChain(g, visited, p, n - 1);
      }
    }
  }
}
