/**
 Refresh-token rotation as interleaved coroutines.

 A coroutine runs without interruption between two awaits. A refresh first deletes the
 ledger entry of the presented token (the claim), then mints a new pair, then stores the
 new entry; logins mint and store. Any number of them interleave, any issued token may be
 presented any number of times, entries may expire and coroutines may die at any await.
 */
module RefreshRotation {
  import opened Prelude
  import opened MemoryCache
  import TokenLedger

  type Jti = string
  type Login = string
  type TaskId = nat

  datatype Pc =
    | Claimed(spent: Jti)   // the ledger entry is deleted, no new pair yet
    | Minted(next: Jti)  // the new pair exists, its ledger entry does not

  datatype State = State(
    ledger: set<Jti>,              // live refresh entries of the cache
    tasks: map<TaskId, Pc>,        // coroutines suspended at an await
    login: map<Jti, Login>,        // every token ever minted, with the login it descends from
    claims: seq<Jti>,              // history: successful claims
    edges: seq<(Jti, Jti)>)        // history: old token, new token

  datatype Action =
    | LogIn(task: TaskId, from: Login, minted: Jti)
    | Claim(task: TaskId, presented: Jti)
    | Reject(presented: Jti)
    | Mint(task: TaskId, minted: Jti)
    | Save(task: TaskId)
    | Lapse(gone: Jti)
    | Die(task: TaskId)

  const Init := State({}, map[], map[], [], [])

  /** Logins and token ids come from a random source and do not repeat. */
  ghost predicate Enabled(s: State, a: Action) {
    match a
    case LogIn(t, l, j) => t !in s.tasks && j !in s.login && l !in s.login.Values
    case Claim(t, j) => t !in s.tasks && j in s.ledger
    case Reject(j) => j !in s.ledger
    case Mint(t, j) => t in s.tasks && s.tasks[t].Claimed? && s.tasks[t].spent in s.login && j !in s.login
    case Save(t) => t in s.tasks && s.tasks[t].Minted?
    case Lapse(_) => true
    case Die(t) => t in s.tasks
  }

  ghost function Step(s: State, a: Action): State
    requires Enabled(s, a)
  {
    match a
    case LogIn(t, l, j) => s.(tasks := s.tasks[t := Minted(j)], login := s.login[j := l])
    case Claim(t, j) => s.(ledger := s.ledger - {j}, tasks := s.tasks[t := Claimed(j)], claims := s.claims + [j])
    case Reject(_) => s
    case Mint(t, j) =>
      var spent := s.tasks[t].spent;
      s.(tasks := s.tasks[t := Minted(j)], login := s.login[j := s.login[spent]], edges := s.edges + [(spent, j)])
    case Save(t) => s.(ledger := s.ledger + {s.tasks[t].next}, tasks := s.tasks - {t})
    case Lapse(j) => s.(ledger := s.ledger - {j})
    case Die(t) => s.(tasks := s.tasks - {t})
  }

  ghost predicate IsRun(states: seq<State>, actions: seq<Action>) {
    && |states| == |actions| + 1
    && states[0] == Init
    && forall i :: 0 <= i < |actions| ==> Enabled(states[i], actions[i]) && states[i + 1] == Step(states[i], actions[i])
  }

  function Token(pc: Pc): Jti {
    match pc case Claimed(j) => j case Minted(j) => j
  }

  /** `j` has been rotated into a successor. */
  ghost predicate Spent(s: State, j: Jti) {
    exists e :: e in s.edges && e.0 == j
  }

  /** `j` came out of a rotation, not of a login. */
  ghost predicate Rotated(s: State, j: Jti) {
    exists e :: e in s.edges && e.1 == j
  }

  /** A login has one first token and one newest one; rotations stay inside it. */
  ghost predicate OneChain(s: State) {
    && (forall e :: e in s.edges ==> e.0 in s.login && e.1 in s.login && s.login[e.0] == s.login[e.1])
    && (forall i, j :: i in s.login && j in s.login && s.login[i] == s.login[j] && !Spent(s, i) && !Spent(s, j) ==> i == j)
    && (forall i, j :: i in s.login && j in s.login && s.login[i] == s.login[j] && !Rotated(s, i) && !Rotated(s, j) ==> i == j)
  }

  /** No token is rotated twice, none comes out of two rotations, and none is rotated before it exists. */
  ghost predicate NoFork(s: State) {
    && (forall i, j :: 0 <= i < j < |s.edges| ==> s.edges[i].0 != s.edges[j].0 && s.edges[i].1 != s.edges[j].1)
    && (forall i, j :: 0 <= i <= j < |s.edges| ==> s.edges[i].0 != s.edges[j].1)
  }

  /** Live entries are newest tokens that nobody has claimed. */
  ghost predicate LedgerOk(s: State) {
    forall j :: j in s.ledger ==> j in s.login && !Spent(s, j) && j !in s.claims
  }

  /** A coroutine holds a newest token that is not live, and holds it alone. */
  ghost predicate TasksOk(s: State) {
    && (forall t :: t in s.tasks ==>
          && Token(s.tasks[t]) in s.login && !Spent(s, Token(s.tasks[t])) && Token(s.tasks[t]) !in s.ledger
          && (s.tasks[t].Claimed? <==> Token(s.tasks[t]) in s.claims))
    && (forall t, u :: t in s.tasks && u in s.tasks && t != u ==> Token(s.tasks[t]) != Token(s.tasks[u]))
  }

  ghost predicate ClaimsOk(s: State) {
    Distinct(s.claims) && forall j :: j in s.claims ==> j in s.login
  }

  ghost predicate Inv(s: State) {
    OneChain(s) && NoFork(s) && LedgerOk(s) && TasksOk(s) && ClaimsOk(s)
  }

  lemma LogInKeeps(s: State, a: Action)
    requires Inv(s) && a.LogIn? && Enabled(s, a)
    ensures Inv(Step(s, a))
  {
    var s' := Step(s, a);
    assert forall j :: (Spent(s', j) <==> Spent(s, j)) && (Rotated(s', j) <==> Rotated(s, j));
    assert forall j :: j in s.login ==> s'.login[j] == s.login[j] && s.login[j] != a.from;
    assert forall t :: t in s.tasks ==> s'.tasks[t] == s.tasks[t] && Token(s.tasks[t]) != a.minted;
  }

  lemma {:induction false} MintSpends(s: State, a: Action, j: Jti)
    requires a.Mint? && Enabled(s, a)
    ensures Spent(Step(s, a), j) <==> Spent(s, j) || j == s.tasks[a.task].spent
    ensures Rotated(Step(s, a), j) <==> Rotated(s, j) || j == a.minted
  {
    var s', e := Step(s, a), (s.tasks[a.task].spent, a.minted);
    assert s'.edges[|s.edges|] == e;
    assert forall d :: d in s'.edges <==> d in s.edges || d == e;
    if Spent(s, j) {
      var d :| d in s.edges && d.0 == j;
      assert d in s'.edges;
    }
    if Rotated(s, j) {
      var d :| d in s.edges && d.1 == j;
      assert d in s'.edges;
    }
  }

  lemma {:induction false} MintKeepsChain(s: State, a: Action)
    requires OneChain(s) && a.Mint? && Enabled(s, a) && !Spent(s, s.tasks[a.task].spent)
    ensures OneChain(Step(s, a))
  {
    var s', spent := Step(s, a), s.tasks[a.task].spent;
    assert forall d :: d in s'.edges <==> d in s.edges || d == (spent, a.minted);
    forall j ensures (Spent(s', j) <==> Spent(s, j) || j == spent) && (Rotated(s', j) <==> Rotated(s, j) || j == a.minted) {
      MintSpends(s, a, j);
    }
    assert !Rotated(s, a.minted);
  }

  lemma {:induction false} MintKeepsNoFork(s: State, a: Action)
    requires OneChain(s) && NoFork(s) && a.Mint? && Enabled(s, a) && !Spent(s, s.tasks[a.task].spent)
    ensures NoFork(Step(s, a))
  {
    var s', spent := Step(s, a), s.tasks[a.task].spent;
    assert s'.edges[|s.edges|] == (spent, a.minted);
    forall i | 0 <= i < |s.edges|
      ensures s.edges[i].0 != spent && s.edges[i].1 != a.minted && s.edges[i].0 != a.minted
    {
      assert s.edges[i] in s.edges;
    }
  }

  lemma MintKeeps(s: State, a: Action)
    requires Inv(s) && a.Mint? && Enabled(s, a)
    ensures Inv(Step(s, a))
  {
    var s' := Step(s, a);
    var spent := s.tasks[a.task].spent;
    MintKeepsChain(s, a);
    MintKeepsNoFork(s, a);
    forall j ensures Spent(s', j) <==> Spent(s, j) || j == spent {
      MintSpends(s, a, j);
    }
    assert spent in s.claims && spent !in s.ledger && a.minted !in s.claims && a.minted !in s.ledger;
    assert forall t :: t in s.tasks && t != a.task ==> s'.tasks[t] == s.tasks[t] && Token(s.tasks[t]) != spent;
  }

  lemma {:induction false} SameEdges(s: State, s': State)
    requires OneChain(s) && NoFork(s) && s'.edges == s.edges && s'.login == s.login
    ensures OneChain(s') && NoFork(s') && forall j :: Spent(s', j) <==> Spent(s, j)
  {
    assert forall j :: (Spent(s', j) <==> Spent(s, j)) && (Rotated(s', j) <==> Rotated(s, j));
  }

  lemma {:induction false} ClaimKeeps(s: State, a: Action)
    requires Inv(s) && Enabled(s, a) && a.Claim?
    ensures Inv(Step(s, a))
  {
    var s' := Step(s, a);
    SameEdges(s, s');
    assert forall t :: t in s.tasks ==> Token(s.tasks[t]) != a.presented;
    assert s'.claims[|s.claims|] == a.presented;
  }

  lemma {:induction false} OthersKeep(s: State, a: Action)
    requires Inv(s) && Enabled(s, a) && !a.LogIn? && !a.Mint? && !a.Claim?
    ensures Inv(Step(s, a))
  {
    SameEdges(s, Step(s, a));
  }

  lemma StepKeeps(s: State, a: Action)
    requires Inv(s) && Enabled(s, a)
    ensures Inv(Step(s, a))
  {
    if a.LogIn? {
      LogInKeeps(s, a);
    } else if a.Mint? {
      MintKeeps(s, a);
    } else if a.Claim? {
      ClaimKeeps(s, a);
    } else {
      OthersKeep(s, a);
    }
  }

  lemma {:induction false} Reachable(states: seq<State>, actions: seq<Action>, n: nat)
    requires IsRun(states, actions) && n <= |actions|
    ensures Inv(states[n])
  {
    if n > 0 {
      Reachable(states, actions, n - 1);
      StepKeeps(states[n - 1], actions[n - 1]);
    }
  }

  /** Under any interleaving each token is claimed at most once, and each login's tokens form one chain: no
      token has two successors or two predecessors, one token is first, one is last, and only the last can
      have a live ledger entry. */
  lemma RotationIsLinear(states: seq<State>, actions: seq<Action>, n: nat)
    requires IsRun(states, actions) && n <= |actions|
    ensures var s := states[n];
            && Distinct(s.claims)
            && NoFork(s) && OneChain(s)
            && (forall i, j :: i in s.ledger && j in s.ledger && i != j ==>
                  i in s.login && j in s.login && s.login[i] != s.login[j])
            && (forall j :: j in s.ledger ==> !Spent(s, j) && j !in s.claims)
  {
    Reachable(states, actions, n);
  }

  /** A token that has been claimed is refused from then on, whatever else happens. */
  lemma {:induction false} ClaimedStaysRefused(states: seq<State>, actions: seq<Action>, m: nat, n: nat, j: Jti)
    requires IsRun(states, actions) && m <= n <= |actions| && j in states[m].claims
    ensures j in states[n].claims && j !in states[n].ledger
    ensures n < |actions| ==> forall t :: actions[n] != Claim(t, j)
  {
    Reachable(states, actions, n);
    if m < n {
      ClaimedStaysRefused(states, actions, m, n - 1, j);
      assert states[n] == Step(states[n - 1], actions[n - 1]);
    }
  }

  // ---- one call on the cache ----

  /** The tokens in the ledger are those whose refresh entry is live in the cache. */
  ghost predicate Views(ledger: set<Jti>, c: Store, now: real) {
    forall j :: j in ledger <==> Find(c, TokenLedger.RefreshKey(j), now).Some?
  }

  /** The state after these entries have lapsed, one after the other. */
  ghost function AfterLapses(s: State, gone: seq<Jti>): State {
    if gone == [] then s else Step(AfterLapses(s, gone[..|gone| - 1]), Lapse(gone[|gone| - 1]))
  }

  lemma {:induction false} LapsesRemove(s: State, gone: seq<Jti>)
    ensures AfterLapses(s, gone) == s.(ledger := set j | j in s.ledger && j !in gone)
  {
    if gone == [] {
      assert (set j | j in s.ledger && j !in gone) == s.ledger;
    } else {
      var front, last := gone[..|gone| - 1], gone[|gone| - 1];
      LapsesRemove(s, front);
      assert forall j :: j in gone <==> j in front || j == last;
      assert (set j | j in s.ledger && j !in gone) == (set j | j in s.ledger && j !in front) - {last};
    }
  }

  lemma {:induction false} Listed(xs: set<Jti>) returns (list: seq<Jti>)
    ensures forall j :: j in list <==> j in xs
  {
    if xs == {} {
      list := [];
    } else {
      var x :| x in xs;
      var rest := Listed(xs - {x});
      list := rest + [x];
    }
  }

  /** Time alone is nothing but lapses: as it passes, the ledger of the cache becomes that of the state after
      some entries have lapsed. */
  lemma {:induction false} TimeOnlyLapses(s: State, c: Store, now: real, t: real) returns (gone: seq<Jti>)
    requires Views(s.ledger, c, now) && now <= t
    ensures Views(AfterLapses(s, gone).ledger, c, t)
    ensures forall j :: j in gone ==> j in s.ledger
  {
    gone := Listed(set j | j in s.ledger && Find(c, TokenLedger.RefreshKey(j), t).None?);
    LapsesRemove(s, gone);
    forall j ensures j in AfterLapses(s, gone).ledger <==> Find(c, TokenLedger.RefreshKey(j), t).Some? {
      FindLater(c, TokenLedger.RefreshKey(j), now, t);
    }
  }

  // ---- logins ----

  /** A login that is not disturbed leaves a live token, and that token can be claimed. */
  lemma {:induction false} LoginGivesLiveToken(s: State, task: TaskId, from: Login, j: Jti, claimer: TaskId) returns (s': State)
    requires Enabled(s, LogIn(task, from, j)) && claimer !in s.tasks
    ensures var minted := Step(s, LogIn(task, from, j));
            Enabled(minted, Save(task)) && s' == Step(minted, Save(task))
    ensures s'.ledger == s.ledger + {j} && j in s'.login && s'.login[j] == from && s'.tasks == s.tasks
    ensures s'.claims == s.claims && s'.edges == s.edges
    ensures Enabled(s', Claim(claimer, j))
  {
    s' := Step(Step(s, LogIn(task, from, j)), Save(task));
    assert s'.tasks == s.tasks;
  }

  /** Storing the pair of a login in the cache is such a login and its save. */
  lemma {:induction false} UndisturbedLogin(m: TokenLedger.AuthManager, c: Store, c': Store, userId: string,
                                            pair: TokenLedger.Pair, now: real, s: State, task: TaskId, from: Login)
    returns (s': State)
    requires m.PairStored(c, c', userId, pair, now) && Views(s.ledger, c, now)
    requires Enabled(s, LogIn(task, from, pair.refresh))
    ensures var minted := Step(s, LogIn(task, from, pair.refresh));
            Enabled(minted, Save(task)) && s' == Step(minted, Save(task))
    ensures pair.refresh in s'.ledger && Views(s'.ledger, c', now)
  {
    s' := LoginGivesLiveToken(s, task, from, pair.refresh, task);
    forall j ensures j in s'.ledger <==> Find(c', TokenLedger.RefreshKey(j), now).Some? {
      TokenLedger.KeysDistinct(j, pair.access, userId);
      TokenLedger.KeysDistinct(j, pair.refresh, userId);
    }
  }

  /** From every state that a run can reach, a login, a refresh with its token and a refresh with the new token all
      go through, when nothing comes between: afterwards just the newest token of the login is live. */
  lemma {:induction false} TwoRefreshesSucceed(s: State, task: TaskId, from: Login, first: Jti, second: Jti, third: Jti)
    returns (s1: State, s2: State, s3: State)
    requires LedgerOk(s) && Enabled(s, LogIn(task, from, first))
    requires Distinct([first, second, third]) && second !in s.login && third !in s.login
    ensures Enabled(Step(s, LogIn(task, from, first)), Save(task)) && s1 == Step(Step(s, LogIn(task, from, first)), Save(task))
    ensures Rotates(s1, task, first, second, s2) && Rotates(s2, task, second, third, s3)
    ensures s3.claims == s.claims + [first, second] && s3.edges == s.edges + [(first, second), (second, third)]
    ensures s3.ledger == s.ledger + {third} && s3.login[third] == from && s3.tasks == s.tasks
  {
    var fresh3 := [first, second, third];
    assert fresh3[0] != fresh3[1] && fresh3[1] != fresh3[2] && fresh3[0] != fresh3[2];
    s1 := LoginGivesLiveToken(s, task, from, first, task);
    s2 := RotationSteps(s1, task, first, second);
    s3 := RotationSteps(s2, task, second, third);
    assert s.claims + [first] + [second] == s.claims + [first, second];
    assert s.edges + [(first, second)] + [(second, third)] == s.edges + [(first, second), (second, third)];
  }

  /** A run: one login, then a refresh that goes through. */
  lemma {:induction false} ClaimingRun() returns (states: seq<State>, actions: seq<Action>)
    ensures IsRun(states, actions) && |actions| == 5 && actions[2] == Claim(1, "a")
    ensures states[2].ledger == {"a"} && states[5].ledger == {"b"} && states[5].claims == ["a"]
  {
    actions := [LogIn(0, "login", "a"), Save(0), Claim(1, "a"), Mint(1, "b"), Save(1)];
    var s1 := Step(Init, actions[0]);
    var s2 := Step(s1, actions[1]);
    var s3 := Step(s2, actions[2]);
    var s4 := Step(s3, actions[3]);
    states := [Init, s1, s2, s3, s4, Step(s4, actions[4])];
  }

  /** A refused call is a `Reject`. */
  lemma {:induction false} RefusedCallIsReject(m: TokenLedger.AuthManager, c: Store, c': Store, userId: string, jti: Jti,
                                               next: TokenLedger.Pair, now: real, r: Result<TokenLedger.Pair, TokenLedger.Error>,
                                               s: State)
    requires m.Refreshed(c, c', userId, jti, next, now, r) && Views(s.ledger, c, now) && r.Err?
    ensures Enabled(s, Reject(jti)) && Views(Step(s, Reject(jti)).ledger, c', now)
  {
    assert forall j :: Find(c', TokenLedger.RefreshKey(j), now) == Find(c, TokenLedger.RefreshKey(j), now);
  }

  /** What an undisturbed refresh leaves in the ledger. */
  lemma {:induction false} RefreshViews(m: TokenLedger.AuthManager, c: Store, c': Store, userId: string, jti: Jti,
                                        next: TokenLedger.Pair, now: real, r: Result<TokenLedger.Pair, TokenLedger.Error>,
                                        ledger: set<Jti>)
    requires m.Refreshed(c, c', userId, jti, next, now, r) && Views(ledger, c, now) && r.Ok?
    requires m.refreshTtl > 0 && next.refresh != jti
    ensures jti in ledger && Views(ledger - {jti} + {next.refresh}, c', now)
  {
    forall j ensures j in ledger - {jti} + {next.refresh} <==> Find(c', TokenLedger.RefreshKey(j), now).Some? {
      TokenLedger.KeysDistinct(j, next.access, userId);
      TokenLedger.KeysDistinct(jti, j, userId);
      TokenLedger.KeysDistinct(next.refresh, j, userId);
      TokenLedger.KeysDistinct(j, jti, userId);
      TokenLedger.KeysDistinct(j, next.refresh, userId);
    }
  }

  /** A claim, a mint and a save by the same task, one after the other. */
  ghost predicate Rotates(s: State, task: TaskId, jti: Jti, next: Jti, s': State) {
    && Enabled(s, Claim(task, jti))
    && var claimed := Step(s, Claim(task, jti));
    && Enabled(claimed, Mint(task, next))
    && var minted := Step(claimed, Mint(task, next));
    && Enabled(minted, Save(task))
    && s' == Step(minted, Save(task))
  }

  lemma {:induction false} RotationSteps(s: State, task: TaskId, jti: Jti, next: Jti) returns (s': State)
    requires task !in s.tasks && jti in s.ledger && jti in s.login && next !in s.login
    ensures Rotates(s, task, jti, next, s')
    ensures s'.ledger == s.ledger - {jti} + {next} && s'.tasks == s.tasks
    ensures s'.claims == s.claims + [jti] && s'.edges == s.edges + [(jti, next)]
    ensures s'.login == s.login[next := s.login[jti]]
  {
    var claimed := Step(s, Claim(task, jti));
    var minted := Step(claimed, Mint(task, next));
    s' := Step(minted, Save(task));
    assert s'.tasks == s.tasks;
  }

  /** An undisturbed refresh that succeeds is such a rotation. */
  lemma {:induction false} UndisturbedRefresh(m: TokenLedger.AuthManager, c: Store, c': Store, userId: string, jti: Jti,
                                              next: TokenLedger.Pair, now: real, r: Result<TokenLedger.Pair, TokenLedger.Error>,
                                              s: State, task: TaskId) returns (s': State)
    requires m.Refreshed(c, c', userId, jti, next, now, r) && Views(s.ledger, c, now) && r.Ok?
    requires m.refreshTtl > 0 && LedgerOk(s) && task !in s.tasks && next.refresh !in s.login
    ensures Rotates(s, task, jti, next.refresh, s')
    ensures Views(s'.ledger, c', now) && s'.tasks == s.tasks
    ensures s'.claims == s.claims + [jti] && s'.edges == s.edges + [(jti, next.refresh)]
  {
    assert jti in s.ledger;
    RefreshViews(m, c, c', userId, jti, next, now, r, s.ledger);
    s' := RotationSteps(s, task, jti, next.refresh);
  }

  // ---- lost tokens ----

  /** The token exists, but it is neither live nor held by any coroutine. */
  ghost predicate Lost(s: State, j: Jti) {
    j in s.login && j !in s.ledger && forall t :: t in s.tasks ==> Token(s.tasks[t]) != j
  }

  lemma {:induction false} LostStays(s: State, a: Action, j: Jti)
    requires Lost(s, j) && Enabled(s, a)
    ensures Lost(Step(s, a), j)
  {
  }

  /** A coroutine that dies takes its token with it: that token is never live again, on any run from there. */
  lemma {:induction false} DeadTokenStaysDead(states: seq<State>, actions: seq<Action>, m: nat, n: nat, task: TaskId)
    requires IsRun(states, actions) && m < n <= |actions| && actions[m] == Die(task)
    ensures Enabled(states[m], Die(task)) && Lost(states[n], Token(states[m].tasks[task]))
  {
    Reachable(states, actions, m);
    var j := Token(states[m].tasks[task]);
    if n == m + 1 {
      assert states[n] == Step(states[m], Die(task));
    } else {
      DeadTokenStaysDead(states, actions, m, n - 1, task);
      LostStays(states[n - 1], actions[n - 1], j);
    }
  }
}
