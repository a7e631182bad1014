/**
 The DynamoDB update compiler: a dictionary of updates becomes a `SET` expression over
 generated placeholders. The expression is read back here with the database's own grammar.
 */
module DynamoUpdate {
  import opened Prelude
  import opened DynamoCodec
  import Decimal

  predicate PlainChar(c: char) {
    '0' <= c <= '9' || 'A' <= c <= 'Z' || 'a' <= c <= 'z' || c == '_'
  }

  function Masked(key: string): (r: string)
    ensures |r| == |key| && forall c :: c in r ==> PlainChar(c)
    ensures forall i :: 0 <= i < |key| ==> r[i] == if PlainChar(key[i]) then key[i] else '_'
  {
    if key == "" then "" else [if PlainChar(key[0]) then key[0] else '_'] + Masked(key[1..])
  }

  function Placeholder(key: string): string { "#" + Masked(key) }

  function Candidate(base: string, suffix: nat): string {
    if suffix == 0 then base else base + Decimal.Show(suffix)
  }

  function ValueRef(n: nat): string { ":u" + Decimal.Show(n) }

  // ---- the meaning of a SET expression ----

  /** Position of the first `c`, or the length. */
  function IndexOf(s: string, c: char): (i: nat)
    ensures i <= |s| && (i < |s| ==> s[i] == c)
    ensures forall j :: 0 <= j < i ==> s[j] != c
  {
    if s == "" || s[0] == c then 0 else 1 + IndexOf(s[1..], c)
  }

  datatype Assignment = Assignment(name: string, ref: string)

  /** The sign, then at least one letter, digit or underscore. */
  predicate IsRef(sign: char, s: string) {
    |s| > 1 && s[0] == sign && forall c :: c in s[1..] ==> PlainChar(c)
  }

  /** `name = ref` */
  function ParseOne(part: string): Option<Assignment> {
    var i := IndexOf(part, ' ');
    if i + 3 <= |part| && part[i..i + 3] == " = " && IsRef('#', part[..i]) && IsRef(':', part[i + 3..])
    then Some(Assignment(part[..i], part[i + 3..])) else None
  }

  /** Assignments separated by a comma and a blank. */
  function ParseList(s: string): Option<seq<Assignment>>
    decreases |s|
  {
    var i := IndexOf(s, ',');
    match ParseOne(s[..i])
    case None => None
    case Some(a) =>
      if i == |s| then Some([a])
      else if i + 2 <= |s| && s[i..i + 2] == ", " then
        match ParseList(s[i + 2..]) { case None => None case Some(rest) => Some([a] + rest) }
      else None
  }

  function ParseSet(expression: string): Option<seq<Assignment>> {
    if "SET " <= expression then ParseList(expression[4..]) else None
  }

  type Names = map<string, string>
  type Item = map<string, Wire>

  ghost predicate Bound(a: Assignment, names: Names, values: Item) { a.name in names && a.ref in values }

  /** Everything is bound, and no attribute is assigned twice. */
  ghost predicate Admissible(parts: seq<Assignment>, names: Names, values: Item) {
    && (forall i :: 0 <= i < |parts| ==> Bound(parts[i], names, values))
    && forall i, j :: 0 <= i < j < |parts| ==> names[parts[i].name] != names[parts[j].name]
  }

  ghost function Assign(parts: seq<Assignment>, names: Names, values: Item, item: Item): Item
    requires forall i :: 0 <= i < |parts| ==> Bound(parts[i], names, values)
    decreases |parts|
  {
    if parts == [] then item
    else
      assert Bound(parts[0], names, values);
      Assign(parts[1..], names, values, item[names[parts[0].name] := values[parts[0].ref]])
  }

  /** What the database does with the request; a malformed expression, an unbound placeholder and a doubly
      assigned attribute are refused. */
  ghost function Evaluate(expression: string, names: Names, values: Item, item: Item): Option<Item> {
    match ParseSet(expression)
    case None => None
    case Some(parts) => if Admissible(parts, names, values) then Some(Assign(parts, names, values, item)) else None
  }

  datatype Update = Update(key: string, value: Py)

  /** As the keys of a dictionary are. */
  ghost predicate DistinctKeys(updates: seq<Update>) {
    forall i, j :: 0 <= i < j < |updates| ==> updates[i].key != updates[j].key
  }

  ghost predicate NoEmptyKey(updates: seq<Update>) {
    forall i :: 0 <= i < |updates| ==> updates[i].key != ""
  }

  /** The meaning intended: the item with the updates laid over it. */
  function Override(item: Item, updates: seq<Update>): Item
    decreases |updates|
  {
    if updates == [] then item
    else Override(item[updates[0].key := Serialize(updates[0].value)], updates[1..])
  }

  /** With distinct keys, as in a dictionary: the updates' values under their keys, everything else as before. */
  lemma {:induction false} OverrideMeans(item: Item, updates: seq<Update>)
    requires DistinctKeys(updates)
    ensures var r := Override(item, updates);
            && (forall i :: 0 <= i < |updates| ==>
                  updates[i].key in r && r[updates[i].key] == Serialize(updates[i].value))
            && (forall k :: (forall i :: 0 <= i < |updates| ==> updates[i].key != k) ==>
                  (k in r <==> k in item) && (k in item ==> r[k] == item[k]))
    decreases |updates|
  {
    if updates != [] {
      var u, rest := updates[0], updates[1..];
      OverrideMeans(item[u.key := Serialize(u.value)], rest);
      assert forall i :: 0 < i < |updates| ==> updates[i] == rest[i - 1];
      assert forall i :: 0 <= i < |rest| ==> rest[i] == updates[i + 1];
    }
  }

  // ---- the compiler ----

  function Part(a: Assignment): string { a.name + " = " + a.ref }

  function Join(parts: seq<string>): string {
    if parts == [] then "" else if |parts| == 1 then parts[0] else parts[0] + ", " + Join(parts[1..])
  }

  function Parts(assignments: seq<Assignment>): seq<string> {
    seq(|assignments|, i requires 0 <= i < |assignments| => Part(assignments[i]))
  }

  ghost predicate Token(s: string) { ' ' !in s && ',' !in s }

  /** One placeholder for each update, pairwise distinct, each bound to just that update's key; nothing else is
      bound. Only the empty key gets a bare sign. */
  ghost predicate Named(updates: seq<Update>, assignments: seq<Assignment>, names: Names) {
    && |assignments| == |updates| == |names|
    && (forall i :: 0 <= i < |updates| ==>
          && assignments[i].name in names && names[assignments[i].name] == updates[i].key
          && Placeholder(updates[i].key) <= assignments[i].name
          && Token(assignments[i].name) && (IsRef('#', assignments[i].name) <==> updates[i].key != ""))
    && forall i, j :: 0 <= i < j < |updates| ==> assignments[i].name != assignments[j].name
  }

  /** One numbered reference for each update, bound to just that update's value; nothing else is bound. */
  ghost predicate Valued(updates: seq<Update>, assignments: seq<Assignment>, values: Item) {
    && |assignments| == |updates| == |values|
    && forall i :: 0 <= i < |updates| ==>
         && assignments[i].ref == ValueRef(i) && assignments[i].ref in values
         && values[assignments[i].ref] == Serialize(updates[i].value)
  }

  // ---- reading back what was written ----

  lemma TokenIndex(s: string, rest: string, c: char)
    requires c !in s && rest != "" && rest[0] == c
    ensures IndexOf(s + rest, c) == |s|
  {
    if s == "" {
      assert s + rest == rest;
    } else {
      assert (s + rest)[1..] == s[1..] + rest;
      TokenIndex(s[1..], rest, c);
    }
  }

  lemma NoIndex(s: string, c: char)
    requires c !in s
    ensures IndexOf(s, c) == |s|
  {
    if s != "" {
      NoIndex(s[1..], c);
    }
  }

  ghost predicate WellFormed(a: Assignment) { IsRef('#', a.name) && IsRef(':', a.ref) }

  lemma {:induction false} ParseOnePart(a: Assignment)
    requires Token(a.name) && Token(a.ref)
    ensures ParseOne(Part(a)) == if WellFormed(a) then Some(a) else None
    ensures ',' !in Part(a)
  {
    var rest := " = " + a.ref;
    assert Part(a) == a.name + rest;
    TokenIndex(a.name, rest, ' ');
    assert Part(a)[..|a.name|] == a.name;
    assert Part(a)[|a.name|..|a.name| + 3] == " = ";
    assert Part(a)[|a.name| + 3..] == a.ref;
  }

  lemma {:induction false} JoinedSplits(assignments: seq<Assignment>)
    requires |assignments| > 1 && Token(assignments[0].name) && Token(assignments[0].ref)
    ensures var s, a := Join(Parts(assignments)), Part(assignments[0]);
            && IndexOf(s, ',') == |a| && s[..|a|] == a && |a| + 2 <= |s|
            && s[|a|..|a| + 2] == ", " && s[|a| + 2..] == Join(Parts(assignments[1..]))
  {
    var a, parts := assignments[0], Parts(assignments);
    ParseOnePart(a);
    assert parts[1..] == Parts(assignments[1..]);
    var rest := ", " + Join(parts[1..]);
    assert Join(parts) == Part(a) + rest;
    TokenIndex(Part(a), rest, ',');
  }

  /** Parsing the joined parts gives the assignments back, or refuses them if one of them is not well-formed. */
  lemma {:induction false} ParseJoined(assignments: seq<Assignment>)
    requires assignments != [] && forall i :: 0 <= i < |assignments| ==> Token(assignments[i].name) && Token(assignments[i].ref)
    ensures ParseList(Join(Parts(assignments))) ==
            if forall i :: 0 <= i < |assignments| ==> WellFormed(assignments[i]) then Some(assignments) else None
    decreases |assignments|
  {
    var a, s := assignments[0], Join(Parts(assignments));
    ParseOnePart(a);
    if |assignments| == 1 {
      NoIndex(Part(a), ',');
      assert s == Part(a) && s[..|s|] == s;
      assert assignments == [a];
    } else {
      JoinedSplits(assignments);
      var rest := assignments[1..];
      ParseJoined(rest);
      assert [a] + rest == assignments;
      assert (forall i :: 0 <= i < |assignments| ==> WellFormed(assignments[i])) <==>
             WellFormed(a) && forall i :: 0 <= i < |rest| ==> WellFormed(rest[i]) by {
        assert forall i :: 0 <= i < |rest| ==> rest[i] == assignments[i + 1];
        assert forall i :: 1 <= i < |assignments| ==> assignments[i] == rest[i - 1];
      }
    }
  }

  /** Each assignment carries its own update. */
  ghost predicate Carries(updates: seq<Update>, assignments: seq<Assignment>, names: Names, values: Item) {
    && |assignments| == |updates|
    && forall i :: 0 <= i < |updates| ==>
         && Bound(assignments[i], names, values)
         && names[assignments[i].name] == updates[i].key
         && values[assignments[i].ref] == Serialize(updates[i].value)
  }

  /** Carrying out the assignments lays the updates over the item. */
  lemma {:induction false} AssignIsOverride(updates: seq<Update>, assignments: seq<Assignment>, names: Names, values: Item, item: Item)
    requires Carries(updates, assignments, names, values)
    ensures Assign(assignments, names, values, item) == Override(item, updates)
    decreases |updates|
  {
    if updates != [] {
      AssignIsOverride(updates[1..], assignments[1..], names, values, item[updates[0].key := Serialize(updates[0].value)]);
    }
  }

  lemma {:induction false} SetParses(assignments: seq<Assignment>)
    requires assignments != [] && forall i :: 0 <= i < |assignments| ==> Token(assignments[i].name) && Token(assignments[i].ref)
    ensures ParseSet("SET " + Join(Parts(assignments))) ==
            if forall i :: 0 <= i < |assignments| ==> WellFormed(assignments[i]) then Some(assignments) else None
  {
    var expression := "SET " + Join(Parts(assignments));
    assert expression[..4] == "SET " && expression[4..] == Join(Parts(assignments));
    ParseJoined(assignments);
  }

  lemma {:induction false} EmptySetRefused()
    ensures ParseSet("SET ") == None
  {
    assert "SET "[4..] == "";
  }

  /** The compiled text reads back exactly when there is something to update and no key is empty. */
  lemma {:induction false} CompiledParses(updates: seq<Update>, assignments: seq<Assignment>, names: Names, values: Item)
    requires Named(updates, assignments, names) && Valued(updates, assignments, values)
    ensures ParseSet("SET " + Join(Parts(assignments))) ==
            if updates != [] && NoEmptyKey(updates) then Some(assignments) else None
  {
    if updates == [] {
      assert Parts(assignments) == [];
      EmptySetRefused();
      assert "SET " + "" == "SET ";
    } else {
      forall i | 0 <= i < |assignments|
        ensures Token(assignments[i].ref) && (WellFormed(assignments[i]) <==> updates[i].key != "")
      {
        RefIsToken(i);
      }
      SetParses(assignments);
    }
  }

  /** The condition's names and values leave those of the updates alone: no name starts like the placeholder of
      an updated key, no value is one of the first numbered references. */
  ghost predicate Clear(updates: seq<Update>, conditionNames: Names, conditionValues: Item) {
    && (forall p, i :: p in conditionNames && 0 <= i < |updates| ==> !(Placeholder(updates[i].key) <= p))
    && forall i :: 0 <= i < |updates| ==> ValueRef(i) !in conditionValues
  }

  lemma {:induction false} ClearCarries(updates: seq<Update>, assignments: seq<Assignment>, names: Names, values: Item,
                                        conditionNames: Names, conditionValues: Item)
    requires Named(updates, assignments, names) && Valued(updates, assignments, values)
    requires Clear(updates, conditionNames, conditionValues)
    ensures Carries(updates, assignments, names + conditionNames, values + conditionValues)
  {
    forall i | 0 <= i < |updates|
      ensures assignments[i].name !in conditionNames && assignments[i].ref !in conditionValues
    {
      assert Placeholder(updates[i].key) <= assignments[i].name;
      assert assignments[i].ref == ValueRef(i);
    }
  }

  lemma {:induction false} CarriesAdmissible(updates: seq<Update>, assignments: seq<Assignment>, names: Names, values: Item)
    requires Carries(updates, assignments, names, values) && DistinctKeys(updates)
    ensures Admissible(assignments, names, values)
  {
  }

  lemma {:induction false} CompiledEvaluates(updates: seq<Update>, assignments: seq<Assignment>, names: Names, values: Item,
                                             conditionNames: Names, conditionValues: Item, item: Item)
    requires Named(updates, assignments, names) && Valued(updates, assignments, values) && DistinctKeys(updates)
    requires updates != [] && NoEmptyKey(updates) && Clear(updates, conditionNames, conditionValues)
    ensures Evaluate("SET " + Join(Parts(assignments)), names + conditionNames, values + conditionValues, item)
         == Some(Override(item, updates))
  {
    CompiledParses(updates, assignments, names, values);
    ClearCarries(updates, assignments, names, values, conditionNames, conditionValues);
    CarriesAdmissible(updates, assignments, names + conditionNames, values + conditionValues);
    AssignIsOverride(updates, assignments, names + conditionNames, values + conditionValues, item);
  }

  // ---- the two loops ----

  lemma CandidatesDistinct(base: string, i: nat, j: nat)
    requires Candidate(base, i) == Candidate(base, j)
    ensures i == j
  {
    if i > 0 && j > 0 {
      assert Candidate(base, i)[|base|..] == Decimal.Show(i) && Candidate(base, j)[|base|..] == Decimal.Show(j);
      Decimal.ShowInjective(i, j);
    }
  }

  function Tried(base: string, suffix: nat): (r: set<string>)
    ensures forall p :: p in r <==> exists i :: 0 <= i < suffix && Candidate(base, i) == p
  {
    set i | 0 <= i < suffix :: Candidate(base, i)
  }

  lemma {:induction false} TriedSize(base: string, suffix: nat)
    ensures |Tried(base, suffix)| == suffix
  {
    if suffix > 0 {
      TriedSize(base, suffix - 1);
      var last := Candidate(base, suffix - 1);
      if last in Tried(base, suffix - 1) {
        var i :| 0 <= i < suffix - 1 && Candidate(base, i) == last;
        CandidatesDistinct(base, i, suffix - 1);
      }
      assert Tried(base, suffix) == Tried(base, suffix - 1) + {last};
    }
  }

  lemma TriedFits(base: string, suffix: nat, names: Names)
    requires forall i :: 0 <= i < suffix ==> Candidate(base, i) in names
    ensures suffix <= |names|
  {
    TriedSize(base, suffix);
    assert Tried(base, suffix) <= names.Keys;
    SubsetSize(Tried(base, suffix), names.Keys);
    assert |names.Keys| == |names|;
  }

  lemma SubsetSize(a: set<string>, b: set<string>)
    requires a <= b
    ensures |a| <= |b|
  {
    assert b == a + (b - a);
  }

  lemma {:induction false} SuffixPlain(suffix: nat)
    ensures Decimal.Show(suffix) != "" && forall c :: c in Decimal.Show(suffix) ==> PlainChar(c)
  {
  }

  lemma {:induction false} PlainIsToken(p: string)
    requires p != "" && p[0] == '#' && forall c :: c in p[1..] ==> PlainChar(c)
    ensures Token(p) && (IsRef('#', p) <==> |p| > 1)
  {
    assert p == [p[0]] + p[1..];
  }

  lemma {:induction false} CandidateShape(key: string, suffix: nat)
    ensures var p := Candidate(Placeholder(key), suffix);
            && Placeholder(key) <= p && Token(p)
            && (IsRef('#', p) <==> key != "" || suffix > 0)
  {
    var p := Candidate(Placeholder(key), suffix);
    var tail := Masked(key) + if suffix == 0 then "" else Decimal.Show(suffix);
    SuffixPlain(suffix);
    assert p == ['#'] + tail && p[1..] == tail;
    PlainIsToken(p);
  }

  /** The first candidate that is not in use. */
  ghost predicate IsFree(key: string, names: Names, p: string) {
    && p !in names
    && exists suffix: nat :: p == Candidate(Placeholder(key), suffix)
                             && forall i :: 0 <= i < suffix ==> Candidate(Placeholder(key), i) in names
  }

  /** The suffix loop stops, for every key and every set of names already taken: only so many candidates can be in use. */
  method UniquePlaceholder(key: string, names: Names) returns (p: string)
    ensures IsFree(key, names, p)
  {
    var placeholder := Placeholder(key);
    p := placeholder;
    var suffix := 0;
    while p in names
      invariant p == Candidate(placeholder, suffix)
      invariant forall i :: 0 <= i < suffix ==> Candidate(placeholder, i) in names
      decreases |names| + 1 - suffix
    {
      TriedFits(placeholder, suffix + 1, names);
      suffix := suffix + 1;
      p := placeholder + Decimal.Show(suffix);
    }
  }

  /** Every bound name belongs to some assignment. */
  ghost predicate NameKeys(assignments: seq<Assignment>, names: Names) {
    forall p :: p in names ==> exists i :: 0 <= i < |assignments| && assignments[i].name == p
  }

  lemma {:induction false} NamesAreRefs(updates: seq<Update>, assignments: seq<Assignment>, names: Names)
    requires Named(updates, assignments, names) && NameKeys(assignments, names) && NoEmptyKey(updates)
    ensures forall p :: p in names ==> IsRef('#', p)
  {
    forall p | p in names ensures IsRef('#', p) {
      var i :| 0 <= i < |assignments| && assignments[i].name == p;
    }
  }

  /** The empty key comes up once, so a new key's placeholder is a bare sign exactly when that key is empty. */
  lemma {:induction false} FreeShape(updates: seq<Update>, assignments: seq<Assignment>, names: Names, key: string, p: string)
    requires Named(updates, assignments, names) && NameKeys(assignments, names) && IsFree(key, names, p)
    requires forall i :: 0 <= i < |updates| ==> updates[i].key != key
    ensures Placeholder(key) <= p && Token(p) && (IsRef('#', p) <==> key != "")
  {
    var suffix: nat :| p == Candidate(Placeholder(key), suffix)
                       && forall i :: 0 <= i < suffix ==> Candidate(Placeholder(key), i) in names;
    CandidateShape(key, suffix);
    CandidateShape(key, 0);
    if key == "" {
      NamesAreRefs(updates, assignments, names);
      assert !IsRef('#', Candidate(Placeholder(key), 0));
    }
  }

  lemma ValueRefInjective(m: nat, n: nat)
    requires ValueRef(m) == ValueRef(n)
    ensures m == n
  {
    assert ValueRef(m)[2..] == Decimal.Show(m) && ValueRef(n)[2..] == Decimal.Show(n);
    Decimal.ShowInjective(m, n);
  }

  lemma {:induction false} RefIsToken(n: nat)
    ensures Token(ValueRef(n)) && IsRef(':', ValueRef(n))
  {
    assert ValueRef(n)[1..] == "u" + Decimal.Show(n);
  }

  function Refs(n: nat): (r: set<string>)
    ensures forall p :: p in r <==> exists i :: 0 <= i < n && ValueRef(i) == p
  {
    set i | 0 <= i < n :: ValueRef(i)
  }

  lemma {:induction false} RefsSnoc(n: nat)
    ensures Refs(n + 1) == Refs(n) + {ValueRef(n)} && ValueRef(n) !in Refs(n)
  {
    if ValueRef(n) in Refs(n) {
      var i: nat :| i < n && ValueRef(i) == ValueRef(n);
      ValueRefInjective(i, n);
    }
    forall p ensures p in Refs(n + 1) <==> p in Refs(n) || p == ValueRef(n) {
    }
  }

  lemma {:induction false} RefsSize(n: nat)
    ensures |Refs(n)| == n
  {
    if n > 0 {
      RefsSize(n - 1);
      RefsSnoc(n - 1);
    }
  }

  /** The references bound so far are the first ones, so the next one is free. */
  lemma {:induction false} RefsAreNumbered(updates: seq<Update>, assignments: seq<Assignment>, values: Item)
    requires Valued(updates, assignments, values)
    ensures ValueRef(|updates|) !in values
  {
    var n := |updates|;
    RefsSize(n);
    forall r | r in Refs(n) ensures r in values {
      var i :| 0 <= i < n && ValueRef(i) == r;
      assert assignments[i].ref == r;
    }
    SameSizeSubset(Refs(n), values.Keys);
    if ValueRef(n) in values {
      var i :| 0 <= i < n && ValueRef(i) == ValueRef(n);
      ValueRefInjective(i, n);
    }
  }

  lemma SameSizeSubset(a: set<string>, b: set<string>)
    requires a <= b && |a| == |b|
    ensures a == b
  {
    assert b == a + (b - a);
  }

  lemma {:induction false} NamedSnoc(updates: seq<Update>, assignments: seq<Assignment>, names: Names, u: Update, a: Assignment)
    requires Named(updates, assignments, names) && a.name !in names
    requires Placeholder(u.key) <= a.name && Token(a.name) && (IsRef('#', a.name) <==> u.key != "")
    ensures Named(updates + [u], assignments + [a], names[a.name := u.key])
  {
    var n, all, after := |updates|, assignments + [a], names[a.name := u.key];
    assert all[n] == a && (updates + [u])[n] == u;
    forall i | 0 <= i < n ensures all[i].name == assignments[i].name && all[i].name != a.name {
      assert all[i] == assignments[i] && assignments[i].name in names;
    }
    assert |after| == |names| + 1;
  }

  lemma {:induction false} NameKeysSnoc(assignments: seq<Assignment>, names: Names, a: Assignment, key: string)
    requires NameKeys(assignments, names)
    ensures NameKeys(assignments + [a], names[a.name := key])
  {
    var all, after := assignments + [a], names[a.name := key];
    forall p | p in after ensures exists i :: 0 <= i < |all| && all[i].name == p {
      if p == a.name {
        assert all[|assignments|].name == p;
      } else {
        var i :| 0 <= i < |assignments| && assignments[i].name == p;
        assert all[i].name == p;
      }
    }
  }

  lemma {:induction false} ValuedSnoc(updates: seq<Update>, assignments: seq<Assignment>, values: Item, u: Update, a: Assignment)
    requires Valued(updates, assignments, values) && a.ref == ValueRef(|values|)
    ensures Valued(updates + [u], assignments + [a], values[a.ref := Serialize(u.value)])
  {
    var n, all, after := |updates|, assignments + [a], values[a.ref := Serialize(u.value)];
    assert all[n] == a && (updates + [u])[n] == u;
    RefsAreNumbered(updates, assignments, values);
    forall i | 0 <= i < n ensures all[i].ref == ValueRef(i) && all[i].ref != a.ref {
      assert all[i] == assignments[i];
      if ValueRef(i) == ValueRef(n) {
        ValueRefInjective(i, n);
      }
    }
    assert |after| == |values| + 1;
  }

  lemma PartsSnoc(assignments: seq<Assignment>, a: Assignment)
    ensures Parts(assignments + [a]) == Parts(assignments) + [Part(a)]
  {
  }

  ghost predicate Compiled(updates: seq<Update>, assignments: seq<Assignment>, names: Names, values: Item) {
    Named(updates, assignments, names) && NameKeys(assignments, names) && Valued(updates, assignments, values)
  }

  lemma {:induction false} CompiledSnoc(updates: seq<Update>, assignments: seq<Assignment>, names: Names, values: Item, u: Update, p: string)
    requires Compiled(updates, assignments, names, values) && IsFree(u.key, names, p)
    requires forall i :: 0 <= i < |updates| ==> updates[i].key != u.key
    ensures var ref := ValueRef(|values|);
            Compiled(updates + [u], assignments + [Assignment(p, ref)], names[p := u.key], values[ref := Serialize(u.value)])
  {
    var a := Assignment(p, ValueRef(|values|));
    FreeShape(updates, assignments, names, u.key, p);
    NamedSnoc(updates, assignments, names, u, a);
    NameKeysSnoc(assignments, names, a, u.key);
    ValuedSnoc(updates, assignments, values, u, a);
  }

  lemma {:induction false} NextUpdate(updates: seq<Update>, i: nat)
    requires i < |updates| && DistinctKeys(updates)
    ensures updates[..i + 1] == updates[..i] + [updates[i]]
    ensures forall j :: 0 <= j < |updates[..i]| ==> updates[..i][j].key != updates[i].key
  {
  }

  /** The loop over the updates. */
  method BuildParts(updates: seq<Update>)
    returns (setParts: seq<string>, names: Names, values: Item, assignments: seq<Assignment>)
    requires DistinctKeys(updates)
    ensures Compiled(updates, assignments, names, values)
    ensures setParts == Parts(assignments)
  {
    setParts, names, values, assignments := [], map[], map[], [];
    for i := 0 to |updates|
      invariant Compiled(updates[..i], assignments, names, values)
      invariant setParts == Parts(assignments)
    {
      var p := UniquePlaceholder(updates[i].key, names);
      NextUpdate(updates, i);
      CompiledSnoc(updates[..i], assignments, names, values, updates[i], p);
      var ref := ValueRef(|values|);
      PartsSnoc(assignments, Assignment(p, ref));
      setParts := setParts + [p + " = " + ref];
      assignments := assignments + [Assignment(p, ref)];
      names := names[p := updates[i].key];
      values := values[ref := Serialize(updates[i].value)];
    }
    assert updates[..|updates|] == updates;
  }

  /** On every item the compiled request means the update when no key is empty and the condition keeps clear of
      the generated names; with no updates or with an empty key it is refused, whatever the condition. */
  method CompileUpdate(updates: seq<Update>, conditionNames: Names, conditionValues: Item)
    returns (expression: string, names: Names, values: Item)
    requires DistinctKeys(updates)
    ensures exists assignments, own, ownValues ::
              && Compiled(updates, assignments, own, ownValues)
              && names == own + conditionNames && values == ownValues + conditionValues
    ensures updates == [] || !NoEmptyKey(updates) ==> forall item :: Evaluate(expression, names, values, item) == None
    ensures updates != [] && NoEmptyKey(updates) && Clear(updates, conditionNames, conditionValues) ==>
              forall item :: Evaluate(expression, names, values, item) == Some(Override(item, updates))
  {
    var setParts, own, ownValues, assignments := BuildParts(updates);
    expression := "SET " + Join(setParts);
    names, values := own + conditionNames, ownValues + conditionValues;
    CompiledParses(updates, assignments, own, ownValues);
    if updates != [] && NoEmptyKey(updates) && Clear(updates, conditionNames, conditionValues) {
      forall item ensures Evaluate(expression, names, values, item) == Some(Override(item, updates)) {
        CompiledEvaluates(updates, assignments, own, ownValues, conditionNames, conditionValues, item);
      }
    }
  }

  // ---- update, then read ----

  function OverrideRecord(record: map<string, Py>, updates: seq<Update>): map<string, Py>
    decreases |updates|
  {
    if updates == [] then record
    else OverrideRecord(record[updates[0].key := updates[0].value], updates[1..])
  }

  lemma {:induction false} OverrideSerialized(record: map<string, Py>, updates: seq<Update>)
    ensures Override(SerializeItem(record), updates) == SerializeItem(OverrideRecord(record, updates))
    decreases |updates|
  {
    if updates != [] {
      var u := updates[0];
      assert SerializeItem(record)[u.key := Serialize(u.value)] == SerializeItem(record[u.key := u.value]);
      OverrideSerialized(record[u.key := u.value], updates[1..]);
    }
  }

  /** Key and index attributes, which a record read back does not show. */
  const INTERNAL_KEYS := {"PK", "SK", "GSI1PK", "GSI1SK", "GSI2PK", "GSI2SK"}

  function StripInternal(record: map<string, Py>): map<string, Py> {
    map k | k in record && k !in INTERNAL_KEYS :: record[k]
  }

  function ReadRecord(item: Item): Option<map<string, Py>> {
    match DeserializeItem(item) case None => None case Some(record) => Some(StripInternal(record))
  }

  lemma {:induction false} StripMeans(record: map<string, Py>)
    ensures var r := StripInternal(PlainItem(record));
            && (forall k :: k in r <==> k in record && k !in {"PK", "SK", "GSI1PK", "GSI1SK", "GSI2PK", "GSI2SK"})
            && forall k :: k in r ==> r[k] == Plain(record[k])
  {
  }

  /** The record read back after an update is the plain form of the old record with the updates laid over it,
      without key and index attributes, if every integer fits; otherwise reading it back raises. */
  lemma {:induction false} UpdateThenRead(record: map<string, Py>, updates: seq<Update>)
    ensures var after, read := OverrideRecord(record, updates), ReadRecord(Override(SerializeItem(record), updates));
            && (read.Some? <==> FitsDecimal(Dict(after)))
            && (read.Some? ==>
                  && (forall k :: k in read.value <==>
                        k in after && k !in {"PK", "SK", "GSI1PK", "GSI1SK", "GSI2PK", "GSI2SK"})
                  && forall k :: k in read.value ==> read.value[k] == Plain(after[k]))
  {
    var after := OverrideRecord(record, updates);
    OverrideSerialized(record, updates);
    DecodeEncodeItem(after);
    StripMeans(after);
  }
}
