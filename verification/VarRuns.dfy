/** The variable list over whole runs: a variable is found exactly if it was created and not removed since. */
module VarRuns {
  import opened Wrappers
  import opened VarCells
  import opened VarFamilies
  import opened VarStore
  import opened VarRelease
  import opened VarDirectory

  datatype Call =
    | New(o: nat, isArray: bool)
    | Get(p: nat, name: nat, x: nat)
    | Append(p: nat, name: nat, x: nat)
    | Remove(p: nat, name: nat)
    | Clear(p: nat)
    | Release(o: nat)
    | Set(x: nat, value: Value)
    | Eval(x: nat, got: Option<nat>)

  /** What a call that is carried out does to the directory, to the values and to the lists of children. */
  ghost predicate Gives(s: Store, call: Call, t: Store) {
    WellFormed(s) && WellFormed(t) && Enters(s, call, t) && Fills(s, call, t) && Lists(s, call, t)
  }

  /** The directory. */
  ghost predicate Enters(s: Store, call: Call, t: Store) {
    match call
    case New(o, _) => o !in s.objs && o in t.objs && Directory(t) == Directory(s)
    case Get(p, name, x) =>
      && p in s.objs && Directory(t) == Directory(s)[(p, name) := x]
      && if (p, name) in Directory(s) then Directory(s)[(p, name)] == x else x !in s.vars
    case Append(p, name, x) =>
      p in s.objs && Directory(t) == Directory(s)[(p, name) := x] && (p, name) !in Directory(s) && x !in s.vars
    case Remove(p, name) => p in t.objs && Directory(t) == Restricted(Directory(s) - {(p, name)}, t.objs.Keys)
    case Clear(p) => Directory(t) == Restricted(Directory(s), t.objs.Keys - {p})
    case Release(_) => Directory(t) == Restricted(Directory(s), t.objs.Keys)
    case Set(_, _) => Directory(t) == Restricted(Directory(s), t.objs.Keys)
    case Eval(_, _) => s.objs.Keys <= t.objs.Keys && Restricted(Directory(t), s.objs.Keys) == Directory(s)
  }

  /** The values: a new variable has none, and at most the one named changes. */
  ghost predicate Fills(s: Store, call: Call, t: Store) {
    match call
    case New(o, isArray) => KeepValues(s, t, {}) && o in t.objs && t.objs[o].value == Object(isArray, 0, 0) && o in t.kids && t.kids[o] == []
    case Get(_, _, x) => KeepValues(s, t, {}) && x in t.vars && (x !in s.vars ==> t.vars[x].value == Undefined)
    case Append(_, _, x) => KeepValues(s, t, {}) && x in t.vars && t.vars[x].value == Undefined
    case Set(x, value) => KeepValues(s, t, {x}) && x in t.vars && t.vars[x].value == value
    case Eval(x, got) =>
      KeepValues(s, t, {x}) && x in s.vars && x in t.vars && t.vars[x].value == if got.Some? then Pointer(got.value) else s.vars[x].value
    case _ => KeepValues(s, t, {})
  }

  /** Every variable that is there before and after, but for those in `but`, has the value it had. */
  ghost predicate KeepValues(s: Store, t: Store, but: set<nat>) {
    forall y :: y in s.vars && y in t.vars && y !in but ==> t.vars[y].value == s.vars[y].value
  }

  /** The lists of children: at most that of the object named changes. */
  ghost predicate Lists(s: Store, call: Call, t: Store) {
    match call
    case Get(p, name, x) =>
      KeepLists(s, t, {p}) && p in s.kids && p in t.kids && t.kids[p] == if (p, name) in Directory(s) then s.kids[p] else [x] + s.kids[p]
    case Append(p, _, x) => KeepLists(s, t, {p}) && p in s.kids && p in t.kids && t.kids[p] == s.kids[p] + [x]
    case Remove(p, name) =>
      KeepLists(s, t, {p}) && p in s.kids && p in t.kids
      && t.kids[p] == if (p, name) in Directory(s) then Minus(s.kids[p], Directory(s)[(p, name)]) else s.kids[p]
    case Clear(p) => KeepLists(s, t, {p}) && (p in t.kids ==> t.kids[p] == [])
    case _ => KeepLists(s, t, {})
  }

  /** Every object that is there before and after, but for those in `but`, has its variables in the order it had, under the same names. */
  ghost predicate KeepLists(s: Store, t: Store, but: set<nat>) {
    && (forall q :: q in s.kids && q in t.kids && q !in but ==> t.kids[q] == s.kids[q])
    && forall y :: y in s.vars && y in t.vars ==> t.vars[y].name == s.vars[y].name
  }

  /** The number and the value of the variable `name` of `p`, if there is one. */
  ghost function Lookup(s: Store, p: nat, name: nat): Option<(nat, Value)> {
    if (p, name) in Directory(s) then Some((Directory(s)[(p, name)], ValueOf(s, Directory(s)[(p, name)]))) else None
  }

  ghost function ValueOf(s: Store, x: nat): Value {
    if x in s.vars then s.vars[x].value else Undefined
  }

  /** The number that the variable `name` of `p` has after the calls, and the last value it was given, by the calls alone. */
  function Track(calls: seq<Call>, p: nat, name: nat, start: Option<(nat, Value)>): Option<(nat, Value)> {
    if calls == [] then start
    else
      var before := Track(calls[..|calls| - 1], p, name, start);
      match calls[|calls| - 1]
      case Get(q, n, x) => if q == p && n == name && before == None then Some((x, Undefined)) else before
      case Append(q, n, x) => if q == p && n == name then Some((x, Undefined)) else before
      case Remove(q, n) => if q == p && n == name then None else before
      case Clear(q) => if q == p then None else before
      case Set(x, value) => if before.Some? && before.value.0 == x then Some((x, value)) else before
      case Eval(x, got) => if before.Some? && before.value.0 == x && got.Some? then Some((x, Pointer(got.value))) else before
      case _ => before
  }

  /** Each call is carried out on what the one before it left. */
  ghost predicate IsRun(states: seq<Store>, calls: seq<Call>) {
    |states| == |calls| + 1 && forall i :: 0 <= i < |calls| ==> Gives(states[i], calls[i], states[i + 1])
  }

  /** One call changes what is found for `name` of `p`, and its value, as it says, as long as `p` exists. */
  lemma CallTracked(s: Store, call: Call, t: Store, p: nat, name: nat)
    requires Gives(s, call, t) && p in s.objs && p in t.objs
    ensures Lookup(t, p, name) == Track([call], p, name, Lookup(s, p, name))
  {
    hide WellFormed, Directory;
    assert Track([], p, name, Lookup(s, p, name)) == Lookup(s, p, name);
    assert [call][..0] == [];
    EntryLives(s, p, name);
    EntryLives(t, p, name);
  }

  /** The directory leads to variables that exist. */
  lemma EntryLives(s: Store, p: nat, name: nat)
    requires WellFormed(s)
    ensures (p, name) in Directory(s) ==> Directory(s)[(p, name)] in s.vars
  {
    hide WellFormed, Directory;
    if (p, name) in Directory(s) {
      EntryNamed(s, p, name, Directory(s)[(p, name)]);
    }
  }

  /**
   Whatever objects come and go, a variable of an object that is there throughout is found exactly if
   it was created and neither removed nor cleared since, under the number it was created with, and it
   has the value that was last assigned to it.
   */
  lemma {:induction false} RunsRefineMaps(states: seq<Store>, calls: seq<Call>, p: nat, name: nat)
    requires IsRun(states, calls) && forall i :: 0 <= i < |states| ==> p in states[i].objs
    ensures Lookup(states[|calls|], p, name) == Track(calls, p, name, Lookup(states[0], p, name))
    decreases |calls|
  {
    hide Gives, Lookup;
    if calls != [] {
      var n := |calls| - 1;
      RunsRefineMaps(states[..|calls|], calls[..n], p, name);
      assert Gives(states[n], calls[n], states[n + 1]);
      CallTracked(states[n], calls[n], states[n + 1], p, name);
      TrackStep(calls, p, name, Lookup(states[0], p, name));
    }
  }

  lemma TrackStep(calls: seq<Call>, p: nat, name: nat, start: Option<(nat, Value)>)
    requires calls != []
    ensures Track(calls, p, name, start) == Track([calls[|calls| - 1]], p, name, Track(calls[..|calls| - 1], p, name, start))
  {
    var c := [calls[|calls| - 1]];
    assert c[..0] == [];
  }

  /** Different variables have different numbers. */
  lemma EntriesApart(s: Store, j: (nat, nat), k: (nat, nat))
    requires WellFormed(s) && j in Directory(s) && k in Directory(s) && Directory(s)[j] == Directory(s)[k]
    ensures j == k
  {
    hide Directory;
    EntryNamed(s, j.0, j.1, Directory(s)[j]);
    EntryNamed(s, k.0, k.1, Directory(s)[k]);
    assert j == (j.0, j.1) && k == (k.0, k.1);
    hide WellFormed;
    ListsApart(s, j.0, k.0, Directory(s)[j]);
  }

  lemma ListsApart(s: Store, p: nat, q: nat, x: nat)
    requires WellFormed(s) && p in s.kids && q in s.kids && x in s.kids[p] && x in s.kids[q]
    ensures p == q
  {
    hide FamilyOk, ObjectOk, NoDangling, Tallied;
    if p != q { OneFamily(s.vars, s.kids, p, q, x); }
  }

  /** An object exists exactly as long as it is referred to. */
  lemma LivesIffReferenced(s: Store, o: nat)
    requires WellFormed(s)
    ensures o in s.objs <==> s.roots[o] > 0 || Referrers(s.vars, s.spent, o) != {}
  {
    hide Families, Tallied, OnRing;
    if o in s.objs {
      assert ObjectOk(s, o);
    }
    forall x | x in Referrers(s.vars, s.spent, o)
      ensures o in s.objs
    {
      assert s.vars[x].value.Pointer?;
    }
  }

  // ---------------------------------------------------------------- what the calls do

  /** Objects may come, and values change: with the same variables in the lists the directory is the same. */
  lemma SameEntries(s: Store, t: Store)
    requires WellFormed(s) && WellFormed(t)
    requires forall p, n, y :: Named(s.vars, s.kids, p, n, y) <==> Named(t.vars, t.kids, p, n, y)
    ensures Directory(t) == Directory(s)
  {
    hide WellFormed, Directory, Named;
    forall p: nat, n: nat, y: nat
      ensures Named(t.vars, t.kids, p, n, y) <==> (p, n) in Directory(s) && Directory(s)[(p, n)] == y
    {
      EntryNamed(s, p, n, y);
    }
    SameDirectory(t, Directory(s));
  }

  lemma NewGives(s: Store, o: nat, name: nat, isArray: bool)
    requires WellFormed(s) && o !in s.objs && 0 < o < PARENT_SIZE
    ensures WellFormed(NewObject(s, o, name, isArray)) && Gives(s, New(o, isArray), NewObject(s, o, name, isArray))
  {
    hide WellFormed, Directory;
    NewObjectOk(s, o, name, isArray);
    FamiliesKeys(s);
    SameEntries(s, NewObject(s, o, name, isArray));
  }

  /** What survives a release has kept its values. */
  lemma SurvivorsKeep(s: Store, t: Store, p: nat)
    requires WellFormed(t) && (p in t.objs ==> p in t.kids && t.kids[p] == [])
    requires forall q :: q in t.objs && q != p ==> Unharmed(s, t, q)
    ensures forall y :: y in t.vars ==> y in s.vars && t.vars[y] == s.vars[y]
  {
    hide WellFormed;
    FamiliesKeys(t);
    forall y | y in t.vars
      ensures y in s.vars && t.vars[y] == s.vars[y]
    {
      KidOfSome(t, y);
      var q :| q in t.kids && y in t.kids[q];
      assert Unharmed(s, t, q);
    }
  }

  lemma SurvivorsListed(s: Store, t: Store, p: nat)
    requires WellFormed(t) && forall q :: q in t.objs && q != p ==> Unharmed(s, t, q)
    ensures forall q :: q in t.kids && q != p ==> q in s.kids && t.kids[q] == s.kids[q]
  {
    hide WellFormed;
    FamiliesKeys(t);
    forall q | q in t.kids && q != p
      ensures q in s.kids && t.kids[q] == s.kids[q]
    {
      assert Unharmed(s, t, q);
    }
  }

  lemma ClearGives(s: Store, t: Store, p: nat)
    requires WellFormed(s) && WellFormed(t) && Survives(s, t, p) && (p in t.objs ==> p in t.kids && t.kids[p] == [])
    ensures Gives(s, Clear(p), t)
  {
    hide WellFormed, RingCount, Directory;
    FamiliesKeys(t);
    SurvivorsKeep(s, t, p);
    SurvivorsListed(s, t, p);
    forall q: nat, n: nat, y: nat
      ensures Named(t.vars, t.kids, q, n, y) <==>
        var m := Restricted(Directory(s), t.objs.Keys - {p}); (q, n) in m && m[(q, n)] == y
    {
      EntryNamed(s, q, n, y);
      if q in t.objs && q != p {
        assert Unharmed(s, t, q);
      }
    }
    SameDirectory(t, Restricted(Directory(s), t.objs.Keys - {p}));
  }

  /** Variable `x` has the value `value`, and whatever else is left of the variables is as it was. */
  ghost predicate OnlyValue(s: Store, t: Store, x: nat, value: Value) {
    && x in s.vars && x in t.vars && t.vars[x].value == value && t.vars[x].name == s.vars[x].name && t.vars[x].bucket == s.vars[x].bucket
    && forall y :: y in t.vars && y != x ==> y in s.vars && t.vars[y] == s.vars[y]
  }

  lemma NobodyListed(t: Store)
    requires WellFormed(t)
    ensures NOBODY !in t.objs
  {
    hide WellFormed;
    if NOBODY in t.objs {
      NotNobody(t, NOBODY);
    }
  }

  lemma SetGives(s: Store, t: Store, x: nat, value: Value)
    requires WellFormed(s) && WellFormed(t) && x in s.vars && Survives(Assigned(s, x, value), t, NOBODY) && x in t.vars
    ensures Gives(s, Set(x, value), t) && OnlyValue(s, t, x, value)
  {
    hide WellFormed, RingCount, Directory;
    FamiliesKeys(t);
    NobodyListed(t);
    SurvivorsKeep(Assigned(s, x, value), t, NOBODY);
    SurvivorsListed(Assigned(s, x, value), t, NOBODY);
    forall q: nat, n: nat, y: nat
      ensures Named(t.vars, t.kids, q, n, y) <==>
        var m := Restricted(Directory(s), t.objs.Keys); (q, n) in m && m[(q, n)] == y
    {
      EntryNamed(s, q, n, y);
      if q in t.objs {
        NotNobody(t, q);
        assert Unharmed(Assigned(s, x, value), t, q);
      }
    }
    SameDirectory(t, Restricted(Directory(s), t.objs.Keys));
  }

  /** Objects may be added with variables of their own: of those that were there before all entries stay. */
  lemma EvalGives(s: Store, t: Store, x: nat, got: Option<nat>)
    requires WellFormed(s) && WellFormed(t) && s.objs.Keys <= t.objs.Keys && x in s.vars && x in t.vars
    requires t.vars[x].value == if got.Some? then Pointer(got.value) else s.vars[x].value
    requires forall z :: z in s.vars && z != x ==> z in t.vars && t.vars[z].value == s.vars[z].value
    requires forall q :: q in s.objs ==> q in s.kids && q in t.kids && t.kids[q] == s.kids[q]
    requires forall z :: z in s.vars ==> z in t.vars && t.vars[z].name == s.vars[z].name
    ensures Gives(s, Eval(x, got), t)
  {
    hide WellFormed, Directory;
    FamiliesKeys(s);
    forall q: nat, n: nat, y: nat
      ensures Named(s.vars, s.kids, q, n, y) <==>
        var m := Restricted(Directory(t), s.objs.Keys); (q, n) in m && m[(q, n)] == y
    {
      EntryNamed(t, q, n, y);
      ListedAlive(s, q);
    }
    SameDirectory(s, Restricted(Directory(t), s.objs.Keys));
  }
}
