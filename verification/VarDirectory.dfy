/**
 The variable list as a map from (object, name) to the variable's number, and what every operation
 does to the map; sizes of arrays; where all references are.
 */
module VarDirectory {
  import opened VarCells
  import opened VarFamilies
  import opened VarStore
  import opened VarRelease

  ghost function Keys(s: Store): set<(nat, nat)> {
    set p, x | p in s.kids && x in s.vars && x in s.kids[p] :: (p, s.vars[x].name)
  }

  /** Under which number each object's variable of each name is found. */
  ghost function Directory(s: Store): map<(nat, nat), nat> {
    map k | k in Keys(s) :: ChildOf(s, k.0, k.1)
  }

  ghost function ChildOf(s: Store, p: nat, name: nat): nat
    requires (p, name) in Keys(s)
  {
    assert exists x :: Named(s.vars, s.kids, p, name, x) by {
      var q, y :| q in s.kids && y in s.vars && y in s.kids[q] && (q, s.vars[y].name) == (p, name);
      assert Named(s.vars, s.kids, p, name, y);
    }
    var x :| Named(s.vars, s.kids, p, name, x);
    x
  }

  lemma DirectoryAt(s: Store, p: nat, name: nat)
    requires WellFormed(s)
    ensures (p, name) in Directory(s) <==> exists x :: Named(s.vars, s.kids, p, name, x)
    ensures forall x :: Named(s.vars, s.kids, p, name, x) ==> Directory(s)[(p, name)] == x
  {
    FamiliesOf(s, p);
    hide WellFormed;
    forall x | Named(s.vars, s.kids, p, name, x)
      ensures (p, name) in Directory(s) && Directory(s)[(p, name)] == x
    {
      assert (p, s.vars[x].name) in Keys(s);
    }
    if (p, name) in Keys(s) {
      var q, x :| q in s.kids && x in s.vars && x in s.kids[q] && (q, s.vars[x].name) == (p, name);
      assert Named(s.vars, s.kids, p, name, x);
    }
  }

  lemma FamiliesOf(s: Store, p: nat)
    requires WellFormed(s)
    ensures p in s.kids ==> forall x, y :: x in s.kids[p] && y in s.kids[p] && x in s.vars && y in s.vars && s.vars[x].name == s.vars[y].name ==> x == y
  {
    if p in s.kids {
      assert FamilyOk(s.vars, s.kids, p);
    }
  }

  /** Two lists with the same entries are the same directory. */
  lemma SameDirectory(s: Store, m: map<(nat, nat), nat>)
    requires WellFormed(s)
    requires forall p: nat, name: nat, x: nat :: Named(s.vars, s.kids, p, name, x) <==> (p, name) in m && m[(p, name)] == x
    ensures Directory(s) == m
  {
    hide WellFormed;
    forall k: (nat, nat)
      ensures k in Directory(s) <==> k in m
      ensures k in m ==> k in Directory(s) && Directory(s)[k] == m[k]
    {
      DirectoryAt(s, k.0, k.1);
      if k in m {
        assert Named(s.vars, s.kids, k.0, k.1, m[k]);
      }
      assert k == (k.0, k.1);
    }
  }

  /** The reverse reading: an entry of the directory is a variable of that name. */
  lemma EntryNamed(s: Store, p: nat, name: nat, x: nat)
    requires WellFormed(s)
    ensures Named(s.vars, s.kids, p, name, x) <==> (p, name) in Directory(s) && Directory(s)[(p, name)] == x
  {
    hide WellFormed;
    DirectoryAt(s, p, name);
  }

  /** Creating a variable adds one entry. */
  lemma CreatedEntry(s: Store, p: nat, name: nat, x: nat, list: seq<nat>)
    requires WellFormed(s) && p in s.objs && p in s.kids && s.objs[p].value.Object? && x !in s.vars && x > 0 && name < NAME_LIMIT
    requires forall y :: !Named(s.vars, s.kids, p, name, y)
    requires list == [x] + s.kids[p] || list == s.kids[p] + [x]
    ensures Directory(NewChild(s, p, name, x, list)) == Directory(s)[(p, name) := x]
  {
    hide WellFormed;
    NewChildOk(s, p, name, x, list);
    var t := NewChild(s, p, name, x, list);
    forall q: nat, n: nat, y: nat
      ensures Named(t.vars, t.kids, q, n, y) <==>
        (q, n) in Directory(s)[(p, name) := x] && Directory(s)[(p, name) := x][(q, n)] == y
    {
      EntryNamed(s, q, n, y);
      ListedAlive(s, q);
    }
    SameDirectory(t, Directory(s)[(p, name) := x]);
  }

  lemma ListedAlive(s: Store, q: nat)
    requires WellFormed(s)
    ensures q in s.kids ==> q in s.objs && forall y :: y in s.kids[q] ==> y in s.vars
  {
    if q in s.kids {
      FamiliesKeys(s);
      AllKidsLive(s, q);
    }
  }

  /** The directory of the objects in `objs` only. */
  ghost function Restricted(m: map<(nat, nat), nat>, objs: set<nat>): map<(nat, nat), nat> {
    map k | k in m && k.0 in objs :: m[k]
  }

  /** Releasing a reference removes the entries of the objects that go, and no others. */
  lemma ReleasedEntries(s: Store, t: Store)
    requires WellFormed(s) && WellFormed(t) && forall q :: q in t.objs ==> Unharmed(s, t, q)
    ensures Directory(t) == Restricted(Directory(s), t.objs.Keys)
  {
    hide WellFormed;
    FamiliesKeys(t);
    forall q: nat, n: nat, y: nat
      ensures Named(t.vars, t.kids, q, n, y) <==>
        var m := Restricted(Directory(s), t.objs.Keys); (q, n) in m && m[(q, n)] == y
    {
      EntryNamed(s, q, n, y);
      if q in t.objs {
        assert Unharmed(s, t, q);
      }
    }
    SameDirectory(t, Restricted(Directory(s), t.objs.Keys));
  }

  /** Removing the child `x` of `p` removes its entry, and those of the objects that go with its reference. */
  lemma RemovedEntry(s: Store, t: Store, p: nat, name: nat, x: nat)
    requires WellFormed(s) && WellFormed(t) && p in s.kids && p in t.kids && p in t.objs && Named(s.vars, s.kids, p, name, x)
    requires forall y :: y in t.kids[p] <==> y in s.kids[p] && y != x
    requires forall y :: y in t.kids[p] ==> y in s.vars && y in t.vars && t.vars[y] == s.vars[y]
    requires forall q :: q in t.objs && q != p ==> Unharmed(s, t, q)
    ensures Directory(t) == Restricted(Directory(s) - {(p, name)}, t.objs.Keys)
  {
    hide WellFormed;
    FamiliesKeys(t);
    EntryNamed(s, p, name, x);
    forall q: nat, n: nat, y: nat
      ensures Named(t.vars, t.kids, q, n, y) <==>
        var m := Restricted(Directory(s) - {(p, name)}, t.objs.Keys); (q, n) in m && m[(q, n)] == y
    {
      EntryNamed(s, q, n, y);
      if q in t.objs && q != p {
        assert Unharmed(s, t, q);
      }
    }
    SameDirectory(t, Restricted(Directory(s) - {(p, name)}, t.objs.Keys));
  }

  // ---------------------------------------------------------------- sizes

  /** Between calls an array's size is the number of its variables, and fits in 16 bits. */
  lemma ArraySize(s: Store, a: nat)
    requires WellFormed(s) && a in s.objs && a in s.kids && s.objs[a].value.Object? && s.objs[a].value.isArray
    requires forall x :: x in s.vars ==> s.vars[x].bucket != 0 && 0 < x < CHILD_SIZE
    ensures s.objs[a].value.size == |s.kids[a]| < 0x10000
  {
    assert ObjectOk(s, a);
    AllKidsLive(s, a);
    var elems := OnRing(s.vars, s.kids[a]);
    UniqueList(s, a);
    hide WellFormed, ObjectOk;
    assert elems == Elements(s.kids[a]);
    UniqueSize(s.kids[a]);
    Bounded(elems, CHILD_SIZE);
  }

  ghost function Elements(k: seq<nat>): set<nat> {
    set x | x in k
  }

  lemma UniqueList(s: Store, a: nat)
    requires WellFormed(s) && a in s.kids
    ensures Unique(s.kids[a])
  {
    assert FamilyOk(s.vars, s.kids, a);
  }

  lemma {:induction false} UniqueSize(k: seq<nat>)
    requires Unique(k)
    ensures |Elements(k)| == |k|
  {
    if k == [] {
      assert Elements(k) == {};
    } else {
      var front := k[..|k| - 1];
      UniqueSize(front);
      assert k == front + [k[|k| - 1]];
      assert Elements(k) == Elements(front) + {k[|k| - 1]};
      assert k[|k| - 1] !in Elements(front);
    }
  }

  lemma {:induction false} Bounded(a: set<nat>, n: nat)
    requires forall x :: x in a ==> x < n
    ensures |a| <= n
  {
    if n == 0 {
      assert a == {};
    } else {
      Bounded(a - {n - 1}, n - 1);
      if n - 1 in a {
        OneMore(a - {n - 1}, a, n - 1);
      } else {
        assert a - {n - 1} == a;
      }
    }
  }

  // ---------------------------------------------------------------- where the references are

  /** The variables that hold references. */
  ghost function Holders(s: Store): set<nat> {
    set x | x in s.vars && x !in s.spent && s.vars[x].value.Pointer?
  }

  /** Those among them that refer to an object in `objs`. */
  ghost function HoldersOf(s: Store, objs: set<nat>): set<nat> {
    set x | x in Holders(s) && s.vars[x].value.obj in objs
  }


  /** The counts of the objects add up to the references held in variables and outside. */
  lemma {:induction false} CountsAreReferences(s: Store, m: Vars)
    requires m.Keys <= s.objs.Keys && forall o :: o in m ==> m[o] == s.objs[o] && o in s.kids && ObjectOk(s, o)
    ensures Weights(m) == |HoldersOf(s, m.Keys)| + RootsIn(s.roots, m.Keys)
    decreases |m|
  {
    hide OnRing;
    if m == map[] {
      assert HoldersOf(s, m.Keys) == {};
    } else {
      var o :| o in m;
      var rest := m - {o};
      WeightAt(m, o);
      CountsAreReferences(s, rest);
      assert rest.Keys == m.Keys - {o};
      assert ObjectOk(s, o);
      assert HoldersOf(s, m.Keys) == HoldersOf(s, rest.Keys) + Referrers(s.vars, s.spent, o);
      assert HoldersOf(s, rest.Keys) !! Referrers(s.vars, s.spent, o);
      RootsAt(s.roots, m.Keys, o);
    }
  }

  ghost function RootsIn(roots: multiset<nat>, objs: set<nat>): nat {
    if objs == {} then 0
    else
      var o :| o in objs;
      roots[o] + RootsIn(roots, objs - {o})
  }

  lemma {:induction false} RootsAt(roots: multiset<nat>, objs: set<nat>, o: nat)
    requires o in objs
    ensures RootsIn(roots, objs) == roots[o] + RootsIn(roots, objs - {o})
    decreases |objs|
  {
    var p :| p in objs && RootsIn(roots, objs) == roots[p] + RootsIn(roots, objs - {p});
    if p != o {
      RootsAt(roots, objs - {p}, o);
      RootsAt(roots, objs - {o}, p);
      assert objs - {p} - {o} == objs - {o} - {p};
    }
  }

  lemma {:induction false} RootsAll(roots: multiset<nat>, objs: set<nat>)
    requires forall o :: o in roots ==> o in objs
    ensures RootsIn(roots, objs) == |roots|
    decreases |objs|
  {
    if objs == {} {
      assert roots == multiset{};
    } else {
      var o :| o in objs;
      RootsAt(roots, objs, o);
      var rest := roots[o := 0];
      assert |roots| == roots[o] + |rest|;
      RootsAll(rest, objs - {o});
      SameRoots(roots, rest, objs - {o});
    }
  }

  lemma {:induction false} SameRoots(roots: multiset<nat>, roots': multiset<nat>, objs: set<nat>)
    requires forall o :: o in objs ==> roots[o] == roots'[o]
    ensures RootsIn(roots, objs) == RootsIn(roots', objs)
    decreases |objs|
  {
    if objs != {} {
      var o :| o in objs;
      RootsAt(roots, objs, o);
      RootsAt(roots', objs, o);
      SameRoots(roots, roots', objs - {o});
    }
  }

  /**
   Conservation: the counter is the number of variables, plus the number of those that hold references,
   plus the number of references held outside.
   */
  lemma TotalIsConserved(s: Store)
    requires WellFormed(s)
    ensures s.total == |s.vars| + |Holders(s)| + |s.roots|
  {
    hide Families, Weights, Holders, Referrers, OnRing, ObjectOk, RootsIn;
    assert Tallied(s);
    CountsAreReferences(s, s.objs);
    RootsAll(s.roots, s.objs.Keys);
    AllHolders(s);
  }

  lemma AllHolders(s: Store)
    requires NoDangling(s)
    ensures HoldersOf(s, s.objs.Keys) == Holders(s)
  {
    assert HoldersOf(s, s.objs.Keys) == Holders(s);
  }
}
