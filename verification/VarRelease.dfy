/** What giving up a reference does to the variable list: whole objects go, the others keep everything. */
module VarRelease {
  import opened VarCells
  import opened VarFamilies
  import opened VarStore

  /** How many variables are on rings; what the recursion of releases runs down. */
  ghost function RingCount(v: Vars): nat {
    |RingSet(v)|
  }

  ghost function RingSet(v: Vars): set<nat> {
    set x | x in v && v[x].bucket != 0
  }

  /** Object `q` has in `t` the children it had in `s`, with the same names, values and places. */
  ghost predicate Unharmed(s: Store, t: Store, q: nat) {
    && q in s.objs && q in t.objs && q in s.kids && q in t.kids && t.kids[q] == s.kids[q]
    && s.objs[q].value.Object? && t.objs[q].value.Object?
    && t.objs[q].value.isArray == s.objs[q].value.isArray && t.objs[q].value.size == s.objs[q].value.size
    && forall x :: x in s.kids[q] ==> x in s.vars && x in t.vars && t.vars[x] == s.vars[x]
  }

  /** The objects left in `t`, other than `p`, are unharmed; variables and references given up go only with objects. */
  ghost predicate Survives(s: Store, t: Store, p: nat) {
    && (forall q :: q in t.objs && q != p ==> Unharmed(s, t, q))
    && t.roots == s.roots && t.spent == s.spent
    && RingCount(t.vars) <= RingCount(s.vars)
  }

  /** All children of `p` are on their rings and have what references they hold. */
  ghost predicate Steady(s: Store, p: nat) {
    p in s.kids && forall x :: x in s.kids[p] ==> x in s.vars && s.vars[x].bucket != 0 && x !in s.spent
  }

  /** `p` is no object's number, for when no object is set apart. */
  const NOBODY: nat := 0

  lemma SurvivesTrans(s: Store, t: Store, u: Store, p: nat)
    requires Survives(s, t, p) && Survives(t, u, p)
    ensures Survives(s, u, p)
  {
    hide RingCount;
    forall q | q in u.objs && q != p
      ensures Unharmed(s, u, q)
    {
      assert Unharmed(t, u, q);
      assert Unharmed(s, t, q);
    }
  }

  lemma SurvivesRefl(s: Store, p: nat)
    requires WellFormed(s)
    ensures Survives(s, s, p)
  {
    hide RingCount;
    forall q | q in s.objs && q != p
      ensures Unharmed(s, s, q)
    {
      IsObject(s, q);
      AllKidsLive(s, q);
    }
  }

  lemma AllKidsLive(s: Store, q: nat)
    requires WellFormed(s) && q in s.objs
    ensures q in s.kids && forall x :: x in s.kids[q] ==> x in s.vars
  {
    assert FamilyOk(s.vars, s.kids, q);
    hide Families, NoDangling, Tallied, ObjectOk;
    forall x | x in s.kids[q]
      ensures x in s.vars
    {
      assert ChildOk(s.vars, q, x);
    }
  }

  /** Objects referred to from outside exist. */
  lemma RootLives(s: Store, o: nat)
    requires WellFormed(s) && s.roots[o] > 0
    ensures o in s.objs && o in s.kids && s.objs[o].value.Object?
  {
    hide Families, Tallied, ObjectOk;
    assert o in s.roots;
    IsObject(s, o);
  }

  // ---------------------------------------------------------------- the steps

  lemma RingFewer(v: Vars, v': Vars, x: nat)
    requires RingSet(v') == RingSet(v) - {x}
    ensures RingCount(v') <= RingCount(v) && (x in RingSet(v) ==> RingCount(v') < RingCount(v))
  {
    if x in RingSet(v) {
      OneMore(RingSet(v'), RingSet(v), x);
    } else {
      assert RingSet(v') == RingSet(v);
    }
  }

  /** Taking a child off its ring. */
  lemma TakenOffSurvives(s: Store, p: nat, x: nat)
    requires WellFormed(s) && p in s.objs && x in s.kids[p] && x in s.vars && s.vars[x].bucket != 0
    requires s.objs[p].value.Object? && (s.objs[p].value.isArray ==> s.objs[p].value.size > 0)
    ensures var t := TakenOff(s, p, x);
      Survives(s, t, p) && RingCount(t.vars) < RingCount(s.vars)
  {
    hide Tallied, ObjectOk, NoDangling, FamilyOk, RingCount;
    var t := TakenOff(s, p, x);
    assert RingSet(t.vars) == RingSet(s.vars) - {x};
    RingFewer(s.vars, t.vars, x);
    assert x in RingSet(s.vars);
    forall q | q in t.objs && q != p
      ensures Unharmed(s, t, q)
    {
      IsObject(s, q);
      AllKidsLive(s, q);
      OneFamily(s.vars, s.kids, p, q, x);
    }
  }

  /** Freeing a child that is off its ring. */
  lemma ChildFreedSurvives(s: Store, p: nat, i: nat)
    requires WellFormed(s) && p in s.objs && p in s.kids && i < |s.kids[p]| && s.kids[p][i] in s.vars
    ensures var t, x := ChildFreed(s, p, i), s.kids[p][i];
      && (forall q :: q in t.objs && q != p ==> Unharmed(s, t, q))
      && RingCount(t.vars) <= RingCount(s.vars)
      && (forall y :: y in t.kids[p] ==> y in s.kids[p] && y in s.vars && y in t.vars && t.vars[y] == s.vars[y])
  {
    hide Tallied, ObjectOk, NoDangling, FamilyOk, RingCount, RingSet, Unique, Unharmed, OnRing;
    var t, x := ChildFreed(s, p, i), s.kids[p][i];
    FewerRings(s.vars, x);
    assert FamilyOk(s.vars, s.kids, p);
    UniqueFamily(s.vars, s.kids, p);
    ListRemoved(s.kids[p], i);
    AllKidsLive(s, p);
    forall q | q in t.objs && q != p
      ensures Unharmed(s, t, q)
    {
      ChildFreedUnharmed(s, p, i, q);
    }
  }

  lemma FewerRings(v: Vars, x: nat)
    requires x in v
    ensures RingCount(v - {x}) <= RingCount(v)
  {
    assert RingSet(v - {x}) == RingSet(v) - {x};
    RingFewer(v, v - {x}, x);
  }

  lemma ChildFreedUnharmed(s: Store, p: nat, i: nat, q: nat)
    requires WellFormed(s) && p in s.kids && i < |s.kids[p]| && q in s.objs && q != p
    ensures Unharmed(s, ChildFreed(s, p, i), q)
  {
    hide Tallied, ObjectOk, NoDangling, FamilyOk, Unique, OnRing;
    IsObject(s, q);
    AllKidsLive(s, q);
    OneFamily(s.vars, s.kids, p, q, s.kids[p][i]);
  }

  /** One reference fewer, not the last. */
  lemma DereferencedSurvives(s: Store, o: nat)
    requires WellFormed(s) && o in s.objs && s.roots[o] > 0
    requires s.objs[o].value.Object? && s.objs[o].value.refCount > 0
    ensures var t := Dereferenced(s, o);
      && Survives(s.(roots := s.roots - multiset{o}), t, NOBODY) && o in t.objs
  {
    hide Tallied, ObjectOk, NoDangling, Families, RingCount;
    var t := Dereferenced(s, o);
    forall q | q in t.objs
      ensures Unharmed(s.(roots := s.roots - multiset{o}), t, q)
    {
      IsObject(s, q);
      AllKidsLive(s, q);
    }
  }

  /** A childless object goes with its last reference. */
  lemma ObjectFreedSurvives(s: Store, o: nat)
    requires WellFormed(s) && o in s.objs && s.roots[o] == 1 && s.kids[o] == []
    ensures var t := ObjectFreed(s, o);
      Survives(s.(roots := s.roots - multiset{o}), t, NOBODY) && o !in t.objs
  {
    hide Tallied, ObjectOk, NoDangling, Families, RingCount;
    var t := ObjectFreed(s, o);
    forall q | q in t.objs
      ensures Unharmed(s.(roots := s.roots - multiset{o}), t, q)
    {
      IsObject(s, q);
      AllKidsLive(s, q);
    }
  }

  /** One reference more. */
  lemma ReferencedSurvives(s: Store, o: nat)
    requires WellFormed(s) && o in s.objs && s.objs[o].value.Object?
    ensures Survives(s.(roots := s.roots + multiset{o}), Referenced(s, o), NOBODY)
  {
    hide Tallied, ObjectOk, NoDangling, Families, RingCount;
    var t := Referenced(s, o);
    forall q | q in t.objs
      ensures Unharmed(s.(roots := s.roots + multiset{o}), t, q)
    {
      IsObject(s, q);
      AllKidsLive(s, q);
    }
  }

  /** `p` itself is still there, with the same kind and children list `list`; those children are unharmed. */
  ghost predicate Trimmed(s: Store, t: Store, p: nat, list: seq<nat>) {
    && p in t.objs && p in t.kids && p in s.objs && t.kids[p] == list
    && s.objs[p].value.Object? && t.objs[p].value.Object? && t.objs[p].value.isArray == s.objs[p].value.isArray
    && forall y :: y in list ==> y in s.vars && y in t.vars && t.vars[y] == s.vars[y]
  }

  /** Releasing the reference of child `x` at position `j` of `p`, then freeing it. */
  lemma ReleasedThenFreed(s: Store, u: Store, p: nat, j: nat, handed: bool)
    requires WellFormed(s) && WellFormed(u) && p in s.kids && p in s.objs && j < |s.kids[p]| && p in u.objs
    requires var x := s.kids[p][j];
      && x in s.vars && s.vars[x].bucket == 0 && x !in s.spent && (s.vars[x].value.Pointer? <==> handed)
    requires if handed then Survives(s.(spent := s.spent + {s.kids[p][j]}), u, NOBODY) else u == s
    ensures p in u.kids && u.kids[p] == s.kids[p]
    ensures var x := s.kids[p][j];
      x in u.vars && u.vars[x] == s.vars[x] && (u.vars[x].value.Pointer? ==> x in u.spent)
    ensures var t := ChildFreed(u, p, j);
      Survives(s, t, p) && Trimmed(s, t, p, s.kids[p][..j] + s.kids[p][j + 1..])
  {
    hide Families, Tallied, NoDangling, ObjectOk, RingCount;
    var x := s.kids[p][j];
    assert x in s.kids[p];
    FamiliesKeys(u);
    IsObject(u, p);
    NotNobody(u, p);
    IsObject(s, p);
    AllKidsLive(s, p);
    if handed {
      assert Unharmed(s.(spent := s.spent + {x}), u, p);
    }
    ChildFreedSurvives(u, p, j);
    var t := ChildFreed(u, p, j);
    forall q | q in t.objs && q != p
      ensures Unharmed(s, t, q)
    {
      assert Unharmed(u, t, q);
      if handed {
        NotNobody(u, q);
        assert Unharmed(s.(spent := s.spent + {x}), u, q);
      }
    }
    assert t.spent == s.spent;
  }

  /** The reference in `x`, if there is one, is not the last one to its object. */
  ghost predicate NotTheLast(s: Store, x: nat) {
    x in s.vars && (s.vars[x].value.Pointer? ==>
      var o := s.vars[x].value.obj; o in s.objs && s.objs[o].value.Object? && s.objs[o].value.refCount > 0)
  }

  /** What giving up a reference that is not a last one leaves. */
  ghost function GivenUp(s: Store, x: nat): Store
    requires NotTheLast(s, x)
  {
    if s.vars[x].value.Pointer? then Dereferenced(HandedOver(s, x), s.vars[x].value.obj) else s
  }

  /** As `ReleasedThenFreed` where no object goes, so that no one needs to hold a reference to `p`. */
  lemma GivenUpThenFreed(s: Store, p: nat, j: nat)
    requires WellFormed(s) && p in s.kids && p in s.objs && j < |s.kids[p]| && NotTheLast(s, s.kids[p][j]) && s.kids[p][j] !in s.spent
    requires WellFormed(GivenUp(s, s.kids[p][j]))
    ensures var x, u := s.kids[p][j], GivenUp(s, s.kids[p][j]);
      && u.kids == s.kids && u.vars == s.vars && p in u.objs && (u.vars[x].value.Pointer? ==> x in u.spent)
    ensures var t := ChildFreed(GivenUp(s, s.kids[p][j]), p, j);
      Survives(s, t, p) && Trimmed(s, t, p, s.kids[p][..j] + s.kids[p][j + 1..])
  {
    hide Families, Tallied, NoDangling, ObjectOk, RingCount, Unharmed;
    var x := s.kids[p][j];
    var u := GivenUp(s, x);
    var t := ChildFreed(u, p, j);
    FewerRings(s.vars, x);
    IsObject(s, p);
    IsObject(u, p);
    AllKidsLive(s, p);
    FamiliesKeys(s);
    assert Unique(s.kids[p]) by { FamilyOf(s, p); }
    ListRemoved(s.kids[p], j);
    assert t.roots == s.roots;
    forall q | q in t.objs && q != p
      ensures Unharmed(s, t, q)
    {
      IsObject(s, q);
      AllKidsLive(s, q);
      ChildFreedUnharmed(u, p, j, q);
      GivenUpUnharmed(s, x, t, q);
    }
  }

  lemma FamilyOf(s: Store, p: nat)
    requires WellFormed(s) && p in s.kids
    ensures Unique(s.kids[p])
  {
    assert FamilyOk(s.vars, s.kids, p);
  }

  /** A count that goes down harms no object. */
  lemma GivenUpUnharmed(s: Store, x: nat, t: Store, q: nat)
    requires NotTheLast(s, x) && q in s.objs && s.objs[q].value.Object? && Unharmed(GivenUp(s, x), t, q)
    ensures Unharmed(s, t, q)
  {}

  lemma NotNobody(s: Store, q: nat)
    requires WellFormed(s) && q in s.objs
    ensures q != NOBODY
  {
    assert FamilyOk(s.vars, s.kids, q);
  }

  /** No one refers to an object that has been cleared before its last reference goes. */
  lemma ClearedUnreferenced(s: Store, t: Store, o: nat)
    requires WellFormed(s) && WellFormed(t) && Survives(s, t, o) && o in t.kids && t.kids[o] == []
    requires Referrers(s.vars, s.spent, o) == {}
    ensures Referrers(t.vars, t.spent, o) == {}
  {
    hide WellFormed, Survives;
    ClearedReferrers(s, t, o);
  }

  lemma ClearedReferrers(s: Store, t: Store, o: nat)
    requires WellFormed(s) && WellFormed(t) && Survives(s, t, o) && o in t.kids && t.kids[o] == []
    ensures Referrers(t.vars, t.spent, o) <= Referrers(s.vars, s.spent, o)
  {
    forall x | x in Referrers(t.vars, t.spent, o)
      ensures x in Referrers(s.vars, s.spent, o)
    {
      KidOfSome(t, x);
      var q :| q in t.kids && x in t.kids[q];
      FamiliesKeys(t);
      assert q != o;
      assert Unharmed(s, t, q);
    }
  }

  lemma KidOfSome(s: Store, x: nat)
    requires WellFormed(s) && x in s.vars
    ensures exists q :: q in s.kids && x in s.kids[q]
  {
    hide ObjectOk, NoDangling, Tallied, FamilyOk;
  }

  lemma FamiliesKeys(s: Store)
    requires WellFormed(s)
    ensures s.objs.Keys == s.kids.Keys
  {}

  lemma NoReferrersCount(s: Store, o: nat)
    requires WellFormed(s) && o in s.objs && Referrers(s.vars, s.spent, o) == {} && s.roots[o] == 1
    ensures s.objs[o].value.Object? && s.objs[o].value.refCount == 0
  {
    hide Families, NoDangling, Tallied;
    assert ObjectOk(s, o);
  }

  /** After the old reference of `x` is released `x` is still there, and can take the new value. */
  lemma ReleasedThenAssigned(s: Store, u: Store, x: nat, value: Value)
    requires WellFormed(s) && WellFormed(u) && x in s.vars && x !in s.spent && !value.Object?
    requires forall q :: q in s.kids && x in s.kids[q] ==> q in u.objs
    requires value.Pointer? ==> s.roots[value.obj] > 0
    requires if s.vars[x].value.Pointer? then Survives(s.(spent := s.spent + {x}), u, NOBODY) else u == s
    ensures x in u.vars && u.vars[x] == s.vars[x] && (u.vars[x].value.Pointer? ==> x in u.spent) && u.roots == s.roots
    ensures Survives(Assigned(s, x, value), Assigned(u, x, value), NOBODY)
  {
    hide WellFormed, RingCount, Unharmed;
    ReleasedLeaves(s, u, x);
    assert u.roots == s.roots && RingCount(u.vars) <= RingCount(s.vars);
    AssignedRings(s, x, value);
    AssignedRings(u, x, value);
    var s', t := Assigned(s, x, value), Assigned(u, x, value);
    forall q | q in t.objs
      ensures Unharmed(s', t, q)
    {
      AssignedUnharmed(s, u, x, value, q);
    }
    assert t.spent == s'.spent;
  }

  /** What is left once the reference of `x`, if it held one, has been released. */
  lemma ReleasedLeaves(s: Store, u: Store, x: nat)
    requires WellFormed(s) && WellFormed(u) && x in s.vars && x !in s.spent
    requires forall q :: q in s.kids && x in s.kids[q] ==> q in u.objs
    requires if s.vars[x].value.Pointer? then Survives(s.(spent := s.spent + {x}), u, NOBODY) else u == s
    ensures x in u.vars && u.vars[x] == s.vars[x] && forall q :: q in u.objs ==> Unharmed(s, u, q)
  {
    hide Families, Tallied, NoDangling, ObjectOk, RingCount;
    if s.vars[x].value.Pointer? {
      KidOfSome(s, x);
      var p :| p in s.kids && x in s.kids[p];
      NotNobody(u, p);
      var gone := s.(spent := s.spent + {x});
      assert Unharmed(gone, u, p);
      forall q | q in u.objs
        ensures Unharmed(s, u, q)
      {
        NotNobody(u, q);
        assert Unharmed(gone, u, q);
      }
    } else {
      SurvivesRefl(s, NOBODY);
      forall q | q in u.objs
        ensures Unharmed(s, u, q)
      {
        NotNobody(u, q);
      }
    }
  }

  lemma AssignedUnharmed(s: Store, u: Store, x: nat, value: Value, q: nat)
    requires x in s.vars && x in u.vars && u.vars[x] == s.vars[x] && Unharmed(s, u, q)
    ensures Unharmed(Assigned(s, x, value), Assigned(u, x, value), q)
  {}

  lemma AssignedRings(s: Store, x: nat, value: Value)
    requires x in s.vars
    ensures RingCount(Assigned(s, x, value).vars) == RingCount(s.vars)
  {
    hide RingCount;
    assert RingSet(Assigned(s, x, value).vars) == RingSet(s.vars);
    SameRings(Assigned(s, x, value).vars, s.vars);
  }

  lemma SameRings(v: Vars, v': Vars)
    requires RingSet(v) == RingSet(v')
    ensures RingCount(v) == RingCount(v')
  {}
}
