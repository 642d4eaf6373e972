/**
 What can be reached from the references that the caller holds, and why it stays while references are
 released: an object that is being changed must not go in the middle.
 */
module VarReach {
  import opened VarCells
  import opened VarFamilies
  import opened VarStore
  import opened VarRelease

  /** A variable of object `r` refers to object `q`. */
  ghost predicate Refers(s: Store, r: nat, q: nat) {
    r in s.kids && exists y :: y in s.kids[r] && y in s.vars && y !in s.spent && s.vars[y].value == Pointer(q)
  }

  /** `q` is referred to from `roots`, or by way of `n` variables at most, none of them a variable of `a`. */
  ghost predicate Reaches(s: Store, roots: multiset<nat>, a: nat, q: nat, n: nat)
    decreases n
  {
    roots[q] > 0 || (n > 0 && exists r :: r != a && Refers(s, r, q) && Reaches(s, roots, a, r, n - 1))
  }

  /** `q` can be reached from `roots` without the variables of `a`. */
  ghost predicate Anchored(s: Store, roots: multiset<nat>, a: nat, q: nat) {
    exists n: nat :: Reaches(s, roots, a, q, n)
  }

  /** Variable `x` is off its ring or has handed over its reference. */
  ghost predicate Unsettled(s: Store, x: nat) {
    x in s.vars && (s.vars[x].bucket == 0 || x in s.spent)
  }

  /** Every object with an unsettled variable can be reached from `roots` without the variables of `a`. */
  ghost predicate Protected(s: Store, roots: multiset<nat>, a: nat) {
    forall q, x :: q in s.kids && x in s.kids[q] && Unsettled(s, x) ==> Anchored(s, roots, a, q)
  }

  /** The objects left in `t` other than `a` have what they had in `s`, and no more variables that have handed over a reference. */
  ghost predicate Spares(s: Store, t: Store, a: nat) {
    forall q :: q in t.objs && q != a ==> Unharmed(s, t, q) && forall y :: y in s.kids[q] && y in t.spent ==> y in s.spent
  }

  /** What was within reach is still there and within reach. */
  lemma {:induction false} ReachesSurvives(s: Store, t: Store, roots: multiset<nat>, a: nat, q: nat, n: nat)
    requires WellFormed(t) && Spares(s, t, a) && roots <= t.roots && Reaches(s, roots, a, q, n)
    ensures q in t.objs && Reaches(t, roots, a, q, n)
    decreases n
  {
    hide WellFormed, Unharmed;
    if roots[q] > 0 {
      RootLives(t, q);
    } else {
      var r :| r != a && Refers(s, r, q) && Reaches(s, roots, a, r, n - 1);
      ReachesSurvives(s, t, roots, a, r, n - 1);
      RefersSurvives(s, t, a, r, q);
    }
  }

  lemma RefersSurvives(s: Store, t: Store, a: nat, r: nat, q: nat)
    requires WellFormed(t) && Spares(s, t, a) && r != a && r in t.objs && Refers(s, r, q)
    ensures Refers(t, r, q) && q in t.objs
  {
    hide Families, Tallied, ObjectOk;
    assert Unharmed(s, t, r);
    var y :| y in s.kids[r] && y in s.vars && y !in s.spent && s.vars[y].value == Pointer(q);
    assert y in t.kids[r] && y in t.vars && y !in t.spent && t.vars[y].value == Pointer(q);
  }

  lemma AnchoredSurvives(s: Store, t: Store, roots: multiset<nat>, a: nat, q: nat)
    requires WellFormed(t) && Spares(s, t, a) && roots <= t.roots && Anchored(s, roots, a, q)
    ensures q in t.objs && Anchored(t, roots, a, q)
  {
    hide Spares, Reaches;
    var n: nat :| Reaches(s, roots, a, q, n);
    ReachesSurvives(s, t, roots, a, q, n);
  }

  /** With more references, or fewer variables to do without, as much can be reached. */
  lemma {:induction false} ReachesMore(s: Store, roots: multiset<nat>, roots': multiset<nat>, a: nat, q: nat, n: nat)
    requires WellFormed(s) && roots <= roots' && Reaches(s, roots, a, q, n)
    ensures Reaches(s, roots', a, q, n) && Reaches(s, roots', NOBODY, q, n)
    decreases n
  {
    hide WellFormed;
    if roots[q] == 0 {
      var r :| r != a && Refers(s, r, q) && Reaches(s, roots, a, r, n - 1);
      ReachesMore(s, roots, roots', a, r, n - 1);
      FamiliesKeys(s);
      NotNobody(s, r);
    }
  }

  lemma ProtectedMore(s: Store, roots: multiset<nat>, roots': multiset<nat>, a: nat)
    requires WellFormed(s) && roots <= roots' && Protected(s, roots, a)
    ensures Protected(s, roots', a) && Protected(s, roots', NOBODY)
  {
    hide WellFormed, Reaches, Unsettled;
    forall q, x | q in s.kids && x in s.kids[q] && Unsettled(s, x)
      ensures Anchored(s, roots', a, q) && Anchored(s, roots', NOBODY, q)
    {
      var n: nat :| Reaches(s, roots, a, q, n);
      ReachesMore(s, roots, roots', a, q, n);
    }
  }

  /** What is protected stays protected. */
  lemma ProtectedSurvives(s: Store, t: Store, roots: multiset<nat>, a: nat)
    requires WellFormed(t) && Spares(s, t, a) && roots <= t.roots && Protected(s, roots, a)
    requires a in t.kids && (exists x :: x in t.kids[a] && Unsettled(t, x)) ==> Anchored(s, roots, a, a)
    ensures Protected(t, roots, a)
  {
    hide WellFormed, Anchored;
    FamiliesKeys(t);
    forall q, x | q in t.kids && x in t.kids[q] && Unsettled(t, x)
      ensures Anchored(t, roots, a, q)
    {
      if q != a {
        assert Unharmed(s, t, q);
        assert q in s.kids && x in s.kids[q] && Unsettled(s, x);
      }
      AnchoredSurvives(s, t, roots, a, q);
    }
  }

  lemma SurvivorsSpared(s: Store, t: Store, a: nat)
    requires WellFormed(t) && Survives(s, t, a)
    ensures Spares(s, t, a)
  {}

  /** Whatever the caller can reach survives a release, and all that it could be reached by does. */
  lemma ReachableSurvives(s: Store, t: Store, q: nat)
    requires WellFormed(t) && Survives(s, t, NOBODY) && Anchored(s, s.roots, NOBODY, q)
    ensures q in t.objs && Anchored(t, t.roots, NOBODY, q)
  {
    hide Survives, Anchored, WellFormed;
    assert t.roots == s.roots by { SameRoots(s, t); }
    SurvivorsSpared(s, t, NOBODY);
    AnchoredSurvives(s, t, s.roots, NOBODY, q);
  }

  lemma SameRoots(s: Store, t: Store)
    requires Survives(s, t, NOBODY)
    ensures t.roots == s.roots
  {}

  /** A settled list protects everything. */
  lemma SettledProtected(s: Store, roots: multiset<nat>, a: nat)
    requires forall x :: x in s.vars ==> !Unsettled(s, x)
    ensures Protected(s, roots, a)
  {}

  // ---------------------------------------------------------------- the last reference

  /** Nothing but the reference that is given up leads to an object that goes. */
  lemma LastNotReached(s: Store, o: nat, a: nat, q: nat, n: nat)
    requires WellFormed(s) && o in s.objs && s.roots[o] > 0 && s.objs[o].value.Object? && s.objs[o].value.refCount == 0
    requires Reaches(s, s.roots - multiset{o}, a, q, n)
    ensures q != o
  {
    hide Families, Tallied, ObjectOk, NoDangling;
    LastReference(s, o);
    assert (s.roots - multiset{o})[o] == 0;
    if (s.roots - multiset{o})[q] == 0 {
      var r :| r != a && Refers(s, r, q) && Reaches(s, s.roots - multiset{o}, a, r, n - 1);
      var y :| y in s.kids[r] && y in s.vars && y !in s.spent && s.vars[y].value == Pointer(q);
      assert y in Referrers(s.vars, s.spent, q);
    }
  }

  /** So its own variables lead nowhere else. */
  lemma {:induction false} LastLeadsNowhere(s: Store, o: nat, q: nat, n: nat)
    requires WellFormed(s) && o in s.objs && s.roots[o] > 0 && s.objs[o].value.Object? && s.objs[o].value.refCount == 0
    requires Reaches(s, s.roots - multiset{o}, NOBODY, q, n)
    ensures Reaches(s, s.roots - multiset{o}, o, q, n)
    decreases n
  {
    hide WellFormed;
    var roots := s.roots - multiset{o};
    if roots[q] == 0 {
      var r :| r != NOBODY && Refers(s, r, q) && Reaches(s, roots, NOBODY, r, n - 1);
      LastNotReached(s, o, NOBODY, r, n - 1);
      LastLeadsNowhere(s, o, r, n - 1);
    }
  }

  /** An object about to be freed has no unsettled variables, and what is protected does not need its variables. */
  lemma LastIsApart(s: Store, o: nat)
    requires WellFormed(s) && o in s.objs && s.roots[o] > 0 && s.objs[o].value.Object? && s.objs[o].value.refCount == 0
    requires Protected(s, s.roots - multiset{o}, NOBODY)
    ensures Steady(s, o) && Protected(s, s.roots, o)
  {
    hide WellFormed, Reaches, Unsettled;
    var roots := s.roots - multiset{o};
    forall q, x | q in s.kids && x in s.kids[q] && Unsettled(s, x)
      ensures q != o && Anchored(s, roots, o, q)
    {
      var n: nat :| Reaches(s, roots, NOBODY, q, n);
      LastNotReached(s, o, NOBODY, q, n);
      LastLeadsNowhere(s, o, q, n);
    }
    ProtectedMore(s, roots, s.roots, o);
    AllKidsLive(s, o);
    assert forall x :: x in s.kids[o] ==> !Unsettled(s, x);
    SettledIsSteady(s, o);
  }

  lemma SettledIsSteady(s: Store, o: nat)
    requires o in s.kids && forall x :: x in s.kids[o] ==> x in s.vars && !Unsettled(s, x)
    ensures Steady(s, o)
  {}

  // ---------------------------------------------------------------- the steps

  /** The owner of a variable is `p`, and nothing else that is unsettled needs the variables of `p`. */
  ghost predicate Held(s: Store, p: nat) {
    Anchored(s, s.roots, p, p) && Protected(s, s.roots, p)
  }

  /** Handing over the reference in a variable of `p`. */
  lemma HandedOverHeld(s: Store, x: nat, p: nat)
    requires WellFormed(s) && x in s.vars && s.vars[x].value.Pointer? && x !in s.spent && p in s.kids && x in s.kids[p] && Held(s, p)
    ensures var t, o := HandedOver(s, x), s.vars[x].value.obj;
      && WellFormed(t) && t.roots - multiset{o} == s.roots && Protected(t, s.roots, p) && Protected(t, s.roots, NOBODY)
  {
    hide WellFormed, Anchored, Spares, Protected;
    HandedOverOk(s, x);
    HandedOverSpares(s, x, p);
    var t, o := HandedOver(s, x), s.vars[x].value.obj;
    assert t.roots - multiset{o} == s.roots <= t.roots;
    assert p in s.kids;
    ProtectedSurvives(s, t, s.roots, p) by { HeldParts(s, p); }
    ProtectedMore(t, s.roots, s.roots, p);
  }

  lemma HeldParts(s: Store, p: nat)
    requires Held(s, p)
    ensures Anchored(s, s.roots, p, p) && Protected(s, s.roots, p)
  {}

  lemma HandedOverSpares(s: Store, x: nat, p: nat)
    requires WellFormed(s) && x in s.vars && s.vars[x].value.Pointer? && p in s.kids && x in s.kids[p]
    ensures Spares(s, HandedOver(s, x), p)
  {
    hide WellFormed, Unharmed;
    FamiliesKeys(s);
    var t := HandedOver(s, x);
    forall q | q in t.objs && q != p
      ensures Unharmed(s, t, q) && forall y :: y in s.kids[q] && y in t.spent ==> y in s.spent
    {
      UnharmedItself(s, t, q);
      if x in s.kids[q] {
        OneOwner(s, p, q, x);
      }
    }
  }

  lemma UnharmedItself(s: Store, t: Store, q: nat)
    requires WellFormed(s) && q in s.objs && t.objs == s.objs && t.kids == s.kids && t.vars == s.vars
    ensures Unharmed(s, t, q)
  {
    IsObject(s, q);
    AllKidsLive(s, q);
  }

  lemma OneOwner(s: Store, p: nat, q: nat, x: nat)
    requires WellFormed(s) && p in s.kids && q in s.kids && x in s.kids[p] && x in s.kids[q]
    ensures p == q
  {
    hide FamilyOk, ObjectOk, NoDangling, Tallied;
    OneFamily(s.vars, s.kids, p, q, x);
  }

  /** Changing the variables of `p` only, it being within reach without them. */
  lemma HeldSurvives(s: Store, t: Store, p: nat)
    requires WellFormed(t) && Held(s, p) && Survives(s, t, p)
    ensures p in t.objs && Held(t, p)
  {
    hide WellFormed, Anchored, Protected;
    SurvivorsSpared(s, t, p);
    AnchoredSurvives(s, t, s.roots, p, p);
    ProtectedSurvives(s, t, s.roots, p);
  }

  /** A reference added keeps everything protected, and the object it is to within reach. */
  lemma ReferencedHeld(s: Store, o: nat)
    requires WellFormed(s) && o in s.objs && s.objs[o].value.Object? && WellFormed(Referenced(s, o))
    requires Protected(s, s.roots, o) && Steady(s, o)
    ensures Held(Referenced(s, o), o)
  {
    hide WellFormed;
    IsObject(s, o);
    var t := Referenced(s, o);
    forall q | q in t.objs && q != o
      ensures Unharmed(s, t, q) && forall y :: y in s.kids[q] && y in t.spent ==> y in s.spent
    {
      IsObject(s, q);
      AllKidsLive(s, q);
    }
    ProtectedSurvives(s, t, s.roots, o);
    ProtectedMore(t, s.roots, t.roots, o);
    assert Reaches(t, t.roots, o, o, 0);
  }
}
