/**
 The variable list as a reader of scripts sees it: objects with reference counts, their named
 variables in order, and who holds references. What each change to it keeps.
 */
module VarStore {
  import opened BucketRings
  import opened VarCells
  import opened VarFamilies

  /**
   `roots` are the references held outside the list (by the script's stack and the engine); `spent`
   are the variables about to be freed or overwritten whose reference has been handed over to `roots`.
   */
  datatype Store = Store(vars: Vars, objs: Vars, kids: Kids, roots: multiset<nat>, spent: set<nat>, total: int)

  /** The variables that refer to object `o`. */
  ghost function Referrers(v: Vars, spent: set<nat>, o: nat): set<nat> {
    set x | x in v && x !in spent && v[x].value == Pointer(o)
  }

  /** The children in `k` that are still on their rings. */
  ghost function OnRing(v: Vars, k: seq<nat>): set<nat> {
    set x | x in k && x in v && v[x].bucket != 0
  }

  /** The object's record: its kind, count and, for an array, the number of its children on rings. */
  ghost predicate ObjectOk(s: Store, o: nat)
    requires o in s.objs && o in s.kids
  {
    var e := s.objs[o];
    && e.bucket == 0 && e.value.Object?
    && (e.value.isArray ==> e.value.size == |OnRing(s.vars, s.kids[o])|)
    && e.value.refCount + 1 == |Referrers(s.vars, s.spent, o)| + s.roots[o]
  }

  /** Every reference is to an object that exists. */
  ghost predicate NoDangling(s: Store) {
    && (forall x :: x in s.vars && x !in s.spent && s.vars[x].value.Pointer? ==> s.vars[x].value.obj in s.objs)
    && (forall o :: o in s.roots ==> o in s.objs)
    && (forall x :: x in s.spent ==> x in s.vars)
    && (forall x :: x in s.vars ==> !s.vars[x].value.Object?)
  }

  ghost function Weight(e: Entry): nat {
    if e.value.Object? then e.value.refCount + 1 else 1
  }

  ghost function Weights(m: Vars): nat {
    if m == map[] then 0
    else
      var o :| o in m;
      Weight(m[o]) + Weights(m - {o})
  }

  /** The counter of live values and references is exact. */
  ghost predicate Tallied(s: Store) {
    s.total == Weights(s.objs) + |s.vars|
  }

  ghost predicate WellFormed(s: Store) {
    && Families(s.vars, s.kids) && s.objs.Keys == s.kids.Keys
    && (forall o :: o in s.objs ==> ObjectOk(s, o))
    && NoDangling(s) && Tallied(s)
  }

  // ---------------------------------------------------------------- counting

  lemma {:induction false} WeightAt(m: Vars, o: nat)
    requires o in m
    ensures Weights(m) == Weight(m[o]) + Weights(m - {o})
    decreases |m|
  {
    var p :| p in m && Weights(m) == Weight(m[p]) + Weights(m - {p});
    if p != o {
      WeightAt(m - {p}, o);
      WeightAt(m - {o}, p);
      assert m - {p} - {o} == m - {o} - {p};
    }
  }

  lemma WeightSet(m: Vars, o: nat, e: Entry)
    ensures Weights(m[o := e]) == Weight(e) + Weights(m - {o})
  {
    WeightAt(m[o := e], o);
    assert m[o := e] - {o} == m - {o};
  }

  lemma WeightNew(m: Vars, o: nat, e: Entry)
    requires o !in m
    ensures Weights(m[o := e]) == Weight(e) + Weights(m)
  {
    WeightSet(m, o, e);
    assert m - {o} == m;
  }

  lemma WeightChange(m: Vars, o: nat, e: Entry)
    requires o in m
    ensures Weights(m[o := e]) == Weights(m) - Weight(m[o]) + Weight(e)
  {
    WeightSet(m, o, e);
    WeightAt(m, o);
  }

  /** One more or one fewer element. */
  lemma OneMore(a: set<nat>, b: set<nat>, x: nat)
    requires x !in a && b == a + {x}
    ensures |b| == |a| + 1
  {}

  lemma IsObject(s: Store, o: nat)
    requires WellFormed(s) && o in s.objs
    ensures s.objs[o].value.Object?
  {
    hide Families, Weights, Tallied, NoDangling, Referrers, OnRing;
    assert ObjectOk(s, o);
  }

  // ---------------------------------------------------------------- changes

  function WithSize(e: Entry, d: int): Entry
    requires e.value.Object? && (e.value.isArray ==> e.value.size + d >= 0)
  {
    if e.value.isArray then e.(value := e.value.(size := e.value.size + d)) else e
  }

  ghost function NewObject(s: Store, o: nat, name: nat, isArray: bool): Store {
    s.(objs := s.objs[o := Entry(0, name, Object(isArray, 0, 0))], kids := s.kids[o := []],
       roots := s.roots + multiset{o}, total := s.total + 1)
  }

  lemma NewObjectOk(s: Store, o: nat, name: nat, isArray: bool)
    requires WellFormed(s) && o !in s.objs && 0 < o < PARENT_SIZE
    ensures WellFormed(NewObject(s, o, name, isArray))
  {
    hide Families, ObjectOk, Weights;
    var s' := NewObject(s, o, name, isArray);
    ObjectAdded(s.vars, s.kids, o);
    WeightNew(s.objs, o, s'.objs[o]);
    forall q | q in s'.objs
      ensures ObjectOk(s', q)
    {
      NewObjectEach(s, o, name, isArray, q);
    }
  }

  lemma NewObjectEach(s: Store, o: nat, name: nat, isArray: bool, q: nat)
    requires WellFormed(s) && o !in s.objs && 0 < o < PARENT_SIZE && (q == o || q in s.objs)
    ensures ObjectOk(NewObject(s, o, name, isArray), q)
  {
    hide Families, Weights, Tallied;
    assert Referrers(s.vars, s.spent, o) == {};
    assert OnRing(s.vars, []) == {};
    if q != o {
      assert ObjectOk(s, q);
    }
  }

  /** A new, undefined variable `name` of `p`, in slot `x`; `list` are the children then. */
  ghost function NewChild(s: Store, p: nat, name: nat, x: nat, list: seq<nat>): Store
    requires p in s.objs && s.objs[p].value.Object?
  {
    s.(vars := s.vars[x := Entry(BucketOf(p, name), name, Undefined)], kids := s.kids[p := list],
       objs := s.objs[p := WithSize(s.objs[p], 1)], total := s.total + 1)
  }

  lemma NewChildOk(s: Store, p: nat, name: nat, x: nat, list: seq<nat>)
    requires WellFormed(s) && p in s.objs && x !in s.vars && x > 0 && name < NAME_LIMIT
    requires forall y :: !Named(s.vars, s.kids, p, name, y)
    requires list == [x] + s.kids[p] || list == s.kids[p] + [x]
    ensures s.objs[p].value.Object? && WellFormed(NewChild(s, p, name, x, list))
  {
    hide Families, Weights, ObjectOk, Named, BucketOf;
    IsObject(s, p);
    var s' := NewChild(s, p, name, x, list);
    ChildAdded(s.vars, s.kids, p, name, x, list, Undefined);
    WeightChange(s.objs, p, s'.objs[p]);
    assert s'.vars.Keys == s.vars.Keys + {x};
    forall q | q in s'.objs
      ensures ObjectOk(s', q)
    {
      NewChildEach(s, p, name, x, list, q);
    }
  }

  lemma NewChildEach(s: Store, p: nat, name: nat, x: nat, list: seq<nat>, q: nat)
    requires WellFormed(s) && p in s.objs && x !in s.vars && q in s.objs && s.objs[p].value.Object?
    requires list == [x] + s.kids[p] || list == s.kids[p] + [x]
    ensures ObjectOk(NewChild(s, p, name, x, list), q)
  {
    hide Families, Weights, Tallied;
    var s' := NewChild(s, p, name, x, list);
    assert ObjectOk(s, q);
    assert Referrers(s'.vars, s'.spent, q) == Referrers(s.vars, s.spent, q);
    NewChildRing(s, p, name, x, list, q);
  }

  lemma NewChildRing(s: Store, p: nat, name: nat, x: nat, list: seq<nat>, q: nat)
    requires Families(s.vars, s.kids) && p in s.kids && q in s.kids && x !in s.vars
    requires list == [x] + s.kids[p] || list == s.kids[p] + [x]
    ensures var v' := s.vars[x := Entry(BucketOf(p, name), name, Undefined)];
      |OnRing(v', s.kids[p := list][q])| == |OnRing(s.vars, s.kids[q])| + if q == p then 1 else 0
  {
    var v' := s.vars[x := Entry(BucketOf(p, name), name, Undefined)];
    assert FamilyOk(s.vars, s.kids, q) && FamilyOk(s.vars, s.kids, p);
    if q == p {
      assert forall y :: y in list <==> y == x || y in s.kids[p];
      OneMore(OnRing(s.vars, s.kids[p]), OnRing(v', list), x);
    } else {
      assert x !in s.kids[q] by {
        if x in s.kids[q] {
          assert false;
        }
      }
      assert OnRing(v', s.kids[q]) == OnRing(s.vars, s.kids[q]);
    }
  }

  /** The child `x` of `p` is taken off its ring. */
  ghost function TakenOff(s: Store, p: nat, x: nat): Store
    requires p in s.objs && s.objs[p].value.Object? && (s.objs[p].value.isArray ==> s.objs[p].value.size > 0) && x in s.vars
  {
    s.(vars := s.vars[x := s.vars[x].(bucket := 0)], objs := s.objs[p := WithSize(s.objs[p], -1)])
  }

  lemma TakenOffSize(s: Store, p: nat, x: nat)
    requires WellFormed(s) && p in s.objs && x in s.kids[p] && x in s.vars && s.vars[x].bucket != 0
    ensures s.objs[p].value.Object? && (s.objs[p].value.isArray ==> s.objs[p].value.size > 0)
  {
    hide Families, Weights;
    assert ObjectOk(s, p);
    assert x in OnRing(s.vars, s.kids[p]);
  }

  lemma TakenOffOk(s: Store, p: nat, x: nat)
    requires WellFormed(s) && p in s.objs && x in s.kids[p] && x in s.vars && s.vars[x].bucket != 0
    requires s.objs[p].value.Object? && (s.objs[p].value.isArray ==> s.objs[p].value.size > 0)
    ensures WellFormed(TakenOff(s, p, x))
  {
    hide Weights, Families, ObjectOk;
    var s' := TakenOff(s, p, x);
    ChildChanged(s.vars, s.kids, x, s.vars[x].(bucket := 0));
    WeightChange(s.objs, p, s'.objs[p]);
    assert s'.vars.Keys == s.vars.Keys;
    forall q | q in s'.objs
      ensures ObjectOk(s', q)
    {
      TakenOffEach(s, p, x, q);
    }
  }

  lemma OneFamily(v: Vars, k: Kids, p: nat, q: nat, x: nat)
    requires Families(v, k) && p in k && q in k && x in k[p]
    ensures x in k[q] ==> q == p
  {}

  lemma TakenOffEach(s: Store, p: nat, x: nat, q: nat)
    requires WellFormed(s) && p in s.objs && x in s.kids[p] && x in s.vars && s.vars[x].bucket != 0 && q in s.objs
    requires s.objs[p].value.Object? && (s.objs[p].value.isArray ==> s.objs[p].value.size > 0)
    ensures ObjectOk(TakenOff(s, p, x), q)
  {
    hide Weights, Tallied, NoDangling, Families, Referrers, OnRing;
    var s' := TakenOff(s, p, x);
    assert ObjectOk(s, q);
    ReferrersRehomed(s.vars, s.spent, x, q);
    if q == p {
      OnRingLess(s.vars, s.kids[p], x);
    } else {
      OneFamily(s.vars, s.kids, p, q, x);
      OnRingSame(s.vars, s.kids[q], x);
    }
  }

  lemma ReferrersRehomed(v: Vars, spent: set<nat>, x: nat, q: nat)
    requires x in v
    ensures Referrers(v[x := v[x].(bucket := 0)], spent, q) == Referrers(v, spent, q)
  {}

  lemma OnRingLess(v: Vars, k: seq<nat>, x: nat)
    requires x in v && x in k && v[x].bucket != 0
    ensures |OnRing(v, k)| == |OnRing(v[x := v[x].(bucket := 0)], k)| + 1
  {
    OneMore(OnRing(v[x := v[x].(bucket := 0)], k), OnRing(v, k), x);
  }

  lemma OnRingSame(v: Vars, k: seq<nat>, x: nat)
    requires x in v && x !in k
    ensures OnRing(v[x := v[x].(bucket := 0)], k) == OnRing(v, k)
  {}

  /** The reference in variable `x` is handed over. */
  ghost function HandedOver(s: Store, x: nat): Store
    requires x in s.vars && s.vars[x].value.Pointer?
  {
    s.(spent := s.spent + {x}, roots := s.roots + multiset{s.vars[x].value.obj})
  }

  lemma HandedOverOk(s: Store, x: nat)
    requires WellFormed(s) && x in s.vars && s.vars[x].value.Pointer? && x !in s.spent
    ensures WellFormed(HandedOver(s, x))
  {
    hide Families, Weights, ObjectOk;
    var s' := HandedOver(s, x);
    forall q | q in s'.objs
      ensures ObjectOk(s', q)
    {
      HandedOverEach(s, x, q);
    }
  }

  lemma HandedOverEach(s: Store, x: nat, q: nat)
    requires WellFormed(s) && x in s.vars && s.vars[x].value.Pointer? && x !in s.spent && q in s.objs
    ensures ObjectOk(HandedOver(s, x), q)
  {
    hide Families, Weights, Tallied;
    var s' := HandedOver(s, x);
    assert ObjectOk(s, q);
    if q == s.vars[x].value.obj {
      OneMore(Referrers(s'.vars, s'.spent, q), Referrers(s.vars, s.spent, q), x);
    } else {
      assert Referrers(s'.vars, s'.spent, q) == Referrers(s.vars, s.spent, q);
    }
  }

  ghost function WithCount(s: Store, o: nat, d: int): Vars
    requires o in s.objs && s.objs[o].value.Object? && s.objs[o].value.refCount + d >= 0
  {
    s.objs[o := s.objs[o].(value := s.objs[o].value.(refCount := s.objs[o].value.refCount + d))]
  }

  /** One more reference to `o` from outside. */
  ghost function Referenced(s: Store, o: nat): Store
    requires o in s.objs && s.objs[o].value.Object?
  {
    s.(objs := WithCount(s, o, 1), roots := s.roots + multiset{o}, total := s.total + 1)
  }

  /** One fewer, when it is not the last. */
  ghost function Dereferenced(s: Store, o: nat): Store
    requires o in s.objs && s.objs[o].value.Object? && s.objs[o].value.refCount > 0
  {
    s.(objs := WithCount(s, o, -1), roots := s.roots - multiset{o}, total := s.total - 1)
  }

  lemma ReferencedOk(s: Store, o: nat)
    requires WellFormed(s) && o in s.objs
    ensures s.objs[o].value.Object? && WellFormed(Referenced(s, o))
  {
    hide Families, Weights;
    assert ObjectOk(s, o);
    var s' := Referenced(s, o);
    WeightChange(s.objs, o, s'.objs[o]);
    forall q | q in s'.objs
      ensures ObjectOk(s', q)
    {
      assert ObjectOk(s, q);
    }
  }

  lemma DereferencedOk(s: Store, o: nat)
    requires WellFormed(s) && o in s.objs && s.roots[o] > 0
    ensures s.objs[o].value.Object?
    ensures s.objs[o].value.refCount > 0 ==> WellFormed(Dereferenced(s, o))
  {
    hide Families, Weights, ObjectOk, Referrers, OnRing, NoDangling;
    IsObject(s, o);
    if s.objs[o].value.refCount > 0 {
      var s' := Dereferenced(s, o);
      DereferencedDangling(s, o);
      WeightChange(s.objs, o, s'.objs[o]);
      forall q | q in s'.objs
        ensures ObjectOk(s', q)
      {
        DereferencedEach(s, o, q);
      }
    }
  }

  lemma DereferencedDangling(s: Store, o: nat)
    requires NoDangling(s) && o in s.objs && s.objs[o].value.Object? && s.objs[o].value.refCount > 0
    ensures NoDangling(Dereferenced(s, o))
  {
    var s' := Dereferenced(s, o);
    assert s'.objs.Keys == s.objs.Keys;
    forall q | q in s'.roots
      ensures q in s'.objs
    {
      assert q in s.roots;
    }
  }

  lemma DereferencedEach(s: Store, o: nat, q: nat)
    requires WellFormed(s) && o in s.objs && s.roots[o] > 0 && q in s.objs
    requires s.objs[o].value.Object? && s.objs[o].value.refCount > 0
    ensures ObjectOk(Dereferenced(s, o), q)
  {
    hide Families, Weights, Referrers, OnRing, NoDangling, Tallied;
    assert ObjectOk(s, q);
  }

  /** The child at position `i` of `p`, off its ring and holding no reference, is freed. */
  ghost function ChildFreed(s: Store, p: nat, i: nat): Store
    requires p in s.kids && i < |s.kids[p]|
  {
    var x := s.kids[p][i];
    s.(vars := s.vars - {x}, kids := s.kids[p := s.kids[p][..i] + s.kids[p][i + 1..]], spent := s.spent - {x}, total := s.total - 1)
  }

  lemma ChildFreedOk(s: Store, p: nat, i: nat)
    requires WellFormed(s) && p in s.kids && i < |s.kids[p]|
    requires var x := s.kids[p][i];
      x in s.vars && s.vars[x].bucket == 0 && (s.vars[x].value.Pointer? ==> x in s.spent)
    ensures WellFormed(ChildFreed(s, p, i))
  {
    hide Weights, Families, ObjectOk;
    var s', x := ChildFreed(s, p, i), s.kids[p][i];
    ChildRemoved(s.vars, s.kids, p, x, i);
    assert s'.vars.Keys == s.vars.Keys - {x};
    forall q | q in s'.objs
      ensures ObjectOk(s', q)
    {
      ChildFreedEach(s, p, i, q);
    }
  }

  lemma ChildFreedEach(s: Store, p: nat, i: nat, q: nat)
    requires WellFormed(s) && p in s.kids && i < |s.kids[p]| && q in s.objs
    requires var x := s.kids[p][i];
      x in s.vars && s.vars[x].bucket == 0 && (s.vars[x].value.Pointer? ==> x in s.spent)
    ensures ObjectOk(ChildFreed(s, p, i), q)
  {
    hide Weights, Tallied, FamilyOk, Unique, Referrers, OnRing;
    var s', x := ChildFreed(s, p, i), s.kids[p][i];
    assert FamilyOk(s.vars, s.kids, p);
    UniqueFamily(s.vars, s.kids, p);
    ListRemoved(s.kids[p], i);
    assert ObjectOk(s, q);
    hide Families;
    ReferrersWithout(s.vars, s.spent, x, q);
    OnRingWithout(s.vars, s.kids[q], s'.kids[q], x);
  }

  lemma ReferrersWithout(v: Vars, spent: set<nat>, x: nat, q: nat)
    requires x in v && (v[x].value.Pointer? ==> x in spent)
    ensures Referrers(v - {x}, spent - {x}, q) == Referrers(v, spent, q)
  {}

  lemma OnRingWithout(v: Vars, k: seq<nat>, k': seq<nat>, x: nat)
    requires x in v && v[x].bucket == 0 && forall y :: y != x ==> (y in k' <==> y in k)
    ensures OnRing(v - {x}, k') == OnRing(v, k)
  {
    forall y
      ensures y in OnRing(v - {x}, k') <==> y in OnRing(v, k)
    {}
  }

  lemma UniqueFamily(v: Vars, k: Kids, p: nat)
    requires FamilyOk(v, k, p)
    ensures Unique(k[p])
  {}

  /** The last reference to an object without children goes, and the object with it. */
  ghost function ObjectFreed(s: Store, o: nat): Store {
    s.(objs := s.objs - {o}, kids := s.kids - {o}, roots := s.roots - multiset{o}, total := s.total - 1)
  }

  lemma ObjectFreedOk(s: Store, o: nat)
    requires WellFormed(s) && o in s.objs && s.kids[o] == [] && s.roots[o] > 0
    requires s.objs[o].value.Object? && s.objs[o].value.refCount == 0
    ensures WellFormed(ObjectFreed(s, o))
    ensures s.roots[o] == 1 && Referrers(s.vars, s.spent, o) == {}
  {
    hide Families, Weights, ObjectOk, NoDangling, Referrers;
    LastReference(s, o);
    var s' := ObjectFreed(s, o);
    ObjectRemoved(s.vars, s.kids, o);
    WeightAt(s.objs, o);
    ObjectFreedDangling(s, o);
    forall q | q in s'.objs
      ensures ObjectOk(s', q)
    {
      ObjectFreedEach(s, o, q);
    }
  }

  lemma ReferringAt(s: Store, x: nat)
    requires x in s.vars && x !in s.spent && s.vars[x].value.Pointer?
    ensures x in Referrers(s.vars, s.spent, s.vars[x].value.obj)
  {}

  lemma ObjectFreedDangling(s: Store, o: nat)
    requires NoDangling(s) && s.roots[o] == 1 && Referrers(s.vars, s.spent, o) == {}
    ensures NoDangling(ObjectFreed(s, o))
  {
    var s' := ObjectFreed(s, o);
    forall x | x in s'.vars && x !in s'.spent && s'.vars[x].value.Pointer?
      ensures s'.vars[x].value.obj in s'.objs
    {
      ReferringAt(s, x);
    }
    forall q | q in s'.roots
      ensures q in s'.objs
    {
      assert q == o ==> s'.roots[o] == 0;
    }
  }

  /** When the count is 0, the one reference from outside is the only one. */
  lemma LastReference(s: Store, o: nat)
    requires WellFormed(s) && o in s.objs && s.roots[o] > 0
    ensures s.objs[o].value.Object?
    ensures s.objs[o].value.refCount == 0 ==> s.roots[o] == 1 && Referrers(s.vars, s.spent, o) == {}
  {
    hide Families, Weights, NoDangling, Tallied;
    assert ObjectOk(s, o);
  }

  lemma ObjectFreedEach(s: Store, o: nat, q: nat)
    requires WellFormed(s) && o in s.objs && q in s.objs && q != o
    ensures ObjectOk(ObjectFreed(s, o), q)
  {
    hide Families, Weights, Referrers, OnRing, NoDangling, Tallied;
    assert ObjectOk(s, q);
  }

  /** A variable gets a new value; a reference in it moves in from outside. */
  ghost function Assigned(s: Store, x: nat, value: Value): Store
    requires x in s.vars
  {
    s.(vars := s.vars[x := s.vars[x].(value := value)], spent := s.spent - {x},
       roots := if value.Pointer? then s.roots - multiset{value.obj} else s.roots)
  }

  /** The variable holds no reference any more: it never did, or it has been handed over. */
  lemma AssignedOk(s: Store, x: nat, value: Value)
    requires WellFormed(s) && x in s.vars && (s.vars[x].value.Pointer? ==> x in s.spent) && !value.Object?
    requires value.Pointer? ==> s.roots[value.obj] > 0
    ensures WellFormed(Assigned(s, x, value))
  {
    hide Families, Weights, ObjectOk;
    var s' := Assigned(s, x, value);
    ChildChanged(s.vars, s.kids, x, s.vars[x].(value := value));
    assert s'.vars.Keys == s.vars.Keys;
    forall q | q in s'.objs
      ensures ObjectOk(s', q)
    {
      AssignedEach(s, x, value, q);
    }
  }

  lemma AssignedEach(s: Store, x: nat, value: Value, q: nat)
    requires WellFormed(s) && x in s.vars && (s.vars[x].value.Pointer? ==> x in s.spent) && q in s.objs
    requires value.Pointer? ==> s.roots[value.obj] > 0
    ensures ObjectOk(Assigned(s, x, value), q)
  {
    hide Families, Weights, Tallied;
    var s' := Assigned(s, x, value);
    assert ObjectOk(s, q);
    assert OnRing(s'.vars, s'.kids[q]) == OnRing(s.vars, s.kids[q]);
    if value == Pointer(q) {
      OneMore(Referrers(s.vars, s.spent, q), Referrers(s'.vars, s'.spent, q), x);
    } else {
      assert Referrers(s'.vars, s'.spent, q) == Referrers(s.vars, s.spent, q);
    }
  }
}
