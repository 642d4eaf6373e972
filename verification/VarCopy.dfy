/** Copying arrays: arrays are values, so nested arrays are copied too, while objects are shared. */
module VarCopy {
  import opened VarCells
  import opened VarFamilies
  import opened VarStore
  import opened VarRelease

  ghost predicate IsArray(s: Store, a: nat) {
    a in s.objs && a in s.kids && s.objs[a].value.Object? && s.objs[a].value.isArray
  }

  ghost predicate RefersToArray(s: Store, v: Value) {
    v.Pointer? && IsArray(s, v.obj)
  }

  /** Arrays nest without cycles: below each array of `rank` are only arrays of smaller rank. */
  ghost predicate Acyclic(s: Store, rank: map<nat, nat>) {
    forall a :: a in rank ==> IsArray(s, a) && NestsBelow(s, rank, a)
  }

  ghost predicate NestsBelow(s: Store, rank: map<nat, nat>, a: nat)
    requires a in s.kids && a in rank
  {
    forall x :: x in s.kids[a] && x in s.vars && RefersToArray(s, s.vars[x].value) ==>
      s.vars[x].value.obj in rank && rank[s.vars[x].value.obj] < rank[a]
  }

  /**
   Array `b` holds a deep copy of array `a`: the same names, in the opposite order, with equal values
   and the same objects, but with copies of nested arrays. None of the copies is in `kept`.
   */
  ghost predicate Mirrors(s: Store, a: nat, b: nat, d: nat, kept: set<nat>)
    decreases d, 1
  {
    && IsArray(s, a) && IsArray(s, b) && b !in kept && |s.kids[b]| == |s.kids[a]|
    && forall j: nat :: j < |s.kids[a]| ==> ItemMirrors(s, s.kids[a][j], s.kids[b][|s.kids[a]| - 1 - j], d, kept)
  }

  ghost predicate ItemMirrors(s: Store, x: nat, y: nat, d: nat, kept: set<nat>)
    decreases d, 0
  {
    && x in s.vars && y in s.vars && s.vars[y].name == s.vars[x].name
    && var v, w := s.vars[x].value, s.vars[y].value;
      if RefersToArray(s, v) then d > 0 && w.Pointer? && Mirrors(s, v.obj, w.obj, d - 1, kept) else w == v
  }

  /** The first `i` items of `a` have been copied to `n`. */
  ghost predicate MirrorsUpTo(s: Store, a: nat, n: nat, i: nat, d: nat, kept: set<nat>) {
    && IsArray(s, a) && IsArray(s, n) && i <= |s.kids[a]| && |s.kids[n]| == i
    && forall j: nat :: j < i ==> ItemMirrors(s, s.kids[a][j], s.kids[n][i - 1 - j], d, kept)
  }

  /** In `t` there is all that was in `s`; only `n` may have more children; the new objects are unshared arrays. */
  ghost predicate Extends(s: Store, t: Store, n: nat) {
    && t.roots == s.roots && t.spent == s.spent
    && (forall x :: x in s.vars ==> x in t.vars && t.vars[x] == s.vars[x])
    && (forall q :: q in s.objs ==> Grown(s, t, n, q))
    && (forall q :: q in t.objs && q !in s.objs ==> IsArray(t, q) && t.objs[q].value.refCount == 0 && t.roots[q] == 0)
    && (forall x :: x in t.vars ==> t.vars[x].bucket != 0)
  }

  /** Object `q` is kept, an array also with its count; except for `n` its children are too. */
  ghost predicate Grown(s: Store, t: Store, n: nat, q: nat) {
    && q in s.objs && q in t.objs && q in s.kids && q in t.kids && s.objs[q].value.Object? && t.objs[q].value.Object?
    && t.objs[q].value.isArray == s.objs[q].value.isArray
    && (s.objs[q].value.isArray ==> t.objs[q].value.refCount == s.objs[q].value.refCount)
    && (q != n ==> t.kids[q] == s.kids[q]) && (forall x :: x in s.kids[q] ==> x in s.vars)
  }

  lemma ExtendsTrans(s: Store, t: Store, u: Store, n: nat)
    requires Extends(s, t, n) && Extends(t, u, n)
    ensures Extends(s, u, n)
  {
    forall q | q in s.objs
      ensures Grown(s, u, n, q)
    {
      assert Grown(s, t, n, q);
      assert Grown(t, u, n, q);
    }
    forall q | q in u.objs && q !in s.objs
      ensures IsArray(u, q) && u.objs[q].value.refCount == 0 && u.roots[q] == 0
    {
      if q in t.objs {
        assert Grown(t, u, n, q);
      }
    }
  }

  lemma ExtendsRefl(s: Store, n: nat)
    requires WellFormed(s) && forall x :: x in s.vars ==> s.vars[x].bucket != 0
    ensures Extends(s, s, n)
  {
    forall q | q in s.objs
      ensures Grown(s, s, n, q)
    {
      IsObject(s, q);
      AllKidsLive(s, q);
    }
  }

  /** Pointers to arrays stay pointers to arrays. */
  lemma SameKind(s: Store, t: Store, n: nat, v: Value)
    requires Extends(s, t, n) && (v.Pointer? ==> v.obj in s.objs && v.obj in s.kids)
    ensures RefersToArray(t, v) <==> RefersToArray(s, v)
  {
    if v.Pointer? {
      assert Grown(s, t, n, v.obj);
    }
  }

  lemma AcyclicKept(s: Store, t: Store, n: nat, rank: map<nat, nat>)
    requires WellFormed(s) && AllHanded(s, rank) && Extends(s, t, n) && Acyclic(s, rank) && n !in rank
    ensures Acyclic(t, rank)
  {
    hide WellFormed;
    forall a | a in rank
      ensures IsArray(t, a) && NestsBelow(t, rank, a)
    {
      assert IsArray(s, a) && NestsBelow(s, rank, a) && Grown(s, t, n, a);
      forall x | x in t.kids[a] && x in t.vars && RefersToArray(t, t.vars[x].value)
        ensures t.vars[x].value.obj in rank && rank[t.vars[x].value.obj] < rank[a]
      {
        assert t.vars[x] == s.vars[x];
        SameKind(s, t, n, s.vars[x].value);
      }
    }
  }

  /** What the arrays of `rank` refer to exists. */
  ghost predicate AllHanded(s: Store, rank: map<nat, nat>) {
    forall a, x :: a in rank && a in s.kids && x in s.kids[a] && x in s.vars && s.vars[x].value.Pointer? ==>
      s.vars[x].value.obj in s.objs && s.vars[x].value.obj in s.kids
  }

  lemma HandedAll(s: Store, rank: map<nat, nat>)
    requires WellFormed(s)
    requires forall a, x :: a in rank && a in s.kids && x in s.kids[a] ==> x !in s.spent
    ensures AllHanded(s, rank)
  {
    hide Families, ObjectOk, Tallied;
  }

  /** Copies that are complete stay so while `n`, which is none of them, gets more children. */
  lemma {:induction false} MirrorsKept(s: Store, t: Store, n: nat, a: nat, b: nat, d: nat, kept: set<nat>, rank: map<nat, nat>)
    requires AllHanded(s, rank) && Extends(s, t, n) && Acyclic(s, rank)
    requires n in kept && n !in rank && a in rank && Mirrors(s, a, b, d, kept)
    ensures Mirrors(t, a, b, d, kept)
    decreases d, 1
  {
    assert Grown(s, t, n, a) && Grown(s, t, n, b);
    forall j: nat | j < |t.kids[a]|
      ensures ItemMirrors(t, t.kids[a][j], t.kids[b][|t.kids[a]| - 1 - j], d, kept)
    {
      var x, y := s.kids[a][j], s.kids[b][|s.kids[a]| - 1 - j];
      assert ItemMirrors(s, x, y, d, kept) && x in s.kids[a] && y in s.kids[b];
      ItemKept(s, t, n, a, x, y, d, kept, rank);
    }
  }

  lemma {:induction false} ItemKept(s: Store, t: Store, n: nat, a: nat, x: nat, y: nat, d: nat, kept: set<nat>, rank: map<nat, nat>)
    requires AllHanded(s, rank) && Extends(s, t, n) && Acyclic(s, rank)
    requires n in kept && n !in rank && a in rank && a in s.kids && x in s.kids[a] && ItemMirrors(s, x, y, d, kept)
    requires x in t.vars && t.vars[x] == s.vars[x] && y in t.vars && t.vars[y] == s.vars[y]
    ensures ItemMirrors(t, x, y, d, kept)
    decreases d, 0
  {
    var v := s.vars[x].value;
    SameKind(s, t, n, v);
    if RefersToArray(s, v) {
      assert NestsBelow(s, rank, a);
      MirrorsKept(s, t, n, v.obj, s.vars[y].value.obj, d - 1, kept, rank);
    }
  }

  /** A looser depth, and fewer arrays to keep clear of. */
  lemma {:induction false} MirrorsLoosened(s: Store, a: nat, b: nat, d: nat, kept: set<nat>, d': nat, kept': set<nat>)
    requires Mirrors(s, a, b, d, kept) && d <= d' && kept' <= kept
    ensures Mirrors(s, a, b, d', kept')
    decreases d
  {
    forall j: nat | j < |s.kids[a]|
      ensures ItemMirrors(s, s.kids[a][j], s.kids[b][|s.kids[a]| - 1 - j], d', kept')
    {
      var x, y := s.kids[a][j], s.kids[b][|s.kids[a]| - 1 - j];
      assert ItemMirrors(s, x, y, d, kept);
      if RefersToArray(s, s.vars[x].value) {
        MirrorsLoosened(s, s.vars[x].value.obj, s.vars[y].value.obj, d - 1, kept, d' - 1, kept');
      }
    }
  }

  // ---------------------------------------------------------------- one item

  ghost predicate AllHashed(s: Store) {
    forall x :: x in s.vars ==> s.vars[x].bucket != 0
  }

  /** `n` has a new first child `y` with a value that refers to nothing. */
  ghost function WithPlain(s: Store, n: nat, name: nat, y: nat, v: Value): Store
    requires n in s.objs && n in s.kids && s.objs[n].value.Object?
  {
    Assigned(NewChild(s, n, name, y, [y] + s.kids[n]), y, v)
  }

  /** `n` has a new first child `y` that refers to the object `o`, which is shared. */
  ghost function WithShared(s: Store, n: nat, name: nat, y: nat, o: nat): Store
    requires n in s.objs && n in s.kids && s.objs[n].value.Object?
    requires o in s.objs && s.objs[o].value.Object?
  {
    Assigned(Referenced(NewChild(s, n, name, y, [y] + s.kids[n]), o), y, Pointer(o))
  }

  /** `n` has a new first child `y` that refers to the new, empty array `b`. */
  ghost function WithNested(s: Store, n: nat, name: nat, y: nat, b: nat, bname: nat): Store
    requires n in s.objs && n in s.kids && s.objs[n].value.Object?
  {
    Assigned(NewObject(NewChild(s, n, name, y, [y] + s.kids[n]), b, bname, true), y, Pointer(b))
  }

  /** What the three have in common. */
  ghost predicate ItemAdded(s: Store, t: Store, n: nat, name: nat, y: nat, v: Value) {
    && Extends(s, t, n) && n in s.kids && n in t.kids && t.kids[n] == [y] + s.kids[n]
    && y !in s.vars && y in t.vars && t.vars[y].name == name && t.vars[y].value == v
  }

  lemma PlainAdded(s: Store, n: nat, name: nat, y: nat, v: Value)
    requires WellFormed(s) && AllHashed(s) && IsArray(s, n) && y !in s.vars && y !in s.spent && !v.Pointer?
    ensures ItemAdded(s, WithPlain(s, n, name, y, v), n, name, y, v)
  {
    hide WellFormed, BucketOf;
    var t := WithPlain(s, n, name, y, v);
    assert BucketOf(n, name) != 0;
    forall q | q in s.objs
      ensures Grown(s, t, n, q)
    {
      IsObject(s, q);
      AllKidsLive(s, q);
    }
  }

  lemma SharedAdded(s: Store, n: nat, name: nat, y: nat, o: nat)
    requires WellFormed(s) && AllHashed(s) && IsArray(s, n) && y !in s.vars && y !in s.spent
    requires o in s.objs && s.objs[o].value.Object? && !s.objs[o].value.isArray
    ensures ItemAdded(s, WithShared(s, n, name, y, o), n, name, y, Pointer(o))
  {
    hide WellFormed, BucketOf;
    var t := WithShared(s, n, name, y, o);
    assert BucketOf(n, name) != 0;
    assert t.roots == s.roots;
    forall q | q in s.objs
      ensures Grown(s, t, n, q)
    {
      IsObject(s, q);
      AllKidsLive(s, q);
    }
  }

  lemma NestedAdded(s: Store, n: nat, name: nat, y: nat, b: nat, bname: nat)
    requires WellFormed(s) && AllHashed(s) && IsArray(s, n) && y !in s.vars && y !in s.spent && b !in s.objs
    ensures var t := WithNested(s, n, name, y, b, bname);
      ItemAdded(s, t, n, name, y, Pointer(b)) && IsArray(t, b) && t.kids[b] == []
  {
    hide WellFormed, BucketOf;
    var t := WithNested(s, n, name, y, b, bname);
    NoRoots(s, b);
    assert BucketOf(n, name) != 0;
    assert t.roots == s.roots;
    FamiliesKeys(s);
    forall q | q in s.objs
      ensures Grown(s, t, n, q)
    {
      IsObject(s, q);
      AllKidsLive(s, q);
    }
  }

  lemma NoRoots(s: Store, b: nat)
    requires WellFormed(s) && b !in s.objs
    ensures s.roots[b] == 0
  {
    hide Families, ObjectOk, Tallied;
  }

  /** A nested copy below a new item leaves the item as it is. */
  lemma NestedFilled(s: Store, u: Store, t: Store, n: nat, name: nat, y: nat, b: nat)
    requires ItemAdded(s, u, n, name, y, Pointer(b)) && b !in s.objs && n in s.objs && IsArray(u, b) && Extends(u, t, b)
    ensures ItemAdded(s, t, n, name, y, Pointer(b))
  {
    assert Grown(s, u, n, n) && Grown(u, t, b, n);
    forall q | q in s.objs
      ensures Grown(s, t, n, q)
    {
      assert Grown(s, u, n, q);
      assert Grown(u, t, b, q);
    }
    forall q | q in t.objs && q !in s.objs
      ensures IsArray(t, q) && t.objs[q].value.refCount == 0 && t.roots[q] == 0
    {
      if q in u.objs {
        assert Grown(u, t, b, q);
      }
    }
  }

  /** One more item copied: the others stay copied. */
  lemma OneMoreItem(s: Store, t: Store, a: nat, n: nat, i: nat, y: nat, kept: set<nat>, rank: map<nat, nat>)
    requires AllHanded(s, rank) && Acyclic(s, rank) && a in rank && n in kept && n !in rank && n in s.objs && a in s.objs
    requires MirrorsUpTo(s, a, n, i, rank[a], kept) && i < |s.kids[a]|
    requires s.kids[a][i] in s.vars && ItemAdded(s, t, n, s.vars[s.kids[a][i]].name, y, if y in t.vars then t.vars[y].value else Undefined)
    requires ItemMirrors(t, s.kids[a][i], y, rank[a], kept)
    ensures MirrorsUpTo(t, a, n, i + 1, rank[a], kept)
  {
    hide ItemMirrors, AllHanded, Acyclic;
    assert Grown(s, t, n, a) && Grown(s, t, n, n);
    forall j: nat | j < i + 1
      ensures ItemMirrors(t, t.kids[a][j], t.kids[n][i - j], rank[a], kept)
    {
      if j < i {
        var x, z := s.kids[a][j], s.kids[n][i - 1 - j];
        assert ItemMirrors(s, x, z, rank[a], kept) && x in s.kids[a] && z in s.kids[n];
        ItemKept(s, t, n, a, x, z, rank[a], kept, rank);
      }
    }
  }

  lemma HandedKept(s: Store, t: Store, n: nat, rank: map<nat, nat>)
    requires AllHanded(s, rank) && Acyclic(s, rank) && Extends(s, t, n) && n !in rank
    ensures AllHanded(t, rank)
  {
    forall a, x | a in rank && a in t.kids && x in t.kids[a] && x in t.vars && t.vars[x].value.Pointer?
      ensures t.vars[x].value.obj in t.objs && t.vars[x].value.obj in t.kids
    {
      assert IsArray(s, a) && Grown(s, t, n, a);
      assert x in s.kids[a] && x in s.vars;
      assert Grown(s, t, n, s.vars[x].value.obj);
    }
  }

  /** All items copied: `n` is a copy of `a`, and none of the arrays that were there before is part of it. */
  lemma AllItems(t: Store, a: nat, n: nat, d: nat, kept: set<nat>)
    requires a in t.kids && MirrorsUpTo(t, a, n, |t.kids[a]|, d, kept)
    ensures Mirrors(t, a, n, d, kept - {n})
  {
    forall j: nat | j < |t.kids[a]|
      ensures ItemMirrors(t, t.kids[a][j], t.kids[n][|t.kids[a]| - 1 - j], d, kept - {n})
    {
      var x, y := t.kids[a][j], t.kids[n][|t.kids[a]| - 1 - j];
      assert ItemMirrors(t, x, y, d, kept);
      if RefersToArray(t, t.vars[x].value) {
        MirrorsLoosened(t, t.vars[x].value.obj, t.vars[y].value.obj, d - 1, kept, d - 1, kept - {n});
      }
    }
  }

  /** The names copied so far are not that of the next item. */
  lemma NextNameNew(s: Store, a: nat, n: nat, i: nat, d: nat, kept: set<nat>)
    requires WellFormed(s) && MirrorsUpTo(s, a, n, i, d, kept) && i < |s.kids[a]|
    ensures s.kids[a][i] in s.vars && s.vars[s.kids[a][i]].name < NAME_LIMIT
    ensures forall y :: !Named(s.vars, s.kids, n, s.vars[s.kids[a][i]].name, y)
  {
    hide WellFormed, ItemMirrors, Unique;
    FamiliesOfArray(s, a);
    var x := s.kids[a][i];
    assert x in s.kids[a];
    forall y | Named(s.vars, s.kids, n, s.vars[x].name, y)
      ensures false
    {
      var k :| 0 <= k < |s.kids[n]| && s.kids[n][k] == y;
      EarlierName(s, a, n, i, i - 1 - k, d, kept);
    }
  }

  lemma EarlierName(s: Store, a: nat, n: nat, i: nat, j: nat, d: nat, kept: set<nat>)
    requires WellFormed(s) && MirrorsUpTo(s, a, n, i, d, kept) && i < |s.kids[a]| && j < i
    requires s.kids[a][i] in s.vars
    ensures var y := s.kids[n][i - 1 - j]; y in s.vars && s.vars[y].name != s.vars[s.kids[a][i]].name
  {
    hide WellFormed;
    FamiliesOfArray(s, a);
    assert ItemMirrors(s, s.kids[a][j], s.kids[n][i - 1 - j], d, kept);
    assert s.kids[a][j] in s.kids[a] && s.kids[a][i] in s.kids[a] && s.kids[a][j] != s.kids[a][i];
  }

  lemma FamiliesOfArray(s: Store, a: nat)
    requires WellFormed(s) && a in s.kids
    ensures Unique(s.kids[a]) && forall x, y :: x in s.kids[a] && y in s.kids[a] && x in s.vars && y in s.vars && s.vars[x].name == s.vars[y].name ==> x == y
    ensures forall x :: x in s.kids[a] ==> x in s.vars && s.vars[x].name < NAME_LIMIT
  {
    assert FamilyOk(s.vars, s.kids, a);
    forall x | x in s.kids[a]
      ensures x in s.vars && s.vars[x].name < NAME_LIMIT
    {
      assert ChildOk(s.vars, a, x);
    }
  }

  /** The state of copying array `a` to array `n`, `i` items done. */
  ghost predicate Copying(s: Store, a: nat, n: nat, i: nat, kept: set<nat>, rank: map<nat, nat>) {
    && WellFormed(s) && AllHashed(s) && Acyclic(s, rank) && AllHanded(s, rank)
    && a in rank && n !in rank && n in kept && kept <= s.objs.Keys && MirrorsUpTo(s, a, n, i, rank[a], kept)
  }

  lemma CopyingFacts(s: Store, a: nat, n: nat, i: nat, kept: set<nat>, rank: map<nat, nat>)
    requires Copying(s, a, n, i, kept, rank) && i < |s.kids[a]|
    ensures n in s.objs && n in s.kids && a in s.kids && IsArray(s, n) && a != n && Hashed(s.vars, s.kids[n])
    ensures var x := s.kids[a][i];
      && x in s.kids[a] && x in s.vars && s.vars[x].name < NAME_LIMIT && (forall y :: !Named(s.vars, s.kids, n, s.vars[x].name, y))
      && (s.vars[x].value.Pointer? ==>
            s.vars[x].value.obj in s.objs && s.vars[x].value.obj in s.kids && s.objs[s.vars[x].value.obj].value.Object?)
      && !s.vars[x].value.Object?
    ensures forall x :: x in s.spent ==> x in s.vars
    ensures WellFormed(s) && AllHashed(s) && a in rank && kept <= s.objs.Keys
  {
    hide WellFormed, Acyclic, ItemMirrors, NestsBelow, RefersToArray;
    assert IsArray(s, a);
    NextNameNew(s, a, n, i, rank[a], kept);
    AllKidsLive(s, n);
    SpentLive(s);
    var x := s.kids[a][i];
    assert x in s.kids[a];
    if s.vars[x].value.Pointer? {
      IsObject(s, s.vars[x].value.obj);
    }
  }

  lemma SpentLive(s: Store)
    requires WellFormed(s)
    ensures forall x :: x in s.spent ==> x in s.vars
    ensures forall x :: x in s.vars ==> !s.vars[x].value.Object?
  {
    hide Families, ObjectOk, Tallied;
  }

  /** After a new item that mirrors the next one of `a`, the copying is one item further. */
  lemma NextCopying(s: Store, t: Store, a: nat, n: nat, i: nat, y: nat, kept: set<nat>, rank: map<nat, nat>)
    requires Copying(s, a, n, i, kept, rank) && i < |s.kids[a]| && s.kids[a][i] in s.vars && WellFormed(t) && y in t.vars
    requires ItemAdded(s, t, n, s.vars[s.kids[a][i]].name, y, t.vars[y].value)
    requires ItemMirrors(t, s.kids[a][i], y, rank[a], kept)
    ensures Copying(t, a, n, i + 1, kept, rank) && Extends(s, t, n)
  {
    hide WellFormed, Acyclic, AllHanded, ItemMirrors, NestsBelow;
    RankedIsArray(s, rank, a);
    OneMoreItem(s, t, a, n, i, y, kept, rank);
    AcyclicKept(s, t, n, rank);
    HandedKept(s, t, n, rank);
    forall q | q in s.objs
      ensures q in t.objs
    {
      assert Grown(s, t, n, q);
    }
  }

  lemma RankedIsArray(s: Store, rank: map<nat, nat>, a: nat)
    requires Acyclic(s, rank) && a in rank
    ensures IsArray(s, a)
  {}

  /** A value that is not an array mirrors itself. */
  lemma FlatMirrors(s: Store, t: Store, n: nat, x: nat, y: nat, d: nat, kept: set<nat>)
    requires x in s.vars && !RefersToArray(s, s.vars[x].value) && ItemAdded(s, t, n, s.vars[x].name, y, s.vars[x].value)
    requires s.vars[x].value.Pointer? ==> s.vars[x].value.obj in s.objs && s.vars[x].value.obj in s.kids
    ensures ItemMirrors(t, x, y, d, kept)
  {
    SameKind(s, t, n, s.vars[x].value);
  }

  /** The start of a nested copy: the item refers to the new, empty array `b`. */
  lemma NestedStart(s: Store, u: Store, a: nat, n: nat, i: nat, b: nat, y: nat, kept: set<nat>, rank: map<nat, nat>)
    requires Copying(s, a, n, i, kept, rank) && i < |s.kids[a]| && s.kids[a][i] in s.vars && WellFormed(u)
    requires RefersToArray(s, s.vars[s.kids[a][i]].value) && b !in s.objs
    requires ItemAdded(s, u, n, s.vars[s.kids[a][i]].name, y, Pointer(b)) && IsArray(u, b) && u.kids[b] == []
    ensures var c := s.vars[s.kids[a][i]].value.obj;
      c in rank && rank[c] < rank[a] && Copying(u, c, b, 0, u.objs.Keys, rank)
  {
    hide WellFormed, AllHanded, ItemMirrors;
    var x := s.kids[a][i];
    assert IsArray(s, a) && NestsBelow(s, rank, a) && x in s.kids[a];
    AcyclicKept(s, u, n, rank);
    HandedKept(s, u, n, rank);
    var c := s.vars[x].value.obj;
    assert IsArray(u, c);
    assert b in rank ==> IsArray(s, b);
  }

  /** The end of a nested copy: the item mirrors the nested array. */
  lemma NestedMirrors(s: Store, u: Store, t: Store, n: nat, x: nat, y: nat, b: nat, d: nat, d': nat, kept: set<nat>)
    requires x in s.vars && RefersToArray(s, s.vars[x].value) && s.vars[x].value.obj in s.objs && s.vars[x].value.obj in s.kids
    requires ItemAdded(s, t, n, s.vars[x].name, y, Pointer(b)) && kept <= u.objs.Keys - {b} && d < d'
    requires Mirrors(t, s.vars[x].value.obj, b, d, u.objs.Keys - {b})
    ensures ItemMirrors(t, x, y, d', kept)
  {
    SameKind(s, t, n, s.vars[x].value);
    MirrorsLoosened(t, s.vars[x].value.obj, b, d, u.objs.Keys - {b}, d' - 1, kept);
  }

  lemma CopyStart(s: Store, a: nat, n: nat, kept: set<nat>, rank: map<nat, nat>)
    requires Copying(s, a, n, 0, kept, rank)
    ensures a in s.kids && a in s.objs && n in s.objs && a != n && a in rank && Extends(s, s, n)
  {
    hide WellFormed, Extends, MirrorsUpTo, AllHanded;
    RankedIsArray(s, rank, a);
    ExtendsRefl(s, n);
  }

  lemma ItemStep(s: Store, t: Store, u: Store, a: nat, n: nat, kept: set<nat>, rank: map<nat, nat>)
    requires Extends(s, t, n) && Extends(t, u, n) && a != n && a in t.kids && a in s.objs
    ensures Extends(s, u, n) && a in u.kids && u.kids[a] == t.kids[a]
  {
    ExtendsTrans(s, t, u, n);
    assert Grown(s, t, n, a) && Grown(t, u, n, a);
  }

  lemma EndCopy(s: Store, t: Store, a: nat, n: nat, kept: set<nat>, rank: map<nat, nat>)
    requires a in t.kids && Copying(t, a, n, |t.kids[a]|, kept, rank)
    ensures Mirrors(t, a, n, rank[a], kept - {n})
  {
    hide WellFormed, Acyclic, AllHanded, MirrorsUpTo, Mirrors;
    AllItems(t, a, n, rank[a], kept);
  }

  /** A new variable does not change what kind its object, or any other, is. */
  lemma NewChildKind(s: Store, n: nat, name: nat, y: nat, list: seq<nat>, o: nat)
    requires n in s.objs && s.objs[n].value.Object? && o in s.objs && s.objs[o].value.Object?
    ensures var t := NewChild(s, n, name, y, list);
      o in t.objs && t.objs[o].value.Object? && t.objs[o].value.isArray == s.objs[o].value.isArray
  {}

  // ---------------------------------------------------------------- copy on write

  /** `x` refers to the shared array `a`; nesting below `a` is as `rank` says. */
  ghost predicate SharedRef(s: Store, x: nat, a: nat, rank: map<nat, nat>) {
    && WellFormed(s) && AllHashed(s) && Acyclic(s, rank) && AllHanded(s, rank)
    && x in s.vars && x !in s.spent && s.vars[x].value == Pointer(a) && a in rank && IsArray(s, a) && s.objs[a].value.refCount > 0
  }

  /** The shared array has one reference fewer, and there is a new, empty array `b`. */
  ghost function Replacing(s: Store, x: nat, a: nat, b: nat, bname: nat): Store
    requires x in s.vars && s.vars[x].value == Pointer(a) && a in s.objs && s.objs[a].value.Object? && s.objs[a].value.refCount > 0
  {
    NewObject(Dereferenced(HandedOver(s, x), a), b, bname, true)
  }

  /**
   `x` refers to the array `b` alone, which is a deep copy of the array `a` it shared; no other
   variable, object, list of children or count of an array has changed, but for the count of `a`.
   */
  ghost predicate Detached(s: Store, t: Store, x: nat, a: nat, b: nat, d: nat) {
    && a in s.objs && b !in s.objs && IsArray(t, b) && t.objs[b].value.refCount == 0 && t.roots == s.roots && t.spent == s.spent
    && x in s.vars && x in t.vars && t.vars[x] == s.vars[x].(value := Pointer(b))
    && (forall z :: z in s.vars && z != x ==> z in t.vars && t.vars[z] == s.vars[z])
    && (forall q :: q in s.objs ==>
          && q in s.kids && q in t.objs && q in t.kids && t.kids[q] == s.kids[q]
          && s.objs[q].value.Object? && t.objs[q].value.Object? && t.objs[q].value.isArray == s.objs[q].value.isArray
          && (s.objs[q].value.isArray ==> t.objs[q].value.refCount == s.objs[q].value.refCount - if q == a then 1 else 0))
    && Mirrors(t, a, b, d, s.objs.Keys)
  }

  lemma ReplacingReady(s: Store, x: nat, a: nat, b: nat, bname: nat, rank: map<nat, nat>)
    requires SharedRef(s, x, a, rank) && b !in s.objs && 0 < b < PARENT_SIZE
    ensures var t := Replacing(s, x, a, b, bname);
      WellFormed(t) && Copying(t, a, b, 0, t.objs.Keys, rank) && t.roots[b] == 1
  {
    hide WellFormed;
    var h := HandedOver(s, x);
    HandedOverOk(s, x);
    var e := Dereferenced(h, a);
    DereferencedOk(h, a);
    NewObjectOk(e, b, bname, true);
    NoRoots(e, b);
    var t := Replacing(s, x, a, b, bname);
    assert b in rank ==> IsArray(s, b);
    forall c | c in rank
      ensures IsArray(t, c) && NestsBelow(t, rank, c)
    {
      assert IsArray(s, c) && NestsBelow(s, rank, c);
    }
  }

  /** A copy stays one when the variable `x`, above it, gets another value. */
  lemma {:induction false} MirrorsReassigned(
      u: Store, x: nat, v: Value, p: nat, a: nat, b: nat, d: nat, kept: set<nat>, rank: map<nat, nat>, top: nat)
    requires x in u.vars && Families(u.vars, u.kids) && p in u.kids && x in u.kids[p] && p in kept && Acyclic(u, rank)
    requires a in rank && top in rank && rank[a] <= rank[top] && u.vars[x].value == Pointer(top) && Mirrors(u, a, b, d, kept)
    ensures Mirrors(Assigned(u, x, v), a, b, d, kept)
    decreases d
  {
    hide FamilyOk;
    var t := Assigned(u, x, v);
    assert IsArray(u, a) && NestsBelow(u, rank, a) && IsArray(u, top);
    forall j: nat | j < |t.kids[a]|
      ensures ItemMirrors(t, t.kids[a][j], t.kids[b][|t.kids[a]| - 1 - j], d, kept)
    {
      var z, y := u.kids[a][j], u.kids[b][|u.kids[a]| - 1 - j];
      assert ItemMirrors(u, z, y, d, kept) && z in u.kids[a] && y in u.kids[b];
      assert z != x && y != x;
      if RefersToArray(u, u.vars[z].value) {
        MirrorsReassigned(u, x, v, p, u.vars[z].value.obj, u.vars[y].value.obj, d - 1, kept, rank, top);
      }
    }
  }

  /** What is known when the copy is done, before `x` is made to refer to it. */
  ghost predicate CopyDone(s: Store, u: Store, x: nat, a: nat, b: nat, bname: nat, rank: map<nat, nat>) {
    && SharedRef(s, x, a, rank) && b !in s.objs && WellFormed(u)
    && var t := Replacing(s, x, a, b, bname);
      && t.roots[b] == 1 && WellFormed(t) && Acyclic(t, rank) && AllHanded(t, rank)
      && Extends(t, u, b) && Mirrors(u, a, b, rank[a], t.objs.Keys - {b})
  }

  /** The copied array is none of the ranked ones, and their ranks stay. */
  lemma DetachedRanked(s: Store, u: Store, x: nat, a: nat, b: nat, bname: nat, rank: map<nat, nat>)
    requires CopyDone(s, u, x, a, b, bname, rank)
    ensures b !in rank && Acyclic(u, rank)
  {
    hide WellFormed, Mirrors, AllHanded, RefersToArray, NestsBelow;
    if b in rank {
      RankedIsArray(s, rank, b);
    }
    AcyclicKept(Replacing(s, x, a, b, bname), u, b, rank);
  }

  lemma DetachedMirrors(s: Store, u: Store, x: nat, a: nat, b: nat, bname: nat, rank: map<nat, nat>)
    requires CopyDone(s, u, x, a, b, bname, rank)
    ensures a in rank && x in u.vars && Mirrors(Assigned(u, x, Pointer(b)), a, b, rank[a], s.objs.Keys)
  {
    hide WellFormed, Mirrors, AllHanded, RefersToArray, NestsBelow, Families, Acyclic;
    var t := Replacing(s, x, a, b, bname);
    assert t.objs.Keys - {b} == s.objs.Keys;
    DetachedRanked(s, u, x, a, b, bname, rank);
    KidOfSome(s, x);
    FamiliesKeys(s);
    FamiliesOfStore(u);
    var p :| p in s.kids && x in s.kids[p];
    assert Grown(t, u, b, p);
    MirrorsReassigned(u, x, Pointer(b), p, a, b, rank[a], s.objs.Keys, rank, a);
  }

  lemma DetachedObject(s: Store, u: Store, x: nat, a: nat, b: nat, bname: nat, rank: map<nat, nat>, q: nat)
    requires CopyDone(s, u, x, a, b, bname, rank) && q in s.objs
    ensures q in s.kids && q in u.objs && q in u.kids && u.kids[q] == s.kids[q]
    ensures a in s.objs && s.objs[q].value.Object? && u.objs[q].value.Object? && u.objs[q].value.isArray == s.objs[q].value.isArray
    ensures s.objs[q].value.isArray ==> u.objs[q].value.refCount == s.objs[q].value.refCount - if q == a then 1 else 0
  {
    hide WellFormed, Mirrors, Acyclic, AllHanded;
    FamiliesKeys(s);
    IsObject(s, q);
    assert Grown(Replacing(s, x, a, b, bname), u, b, q);
  }

  lemma DetachedFresh(s: Store, u: Store, x: nat, a: nat, b: nat, bname: nat, rank: map<nat, nat>)
    requires CopyDone(s, u, x, a, b, bname, rank)
    ensures a in s.objs && b !in s.objs && a in rank
    ensures IsArray(u, b) && u.objs[b].value.refCount == 0 && u.roots[b] == 1
    ensures u.roots - multiset{b} == s.roots && u.spent - {x} == s.spent && x in u.spent
    ensures x in s.vars && x in u.vars && u.vars[x] == s.vars[x] && u.vars[x].value == Pointer(a)
    ensures forall z :: z in s.vars ==> z in u.vars && u.vars[z] == s.vars[z]
  {
    hide WellFormed, Mirrors, Acyclic, AllHanded;
    assert Grown(Replacing(s, x, a, b, bname), u, b, b);
    RootsBack(s, x, a, b);
  }

  /** Putting together what detaching does. */
  lemma DetachedOk(s: Store, u: Store, x: nat, a: nat, b: nat, bname: nat, rank: map<nat, nat>)
    requires CopyDone(s, u, x, a, b, bname, rank)
    ensures x in u.vars && x in u.spent && u.vars[x].value == Pointer(a) && u.roots[b] == 1
    ensures a in rank && Detached(s, Assigned(u, x, Pointer(b)), x, a, b, rank[a])
  {
    hide CopyDone, Mirrors;
    DetachedFresh(s, u, x, a, b, bname, rank);
    DetachedMirrors(s, u, x, a, b, bname, rank);
    var w := Assigned(u, x, Pointer(b));
    forall q | q in s.objs
      ensures q in s.kids && q in w.objs && q in w.kids && w.kids[q] == s.kids[q]
      ensures s.objs[q].value.Object? && w.objs[q].value.Object? && w.objs[q].value.isArray == s.objs[q].value.isArray
      ensures s.objs[q].value.isArray ==> w.objs[q].value.refCount == s.objs[q].value.refCount - if q == a then 1 else 0
    {
      DetachedObject(s, u, x, a, b, bname, rank, q);
    }
  }

  lemma RootsBack(s: Store, x: nat, a: nat, b: nat)
    requires x !in s.spent
    ensures s.roots + multiset{a} - multiset{a} + multiset{b} - multiset{b} == s.roots
    ensures s.spent + {x} - {x} == s.spent
  {}

  lemma FamiliesOfStore(s: Store)
    requires WellFormed(s)
    ensures Families(s.vars, s.kids)
  {}
}
