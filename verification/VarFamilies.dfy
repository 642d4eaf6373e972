/**
 Which variables belong to which object. A variable's slot does not say whose child it is: its
 bucket, together with its name, does.
 */
module VarFamilies {
  import opened BucketRings
  import opened VarCells
  import opened VarLinks

  const CHILD_SIZE: nat := 0xFFFE
  const PARENT_SIZE: nat := 0x8000
  const NAME_LIMIT: nat := 0x1000000

  /** The bucket of the variable `name` of object `parent`. */
  function BucketOf(parent: nat, name: nat): (h: nat)
    ensures 0 < h < CHILD_SIZE
  {
    (parent + 101 * name) % (CHILD_SIZE - 1) + 1
  }

  /** For one name, different objects have different buckets. */
  lemma BucketSeparates(p: nat, q: nat, name: nat)
    requires p < PARENT_SIZE && q < PARENT_SIZE && BucketOf(p, name) == BucketOf(q, name)
    ensures p == q
  {
    var m := CHILD_SIZE - 1;
    var a, b := p + 101 * name, q + 101 * name;
    assert a == m * (a / m) + a % m && b == m * (b / m) + b % m;
    assert a - b == m * (a / m - b / m) by {
      assert m * (a / m) - m * (b / m) == m * (a / m - b / m);
    }
    if a / m != b / m {
      assert false;
    }
  }

  /** Exactly which variables share a bucket: one name more weighs as much as 101 objects more. */
  lemma BucketsMeetIff(p: nat, m: nat, q: nat, n: nat)
    ensures BucketOf(p, m) == BucketOf(q, n) <==> (p - q + 101 * (m - n)) % 65533 == 0
  {}

  type Vars = map<nat, Entry>
  type Kids = map<nat, seq<nat>>

  ghost predicate Unique(k: seq<nat>) {
    forall i, j :: 0 <= i < j < |k| ==> k[i] != k[j]
  }

  /** `x` is a variable of object `p`: on a ring of its bucket, or taken off it. */
  ghost predicate ChildOk(v: Vars, p: nat, x: nat) {
    x in v && x > 0 && v[x].name < NAME_LIMIT && (v[x].bucket == 0 || v[x].bucket == BucketOf(p, v[x].name))
  }

  /** The children of object `p`, in order. */
  ghost predicate FamilyOk(v: Vars, k: Kids, p: nat) {
    && p in k && 0 < p < PARENT_SIZE && Unique(k[p])
    && (forall x :: x in k[p] ==> ChildOk(v, p, x))
    && (forall x, y :: x in k[p] && y in k[p] && v[x].name == v[y].name ==> x == y)
  }

  /** Every object has its own children, and every variable is some object's child. */
  ghost predicate Families(v: Vars, k: Kids) {
    && (forall p :: p in k ==> FamilyOk(v, k, p))
    && (forall p, q, x :: p in k && q in k && x in k[p] && x in k[q] ==> p == q)
    && (forall x :: x in v ==> exists p :: p in k && x in k[p])
  }

  /** The child of `p` with the name, if there is one. */
  ghost predicate Named(v: Vars, k: Kids, p: nat, name: nat, x: nat) {
    p in k && x in k[p] && x in v && v[x].name == name
  }

  /** None of the children of `p` has been taken off its ring. */
  ghost predicate Hashed(v: Vars, k: seq<nat>) {
    forall x :: x in k ==> x in v && v[x].bucket != 0
  }

  /** A slot found in the bucket for (p, name) under that name is the child of `p` with that name. */
  lemma FoundIsChild(v: Vars, k: Kids, p: nat, name: nat, x: nat)
    requires Families(v, k) && p in k && x in v && v[x].bucket == BucketOf(p, name) && v[x].name == name
    ensures Named(v, k, p, name, x)
    ensures forall y :: Named(v, k, p, name, y) ==> y == x
  {
    var q :| q in k && x in k[q];
    assert FamilyOk(v, k, q) && FamilyOk(v, k, p);
    assert ChildOk(v, q, x);
    BucketSeparates(p, q, name);
  }

  /** If nothing is found there, no child of `p` still on its ring has that name. */
  lemma NotFoundNoChild(v: Vars, k: Kids, p: nat, name: nat)
    requires Families(v, k) && p in k
    requires forall x :: x in v ==> v[x].bucket != BucketOf(p, name) || v[x].name != name
    ensures forall x :: Named(v, k, p, name, x) ==> v[x].bucket == 0
  {
    assert FamilyOk(v, k, p);
    forall x | Named(v, k, p, name, x)
      ensures v[x].bucket == 0
    {
      assert ChildOk(v, p, x);
    }
  }

  // ---------------------------------------------------------------- changes

  /** A new child, at either end of the list. */
  lemma ChildAdded(v: Vars, k: Kids, p: nat, name: nat, x: nat, list: seq<nat>, value: Value)
    requires Families(v, k) && p in k && x !in v && x > 0 && name < NAME_LIMIT
    requires forall y :: !Named(v, k, p, name, y)
    requires list == [x] + k[p] || list == k[p] + [x]
    ensures Families(v[x := Entry(BucketOf(p, name), name, value)], k[p := list])
  {
    var v', k' := v[x := Entry(BucketOf(p, name), name, value)], k[p := list];
    assert forall y :: y in list <==> y == x || y in k[p];
    forall q | q in k'
      ensures FamilyOk(v', k', q)
    {
      assert FamilyOk(v, k, q);
      if q == p {
        ListAdded(k[p], x, list);
        forall y | y in k[p]
          ensures ChildOk(v, p, y) && !Named(v, k, p, name, y)
        {}
      }
    }
    forall q | q in k
      ensures x !in k[q]
    {
      NotListedYet(v, k, x, q);
    }
    forall q, r, y | q in k' && r in k' && y in k'[q] && y in k'[r]
      ensures q == r
    {
      assert q in k && r in k && (y == x || (y in k[q] && y in k[r]));
    }
    forall y | y in v'
      ensures exists q :: q in k' && y in k'[q]
    {
      if y == x {
        assert p in k' && x in k'[p];
      } else {
        var q :| q in k && y in k[q];
        assert q in k' && y in k'[q];
      }
    }
  }

  /** What is no variable is in no list. */
  lemma NotListedYet(v: Vars, k: Kids, x: nat, q: nat)
    requires Families(v, k) && x !in v && q in k
    ensures x !in k[q]
  {
    assert FamilyOk(v, k, q);
    assert x in k[q] ==> ChildOk(v, q, x);
  }

  lemma ListAdded(k: seq<nat>, x: nat, list: seq<nat>)
    requires Unique(k) && x !in k && (list == [x] + k || list == k + [x])
    ensures Unique(list)
  {}

  /** A child taken off its ring, or given another value. */
  lemma ChildChanged(v: Vars, k: Kids, x: nat, e: Entry)
    requires Families(v, k) && x in v && e.name == v[x].name && (e.bucket == v[x].bucket || e.bucket == 0)
    ensures Families(v[x := e], k)
  {
    var v' := v[x := e];
    forall q | q in k
      ensures FamilyOk(v', k, q)
    {
      assert FamilyOk(v, k, q);
      forall y | y in k[q]
        ensures ChildOk(v', q, y)
      {
        assert ChildOk(v, q, y);
      }
    }
    forall y | y in v'
      ensures exists q :: q in k && y in k[q]
    {
      assert y in v;
    }
  }

  /** A child removed from the list of `p`. */
  lemma ChildRemoved(v: Vars, k: Kids, p: nat, x: nat, i: nat)
    requires Families(v, k) && p in k && i < |k[p]| && k[p][i] == x
    ensures Families(v - {x}, k[p := k[p][..i] + k[p][i + 1..]])
  {
    var list := k[p][..i] + k[p][i + 1..];
    var v', k' := v - {x}, k[p := list];
    assert FamilyOk(v, k, p);
    ListRemoved(k[p], i);
    forall q | q in k'
      ensures FamilyOk(v', k', q)
    {
      assert FamilyOk(v, k, q);
      forall y | y in k'[q]
        ensures ChildOk(v', q, y)
      {
        assert ChildOk(v, q, y);
      }
    }
    forall y | y in v'
      ensures exists q :: q in k' && y in k'[q]
    {
      var q :| q in k && y in k[q];
      assert q in k' && y in k'[q];
    }
  }

  /** The list without `x`, in the same order. */
  function Minus(k: seq<nat>, x: nat): seq<nat> {
    if k == [] then [] else (if k[0] == x then [] else [k[0]]) + Minus(k[1..], x)
  }

  lemma {:induction false} MinusMembers(k: seq<nat>, x: nat)
    ensures forall y :: y in Minus(k, x) <==> y in k && y != x
  {
    if k != [] {
      MinusMembers(k[1..], x);
      assert k == [k[0]] + k[1..];
    }
  }

  lemma {:induction false} MinusAbsent(k: seq<nat>, x: nat)
    requires x !in k
    ensures Minus(k, x) == k
  {
    if k != [] {
      MinusAbsent(k[1..], x);
    }
  }

  lemma {:induction false} MinusAt(k: seq<nat>, i: nat)
    requires Unique(k) && i < |k|
    ensures Minus(k, k[i]) == k[..i] + k[i + 1..]
  {
    var rest := k[1..];
    assert k == [k[0]] + rest;
    assert forall j :: 0 <= j < |rest| ==> rest[j] == k[j + 1];
    if i == 0 {
      MinusAbsent(rest, k[0]);
    } else {
      MinusAt(rest, i - 1);
      assert k[..i] + k[i + 1..] == [k[0]] + (rest[..i - 1] + rest[i..]);
    }
  }

  lemma ListRemoved(k: seq<nat>, i: nat)
    requires Unique(k) && i < |k|
    ensures Unique(k[..i] + k[i + 1..])
    ensures forall y :: y in k[..i] + k[i + 1..] <==> y in k && y != k[i]
  {
    var list := k[..i] + k[i + 1..];
    forall y
      ensures y in list <==> y in k && y != k[i]
    {
      if y in k && y != k[i] {
        var j :| 0 <= j < |k| && k[j] == y;
        assert list[if j < i then j else j - 1] == y;
      }
      if y in list {
        var j :| 0 <= j < |list| && list[j] == y;
        assert k[if j < i then j else j + 1] == y;
      }
    }
    forall a, b | 0 <= a < b < |list|
      ensures list[a] != list[b]
    {
      assert list[a] == k[if a < i then a else a + 1] && list[b] == k[if b < i then b else b + 1];
    }
  }

  /** An object without children comes or goes. */
  lemma ObjectAdded(v: Vars, k: Kids, p: nat)
    requires Families(v, k) && p !in k && 0 < p < PARENT_SIZE
    ensures Families(v, k[p := []])
  {
    var k' := k[p := []];
    forall q | q in k'
      ensures FamilyOk(v, k', q)
    {
      if q != p {
        assert FamilyOk(v, k, q);
      }
    }
    forall y | y in v
      ensures exists q :: q in k' && y in k'[q]
    {
      var q :| q in k && y in k[q];
      assert q in k' && y in k'[q];
    }
  }

  lemma ObjectRemoved(v: Vars, k: Kids, p: nat)
    requires Families(v, k) && p in k && k[p] == []
    ensures Families(v, k - {p})
  {
    var k' := k - {p};
    forall q | q in k'
      ensures FamilyOk(v, k', q)
    {
      assert FamilyOk(v, k, q);
    }
    forall y | y in v
      ensures exists q :: q in k' && y in k'[q]
    {
      var q :| q in k && y in k[q];
      assert q in k' && y in k'[q];
    }
  }

  // ---------------------------------------------------------------- sibling lists

  ghost function Follower(k: seq<nat>, i: nat): nat {
    if i + 1 < |k| then k[i + 1] else 0
  }

  ghost function Leader(k: seq<nat>, i: nat): nat {
    if 0 < i <= |k| then k[i - 1] else 0
  }

  /** The links of the slots in `k` run through `k` in order. */
  ghost predicate Chain(p: Pool, at: seq<nat>, s: set<nat>, k: seq<nat>)
    requires Linked(p, at, s)
  {
    forall i: nat :: i < |k| ==>
      k[i] in s && LinkedAt(p, at, s, k[i]) && NextId(p, k[i]) == Follower(k, i) && PrevId(p, at, k[i]) == Leader(k, i)
  }

  lemma ChainKept(p: Pool, at: seq<nat>, p': Pool, at': seq<nat>, s: set<nat>, k: seq<nat>)
    requires Linked(p, at, s) && Linked(p', at', s) && SameLinks(p, at, p', at', s) && Chain(p, at, s, k)
    ensures Chain(p', at', s, k)
  {}
}
