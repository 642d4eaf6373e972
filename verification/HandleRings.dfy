/**
 Weak handles to entities: every handle that names an entity has a record on the entity's ring, the
 other records are on a free list. What linking and unlinking a record does to these lists.
 */
module HandleRings {
  import opened Rings

  /** The records' columns, the first record of each entity and of the free list; the handles' own fields. */
  datatype Table = Table(
    next: seq<nat>, prev: seq<nat>, handle: seq<nat>, first: seq<nat>, head: nat, used: nat,
    number: seq<nat>, info: seq<nat>)

  /** The table read as lists: each entity's ring, the free records, and whose each record is (entity + 1, or 0). */
  datatype Lists = Lists(rings: seq<seq<nat>>, free: seq<nat>, owner: seq<nat>)

  ghost predicate Sized(t: Table, l: Lists) {
    && |t.next| == |t.prev| == |t.handle| == |l.owner| > 1 && |t.first| == |l.rings| && |t.number| == |t.info| > 0
  }

  ghost function First(s: seq<nat>): nat {
    if s == [] then 0 else s[0]
  }

  /** Following `next` from the first record of `s` meets `s` and ends in 0. */
  ghost predicate Chain(next: seq<nat>, s: seq<nat>) {
    && Distinct(s) && (forall i :: 0 <= i < |s| ==> 0 < s[i] < |next|)
    && (forall i :: 0 <= i < |s| ==> next[s[i]] == if i + 1 < |s| then s[i + 1] else 0)
  }

  ghost predicate RingOk(t: Table, l: Lists, e: nat)
    requires Sized(t, l) && e < |l.rings|
  {
    && t.first[e] == First(l.rings[e])
    && (l.rings[e] != [] ==> Cycle(t.next, l.rings[e]) && BackCycle(t.prev, l.rings[e]))
    && (forall i: nat :: i < |l.owner| ==> (i in l.rings[e] <==> l.owner[i] == e + 1))
  }

  ghost predicate FreeOk(t: Table, l: Lists)
    requires Sized(t, l)
  {
    && t.head == First(l.free) && Chain(t.next, l.free) && l.owner[0] == 0
    && (forall i: nat :: i < |l.owner| ==> (i in l.free <==> i > 0 && l.owner[i] == 0))
  }

  /** A record on a ring is that of a handle which names the ring's entity and knows its record. */
  ghost predicate RecordOk(t: Table, l: Lists, i: nat)
    requires Sized(t, l) && i < |l.owner|
  {
    && l.owner[i] <= |l.rings|
    && if l.owner[i] == 0 then i > 0 ==> t.handle[i] == 0
       else 0 < t.handle[i] < |t.number| && t.number[t.handle[i]] == l.owner[i] && t.info[t.handle[i]] == i
  }

  /** A handle that names an entity has its record on that entity's ring. */
  ghost predicate HandleOk(t: Table, l: Lists, h: nat)
    requires Sized(t, l) && h < |t.number|
  {
    if t.number[h] == 0 then t.info[h] == 0
    else 0 < t.info[h] < |l.owner| && t.handle[t.info[h]] == h && l.owner[t.info[h]] == t.number[h]
  }

  ghost function UsedRecords(l: Lists): set<nat> {
    set i: nat | i < |l.owner| && l.owner[i] != 0
  }

  ghost predicate Ok(t: Table, l: Lists) {
    && Sized(t, l) && FreeOk(t, l)
    && (forall e: nat :: e < |l.rings| ==> RingOk(t, l, e))
    && (forall i: nat :: i < |l.owner| ==> RecordOk(t, l, i))
    && (forall h: nat :: 0 < h < |t.number| ==> HandleOk(t, l, h))
    && t.used == |UsedRecords(l)|
  }

  // ---------------------------------------------------------------- lists

  /** A ring read from its second record. */
  lemma Rotated(next: seq<nat>, prev: seq<nat>, s: seq<nat>)
    requires Cycle(next, s) && BackCycle(prev, s)
    ensures Cycle(next, s[1..] + [s[0]]) && BackCycle(prev, s[1..] + [s[0]])
    ensures forall y :: y in s[1..] + [s[0]] <==> y in s
  {
    var r := s[1..] + [s[0]];
    assert Distinct(r) by { RotatedDistinct(s); }
    RotatedElems(s);
    hide Distinct;
    forall i | 0 <= i < |r|
      ensures r[i] < |next| && next[r[i]] == Turn(r, i + 1)
    {
      var j := if i + 1 == |s| then 0 else i + 1;
      assert r[i] == s[j] && next[s[j]] == Turn(s, j + 1);
    }
    forall i | 0 <= i < |r|
      ensures r[i] < |prev| && prev[r[i]] == Before(r, i)
    {
      var j := if i + 1 == |s| then 0 else i + 1;
      assert r[i] == s[j];
      BackCycleAt(prev, s, j);
    }
    BackCycleFromPoints(prev, r);
  }

  lemma RotatedDistinct(s: seq<nat>)
    requires s != [] && Distinct(s)
    ensures Distinct(s[1..] + [s[0]])
  {}

  lemma RotatedElems(s: seq<nat>)
    requires s != []
    ensures forall y :: y in s[1..] + [s[0]] <==> y in s
  {
    forall y
      ensures y in s[1..] + [s[0]] <==> y in s
    {
      assert s == [s[0]] + s[1..];
    }
  }

  lemma ChainFrame(next: seq<nat>, next': seq<nat>, s: seq<nat>)
    requires Chain(next, s) && |next'| == |next| && forall y :: y in s ==> next'[y] == next[y]
    ensures Chain(next', s)
  {}

  lemma ChainFrom(next: seq<nat>, s: seq<nat>)
    requires Distinct(s) && forall i :: 0 <= i < |s| ==> 0 < s[i] < |next|
    requires forall i :: 0 <= i < |s| ==> next[s[i]] == if i + 1 < |s| then s[i + 1] else 0
    ensures Chain(next, s)
  {}

  lemma ChainTail(next: seq<nat>, s: seq<nat>)
    requires Chain(next, s) && s != []
    ensures Chain(next, s[1..]) && 0 < s[0] < |next| && next[s[0]] == First(s[1..])
    ensures forall y :: y in s[1..] <==> y in s && y != s[0]
  {
    hide Distinct, Chain;
    var r := s[1..];
    ChainAt(next, s, 0);
    TailDistinct(s);
    forall i | 0 <= i < |r|
      ensures 0 < r[i] < |next| && next[r[i]] == if i + 1 < |r| then r[i + 1] else 0
    {
      ChainAt(next, s, i + 1);
    }
    ChainFrom(next, r);
    assert s == [s[0]] + r;
  }

  /** Reading a chain at one position. */
  lemma ChainAt(next: seq<nat>, s: seq<nat>, i: nat)
    requires Chain(next, s) && i < |s|
    ensures 0 < s[i] < |next| && next[s[i]] == (if i + 1 < |s| then s[i + 1] else 0) && Distinct(s)
  {
  }

  lemma TailDistinct(s: seq<nat>)
    requires Distinct(s) && s != []
    ensures Distinct(s[1..]) && s[0] !in s[1..]
  {
    var r := s[1..];
    forall i | 0 <= i < |r| ensures r[i] != s[0] {
      assert r[i] == s[i + 1];
    }
  }

  lemma ChainPush(next: seq<nat>, s: seq<nat>, x: nat)
    requires Chain(next, s) && x !in s && 0 < x < |next| && next[x] == First(s)
    ensures Chain(next, [x] + s)
    ensures forall y :: y in [x] + s <==> y in s || y == x
  {
    SplicedDistinct([x], s);
  }

  /** A ring cut open after its last record, in front of a chain. */
  lemma ChainSplice(next: seq<nat>, next': seq<nat>, ring: seq<nat>, free: seq<nat>)
    requires Cycle(next, ring) && Chain(next, free) && |next'| == |next| && (forall y :: y in ring ==> y > 0 && y !in free)
    requires next'[ring[|ring| - 1]] == First(free)
    requires forall y: nat :: y < |next| && y != ring[|ring| - 1] ==> next'[y] == next[y]
    ensures Chain(next', ring + free)
  {
    hide Distinct;
    DistinctRing(next, ring);
    DistinctChain(next, free);
    var s := ring + free;
    SplicedDistinct(ring, free);
    OnlyAt(ring, |ring| - 1);
    forall i | 0 <= i < |s|
      ensures 0 < s[i] < |next| && next'[s[i]] == if i + 1 < |s| then s[i + 1] else 0
    {
      if i < |ring| {
        assert s[i] == ring[i] && ring[i] in ring && next[ring[i]] == Turn(ring, i + 1);
        assert i + 1 < |ring| ==> s[i + 1] == ring[i + 1];
        assert i + 1 == |ring| && free != [] ==> s[i + 1] == free[0];
      } else {
        var j := i - |ring|;
        assert s[i] == free[j] && free[j] in free && next[free[j]] == if j + 1 < |free| then free[j + 1] else 0;
        assert j + 1 < |free| ==> s[i + 1] == free[j + 1];
        assert ring[|ring| - 1] in ring;
      }
    }
    ChainFrom(next', s);
  }

  lemma DistinctChain(next: seq<nat>, s: seq<nat>)
    requires Chain(next, s)
    ensures Distinct(s) && forall y :: y in s ==> 0 < y < |next|
  {}

  lemma DistinctRing(next: seq<nat>, s: seq<nat>)
    requires Cycle(next, s)
    ensures Distinct(s) && s != [] && forall y :: y in s ==> y < |next|
  {}

  lemma SplicedDistinct(a: seq<nat>, b: seq<nat>)
    requires Distinct(a) && Distinct(b) && forall y :: y in a ==> y !in b
    ensures Distinct(a + b)
  {
    var s := a + b;
    forall i, j | 0 <= i < j < |s|
      ensures s[i] != s[j]
    {
      if i < |a| <= j {
        assert s[i] in a && s[j] in b;
      }
    }
  }

  lemma RingFrame(t: Table, l: Lists, t': Table, l': Lists, e: nat)
    requires Sized(t, l) && Sized(t', l') && |l'.rings| == |l.rings| && |l'.owner| == |l.owner| && e < |l.rings| && RingOk(t, l, e)
    requires l'.rings[e] == l.rings[e] && t'.first[e] == t.first[e]
    requires forall i: nat :: i < |l.owner| ==> (l'.owner[i] == e + 1 <==> l.owner[i] == e + 1)
    requires forall i: nat :: i < |l.owner| && l.owner[i] == e + 1 ==> t'.next[i] == t.next[i] && t'.prev[i] == t.prev[i]
    ensures RingOk(t', l', e)
  {
    if l.rings[e] != [] {
      InRange(t.next, l.rings[e]);
      CycleFrame(t.next, t'.next, l.rings[e]);
      BackCycleFrame(t.prev, t'.prev, l.rings[e]);
    }
  }

  lemma InRange(next: seq<nat>, s: seq<nat>)
    requires Cycle(next, s)
    ensures forall y :: y in s ==> y < |next|
  {}

  // ---------------------------------------------------------------- a handle comes to name an entity

  /** The first free record becomes that of handle `h`, on the ring of entity `e`. */
  function Added(t: Table, e: nat, h: nat): Table
    requires t.head < |t.next| == |t.prev| == |t.handle| && e < |t.first| && h < |t.number| == |t.info|
    requires t.first[e] < |t.next| && (t.first[e] != 0 ==> t.next[t.first[e]] < |t.next|)
  {
    var x, f := t.head, t.first[e];
    if f != 0 then
      Table(t.next[x := t.next[f]][f := x], t.prev[x := f][t.next[f] := x], t.handle[x := h], t.first, t.next[x], t.used + 1,
            t.number[h := e + 1], t.info[h := x])
    else
      Table(t.next[x := x], t.prev[x := x], t.handle[x := h], t.first[e := x], t.next[x], t.used + 1,
            t.number[h := e + 1], t.info[h := x])
  }

  ghost function AddedLists(t: Table, l: Lists, e: nat): Lists
    requires e < |l.rings| && t.head < |l.owner| && l.free != []
  {
    var ring := l.rings[e];
    Lists(l.rings[e := if ring == [] then [t.head] else With(ring, 1, t.head)], l.free[1..], l.owner[t.head := e + 1])
  }

  /** Handle `h` names nothing, and there is a free record. */
  ghost predicate CanAdd(t: Table, l: Lists, e: nat, h: nat) {
    Ok(t, l) && e < |l.rings| && 0 < h < |t.number| && t.number[h] == 0 && t.head != 0
  }

  lemma AddFacts(t: Table, l: Lists, e: nat, h: nat)
    requires CanAdd(t, l, e, h)
    ensures Sized(t, l) && l.free != [] && t.head == l.free[0] && 0 < t.head < |l.owner| && l.owner[t.head] == 0
    ensures t.first[e] == First(l.rings[e]) && t.first[e] < |l.owner| && (t.first[e] != 0 ==> t.next[t.first[e]] < |l.owner|)
    ensures l.rings[e] != [] ==> t.first[e] > 0 && Cycle(t.next, l.rings[e]) && BackCycle(t.prev, l.rings[e]) && t.next[t.first[e]] == Turn(l.rings[e], 1)
    ensures forall y :: y in l.rings[e] ==> 0 < y < |l.owner| && l.owner[y] == e + 1
    ensures t.head !in l.rings[e]
  {
    hide RecordOk, HandleOk, UsedRecords, Distinct, BackCycle, Chain;
    assert RingOk(t, l, e);
    FreeMembers(t, l);
    assert l.free[0] in l.free;
    if l.rings[e] != [] {
      assert l.rings[e][0] in l.rings[e];
      InRange(t.next, l.rings[e]);
      assert Turn(l.rings[e], 1) in l.rings[e];
    }
  }

  lemma AddedRing(t: Table, l: Lists, e: nat, h: nat, t': Table, l': Lists)
    requires CanAdd(t, l, e, h) && Sized(t, l) && t.head < |t.next| && t.first[e] < |t.next| && l.free != []
    requires t.first[e] != 0 ==> t.next[t.first[e]] < |t.next|
    requires t' == Added(t, e, h) && l' == AddedLists(t, l, e)
    ensures Sized(t', l') && RingOk(t', l', e)
  {
    hide Distinct, Cycle, BackCycle, Ok;
    AddFacts(t, l, e, h);
    var ring, x := l.rings[e], t.head;
    RingMembers(t, l, e);
    if ring == [] {
      Alone(t'.next, t'.prev, x);
    } else {
      DistinctRing(t.next, ring);
      CycleInsert(t.next, t'.next, ring, 1, x);
      TurnInside(t.next, ring, 1);
      BackCycleInsert(t.prev, t'.prev, ring, 1, x);
      WithElems(ring, 1, x);
    }
  }

  lemma TurnInside(next: seq<nat>, s: seq<nat>, i: nat)
    requires Cycle(next, s) && i <= |s|
    ensures Turn(s, i) in s
  {}

  lemma Alone(next: seq<nat>, prev: seq<nat>, x: nat)
    requires x < |next| && x < |prev| && next[x] == x && prev[x] == x
    ensures Cycle(next, [x]) && BackCycle(prev, [x])
  {}

  lemma RingMembers(t: Table, l: Lists, e: nat)
    requires Ok(t, l) && e < |l.rings|
    ensures forall i: nat :: i < |l.owner| ==> (i in l.rings[e] <==> l.owner[i] == e + 1)
  {
    assert RingOk(t, l, e);
  }

  lemma AddedFree(t: Table, l: Lists, e: nat, h: nat, t': Table, l': Lists)
    requires CanAdd(t, l, e, h) && Sized(t, l) && t.head < |t.next| && t.first[e] < |t.next| && l.free != []
    requires t.first[e] != 0 ==> t.next[t.first[e]] < |t.next|
    requires t' == Added(t, e, h) && l' == AddedLists(t, l, e)
    ensures Sized(t', l') && FreeOk(t', l')
  {
    hide Cycle, BackCycle, RingOk, RecordOk, HandleOk, UsedRecords, With, Chain, Distinct;
    AddFacts(t, l, e, h);
    FreeMembers(t, l);
    ChainTail(t.next, l.free);
    var rest := l.free[1..];
    forall y | y in rest
      ensures t'.next[y] == t.next[y]
    {
      assert l.rings[e] != [] ==> l.rings[e][0] in l.rings[e];
    }
    ChainFrame(t.next, t'.next, rest);
  }

  lemma FreeMembers(t: Table, l: Lists)
    requires Ok(t, l)
    ensures t.head == First(l.free) && Chain(t.next, l.free) && l.owner[0] == 0
    ensures forall y :: y in l.free ==> 0 < y < |t.next|
    ensures forall i: nat :: i < |l.owner| ==> (i in l.free <==> i > 0 && l.owner[i] == 0)
  {
    hide RingOk, RecordOk, HandleOk, UsedRecords;
    DistinctChain(t.next, l.free);
  }

  /** A handle that named nothing names `e`; every other handle is as before. */
  lemma AddedOk(t: Table, l: Lists, e: nat, h: nat)
    requires CanAdd(t, l, e, h)
    ensures t.head < |t.next| == |t.prev| == |t.handle| && e < |t.first| && h < |t.number| == |t.info|
    ensures t.first[e] < |t.next| && (t.first[e] != 0 ==> t.next[t.first[e]] < |t.next|) && t.head < |l.owner| && l.free != []
    ensures Ok(Added(t, e, h), AddedLists(t, l, e))
  {
    hide Distinct, Cycle, BackCycle, RingOk, FreeOk, With;
    AddFacts(t, l, e, h);
    var t', l' := Added(t, e, h), AddedLists(t, l, e);
    AddedRing(t, l, e, h, t', l');
    AddedFree(t, l, e, h, t', l');
    forall d: nat | d < |l'.rings|
      ensures RingOk(t', l', d)
    {
      if d != e {
        RingMembers(t, l, e);
        assert RingOk(t, l, d);
        RingFrame(t, l, t', l', d);
      }
    }
    forall i: nat | i < |l'.owner|
      ensures RecordOk(t', l', i)
    {
      assert RecordOk(t, l, i);
      assert l.owner[i] != 0 ==> HandleOk(t, l, t.handle[i]);
    }
    forall g: nat | 0 < g < |t'.number|
      ensures HandleOk(t', l', g)
    {
      assert HandleOk(t, l, g);
    }
    UsedMore(l, l', t.head);
  }

  lemma UsedMore(l: Lists, l': Lists, x: nat)
    requires x < |l.owner| == |l'.owner| && l.owner[x] == 0 && l'.owner[x] != 0
    requires forall i: nat :: i < |l.owner| && i != x ==> (l'.owner[i] == 0 <==> l.owner[i] == 0)
    ensures |UsedRecords(l')| == |UsedRecords(l)| + 1
  {
    assert UsedRecords(l') == UsedRecords(l) + {x};
  }

  // ---------------------------------------------------------------- a handle stops naming an entity

  /** The record of handle `h` goes to the front of the free list. */
  function Removed(t: Table, h: nat): Table
    requires |t.next| == |t.prev| == |t.handle| && h < |t.number| == |t.info| && t.info[h] < |t.next| && 0 < t.number[h] <= |t.first|
    requires t.next[t.info[h]] < |t.next| && t.prev[t.info[h]] < |t.next| && t.used > 0
  {
    var x, e := t.info[h], t.number[h] - 1;
    Table(t.next[t.prev[x] := t.next[x]][x := t.head], t.prev[t.next[x] := t.prev[x]], t.handle[x := 0],
          if t.first[e] == x then t.first[e := if x != t.next[x] then t.next[x] else 0] else t.first, x, t.used - 1,
          t.number[h := 0], t.info[h := 0])
  }

  ghost function RemovedLists(t: Table, l: Lists, e: nat, k: nat): Lists
    requires e < |l.rings| && k < |l.rings[e]| && l.rings[e][k] < |l.owner|
  {
    var ring := l.rings[e];
    Lists(l.rings[e := Without(ring, k)], [ring[k]] + l.free, l.owner[ring[k] := 0])
  }

  /** Handle `h` names `e`; its record is at position `k` of the ring. */
  ghost predicate CanRemove(t: Table, l: Lists, h: nat, e: nat, k: nat) {
    && Ok(t, l) && 0 < h < |t.number| && t.number[h] == e + 1 && e < |l.rings| && k < |l.rings[e]| && l.rings[e][k] == t.info[h]
  }

  lemma RecordPosition(t: Table, l: Lists, h: nat) returns (e: nat, k: nat)
    requires Ok(t, l) && 0 < h < |t.number| && t.number[h] != 0
    ensures CanRemove(t, l, h, e, k)
  {
    assert HandleOk(t, l, h);
    assert RecordOk(t, l, t.info[h]);
    e := t.number[h] - 1;
    assert RingOk(t, l, e);
    assert t.info[h] in l.rings[e];
    k :| 0 <= k < |l.rings[e]| && l.rings[e][k] == t.info[h];
  }

  lemma RemoveFacts(t: Table, l: Lists, h: nat, e: nat, k: nat)
    requires CanRemove(t, l, h, e, k)
    ensures Sized(t, l) && 0 < t.info[h] < |l.owner| && l.owner[t.info[h]] == e + 1 && t.handle[t.info[h]] == h
    ensures Cycle(t.next, l.rings[e]) && BackCycle(t.prev, l.rings[e]) && t.first[e] == l.rings[e][0] && t.used > 0
    ensures forall y :: y in l.rings[e] ==> 0 < y < |l.owner| && l.owner[y] == e + 1
    ensures var ring, x := l.rings[e], t.info[h];
      && t.next[x] == Turn(ring, k + 1) && t.prev[x] == Before(ring, k) && t.next[x] in ring && t.prev[x] in ring
      && t.next[x] < |l.owner| && t.prev[x] < |l.owner|
  {
    hide RecordOk, Distinct, Chain;
    assert RingOk(t, l, e) && HandleOk(t, l, h);
    var ring, x := l.rings[e], t.info[h];
    assert ring[k] in ring;
    InRange(t.next, ring);
    BackCycleAt(t.prev, ring, k);
    assert Turn(ring, k + 1) in ring && Before(ring, k) in ring;
    assert x in UsedRecords(l);
  }

  lemma RemovedRing(t: Table, l: Lists, h: nat, e: nat, k: nat, t': Table, l': Lists)
    requires CanRemove(t, l, h, e, k) && Sized(t, l) && 0 < t.info[h] < |l.owner| && t.used > 0
    requires t.next[t.info[h]] < |t.next| && t.prev[t.info[h]] < |t.next|
    requires t' == Removed(t, h) && l' == RemovedLists(t, l, e, k)
    ensures Sized(t', l') && RingOk(t', l', e)
  {
    hide Distinct, Cycle, BackCycle, Ok;
    RemoveFacts(t, l, h, e, k);
    var ring, x := l.rings[e], t.info[h];
    RingMembers(t, l, e);
    DistinctRing(t.next, ring);
    WithoutElems(ring, k);
    if |ring| > 1 {
      if k > 0 {
        RemovedInside(t, l, h, e, k, t');
      } else {
        Rotated(t.next, t.prev, ring);
        RemovedFirst(t, l, h, e, t');
      }
    }
  }

  lemma RemovedInside(t: Table, l: Lists, h: nat, e: nat, k: nat, t': Table)
    requires CanRemove(t, l, h, e, k) && Sized(t, l) && 0 < t.info[h] < |l.owner| && t.used > 0 && k > 0
    requires t.next[t.info[h]] < |t.next| && t.prev[t.info[h]] < |t.next| && t' == Removed(t, h)
    ensures Cycle(t'.next, Without(l.rings[e], k)) && BackCycle(t'.prev, Without(l.rings[e], k)) && t'.first[e] == l.rings[e][0]
  {
    hide Cycle, BackCycle, Ok;
    RemoveFacts(t, l, h, e, k);
    var ring := l.rings[e];
    DistinctRing(t.next, ring);
    OnlyAt(ring, k);
    OnlyAt(ring, 0);
    hide Distinct;
    CycleRemove(t.next, t'.next, ring, k);
    BackCycleRemove(t.prev, t'.prev, ring, k);
  }

  lemma RemovedFirst(t: Table, l: Lists, h: nat, e: nat, t': Table)
    requires CanRemove(t, l, h, e, 0) && Sized(t, l) && 0 < t.info[h] < |l.owner| && t.used > 0 && |l.rings[e]| > 1
    requires t.next[t.info[h]] < |t.next| && t.prev[t.info[h]] < |t.next| && t' == Removed(t, h)
    requires var r := l.rings[e][1..] + [l.rings[e][0]]; Cycle(t.next, r) && BackCycle(t.prev, r)
    ensures Cycle(t'.next, Without(l.rings[e], 0)) && BackCycle(t'.prev, Without(l.rings[e], 0)) && t'.first[e] == l.rings[e][1]
  {
    hide Cycle, BackCycle, Ok;
    RemoveFacts(t, l, h, e, 0);
    var ring := l.rings[e];
    var r := ring[1..] + [ring[0]];
    DistinctRing(t.next, r);
    DistinctRing(t.next, ring);
    OnlyAt(r, |r| - 1);
    OnlyAt(ring, 0);
    assert ring[1] in ring && ring[1] != ring[0];
    hide Distinct;
    CycleRemove(t.next, t'.next, r, |r| - 1);
    BackCycleRemove(t.prev, t'.prev, r, |r| - 1);
    assert Without(r, |r| - 1) == ring[1..] == Without(ring, 0);
  }

  lemma RemovedFree(t: Table, l: Lists, h: nat, e: nat, k: nat, t': Table, l': Lists)
    requires CanRemove(t, l, h, e, k) && Sized(t, l) && 0 < t.info[h] < |l.owner| && t.used > 0
    requires t.next[t.info[h]] < |t.next| && t.prev[t.info[h]] < |t.next|
    requires t' == Removed(t, h) && l' == RemovedLists(t, l, e, k)
    ensures Sized(t', l') && FreeOk(t', l')
  {
    hide Cycle, BackCycle, RingOk, RecordOk, HandleOk, UsedRecords, Without, Chain, Distinct;
    RemoveFacts(t, l, h, e, k);
    FreeMembers(t, l);
    ChainFrame(t.next, t'.next, l.free);
    ChainPush(t'.next, l.free, t.info[h]);
  }

  /** A handle that named `e` names nothing; every other handle is as before. */
  lemma RemovedOk(t: Table, l: Lists, h: nat, e: nat, k: nat)
    requires CanRemove(t, l, h, e, k)
    ensures |t.next| == |t.prev| == |t.handle| && h < |t.number| == |t.info| && t.info[h] < |t.next| && 0 < t.number[h] <= |t.first|
    ensures t.next[t.info[h]] < |t.next| && t.prev[t.info[h]] < |t.next| && t.used > 0 && t.info[h] < |l.owner|
    ensures Ok(Removed(t, h), RemovedLists(t, l, e, k))
  {
    hide Distinct, Cycle, BackCycle, RingOk, FreeOk, Without;
    RemoveFacts(t, l, h, e, k);
    var t', l' := Removed(t, h), RemovedLists(t, l, e, k);
    RemovedRing(t, l, h, e, k, t', l');
    RemovedFree(t, l, h, e, k, t', l');
    forall d: nat | d < |l'.rings|
      ensures RingOk(t', l', d)
    {
      if d != e {
        assert RingOk(t, l, d);
        RingFrame(t, l, t', l', d);
      }
    }
    forall i: nat | i < |l'.owner|
      ensures RecordOk(t', l', i)
    {
      assert RecordOk(t, l, i);
      assert l.owner[i] != 0 && i != t.info[h] ==> t.handle[i] != h;
    }
    forall g: nat | 0 < g < |t'.number|
      ensures HandleOk(t', l', g)
    {
      assert HandleOk(t, l, g) && HandleOk(t, l, h);
    }
    UsedMore(l', l, t.info[h]);
  }

  // ---------------------------------------------------------------- an entity goes

  /** The handles of the first `k` records of `ring`, which is that of entity `e`, have been cleared. */
  ghost predicate Cleared(t: Table, u: Table, ring: seq<nat>, e: nat, k: nat) {
    && |u.next| == |u.prev| == |u.handle| == |t.next| == |t.prev| == |t.handle| && |u.number| == |u.info| == |t.number| == |t.info|
    && k <= |ring| && e < |t.first| && u.next == t.next && u.prev == t.prev && u.first == t.first[e := 0] && u.head == t.head && t.used - k == u.used
    && (forall i: nat :: i < |t.handle| ==> u.handle[i] == if i in ring[..k] then 0 else t.handle[i])
    && (forall g: nat :: 0 < g < |t.number| ==>
          && u.number[g] == (if t.number[g] == e + 1 && t.info[g] in ring[..k] then 0 else t.number[g])
          && u.info[g] == (if t.number[g] == e + 1 && t.info[g] in ring[..k] then 0 else t.info[g]))
  }

  /** What has happened to the lists when the whole ring of `e` has gone to the free list. */
  ghost function DissociatedLists(l: Lists, e: nat): Lists
    requires e < |l.rings|
  {
    Lists(l.rings[e := []], l.rings[e] + l.free, seq(|l.owner|, i requires 0 <= i < |l.owner| => if l.owner[i] == e + 1 then 0 else l.owner[i]))
  }

  lemma RingFacts(t: Table, l: Lists, e: nat)
    requires Ok(t, l) && e < |l.rings| && l.rings[e] != []
    ensures Sized(t, l) && t.first[e] == l.rings[e][0] && Cycle(t.next, l.rings[e]) && BackCycle(t.prev, l.rings[e])
    ensures forall y :: y in l.rings[e] ==> 0 < y < |l.owner| && l.owner[y] == e + 1
    ensures forall y: nat :: y < |l.owner| ==> (y in l.rings[e] <==> l.owner[y] == e + 1)
    ensures t.prev[t.first[e]] == l.rings[e][|l.rings[e]| - 1]
  {
    hide RecordOk, HandleOk, UsedRecords, Cycle, BackCycle, Chain;
    assert RingOk(t, l, e);
    var s := l.rings[e];
    assert s[0] in s;
    InRange(t.next, s);
    BackCycleAt(t.prev, s, 0);
  }

  /** Record `k` of the ring, and its handle. */
  lemma RingRecord(t: Table, l: Lists, e: nat, k: nat)
    requires Ok(t, l) && e < |l.rings| && k < |l.rings[e]|
    ensures var x := l.rings[e][k];
      && Sized(t, l) && 0 < x < |l.owner| && 0 < t.handle[x] < |t.number| && t.number[t.handle[x]] == e + 1 && t.info[t.handle[x]] == x
      && t.next[x] == Turn(l.rings[e], k + 1) && x !in l.rings[e][..k]
  {
    RingFacts(t, l, e);
    var x := l.rings[e][k];
    assert x in l.rings[e];
    assert RecordOk(t, l, x);
    OnlyAt(l.rings[e], k);
  }

  /** Clearing one more handle. */
  lemma ClearedMore(t: Table, l: Lists, u: Table, u': Table, e: nat, k: nat)
    requires Ok(t, l) && e < |l.rings| && k < |l.rings[e]| && Cleared(t, u, l.rings[e], e, k) && u.used > 0
    requires var x := l.rings[e][k];
      && x < |u.handle| && u.handle[x] < |u.number|
      && u' == u.(number := u.number[u.handle[x] := 0], info := u.info[u.handle[x] := 0], handle := u.handle[x := 0], used := u.used - 1)
    ensures Cleared(t, u', l.rings[e], e, k + 1)
  {
    RingRecord(t, l, e, k);
    hide RingOk, RecordOk, FreeOk, UsedRecords;
    var ring, x := l.rings[e], l.rings[e][k];
    assert ring[..k + 1] == ring[..k] + [x];
    forall g: nat | 0 < g < |t.number|
      ensures t.number[g] == e + 1 && t.info[g] == x ==> g == t.handle[x]
    {
      if t.number[g] == e + 1 {
        assert HandleOk(t, l, g);
      }
    }
  }

  /** Dissociating an entity clears exactly the handles that named it. */
  lemma DissociatedOk(t: Table, l: Lists, u: Table, e: nat)
    requires Ok(t, l) && e < |l.rings| && l.rings[e] != [] && Cleared(t, u, l.rings[e], e, |l.rings[e]|)
    ensures t.first[e] < |t.prev| && t.prev[t.first[e]] < |u.next|
    ensures var t' := u.(next := u.next[t.prev[t.first[e]] := u.head], head := t.first[e]);
      && Ok(t', DissociatedLists(l, e))
      && forall g: nat :: 0 < g < |t.number| ==> t'.number[g] == if t.number[g] == e + 1 then 0 else t.number[g]
  {
    hide Distinct, Cycle, BackCycle, RingOk, FreeOk, RecordOk, HandleOk, UsedRecords;
    RingFacts(t, l, e);
    assert Sized(t, l);
    assert l.rings[e][|l.rings[e]| - 1] in l.rings[e] && l.rings[e][0] in l.rings[e];
    var t' := u.(next := u.next[t.prev[t.first[e]] := u.head], head := t.first[e]);
    var l', ring := DissociatedLists(l, e), l.rings[e];
    assert ring[..|ring|] == ring;
    DissociatedFree(t, l, t', e);
    forall d: nat | d < |l'.rings|
      ensures RingOk(t', l', d)
    {
      DissociatedRing(t, l, u, t', e, d);
    }
    forall i: nat | i < |l'.owner|
      ensures RecordOk(t', l', i)
    {
      DissociatedRecord(t, l, u, t', e, i);
    }
    forall g: nat | 0 < g < |t'.number|
      ensures HandleOk(t', l', g) && t'.number[g] == if t.number[g] == e + 1 then 0 else t.number[g]
    {
      DissociatedHandle(t, l, u, t', e, g);
    }
    DissociatedUsed(t, l, e);
  }

  lemma DissociatedFree(t: Table, l: Lists, t': Table, e: nat)
    requires Ok(t, l) && e < |l.rings| && l.rings[e] != [] && t.first[e] < |t.prev| && t.prev[t.first[e]] < |t.next| && Sized(t, l)
    requires Sized(t', DissociatedLists(l, e)) && t'.next == t.next[t.prev[t.first[e]] := t.head] && t'.head == t.first[e]
    ensures FreeOk(t', DissociatedLists(l, e))
  {
    hide Distinct, Cycle, BackCycle, Chain, RingOk, RecordOk, HandleOk, UsedRecords;
    RingFacts(t, l, e);
    FreeMembers(t, l);
    ChainSplice(t.next, t'.next, l.rings[e], l.free);
  }

  lemma DissociatedRing(t: Table, l: Lists, u: Table, t': Table, e: nat, d: nat)
    requires Ok(t, l) && e < |l.rings| && l.rings[e] != [] && t.first[e] < |t.prev| && t.prev[t.first[e]] < |t.next| && Sized(t, l)
    requires Cleared(t, u, l.rings[e], e, |l.rings[e]|) && Sized(t', DissociatedLists(l, e)) && d < |l.rings|
    requires t' == u.(next := u.next[t.prev[t.first[e]] := u.head], head := t.first[e])
    ensures RingOk(t', DissociatedLists(l, e), d)
  {
    hide Distinct, Cycle, BackCycle, FreeOk, RecordOk, HandleOk, UsedRecords;
    RingFacts(t, l, e);
    assert l.rings[e][|l.rings[e]| - 1] in l.rings[e];
    assert RingOk(t, l, d);
    if d != e {
      RingFrame(t, l, t', DissociatedLists(l, e), d);
    }
  }

  lemma DissociatedRecord(t: Table, l: Lists, u: Table, t': Table, e: nat, i: nat)
    requires Ok(t, l) && e < |l.rings| && l.rings[e] != [] && t.first[e] < |t.prev| && t.prev[t.first[e]] < |t.next| && Sized(t, l)
    requires Cleared(t, u, l.rings[e], e, |l.rings[e]|) && Sized(t', DissociatedLists(l, e)) && i < |l.owner|
    requires t' == u.(next := u.next[t.prev[t.first[e]] := u.head], head := t.first[e])
    ensures RecordOk(t', DissociatedLists(l, e), i)
  {
    hide Distinct, Cycle, BackCycle, FreeOk, RingOk, HandleOk, UsedRecords;
    RingFacts(t, l, e);
    assert RecordOk(t, l, i);
    assert l.rings[e][..|l.rings[e]|] == l.rings[e];
  }

  lemma DissociatedHandle(t: Table, l: Lists, u: Table, t': Table, e: nat, g: nat)
    requires Ok(t, l) && e < |l.rings| && l.rings[e] != [] && t.first[e] < |t.prev| && t.prev[t.first[e]] < |t.next| && Sized(t, l)
    requires Cleared(t, u, l.rings[e], e, |l.rings[e]|) && Sized(t', DissociatedLists(l, e)) && 0 < g < |t.number|
    requires t' == u.(next := u.next[t.prev[t.first[e]] := u.head], head := t.first[e])
    ensures HandleOk(t', DissociatedLists(l, e), g) && t'.number[g] == if t.number[g] == e + 1 then 0 else t.number[g]
  {
    hide Distinct, Cycle, BackCycle, FreeOk, RingOk, RecordOk, UsedRecords;
    RingFacts(t, l, e);
    assert HandleOk(t, l, g);
    assert l.rings[e][..|l.rings[e]|] == l.rings[e];
  }

  lemma DissociatedUsed(t: Table, l: Lists, e: nat)
    requires Ok(t, l) && e < |l.rings| && l.rings[e] != []
    ensures |UsedRecords(DissociatedLists(l, e))| == t.used - |l.rings[e]|
  {
    hide BackCycle, FreeOk, RecordOk, HandleOk;
    RingFacts(t, l, e);
    var ring, l' := l.rings[e], DissociatedLists(l, e);
    DistinctSize(ring);
    assert UsedRecords(l) == UsedRecords(l') + Members(ring);
    assert UsedRecords(l') !! Members(ring);
    hide Cycle, Distinct, RingOk, UsedRecords, Members;
    assert |UsedRecords(l)| == |UsedRecords(l')| + |Members(ring)|;
  }

  ghost function Members(s: seq<nat>): set<nat> {
    set y | y in s
  }

  lemma {:induction false} DistinctSize(s: seq<nat>)
    requires Distinct(s)
    ensures |Members(s)| == |s|
  {
    if s == [] {
      assert Members(s) == {};
    } else {
      var front, last := s[..|s| - 1], s[|s| - 1];
      DistinctSize(front);
      assert s == front + [last];
      assert Members(s) == Members(front) + {last};
      assert last !in Members(front);
    }
  }
}
