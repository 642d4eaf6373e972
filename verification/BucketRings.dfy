/**
 A hash table whose buckets are rings threaded through the table itself. A slot is free, the
 head of the bucket with its own number, or a movable member of some other bucket's ring.
 Slot 0 heads the doubly linked list of free slots.
 */
module BucketRings {
  import opened Rings

  datatype Status = Free | Movable | Head | External

  /** The table's columns. A used slot's `link` is its item, a free slot's is the previous free slot. */
  datatype Slots = Slots(status: seq<Status>, next: seq<nat>, link: seq<nat>)

  /**
   The table read as lists: the free slots, the ring of each bucket, the bucket that owns each
   slot (0 for free ones), and the slot of each item.
   */
  datatype Shape = Shape(free: seq<nat>, rings: map<nat, seq<nat>>, owner: seq<nat>, at: map<nat, nat>)

  ghost predicate Sized(t: Slots, g: Shape) {
    |t.status| == |t.next| == |t.link| == |g.owner| > 0
  }

  ghost predicate FreeList(t: Slots, g: Shape)
    requires Sized(t, g)
  {
    && Cycle(t.next, g.free) && BackCycle(t.link, g.free) && g.free[0] == 0
    && forall i: nat :: i < |g.owner| ==> (i in g.free <==> g.owner[i] == 0)
  }

  ghost predicate RingAt(t: Slots, g: Shape, h: nat)
    requires Sized(t, g) && h in g.rings
  {
    && 0 < h < |g.owner| && Cycle(t.next, g.rings[h]) && g.rings[h][0] == h
    && forall i: nat :: i < |g.owner| ==> (i in g.rings[h] <==> g.owner[i] == h)
  }

  ghost predicate StatusAt(t: Slots, g: Shape, i: nat)
    requires Sized(t, g) && i < |g.owner|
  {
    && (g.owner[i] == 0 || g.owner[i] in g.rings)
    && t.status[i] == (if g.owner[i] == 0 then Free else if g.owner[i] == i then Head else Movable)
  }

  /** Every slot is in exactly one list, and the links and states agree with the lists. */
  ghost predicate Threaded(t: Slots, g: Shape) {
    && Sized(t, g) && FreeList(t, g)
    && (forall h: nat :: h in g.rings ==> RingAt(t, g, h))
    && (forall i: nat :: i < |g.owner| ==> StatusAt(t, g, i))
  }

  /** Every item sits in exactly one slot of its bucket, and every used slot holds an item. */
  ghost predicate Located(t: Slots, g: Shape, bucket: map<nat, nat>)
    requires Sized(t, g)
  {
    && g.at.Keys == bucket.Keys
    && (forall x: nat :: x in g.at ==>
          0 < g.at[x] < |g.owner| && g.owner[g.at[x]] == bucket[x] != 0 && t.link[g.at[x]] == x)
    && (forall i: nat :: i < |g.owner| && g.owner[i] != 0 ==> t.link[i] in g.at && g.at[t.link[i]] == i)
  }

  /** The table stores each item in its bucket. */
  ghost predicate Stores(t: Slots, g: Shape, bucket: map<nat, nat>) {
    Threaded(t, g) && Located(t, g, bucket)
  }

  // ---------------------------------------------------------------- frames

  lemma InTable(next: seq<nat>, s: seq<nat>)
    requires Cycle(next, s)
    ensures forall y :: y in s ==> y < |next|
  {}

  lemma RingFrame(t: Slots, t': Slots, g: Shape, g': Shape, h: nat)
    requires Sized(t, g) && Sized(t', g') && |g'.owner| == |g.owner|
    requires h in g.rings && h in g'.rings && RingAt(t, g, h)
    requires g'.rings[h] == g.rings[h]
    requires forall i: nat :: i < |g.owner| ==> (g'.owner[i] == h <==> g.owner[i] == h)
    requires forall i: nat :: i < |g.owner| && g.owner[i] == h ==> t'.next[i] == t.next[i]
    ensures RingAt(t', g', h)
  {
    hide Distinct;
    var ring := g.rings[h];
    InTable(t.next, ring);
    CycleFrame(t.next, t'.next, ring);
  }

  lemma FreeFrame(t: Slots, t': Slots, g: Shape, g': Shape)
    requires Sized(t, g) && Sized(t', g') && |g'.owner| == |g.owner| && FreeList(t, g) && g'.free == g.free
    requires forall i: nat :: i < |g.owner| ==> (g'.owner[i] == 0 <==> g.owner[i] == 0)
    requires forall i: nat :: i < |g.owner| && g.owner[i] == 0 ==> t'.next[i] == t.next[i] && t'.link[i] == t.link[i]
    ensures FreeList(t', g')
  {
    hide Distinct;
    InTable(t.next, g.free);
    CycleFrame(t.next, t'.next, g.free);
    BackCycleFrame(t.link, t'.link, g.free);
  }

  // ---------------------------------------------------------------- the free list

  ghost function UpTo(n: nat): seq<nat> {
    seq(n, i => i)
  }

  lemma UpToCycle(next: seq<nat>, prev: seq<nat>, n: nat)
    requires |next| == |prev| == n > 0
    requires forall i: nat :: i < n ==> next[i] == if i + 1 == n then 0 else i + 1
    requires forall i: nat :: i < n ==> prev[i] == if i == 0 then n - 1 else i - 1
    ensures Cycle(next, UpTo(n)) && BackCycle(prev, UpTo(n))
    ensures forall i: nat :: i < n ==> i in UpTo(n)
  {
    var s := UpTo(n);
    forall i: nat | i < n
      ensures s[i] == i && i in s && next[s[i]] == Turn(s, i + 1) && prev[s[i]] == Before(s, i)
    {
      assert s[i] == i;
    }
    BackCycleFromPoints(prev, s);
  }

  /** The slots after taking position `k` of the free list out of the list. */
  function Unlinked(t: Slots, x: nat): Slots
    requires x < |t.next| == |t.link| && t.link[x] < |t.next| && t.next[x] < |t.next|
  {
    t.(next := t.next[t.link[x] := t.next[x]], link := t.link[t.next[x] := t.link[x]])
  }

  lemma FreeNeighbours(t: Slots, g: Shape, k: nat)
    requires Sized(t, g) && FreeList(t, g) && 0 < k < |g.free|
    ensures var x := g.free[k];
      && 0 < x < |g.owner| && g.owner[x] == 0
      && t.link[x] == g.free[k - 1] && t.link[x] in g.free && t.link[x] < |g.owner|
      && t.next[x] == Turn(g.free, k + 1) && t.next[x] in g.free && t.next[x] < |g.owner|
  {
    var x := g.free[k];
    OnlyAt(g.free, k);
    hide Distinct;
    InTable(t.next, g.free);
    assert x in g.free && g.free[k - 1] in g.free && Turn(g.free, k + 1) in g.free;
    BackCycleAt(t.link, g.free, k);
  }

  lemma UnlinkFree(t: Slots, g: Shape, k: nat)
    requires Sized(t, g) && FreeList(t, g) && 0 < k < |g.free|
    ensures t.link[g.free[k]] < |g.owner| && t.next[g.free[k]] < |g.owner|
    ensures var t', free' := Unlinked(t, g.free[k]), Without(g.free, k);
      && Cycle(t'.next, free') && BackCycle(t'.link, free') && free'[0] == 0
      && (forall i: nat :: i in free' <==> i in g.free && i != g.free[k])
      && (forall i: nat :: i < |g.owner| && g.owner[i] != 0 ==> t'.next[i] == t.next[i] && t'.link[i] == t.link[i])
  {
    hide Distinct, Turn, BackCycle, Cycle, Without;
    FreeNeighbours(t, g, k);
    assert Cycle(t.next, g.free);
    CycleAt(t.next, g.free, k);
    CycleAt(t.next, g.free, k - 1);
    WithoutTurn(g.free, k, 0);
    var t' := Unlinked(t, g.free[k]);
    InTable(t.next, g.free);
    WithoutElems(g.free, k);
    CycleRemove(t.next, t'.next, g.free, k);
    UnlinkFreeBack(t, g, k);
  }

  lemma UnlinkFreeBack(t: Slots, g: Shape, k: nat)
    requires Sized(t, g) && FreeList(t, g) && 0 < k < |g.free|
    ensures t.link[g.free[k]] < |g.owner| && t.next[g.free[k]] < |g.owner|
    ensures BackCycle(Unlinked(t, g.free[k]).link, Without(g.free, k))
  {
    FreeNeighbours(t, g, k);
    hide Distinct, Turn, BackCycle;
    InTable(t.next, g.free);
    BackCycleRemove(t.link, Unlinked(t, g.free[k]).link, g.free, k);
  }

  /** Taking the first free slot out of the free list touches no used slot. */
  lemma UnlinkFirst(t: Slots, g: Shape)
    requires Sized(t, g) && FreeList(t, g) && |g.free| > 1
    ensures var n := t.next[0];
      && n == g.free[1] && 0 < n < |g.owner| && g.owner[n] == 0 && t.next[n] < |g.owner| && t.link[n] == 0
      && |Unlinked(t, n).next| == |Unlinked(t, n).link| == |g.owner| && Unlinked(t, n).status == t.status
      && forall i: nat :: i < |g.owner| && g.owner[i] != 0 ==>
           Unlinked(t, n).next[i] == t.next[i] && Unlinked(t, n).link[i] == t.link[i]
  {
    FirstFree(t, g);
    UnlinkFree(t, g, 1);
  }

  /** The slots after putting `x` at the front of the free list. */
  function Pushed(t: Slots, x: nat): Slots
    requires 0 < x < |t.next| == |t.link| == |t.status| && t.next[0] < |t.next|
  {
    Slots(t.status[x := Free], t.next[x := t.next[0]][0 := x], t.link[x := 0][t.next[0] := x])
  }

  lemma PushFree(t: Slots, free: seq<nat>, x: nat)
    requires |t.next| == |t.link| == |t.status|
    requires Cycle(t.next, free) && BackCycle(t.link, free) && free[0] == 0
    requires 0 < x < |t.next| && x !in free
    ensures t.next[0] in free && t.next[0] < |t.next|
    ensures var t', free' := Pushed(t, x), With(free, 1, x);
      && Cycle(t'.next, free') && BackCycle(t'.link, free') && free'[0] == 0
      && (forall i: nat :: i in free' <==> i in free || i == x)
      && (forall i: nat :: i < |t.next| && i !in free && i != x ==> t'.next[i] == t.next[i] && t'.link[i] == t.link[i])
  {
    hide Distinct;
    InTable(t.next, free);
    assert t.next[free[0]] == Turn(free, 1);
    assert Turn(free, 1) in free;
    var t' := Pushed(t, x);
    WithElems(free, 1, x);
    CycleInsert(t.next, t'.next, free, 1, x);
    BackCycleInsert(t.link, t'.link, free, 1, x);
    assert free[0] in free;
  }

  /** The free list once slot `x`, at position `k`, has left it and `t'` is written elsewhere. */
  lemma FreeListAfterUnlink(t: Slots, g: Shape, k: nat, t': Slots, g': Shape)
    requires Sized(t, g) && Sized(t', g') && |g'.owner| == |g.owner| && FreeList(t, g) && 0 < k < |g.free|
    requires g'.free == Without(g.free, k)
    requires forall i: nat :: i < |g.owner| ==> (g'.owner[i] == 0 <==> g.owner[i] == 0 && i != g.free[k])
    requires t.link[g.free[k]] < |g.owner| && t.next[g.free[k]] < |g.owner|
    requires forall i: nat :: i < |g.owner| && g'.owner[i] == 0 ==>
      t'.next[i] == Unlinked(t, g.free[k]).next[i] && t'.link[i] == Unlinked(t, g.free[k]).link[i]
    ensures FreeList(t', g')
  {
    hide Distinct, Without;
    var u, free' := Unlinked(t, g.free[k]), Without(g.free, k);
    UnlinkFree(t, g, k);
    InTable(u.next, free');
    CycleFrame(u.next, t'.next, free');
    BackCycleFrame(u.link, t'.link, free');
  }

  // ---------------------------------------------------------------- a new member behind the head

  /** Slots after the head's old item has moved to the first free slot, behind the head, and `item` has taken the head. */
  function BehindHead(t: Slots, h: nat, item: nat): Slots
    requires |t.status| == |t.next| == |t.link| && h < |t.next|
    requires t.next[0] < |t.next| && t.next[t.next[0]] < |t.next| && t.link[t.next[0]] < |t.next|
  {
    var n, u := t.next[0], Unlinked(t, t.next[0]);
    Slots(u.status[n := Movable], u.next[n := u.next[h]][h := n], u.link[n := u.link[h]][h := item])
  }

  ghost function BehindHeadShape(t: Slots, g: Shape, h: nat, item: nat): Shape
    requires Sized(t, g) && h in g.rings && |g.free| > 1 && |g.rings[h]| > 0 && h < |g.owner|
    requires t.next[0] < |g.owner|
  {
    var n := t.next[0];
    Shape(Without(g.free, 1), g.rings[h := With(g.rings[h], 1, n)], g.owner[n := h], g.at[t.link[h] := n][item := h])
  }

  lemma FirstFree(t: Slots, g: Shape)
    requires Sized(t, g) && FreeList(t, g) && |g.free| > 1
    ensures var n := t.next[0];
      n == g.free[1] && 0 < n < |g.owner| && g.owner[n] == 0 && t.next[n] < |g.owner| && t.link[n] == 0
  {
    hide Distinct;
    assert t.next[g.free[0]] == Turn(g.free, 1);
    FreeNeighbours(t, g, 1);
  }

  lemma BehindHeadThreaded(t: Slots, g: Shape, h: nat, item: nat)
    requires Threaded(t, g) && h in g.rings && |g.free| > 1
    ensures t.next[0] < |g.owner| && t.next[t.next[0]] < |g.owner| && t.link[t.next[0]] < |g.owner| && h < |g.owner|
    ensures |g.rings[h]| > 0
    ensures Threaded(BehindHead(t, h, item), BehindHeadShape(t, g, h, item))
  {
    hide Distinct, Without, With, Turn, Cycle, BackCycle;
    FirstFree(t, g);
    var n := t.next[0];
    assert RingAt(t, g, h);
    RingHead(t, g, h);
    var t', g' := BehindHead(t, h, item), BehindHeadShape(t, g, h, item);
    UnlinkFree(t, g, 1);
    FreeListAfterUnlink(t, g, 1, t', g');
    BehindHeadRing(t, g, h, item);
    forall b: nat | b in g'.rings
      ensures RingAt(t', g', b)
    {
      if b != h {
        assert RingAt(t, g, b);
        RingFrame(t, t', g, g', b);
      }
    }
    forall i: nat | i < |g.owner|
      ensures StatusAt(t', g', i)
    {
      assert StatusAt(t, g, i);
    }
  }

  lemma RingHead(t: Slots, g: Shape, h: nat)
    requires Sized(t, g) && h in g.rings && RingAt(t, g, h)
    ensures g.owner[h] == h && |g.rings[h]| > 0
  {
    assert g.rings[h][0] in g.rings[h];
  }

  lemma BehindHeadRing(t: Slots, g: Shape, h: nat, item: nat)
    requires Sized(t, g) && FreeList(t, g) && h in g.rings && RingAt(t, g, h) && |g.free| > 1
    ensures t.next[0] < |g.owner| && t.next[t.next[0]] < |g.owner| && t.link[t.next[0]] < |g.owner|
    ensures |g.rings[h]| > 0 && RingAt(BehindHead(t, h, item), BehindHeadShape(t, g, h, item), h)
  {
    hide Distinct, Without;
    FirstFree(t, g);
    RingHead(t, g, h);
    UnlinkFree(t, g, 1);
    var n, ring := t.next[0], g.rings[h];
    var t' := BehindHead(t, h, item);
    InTable(t.next, ring);
    CycleInsert(t.next, t'.next, ring, 1, n);
    WithElems(ring, 1, n);
  }

  lemma BehindHeadLocated(t: Slots, g: Shape, bucket: map<nat, nat>, h: nat, item: nat)
    requires Stores(t, g, bucket) && h in g.rings && |g.free| > 1 && item !in bucket
    ensures t.next[0] < |g.owner| && t.next[t.next[0]] < |g.owner| && t.link[t.next[0]] < |g.owner| && h < |g.owner|
    ensures |g.rings[h]| > 0
    ensures Located(BehindHead(t, h, item), BehindHeadShape(t, g, h, item), bucket[item := h])
  {
    hide Distinct, Cycle, BackCycle, With, Without;
    hide Unlinked, FreeList;
    UnlinkFirst(t, g);
    assert RingAt(t, g, h);
    RingHead(t, g, h);
  }

  // ---------------------------------------------------------------- displacing a movable resident

  /** Slots after the movable resident of `h` has moved to the first free slot and `item` heads a ring of its own at `h`. */
  function Displaced(t: Slots, h: nat, pred: nat, item: nat): Slots
    requires |t.status| == |t.next| == |t.link| && h < |t.next| && pred < |t.next|
    requires t.next[0] < |t.next| && t.next[t.next[0]] < |t.next| && t.link[t.next[0]] < |t.next|
  {
    var n, u := t.next[0], Unlinked(t, t.next[0]);
    Slots(u.status[n := Movable][h := Head], u.next[pred := n][n := u.next[h]][h := h], u.link[n := u.link[h]][h := item])
  }

  ghost function DisplacedShape(t: Slots, g: Shape, h: nat, k: nat, item: nat): Shape
    requires Sized(t, g) && h < |g.owner| && g.owner[h] in g.rings && |g.free| > 1 && k < |g.rings[g.owner[h]]|
    requires t.next[0] < |g.owner|
  {
    var n, o := t.next[0], g.owner[h];
    Shape(Without(g.free, 1), g.rings[o := g.rings[o][k := n]][h := [h]], g.owner[n := o][h := h], g.at[t.link[h] := n][item := h])
  }

  /** `h` is a movable slot at position `k` of its ring. */
  ghost predicate Resident(t: Slots, g: Shape, h: nat, k: nat) {
    && Threaded(t, g) && 0 < h < |g.owner| && g.owner[h] in g.rings && g.owner[h] != h
    && 0 < k < |g.rings[g.owner[h]]| && g.rings[g.owner[h]][k] == h
  }

  lemma ResidentRing(t: Slots, g: Shape, h: nat, k: nat)
    requires Resident(t, g, h, k)
    ensures var o, ring := g.owner[h], g.rings[g.owner[h]];
      && 0 < o < |g.owner| && RingAt(t, g, o) && Cycle(t.next, ring) && ring[0] == o
      && (forall y :: y in ring ==> y < |g.owner| && g.owner[y] == o)
      && ring[k - 1] in ring && ring[k - 1] != h && h in ring && ring[k - 1] < |g.owner|
  {
    var ring := g.rings[g.owner[h]];
    assert RingAt(t, g, g.owner[h]);
    InTable(t.next, ring);
    OnlyAt(ring, k);
    assert ring[k - 1] in ring;
  }

  lemma DisplacedCycle(t: Slots, g: Shape, h: nat, k: nat, item: nat)
    requires Resident(t, g, h, k) && |g.free| > 1
    ensures t.next[0] < |g.owner| && t.next[t.next[0]] < |g.owner| && t.link[t.next[0]] < |g.owner|
    ensures g.rings[g.owner[h]][k - 1] < |g.owner|
    ensures Cycle(Displaced(t, h, g.rings[g.owner[h]][k - 1], item).next, g.rings[g.owner[h]][k := t.next[0]])
  {
    hide Distinct, Cycle, BackCycle, RingAt, StatusAt, Unlinked;
    UnlinkFirst(t, g);
    ResidentRing(t, g, h, k);
    var n, ring := t.next[0], g.rings[g.owner[h]];
    var pred := ring[k - 1];
    var next' := Displaced(t, h, pred, item).next;
    var mid := next'[h := t.next[h]];
    assert mid[pred] == n && mid[n] == t.next[h];
    assert forall y :: y in ring && y != pred && y != h ==> mid[y] == t.next[y];
    CycleReplace(t.next, mid, ring, k, n);
    ReplacedElems(t.next, ring, k, n);
    CycleFrame(mid, next', ring[k := n]);
  }

  lemma ReplacedElems(next: seq<nat>, s: seq<nat>, k: nat, x: nat)
    requires Cycle(next, s) && k < |s| && x !in s
    ensures forall y :: y in s[k := x] <==> (y in s && y != s[k]) || y == x
  {
    ReplaceElems(s, k, x);
  }

  /** The displacement can be carried out. */
  ghost predicate CanDisplace(t: Slots, g: Shape, h: nat, k: nat) {
    && Sized(t, g) && 0 < h < |g.owner| && g.owner[h] in g.rings && 0 < k < |g.rings[g.owner[h]]| && |g.free| > 1
    && t.next[0] < |g.owner| && t.next[t.next[0]] < |g.owner| && t.link[t.next[0]] < |g.owner|
    && g.rings[g.owner[h]][k - 1] < |g.owner|
  }

  /** The ring that loses slot `h` is a ring again. */
  ghost predicate DisplacedRingAt(t: Slots, g: Shape, h: nat, k: nat, item: nat) {
    CanDisplace(t, g, h, k) && RingAt(Displaced(t, h, g.rings[g.owner[h]][k - 1], item), DisplacedShape(t, g, h, k, item), g.owner[h])
  }

  /** All items are in their buckets, the new one in slot `h`. */
  ghost predicate DisplacedLocates(t: Slots, g: Shape, bucket: map<nat, nat>, h: nat, k: nat, item: nat) {
    && CanDisplace(t, g, h, k)
    && Located(Displaced(t, h, g.rings[g.owner[h]][k - 1], item), DisplacedShape(t, g, h, k, item), bucket[item := h])
  }

  lemma DisplacedRing(t: Slots, g: Shape, h: nat, k: nat, item: nat)
    requires Resident(t, g, h, k) && |g.free| > 1
    ensures DisplacedRingAt(t, g, h, k, item)
  {
    hide Cycle, Without, Unlinked, FreeList, StatusAt;
    UnlinkFirst(t, g);
    ResidentRing(t, g, h, k);
    DisplacedCycle(t, g, h, k, item);
    ReplacedElems(t.next, g.rings[g.owner[h]], k, t.next[0]);
  }

  /** A slot that does not head a ring owns no other slot either. */
  lemma NoRing(t: Slots, g: Shape, h: nat)
    requires Threaded(t, g) && 0 < h < |g.owner| && g.owner[h] != h
    ensures h !in g.rings
    ensures forall i: nat :: i < |g.owner| ==> g.owner[i] != h
  {
    assert h !in g.rings by {
      if h in g.rings {
        assert RingAt(t, g, h);
        RingHead(t, g, h);
      }
    }
    forall i: nat | i < |g.owner|
      ensures g.owner[i] != h
    {
      assert StatusAt(t, g, i);
    }
  }

  lemma SelfRing(next: seq<nat>, h: nat)
    requires h < |next| && next[h] == h
    ensures Cycle(next, [h])
  {}

  lemma DisplacedThreaded(t: Slots, g: Shape, h: nat, k: nat, item: nat)
    requires Resident(t, g, h, k) && |g.free| > 1
    ensures t.next[0] < |g.owner| && t.next[t.next[0]] < |g.owner| && t.link[t.next[0]] < |g.owner|
    ensures g.rings[g.owner[h]][k - 1] < |g.owner|
    ensures Threaded(Displaced(t, h, g.rings[g.owner[h]][k - 1], item), DisplacedShape(t, g, h, k, item))
  {
    hide Distinct, Without, With, Turn, Cycle, BackCycle;
    FirstFree(t, g);
    DisplacedRing(t, g, h, k, item);
    var pred, o := g.rings[g.owner[h]][k - 1], g.owner[h];
    var t', g' := Displaced(t, h, pred, item), DisplacedShape(t, g, h, k, item);
    UnlinkFree(t, g, 1);
    assert g.owner[pred] == o by { assert RingAt(t, g, o) && pred in g.rings[o]; }
    FreeListAfterUnlink(t, g, 1, t', g');
    SelfRing(t'.next, h);
    NoRing(t, g, h);
    forall b: nat | b in g'.rings
      ensures RingAt(t', g', b)
    {
      if b != o && b != h {
        assert RingAt(t, g, b);
        RingFrame(t, t', g, g', b);
      }
    }
    forall i: nat | i < |g.owner|
      ensures StatusAt(t', g', i)
    {
      assert StatusAt(t, g, i);
    }
  }

  lemma DisplacedLocated(t: Slots, g: Shape, bucket: map<nat, nat>, h: nat, k: nat, item: nat)
    requires Stores(t, g, bucket) && Resident(t, g, h, k) && |g.free| > 1 && item !in bucket
    ensures DisplacedLocates(t, g, bucket, h, k, item)
  {
    hide Distinct, Cycle, BackCycle, With, Without;
    hide Unlinked, FreeList;
    UnlinkFirst(t, g);
    var pred := g.rings[g.owner[h]][k - 1];
    assert pred < |g.owner| by {
      DisplacedRing(t, g, h, k, item);
    }
    assert g.owner[h] != 0 by { assert RingAt(t, g, g.owner[h]); }
  }

  // ---------------------------------------------------------------- claiming the free home slot

  function Claimed(t: Slots, h: nat, item: nat): Slots
    requires |t.status| == |t.next| == |t.link| && h < |t.next| && t.link[h] < |t.next| && t.next[h] < |t.next|
  {
    var u := Unlinked(t, h);
    Slots(u.status[h := Head], u.next[h := h], u.link[h := item])
  }

  ghost function ClaimedShape(t: Slots, g: Shape, k: nat, item: nat): Shape
    requires Sized(t, g) && k < |g.free| && g.free[k] < |g.owner|
  {
    var h := g.free[k];
    Shape(Without(g.free, k), g.rings[h := [h]], g.owner[h := h], g.at[item := h])
  }

  lemma ClaimedStores(t: Slots, g: Shape, bucket: map<nat, nat>, k: nat, item: nat)
    requires Stores(t, g, bucket) && 0 < k < |g.free| && item !in bucket
    ensures var h := g.free[k];
      && h < |g.owner| && t.link[h] < |g.owner| && t.next[h] < |g.owner|
      && Stores(Claimed(t, h, item), ClaimedShape(t, g, k, item), bucket[item := h])
  {
    hide Distinct, Without, Turn, Cycle, BackCycle;
    FreeNeighbours(t, g, k);
    UnlinkFree(t, g, k);
    var h := g.free[k];
    var t', g' := Claimed(t, h, item), ClaimedShape(t, g, k, item);
    FreeListAfterUnlink(t, g, k, t', g');
    SelfRing(t'.next, h);
    NoRing(t, g, h);
    forall b: nat | b in g'.rings
      ensures RingAt(t', g', b)
    {
      if b != h {
        assert RingAt(t, g, b);
        RingFrame(t, t', g, g', b);
      }
    }
    forall i: nat | i < |g.owner|
      ensures StatusAt(t', g', i)
    {
      assert StatusAt(t, g, i);
    }
  }

  // ---------------------------------------------------------------- moving a member to the front

  /** Slots after member `x`, reached from `pred`, has been hooked in right behind the head and has swapped items with it. */
  function Fronted(t: Slots, h: nat, pred: nat, x: nat): Slots
    requires |t.next| == |t.link| && h < |t.next| && pred < |t.next| && x < |t.next|
  {
    var next1 := t.next[pred := t.next[x]];
    var next2 := next1[x := next1[h]];
    Slots(t.status, next2[h := x], t.link[x := t.link[h]][h := t.link[x]])
  }

  ghost function FrontedShape(t: Slots, g: Shape, h: nat, k: nat): Shape
    requires |t.link| == |g.owner| && h in g.rings && h < |g.owner| && 0 < k < |g.rings[h]| && g.rings[h][k] < |g.owner|
  {
    var x := g.rings[h][k];
    g.(rings := g.rings[h := With(Without(g.rings[h], k), 1, x)], at := g.at[t.link[x] := h][t.link[h] := x])
  }

  /** `x` is at position `k > 0` of ring `h`. */
  lemma MemberFacts(t: Slots, g: Shape, h: nat, k: nat)
    requires Threaded(t, g) && h in g.rings && 0 < k < |g.rings[h]|
    ensures var ring, x, pred := g.rings[h], g.rings[h][k], g.rings[h][k - 1];
      && 0 < h < |g.owner| && ring[0] == h && g.owner[h] == h && Cycle(t.next, ring)
      && x in ring && pred in ring && h in ring && x != h && x != pred
      && (forall y :: y in ring ==> y < |g.owner| && g.owner[y] == h)
      && t.next[pred] == x && t.next[x] in ring
      && RingAt(t, g, h)
  {
    assert RingAt(t, g, h);
    var ring := g.rings[h];
    InTable(t.next, ring);
    OnlyAt(ring, k);
    assert ring[0] in ring && ring[k] in ring && ring[k - 1] in ring;
    assert t.next[ring[k - 1]] == Turn(ring, k) && t.next[ring[k]] == Turn(ring, k + 1);
    assert Turn(ring, k + 1) in ring;
  }

  lemma FrontedCycle(next: seq<nat>, ring: seq<nat>, k: nat)
    requires Cycle(next, ring) && 0 < k < |ring|
    ensures var h, pred, x := ring[0], ring[k - 1], ring[k];
      var next1 := next[pred := next[x]];
      var next2 := next1[x := next1[h]];
      var s := With(Without(ring, k), 1, x);
      && Cycle(next2[h := x], s) && s[0] == h && |s| == |ring| && s[1] == x
      && forall y :: y in s <==> y in ring
  {
    hide Distinct, Cycle, Turn;
    CycleAt(next, ring, k);
    CycleAt(next, ring, k - 1);
    CycleAt(next, ring, 0);
    OnlyAt(ring, k);
    OnlyAt(ring, 0);
    InTable(next, ring);
    var h, pred, x := ring[0], ring[k - 1], ring[k];
    var rest := Without(ring, k);
    WithoutElemsOf(next, ring, k);
    var next1 := next[pred := next[x]];
    CycleRemove(next, next1, ring, k);
    var next2 := next1[x := next1[h]];
    WithElemsOf(next1, rest, 1, x);
    CycleInsert(next1, next2[h := x], rest, 1, x);
  }

  lemma WithoutElemsOf(next: seq<nat>, s: seq<nat>, k: nat)
    requires Cycle(next, s) && k < |s|
    ensures forall y :: y in Without(s, k) <==> y in s && y != s[k]
  {
    WithoutElems(s, k);
  }

  lemma WithElemsOf(next: seq<nat>, s: seq<nat>, k: nat, x: nat)
    requires Cycle(next, s) && k <= |s| && x !in s
    ensures forall y :: y in With(s, k, x) <==> y in s || y == x
  {
    WithElems(s, k, x);
  }

  lemma FrontedStores(t: Slots, g: Shape, bucket: map<nat, nat>, h: nat, k: nat)
    requires Stores(t, g, bucket) && h in g.rings && 0 < k < |g.rings[h]|
    ensures h < |g.owner| && g.rings[h][k] < |g.owner| && g.rings[h][k - 1] < |g.owner|
    ensures Stores(Fronted(t, h, g.rings[h][k - 1], g.rings[h][k]), FrontedShape(t, g, h, k), bucket)
  {
    hide Distinct, Without, With, Turn, Cycle, BackCycle;
    MemberFacts(t, g, h, k);
    FrontedCycle(t.next, g.rings[h], k);
    var pred, x := g.rings[h][k - 1], g.rings[h][k];
    var t', g' := Fronted(t, h, pred, x), FrontedShape(t, g, h, k);
    FreeFrame(t, t', g, g');
    forall b: nat | b in g'.rings
      ensures RingAt(t', g', b)
    {
      if b != h {
        assert RingAt(t, g, b);
        RingFrame(t, t', g, g', b);
      }
    }
    forall i: nat | i < |g.owner|
      ensures StatusAt(t', g', i)
    {
      assert StatusAt(t, g, i);
    }
  }

  // ---------------------------------------------------------------- taking an item out

  lemma FreeHead(t: Slots, g: Shape)
    requires Sized(t, g) && FreeList(t, g)
    ensures |g.free| >= 1 && t.next[0] == Turn(g.free, 1) && t.next[0] in g.free && t.next[0] < |g.owner|
  {
    InTable(t.next, g.free);
    assert t.next[g.free[0]] == Turn(g.free, 1);
    assert Turn(g.free, 1) in g.free;
  }

  /** Freeing slot `x` of `u`, where `u` is `t` with some used slots rewritten. */
  lemma FreeListAfterPush(t: Slots, g: Shape, u: Slots, x: nat, g': Shape)
    requires Sized(t, g) && Sized(u, g') && |g'.owner| == |g.owner| && FreeList(t, g)
    requires 0 < x < |g.owner| && g.owner[x] != 0
    requires g'.free == With(g.free, 1, x)
    requires forall i: nat :: i < |g.owner| ==> (g'.owner[i] == 0 <==> g.owner[i] == 0 || i == x)
    requires forall i: nat :: i < |g.owner| && g.owner[i] == 0 ==> u.next[i] == t.next[i] && u.link[i] == t.link[i]
    ensures u.next[0] < |g.owner| && FreeList(Pushed(u, x), g')
    ensures forall i: nat :: i < |g.owner| && g'.owner[i] != 0 ==>
      Pushed(u, x).next[i] == u.next[i] && Pushed(u, x).link[i] == u.link[i]
  {
    hide Distinct, Cycle, BackCycle, With;
    InTable(t.next, g.free);
    CycleFrame(t.next, u.next, g.free);
    BackCycleFrame(t.link, u.link, g.free);
    PushFree(u, g.free, x);
  }

  /** Slots after the only member of ring `h` has been freed. */
  function Emptied(t: Slots, h: nat): Slots
    requires |t.status| == |t.next| == |t.link| && 0 < h < |t.next| && t.next[0] < |t.next|
  {
    Pushed(t, h)
  }

  lemma EmptiedStores(t: Slots, g: Shape, bucket: map<nat, nat>, h: nat)
    requires Stores(t, g, bucket) && h in g.rings && |g.rings[h]| == 1
    ensures 0 < h < |g.owner| && t.next[0] < |g.owner| && t.link[h] in bucket
    ensures Stores(Emptied(t, h),
                   Shape(With(g.free, 1, h), g.rings - {h}, g.owner[h := 0], g.at - {t.link[h]}), bucket - {t.link[h]})
  {
    hide Distinct, Turn, Cycle, BackCycle, With;
    FreeHead(t, g);
    assert RingAt(t, g, h);
    RingHead(t, g, h);
    var t', g' := Emptied(t, h), Shape(With(g.free, 1, h), g.rings - {h}, g.owner[h := 0], g.at - {t.link[h]});
    FreeListAfterPush(t, g, t, h, g');
    forall b: nat | b in g'.rings
      ensures RingAt(t', g', b)
    {
      assert RingAt(t, g, b);
      RingFrame(t, t', g, g', b);
    }
    forall i: nat | i < |g.owner|
      ensures StatusAt(t', g', i)
    {
      assert StatusAt(t, g, i);
      assert i in g.rings[h] <==> i == h;
    }
  }

  /** Slots after the head's item has given way to that of the second member `x`, whose slot is freed. */
  function Promoted(t: Slots, h: nat, x: nat): Slots
    requires |t.status| == |t.next| == |t.link| && 0 < h < |t.next| && 0 < x < |t.next| && t.next[0] < |t.next|
  {
    Pushed(Slots(t.status, t.next[h := t.next[x]], t.link[h := t.link[x]]), x)
  }

  lemma PromotedStores(t: Slots, g: Shape, bucket: map<nat, nat>, h: nat)
    requires Stores(t, g, bucket) && h in g.rings && |g.rings[h]| > 1
    ensures 0 < h < |g.owner| && t.next[0] < |g.owner| && t.link[h] in bucket
    ensures 0 < g.rings[h][1] < |g.owner| && g.rings[h][1] == t.next[h]
    ensures var x := g.rings[h][1];
      Stores(Promoted(t, h, x),
             Shape(With(g.free, 1, x), g.rings[h := Without(g.rings[h], 1)], g.owner[x := 0],
                   (g.at - {t.link[h]})[t.link[x] := h]), bucket - {t.link[h]})
  {
    hide Distinct, Turn, Cycle, BackCycle, With;
    FreeHead(t, g);
    MemberFacts(t, g, h, 1);
    var x := g.rings[h][1];
    var u := Slots(t.status, t.next[h := t.next[x]], t.link[h := t.link[x]]);
    var t' := Promoted(t, h, x);
    var g' := Shape(With(g.free, 1, x), g.rings[h := Without(g.rings[h], 1)], g.owner[x := 0], (g.at - {t.link[h]})[t.link[x] := h]);
    FreeListAfterPush(t, g, u, x, g');
    ShorterRing(t, g, h, 1, u, t', g');
    RemovedThreaded(t, g, h, 1, u, t', g');
    RemovedHeadLocated(t, g, bucket, h, u, t', g');
  }

  /** Slots after member `x`, reached from `pred`, has been bypassed and freed. */
  function Bypassed(t: Slots, pred: nat, x: nat): Slots
    requires |t.status| == |t.next| == |t.link| && 0 < pred < |t.next| && 0 < x < |t.next| && t.next[0] < |t.next|
  {
    Pushed(t.(next := t.next[pred := t.next[x]]), x)
  }

  lemma BypassedStores(t: Slots, g: Shape, bucket: map<nat, nat>, h: nat, k: nat)
    requires Stores(t, g, bucket) && h in g.rings && 0 < k < |g.rings[h]|
    ensures 0 < h < |g.owner| && t.next[0] < |g.owner|
    ensures 0 < g.rings[h][k] < |g.owner| && 0 < g.rings[h][k - 1] < |g.owner| && t.link[g.rings[h][k]] in bucket
    ensures var x := g.rings[h][k];
      Stores(Bypassed(t, g.rings[h][k - 1], x),
             Shape(With(g.free, 1, x), g.rings[h := Without(g.rings[h], k)], g.owner[x := 0], g.at - {t.link[x]}),
             bucket - {t.link[x]})
  {
    hide Distinct, Turn, Cycle, BackCycle, With;
    FreeHead(t, g);
    MemberFacts(t, g, h, k);
    var pred, x := g.rings[h][k - 1], g.rings[h][k];
    var u := t.(next := t.next[pred := t.next[x]]);
    var t' := Bypassed(t, pred, x);
    var g' := Shape(With(g.free, 1, x), g.rings[h := Without(g.rings[h], k)], g.owner[x := 0], g.at - {t.link[x]});
    FreeListAfterPush(t, g, u, x, g');
    ShorterRing(t, g, h, k, u, t', g');
    RemovedThreaded(t, g, h, k, u, t', g');
    RemovedMemberLocated(t, g, bucket, h, k, t', g');
  }

  /** Ring `h` without position `k`, when `u` bypasses that position and `t'` agrees with `u` off the free list. */
  lemma ShorterRing(t: Slots, g: Shape, h: nat, k: nat, u: Slots, t': Slots, g': Shape)
    requires Threaded(t, g) && h in g.rings && 0 < k < |g.rings[h]| && Sized(u, g') && Sized(t', g')
    requires h in g'.rings && g'.rings[h] == Without(g.rings[h], k)
    requires 0 < g.rings[h][k] < |g.owner| && g.rings[h][k - 1] < |g.owner| && g'.owner == g.owner[g.rings[h][k] := 0]
    requires u.next == t.next[g.rings[h][k - 1] := t.next[g.rings[h][k]]]
    requires forall i: nat :: i < |g.owner| && g'.owner[i] != 0 ==> t'.next[i] == u.next[i]
    ensures RingAt(t', g', h)
  {
    hide Distinct, Turn, Cycle;
    MemberFacts(t, g, h, k);
    var ring := g.rings[h];
    WithoutElemsOf(t.next, ring, k);
    CycleRemove(t.next, u.next, ring, k);
    CycleFrame(u.next, t'.next, Without(ring, k));
  }

  lemma RemovedThreaded(t: Slots, g: Shape, h: nat, k: nat, u: Slots, t': Slots, g': Shape)
    requires Threaded(t, g) && h in g.rings && 0 < k < |g.rings[h]| && Sized(u, g') && Sized(t', g')
    requires 0 < g.rings[h][k] < |g.owner| && g.rings[h][k - 1] < |g.owner| && g'.owner == g.owner[g.rings[h][k] := 0]
    requires g'.rings == g.rings[h := Without(g.rings[h], k)]
    requires u.next == t.next[g.rings[h][k - 1] := t.next[g.rings[h][k]]]
    requires FreeList(t', g') && RingAt(t', g', h)
    requires t'.status == t.status[g.rings[h][k] := Free]
    requires forall i: nat :: i < |g.owner| && g'.owner[i] != 0 ==> t'.next[i] == u.next[i]
    ensures Threaded(t', g')
  {
    hide Distinct, Turn, Cycle, BackCycle, Without;
    MemberFacts(t, g, h, k);
    forall b: nat | b in g'.rings
      ensures RingAt(t', g', b)
    {
      if b != h {
        assert RingAt(t, g, b);
        RingFrame(t, t', g, g', b);
      }
    }
    forall i: nat | i < |g.owner|
      ensures StatusAt(t', g', i)
    {
      assert StatusAt(t, g, i);
    }
  }

  lemma RemovedMemberLocated(t: Slots, g: Shape, bucket: map<nat, nat>, h: nat, k: nat, t': Slots, g': Shape)
    requires Stores(t, g, bucket) && h in g.rings && 0 < k < |g.rings[h]| && Sized(t', g')
    requires 0 < g.rings[h][k] < |g.owner| && g'.owner == g.owner[g.rings[h][k] := 0] && g.owner[g.rings[h][k]] != 0
    requires g'.at == g.at - {t.link[g.rings[h][k]]}
    requires forall i: nat :: i < |g.owner| && g'.owner[i] != 0 ==> t'.link[i] == t.link[i]
    ensures t.link[g.rings[h][k]] in bucket
    ensures Located(t', g', bucket - {t.link[g.rings[h][k]]})
  {}

  lemma RemovedHeadLocated(t: Slots, g: Shape, bucket: map<nat, nat>, h: nat, u: Slots, t': Slots, g': Shape)
    requires Stores(t, g, bucket) && h in g.rings && 1 < |g.rings[h]| && Sized(t', g') && Sized(u, g') && 0 < h < |g.owner|
    requires var x := g.rings[h][1];
      0 < x < |g.owner| && g'.owner == g.owner[x := 0] && g.owner[x] == h && g.owner[h] == h && x != h
      && u.link == t.link[h := t.link[x]] && g'.at == (g.at - {t.link[h]})[t.link[x] := h]
    requires forall i: nat :: i < |g.owner| && g'.owner[i] != 0 ==> t'.link[i] == u.link[i]
    ensures t.link[h] in bucket
    ensures Located(t', g', bucket - {t.link[h]})
  {}
}
