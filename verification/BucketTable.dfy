/** The in-place hash table of bucket rings: a map from items to their buckets. */
module BucketTable {
  import opened Rings
  import opened BucketRings

  const TABLE_SIZE: nat := 32768

  class BucketTable {
    const status: array<Status>
    const next: array<nat>
    const link: array<nat>
    /** The table read as lists. */
    ghost var shape: Shape
    /** The items in the table, each with its bucket. */
    ghost var bucket: map<nat, nat>

    ghost predicate Laid() {
      status.Length == TABLE_SIZE && next.Length == TABLE_SIZE && link.Length == TABLE_SIZE && next != link
    }

    /** Every object the table writes. */
    ghost function Repr(): set<object> {
      {this, status, next, link}
    }

    ghost function Snap(): Slots
      reads status, next, link
    {
      Slots(status[..], next[..], link[..])
    }

    ghost predicate Valid()
      reads this, status, next, link
    {
      Laid() && |shape.owner| == TABLE_SIZE && Stores(Snap(), shape, bucket)
    }

    /** Whether an item can be put in bucket `h`. */
    ghost predicate HasRoom()
      reads this
    {
      |shape.free| > 1
    }

    constructor ()
      ensures Valid() && bucket == map[] && fresh(Repr())
    {
      status := new Status[TABLE_SIZE];
      next := new nat[TABLE_SIZE];
      link := new nat[TABLE_SIZE];
      shape := EmptyShape();
      bucket := map[];
      new;
      ChainUp();
      EmptyStores(Snap());
    }

    /** Every slot free, each linked to its neighbours. */
    method ChainUp()
      requires Laid()
      modifies status, next, link
      ensures forall i: nat :: i < TABLE_SIZE ==> status[i] == Free
      ensures forall i: nat :: i < TABLE_SIZE ==> next[i] == if i + 1 == TABLE_SIZE then 0 else i + 1
      ensures forall i: nat :: i < TABLE_SIZE ==> link[i] == if i == 0 then TABLE_SIZE - 1 else i - 1
    {
      status[0], next[0] := Free, 0;
      var prev := 0;
      for hash: nat := 1 to TABLE_SIZE
        invariant prev == hash - 1
        invariant forall i: nat :: i < hash ==> status[i] == Free
        invariant forall i: nat :: i < hash ==> next[i] == if i + 1 == hash then 0 else i + 1
        invariant forall i: nat :: 0 < i < hash ==> link[i] == i - 1
      {
        status[hash], next[hash] := Free, 0;
        next[prev] := hash;
        link[hash] := prev;
        prev := hash;
      }
      link[0] := prev;
    }

    /** Moves the member `x` of ring `h`, reached from `pred`, to the front of its ring. */
    method MoveToFront(h: nat, pred: nat, x: nat, ghost k: nat)
      requires Valid() && h in shape.rings && 0 < k < |shape.rings[h]|
      requires x == shape.rings[h][k] && pred == shape.rings[h][k - 1]
      modifies this`shape, next, link
      ensures Valid() && bucket == old(bucket)
      ensures 0 < h < TABLE_SIZE && x < TABLE_SIZE && link[h] == old(link[x])
    {
      hide Distinct, With, Without, Cycle, BackCycle, StatusAt, RingAt, FreeList, Located, Threaded;
      HeadIsUsed(Snap(), shape, h);
      FrontedStores(Snap(), shape, bucket, h, k);
      ghost var t := Snap();
      shape := FrontedShape(t, shape, h, k);
      next[pred] := next[x];
      next[x] := next[h];
      next[h] := x;
      var item := link[x];
      link[x] := link[h];
      link[h] := item;
      assert Snap() == Fronted(t, h, pred, x);
    }

    /** Whether there is a slot for an item of bucket `h`. */
    method RoomFor(h: nat) returns (ok: bool)
      requires Valid() && 0 < h < TABLE_SIZE
      ensures ok <==> HasRoom()
    {
      RoomFacts(Snap(), shape, h);
      ok := status[h] == Free || next[0] != 0;
    }

    /** Puts a new item at the head of bucket `h`. */
    method Put(h: nat, item: nat)
      requires Valid() && 0 < h < TABLE_SIZE && HasRoom() && item !in bucket
      modifies this`shape, this`bucket, status, next, link
      ensures Valid() && bucket == old(bucket)[item := h]
      ensures link[h] == item
    {
      hide Stores;
      StatusFacts(Snap(), shape, bucket, h);
      if status[h] == Head {
        PutBehindHead(h, item);
      } else if status[h] == Movable {
        PutDisplacing(h, item);
      } else {
        PutAtHome(h, item);
      }
    }

    method PutBehindHead(h: nat, item: nat)
      requires Valid() && h in shape.rings && HasRoom() && item !in bucket && h < TABLE_SIZE
      modifies this`shape, this`bucket, status, next, link
      ensures Valid() && bucket == old(bucket)[item := h] && link[h] == item
    {
      hide Distinct, With, Without, Cycle, BackCycle, StatusAt, RingAt, FreeList, Located;
      ghost var t := Snap();
      BehindHeadThreaded(t, shape, h, item);
      BehindHeadLocated(t, shape, bucket, h, item);
      FirstFreeIn(t, shape);
      HeadIsUsed(t, shape, h);
      shape := BehindHeadShape(t, shape, h, item);
      bucket := bucket[item := h];
      var newIndex := next[0];
      var newNext := next[newIndex];
      next[0] := newNext;
      link[newNext] := 0;
      status[newIndex] := Movable;
      next[newIndex] := next[h];
      next[h] := newIndex;
      link[newIndex] := link[h];
      link[h] := item;
      assert Snap() == BehindHead(t, h, item);
    }

    method PutAtHome(h: nat, item: nat)
      requires Valid() && 0 < h < TABLE_SIZE && shape.owner[h] == 0 && item !in bucket
      modifies this`shape, this`bucket, status, next, link
      ensures Valid() && bucket == old(bucket)[item := h] && link[h] == item
    {
      hide Distinct, With, Without, Cycle, BackCycle, StatusAt, RingAt, FreeList, Located;
      ghost var t := Snap();
      ghost var k := FreePosition(t, shape, h);
      ClaimedStores(t, shape, bucket, k, item);
      shape := ClaimedShape(t, shape, k, item);
      bucket := bucket[item := h];
      var newNext := next[h];
      next[link[h]] := newNext;
      link[newNext] := link[h];
      status[h], next[h] := Head, h;
      link[h] := item;
      assert Snap() == Claimed(t, h, item);
    }

    /** Walks the ring of the movable slot `h` to the slot before it. */
    method FindPredecessor(h: nat, ghost k: nat) returns (pred: nat)
      requires Laid() && |shape.owner| == TABLE_SIZE && Resident(Snap(), shape, h, k)
      ensures pred < TABLE_SIZE && pred == shape.rings[shape.owner[h]][k - 1]
    {
      ghost var t, o := Snap(), shape.owner[h];
      hide Distinct, Cycle, StatusAt, RingAt, FreeList, Threaded;
      pred := next[h];
      ghost var j: nat := StepFrom(t, shape, o, k);
      while next[pred] != h
        invariant j < |shape.rings[o]| && pred == shape.rings[o][j] && pred < TABLE_SIZE
        decreases StepsTo(j, k, |shape.rings[o]|)
      {
        NotYet(t, shape, h, k, j);
        pred := next[pred];
        j := StepFrom(t, shape, o, j);
      }
      FoundPred(t, shape, h, k, j);
    }

    method PutDisplacing(h: nat, item: nat)
      requires Valid() && 0 < h < TABLE_SIZE && shape.owner[h] != 0 && shape.owner[h] != h && HasRoom() && item !in bucket
      modifies this`shape, this`bucket, status, next, link
      ensures Valid() && bucket == old(bucket)[item := h] && link[h] == item
    {
      hide Distinct, With, Without, Cycle, BackCycle, StatusAt, RingAt, FreeList, Located, Threaded, Resident;
      ghost var t := Snap();
      ghost var k := ResidentPosition(t, shape, h);
      var pred := FindPredecessor(h, k);
      DisplacedThreaded(t, shape, h, k, item);
      DisplacedLocated(t, shape, bucket, h, k, item);
      FirstFreeIn(t, shape);
      shape := DisplacedShape(t, shape, h, k, item);
      bucket := bucket[item := h];
      var after := next[h];
      var newIndex := next[0];
      var newNext := next[newIndex];
      next[0] := newNext;
      link[newNext] := 0;
      next[pred] := newIndex;
      status[newIndex], next[newIndex] := Movable, after;
      link[newIndex] := link[h];
      status[h], next[h] := Head, h;
      link[h] := item;
      assert Snap() == Displaced(t, h, pred, item);
    }

    /** Puts slot `x` at the front of the free list. */
    method Release(x: nat)
      requires Laid() && 0 < x < TABLE_SIZE && next[0] < TABLE_SIZE
      modifies status, next, link
      ensures Snap() == Pushed(old(Snap()), x)
    {
      var newNext := next[0];
      next[x] := newNext;
      status[x] := Free;
      link[x] := 0;
      link[newNext] := x;
      next[0] := x;
    }

    /** Takes an item out of bucket `h`. `promoted` tells whether another item has moved into slot `h`. */
    method TakeOut(h: nat, item: nat) returns (promoted: bool)
      requires Valid() && item in bucket && bucket[item] == h
      modifies this`shape, this`bucket, status, next, link
      ensures Valid() && bucket == old(bucket) - {item}
      ensures promoted ==> item in old(shape.at) && old(shape.at[item]) == h
      ensures forall y: nat :: y in bucket ==>
        y in shape.at && y in old(shape.at)
        && (shape.at[y] == old(shape.at[y]) || (promoted && shape.at[y] == h))
    {
      hide Cycle, BackCycle, StatusAt, RingAt, FreeList, Threaded, Located, Stores;
      ghost var k := ItemPosition(Snap(), shape, bucket, item);
      if link[h] == item {
        promoted := TakeHeadOut(h, item);
      } else {
        TakeMemberOut(h, item, k);
        promoted := false;
      }
    }

    method TakeHeadOut(h: nat, item: nat) returns (promoted: bool)
      requires Valid() && h in shape.rings && 0 < h < TABLE_SIZE && link[h] == item
      modifies this`shape, this`bucket, status, next, link
      ensures Valid() && bucket == old(bucket) - {item}
      ensures item in old(shape.at) && old(shape.at[item]) == h
      ensures forall y: nat :: y in bucket ==>
        y in shape.at && y in old(shape.at)
        && (shape.at[y] == old(shape.at[y]) || (promoted && shape.at[y] == h))
    {
      hide Distinct, Cycle, BackCycle, StatusAt, RingAt, FreeList, Threaded, With, Without;
      ghost var t := Snap();
      HeadLinks(t, shape, bucket, h);
      var newIndex := next[h];
      if newIndex == h {
        EmptiedStores(t, shape, bucket, h);
        shape := Shape(With(shape.free, 1, h), shape.rings - {h}, shape.owner[h := 0], shape.at - {item});
        promoted := false;
      } else {
        PromotedStores(t, shape, bucket, h);
        shape := Shape(With(shape.free, 1, newIndex), shape.rings[h := Without(shape.rings[h], 1)], shape.owner[newIndex := 0],
                       (shape.at - {item})[link[newIndex] := h]);
        next[h] := next[newIndex];
        link[h] := link[newIndex];
        promoted := true;
      }
      bucket := bucket - {item};
      Release(newIndex);
    }

    method TakeMemberOut(h: nat, item: nat, ghost k: nat)
      requires Valid() && h in shape.rings && 0 < k < |shape.rings[h]| && shape.rings[h][k] < TABLE_SIZE
      requires link[shape.rings[h][k]] == item
      modifies this`shape, this`bucket, status, next, link
      ensures Valid() && bucket == old(bucket) - {item}
      ensures shape.at == old(shape.at) - {item} && old(shape.at).Keys == old(bucket).Keys
    {
      hide Distinct, Cycle, BackCycle, StatusAt, RingAt, FreeList, Threaded, With, Without;
      ghost var t := Snap();
      var prev, newIndex := FindMember(h, item, k);
      FreeHeadIn(t, shape);
      BypassedStores(t, shape, bucket, h, k);
      shape := Shape(With(shape.free, 1, newIndex), shape.rings[h := Without(shape.rings[h], k)], shape.owner[newIndex := 0], shape.at - {item});
      bucket := bucket - {item};
      next[prev] := next[newIndex];
      Release(newIndex);
    }

    /** Walks ring `h` to the member that holds `item`. */
    method FindMember(h: nat, item: nat, ghost k: nat) returns (prev: nat, newIndex: nat)
      requires Valid() && h in shape.rings && 0 < k < |shape.rings[h]| && shape.rings[h][k] < TABLE_SIZE
      requires link[shape.rings[h][k]] == item
      ensures prev == shape.rings[h][k - 1] && newIndex == shape.rings[h][k]
    {
      hide Distinct, Cycle, BackCycle, StatusAt, RingAt, FreeList, Threaded, Located;
      ghost var t := Snap();
      HeadIsUsed(t, shape, h);
      RingStart(t, shape, h);
      prev := h;
      newIndex := next[h];
      ghost var j: nat := StepFrom(t, shape, h, 0);
      while link[newIndex] != item
        invariant 0 < j <= k && newIndex == shape.rings[h][j] && prev == shape.rings[h][j - 1] && newIndex < TABLE_SIZE
        decreases k - j
      {
        prev := newIndex;
        newIndex := next[newIndex];
        j := StepFrom(t, shape, h, j);
      }
      SameItemSameSlot(t, shape, bucket, h, j, k);
    }
  }

  // ---------------------------------------------------------------- reading the lists

  lemma RoomFacts(t: Slots, g: Shape, h: nat)
    requires Threaded(t, g) && 0 < h < |g.owner|
    ensures t.status[h] == Free || t.next[0] != 0 <==> |g.free| > 1
  {
    FreeHead(t, g);
    assert StatusAt(t, g, h);
    if g.owner[h] == 0 {
      assert h in g.free;
    }
    if |g.free| > 1 {
      FirstFree(t, g);
    }
  }

  lemma StatusFacts(t: Slots, g: Shape, bucket: map<nat, nat>, h: nat)
    requires Stores(t, g, bucket) && 0 < h < |g.owner|
    ensures t.status[h] == Free <==> g.owner[h] == 0
    ensures t.status[h] == Head <==> g.owner[h] == h
    ensures t.status[h] == Head <==> h in g.rings
    ensures t.status[h] != External
    ensures g.owner[h] != 0 ==> g.owner[h] in g.rings
  {
    assert StatusAt(t, g, h);
    if h in g.rings {
      assert RingAt(t, g, h);
      RingHead(t, g, h);
    }
  }

  lemma FirstFreeIn(t: Slots, g: Shape)
    requires Threaded(t, g) && |g.free| > 1
    ensures var n := t.next[0];
      0 < n < |g.owner| && g.owner[n] == 0 && t.next[n] < |g.owner| && t.link[n] == 0 && t.next[n] != n && g.owner[t.next[n]] == 0
  {
    FirstFree(t, g);
    FreeNeighbours(t, g, 1);
    OnlyAt(g.free, 1);
    assert Turn(g.free, 2) != g.free[1];
  }

  lemma HeadIsUsed(t: Slots, g: Shape, h: nat)
    requires Threaded(t, g) && h in g.rings
    ensures 0 < h < |g.owner| && g.owner[h] == h
  {
    assert RingAt(t, g, h);
    RingHead(t, g, h);
  }

  lemma FreePosition(t: Slots, g: Shape, h: nat) returns (k: nat)
    requires Threaded(t, g) && 0 < h < |g.owner| && g.owner[h] == 0
    ensures 0 < k < |g.free| && g.free[k] == h
  {
    assert h in g.free;
    k :| 0 <= k < |g.free| && g.free[k] == h;
  }

  lemma ResidentPosition(t: Slots, g: Shape, h: nat) returns (k: nat)
    requires Threaded(t, g) && 0 < h < |g.owner| && g.owner[h] != 0 && g.owner[h] != h
    ensures Resident(t, g, h, k) && Sized(t, g)
    ensures g.owner[h] in g.rings && k < |g.rings[g.owner[h]]| && g.rings[g.owner[h]][k] == h
  {
    var o := g.owner[h];
    assert StatusAt(t, g, h) && RingAt(t, g, o);
    assert h in g.rings[o];
    k :| 0 <= k < |g.rings[o]| && g.rings[o][k] == h;
  }

  /** The position after `k`, once round. */
  lemma StepFrom(t: Slots, g: Shape, h: nat, k: nat) returns (j: nat)
    requires Threaded(t, g) && h in g.rings && k < |g.rings[h]|
    ensures j == (if k + 1 == |g.rings[h]| then 0 else k + 1)
    ensures g.rings[h][k] < |g.owner| && t.next[g.rings[h][k]] == g.rings[h][j] && g.rings[h][j] < |g.owner|
  {
    assert RingAt(t, g, h);
    assert t.next[g.rings[h][k]] == Turn(g.rings[h], k + 1);
    j := if k + 1 == |g.rings[h]| then 0 else k + 1;
  }

  /** An item is in the ring of its bucket, at the head or further on. */
  lemma ItemPosition(t: Slots, g: Shape, bucket: map<nat, nat>, item: nat) returns (k: nat)
    requires Stores(t, g, bucket) && item in bucket
    ensures var h := bucket[item];
      && 0 < h < |g.owner| && h in g.rings && k < |g.rings[h]| && g.rings[h][0] == h && g.rings[h][k] < |g.owner|
      && t.link[g.rings[h][k]] == item && item in g.at && g.at[item] == g.rings[h][k]
      && (t.link[h] == item <==> k == 0)
    ensures g.at.Keys == bucket.Keys
  {
    var h, i := bucket[item], g.at[item];
    assert StatusAt(t, g, i) && RingAt(t, g, h);
    assert i in g.rings[h];
    k :| 0 <= k < |g.rings[h]| && g.rings[h][k] == i;
    RingHead(t, g, h);
    if k > 0 {
      OnlyAt(g.rings[h], 0);
    }
  }

  lemma RingStart(t: Slots, g: Shape, h: nat)
    requires Threaded(t, g) && h in g.rings
    ensures |g.rings[h]| > 0 && g.rings[h][0] == h
  {
    assert RingAt(t, g, h);
  }

  lemma HeadLinks(t: Slots, g: Shape, bucket: map<nat, nat>, h: nat)
    requires Stores(t, g, bucket) && h in g.rings && 0 < h < |g.owner|
    ensures t.next[h] == h <==> |g.rings[h]| == 1
    ensures |g.rings[h]| > 0 && 0 < t.next[h] < |g.owner| && t.next[0] < |g.owner| && t.next[t.next[h]] < |g.owner|
    ensures |g.rings[h]| > 1 ==> t.next[h] == g.rings[h][1]
    ensures t.link[h] in g.at && g.at[t.link[h]] == h && g.at.Keys == bucket.Keys
    ensures |g.free| >= 1 && Sized(t, g)
  {
    RingHead(t, g, h) by { assert RingAt(t, g, h); }
    RingStart(t, g, h);
    FreeHead(t, g);
    var j := StepFrom(t, g, h, 0);
    var j' := StepFrom(t, g, h, j);
    if |g.rings[h]| > 1 {
      MemberFacts(t, g, h, 1);
    }
  }

  lemma FreeHeadIn(t: Slots, g: Shape)
    requires Threaded(t, g)
    ensures |g.free| >= 1 && Sized(t, g) && t.next[0] < |g.owner|
  {
    FreeHead(t, g);
  }

  lemma SameItemSameSlot(t: Slots, g: Shape, bucket: map<nat, nat>, h: nat, j: nat, k: nat)
    requires Stores(t, g, bucket) && h in g.rings && j <= k < |g.rings[h]|
    requires g.rings[h][j] < |g.owner| && g.rings[h][k] < |g.owner| && t.link[g.rings[h][j]] == t.link[g.rings[h][k]]
    ensures j == k
  {
    assert RingAt(t, g, h);
    var ring := g.rings[h];
    assert ring[j] in ring && ring[k] in ring;
  }

  /** Steps from position `j` to the one before `k`, once round a ring of `n`. */
  ghost function StepsTo(j: nat, k: nat, n: nat): int {
    if j < k then k - j else n + k - j
  }

  lemma NotYet(t: Slots, g: Shape, h: nat, k: nat, j: nat)
    requires Resident(t, g, h, k) && j < |g.rings[g.owner[h]]|
    ensures g.rings[g.owner[h]][j] < |g.owner|
    ensures t.next[g.rings[g.owner[h]][j]] != h ==>
      var n := |g.rings[g.owner[h]]|;
      var j' := if j + 1 == n then 0 else j + 1;
      0 <= StepsTo(j', k, n) < StepsTo(j, k, n)
  {
    var j' := StepFrom(t, g, g.owner[h], j);
  }

  lemma FoundPred(t: Slots, g: Shape, h: nat, k: nat, j: nat)
    requires Resident(t, g, h, k) && j < |g.rings[g.owner[h]]|
    ensures g.rings[g.owner[h]][j] < |g.owner|
    ensures t.next[g.rings[g.owner[h]][j]] == h ==> j == k - 1
  {
    var j' := StepFrom(t, g, g.owner[h], j);
    assert RingAt(t, g, g.owner[h]);
    OnlyAt(g.rings[g.owner[h]], k);
  }

  ghost function EmptyShape(): Shape {
    Shape(UpTo(TABLE_SIZE), map[], seq(TABLE_SIZE, i => 0), map[])
  }

  lemma EmptyStores(t: Slots)
    requires |t.status| == |t.next| == |t.link| == TABLE_SIZE
    requires forall i: nat :: i < TABLE_SIZE ==> t.status[i] == Free
    requires forall i: nat :: i < TABLE_SIZE ==> t.next[i] == if i + 1 == TABLE_SIZE then 0 else i + 1
    requires forall i: nat :: i < TABLE_SIZE ==> t.link[i] == if i == 0 then TABLE_SIZE - 1 else i - 1
    ensures Stores(t, EmptyShape(), map[])
  {
    hide Cycle, BackCycle;
    assert UpTo(TABLE_SIZE)[0] == 0;
    hide UpTo;
    UpToCycle(t.next, t.link, TABLE_SIZE);
  }
}
