/**
 The cells of the variable list. Each cell is used twice: as a hash cell, which says which value
 slot sits there and links backwards, and as the value slot with the cell's own number.
 */
module VarCells {
  import opened Rings
  import opened BucketRings
  import opened CellRings

  /** What a slot holds: an untyped value, a value, a reference to an object, or an object itself. */
  datatype Value =
    | Undefined
    | Integer(i: int)
    | Text(str: nat)
    | Pointer(obj: nat)
    | Object(isArray: bool, refCount: nat, size: nat)

  /** The fields of the cells. Hash cells: `id`, `prev`. Value slots: the others. */
  datatype Pool = Pool(
    id: seq<nat>, prev: seq<nat>,
    stat: seq<Status>, next: seq<nat>, unext: seq<nat>, sib: seq<nat>, name: seq<nat>, value: seq<Value>)

  /** How the cells are laid out: states and links cell by cell, their lists, the external cells, and the cell of each slot. */
  datatype Layout = Layout(t: Slots, g: Shape, ext: set<nat>, at: seq<nat>)

  ghost predicate PSized(p: Pool) {
    |p.id| == |p.prev| == |p.stat| == |p.next| == |p.unext| == |p.sib| == |p.name| == |p.value| > 1
  }

  /** `id` and `at` are inverse permutations, and slot 0 sits in cell 0. */
  ghost predicate Placed(id: seq<nat>, at: seq<nat>) {
    && |at| == |id| > 1
    && (forall i: nat :: i < |id| ==> id[i] < |id| && at[id[i]] == i)
    && (forall x: nat :: x < |id| ==> at[x] < |id| && id[at[x]] == x)
    && at[0] == 0
  }

  /** What cell `i` says, through the slot that sits there. */
  ghost predicate ViewedAt(p: Pool, t: Slots, i: nat)
    requires PSized(p) && |t.status| == |t.next| == |t.link| == |p.id| && i < |p.id|
  {
    && p.id[i] < |p.id|
    && t.status[i] == p.stat[p.id[i]]
    && t.next[i] == (if t.status[i] == Free then p.unext[p.id[i]] else p.next[p.id[i]])
    && (i != 0 ==> t.link[i] == p.prev[i])
  }

  ghost predicate Viewed(p: Pool, t: Slots) {
    && PSized(p) && |t.status| == |t.next| == |t.link| == |p.id|
    && forall i: nat :: i < |p.id| ==> ViewedAt(p, t, i)
  }

  /** A free slot remembers its cell. */
  ghost predicate KnowHome(p: Pool, at: seq<nat>)
    requires PSized(p) && |at| == |p.id|
  {
    forall x: nat :: x < |p.id| && p.stat[x] == Free ==> p.next[x] == at[x]
  }

  ghost predicate PoolOk(p: Pool, l: Layout) {
    Viewed(p, l.t) && Placed(p.id, l.at) && Cells(l.t, l.g, l.ext) && |l.g.owner| == |p.id| && KnowHome(p, l.at)
  }

  /** What the pool holds under each live slot; an external slot is in bucket 0. */
  datatype Entry = Entry(bucket: nat, name: nat, value: Value)

  ghost predicate Live(p: Pool, x: nat) {
    0 < x < |p.stat| && p.stat[x] != Free
  }

  ghost function EntryOf(p: Pool, l: Layout, x: nat): Entry
    requires PSized(p) && Placed(p.id, l.at) && |l.g.owner| == |p.id| && x < |p.id|
  {
    Entry(if p.stat[x] == External then 0 else l.g.owner[l.at[x]], p.name[x], p.value[x])
  }

  ghost function Contents(p: Pool, l: Layout): map<nat, Entry>
    requires PSized(p) && Placed(p.id, l.at) && |l.g.owner| == |p.id|
  {
    map x: nat | x < |p.stat| && Live(p, x) :: EntryOf(p, l, x)
  }

  // ---------------------------------------------------------------- facts

  lemma CellFacts(p: Pool, l: Layout, i: nat)
    requires PoolOk(p, l) && i < |p.id|
    ensures Sized(l.t, l.g) && |l.t.next| == |p.id| && p.id[i] < |p.id| && l.at[p.id[i]] == i
    ensures ViewedAt(p, l.t, i)
    ensures CellStatus(l.t, l.g, l.ext, i)
    ensures p.stat[p.id[i]] == Free <==> l.g.owner[i] == 0
    ensures p.id[0] == 0 && (p.id[i] == 0 <==> i == 0)
    ensures i in l.ext ==> l.g.owner[i] == i
  {
    hide RingAt, Cycle, BackCycle, Distinct;
    assert ViewedAt(p, l.t, i);
    assert CellStatus(l.t, l.g, l.ext, i);
    assert p.id[l.at[0]] == 0;
    if i in l.ext {
      HeadFacts(l.t, l.g, l.ext, i);
    }
  }

  lemma PoolSizes(p: Pool, l: Layout)
    requires PoolOk(p, l)
    ensures PSized(p) && Sized(l.t, l.g) && |l.g.owner| == |p.id| == |l.at|
  {}

  lemma SlotFacts(p: Pool, l: Layout, x: nat)
    requires PoolOk(p, l) && x < |p.id|
    ensures l.at[x] < |p.id| && p.id[l.at[x]] == x
    ensures p.stat[x] == Free ==> p.next[x] == l.at[x]
  {}

  /** The place of a free cell in the free list. */
  lemma FreeCellPosition(p: Pool, l: Layout, i: nat) returns (k: nat)
    requires PoolOk(p, l) && 0 < i < |p.id| && l.g.owner[i] == 0
    ensures 0 < k < |l.g.free| && l.g.free[k] == i
    ensures p.id[i] < |p.id| && p.id[i] != 0 && p.stat[p.id[i]] == Free
    ensures var nx, pv := p.unext[p.id[i]], p.prev[i];
      && nx < |p.id| && pv < |p.id| && nx != i && pv != i && nx == l.t.next[i] && pv == l.t.link[i]
      && l.g.owner[nx] == 0 && l.g.owner[pv] == 0 && p.id[nx] < |p.id| && p.id[pv] < |p.id|
  {
    CellFacts(p, l, i);
    assert i in l.g.free && l.g.free[0] == 0;
    k :| 0 <= k < |l.g.free| && l.g.free[k] == i;
    FreeNeighbours(l.t, l.g, k);
    FreeDistinct(l.t, l.g, k);
    CellFacts(p, l, l.t.next[i]);
    CellFacts(p, l, l.t.link[i]);
  }

  lemma FreeDistinct(t: Slots, g: Shape, k: nat)
    requires Sized(t, g) && FreeList(t, g) && 0 < k < |g.free|
    ensures g.free[k - 1] != g.free[k] && Turn(g.free, k + 1) != g.free[k]
  {
    OnlyAt(g.free, k);
  }

  /** The first free cell, if there is one. */
  lemma FirstFreeCell(p: Pool, l: Layout)
    requires PoolOk(p, l)
    ensures p.id[0] == 0 && p.stat[0] == Free && p.unext[0] < |p.id| && |l.g.free| >= 1 && l.g.owner[0] == 0
    ensures p.unext[0] != 0 <==> |l.g.free| > 1
    ensures |l.g.free| > 1 ==> l.g.owner[p.unext[0]] == 0 && p.prev[p.unext[0]] == 0
  {
    hide Cycle, BackCycle, RingAt;
    CellFacts(p, l, 0);
    assert l.g.free[0] == 0 by { FreeHead(l.t, l.g); }
    assert 0 in l.g.free;
    FreeHead(l.t, l.g);
    if |l.g.free| > 1 {
      FirstFree(l.t, l.g);
      CellFacts(p, l, l.t.next[0]);
    }
  }
}
