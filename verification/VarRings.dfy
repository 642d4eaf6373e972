/** Walks along the rings of the variable list, and writes to a live slot that leave the layout as it is. */
module VarRings {
  import opened Rings
  import opened BucketRings
  import opened CellRings
  import opened VarCells
  import opened VarLinks
  import opened VarTaking

  /** Cell `h` heads a ring of hashed slots. */
  ghost predicate HeadsRing(l: Layout, h: nat) {
    h in l.g.rings && h !in l.ext
  }

  /** The cell and slot at position `i` of ring `h`. */
  lemma RingStep(p: Pool, l: Layout, h: nat, i: nat)
    requires PoolOk(p, l) && HeadsRing(l, h) && i < |l.g.rings[h]|
    ensures PSized(p) && |l.at| == |l.g.owner| == |p.id| && l.g.rings[h][0] == h
    ensures var c := l.g.rings[h][i];
      && 0 < c < |p.id| && p.id[c] < |p.id| && l.g.owner[c] == h && l.at[p.id[c]] == c && c !in l.ext
      && p.stat[p.id[c]] == (if c == h then Head else Movable) && (c == h <==> i == 0)
      && p.next[p.id[c]] == Turn(l.g.rings[h], i + 1) && p.next[p.id[c]] < |p.id|
      && Live(p, p.id[c])
  {
    hide Viewed, Placed, KnowHome, RingAt, FreeList, BackCycle, Cells, Distinct;
    PoolSizes(p, l);
    HeadFacts(l.t, l.g, l.ext, h);
    var ring := l.g.rings[h];
    assert ring[i] in ring;
    CellFacts(p, l, ring[i]);
    FirstFreeCell(p, l);
    OnlyInRing(l.t.next, ring, 0);
    assert l.t.next[ring[i]] == Turn(ring, i + 1);
    assert Turn(ring, i + 1) in ring;
  }

  /** A cell is a ring's head exactly if its slot says so. */
  lemma HeadIff(p: Pool, l: Layout, h: nat)
    requires PoolOk(p, l) && h < |p.id|
    ensures PSized(p) && |l.g.owner| == |p.id| && p.id[h] < |p.id|
    ensures p.stat[p.id[h]] == Head <==> HeadsRing(l, h)
    ensures HeadsRing(l, h) ==> |l.g.rings[h]| > 0 && l.g.rings[h][0] == h
    ensures p.stat[p.id[h]] == Free <==> l.g.owner[h] == 0
    ensures p.stat[p.id[h]] == Movable <==> l.g.owner[h] != 0 && l.g.owner[h] != h
    ensures p.stat[p.id[h]] == External <==> h in l.ext
  {
    hide Viewed, Placed, KnowHome, RingAt, FreeList, Cycle, Cells;
    PoolSizes(p, l);
    CellFacts(p, l, h);
    if h in l.g.rings {
      HeadFacts(l.t, l.g, l.ext, h);
    }
    FirstFreeCell(p, l);
    if h in l.ext {
      ExtInRings(p, l, h);
    }
  }

  lemma ExtInRings(p: Pool, l: Layout, h: nat)
    requires PoolOk(p, l) && h in l.ext
    ensures h in l.g.rings
  {}

  /** The ring a movable resident is on. */
  lemma MovableRing(p: Pool, l: Layout, h: nat) returns (j: nat)
    requires PoolOk(p, l) && h < |p.id| == |l.g.owner| && l.g.owner[h] != 0 && h !in l.ext
    ensures var o := l.g.owner[h];
      HeadsRing(l, o) && j < |l.g.rings[o]| && l.g.rings[o][j] == h && (j == 0 <==> o == h)
  {
    hide Viewed, Placed, KnowHome, RingAt, FreeList, Cells;
    PoolSizes(p, l);
    CellFacts(p, l, h);
    var o := l.g.owner[h];
    HeadFacts(l.t, l.g, l.ext, o);
    assert h in l.g.rings[o];
    j :| 0 <= j < |l.g.rings[o]| && l.g.rings[o][j] == h;
    OnlyAt(l.g.rings[o], 0);
    if o in l.ext {
      LoneExternal(p, l, o);
    }
  }

  lemma LoneExternal(p: Pool, l: Layout, o: nat)
    requires PoolOk(p, l) && o in l.ext
    ensures o in l.g.rings && |l.g.rings[o]| == 1
  {}

  /** The slots of bucket `h` are those on the ring from cell `h`. */
  lemma BucketIsRing(p: Pool, l: Layout, h: nat, x: nat)
    requires PoolOk(p, l) && x in Contents(p, l) && h != 0
    ensures x < |p.id| == |l.at| && l.at[x] < |p.id| && p.id[l.at[x]] == x
    ensures Contents(p, l)[x].bucket == h <==> HeadsRing(l, h) && l.at[x] in l.g.rings[h]
  {
    hide Viewed, KnowHome, RingAt, FreeList, Cycle, Cells;
    PoolSizes(p, l);
    SlotFacts(p, l, x);
    CellFacts(p, l, l.at[x]);
    HeadIff(p, l, l.at[x]);
    if HeadsRing(l, h) {
      HeadFacts(l.t, l.g, l.ext, h);
    }
    if Contents(p, l)[x].bucket == h {
      var j := MovableRing(p, l, l.at[x]);
    }
  }

  // ---------------------------------------------------------------- harmless writes

  /** Writes to a live slot's name or value change only what the pool says of it. */
  lemma Relabelled(p: Pool, l: Layout, x: nat, name: nat, value: Value, s: set<nat>)
    requires PoolOk(p, l) && x in Contents(p, l) && Linked(p, l.at, s)
    ensures x < |p.id| == |p.name| == |p.value|
    ensures Contents(p, l)[x].name == p.name[x] && Contents(p, l)[x].value == p.value[x]
    ensures var p' := p.(name := p.name[x := name], value := p.value[x := value]);
      && PoolOk(p', l) && Contents(p', l) == Contents(p, l)[x := Contents(p, l)[x].(name := name, value := value)]
      && Linked(p', l.at, s) && SameLinks(p, l.at, p', l.at, s)
  {
    hide Cells;
    var p' := p.(name := p.name[x := name], value := p.value[x := value]);
    forall c: nat | c < |p.id|
      ensures ViewedAt(p', l.t, c)
    {
      assert ViewedAt(p, l.t, c);
    }
    LinksFrame(p, l.at, p', s);
    assert Live(p', x);
    ContentsSet(p, l, p', l, x, EntryOf(p', l, x));
  }

  /** Sibling links do not matter to the pool itself. */
  lemma Resibled(p: Pool, l: Layout, x: nat, v: nat)
    requires PoolOk(p, l) && x < |p.id|
    ensures x < |p.sib|
    ensures var p' := p.(sib := p.sib[x := v]); PoolOk(p', l) && Contents(p', l) == Contents(p, l)
  {
    hide Cells;
    var p' := p.(sib := p.sib[x := v]);
    forall c: nat | c < |p.id|
      ensures ViewedAt(p', l.t, c)
    {
      assert ViewedAt(p, l.t, c);
    }
  }

  /** Nor do the backward links of cells in use, or of cell 0. */
  lemma Repreved(p: Pool, l: Layout, i: nat, v: nat) returns (l': Layout)
    requires PoolOk(p, l) && i < |p.id| && i < |l.g.owner| && (i == 0 || l.g.owner[i] != 0)
    ensures i < |p.prev| && l' == l.(t := l'.t)
    ensures var p' := p.(prev := p.prev[i := v]); PoolOk(p', l') && Contents(p', l') == Contents(p, l)
  {
    hide Cells;
    var p' := p.(prev := p.prev[i := v]);
    var t' := l.t.(link := p'.prev[0 := l.t.link[0]]);
    l' := l.(t := t');
    PoolSizes(p, l);
    forall c: nat | c < |p.id|
      ensures ViewedAt(p', t', c)
    {
      assert ViewedAt(p, l.t, c);
    }
    forall c: nat | c < |l.g.owner| && l.g.owner[c] == 0
      ensures t'.link[c] == l.t.link[c]
    {
      assert ViewedAt(p, l.t, c);
    }
    LinkFrame(l.t, l.g, l.ext, t');
  }

  // ---------------------------------------------------------------- an empty pool

  ghost function EmptyLayout(n: nat): Layout
    requires n > 1
  {
    Layout(
      Slots(seq(n, _ => Free), seq(n, i => if i + 1 == n then 0 else i + 1), seq(n, i => if i == 0 then n - 1 else i - 1)),
      Shape(UpTo(n), map[], seq(n, _ => 0), map[]), {}, UpTo(n))
  }

  /** Every slot is free and in its own cell, and each cell is linked to its neighbours. */
  ghost predicate EmptyCells(p: Pool) {
    && PSized(p)
    && (forall i: nat :: i < |p.id| ==> p.id[i] == i && p.stat[i] == Free && p.next[i] == i)
    && (forall i: nat :: i < |p.id| ==> p.unext[i] == if i + 1 == |p.id| then 0 else i + 1)
    && (forall i: nat :: 0 < i < |p.id| ==> p.prev[i] == i - 1)
  }

  lemma EmptyPoolOk(p: Pool)
    requires EmptyCells(p)
    ensures PoolOk(p, EmptyLayout(|p.id|)) && Contents(p, EmptyLayout(|p.id|)) == map[]
    ensures Linked(p, EmptyLayout(|p.id|).at, {})
  {
    hide Cycle, BackCycle;
    var n, l := |p.id|, EmptyLayout(|p.id|);
    assert UpTo(n)[0] == 0;
    UpToCycle(l.t.next, l.t.link, n);
    forall c: nat | c < n
      ensures ViewedAt(p, l.t, c) && CellStatus(l.t, l.g, l.ext, c)
    {}
  }
}
