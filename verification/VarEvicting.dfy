/**
 Making room for a new variable in a cell whose resident belongs elsewhere: the resident moves to a
 free cell, whose slot takes over the cell as the head of a new ring.
 */
module VarEvicting {
  import opened Rings
  import opened BucketRings
  import opened CellRings
  import opened VarCells
  import opened VarLinks
  import opened VarTaking
  import opened VarMoves

  /** The slot in cell `h` moves to free cell `n`; slot `a`, before it on its ring, now points there. */
  function Evicted(p: Pool, h: nat, n: nat, a: nat): Pool
    requires PSized(p) && n < |p.id| && h < |p.id| && p.id[h] < |p.id| && p.id[n] < |p.id| && p.unext[p.id[n]] < |p.id|
    requires p.prev[n] < |p.id| && p.id[p.prev[n]] < |p.id|
    requires p.prev[h] < |p.id| && p.id[p.prev[h]] < |p.id| && p.sib[p.id[h]] < |p.id| && a < |p.id|
  {
    var f, m := p.id[n], p.id[h];
    var q := FreeUnlinked(p, n, p.unext[f]);
    q.(id := p.id[n := m][h := f], sib := MovedSib(p, h, n),
       prev := (if p.sib[m] != 0 then q.prev[p.sib[m] := n] else q.prev)[n := p.prev[h]],
       next := p.next[a := n][f := h], stat := p.stat[f := Head], value := p.value[f := Undefined])
  }

  /** The resident of cell `h` is external, or sits at position `j` of its ring. */
  ghost predicate Evicting(p: Pool, l: Layout, h: nat, n: nat, k: nat, j: nat, s: set<nat>) {
    && CanMove(p, l, h, n, s) && 0 < k < |l.g.free| && l.g.free[k] == n
    && (h !in l.ext ==>
          && l.g.owner[h] in l.g.rings && l.g.owner[h] != h && 0 < j < |l.g.rings[l.g.owner[h]]|
          && l.g.rings[l.g.owner[h]][j] == h)
  }

  /** The cell before `h` on its ring; an external cell is its own predecessor. */
  ghost function PredCell(l: Layout, h: nat, j: nat): nat
    requires h < |l.g.owner|
    requires h !in l.ext ==> l.g.owner[h] in l.g.rings && 0 < j < |l.g.rings[l.g.owner[h]]|
  {
    if h in l.ext then h else l.g.rings[l.g.owner[h]][j - 1]
  }

  ghost function EvictedLayout(p': Pool, l: Layout, h: nat, n: nat, k: nat, j: nat, at': seq<nat>): Layout
    requires Sized(l.t, l.g) && h < |l.g.owner| && n < |l.g.owner| && k < |l.g.free| && |p'.prev| > 0
    requires l.t.link[n] < |l.t.next| && l.t.next[n] < |l.t.next|
    requires h !in l.ext ==> l.g.owner[h] in l.g.rings && 0 < j < |l.g.rings[l.g.owner[h]]| && PredCell(l, h, j) < |l.g.owner|
  {
    var u, o, free := Unlinked(l.t, n), l.g.owner[h], Without(l.g.free, k);
    if h in l.ext then
      Layout(
        Slots(u.status[n := External][h := Head], u.next[n := n][h := h], p'.prev[0 := u.link[0]]),
        Shape(free, l.g.rings[h := [h]][n := [n]], l.g.owner[n := n][h := h], map[]),
        l.ext - {h} + {n}, at')
    else
      var ring: seq<nat> := l.g.rings[o][j := n];
      Layout(
        Slots(u.status[n := Movable][h := Head], u.next[PredCell(l, h, j) := n][n := l.t.next[h]][h := h], p'.prev[0 := u.link[0]]),
        Shape(free, l.g.rings[o := ring][h := [h]], l.g.owner[n := o][h := h], map[]),
        l.ext, at')
  }

  lemma ResidentFacts(p: Pool, l: Layout, h: nat, n: nat, k: nat, j: nat, s: set<nat>)
    requires Evicting(p, l, h, n, k, j, s)
    ensures PSized(p) && Sized(l.t, l.g) && |l.g.owner| == |p.id| && h < |p.id| && MoveReady(p, h, n)
    ensures h !in l.ext ==> l.g.owner[h] in l.g.rings && 0 < j < |l.g.rings[l.g.owner[h]]|
    ensures var pred := PredCell(l, h, j);
      && 0 < pred < |p.id| && p.id[pred] < |p.id| && pred != n && l.at[p.id[pred]] == pred
      && l.g.owner[pred] == l.g.owner[h] != 0 && (h !in l.ext ==> pred != h && p.stat[p.id[h]] == Movable)
      && (h in l.ext ==> l.g.owner[h] == h && p.stat[p.id[h]] == External)
      && p.stat[p.id[pred]] != Free && (h !in l.ext ==> l.t.next[pred] == h)
      && p.id[pred] != p.id[n]
  {
    hide Linked, LinkedAt, Viewed, Placed, KnowHome, RingAt, FreeList, BackCycle, Cells, Distinct;
    MoveFacts(p, l, h, n, s);
    CellFacts(p, l, h);
    if h !in l.ext {
      HeadFacts(l.t, l.g, l.ext, l.g.owner[h]);
      var ring := l.g.rings[l.g.owner[h]];
      OnlyInRing(l.t.next, ring, j);
      assert ring[j - 1] in ring && l.t.next[ring[j - 1]] == Turn(ring, j);
    }
    CellFacts(p, l, PredCell(l, h, j));
    FirstFreeCell(p, l);
  }

  /** Moving the resident of `h` out of the way, from `p` with layout `l` to `p'` with layout `l'`. */
  ghost predicate EvictStep(p: Pool, l: Layout, h: nat, n: nat, k: nat, j: nat, s: set<nat>, p': Pool, l': Layout) {
    && Evicting(p, l, h, n, k, j, s) && MoveReady(p, h, n)
    && Sized(l.t, l.g) && n < |l.g.owner| && h < |l.g.owner| == |p.id| == |l.at|
    && l.t.link[n] < |l.t.next| && l.t.next[n] < |l.t.next|
    && PredCell(l, h, j) < |l.g.owner| && p.id[PredCell(l, h, j)] < |p.id|
    && p' == Evicted(p, h, n, p.id[PredCell(l, h, j)])
    && l' == EvictedLayout(p', l, h, n, k, j, Resettled(p, l.at, h, n))
  }

  lemma EvictStepSizes(p: Pool, l: Layout, h: nat, n: nat, k: nat, j: nat, s: set<nat>, p': Pool, l': Layout)
    requires EvictStep(p, l, h, n, k, j, s, p', l')
    ensures PSized(p') && |l'.t.status| == |l'.t.next| == |l'.t.link| == |p'.id| == |p.id|
    ensures Sized(l'.t, l'.g) && |l'.g.owner| == |p'.id| && |l'.at| == |p.id|
  {
    hide Linked, PoolOk, Without, Unlinked;
    assert |Unlinked(l.t, n).status| == |p.id| && |Unlinked(l.t, n).next| == |p.id| by { UnlinkedSizes(l.t, n); }
  }

  lemma UnlinkedSizes(t: Slots, x: nat)
    requires x < |t.next| == |t.link| && t.link[x] < |t.next| && t.next[x] < |t.next|
    ensures var u := Unlinked(t, x); |u.next| == |t.next| && |u.link| == |t.link| && u.status == t.status
  {}

  lemma EvictViewedAt(p: Pool, l: Layout, h: nat, n: nat, k: nat, j: nat, s: set<nat>, p': Pool, l': Layout, c: nat)
    requires EvictStep(p, l, h, n, k, j, s, p', l') && c < |p.id|
    ensures PSized(p') && |l'.t.status| == |l'.t.next| == |l'.t.link| == |p'.id| == |p.id|
    ensures ViewedAt(p', l'.t, c)
  {
    hide PoolOk, Without, CellStatus, LinkedAt, Linked, Live;
    EvictStepSizes(p, l, h, n, k, j, s, p', l');
    ResidentFacts(p, l, h, n, k, j, s);
    MoveFacts(p, l, h, n, s);
    CellFacts(p, l, h);
    CellFacts(p, l, n);
    CellFacts(p, l, c);
    CellFacts(p, l, p.prev[n]);
    CellFacts(p, l, PredCell(l, h, j));
  }

  lemma EvictStepCells(p: Pool, l: Layout, h: nat, n: nat, k: nat, j: nat, s: set<nat>, p': Pool, l': Layout)
    requires EvictStep(p, l, h, n, k, j, s, p', l')
    ensures Viewed(p', l'.t) && Cells(l'.t, l'.g, l'.ext)
  {
    hide Viewed, Cells, Without, ViewedAt, Linked, LinkedAt, Placed, KnowHome, RingAt, Cycle, BackCycle, FreeList, CellStatus;
    EvictStepSizes(p, l, h, n, k, j, s, p', l');
    forall c: nat | c < |p.id|
      ensures ViewedAt(p', l'.t, c)
    {
      EvictViewedAt(p, l, h, n, k, j, s, p', l', c);
    }
    ViewedFromCells(p', l'.t);
    forall c: nat | 0 < c < |p.id| && l.g.owner[c] == 0 && c != n
      ensures p'.prev[c] == Unlinked(l.t, n).link[c]
    {
      FreePrev(p, l, h, n, s, c);
      MoveFacts(p, l, h, n, s);
    }
    EvictionCells(p, l, h, n, k, j, s, p', l');
  }

  lemma EvictionCells(p: Pool, l: Layout, h: nat, n: nat, k: nat, j: nat, s: set<nat>, p': Pool, l': Layout)
    requires EvictStep(p, l, h, n, k, j, s, p', l') && JoinedPrev(p, l, p', n)
    ensures Cells(l'.t, l'.g, l'.ext)
  {
    hide Viewed, Cells, Without, ViewedAt, Linked, LinkedAt, Placed, KnowHome, RingAt, Cycle, BackCycle, FreeList, Evicted;
    EvictStepSizes(p, l, h, n, k, j, s, p', l');
    ResidentFacts(p, l, h, n, k, j, s);
    MoveFacts(p, l, h, n, s);
    CellFacts(p, l, h);
    CellFacts(p, l, PredCell(l, h, j));
    if h in l.ext {
      EvictExternal(l.t, l.g, l.ext, h, k, l'.t, l'.g);
    } else {
      EvictMovable(l.t, l.g, l.ext, h, j, k, l'.t, l'.g);
    }
  }

  lemma EvictStepPlaced(p: Pool, l: Layout, h: nat, n: nat, k: nat, j: nat, s: set<nat>, p': Pool, l': Layout)
    requires EvictStep(p, l, h, n, k, j, s, p', l')
    ensures PSized(p') && Placed(p'.id, l'.at) && |l'.at| == |p'.id| && KnowHome(p', l'.at)
  {
    hide Cells, Viewed, Linked, With, Without, Placed, KnowHome, Unlinked;
    EvictStepSizes(p, l, h, n, k, j, s, p', l');
    ResidentFacts(p, l, h, n, k, j, s);
    MoveFacts(p, l, h, n, s);
    TradedPlaced(p.id, l.at, h, n);
    forall x: nat | x < |p'.id| && p'.stat[x] == Free
      ensures p'.next[x] == l'.at[x]
    {
      SlotFacts(p, l, x);
    }
    KnowHomeFrom(p', l'.at);
  }

  lemma EvictStepContents(p: Pool, l: Layout, h: nat, n: nat, k: nat, j: nat, s: set<nat>, p': Pool, l': Layout)
    requires EvictStep(p, l, h, n, k, j, s, p', l')
    ensures PSized(p) && Placed(p.id, l.at)
    ensures PSized(p') && Placed(p'.id, l'.at) && |l'.g.owner| == |p'.id|
    ensures p.id[n] !in Contents(p, l)
    ensures Contents(p', l') == Contents(p, l)[p.id[n] := Entry(h, p.name[p.id[n]], Undefined)]
  {
    hide Cells, Viewed, Linked, With, Without, KnowHome, Unlinked;
    EvictStepSizes(p, l, h, n, k, j, s, p', l');
    EvictStepPlaced(p, l, h, n, k, j, s, p', l');
    ResidentFacts(p, l, h, n, k, j, s);
    MoveFacts(p, l, h, n, s);
    CellsOfLive(p, l);
    hide Placed;
    var f := p.id[n];
    forall y: nat | y < |p.id| && y != f
      ensures Live(p', y) <==> Live(p, y)
      ensures Live(p, y) ==> EntryOf(p', l', y) == EntryOf(p, l, y)
    {}
    ContentsSet(p, l, p', l', f, EntryOf(p', l', f));
  }

  lemma EvictStepLinks(p: Pool, l: Layout, h: nat, n: nat, k: nat, j: nat, s: set<nat>, p': Pool, l': Layout)
    requires EvictStep(p, l, h, n, k, j, s, p', l')
    ensures Linked(p', l'.at, s) && SameLinks(p, l.at, p', l'.at, s)
  {
    hide Cells, Viewed, With, Without, KnowHome, Placed, Unlinked, LinkedAt, SameLinks, Follows;
    EvictStepSizes(p, l, h, n, k, j, s, p', l');
    MoveFacts(p, l, h, n, s);
    CellsOfLive(p, l);
    forall x: nat | x in s
      ensures LinkedAt(p, l.at, s, x) && Follows(p, l.at, p', l'.at, h, n, x)
    {
      MovedFollows(p, l.at, p', l'.at, s, h, n, x);
    }
    LinksFollow(p, l.at, p', l'.at, s, h, n);
  }

  /** After an eviction the new slot is in the pool, under bucket `h`; everything else is kept. */
  lemma EvictedOk(p: Pool, l: Layout, h: nat, n: nat, j: nat, s: set<nat>) returns (l': Layout)
    requires CanMove(p, l, h, n, s)
    requires h !in l.ext ==>
      l.g.owner[h] in l.g.rings && l.g.owner[h] != h && 0 < j < |l.g.rings[l.g.owner[h]]| && l.g.rings[l.g.owner[h]][j] == h
    ensures MoveReady(p, h, n)
    ensures PredCell(l, h, j) < |p.id| && p.id[PredCell(l, h, j)] < |p.id|
    ensures var p', x := Evicted(p, h, n, p.id[PredCell(l, h, j)]), p.id[n];
      && PoolOk(p', l') && x !in Contents(p, l) && x < |p.name|
      && Contents(p', l') == Contents(p, l)[x := Entry(h, p.name[x], Undefined)]
      && Linked(p', l'.at, s) && SameLinks(p, l.at, p', l'.at, s)
  {
    hide Viewed, Placed, KnowHome, Cells, Contents, Linked, SameLinks, Without, With;
    var k := FreeCellPosition(p, l, n);
    ResidentFacts(p, l, h, n, k, j, s);
    MoveFacts(p, l, h, n, s);
    var p' := Evicted(p, h, n, p.id[PredCell(l, h, j)]);
    l' := EvictedLayout(p', l, h, n, k, j, Resettled(p, l.at, h, n));
    EvictStepCells(p, l, h, n, k, j, s, p', l');
    EvictStepContents(p, l, h, n, k, j, s, p', l');
    EvictStepPlaced(p, l, h, n, k, j, s, p', l');
    EvictStepLinks(p, l, h, n, k, j, s, p', l');
  }
}
