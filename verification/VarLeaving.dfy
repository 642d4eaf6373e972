/**
 Taking a variable out of its ring while it stays in the pool: its slot becomes external. When a
 head leaves, the next member trades cells with it and heads the ring.
 */
module VarLeaving {
  import opened Rings
  import opened BucketRings
  import opened CellRings
  import opened VarCells
  import opened VarLinks
  import opened VarTaking

  /** The linked slot in cell `h` is on a ring. */
  ghost predicate CanLeave(p: Pool, l: Layout, h: nat, s: set<nat>) {
    && PoolOk(p, l) && 0 < h < |p.id| && l.g.owner[h] != 0 && h !in l.ext
    && Linked(p, l.at, s) && (forall x :: x in s ==> Live(p, x)) && p.id[h] in s
  }

  // ---------------------------------------------------------------- a member other than the head

  /** The slot in cell `h` leaves its ring, where slot `a` pointed to it. */
  function MemberLeft(p: Pool, h: nat, a: nat): Pool
    requires PSized(p) && h < |p.id| && p.id[h] < |p.id| && a < |p.id|
  {
    var m := p.id[h];
    p.(next := p.next[a := p.next[m]][m := h], stat := p.stat[m := External])
  }

  /** Cell `h` is at position `j > 0` of ring `o`. */
  ghost predicate MemberAt(l: Layout, o: nat, h: nat, j: nat) {
    o in l.g.rings && 0 < j < |l.g.rings[o]| && l.g.rings[o][j] == h
  }

  ghost function MemberLeftLayout(p': Pool, l: Layout, o: nat, h: nat, j: nat): Layout
    requires Sized(l.t, l.g) && h < |l.g.owner| && MemberAt(l, o, h, j) && l.g.rings[o][j - 1] < |l.g.owner|
  {
    Layout(
      Slots(l.t.status[h := External], l.t.next[l.g.rings[o][j - 1] := l.t.next[h]][h := h], l.t.link),
      Shape(l.g.free, l.g.rings[o := Without(l.g.rings[o], j)][h := [h]], l.g.owner[h := h], map[]),
      l.ext + {h}, l.at)
  }

  ghost predicate MemberStep(p: Pool, l: Layout, o: nat, h: nat, j: nat, s: set<nat>, p': Pool, l': Layout) {
    && CanLeave(p, l, h, s) && MemberAt(l, o, h, j) && PSized(p) && Sized(l.t, l.g) && |l.g.owner| == |p.id| == |l.at|
    && p.id[h] < |p.id| && l.g.rings[o][j - 1] < |p.id| && p.id[l.g.rings[o][j - 1]] < |p.id|
    && p' == MemberLeft(p, h, p.id[l.g.rings[o][j - 1]]) && l' == MemberLeftLayout(p', l, o, h, j)
  }

  /** The member and the cell before it. */
  lemma MemberFactsAt(p: Pool, l: Layout, o: nat, h: nat, j: nat, s: set<nat>)
    requires CanLeave(p, l, h, s) && MemberAt(l, o, h, j)
    ensures PSized(p) && Sized(l.t, l.g) && |l.g.owner| == |p.id| == |l.at| && p.id[h] < |p.id| && p.stat[p.id[h]] == Movable
    ensures l.at[p.id[h]] == h
    ensures var pred := l.g.rings[o][j - 1];
      && 0 < pred < |p.id| && p.id[pred] < |p.id| && pred != h && l.at[p.id[pred]] == pred
      && l.g.owner[pred] == l.g.owner[h] == o && p.stat[p.id[pred]] != Free && l.t.next[pred] == h && h != o
  {
    hide Linked, LinkedAt, Viewed, Placed, KnowHome, RingAt, FreeList, BackCycle, Cells, Distinct;
    PoolSizes(p, l);
    CellFacts(p, l, h);
    HeadFacts(l.t, l.g, l.ext, o);
    var ring := l.g.rings[o];
    OnlyInRing(l.t.next, ring, j);
    assert ring[j] in ring && ring[j - 1] in ring && l.t.next[ring[j - 1]] == Turn(ring, j);
    CellFacts(p, l, ring[j - 1]);
    FirstFreeCell(p, l);
  }

  lemma MemberViewedAt(p: Pool, l: Layout, o: nat, h: nat, j: nat, s: set<nat>, p': Pool, l': Layout, c: nat)
    requires MemberStep(p, l, o, h, j, s, p', l') && c < |p.id|
    ensures PSized(p') && |l'.t.status| == |l'.t.next| == |l'.t.link| == |p'.id| == |p.id|
    ensures ViewedAt(p', l'.t, c)
  {
    hide PoolOk, Without, CellStatus, LinkedAt, Linked, Live;
    MemberFactsAt(p, l, o, h, j, s);
    CellFacts(p, l, h);
    CellFacts(p, l, c);
    CellFacts(p, l, l.g.rings[o][j - 1]);
  }

  /** A member leaves: it becomes external, everything else is kept. */
  lemma MemberLeftOk(p: Pool, l: Layout, o: nat, h: nat, j: nat, s: set<nat>, p': Pool, l': Layout)
    requires MemberStep(p, l, o, h, j, s, p', l')
    ensures PoolOk(p', l') && p.id[h] in Contents(p, l)
    ensures Contents(p', l') == Contents(p, l)[p.id[h] := Contents(p, l)[p.id[h]].(bucket := 0)]
    ensures Linked(p', l'.at, s) && SameLinks(p, l.at, p', l'.at, s)
  {
    hide Viewed, Cells, Without, ViewedAt, Linked, LinkedAt, Placed, KnowHome, RingAt, Cycle, BackCycle, FreeList, CellStatus;
    hide Contents, SameLinks;
    MemberFactsAt(p, l, o, h, j, s);
    forall c: nat | c < |p.id|
      ensures ViewedAt(p', l'.t, c)
    {
      MemberViewedAt(p, l, o, h, j, s, p', l', c);
    }
    ViewedFromCells(p', l'.t);
    CellFacts(p, l, h);
    CellFacts(p, l, l.g.rings[o][j - 1]);
    MemberLeaves(l.t, l.g, l.ext, o, j, l'.t, l'.g);
    MemberLeftContents(p, l, o, h, j, s, p', l');
    CellsOfLive(p, l);
    LinksFrameLive(p, l, p', s);
  }

  lemma MemberLeftContents(p: Pool, l: Layout, o: nat, h: nat, j: nat, s: set<nat>, p': Pool, l': Layout)
    requires MemberStep(p, l, o, h, j, s, p', l')
    ensures PSized(p) && PSized(p') && |l'.g.owner| == |p'.id| && Placed(p.id, l.at) && Placed(p'.id, l'.at) && KnowHome(p', l'.at)
    ensures p.id[h] in Contents(p, l)
    ensures Contents(p', l') == Contents(p, l)[p.id[h] := Contents(p, l)[p.id[h]].(bucket := 0)]
  {
    hide Cells, Viewed, Linked, Without;
    MemberFactsAt(p, l, o, h, j, s);
    CellsOfLive(p, l);
    var m := p.id[h];
    forall y: nat | y < |p.id| && y != m
      ensures Live(p', y) <==> Live(p, y)
      ensures Live(p, y) ==> EntryOf(p', l', y) == EntryOf(p, l, y)
    {}
    assert Live(p', m);
    ContentsSet(p, l, p', l', m, EntryOf(p', l', m));
  }

  // ---------------------------------------------------------------- the head

  /** The slots in cells `h` and `o` trade places; the links to them follow, written one by one. */
  function Swapped(p: Pool, h: nat, o: nat): Pool
    requires PSized(p) && h < |p.id| && o < |p.id| && p.id[h] < |p.id| && p.id[o] < |p.id|
    requires p.prev[h] < |p.id| && p.prev[o] < |p.id| && p.sib[p.id[h]] < |p.id| && p.sib[p.id[o]] < |p.id|
    requires p.id[p.prev[h]] < |p.id| && p.id[p.prev[o]] < |p.id|
  {
    var m, y := p.id[h], p.id[o];
    var b1 := if p.sib[y] != 0 then p.prev[p.sib[y] := h] else p.prev;
    var f1 := if p.prev[o] != 0 then p.sib[p.id[p.prev[o]] := h] else p.sib;
    var b2 := if p.sib[m] != 0 then b1[p.sib[m] := o] else b1;
    var f2 := if p.prev[h] != 0 then f1[p.id[p.prev[h]] := o] else f1;
    p.(id := p.id[h := y][o := m], prev := b2[h := b2[o]][o := b2[h]], sib := f2)
  }

  /** The head of the ring from cell `h` becomes external; the next member, in cell `o`, takes its place. */
  function HeadLeft(p: Pool, h: nat, o: nat): Pool
    requires PSized(p) && h < |p.id| && o < |p.id| && p.id[h] < |p.id| && p.id[o] < |p.id|
    requires p.prev[h] < |p.id| && p.prev[o] < |p.id| && p.sib[p.id[h]] < |p.id| && p.sib[p.id[o]] < |p.id|
    requires p.id[p.prev[h]] < |p.id| && p.id[p.prev[o]] < |p.id|
  {
    Swapped(p, h, o).(
      stat := p.stat[p.id[o] := Head][p.id[h] := External], next := p.next[p.id[h] := o])
  }

  ghost function HeadLeftLayout(p': Pool, l: Layout, h: nat, o: nat, at': seq<nat>): Layout
    requires Sized(l.t, l.g) && h < |l.g.owner| && o < |l.g.owner| && h in l.g.rings && |l.g.rings[h]| > 1 && |p'.prev| > 0
  {
    Layout(
      Slots(l.t.status[o := External], l.t.next[h := l.t.next[o]][o := o], p'.prev[0 := l.t.link[0]]),
      Shape(l.g.free, l.g.rings[h := Without(l.g.rings[h], 1)][o := [o]], l.g.owner[o := o], map[]),
      l.ext + {o}, at')
  }

  /** Cell `h` heads a ring whose next cell is `o`, both in use by linked slots. */
  ghost predicate HeadStep(p: Pool, l: Layout, h: nat, o: nat, s: set<nat>, p': Pool, l': Layout) {
    && CanLeave(p, l, h, s) && h in l.g.rings && |l.g.rings[h]| > 1 && l.g.rings[h][1] == o
    && PSized(p) && Sized(l.t, l.g) && |l.g.owner| == |p.id| == |l.at| && o < |p.id| && p.id[h] < |p.id| && p.id[o] < |p.id|
    && p.id[o] in s
    && p.prev[h] < |p.id| && p.prev[o] < |p.id| && p.sib[p.id[h]] < |p.id| && p.sib[p.id[o]] < |p.id|
    && p.id[p.prev[h]] < |p.id| && p.id[p.prev[o]] < |p.id|
    && p' == HeadLeft(p, h, o) && l' == HeadLeftLayout(p', l, h, o, l.at[p.id[h] := o][p.id[o] := h])
  }

  /** The head and the next member. */
  lemma HeadPair(p: Pool, l: Layout, h: nat, s: set<nat>)
    requires CanLeave(p, l, h, s) && h in l.g.rings && |l.g.rings[h]| > 1
    ensures PSized(p) && Sized(l.t, l.g) && |l.g.owner| == |p.id| == |l.at| && p.id[h] < |p.id|
    ensures l.g.owner[h] == h && p.stat[p.id[h]] == Head && l.at[p.id[h]] == h && l.g.rings[h][0] == h
    ensures var o := l.g.rings[h][1];
      && 0 < o < |p.id| && o != h && p.id[o] < |p.id| && l.at[p.id[o]] == o && p.id[o] != p.id[h]
      && l.g.owner[o] == h && p.stat[p.id[o]] == Movable && l.t.next[h] == o && p.next[p.id[h]] == o && o !in l.ext
      && p.next[p.id[o]] == l.t.next[o]
  {
    hide Linked, LinkedAt, Viewed, Placed, KnowHome, RingAt, FreeList, BackCycle, Cells, Distinct;
    PoolSizes(p, l);
    HeadFacts(l.t, l.g, l.ext, h);
    CellFacts(p, l, h);
    var ring := l.g.rings[h];
    OnlyInRing(l.t.next, ring, 0);
    assert ring[1] in ring && l.t.next[ring[0]] == Turn(ring, 1);
    CellFacts(p, l, ring[1]);
    FirstFreeCell(p, l);
  }

  lemma LinkIndices(p: Pool, l: Layout, h: nat, s: set<nat>)
    requires PoolOk(p, l) && 0 < h < |p.id| && Linked(p, l.at, s) && p.id[h] in s && forall x :: x in s ==> Live(p, x)
    ensures PSized(p) && |l.at| == |p.id| == |l.g.owner| && p.id[h] < |p.id| && p.prev[h] < |p.id| && p.id[p.prev[h]] < |p.id|
    ensures p.sib[p.id[h]] < |p.id| && LinkedAt(p, l.at, s, p.id[h]) && l.at[p.id[h]] == h
    ensures p.sib[p.id[h]] != 0 ==> l.g.owner[p.sib[p.id[h]]] != 0
  {
    hide Cells, Viewed, Placed;
    PoolSizes(p, l);
    CellFacts(p, l, h);
    CellsOfLive(p, l);
    assert LinkedAt(p, l.at, s, p.id[h]);
  }

  lemma HeadViewedAt(p: Pool, l: Layout, h: nat, o: nat, s: set<nat>, p': Pool, l': Layout, c: nat)
    requires HeadStep(p, l, h, o, s, p', l') && c < |p.id|
    ensures PSized(p') && |l'.t.status| == |l'.t.next| == |l'.t.link| == |p'.id| == |p.id|
    ensures ViewedAt(p', l'.t, c)
  {
    hide PoolOk, Without, CellStatus, LinkedAt, Linked, Live;
    HeadPair(p, l, h, s);
    CellFacts(p, l, h);
    CellFacts(p, l, o);
    CellFacts(p, l, c);
  }

  /** Two linked slots, in cells `h` and `o`. */
  ghost predicate LinkedPair(p: Pool, at: seq<nat>, s: set<nat>, h: nat, o: nat) {
    && Linked(p, at, s) && PSized(p) && |at| == |p.id| && 0 < h < |p.id| && 0 < o < |p.id| && h != o
    && p.id[h] in s && p.id[o] in s && p.id[h] < |p.id| && p.id[o] < |p.id| && p.id[h] != p.id[o]
    && at[p.id[h]] == h && at[p.id[o]] == o
    && p.prev[h] < |p.id| && p.prev[o] < |p.id| && p.sib[p.id[h]] < |p.id| && p.sib[p.id[o]] < |p.id|
    && p.id[p.prev[h]] < |p.id| && p.id[p.prev[o]] < |p.id|
  }

  lemma SwappedSib(p: Pool, at: seq<nat>, s: set<nat>, h: nat, o: nat, x: nat)
    requires LinkedPair(p, at, s, h, o) && x in s
    ensures x < |p.id| && Swapped(p, h, o).sib[x] == Traded(h, o, p.sib[x])
  {
    hide Linked;
    Adjacent(p, at, s, x, p.id[h]);
    Adjacent(p, at, s, x, p.id[o]);
  }

  lemma SwappedPrev(p: Pool, at: seq<nat>, s: set<nat>, h: nat, o: nat, x: nat)
    requires LinkedPair(p, at, s, h, o) && x in s && x != p.id[h] && x != p.id[o]
    ensures x < |p.id| && at[x] < |p.id| && at[x] != h && at[x] != o
    ensures Swapped(p, h, o).prev[at[x]] == Traded(h, o, p.prev[at[x]])
  {
    hide Linked;
    Adjacent(p, at, s, p.id[h], x);
    Adjacent(p, at, s, p.id[o], x);
  }

  lemma SwappedPrevPair(p: Pool, at: seq<nat>, s: set<nat>, h: nat, o: nat)
    requires LinkedPair(p, at, s, h, o)
    ensures Swapped(p, h, o).prev[o] == Traded(h, o, p.prev[h])
    ensures Swapped(p, h, o).prev[h] == Traded(h, o, p.prev[o])
  {
    hide Linked;
    Adjacent(p, at, s, p.id[h], p.id[o]);
    Adjacent(p, at, s, p.id[o], p.id[h]);
  }

  /** The link writes make every link follow the traded cells, also when the two slots are neighbours. */
  lemma SwappedFollows(p: Pool, l: Layout, h: nat, o: nat, s: set<nat>, p': Pool, l': Layout, x: nat)
    requires HeadStep(p, l, h, o, s, p', l') && x in s
    ensures PSized(p') && |l'.at| == |p'.id| == |p.id| && x < |p.id| && l.at[x] < |p.id|
    ensures LinkedAt(p, l.at, s, x) && Follows(p, l.at, p', l'.at, h, o, x)
  {
    hide PoolOk, Without, Live, CellStatus, Linked;
    HeadPair(p, l, h, s);
    Adjacent(p, l.at, s, x, p.id[h]);
    SwappedSib(p, l.at, s, h, o, x);
    LinkIndices(p, l, h, s);
    LinkIndices(p, l, o, s);
    if x == p.id[h] || x == p.id[o] {
      SwappedPrevPair(p, l.at, s, h, o);
    } else {
      SwappedPrev(p, l.at, s, h, o, x);
    }
  }

  /** The head leaves: it becomes external, everything else is kept. */
  lemma HeadLeftOk(p: Pool, l: Layout, h: nat, o: nat, s: set<nat>, p': Pool, l': Layout)
    requires HeadStep(p, l, h, o, s, p', l')
    ensures PoolOk(p', l') && p.id[h] in Contents(p, l)
    ensures Contents(p', l') == Contents(p, l)[p.id[h] := Contents(p, l)[p.id[h]].(bucket := 0)]
    ensures Linked(p', l'.at, s) && SameLinks(p, l.at, p', l'.at, s)
  {
    hide Viewed, Cells, Without, ViewedAt, Linked, LinkedAt, Placed, KnowHome, RingAt, Cycle, BackCycle, FreeList;
    hide Contents, SameLinks, Follows, HeadLeft;
    HeadPair(p, l, h, s);
    HeadLeftSizes(p, l, h, o, s, p', l');
    forall c: nat | c < |p.id|
      ensures ViewedAt(p', l'.t, c)
    {
      HeadViewedAt(p, l, h, o, s, p', l', c);
    }
    ViewedFromCells(p', l'.t);
    HeadLeftCells(p, l, h, o, s, p', l');
    HeadLeftContents(p, l, h, o, s, p', l');
    forall x: nat | x in s
      ensures x < |p.id| && l.at[x] < |p.id| && LinkedAt(p, l.at, s, x) && Follows(p, l.at, p', l'.at, h, o, x)
    {
      SwappedFollows(p, l, h, o, s, p', l', x);
    }
    LinksFollow(p, l.at, p', l'.at, s, h, o);
  }

  lemma HeadLeftSizes(p: Pool, l: Layout, h: nat, o: nat, s: set<nat>, p': Pool, l': Layout)
    requires HeadStep(p, l, h, o, s, p', l')
    ensures PSized(p') && |l'.t.status| == |l'.t.next| == |l'.t.link| == |p'.id| == |p.id|
    ensures Sized(l'.t, l'.g) && |l'.g.owner| == |p'.id| && |l'.at| == |p.id| && p.id[0] == 0 == p'.id[0]
  {
    hide PoolOk, Without;
    HeadPair(p, l, h, s);
  }

  lemma HeadLeftCells(p: Pool, l: Layout, h: nat, o: nat, s: set<nat>, p': Pool, l': Layout)
    requires HeadStep(p, l, h, o, s, p', l')
    ensures Cells(l'.t, l'.g, l'.ext)
  {
    hide Viewed, Cells, Without, Linked, Placed, KnowHome, RingAt, Cycle, BackCycle, FreeList, CellStatus;
    HeadPair(p, l, h, s);
    HeadLeftSizes(p, l, h, o, s, p', l');
    CellFacts(p, l, h);
    forall c: nat | c < |p.id| && l.g.owner[c] == 0
      ensures l'.t.link[c] == l.t.link[c]
    {
      if c != 0 {
        CellFacts(p, l, c);
        LinkIndices(p, l, h, s);
        LinkIndices(p, l, o, s);
      }
    }
    MemberLeaves(l.t, l.g, l.ext, h, 1, l'.t, l'.g);
  }

  lemma HeadLeftContents(p: Pool, l: Layout, h: nat, o: nat, s: set<nat>, p': Pool, l': Layout)
    requires HeadStep(p, l, h, o, s, p', l')
    ensures PSized(p) && PSized(p') && |l'.g.owner| == |p'.id| && Placed(p.id, l.at) && Placed(p'.id, l'.at)
    ensures KnowHome(p', l'.at) && p.id[h] in Contents(p, l)
    ensures Contents(p', l') == Contents(p, l)[p.id[h] := Contents(p, l)[p.id[h]].(bucket := 0)]
  {
    hide Cells, Viewed, Linked, Without, KnowHome;
    HeadPair(p, l, h, s);
    HeadLeftSizes(p, l, h, o, s, p', l');
    HeadLeftPlaced(p, l, h, o, s, p', l');
    CellsOfLive(p, l);
    hide Placed;
    var m := p.id[h];
    forall y: nat | y < |p.id| && y != m
      ensures Live(p', y) <==> Live(p, y)
      ensures Live(p, y) ==> EntryOf(p', l', y) == EntryOf(p, l, y)
    {}
    assert Live(p', m);
    ContentsSet(p, l, p', l', m, EntryOf(p', l', m));
  }

  lemma HeadLeftPlaced(p: Pool, l: Layout, h: nat, o: nat, s: set<nat>, p': Pool, l': Layout)
    requires HeadStep(p, l, h, o, s, p', l')
    ensures PSized(p') && |l'.at| == |p'.id| && Placed(p'.id, l'.at) && KnowHome(p', l'.at)
  {
    hide Cells, Viewed, Linked, Without;
    HeadPair(p, l, h, s);
    HeadLeftSizes(p, l, h, o, s, p', l');
  }

  // ---------------------------------------------------------------- the only member

  /** The only slot on a ring becomes external. */
  lemma LoneLeftOk(p: Pool, l: Layout, h: nat, s: set<nat>) returns (l': Layout)
    requires CanLeave(p, l, h, s) && h in l.g.rings && |l.g.rings[h]| == 1
    ensures p.id[h] < |p.id|
    ensures var m := p.id[h]; var p' := p.(stat := p.stat[m := External], next := p.next[m := h]);
      && PoolOk(p', l') && m in Contents(p, l) && Contents(p', l') == Contents(p, l)[m := Contents(p, l)[m].(bucket := 0)]
      && Linked(p', l'.at, s) && SameLinks(p, l.at, p', l'.at, s)
  {
    hide FreeList, Cells, CellStatus;
    CellFacts(p, l, h);
    PoolSizes(p, l);
    CellsOfLive(p, l);
    HeadFacts(l.t, l.g, l.ext, h);
    assert l.t.next[l.g.rings[h][0]] == Turn(l.g.rings[h], 1);
    hide RingAt, Cycle, BackCycle;
    var m := p.id[h];
    var p' := p.(stat := p.stat[m := External], next := p.next[m := h]);
    var t' := l.t.(status := l.t.status[h := External]);
    l' := Layout(t', l.g, l.ext + {h}, l.at);
    LoneHeadLeaves(l.t, l.g, l.ext, h, t');
    forall c: nat | c < |p.id|
      ensures ViewedAt(p', t', c)
    {
      CellFacts(p, l, c);
    }
    LinksFrame(p, l.at, p', s);
    assert Live(p', m);
    ContentsSet(p, l, p', l', m, EntryOf(p', l', m));
  }
}
