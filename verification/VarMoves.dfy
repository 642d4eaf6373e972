/**
 Making room for a new variable in a cell that is in use: the new variable's slot joins the ring
 behind the head, or the slot in the cell moves to a free cell.
 */
module VarMoves {
  import opened Rings
  import opened BucketRings
  import opened CellRings
  import opened VarCells
  import opened VarLinks
  import opened VarTaking

  /** Cell `h` is in use by a linked slot, cell `n` is free. */
  ghost predicate CanMove(p: Pool, l: Layout, h: nat, n: nat, s: set<nat>) {
    && CanTake(p, l, n) && 0 < h < |p.id| && l.g.owner[h] != 0
    && Linked(p, l.at, s) && (forall x :: x in s ==> Live(p, x)) && p.id[h] in s
  }

  lemma MoveFacts(p: Pool, l: Layout, h: nat, n: nat, s: set<nat>)
    requires CanMove(p, l, h, n, s)
    ensures PSized(p) && Sized(l.t, l.g) && |l.g.owner| == |p.id| == |l.at| && h != n && p.id[0] == 0
    ensures var f := p.id[n];
      && 0 < f < |p.id| && p.stat[f] == Free && l.at[f] == n && f !in s
      && p.unext[f] < |p.id| && p.prev[n] < |p.id| && p.id[p.prev[n]] < |p.id|
      && p.unext[f] == l.t.next[n] != n && p.prev[n] == l.t.link[n] != n
      && l.g.owner[p.prev[n]] == 0 && l.g.owner[p.unext[f]] == 0
      && p.stat[p.id[p.prev[n]]] == Free && p.id[p.prev[n]] != f
    ensures var m := p.id[h];
      && 0 < m < |p.id| && p.stat[m] != Free && l.at[m] == h && m in s
      && p.sib[m] < |p.id| && p.prev[h] < |p.id| && p.id[p.prev[h]] < |p.id|
      && (p.sib[m] != 0 ==> l.g.owner[p.sib[m]] != 0) && (p.prev[h] != 0 ==> p.id[p.prev[h]] in s)
      && p.prev[h] != h && p.prev[h] != n && p.sib[m] != h && p.sib[m] != n && p.unext[p.id[n]] != h && p.prev[n] != h
      && p.id[p.prev[h]] != m
  {
    TakeFacts(p, l, n);
    CellFacts(p, l, n);
    CellFacts(p, l, h);
    CellsOfLive(p, l);
    assert LinkedAt(p, l.at, s, p.id[h]);
    hide Cells, Viewed, Placed, KnowHome, CellStatus;
  }

  // ---------------------------------------------------------------- joining a ring

  /** The slot in free cell `n` goes right behind the head in cell `h`. */
  function Joined(p: Pool, h: nat, n: nat): Pool
    requires PSized(p) && n < |p.id| && h < |p.id| && p.id[h] < |p.id| && p.id[n] < |p.id| && p.unext[p.id[n]] < |p.id|
    requires p.prev[n] < |p.id| && p.id[p.prev[n]] < |p.id|
  {
    var f, m := p.id[n], p.id[h];
    FreeUnlinked(p, n, p.unext[f]).(
      stat := p.stat[f := Movable], value := p.value[f := Undefined], next := p.next[f := p.next[m]][m := n])
  }

  /** Slot `h`, free in cell `n`, heads the ring from cell `h`; the slot there moves to cell `n`, right behind it. */
  function HomeTaken(p: Pool, h: nat, n: nat): Pool
    requires PSized(p) && n < |p.id| && h < |p.id| && p.id[h] < |p.id| && p.id[n] < |p.id| && p.unext[p.id[n]] < |p.id|
    requires p.prev[n] < |p.id| && p.id[p.prev[n]] < |p.id|
    requires p.prev[h] < |p.id| && p.id[p.prev[h]] < |p.id| && p.sib[p.id[h]] < |p.id|
  {
    var m := p.id[h];
    var q := FreeUnlinked(p, n, p.unext[p.id[n]]);
    q.(id := p.id[n := m][h := h], prev := q.prev[n := p.prev[h]][p.sib[m] := n], sib := p.sib[p.id[p.prev[h]] := n],
       stat := p.stat[m := Movable][h := Head], value := p.value[h := Undefined])
  }

  ghost function JoinedLayout(p': Pool, l: Layout, h: nat, n: nat, k: nat, at': seq<nat>): Layout
    requires Sized(l.t, l.g) && h < |l.g.owner| && n < |l.g.owner| && k < |l.g.free| && |p'.prev| > 0
    requires l.t.link[n] < |l.t.next| && l.t.next[n] < |l.t.next| && h in l.g.rings && |l.g.rings[h]| > 0
  {
    var u := Unlinked(l.t, n);
    Layout(
      Slots(u.status[n := Movable], u.next[h := n][n := l.t.next[h]], p'.prev[0 := u.link[0]]),
      Shape(Without(l.g.free, k), l.g.rings[h := With(l.g.rings[h], 1, n)], l.g.owner[n := h], map[]),
      l.ext, at')
  }

  /** Cell `h` heads a ring, and free cell `n`, at position `k` of the free list, is to join it. */
  ghost predicate Joining(p: Pool, l: Layout, h: nat, n: nat, k: nat, s: set<nat>) {
    && CanMove(p, l, h, n, s) && 0 < k < |l.g.free| && l.g.free[k] == n
    && h in l.g.rings && h !in l.ext && |l.g.rings[h]| > 0
  }

  /** Both ways of joining write the same links at the cells. */
  ghost predicate JoinedPrev(p: Pool, l: Layout, p': Pool, n: nat)
    requires Sized(l.t, l.g) && n < |l.g.owner| && l.t.link[n] < |l.t.next| && l.t.next[n] < |l.t.next|
  {
    && |p'.prev| == |l.g.owner|
    && forall c: nat :: 0 < c < |l.g.owner| && l.g.owner[c] == 0 && c != n ==> p'.prev[c] == Unlinked(l.t, n).link[c]
  }

  lemma JoinedCells(p: Pool, l: Layout, h: nat, n: nat, k: nat, s: set<nat>, p': Pool, l': Layout)
    requires Joining(p, l, h, n, k, s) && Sized(l.t, l.g) && n < |l.g.owner| && h < |l.g.owner|
    requires l.t.link[n] < |l.t.next| && l.t.next[n] < |l.t.next| && JoinedPrev(p, l, p', n)
    requires l' == JoinedLayout(p', l, h, n, k, l'.at)
    ensures Cells(l'.t, l'.g, l'.ext)
  {
    hide Viewed, Placed, KnowHome, RingAt, Cycle, BackCycle, With, Without, FreeList, Cells, Linked, CellStatus;
    MoveFacts(p, l, h, n, s);
    HeadFacts(l.t, l.g, l.ext, h);
    HeadStatus(p, l, h);
    JoinRing(l.t, l.g, l.ext, h, k, l'.t, l'.g);
  }

  lemma FreePrev(p: Pool, l: Layout, h: nat, n: nat, s: set<nat>, c: nat)
    requires CanMove(p, l, h, n, s) && 0 < c < |p.id| && l.g.owner[c] == 0
    ensures Sized(l.t, l.g) && p.id[n] < |p.id| && p.unext[p.id[n]] < |p.id| && p.prev[n] < |p.id| && p.id[p.prev[n]] < |p.id|
    ensures l.t.link[n] < |l.t.next| == |p.id| && l.t.next[n] < |l.t.next|
    ensures FreeUnlinked(p, n, p.unext[p.id[n]]).prev[c] == Unlinked(l.t, n).link[c]
  {
    MoveFacts(p, l, h, n, s);
    CellFacts(p, l, c);
    hide PoolOk, CellStatus;
  }

  lemma JoinedViewedAt(p: Pool, l: Layout, h: nat, n: nat, k: nat, s: set<nat>, home: bool, p': Pool, l': Layout, c: nat)
    requires Joining(p, l, h, n, k, s) && PSized(p) && h < |p.id| && c < |p.id|
    requires MoveReady(p, h, n) && (home ==> p.id[n] == h && p.next[h] == n)
    requires p' == if home then HomeTaken(p, h, n) else Joined(p, h, n)
    requires Sized(l.t, l.g) && n < |l.g.owner| && h < |l.g.owner| == |p.id| && l.t.link[n] < |l.t.next| && l.t.next[n] < |l.t.next|
    requires l' == JoinedLayout(p', l, h, n, k, l'.at) && |l'.t.status| == |l'.t.next| == |l'.t.link| == |p'.id| == |p.id|
    ensures PSized(p') && ViewedAt(p', l'.t, c)
  {
    hide PoolOk, With, Without, CellStatus, LinkedAt, Linked, Live;
    MoveFacts(p, l, h, n, s);
    CellFacts(p, l, h);
    CellFacts(p, l, n);
    CellFacts(p, l, c);
    CellFacts(p, l, p.prev[n]);
    HeadStatus(p, l, h);
  }

  lemma HeadStatus(p: Pool, l: Layout, h: nat)
    requires PoolOk(p, l) && h in l.g.rings && h !in l.ext
    ensures Sized(l.t, l.g) && h < |l.g.owner| && l.g.owner[h] == h && l.t.status[h] == Head
  {
    HeadFacts(l.t, l.g, l.ext, h);
    CellFacts(p, l, h);
  }

  /** Indices that moving a slot uses. */
  ghost predicate MoveReady(p: Pool, h: nat, n: nat) {
    && PSized(p) && n < |p.id| && h < |p.id| && p.id[h] < |p.id| && p.id[n] < |p.id| && p.unext[p.id[n]] < |p.id|
    && p.prev[n] < |p.id| && p.id[p.prev[n]] < |p.id|
    && p.prev[h] < |p.id| && p.id[p.prev[h]] < |p.id| && p.sib[p.id[h]] < |p.id|
  }

  /** The cell of each slot after slot `h` has moved home from cell `n`. */
  function Resettled(p: Pool, at: seq<nat>, h: nat, n: nat): seq<nat>
    requires h < |p.id| && n < |p.id| && p.id[h] < |at| && p.id[n] < |at|
  {
    at[p.id[h] := n][p.id[n] := h]
  }

  /** Joining a ring, at home or not, from `p` with layout `l` to `p'` with layout `l'`. */
  ghost predicate JoinStep(p: Pool, l: Layout, h: nat, n: nat, k: nat, s: set<nat>, home: bool, p': Pool, l': Layout) {
    && Joining(p, l, h, n, k, s) && MoveReady(p, h, n) && (home ==> p.id[n] == h && p.next[h] == n)
    && p' == (if home then HomeTaken(p, h, n) else Joined(p, h, n))
    && Sized(l.t, l.g) && n < |l.g.owner| && h < |l.g.owner| == |p.id| == |l.at|
    && l.t.link[n] < |l.t.next| && l.t.next[n] < |l.t.next|
    && l' == JoinedLayout(p', l, h, n, k, if home then Resettled(p, l.at, h, n) else l.at)
  }

  lemma JoinStepSizes(p: Pool, l: Layout, h: nat, n: nat, k: nat, s: set<nat>, home: bool, p': Pool, l': Layout)
    requires JoinStep(p, l, h, n, k, s, home, p', l')
    ensures PSized(p') && |l'.t.status| == |l'.t.next| == |l'.t.link| == |p'.id| == |p.id|
    ensures Sized(l'.t, l'.g) && |l'.g.owner| == |p'.id| && |l'.at| == |p.id|
  {
    hide Joining, With, Without;
  }

  lemma JoinStepViewed(p: Pool, l: Layout, h: nat, n: nat, k: nat, s: set<nat>, home: bool, p': Pool, l': Layout)
    requires JoinStep(p, l, h, n, k, s, home, p', l')
    ensures Viewed(p', l'.t) && Cells(l'.t, l'.g, l'.ext)
  {
    hide Viewed, Cells, Joining, With, Without, ViewedAt;
    JoinStepSizes(p, l, h, n, k, s, home, p', l');
    forall c: nat | c < |p.id|
      ensures ViewedAt(p', l'.t, c)
    {
      JoinedViewedAt(p, l, h, n, k, s, home, p', l', c);
    }
    ViewedFromCells(p', l'.t);
    JoinStepPrev(p, l, h, n, k, s, home, p', l');
    JoinedCells(p, l, h, n, k, s, p', l');
  }

  lemma JoinStepPrev(p: Pool, l: Layout, h: nat, n: nat, k: nat, s: set<nat>, home: bool, p': Pool, l': Layout)
    requires JoinStep(p, l, h, n, k, s, home, p', l')
    ensures JoinedPrev(p, l, p', n)
  {
    hide PoolOk, Linked, With, Without;
    JoinStepSizes(p, l, h, n, k, s, home, p', l');
    forall c: nat | 0 < c < |l.g.owner| && l.g.owner[c] == 0 && c != n
      ensures p'.prev[c] == Unlinked(l.t, n).link[c]
    {
      FreePrev(p, l, h, n, s, c);
      MoveFacts(p, l, h, n, s);
    }
  }

  /** Placement after slots have traded cells `h` and `n`. */
  lemma TradedPlaced(id: seq<nat>, at: seq<nat>, h: nat, n: nat)
    requires Placed(id, at) && 0 < h < |id| && 0 < n < |id| && h != n
    ensures id[h] < |at| && id[n] < |at|
    ensures Placed(id[n := id[h]][h := id[n]], at[id[h] := n][id[n] := h])
  {}

  lemma JoinStepPlaced(p: Pool, l: Layout, h: nat, n: nat, k: nat, s: set<nat>, home: bool, p': Pool, l': Layout)
    requires JoinStep(p, l, h, n, k, s, home, p', l')
    ensures PSized(p') && Placed(p'.id, l'.at) && |l'.at| == |p'.id| && KnowHome(p', l'.at)
  {
    hide Cells, Viewed, Linked, With, Without, Placed, KnowHome, Unlinked;
    JoinStepSizes(p, l, h, n, k, s, home, p', l');
    MoveFacts(p, l, h, n, s);
    TradedPlaced(p.id, l.at, h, n);
    forall x: nat | x < |p'.id| && p'.stat[x] == Free
      ensures p'.next[x] == l'.at[x]
    {
      SlotFacts(p, l, x);
    }
    KnowHomeFrom(p', l'.at);
  }

  lemma KnowHomeFrom(p: Pool, at: seq<nat>)
    requires PSized(p) && |at| == |p.id|
    requires forall x: nat :: x < |p.id| && p.stat[x] == Free ==> p.next[x] == at[x]
    ensures KnowHome(p, at)
  {}

  lemma JoinStepContents(p: Pool, l: Layout, h: nat, n: nat, k: nat, s: set<nat>, home: bool, p': Pool, l': Layout)
    requires JoinStep(p, l, h, n, k, s, home, p', l')
    ensures PSized(p) && Placed(p.id, l.at)
    ensures PSized(p') && Placed(p'.id, l'.at) && |l'.g.owner| == |p'.id|
    ensures p.id[n] !in Contents(p, l)
    ensures Contents(p', l') == Contents(p, l)[p.id[n] := Entry(h, p.name[p.id[n]], Undefined)]
  {
    hide Cells, Viewed, Linked, With, Without, KnowHome, Unlinked;
    JoinStepSizes(p, l, h, n, k, s, home, p', l');
    JoinStepPlaced(p, l, h, n, k, s, home, p', l');
    MoveFacts(p, l, h, n, s);
    CellsOfLive(p, l);
    HeadStatus(p, l, h);
    HeadNotExternal(p, l, h);
    hide Placed;
    var f := p.id[n];
    forall y: nat | y < |p.id| && y != f
      ensures Live(p', y) <==> Live(p, y)
      ensures Live(p, y) ==> EntryOf(p', l', y) == EntryOf(p, l, y)
    {}
    ContentsSet(p, l, p', l', f, EntryOf(p', l', f));
  }

  lemma HeadNotExternal(p: Pool, l: Layout, h: nat)
    requires PoolOk(p, l) && h in l.g.rings && h !in l.ext
    ensures PSized(p) && h < |p.id| && p.id[h] < |p.id| && p.stat[p.id[h]] == Head
  {
    HeadStatus(p, l, h);
    CellFacts(p, l, h);
  }

  lemma JoinStepLinks(p: Pool, l: Layout, h: nat, n: nat, k: nat, s: set<nat>, home: bool, p': Pool, l': Layout)
    requires JoinStep(p, l, h, n, k, s, home, p', l')
    ensures Linked(p', l'.at, s) && SameLinks(p, l.at, p', l'.at, s)
  {
    hide Cells, Viewed, With, Without, KnowHome, Placed, Unlinked, LinkedAt, SameLinks, Follows;
    JoinStepSizes(p, l, h, n, k, s, home, p', l');
    MoveFacts(p, l, h, n, s);
    CellsOfLive(p, l);
    if home {
      forall x: nat | x in s
        ensures LinkedAt(p, l.at, s, x) && Follows(p, l.at, p', l'.at, h, n, x)
      {
        MovedFollows(p, l.at, p', l'.at, s, h, n, x);
      }
      LinksFollow(p, l.at, p', l'.at, s, h, n);
    } else {
      LinksFrameLive(p, l, p', s);
    }
  }

  /** A new member behind the head: its slot is added to the pool, everything else is kept. */
  lemma JoinedOk(p: Pool, l: Layout, h: nat, n: nat, s: set<nat>, home: bool) returns (l': Layout)
    requires CanMove(p, l, h, n, s) && h in l.g.rings && h !in l.ext
    requires home ==> p.id[n] == h && p.next[h] == n
    ensures MoveReady(p, h, n)
    ensures var p', x := if home then HomeTaken(p, h, n) else Joined(p, h, n), p.id[n];
      && PoolOk(p', l') && x !in Contents(p, l) && x < |p.name|
      && Contents(p', l') == Contents(p, l)[x := Entry(h, p.name[x], Undefined)]
      && Linked(p', l'.at, s) && SameLinks(p, l.at, p', l'.at, s)
  {
    hide Viewed, Placed, KnowHome, Cells, Contents, Linked, SameLinks, Without, With;
    MoveFacts(p, l, h, n, s);
    HeadFacts(l.t, l.g, l.ext, h);
    var k := FreeCellPosition(p, l, n);
    var p' := if home then HomeTaken(p, h, n) else Joined(p, h, n);
    l' := JoinedLayout(p', l, h, n, k, if home then Resettled(p, l.at, h, n) else l.at);
    JoinStepViewed(p, l, h, n, k, s, home, p', l');
    JoinStepContents(p, l, h, n, k, s, home, p', l');
    JoinStepPlaced(p, l, h, n, k, s, home, p', l');
    JoinStepLinks(p, l, h, n, k, s, home, p', l');
  }
}
