/**
 Free cells of the variable list: taking one into use, moving slots so that a slot sits in the cell
 with its own number, and putting one back.
 */
module VarTaking {
  import opened Rings
  import opened BucketRings
  import opened CellRings
  import opened VarCells
  import opened VarLinks

  // ---------------------------------------------------------------- slot i moves to cell i

  /** Slot `i`, free in another cell, trades places with the free slot in cell `i`. */
  function HomeSwapped(p: Pool, i: nat): Pool
    requires PSized(p) && i < |p.id| && p.id[i] < |p.id| && p.next[i] < |p.id|
  {
    var j, f := p.next[i], p.id[i];
    p.(id := p.id[j := f][i := i], next := p.next[f := j][i := i], unext := p.unext[f := p.unext[i]][i := p.unext[f]])
  }

  ghost predicate CanSwap(p: Pool, l: Layout, i: nat) {
    PoolOk(p, l) && 0 < i < |p.id| && l.g.owner[i] == 0 && p.stat[i] == Free && p.id[i] != i
  }

  lemma SwapFacts(p: Pool, l: Layout, i: nat)
    requires CanSwap(p, l, i)
    ensures p.id[i] < |p.id| && p.next[i] < |p.id| && p.next[i] == l.at[i] && p.id[p.next[i]] == i
    ensures p.next[i] != i && p.id[i] != 0 && p.next[i] != 0 && p.stat[p.id[i]] == Free
  {
    CellFacts(p, l, i);
    SlotFacts(p, l, i);
    CellFacts(p, l, l.at[i]);
  }

  lemma HomeSwappedOk(p: Pool, l: Layout, i: nat, s: set<nat>)
    requires CanSwap(p, l, i) && Linked(p, l.at, s) && forall x :: x in s ==> Live(p, x)
    ensures p.id[i] < |p.id| && p.next[i] < |p.id|
    ensures var p', l' := HomeSwapped(p, i), l.(at := l.at[p.id[i] := p.next[i]][i := i]);
      PoolOk(p', l') && Contents(p', l') == Contents(p, l)
      && Linked(p', l'.at, s) && SameLinks(p, l.at, p', l'.at, s)
  {
    hide Cells, SameLinks, Linked;
    SwapFacts(p, l, i);
    HomeSwappedViewed(p, l, i);
    HomeSwappedLinks(p, l, i, s);
  }

  lemma HomeSwappedLinks(p: Pool, l: Layout, i: nat, s: set<nat>)
    requires CanSwap(p, l, i) && Linked(p, l.at, s) && forall x :: x in s ==> Live(p, x)
    ensures p.id[i] < |p.id| && p.next[i] < |p.id|
    ensures var p', at' := HomeSwapped(p, i), l.at[p.id[i] := p.next[i]][i := i];
      Linked(p', at', s) && SameLinks(p, l.at, p', at', s)
  {
    hide Cells, Viewed, KnowHome, SameLinks, PoolOk;
    PoolSizes(p, l);
    SwapFacts(p, l, i);
    var p', at' := HomeSwapped(p, i), l.at[p.id[i] := p.next[i]][i := i];
    forall x: nat | x in s
      ensures LinkedAt(p, l.at, s, x) && Follows(p, l.at, p', at', i, i, x)
    {
      assert p.stat[i] == Free;
    }
    LinksFollow(p, l.at, p', at', s, i, i);
  }

  lemma HomeSwappedViewed(p: Pool, l: Layout, i: nat)
    requires CanSwap(p, l, i)
    ensures p.id[i] < |p.id| && p.next[i] < |p.id|
    ensures var p', l' := HomeSwapped(p, i), l.(at := l.at[p.id[i] := p.next[i]][i := i]);
      PoolOk(p', l') && Contents(p', l') == Contents(p, l)
  {
    hide Cells;
    SwapFacts(p, l, i);
    var p' := HomeSwapped(p, i);
    assert ViewedAt(p, l.t, i) && ViewedAt(p, l.t, p.next[i]) && ViewedAt(p, l.t, 0);
    forall c: nat | c < |p.id|
      ensures ViewedAt(p', l.t, c)
    {
      assert ViewedAt(p, l.t, c);
    }
  }

  /** A live slot's free-list link does not matter. */
  lemma LiveUnext(p: Pool, l: Layout, x: nat, v: nat, s: set<nat>)
    requires PoolOk(p, l) && x < |p.id| && p.stat[x] != Free && Linked(p, l.at, s)
    ensures var p' := p.(unext := p.unext[x := v]);
      PoolOk(p', l) && Contents(p', l) == Contents(p, l)
      && Linked(p', l.at, s) && SameLinks(p, l.at, p', l.at, s)
  {
    hide Cells;
    var p' := p.(unext := p.unext[x := v]);
    forall c: nat | c < |p.id|
      ensures ViewedAt(p', l.t, c)
    {
      assert ViewedAt(p, l.t, c);
    }
    LinksFrame(p, l.at, p', s);
  }

  // ---------------------------------------------------------------- taking a cell

  /** Cell `i`, followed by cell `nx`, leaves the free list. */
  function FreeUnlinked(p: Pool, i: nat, nx: nat): Pool
    requires PSized(p) && i < |p.id| && nx < |p.id| && p.prev[i] < |p.id| && p.id[p.prev[i]] < |p.id|
  {
    p.(unext := p.unext[p.id[p.prev[i]] := nx], prev := p.prev[nx := p.prev[i]])
  }

  /** Slot `x`, in cell `i`, comes into use. */
  function Started(p: Pool, x: nat, i: nat, st: Status): Pool
    requires PSized(p) && x < |p.id|
  {
    p.(stat := p.stat[x := st], next := p.next[x := i], value := p.value[x := Undefined])
  }

  ghost predicate CanTake(p: Pool, l: Layout, i: nat) {
    PoolOk(p, l) && 0 < i < |p.id| && l.g.owner[i] == 0
  }

  lemma TakeFacts(p: Pool, l: Layout, i: nat)
    requires CanTake(p, l, i)
    ensures p.id[i] < |p.id| && p.id[i] != 0 && p.stat[p.id[i]] == Free && p.id[0] == 0 && Sized(l.t, l.g)
    ensures p.unext[p.id[i]] < |p.id| && p.prev[i] < |p.id| && p.id[p.prev[i]] < |p.id|
    ensures p.unext[p.id[i]] == l.t.next[i] != i && p.prev[i] == l.t.link[i] != i
    ensures l.g.owner[p.prev[i]] == 0 && l.g.owner[p.unext[p.id[i]]] == 0
    ensures p.stat[p.id[p.prev[i]]] == Free && p.id[p.prev[i]] != p.id[i]
  {
    var k := FreeCellPosition(p, l, i);
    CellFacts(p, l, 0);
    CellFacts(p, l, i);
    CellFacts(p, l, p.prev[i]);
  }

  function Taken(p: Pool, i: nat, st: Status): Pool
    requires PSized(p) && i < |p.id| && p.id[i] < |p.id| && p.unext[p.id[i]] < |p.id|
    requires p.prev[i] < |p.id| && p.id[p.prev[i]] < |p.id|
  {
    Started(FreeUnlinked(p, i, p.unext[p.id[i]]), p.id[i], i, st)
  }

  ghost function TakenLayout(p': Pool, l: Layout, i: nat, k: nat, st: Status): Layout
    requires Sized(l.t, l.g) && i < |l.g.owner| && k < |l.g.free| && |p'.prev| > 0
    requires l.t.link[i] < |l.t.next| && l.t.next[i] < |l.t.next|
  {
    var u := Unlinked(l.t, i);
    Layout(
      Slots(u.status[i := st], u.next[i := i], p'.prev[0 := u.link[0]]),
      Shape(Without(l.g.free, k), l.g.rings[i := [i]], l.g.owner[i := i], map[]),
      if st == External then l.ext + {i} else l.ext, l.at)
  }

  lemma TakenCells(p: Pool, l: Layout, i: nat, st: Status, k: nat, p': Pool, l': Layout)
    requires CanTake(p, l, i) && (st == Head || st == External) && 0 < k < |l.g.free| && l.g.free[k] == i
    requires p.unext[p.id[i]] < |p.id| && p.prev[i] < |p.id| && p.id[p.prev[i]] < |p.id|
    requires p.unext[p.id[i]] == l.t.next[i] && p.prev[i] == l.t.link[i]
    requires p' == Taken(p, i, st) && l' == TakenLayout(p', l, i, k, st)
    ensures Cells(l'.t, l'.g, l'.ext)
  {
    hide RingAt, Cycle, BackCycle, Without, CellStatus;
    TakeFacts(p, l, i);
    forall c: nat | c < |l.g.owner| && l.g.owner[c] == 0 && c != i
      ensures l'.t.link[c] == Unlinked(l.t, i).link[c]
    {
      assert ViewedAt(p, l.t, c);
    }
    assert i !in l.ext by { CellFacts(p, l, i); }
    TakeCell(l.t, l.g, l.ext, k, l'.t, l'.g, l'.ext);
  }

  lemma TakenViewedAt(p: Pool, l: Layout, i: nat, st: Status, k: nat, p': Pool, l': Layout, c: nat)
    requires CanTake(p, l, i) && (st == Head || st == External) && 0 < k < |l.g.free| && l.g.free[k] == i
    requires p.unext[p.id[i]] < |p.id| && p.prev[i] < |p.id| && p.id[p.prev[i]] < |p.id|
    requires p.unext[p.id[i]] == l.t.next[i] && p.prev[i] == l.t.link[i]
    requires p' == Taken(p, i, st) && l' == TakenLayout(p', l, i, k, st) && c < |p.id|
    requires |l'.t.status| == |l'.t.next| == |l'.t.link| == |p'.id|
    ensures ViewedAt(p', l'.t, c)
  {
    hide PoolOk, Without, CellStatus;
    PoolSizes(p, l);
    TakeFacts(p, l, i);
    CellFacts(p, l, i);
    CellFacts(p, l, c);
    CellFacts(p, l, p.prev[i]);
  }

  lemma TakenViewed(p: Pool, l: Layout, i: nat, st: Status, k: nat, p': Pool, l': Layout)
    requires CanTake(p, l, i) && (st == Head || st == External) && 0 < k < |l.g.free| && l.g.free[k] == i
    requires p.unext[p.id[i]] < |p.id| && p.prev[i] < |p.id| && p.id[p.prev[i]] < |p.id|
    requires p.unext[p.id[i]] == l.t.next[i] && p.prev[i] == l.t.link[i]
    requires p' == Taken(p, i, st) && l' == TakenLayout(p', l, i, k, st)
    ensures Viewed(p', l'.t) && KnowHome(p', l'.at)
  {
    assert PSized(p') && |l'.t.status| == |l'.t.next| == |l'.t.link| == |p'.id| && |p'.id| == |p.id| by {
      TakeFacts(p, l, i);
      hide Cells, Placed, KnowHome;
    }
    assert KnowHome(p', l'.at) by {
      TakeFacts(p, l, i);
      hide Cells, Viewed, Placed;
    }
    hide *;
    forall c: nat | c < |p.id|
      ensures ViewedAt(p', l'.t, c)
    {
      TakenViewedAt(p, l, i, st, k, p', l', c);
    }
    ViewedFromCells(p', l'.t);
  }

  lemma ViewedFromCells(p: Pool, t: Slots)
    requires PSized(p) && |t.status| == |t.next| == |t.link| == |p.id|
    requires forall c: nat :: c < |p.id| ==> ViewedAt(p, t, c)
    ensures Viewed(p, t)
  {}

  lemma TakenContents(p: Pool, l: Layout, i: nat, st: Status, k: nat, p': Pool, l': Layout)
    requires CanTake(p, l, i) && (st == Head || st == External) && 0 < k < |l.g.free| && l.g.free[k] == i
    requires p.unext[p.id[i]] < |p.id| && p.prev[i] < |p.id| && p.id[p.prev[i]] < |p.id|
    requires p.unext[p.id[i]] == l.t.next[i] && p.prev[i] == l.t.link[i]
    requires p' == Taken(p, i, st) && l' == TakenLayout(p', l, i, k, st) && PSized(p') && |l'.g.owner| == |p'.id|
    ensures Placed(p'.id, l'.at) && p.id[i] !in Contents(p, l)
    ensures Contents(p', l') == Contents(p, l)[p.id[i] := Entry(if st == External then 0 else i, p.name[p.id[i]], Undefined)]
  {
    hide Cells, Viewed, Without, KnowHome, ViewedAt, CellStatus;
    PoolSizes(p, l);
    TakeFacts(p, l, i);
    CellFacts(p, l, i);
    CellsOfLive(p, l);
    var x := p.id[i];
    forall y: nat | y < |p.id| && y != x && Live(p, y)
      ensures EntryOf(p', l', y) == EntryOf(p, l, y)
    {
      assert l.at[y] != i;
    }
    ContentsSet(p, l, p', l', x, EntryOf(p', l', x));
  }

  /** Taking the free cell `i` adds its slot to the pool and keeps everything else. */
  lemma TakenOk(p: Pool, l: Layout, i: nat, st: Status, s: set<nat>) returns (l': Layout)
    requires CanTake(p, l, i) && (st == Head || st == External)
    requires Linked(p, l.at, s) && forall x :: x in s ==> Live(p, x)
    ensures p.id[i] < |p.id| && p.unext[p.id[i]] < |p.id| && p.prev[i] < |p.id| && p.id[p.prev[i]] < |p.id|
    ensures var p', x := Taken(p, i, st), p.id[i];
      && PoolOk(p', l') && x !in Contents(p, l) && l'.at == l.at && l'.g.owner == l.g.owner[i := i]
      && Contents(p', l') == Contents(p, l)[x := Entry(if st == External then 0 else i, p.name[x], Undefined)]
      && Linked(p', l'.at, s) && SameLinks(p, l.at, p', l'.at, s)
  {
    var k := FreeCellPosition(p, l, i);
    TakeFacts(p, l, i);
    var p', x := Taken(p, i, st), p.id[i];
    l' := TakenLayout(p', l, i, k, st);
    TakenCells(p, l, i, st, k, p', l');
    TakenViewed(p, l, i, st, k, p', l');
    assert |l'.g.owner| == |p'.id|;
    TakenContents(p, l, i, st, k, p', l');
    TakenLinks(p, l, i, st, p', s);
    hide Viewed, Placed, KnowHome, Cells, Contents, Linked, SameLinks, Without;
  }

  lemma TakenLinks(p: Pool, l: Layout, i: nat, st: Status, p': Pool, s: set<nat>)
    requires CanTake(p, l, i) && Linked(p, l.at, s) && forall x :: x in s ==> Live(p, x)
    requires p.id[i] < |p.id| && p.unext[p.id[i]] < |p.id| && p.prev[i] < |p.id| && p.id[p.prev[i]] < |p.id|
    requires p' == Taken(p, i, st)
    ensures Linked(p', l.at, s) && SameLinks(p, l.at, p', l.at, s)
  {
    TakeFacts(p, l, i);
    CellsOfLive(p, l);
    hide Cells, Placed, KnowHome, ViewedAt, SameLinks, LinkedAt, Linked, CellStatus;
    LinksFrameLive(p, l, p', s);
  }

  /** The cells of live slots are not free, and different slots have different cells. */
  lemma CellsOfLive(p: Pool, l: Layout)
    requires PoolOk(p, l)
    ensures forall x: nat :: Live(p, x) ==> 0 < l.at[x] < |p.id| && l.g.owner[l.at[x]] != 0 && p.id[l.at[x]] == x
  {
    forall x: nat | Live(p, x)
      ensures 0 < l.at[x] < |p.id| && l.g.owner[l.at[x]] != 0 && p.id[l.at[x]] == x
    {
      SlotFacts(p, l, x);
      CellFacts(p, l, l.at[x]);
    }
  }

  lemma LinksFrameLive(p: Pool, l: Layout, p': Pool, s: set<nat>)
    requires Linked(p, l.at, s) && PSized(p') && p'.id == p.id && |l.g.owner| == |p.id| && p'.sib == p.sib
    requires forall x: nat :: Live(p, x) ==> 0 < l.at[x] < |p.id| && l.g.owner[l.at[x]] != 0
    requires forall x :: x in s ==> Live(p, x)
    requires forall i: nat :: 0 < i < |p.id| && l.g.owner[i] != 0 ==> p'.prev[i] == p.prev[i]
    ensures Linked(p', l.at, s) && SameLinks(p, l.at, p', l.at, s)
  {
    LinksFrame(p, l.at, p', s);
  }

  lemma ContentsSet(p: Pool, l: Layout, p': Pool, l': Layout, x: nat, e: Entry)
    requires PSized(p) && Placed(p.id, l.at) && |l.g.owner| == |p.id|
    requires PSized(p') && Placed(p'.id, l'.at) && |l'.g.owner| == |p'.id| == |p.id|
    requires Live(p', x) && EntryOf(p', l', x) == e
    requires forall y: nat :: y < |p.id| && y != x ==> (Live(p', y) <==> Live(p, y))
    requires forall y: nat :: y < |p.id| && y != x && Live(p, y) ==> EntryOf(p', l', y) == EntryOf(p, l, y)
    ensures Contents(p', l') == Contents(p, l)[x := e]
  {}

  /** Cell `i` comes into use with slot `i` in it if `swap`, else with the slot it has. */
  function Settled(p: Pool, i: nat, swap: bool, st: Status): Pool
    requires PSized(p) && i < |p.id| && p.id[i] < |p.id| && p.unext[p.id[i]] < |p.id|
    requires p.prev[i] < |p.id| && p.id[p.prev[i]] < |p.id| && (swap ==> p.next[i] < |p.id|)
  {
    if swap then
      var q := HomeSwapped(p, i);
      var r := Taken(q, i, st);
      r.(unext := r.unext[i := p.unext[i]])
    else Taken(p, i, st)
  }

  /** The slot that comes into use is new to the pool; everything else is kept. */
  lemma SettledOk(p: Pool, l: Layout, i: nat, swap: bool, st: Status, s: set<nat>) returns (l': Layout)
    requires CanTake(p, l, i) && (st == Head || st == External) && (swap ==> CanSwap(p, l, i))
    requires Linked(p, l.at, s) && forall x :: x in s ==> Live(p, x)
    ensures p.id[i] < |p.id| && p.unext[p.id[i]] < |p.id| && p.prev[i] < |p.id| && p.id[p.prev[i]] < |p.id|
    ensures swap ==> p.next[i] < |p.id|
    ensures var p', x := Settled(p, i, swap, st), if swap then i else p.id[i];
      && PoolOk(p', l') && x !in Contents(p, l) && 0 < x < |p.name| && p'.id[i] == x && l'.g.owner == l.g.owner[i := i]
      && |l'.at| == |l.at| == |p.stat| && (forall q: nat :: Live(p, q) ==> l'.at[q] == l.at[q])
      && Contents(p', l') == Contents(p, l)[x := Entry(if st == External then 0 else i, p.name[x], Undefined)]
      && Linked(p', l'.at, s) && SameLinks(p, l.at, p', l'.at, s)
  {
    hide PoolOk, Linked, SameLinks, Contents, Live;
    PoolSizes(p, l);
    TakeFacts(p, l, i);
    assert forall q: nat :: Live(p, q) ==> q < |p.stat| && p.stat[q] != Free by { LiveMeans(p); }
    if swap {
      SwapFacts(p, l, i);
      HomeSwappedOk(p, l, i, s);
      var q, lq := HomeSwapped(p, i), l.(at := l.at[p.id[i] := p.next[i]][i := i]);
      HomeSwappedLive(p, i, s);
      l' := TakenOk(q, lq, i, st, s);
      var r := Taken(q, i, st);
      LinksCompose(p, l.at, q, lq.at, r, l'.at, s);
      LiveUnext(r, l', i, p.unext[i], s);
      LinksCompose(p, l.at, r, l'.at, Settled(p, i, swap, st), l'.at, s);
    } else {
      l' := TakenOk(p, l, i, st, s);
    }
  }

  lemma LiveMeans(p: Pool)
    ensures forall q: nat :: Live(p, q) ==> q < |p.stat| && p.stat[q] != Free
  {}

  lemma HomeSwappedLive(p: Pool, i: nat, s: set<nat>)
    requires PSized(p) && i < |p.id| && p.id[i] < |p.id| && p.next[i] < |p.id|
    requires forall x :: x in s ==> Live(p, x)
    ensures forall x :: x in s ==> Live(HomeSwapped(p, i), x)
  {}

  // ---------------------------------------------------------------- putting a cell back

  /** The slot in cell `i` goes to the front of the free list. */
  function Released(p: Pool, i: nat): Pool
    requires PSized(p) && i < |p.id| && p.id[i] < |p.id| && p.unext[0] < |p.id|
  {
    var x := p.id[i];
    p.(stat := p.stat[x := Free], value := p.value[x := Undefined],
       unext := p.unext[x := p.unext[0]][0 := i], prev := p.prev[i := 0][p.unext[0] := i])
  }

  ghost function ReleasedLayout(p': Pool, l: Layout, i: nat): Layout
    requires Sized(l.t, l.g) && 0 < i < |l.g.owner| && l.t.next[0] < |l.g.owner| && |l.g.free| > 0 && |p'.prev| > 0
  {
    var u := Pushed(l.t, i);
    Layout(
      Slots(u.status, u.next, p'.prev[0 := u.link[0]]),
      Shape(With(l.g.free, 1, i), l.g.rings - {i}, l.g.owner[i := 0], map[]),
      l.ext - {i}, l.at)
  }

  ghost predicate CanRelease(p: Pool, l: Layout, i: nat) {
    PoolOk(p, l) && 0 < i < |p.id| && i in l.ext && p.id[i] < |p.id| && p.next[p.id[i]] == i
  }

  lemma ReleaseFacts(p: Pool, l: Layout, i: nat)
    requires CanRelease(p, l, i)
    ensures Sized(l.t, l.g) && |l.g.free| > 0 && |l.g.owner| == |p.id| && l.t.next[0] < |l.g.owner| && p.unext[0] == l.t.next[0]
    ensures p.id[0] == 0 && p.id[i] != 0 && p.stat[0] == Free && p.unext[0] != i && l.g.owner[p.unext[0]] == 0
    ensures p.stat[p.id[i]] == External && l.g.owner[i] == i
  {
    CellFacts(p, l, i);
    CellFacts(p, l, 0);
    FirstFreeCell(p, l);
    hide Cycle, BackCycle;
    FreeHead(l.t, l.g);
    assert l.t.next[0] in l.g.free;
  }

  lemma ReleasedCells(p: Pool, l: Layout, i: nat, p': Pool, l': Layout)
    requires CanRelease(p, l, i) && p.unext[0] < |p.id| && p' == Released(p, i)
    requires Sized(l.t, l.g) && |l.g.free| > 0 && |l.g.owner| == |p.id| && l.t.next[0] < |l.g.owner|
    requires l' == ReleasedLayout(p', l, i)
    ensures Cells(l'.t, l'.g, l'.ext)
  {
    hide RingAt, Cycle, BackCycle, With, CellStatus, FreeList;
    ReleaseFacts(p, l, i);
    forall c: nat | c < |l.g.owner| && l'.g.owner[c] == 0
      ensures l'.t.link[c] == Pushed(l.t, i).link[c]
    {
      assert ViewedAt(p, l.t, c);
    }
    ReleaseCell(l.t, l.g, l.ext, i, l'.t, l'.g);
  }

  lemma ReleasedViewedAt(p: Pool, l: Layout, i: nat, p': Pool, l': Layout, c: nat)
    requires CanRelease(p, l, i) && p.unext[0] < |p.id| && p' == Released(p, i) && c < |p.id|
    requires Sized(l.t, l.g) && |l.g.free| > 0 && |l.g.owner| == |p.id| && l.t.next[0] < |l.g.owner|
    requires l' == ReleasedLayout(p', l, i) && |l'.t.status| == |l'.t.next| == |l'.t.link| == |p'.id|
    ensures ViewedAt(p', l'.t, c)
  {
    ReleaseFacts(p, l, i);
    CellFacts(p, l, i);
    CellFacts(p, l, c);
    hide PoolOk, With, CellStatus;
  }

  lemma ReleasedViewed(p: Pool, l: Layout, i: nat, p': Pool, l': Layout)
    requires CanRelease(p, l, i) && p.unext[0] < |p.id| && p' == Released(p, i)
    requires Sized(l.t, l.g) && |l.g.free| > 0 && |l.g.owner| == |p.id| && l.t.next[0] < |l.g.owner|
    requires l' == ReleasedLayout(p', l, i)
    ensures Viewed(p', l'.t) && KnowHome(p', l'.at)
  {
    assert PSized(p') && |l'.t.status| == |l'.t.next| == |l'.t.link| == |p'.id| && |p'.id| == |p.id| by {
      hide Cells, Placed, KnowHome;
    }
    assert KnowHome(p', l'.at) by {
      hide Cells, Viewed;
    }
    hide *;
    forall c: nat | c < |p.id|
      ensures ViewedAt(p', l'.t, c)
    {
      ReleasedViewedAt(p, l, i, p', l', c);
    }
    ViewedFromCells(p', l'.t);
  }

  lemma ContentsWithout(p: Pool, l: Layout, p': Pool, l': Layout, x: nat)
    requires PSized(p) && Placed(p.id, l.at) && |l.g.owner| == |p.id|
    requires PSized(p') && Placed(p'.id, l'.at) && |l'.g.owner| == |p'.id| == |p.id|
    requires !Live(p', x) && forall y: nat :: y < |p.id| && y != x ==> (Live(p', y) <==> Live(p, y))
    requires forall y: nat :: y < |p.id| && y != x && Live(p, y) ==> EntryOf(p', l', y) == EntryOf(p, l, y)
    ensures Contents(p', l') == Contents(p, l) - {x}
  {
    hide EntryOf, Live, Placed;
  }

  lemma ReleasedContents(p: Pool, l: Layout, i: nat, p': Pool, l': Layout)
    requires CanRelease(p, l, i) && p.unext[0] < |p.id| && p' == Released(p, i)
    requires Sized(l.t, l.g) && |l.g.free| > 0 && |l.g.owner| == |p.id| && l.t.next[0] < |l.g.owner|
    requires l' == ReleasedLayout(p', l, i) && PSized(p') && |l'.g.owner| == |p'.id|
    ensures Placed(p'.id, l'.at) && Contents(p', l') == Contents(p, l) - {p.id[i]}
  {
    hide Cells, Viewed, With, KnowHome, ViewedAt, CellStatus;
    PoolSizes(p, l);
    ReleaseFacts(p, l, i);
    CellsOfLive(p, l);
    var x := p.id[i];
    forall y: nat | y < |p.id| && y != x && Live(p, y)
      ensures Live(p', y) && EntryOf(p', l', y) == EntryOf(p, l, y)
    {
      assert l.at[y] != i;
    }
    ContentsWithout(p, l, p', l', x);
  }

  lemma ReleasedLinks(p: Pool, l: Layout, i: nat, p': Pool, s: set<nat>)
    requires CanRelease(p, l, i) && p.unext[0] < |p.id| && p' == Released(p, i)
    requires Linked(p, l.at, s) && p.id[i] !in s && forall x :: x in s ==> Live(p, x)
    ensures Linked(p', l.at, s) && SameLinks(p, l.at, p', l.at, s)
  {
    hide Cells, Placed, KnowHome, ViewedAt, CellStatus;
    ReleaseFacts(p, l, i);
    CellsOfLive(p, l);
    LinksFrame(p, l.at, p', s);
  }

  /** Releasing an external slot takes it out of the pool and keeps everything else. */
  lemma ReleasedOk(p: Pool, l: Layout, i: nat, s: set<nat>) returns (l': Layout)
    requires CanRelease(p, l, i)
    requires Linked(p, l.at, s) && p.id[i] !in s && forall x :: x in s ==> Live(p, x)
    ensures p.unext[0] < |p.id|
    ensures var p' := Released(p, i);
      && PoolOk(p', l') && Contents(p', l') == Contents(p, l) - {p.id[i]} && l'.at == l.at
      && Linked(p', l'.at, s) && SameLinks(p, l.at, p', l'.at, s)
  {
    ReleaseFacts(p, l, i);
    var p' := Released(p, i);
    l' := ReleasedLayout(p', l, i);
    ReleasedCells(p, l, i, p', l');
    ReleasedViewed(p, l, i, p', l');
    ReleasedLinks(p, l, i, p', s);
    assert |l'.g.owner| == |p'.id|;
    ReleasedContents(p, l, i, p', l');
    hide Viewed, Placed, KnowHome, Cells, Contents, Linked, SameLinks, With;
  }
}
