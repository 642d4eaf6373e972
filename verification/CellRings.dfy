/**
 The cells of a variable pool as lists: free cells, the ring of each bucket, and external cells,
 which are on no ring. What each rearrangement of the pool does to the lists.
 */
module CellRings {
  import opened Rings
  import opened BucketRings

  /** The state of a cell; an external cell makes a ring of its own. */
  ghost predicate CellStatus(t: Slots, g: Shape, ext: set<nat>, i: nat)
    requires Sized(t, g) && i < |g.owner|
  {
    && (g.owner[i] == 0 || g.owner[i] in g.rings)
    && t.status[i] ==
       if g.owner[i] == 0 then Free
       else if g.owner[i] != i then Movable
       else if i in ext then External else Head
  }

  ghost predicate Cells(t: Slots, g: Shape, ext: set<nat>) {
    && Sized(t, g) && FreeList(t, g)
    && (forall h: nat :: h in g.rings ==> RingAt(t, g, h))
    && (forall i: nat :: i < |g.owner| ==> CellStatus(t, g, ext, i))
    && (forall e: nat :: e in ext ==> e in g.rings && |g.rings[e]| == 1)
  }

  /** `t'` leaves the free list of `t` as it is after cell `n` is unlinked from it. */
  ghost predicate FreeWithout(t: Slots, g: Shape, n: nat, t': Slots, g': Shape) {
    && Sized(t, g) && Sized(t', g') && |g'.owner| == |g.owner| && n < |g.owner|
    && t.link[n] < |g.owner| && t.next[n] < |g.owner|
    && forall i: nat :: i < |g.owner| && g.owner[i] == 0 && i != n ==>
         t'.next[i] == Unlinked(t, n).next[i] && t'.link[i] == Unlinked(t, n).link[i]
  }

  /** Cells other than those of `touched` keep their owner, state and, if used, their successor. */
  ghost predicate Untouched(t: Slots, g: Shape, t': Slots, g': Shape, touched: set<nat>) {
    && Sized(t, g) && Sized(t', g') && |g'.owner| == |g.owner|
    && forall i: nat :: i < |g.owner| && i !in touched ==>
         g'.owner[i] == g.owner[i] && t'.status[i] == t.status[i] && (g.owner[i] != 0 ==> t'.next[i] == t.next[i])
  }

  lemma OtherRing(t: Slots, g: Shape, ext: set<nat>, t': Slots, g': Shape, touched: set<nat>, b: nat)
    requires Cells(t, g, ext) && b in g.rings && b in g'.rings && g'.rings[b] == g.rings[b]
    requires Untouched(t, g, t', g', touched)
    requires forall i: nat :: i in touched && i < |g.owner| ==> g.owner[i] != b && g'.owner[i] != b
    ensures RingAt(t', g', b)
  {
    hide Cycle;
    assert RingAt(t, g, b);
    RingFrame(t, t', g, g', b);
  }

  lemma OtherStatus(t: Slots, g: Shape, ext: set<nat>, t': Slots, g': Shape, ext': set<nat>, touched: set<nat>, i: nat)
    requires Cells(t, g, ext) && Untouched(t, g, t', g', touched) && i < |g.owner| && i !in touched
    requires i in ext' <==> i in ext
    requires g.owner[i] in g.rings ==> g.owner[i] in g'.rings
    ensures CellStatus(t', g', ext', i)
  {
    assert CellStatus(t, g, ext, i);
  }

  lemma HeadFacts(t: Slots, g: Shape, ext: set<nat>, h: nat)
    requires Cells(t, g, ext) && h in g.rings
    ensures 0 < h < |g.owner| && g.owner[h] == h && |g.rings[h]| > 0 && g.rings[h][0] == h && Cycle(t.next, g.rings[h])
    ensures forall y :: y in g.rings[h] ==> 0 <= y < |g.owner| && g.owner[y] == h
    ensures forall i: nat :: i < |g.owner| ==> (i in g.rings[h] <==> g.owner[i] == h)
  {
    assert RingAt(t, g, h);
    RingHead(t, g, h);
    InTable(t.next, g.rings[h]);
  }

  /** A cell that is not a head is the number of no ring. */
  lemma NotARing(t: Slots, g: Shape, ext: set<nat>, h: nat)
    requires Cells(t, g, ext) && 0 < h < |g.owner| && g.owner[h] != h
    ensures h !in g.rings && forall i: nat :: i < |g.owner| ==> g.owner[i] != h
  {
    assert h !in g.rings by {
      if h in g.rings {
        HeadFacts(t, g, ext, h);
      }
    }
    forall i: nat | i < |g.owner|
      ensures g.owner[i] != h
    {
      assert CellStatus(t, g, ext, i);
    }
  }

  // ---------------------------------------------------------------- taking a free cell

  /** The free cell at position `k` becomes a ring of its own, external or not. */
  lemma TakeCell(t: Slots, g: Shape, ext: set<nat>, k: nat, t': Slots, g': Shape, ext': set<nat>)
    requires Cells(t, g, ext) && 0 < k < |g.free|
    requires var n := g.free[k];
      && FreeWithout(t, g, n, t', g') && Untouched(t, g, t', g', {n})
      && t'.next[n] == n && g'.owner[n] == n
      && g'.free == Without(g.free, k) && g'.rings == g.rings[n := [n]]
      && (ext' == ext || ext' == ext + {n}) && t'.status[n] == (if n in ext' then External else Head)
    ensures Cells(t', g', ext')
  {
    hide Cycle, BackCycle, Without, Turn, RingAt;
    var n := g.free[k];
    FreeNeighbours(t, g, k);
    FreeListAfterUnlink(t, g, k, t', g');
    NotARing(t, g, ext, n);
    NewRing(t', g', n);
    forall b: nat | b in g'.rings
      ensures RingAt(t', g', b)
    {
      if b != n {
        HeadFacts(t, g, ext, b);
        OtherRing(t, g, ext, t', g', {n}, b);
      }
    }
    forall i: nat | i < |g.owner|
      ensures CellStatus(t', g', ext', i)
    {
      if i != n {
        OtherStatus(t, g, ext, t', g', ext', {n}, i);
      }
    }
  }

  lemma NewRing(t: Slots, g: Shape, n: nat)
    requires Sized(t, g) && 0 < n < |g.owner| && t.next[n] == n && n in g.rings && g.rings[n] == [n]
    requires forall i: nat :: i < |g.owner| ==> (g.owner[i] == n <==> i == n)
    ensures RingAt(t, g, n)
  {
    SelfRing(t.next, n);
  }

  // ---------------------------------------------------------------- a cell joins or changes a ring

  /** The free cell at position `k` joins ring `h`, right behind its head. */
  lemma JoinRing(t: Slots, g: Shape, ext: set<nat>, h: nat, k: nat, t': Slots, g': Shape)
    requires Cells(t, g, ext) && 0 < k < |g.free| && h in g.rings && h !in ext && |g.rings[h]| > 0 && h < |g.owner|
    requires var n := g.free[k];
      && FreeWithout(t, g, n, t', g') && Untouched(t, g, t', g', {n, h})
      && t'.next[h] == n && t'.next[n] == t.next[h] && g'.owner[n] == h && g'.owner[h] == h
      && t'.status[n] == Movable && t'.status[h] == Head
      && g'.free == Without(g.free, k) && g'.rings == g.rings[h := With(g.rings[h], 1, n)]
    ensures Cells(t', g', ext)
  {
    hide BackCycle, Without, Turn, RingAt;
    var n, ring := g.free[k], g.rings[h];
    FreeNeighbours(t, g, k);
    FreeListAfterUnlink(t, g, k, t', g') by { HeadFacts(t, g, ext, h); }
    HeadFacts(t, g, ext, h);
    hide Cycle;
    assert n !in ring;
    CycleInsert(t.next, t'.next, ring, 1, n);
    WithElemsOf(t.next, ring, 1, n);
    assert g'.rings[h][0] == h;
    RingFromCycle(t', g', h);
    forall b: nat | b in g'.rings
      ensures RingAt(t', g', b)
    {
      if b != h {
        HeadFacts(t, g, ext, b);
        OtherRing(t, g, ext, t', g', {n, h}, b);
      }
    }
    forall i: nat | i < |g.owner|
      ensures CellStatus(t', g', ext, i)
    {
      if i != n && i != h {
        OtherStatus(t, g, ext, t', g', ext, {n, h}, i);
      }
    }
  }

  lemma RingFromCycle(t: Slots, g: Shape, h: nat)
    requires Sized(t, g) && 0 < h < |g.owner| && h in g.rings && Cycle(t.next, g.rings[h]) && g.rings[h][0] == h
    requires forall i: nat :: i < |g.owner| ==> (i in g.rings[h] <==> g.owner[i] == h)
    ensures RingAt(t, g, h)
  {}

  /** The movable resident of cell `h`, at position `j` of its ring, moves to the free cell at position `k`; `h` starts a ring. */
  lemma EvictMovable(t: Slots, g: Shape, ext: set<nat>, h: nat, j: nat, k: nat, t': Slots, g': Shape)
    requires Cells(t, g, ext) && 0 < k < |g.free| && 0 < h < |g.owner|
    requires g.owner[h] in g.rings && g.owner[h] != h && 0 < j < |g.rings[g.owner[h]]| && g.rings[g.owner[h]][j] == h
    requires g.rings[g.owner[h]][j - 1] < |g.owner|
    requires var n, o := g.free[k], g.owner[h];
      var pred := g.rings[o][j - 1];
      && FreeWithout(t, g, n, t', g') && Untouched(t, g, t', g', {n, h, pred})
      && t'.next[pred] == n && t'.next[n] == t.next[h] && t'.next[h] == h
      && g'.owner[n] == o && g'.owner[pred] == o && g'.owner[h] == h
      && t'.status[n] == Movable && t'.status[h] == Head && t'.status[pred] == t.status[pred]
      && g'.free == Without(g.free, k) && g'.rings == g.rings[o := g.rings[o][j := n]][h := [h]]
    ensures Cells(t', g', ext)
  {
    hide BackCycle, Without, Turn, RingAt;
    var n, o := g.free[k], g.owner[h];
    var ring := g.rings[o];
    var pred := ring[j - 1];
    FreeNeighbours(t, g, k);
    HeadFacts(t, g, ext, o);
    OnlyInRing(t.next, ring, j);
    assert pred in ring;
    hide Cycle;
    FreeListAfterUnlink(t, g, k, t', g');
    NotARing(t, g, ext, h);
    NewRing(t', g', h);
    EvictedRing(t, g, h, j, n, t', g');
    forall b: nat | b in g'.rings
      ensures RingAt(t', g', b)
    {
      if b != o && b != h {
        HeadFacts(t, g, ext, b);
        OtherRing(t, g, ext, t', g', {n, h, pred}, b);
      }
    }
    forall i: nat | i < |g.owner|
      ensures CellStatus(t', g', ext, i)
    {
      if i == pred {
        assert CellStatus(t, g, ext, pred);
      } else if i != n && i != h {
        OtherStatus(t, g, ext, t', g', ext, {n, h, pred}, i);
      }
    }
  }

  lemma OnlyInRing(next: seq<nat>, s: seq<nat>, k: nat)
    requires Cycle(next, s) && k < |s|
    ensures forall i :: 0 <= i < |s| && i != k ==> s[i] != s[k]
  {
    OnlyAt(s, k);
  }

  lemma EvictedRing(t: Slots, g: Shape, h: nat, j: nat, n: nat, t': Slots, g': Shape)
    requires Sized(t, g) && Sized(t', g') && |g'.owner| == |g.owner| && 0 < h < |g.owner| && 0 < n < |g.owner|
    requires var o := g.owner[h];
      && o in g.rings && o != h && 0 < o < |g.owner| && 0 < j < |g.rings[o]| && g.rings[o][j] == h && g.rings[o][0] == o
      && Cycle(t.next, g.rings[o]) && (forall i: nat :: i < |g.owner| ==> (i in g.rings[o] <==> g.owner[i] == o))
      && (forall y :: y in g.rings[o] ==> 0 <= y < |g.owner|)
      && g.owner[n] != o && g'.owner == g.owner[n := o][h := h]
      && o in g'.rings && g'.rings[o] == g.rings[o][j := n]
      && g.rings[o][j - 1] != h && t'.next[g.rings[o][j - 1]] == n && t'.next[n] == t.next[h]
      && (forall y :: y in g.rings[o] && y != g.rings[o][j - 1] && y != h ==> t'.next[y] == t.next[y])
    ensures RingAt(t', g', g.owner[h])
  {
    hide Cycle;
    var o := g.owner[h];
    var ring := g.rings[o];
    assert ring[j - 1] in ring;
    var mid := t'.next[h := t.next[h]];
    CycleReplace(t.next, mid, ring, j, n);
    ReplacedElems(t.next, ring, j, n);
    CycleFrame(mid, t'.next, ring[j := n]);
    RingFromCycle(t', g', o);
  }

  /** The external resident of cell `h` moves to the free cell at position `k`; `h` starts a ring. */
  lemma EvictExternal(t: Slots, g: Shape, ext: set<nat>, h: nat, k: nat, t': Slots, g': Shape)
    requires Cells(t, g, ext) && 0 < k < |g.free| && h in ext && h < |g.owner|
    requires var n := g.free[k];
      && FreeWithout(t, g, n, t', g') && Untouched(t, g, t', g', {n, h})
      && t'.next[n] == n && t'.next[h] == h && g'.owner[n] == n && g'.owner[h] == h
      && t'.status[n] == External && t'.status[h] == Head
      && g'.free == Without(g.free, k) && g'.rings == g.rings[h := [h]][n := [n]]
    ensures Cells(t', g', ext - {h} + {g.free[k]})
  {
    hide BackCycle, Without, Turn, RingAt;
    var n := g.free[k];
    FreeNeighbours(t, g, k);
    HeadFacts(t, g, ext, h);
    hide Cycle;
    FreeListAfterUnlink(t, g, k, t', g');
    NotARing(t, g, ext, n);
    NewRing(t', g', n);
    assert g.rings[h] == [h];
    NewRing(t', g', h);
    forall b: nat | b in g'.rings
      ensures RingAt(t', g', b)
    {
      if b != n && b != h {
        HeadFacts(t, g, ext, b);
        OtherRing(t, g, ext, t', g', {n, h}, b);
      }
    }
    forall i: nat | i < |g.owner|
      ensures CellStatus(t', g', ext - {h} + {n}, i)
    {
      if i != n && i != h {
        OtherStatus(t, g, ext, t', g', ext - {h} + {n}, {n, h}, i);
      }
    }
  }

  // ---------------------------------------------------------------- a cell leaves its ring

  /** The only member of ring `h` becomes external. */
  lemma LoneHeadLeaves(t: Slots, g: Shape, ext: set<nat>, h: nat, t': Slots)
    requires Cells(t, g, ext) && h in g.rings && |g.rings[h]| == 1 && h < |t.status|
    requires t' == t.(status := t.status[h := External])
    ensures Cells(t', g, ext + {h})
  {
    hide BackCycle, RingAt, Turn;
    HeadFacts(t, g, ext, h);
    hide Cycle;
    FreeFrame(t, t', g, g);
    forall b: nat | b in g.rings
      ensures RingAt(t', g, b)
    {
      assert RingAt(t, g, b);
      RingFrame(t, t', g, g, b);
    }
    forall i: nat | i < |g.owner|
      ensures CellStatus(t', g, ext + {h}, i)
    {
      assert CellStatus(t, g, ext, i);
    }
  }

  /** The cell at position `k > 0` of ring `h` becomes external. */
  lemma MemberLeaves(t: Slots, g: Shape, ext: set<nat>, h: nat, k: nat, t': Slots, g': Shape)
    requires Cells(t, g, ext) && h in g.rings && 0 < k < |g.rings[h]|
    requires var x, pred := g.rings[h][k], g.rings[h][k - 1];
      && Untouched(t, g, t', g', {x, pred}) && x < |g.owner| && pred < |g.owner|
      && t'.next[pred] == t.next[x] && t'.next[x] == x && g'.owner == g.owner[x := x]
      && t'.status[x] == External && t'.status[pred] == t.status[pred]
      && (forall i: nat :: i < |g.owner| && g.owner[i] == 0 ==> t'.next[i] == t.next[i] && t'.link[i] == t.link[i])
      && g'.free == g.free && g'.rings == g.rings[h := Without(g.rings[h], k)][x := [x]]
    ensures Cells(t', g', ext + {g.rings[h][k]})
  {
    hide BackCycle, Without, Turn, RingAt;
    var ring := g.rings[h];
    var x, pred := ring[k], ring[k - 1];
    HeadFacts(t, g, ext, h);
    OnlyInRing(t.next, ring, k);
    assert x in ring && pred in ring && ring[0] == h;
    hide Cycle;
    FreeFrame(t, t', g, g');
    NotARing(t, g, ext, x);
    NewRing(t', g', x);
    RingWithout(t, g, h, k, t', g');
    forall b: nat | b in g'.rings
      ensures RingAt(t', g', b)
    {
      if b != x && b != h {
        HeadFacts(t, g, ext, b);
        OtherRing(t, g, ext, t', g', {x, pred}, b);
      }
    }
    forall i: nat | i < |g.owner|
      ensures CellStatus(t', g', ext + {x}, i)
    {
      if i == pred {
        assert CellStatus(t, g, ext, pred);
      } else if i != x {
        OtherStatus(t, g, ext, t', g', ext + {x}, {x, pred}, i);
      }
    }
  }

  lemma RingWithout(t: Slots, g: Shape, h: nat, k: nat, t': Slots, g': Shape)
    requires Sized(t, g) && Sized(t', g') && |g'.owner| == |g.owner| && 0 < h < |g.owner|
    requires h in g.rings && 0 < k < |g.rings[h]| && Cycle(t.next, g.rings[h]) && g.rings[h][0] == h
    requires (forall i: nat :: i < |g.owner| ==> (i in g.rings[h] <==> g.owner[i] == h))
    requires (forall y :: y in g.rings[h] ==> 0 <= y < |g.owner|)
    requires var x, pred := g.rings[h][k], g.rings[h][k - 1];
      && x != h && x != pred && 0 < x < |g.owner| && pred in g.rings[h] && g'.owner == g.owner[x := x]
      && h in g'.rings && g'.rings[h] == Without(g.rings[h], k)
      && t'.next[pred] == t.next[x]
      && (forall y :: y in g.rings[h] && y != x && y != pred ==> t'.next[y] == t.next[y])
    ensures RingAt(t', g', h)
  {
    var ring := g.rings[h];
    assert Without(ring, k)[0] == h;
    hide Cycle, Without;
    WithoutElemsOf(t.next, ring, k);
    CycleRemove(t.next, t'.next, ring, k);
    RingFromCycle(t', g', h);
  }

  /** The external cell `e` goes to the front of the free list. */
  lemma ReleaseCell(t: Slots, g: Shape, ext: set<nat>, e: nat, t': Slots, g': Shape)
    requires Cells(t, g, ext) && e in ext && 0 < e < |g.owner| && t.next[0] < |g.owner|
    requires Sized(t', g') && g'.owner == g.owner[e := 0] && g'.free == With(g.free, 1, e) && g'.rings == g.rings - {e}
    requires t'.status == t.status[e := Free]
    requires forall i: nat :: i < |g.owner| ==> t'.next[i] == Pushed(t, e).next[i]
    requires forall i: nat :: i < |g.owner| && g'.owner[i] == 0 ==> t'.link[i] == Pushed(t, e).link[i]
    ensures Cells(t', g', ext - {e})
  {
    hide BackCycle, RingAt, Turn, With;
    HeadFacts(t, g, ext, e);
    hide Cycle;
    var u := t.(status := t.status);
    FreeListAfterPush(t, g, u, e, g');
    FreeFrame(Pushed(t, e), t', g', g');
    forall b: nat | b in g'.rings
      ensures RingAt(t', g', b)
    {
      HeadFacts(t, g, ext, b);
      assert RingAt(t, g, b);
      RingFrame(t, t', g, g', b);
    }
    forall i: nat | i < |g.owner|
      ensures CellStatus(t', g', ext - {e}, i)
    {
      assert CellStatus(t, g, ext, i);
      assert i in g.rings[e] <==> i == e;
    }
  }

  /** Links of used cells do not matter. */
  lemma LinkFrame(t: Slots, g: Shape, ext: set<nat>, t': Slots)
    requires Cells(t, g, ext) && t' == t.(link := t'.link) && |t'.link| == |t.link|
    requires forall i: nat :: i < |g.owner| && g.owner[i] == 0 ==> t'.link[i] == t.link[i]
    ensures Cells(t', g, ext)
  {
    hide Cycle, BackCycle;
    FreeFrame(t, t', g, g);
    forall b: nat | b in g.rings
      ensures RingAt(t', g, b)
    {
      assert RingAt(t, g, b);
    }
    forall i: nat | i < |g.owner|
      ensures CellStatus(t', g, ext, i)
    {
      assert CellStatus(t, g, ext, i);
    }
  }
}
