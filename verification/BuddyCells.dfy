/** Counting the cells that blocks occupy. */
module BuddyCells {
  import opened Bits
  import opened FreeTree
  import opened Buddy

  predicate Between(c: nat, lo: nat, hi: nat) {
    lo <= c < hi
  }

  ghost function Interval(lo: nat, hi: nat): set<nat> {
    set c: nat | c < hi && Between(c, lo, hi)
  }

  lemma {:induction false} IntervalSize(lo: nat, hi: nat)
    requires lo <= hi
    ensures |Interval(lo, hi)| == hi - lo
  {
    if lo < hi {
      IntervalSize(lo, hi - 1);
      assert Interval(lo, hi) == Interval(lo, hi - 1) + {hi - 1};
    } else {
      assert Interval(lo, hi) == {};
    }
  }

  /** The cells inside some block of `bs`. */
  ghost function CellsOf(bs: set<Block>): set<nat> {
    set c: nat | 0 < c < NODE_COUNT && Covered(bs, c)
  }

  lemma NoCells()
    ensures CellsOf({}) == {}
  {}

  /** A further block, apart from the others, adds its own cells. */
  lemma AddBlockCells(bs: set<Block>, b: Block)
    requires WellPlaced(b) && forall a :: a in bs ==> Apart(a, b)
    ensures |CellsOf(bs + {b})| == |CellsOf(bs)| + Pow2(b.size)
  {
    var run := Interval(b.start, End(b));
    IntervalSize(b.start, End(b));
    forall c: nat
      ensures c in CellsOf(bs + {b}) <==> c in CellsOf(bs) || c in run
    {
      CoveredByOneMore(bs, b, c);
    }
    assert CellsOf(bs + {b}) == CellsOf(bs) + run;
    assert CellsOf(bs) !! run;
  }

  lemma CoveredByOneMore(bs: set<Block>, b: Block, c: nat)
    ensures Covered(bs + {b}, c) <==> Covered(bs, c) || Contains(b, c)
  {
    if Covered(bs, c) {
      var a :| a in bs && Contains(a, c);
      assert a in bs + {b};
    }
    if Contains(b, c) {
      assert b in bs + {b};
    }
  }

  /** Cells of two families that tile together add up. */
  lemma TilingCells(free: set<Block>, live: set<Block>)
    requires free !! live && Tiles(free + live)
    ensures |CellsOf(free)| + |CellsOf(live)| == NODE_COUNT - 1
  {
    var all := Interval(1, NODE_COUNT);
    IntervalSize(1, NODE_COUNT);
    forall c: nat
      ensures c in all <==> c in CellsOf(free) || c in CellsOf(live)
      ensures !(c in CellsOf(free) && c in CellsOf(live))
    {
      CoveredBySides(free, live, c);
    }
    assert CellsOf(free) !! CellsOf(live);
    assert CellsOf(free) + CellsOf(live) == all;
  }

  lemma CoveredBySides(free: set<Block>, live: set<Block>, c: nat)
    requires free !! live && Tiles(free + live)
    ensures 0 < c < NODE_COUNT ==> Covered(free, c) || Covered(live, c)
    ensures !(Covered(free, c) && Covered(live, c))
  {
    if 0 < c < NODE_COUNT {
      assert Covered(free + live, c);
      var a :| a in free + live && Contains(a, c);
      assert a in free || a in live;
    }
    forall a, b | a in free && b in live
      ensures !(Contains(a, c) && Contains(b, c))
    {
      assert a in free + live && b in free + live && Apart(a, b);
    }
  }

  /** Blocks of one size, all apart: their number times their size. */
  lemma {:induction false} SameSizeCells(starts: set<NodeNum>, rest: set<Block>, size: nat)
    requires forall n :: n in starts ==> WellPlaced(Block(n, size))
    requires forall m, n :: m in starts && n in starts && m != n ==> Apart(Block(m, size), Block(n, size))
    requires forall n, a :: n in starts && a in rest ==> Apart(a, Block(n, size))
    ensures |CellsOf(rest + OfSize(starts, size))| == |CellsOf(rest)| + |starts| * Pow2(size)
    decreases |starts|
  {
    if starts == {} {
      assert rest + OfSize(starts, size) == rest;
    } else {
      var n :| n in starts;
      var fewer := starts - {n};
      SameSizeCells(fewer, rest, size);
      var bs := rest + OfSize(fewer, size);
      assert rest + OfSize(starts, size) == bs + {Block(n, size)};
      AddBlockCells(bs, Block(n, size));
      assert |starts| == |fewer| + 1;
      assert (|fewer| + 1) * Pow2(size) == |fewer| * Pow2(size) + Pow2(size);
    }
  }

  ghost function OfSize(starts: set<NodeNum>, size: nat): set<Block> {
    set n: NodeNum | n in starts :: Block(n, size)
  }
}
