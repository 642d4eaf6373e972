/**
 Buddy blocks over the memory cells 1 .. NODE_COUNT - 1: aligned power-of-two runs, how they
 split and join, and what it means that no two free buddies are left unjoined.
 */
module Buddy {
  import opened Bits
  import opened FreeTree

  datatype Block = Block(start: nat, size: nat)

  predicate Aligned(n: nat, k: nat) {
    k == 0 || (n % 2 == 0 && Aligned(n / 2, k - 1))
  }

  /** `n ^ (1 << k)` */
  function ToggleBit(n: nat, k: nat): nat {
    if k == 0 then (if n % 2 == 0 then n + 1 else n - 1)
    else 2 * ToggleBit(n / 2, k - 1) + n % 2
  }

  /** `n & ~(1 << k)` */
  function ClearBit(n: nat, k: nat): nat {
    if k == 0 then n - n % 2 else 2 * ClearBit(n / 2, k - 1) + n % 2
  }

  function End(b: Block): nat {
    b.start + Pow2(b.size)
  }

  predicate Contains(b: Block, c: nat) {
    b.start <= c < End(b)
  }

  predicate Inside(a: Block, b: Block) {
    b.start <= a.start && End(a) <= End(b)
  }

  predicate Apart(a: Block, b: Block) {
    End(a) <= b.start || End(b) <= a.start
  }

  /** A block that may occur: aligned, clear of cell 0 and inside the address range. */
  predicate WellPlaced(b: Block) {
    0 < b.start && b.size < NODE_BITS && Aligned(b.start, b.size) && End(b) <= NODE_COUNT
  }

  function BuddyOf(b: Block): Block {
    Block(ToggleBit(b.start, b.size), b.size)
  }

  function Joined(b: Block): Block {
    Block(ClearBit(b.start, b.size), b.size + 1)
  }

  ghost predicate PairwiseApart(bs: set<Block>) {
    forall a, b :: a in bs && b in bs && a != b ==> Apart(a, b)
  }

  ghost predicate Covered(bs: set<Block>, c: nat) {
    exists b :: b in bs && Contains(b, c)
  }

  ghost predicate Covers(bs: set<Block>) {
    forall c: nat :: 0 < c < NODE_COUNT ==> Covered(bs, c)
  }

  /** The blocks tile cells 1 .. NODE_COUNT - 1. */
  ghost predicate Tiles(bs: set<Block>) {
    (forall b :: b in bs ==> WellPlaced(b)) && PairwiseApart(bs) && Covers(bs)
  }

  ghost predicate NoFreePair(free: set<Block>) {
    forall b :: b in free ==> BuddyOf(b) !in free
  }

  /** The allocator's block invariant. */
  ghost predicate Sound(free: set<Block>, live: set<Block>) {
    free !! live && Tiles(free + live) && NoFreePair(free)
  }

  // ---------------------------------------------------------------- alignment

  /** Aligned runs that meet are nested. */
  lemma {:induction false} Nested(a: nat, j: nat, b: nat, k: nat)
    requires j <= k && Aligned(a, j) && Aligned(b, k)
    requires a < b + Pow2(k) && b < a + Pow2(j)
    ensures b <= a && a + Pow2(j) <= b + Pow2(k)
  {
    if j > 0 {
      Nested(a / 2, j - 1, b / 2, k - 1);
    }
  }

  /** What the two bit operations do to an aligned address. */
  lemma {:induction false} BuddyBits(n: nat, k: nat)
    requires Aligned(n, k)
    ensures ToggleBit(n, k) == n + Pow2(k) || ToggleBit(n, k) + Pow2(k) == n
    ensures Aligned(ToggleBit(n, k), k) && ToggleBit(ToggleBit(n, k), k) == n
    ensures Aligned(ClearBit(n, k), k + 1)
    ensures ClearBit(n, k) == if ToggleBit(n, k) < n then ToggleBit(n, k) else n
  {
    if k > 0 {
      BuddyBits(n / 2, k - 1);
    }
  }

  /** The upper half of an aligned run is the buddy of the lower half. */
  lemma {:induction false} HalvesAreBuddies(n: nat, k: nat)
    requires Aligned(n, k + 1)
    ensures Aligned(n, k) && Aligned(n + Pow2(k), k)
    ensures ToggleBit(n, k) == n + Pow2(k)
    ensures ClearBit(n, k) == n
  {
    if k > 0 {
      assert Aligned(n / 2, k);
      HalvesAreBuddies(n / 2, k - 1);
      assert (n + Pow2(k)) / 2 == n / 2 + Pow2(k - 1);
    }
  }

  lemma {:induction false} Pow2Aligned(k: nat)
    ensures Aligned(Pow2(k), k)
  {
    if k > 0 {
      Pow2Aligned(k - 1);
    }
  }

  // ---------------------------------------------------------------- splitting and joining

  function LowHalf(b: Block): Block
    requires b.size > 0
  {
    Block(b.start, b.size - 1)
  }

  function HighHalf(b: Block): Block
    requires b.size > 0
  {
    Block(b.start + Pow2(b.size - 1), b.size - 1)
  }

  lemma HalvesWellPlaced(b: Block)
    requires WellPlaced(b) && b.size > 0
    ensures WellPlaced(LowHalf(b)) && WellPlaced(HighHalf(b)) && Apart(LowHalf(b), HighHalf(b))
    ensures BuddyOf(HighHalf(b)) == LowHalf(b) && BuddyOf(LowHalf(b)) == HighHalf(b)
    ensures forall c :: Contains(b, c) <==> Contains(LowHalf(b), c) || Contains(HighHalf(b), c)
    ensures forall a :: Apart(a, b) ==> Apart(a, LowHalf(b)) && Apart(a, HighHalf(b))
    ensures forall a :: Apart(b, a) ==> Apart(LowHalf(b), a) && Apart(HighHalf(b), a)
  {
    HalvesAreBuddies(b.start, b.size - 1);
    BuddyBits(b.start, b.size - 1);
  }

  /** Replacing a block by its two halves keeps the tiling. */
  lemma SplitKeepsTiles(rest: set<Block>, b: Block)
    requires b !in rest && b.size > 0 && Tiles(rest + {b})
    ensures LowHalf(b) !in rest && HighHalf(b) !in rest
    ensures Tiles(rest + {LowHalf(b), HighHalf(b)})
  {
    hide LowHalf, HighHalf, Contains, WellPlaced;
    var lo, hi := LowHalf(b), HighHalf(b);
    assert b in rest + {b};
    HalvesWellPlaced(b);
    var bs := rest + {lo, hi};
    forall a | a in rest
      ensures Apart(a, lo) && Apart(a, hi) && WellPlaced(a)
    {
      assert a in rest + {b};
    }
    forall c: nat | 0 < c < NODE_COUNT
      ensures Covered(bs, c)
    {
      assert Covered(rest + {b}, c);
      var x :| x in rest + {b} && Contains(x, c);
      assert x in bs || (lo in bs && hi in bs);
    }
  }

  lemma JoinIsWellPlaced(b: Block)
    requires WellPlaced(b) && WellPlaced(BuddyOf(b))
    ensures WellPlaced(Joined(b)) && Inside(b, Joined(b)) && Inside(BuddyOf(b), Joined(b)) && b != BuddyOf(b)
    ensures forall c :: Contains(Joined(b), c) <==> Contains(b, c) || Contains(BuddyOf(b), c)
  {
    BuddyBits(b.start, b.size);
    if b.size == NODE_BITS - 1 {
      Pow2Literals();
    }
  }

  /** Replacing two buddies by their union keeps the tiling. */
  lemma JoinKeepsTiles(rest: set<Block>, b: Block)
    requires b !in rest && BuddyOf(b) !in rest && Tiles(rest + {b, BuddyOf(b)})
    ensures Joined(b) !in rest && Tiles(rest + {Joined(b)})
  {
    var m := BuddyOf(b);
    var bs := rest + {b, m};
    assert b in bs && m in bs;
    JoinIsWellPlaced(b);
    forall a | a in rest
      ensures Apart(a, Joined(b))
    {
      assert a in bs && Apart(a, b) && Apart(a, m);
      if !Apart(a, Joined(b)) {
        MeetsJoined(a, b);
        assert false;
      }
    }
    forall c: nat | 0 < c < NODE_COUNT
      ensures Covered(rest + {Joined(b)}, c)
    {
      assert Covered(bs, c);
      var x :| x in bs && Contains(x, c);
      assert (if x in rest then x else Joined(b)) in rest + {Joined(b)};
    }
  }

  /** A block that meets a union of buddies holds a cell of one of them. */
  lemma MeetsJoined(a: Block, b: Block)
    requires WellPlaced(b) && WellPlaced(BuddyOf(b)) && !Apart(a, Joined(b))
    ensures !Apart(a, b) || !Apart(a, BuddyOf(b))
  {
    JoinIsWellPlaced(b);
    BuddyBits(b.start, b.size);
  }

  // ---------------------------------------------------------------- free runs

  /** An aligned run of cells, none of them cell 0 or in a live block. */
  ghost predicate FreeRun(run: Block, live: set<Block>) {
    WellPlaced(run) && forall b :: b in live ==> Apart(run, b)
  }

  lemma HalvesOfFreeRun(run: Block, live: set<Block>)
    requires FreeRun(run, live) && run.size > 0
    ensures FreeRun(LowHalf(run), live) && FreeRun(HighHalf(run), live)
    ensures BuddyOf(LowHalf(run)) == HighHalf(run)
  {
    HalvesWellPlaced(run);
  }

  /** A block that meets a run without being smaller swallows it. */
  lemma Swallows(run: Block, f: Block)
    requires WellPlaced(run) && WellPlaced(f) && run.size <= f.size && !Apart(run, f)
    ensures Inside(run, f)
    ensures run.size == f.size ==> run == f
  {
    Nested(run.start, run.size, f.start, f.size);
  }

  /** Every aligned run of free cells lies within one free block. */
  lemma {:induction false} FreeRunInOneBlock(run: Block, free: set<Block>, live: set<Block>) returns (f: Block)
    requires Sound(free, live) && FreeRun(run, live)
    ensures f in free && Inside(run, f) && run.size <= f.size
    decreases run.size
  {
    if run.size == 0 {
      assert Covered(free + live, run.start);
      f :| f in free + live && Contains(f, run.start);
      assert !Apart(run, f);
      Swallows(run, f);
    } else {
      HalvesOfFreeRun(run, live);
      var g := FreeRunInOneBlock(LowHalf(run), free, live);
      var h := FreeRunInOneBlock(HighHalf(run), free, live);
      assert g in free + live && h in free + live;
      if run.size <= g.size {
        Swallows(run, g);
        f := g;
      } else if run.size <= h.size {
        Swallows(run, h);
        f := h;
      } else {
        Swallows(LowHalf(run), g);
        Swallows(HighHalf(run), h);
        assert false;
      }
    }
  }

  /** Free blocks are exactly the maximal free runs. */
  lemma FreeBlockIsMaximalRun(b: Block, free: set<Block>, live: set<Block>)
    requires Sound(free, live)
    ensures b in free <==> FreeRun(b, live) && forall r :: FreeRun(r, live) && Inside(b, r) ==> r == b
  {
    if b in free {
      assert b in free + live;
      forall a | a in live
        ensures Apart(b, a)
      {
        assert a in free + live;
      }
      forall r | FreeRun(r, live) && Inside(b, r)
        ensures r == b
      {
        var f := FreeRunInOneBlock(r, free, live);
        assert f in free + live;
        assert f == b;
        Pow2Mono(r.size, b.size);
      }
    } else if FreeRun(b, live) {
      var f := FreeRunInOneBlock(b, free, live);
      assert f in free + live;
      assert FreeRun(f, live) by {
        forall a | a in live
          ensures Apart(f, a)
        {
          assert a in free + live;
        }
      }
    }
  }

  /** The free blocks are a function of the live blocks. */
  lemma FreeBlocksAreCanonical(free: set<Block>, free': set<Block>, live: set<Block>)
    requires Sound(free, live) && Sound(free', live)
    ensures free == free'
  {
    forall b
      ensures b in free <==> b in free'
    {
      FreeBlockIsMaximalRun(b, free, live);
      FreeBlockIsMaximalRun(b, free', live);
    }
  }

  /** A request of size `k` finds a free block exactly when an aligned run of `2^k` free cells exists. */
  lemma RequestCanBeServed(k: nat, free: set<Block>, live: set<Block>)
    requires Sound(free, live)
    ensures (exists f :: f in free && f.size >= k) <==> (exists run :: FreeRun(run, live) && run.size == k)
  {
    if f :| f in free && f.size >= k {
      FreeBlockIsMaximalRun(f, free, live);
      var run := PrefixRun(f, k, live);
      assert FreeRun(run, live) && run.size == k;
    }
    if run :| FreeRun(run, live) && run.size == k {
      var f := FreeRunInOneBlock(run, free, live);
      assert f in free && f.size >= k;
    }
  }

  lemma {:induction false} PrefixRun(f: Block, k: nat, live: set<Block>) returns (run: Block)
    requires FreeRun(f, live) && k <= f.size
    ensures FreeRun(run, live) && run.size == k
    decreases f.size
  {
    if k == f.size {
      run := f;
    } else {
      HalvesOfFreeRun(f, live);
      run := PrefixRun(LowHalf(f), k, live);
    }
  }

  // ---------------------------------------------------------------- one block in hand

  /** All is sound but for block `b`, which is neither free nor live at the moment. */
  ghost predicate InHand(free: set<Block>, live: set<Block>, b: Block) {
    free !! live && b !in free && b !in live && Tiles(free + live + {b}) && NoFreePair(free)
  }

  /** No other block starts where the block in hand starts. */
  lemma InHandAlone(free: set<Block>, live: set<Block>, b: Block)
    requires InHand(free, live, b)
    ensures WellPlaced(b)
    ensures forall a :: a in free || a in live ==> WellPlaced(a) && a.start != b.start
  {
    var bs := free + live + {b};
    assert b in bs;
    forall a | a in free || a in live
      ensures WellPlaced(a) && a.start != b.start
    {
      assert a in bs && Apart(a, b);
    }
  }

  lemma TakeFree(free: set<Block>, live: set<Block>, b: Block)
    requires Sound(free, live) && b in free
    ensures InHand(free - {b}, live, b)
  {
    assert (free - {b}) + live + {b} == free + live;
  }

  lemma TakeLive(free: set<Block>, live: set<Block>, b: Block)
    requires Sound(free, live) && b in live
    ensures InHand(free, live - {b}, b)
  {
    assert free + (live - {b}) + {b} == free + live;
  }

  lemma MakeLive(free: set<Block>, live: set<Block>, b: Block)
    requires InHand(free, live, b)
    ensures Sound(free, live + {b})
  {
    assert free + (live + {b}) == free + live + {b};
  }

  lemma MakeFree(free: set<Block>, live: set<Block>, b: Block)
    requires InHand(free, live, b) && BuddyOf(b) !in free
    ensures Sound(free + {b}, live)
  {
    assert (free + {b}) + live == free + live + {b};
    InHandAlone(free, live, b);
    PairFreeAdd(free, b);
  }

  /** A block whose buddy is not free may join the free blocks. */
  lemma PairFreeAdd(free: set<Block>, b: Block)
    requires NoFreePair(free) && BuddyOf(b) !in free && WellPlaced(b) && forall a :: a in free ==> WellPlaced(a)
    ensures NoFreePair(free + {b})
  {
    BuddyBits(b.start, b.size);
    forall a | a in free + {b}
      ensures BuddyOf(a) !in free + {b}
    {
      BuddyBits(a.start, a.size);
    }
  }

  /** Splitting the block in hand, and giving back its upper half. */
  lemma SplitInHand(free: set<Block>, live: set<Block>, b: Block)
    requires InHand(free, live, b) && b.size > 0
    ensures InHand(free + {HighHalf(b)}, live, LowHalf(b))
    ensures WellPlaced(HighHalf(b)) && forall a :: a in free ==> a.start != HighHalf(b).start
  {
    var lo, hi := LowHalf(b), HighHalf(b);
    var rest := free + live;
    SplitKeepsTiles(rest, b);
    assert WellPlaced(b) by { assert b in free + live + {b}; }
    HalvesWellPlaced(b);
    assert (free + {hi}) + live + {lo} == rest + {lo, hi};
    assert lo in rest + {lo, hi} && hi in rest + {lo, hi};
    forall a | a in free
      ensures WellPlaced(a) && a.start != hi.start
    {
      assert a in rest + {lo, hi} && Apart(a, hi);
    }
    PairFreeAdd(free, hi);
  }

  /** Joining the block in hand with its free buddy. */
  lemma JoinInHand(free: set<Block>, live: set<Block>, b: Block)
    requires InHand(free, live, b) && BuddyOf(b) in free
    ensures InHand(free - {BuddyOf(b)}, live, Joined(b))
  {
    var rest := (free - {BuddyOf(b)}) + live;
    assert rest + {b, BuddyOf(b)} == free + live + {b};
    JoinKeepsTiles(rest, b);
  }

  lemma {:induction false} ToggleBound(n: nat, k: nat, width: nat)
    requires k < width && n < Pow2(width)
    ensures ToggleBit(n, k) < Pow2(width)
  {
    if k > 0 {
      assert n / 2 < Pow2(width - 1);
      ToggleBound(n / 2, k - 1, width - 1);
    }
  }

  // ---------------------------------------------------------------- the initial blocks

  /** One free block for each of the first `n` sizes. */
  ghost function InitialBlocks(n: nat): set<Block> {
    if n == 0 then {} else InitialBlocks(n - 1) + {Block(Pow2(n - 1), n - 1)}
  }

  lemma {:induction false} InitialBlocksLaidOut(n: nat)
    requires n <= NODE_BITS
    ensures forall b :: b in InitialBlocks(n) ==> WellPlaced(b) && End(b) <= Pow2(n) && b.size < n && b.start == Pow2(b.size)
    ensures PairwiseApart(InitialBlocks(n))
    ensures forall c: nat :: 0 < c < Pow2(n) ==> Covered(InitialBlocks(n), c)
  {
    if n > 0 {
      var last := Block(Pow2(n - 1), n - 1);
      InitialBlocksLaidOut(n - 1);
      Pow2Aligned(n - 1);
      Pow2Mono(n, NODE_BITS);
      Pow2Literals();
      forall c: nat | 0 < c < Pow2(n)
        ensures Covered(InitialBlocks(n), c)
      {
        if c < Pow2(n - 1) {
          assert Covered(InitialBlocks(n - 1), c);
          var b :| b in InitialBlocks(n - 1) && Contains(b, c);
          assert b in InitialBlocks(n);
        } else {
          assert Contains(last, c) && last in InitialBlocks(n);
        }
      }
    }
  }

  lemma InitiallySound()
    ensures Sound(InitialBlocks(NODE_BITS), {})
  {
    var free := InitialBlocks(NODE_BITS);
    InitialBlocksLaidOut(NODE_BITS);
    Pow2Literals();
    assert free + {} == free;
    forall b | b in free
      ensures BuddyOf(b) !in free
    {
      BuddyBits(b.start, b.size);
    }
  }
}
