/** The script memory allocator: one free tree per block size over a shared node array. */
module MemoryTree {
  import opened Bits
  import opened FreeTree
  import opened FreeTreeLinks
  import opened BitTables
  import opened Buddy
  import opened BuddyCells

  class MemoryTree {
    const nodes: array<MemNode>
    const head: array<NodeRef>
    const tables: BitTables
    const usage: array<int>
    const usageSize: array<nat>
    var totalAlloc: int
    var totalAllocBuckets: int
    ghost var trees: seq<Tree>

    ghost predicate Shaped()
      reads tables.leftBits, tables.numBits, tables.logBits, nodes
    {
      && nodes.Length == NODE_COUNT && head.Length == NODE_BITS + 1
      && tables.Valid()
      && nodes[0] == MemNode(0, 0)
    }

    constructor ()
      ensures Laid() && fresh(Repr())
    {
      nodes := new MemNode[NODE_COUNT];
      head := new NodeRef[NODE_BITS + 1];
      tables := new BitTables();
      usage := new int[NODE_COUNT];
      usageSize := new nat[NODE_COUNT];
    }

    /** The arrays are in place; nothing is said about what the node and usage arrays hold. */
    ghost predicate Laid()
      reads tables.leftBits, tables.numBits, tables.logBits
    {
      && nodes.Length == NODE_COUNT && head.Length == NODE_BITS + 1 && tables.Valid() && Recorded()
    }

    /** Empty usage tables, and one free block of each size. */
    method Init()
      requires Laid()
      modifies this`trees, this`totalAlloc, this`totalAllocBuckets, nodes, head, usage, usageSize
      ensures Valid() && Live() == {}
    {
      hide FreeBlocks, Elems, BitTables.Valid, Pow2, LiveBlocks, Sound, CellsOf;
      for i := 0 to NODE_BITS + 1
        invariant Laid() && forall s :: 0 <= s < i ==> head[s] == 0
      {
        head[i] := 0;
      }
      nodes[0] := MemNode(0, 0);
      trees := seq(NODE_BITS + 1, _ => Leaf);
      NothingFree(nodes[..], head[..], trees);
      AddInitialBlocks();
      totalAlloc, totalAllocBuckets := 0, 0;
      ClearUsage();
      NoneLive(usage[..], usageSize[..]);
      InitiallySound();
      NoCells();
    }

    method AddInitialBlocks()
      requires TreesHold() && FreeBlocks(trees) == InitialBlocks(0)
      modifies this`trees, nodes, head
      ensures TreesHold() && FreeBlocks(trees) == InitialBlocks(NODE_BITS)
    {
      hide TreesApart, FreeBlocks, Spells, LegalRoot, Elems, BitTables.Valid, Pow2;
      for i := 0 to NODE_BITS
        invariant TreesHold() && FreeBlocks(trees) == InitialBlocks(i)
      {
        InitialNodeUnused(trees, i);
        AddMemoryNode(Pow2(i), i);
      }
    }

    method ClearUsage()
      requires Recorded()
      modifies usage, usageSize
      ensures forall n :: 0 <= n < NODE_COUNT ==> usage[n] == 0 && usageSize[n] == 0
    {
      for n := 0 to NODE_COUNT
        invariant forall m :: 0 <= m < n ==> usage[m] == 0 && usageSize[m] == 0
      {
        usage[n] := 0;
        usageSize[n] := 0;
      }
    }

    /** The tree of one size, as spelled out by the node array. */
    ghost predicate Holds(size: nat, t: Tree)
      requires nodes.Length == NODE_COUNT && head.Length == NODE_BITS + 1
      requires size <= NODE_BITS
      reads nodes, head
    {
      Spells(nodes[..], head[size], t) && LegalRoot(t)
    }

    method Store(size: nat, link: Link, v: NodeRef)
      requires nodes.Length == NODE_COUNT && head.Length == NODE_BITS + 1 && size <= NODE_BITS
      modifies nodes, head
      ensures nodes[..] == StoreNodes(old(nodes[..]), link, v)
      ensures head[..] == old(head[..])[size := StoreHead(old(head[size]), link, v)]
    {
      match link
      case Head => head[size] := v;
      case PrevOf(n) => nodes[n] := nodes[n].(prev := v);
      case NextOf(n) => nodes[n] := nodes[n].(next := v);
    }

    /** From `link` downwards, `newNode` and then each root it displaces takes the place below. */
    method PushDown(size: nat, link0: Link, newNode0: NodeNum, nodeNum0: int, level0: nat,
                    ghost c0: Path, ghost t0: Tree, ghost k0: nat) returns (ghost t': Tree)
      requires Shaped() && size <= NODE_BITS
      requires Inserting(nodes[..], head[size], c0, t0, nodeNum0, k0, newNode0)
      requires Outranks(Score(newNode0), t0)
      requires link0 == LinkOf(c0) && level0 == Pow2(k0)
      modifies nodes, head
      ensures Shaped() && Holds(size, t')
      ensures Elems(t') == PathElems(c0) + Elems(t0) + {newNode0}
      ensures forall x: NodeNum :: x !in Elems(t') ==> nodes[x] == old(nodes[x])
      ensures head[..] == old(head[..])[size := head[size]]
    {
      hide Inserting, Cursor, Spells, Legal, Elems, PathElems, LegalPath, Score, Pow2;
      var link, nodeNum, level := link0, nodeNum0, level0;
      var newNode: NodeNum := newNode0;
      ghost var c, t, k := c0, t0, k0;
      ghost var all := PathElems(c0) + Elems(t0) + {newNode0};
      while true
        invariant Shaped() && Inserting(nodes[..], head[size], c, t, nodeNum, k, newNode)
        invariant Outranks(Score(newNode), t)
        invariant link == LinkOf(c) && level == Pow2(k)
        invariant PathElems(c) + Elems(t) + {newNode} == all
        invariant forall x: NodeNum :: x !in all ==> nodes[x] == old(nodes[x])
        invariant head[..] == old(head[..])[size := head[size]]
        decreases k
      {
        ghost var ns, h := nodes[..], head[size];
        var node := Load(nodes[..], head[size], link);
        RootAtInsertion(ns, h, c, t, nodeNum, k, newNode);
        Store(size, link, newNode);
        nodes[newNode] := nodes[node];
        RewriteFrame(ns, c, newNode, ns[node]);
        assert nodes[..] == Rewritten(ns, c, newNode, ns[node]);
        if node == 0 {
          PlaceLeaf(ns, h, c, nodeNum, k, newNode);
          t' := Plug(c, Node(newNode, Leaf, Leaf));
          return;
        }
        PushOut(ns, h, c, t, nodeNum, k, newNode);
        HalfLevel(k);
        ghost var below := Node(newNode, t.prev, t.next);
        c, t, k := StepPath(c, below, nodeNum, node), StepTree(below, nodeNum, node), k - 1;
        level := level / 2;
        if node >= nodeNum {
          link := NextOf(newNode);
          nodeNum := nodeNum + level;
        } else {
          link := PrevOf(newNode);
          nodeNum := nodeNum - level;
        }
        newNode := node;
      }
    }

    method InsertNode(newNode: NodeNum, size: nat, ghost t0: Tree) returns (ghost t': Tree)
      requires Shaped() && size <= NODE_BITS && Holds(size, t0) && newNode !in Elems(t0)
      modifies nodes, head
      ensures Shaped() && Holds(size, t')
      ensures Elems(t') == Elems(t0) + {newNode}
      ensures forall x: NodeNum :: x !in Elems(t') ==> nodes[x] == old(nodes[x])
      ensures head[..] == old(head[..])[size := head[size]]
    {
      hide Inserting, Cursor, Spells, Legal, Elems, PathElems, LegalPath, Score, Pow2, Outranks;
      ghost var ns, h := nodes[..], head[size];
      StartInserting(ns, h, t0, newNode);
      var link, node := Head, head[size];
      ghost var c, t, k := Top, t0, NODE_BITS;
      var nodeNum: int := 0;
      if node != 0 {
        var newScore := tables.GetScore(newNode);
        var level := NODE_COUNT;
        while node != 0
          invariant nodes[..] == ns && head[..] == old(head[..]) && Shaped()
          invariant Inserting(ns, h, c, t, nodeNum, k, newNode)
          invariant link == LinkOf(c) && level == Pow2(k) && node == Load(ns, h, link)
          invariant PathElems(c) + Elems(t) == Elems(t0)
          decreases k
        {
          RootAtInsertion(ns, h, c, t, nodeNum, k, newNode);
          var score := tables.GetScore(node);
          if score < newScore {
            RootOutranked(newNode, t);
            t' := PushDown(size, link, newNode, nodeNum, level, c, t, k);
            return;
          }
          InsertBelow(ns, h, c, t, nodeNum, k, newNode);
          HalfLevel(k);
          c, t, k := StepPath(c, t, nodeNum, newNode), StepTree(t, nodeNum, newNode), k - 1;
          level := level / 2;
          if newNode >= nodeNum {
            link := NextOf(node);
            nodeNum := nodeNum + level;
          } else {
            link := PrevOf(node);
            nodeNum := nodeNum - level;
          }
          node := Load(nodes[..], head[size], link);
        }
      }
      RootAtInsertion(ns, h, c, t, nodeNum, k, newNode);
      PlaceLeaf(ns, h, c, nodeNum, k, newNode);
      RewriteFrame(ns, c, newNode, MemNode(0, 0));
      Store(size, link, newNode);
      nodes[newNode] := MemNode(0, 0);
      assert nodes[..] == Rewritten(ns, c, newNode, MemNode(0, 0));
      t' := Plug(c, Node(newNode, Leaf, Leaf));
    }

    /** Which child of a gap is to move up. */
    method PrevRanksBetter(val: MemNode) returns (fromPrev: bool)
      requires tables.Valid()
      ensures fromPrev == (val.prev != 0 && (val.next == 0 || Score(val.prev) >= Score(val.next)))
    {
      if val.prev == 0 || val.next == 0 {
        return val.prev != 0;
      }
      var prevScore := tables.GetScore(val.prev);
      var nextScore := tables.GetScore(val.next);
      fromPrev := prevScore >= nextScore;
    }

    /** Node `m` moves up into the gap at `link` and takes over the children `val`; its own are returned. */
    method MoveUp(size: nat, link: Link, m: NodeNum, val: MemNode, ghost c: Path) returns (orphans: MemNode)
      requires Shaped() && size <= NODE_BITS && link == LinkOf(c) && m !in PathElems(c)
      modifies nodes, head
      ensures Shaped() && nodes[..] == Rewritten(old(nodes[..]), c, m, val)
      ensures head[..] == old(head[..])[size := StoreHead(old(head[size]), link, m)]
      ensures orphans == old(nodes[m])
      ensures forall x: NodeNum :: x !in PathElems(c) && x != m ==> nodes[x] == old(nodes[x])
    {
      hide PathElems, BitTables.Valid;
      ghost var ns := nodes[..];
      RewriteFrame(ns, c, m, val);
      RewriteLinkFrame(ns, c, m);
      Store(size, link, m);
      orphans := nodes[m];
      nodes[m] := val;
      assert nodes[..] == Rewritten(ns, c, m, val);
    }

    /** The gap at `link` is closed by moving the better-ranking child up, all the way down. */
    method CloseUp(size: nat, link0: Link, val0: MemNode,
                   ghost c0: Path, ghost l0: Tree, ghost r0: Tree, ghost p0: int, ghost k0: nat) returns (ghost t': Tree)
      requires Shaped() && size <= NODE_BITS
      requires Cursor(nodes[..], head[size], c0, p0, k0) && Orphans(nodes[..], val0, l0, r0, c0, p0, k0)
      requires link0 == LinkOf(c0)
      modifies nodes, head
      ensures Shaped() && Holds(size, t')
      ensures Elems(t') == PathElems(c0) + Elems(l0) + Elems(r0)
      ensures forall x: NodeNum :: x !in Elems(t') ==> nodes[x] == old(nodes[x])
      ensures head[..] == old(head[..])[size := head[size]]
    {
      hide Orphans, Cursor, Spells, Legal, Elems, PathElems, LegalPath, LegalRoot, Score, Pow2, Outranks, NodesDistinct, BitTables.Valid;
      var link, val := link0, val0;
      ghost var c, l, r, p, k := c0, l0, r0, p0, k0;
      ghost var all := PathElems(c0) + Elems(l0) + Elems(r0);
      while true
        invariant Shaped() && Cursor(nodes[..], head[size], c, p, k) && Orphans(nodes[..], val, l, r, c, p, k)
        invariant link == LinkOf(c)
        invariant PathElems(c) + Elems(l) + Elems(r) == all
        invariant forall x: NodeNum :: x !in all ==> nodes[x] == old(nodes[x])
        invariant head[..] == old(head[..])[size := head[size]]
        decreases k
      {
        ghost var ns, h := nodes[..], head[size];
        OrphanRoots(ns, val, l, r, c, p, k);
        if val.prev == 0 && val.next == 0 {
          CloseGap(ns, h, c, p, k);
          RewriteLinkFrame(ns, c, 0);
          Store(size, link, 0);
          t' := Plug(c, Leaf);
          return;
        }
        var fromPrev := PrevRanksBetter(val);
        var m: NodeNum := if fromPrev then val.prev else val.next;
        SiftUp(ns, h, c, val, l, r, p, k, fromPrev);
        val := MoveUp(size, link, m, val, c);
        link := if fromPrev then PrevOf(m) else NextOf(m);
        ghost var up := if fromPrev then l else r;
        c, p, k := SiftPath(c, l, r, p, fromPrev), SiftPivot(p, k - 1, fromPrev), k - 1;
        l, r := up.prev, up.next;
      }
    }

    /** Takes `oldNode` out of the tree of one size, if it is there. */
    method ExtractNode(oldNode: NodeRef, size: nat, ghost t0: Tree) returns (found: bool, ghost t': Tree)
      requires Shaped() && size <= NODE_BITS && Holds(size, t0)
      modifies nodes, head
      ensures Shaped() && Holds(size, t')
      ensures found <==> oldNode in Elems(t0)
      ensures Elems(t') == Elems(t0) - {oldNode}
      ensures forall x: NodeNum :: x !in Elems(t0) ==> nodes[x] == old(nodes[x])
      ensures head[..] == old(head[..])[size := head[size]]
    {
      hide Searching, Orphans, Cursor, Spells, Legal, Elems, PathElems, LegalPath, Score, Pow2, Outranks, NodesDistinct;
      ghost var ns, h := nodes[..], head[size];
      StartSearching(ns, h, t0, oldNode);
      var link, node, level := Head, head[size], NODE_COUNT;
      var nodeNum: int := 0;
      ghost var c, t, k := Top, t0, NODE_BITS;
      while node != 0
        invariant nodes[..] == ns && head[..] == old(head[..]) && Shaped()
        invariant Searching(ns, h, c, t, nodeNum, k, oldNode)
        invariant link == LinkOf(c) && level == Pow2(k) && node == Load(ns, h, link)
        invariant PathElems(c) + Elems(t) == Elems(t0)
        invariant oldNode in Elems(t0) <==> oldNode in Elems(t)
        decreases k
      {
        RootAtSearch(ns, h, c, t, nodeNum, k, oldNode);
        if oldNode == node {
          Orphaned(ns, h, c, t, nodeNum, k, oldNode);
          t' := CloseUp(size, link, nodes[oldNode], c, t.prev, t.next, nodeNum, k);
          return true, t';
        }
        if oldNode == nodeNum {
          PivotMissing(ns, h, c, t, nodeNum, k, oldNode);
          return false, t0;
        }
        SearchBelow(ns, h, c, t, nodeNum, k, oldNode);
        HalfLevel(k);
        c, t, k := StepPath(c, t, nodeNum, oldNode), StepTree(t, nodeNum, oldNode), k - 1;
        level := level / 2;
        if oldNode >= nodeNum {
          link := NextOf(node);
          nodeNum := nodeNum + level;
        } else {
          link := PrevOf(node);
          nodeNum := nodeNum - level;
        }
        node := Load(nodes[..], head[size], link);
      }
      RootAtSearch(ns, h, c, t, nodeNum, k, oldNode);
      return false, t0;
    }

    /** Takes the best-ranking node out of a tree that has one. */
    method ExtractHead(size: nat, ghost t0: Tree) returns (ghost t': Tree)
      requires Shaped() && size <= NODE_BITS && Holds(size, t0) && head[size] != 0
      modifies nodes, head
      ensures Shaped() && Holds(size, t')
      ensures old(head[size]) in Elems(t0) && Elems(t') == Elems(t0) - {old(head[size])}
      ensures forall x: NodeNum :: x !in Elems(t0) ==> nodes[x] == old(nodes[x])
      ensures head[..] == old(head[..])[size := head[size]]
    {
      hide Searching, Orphans, Cursor, Spells, Legal, Elems, PathElems, LegalPath, Score, Pow2, Outranks, NodesDistinct;
      StartSearching(nodes[..], head[size], t0, head[size]);
      RootAtSearch(nodes[..], head[size], Top, t0, 0, NODE_BITS, head[size]);
      Orphaned(nodes[..], head[size], Top, t0, 0, NODE_BITS, head[size]);
      t' := CloseUp(size, Head, nodes[head[size]], Top, t0.prev, t0.next, 0, NODE_BITS);
    }

    /** Every object the allocator writes. */
    ghost function Repr(): set<object> {
      {this, nodes, head, usage, usageSize, tables.leftBits, tables.numBits, tables.logBits}
    }

    // ---------------------------------------------------------------- all sizes together

    /** The free trees of all sizes, none sharing a node. */
    ghost predicate TreesHold()
      reads this`trees, tables.leftBits, tables.numBits, tables.logBits, nodes, head
    {
      && Shaped() && |trees| == NODE_BITS + 1
      && (forall s :: 0 <= s <= NODE_BITS ==> Holds(s, trees[s]))
      && TreesApart(trees)
    }

    method AddMemoryNode(newNode: NodeNum, size: nat)
      requires TreesHold() && size <= NODE_BITS && Unused(trees, newNode)
      modifies this`trees, nodes, head
      ensures TreesHold()
      ensures FreeBlocks(trees) == old(FreeBlocks(trees)) + {Block(newNode, size)}
      ensures forall x: NodeNum :: x != newNode && Unused(old(trees), x) ==> nodes[x] == old(nodes[x])
    {
      hide FreeBlocks, Spells, LegalRoot, Elems, BitTables.Valid;
      ghost var ns, hs := nodes[..], head[..];
      ghost var t' := InsertNode(newNode, size, trees[size]);
      OtherTreesFrame(ns, nodes[..], hs, head[..], trees, size, Elems(t'));
      FreeBlocksAdd(trees, size, t', newNode);
      trees := trees[size := t'];
    }

    method RemoveMemoryNode(oldNode: NodeRef, size: nat) returns (found: bool)
      requires TreesHold() && size <= NODE_BITS
      modifies this`trees, nodes, head
      ensures TreesHold()
      ensures found <==> Block(oldNode, size) in old(FreeBlocks(trees))
      ensures FreeBlocks(trees) == old(FreeBlocks(trees)) - {Block(oldNode, size)}
      ensures forall x: NodeNum :: Unused(old(trees), x) ==> nodes[x] == old(nodes[x])
    {
      hide FreeBlocks, Spells, LegalRoot, Elems, BitTables.Valid;
      ghost var ns, hs := nodes[..], head[..];
      ghost var t';
      found, t' := ExtractNode(oldNode, size, trees[size]);
      OtherTreesFrame(ns, nodes[..], hs, head[..], trees, size, Elems(trees[size]));
      FreeBlocksRemove(trees, size, t', oldNode);
      trees := trees[size := t'];
    }

    method RemoveHeadMemoryNode(size: nat)
      requires TreesHold() && size <= NODE_BITS && head[size] != 0
      modifies this`trees, nodes, head
      ensures TreesHold()
      ensures Block(old(head[size]), size) in old(FreeBlocks(trees))
      ensures FreeBlocks(trees) == old(FreeBlocks(trees)) - {Block(old(head[size]), size)}
      ensures forall x: NodeNum :: Unused(old(trees), x) ==> nodes[x] == old(nodes[x])
    {
      hide FreeBlocks, Spells, LegalRoot, Elems, BitTables.Valid;
      ghost var ns, hs := nodes[..], head[..];
      ghost var t' := ExtractHead(size, trees[size]);
      OtherTreesFrame(ns, nodes[..], hs, head[..], trees, size, Elems(trees[size]));
      FreeBlocksRemove(trees, size, t', hs[size]);
      trees := trees[size := t'];
    }

    // ---------------------------------------------------------------- allocation

    /** The blocks handed out, as the usage tables record them. */
    ghost function Live(): set<Block>
      requires usage.Length == NODE_COUNT && usageSize.Length == NODE_COUNT
      reads usage, usageSize
    {
      LiveBlocks(usage[..], usageSize[..])
    }

    ghost predicate Recorded() {
      && usage.Length == NODE_COUNT && usageSize.Length == NODE_COUNT
      && usageSize != tables.leftBits && usageSize != tables.numBits && usageSize != tables.logBits
      && (usageSize as object) != head && (usage as object) != head && (usage as object) != usageSize
      && (usage as object) != tables.leftBits && (usage as object) != tables.numBits && (usage as object) != tables.logBits
    }

    ghost predicate Valid()
      reads this, tables.leftBits, tables.numBits, tables.logBits, nodes, head, usage, usageSize
      ensures Valid() ==> usage.Length == NODE_COUNT && usageSize.Length == NODE_COUNT
    {
      && TreesHold() && Recorded()
      && Sound(FreeBlocks(trees), Live())
      && totalAlloc == |Live()|
      && totalAllocBuckets == |CellsOf(Live())|
    }

    /** Splits the block in hand down to `size`, giving back upper halves. */
    method SplitDown(nodeNum: NodeNum, newSize0: nat, size: nat, ghost live: set<Block>)
      requires TreesHold() && size <= newSize0 <= NODE_BITS
      requires InHand(FreeBlocks(trees), live, Block(nodeNum, newSize0))
      modifies this`trees, nodes, head
      ensures TreesHold()
      ensures InHand(FreeBlocks(trees), live, Block(nodeNum, size))
      ensures LeavesAlone(old(nodes[..]), nodes[..], live)
    {
      hide TreesApart, FreeBlocks, Spells, LegalRoot, Elems, BitTables.Valid, InHand, Pow2, LeavesAlone, Unused;
      var newSize := newSize0;
      LeftAlone(nodes[..], live);
      while newSize != size
        invariant size <= newSize <= NODE_BITS && TreesHold()
        invariant LeavesAlone(old(nodes[..]), nodes[..], live)
        invariant InHand(FreeBlocks(trees), live, Block(nodeNum, newSize))
      {
        ghost var b := Block(nodeNum, newSize);
        SplitInHand(FreeBlocks(trees), live, b);
        newSize := newSize - 1;
        StartsUnused(trees, nodeNum + Pow2(newSize));
        ghost var ns, ts := nodes[..], trees;
        HighStartInside(b);
        AddMemoryNode(nodeNum + Pow2(newSize), newSize);
        HandLeavesAlone(ts, live, b, ns, nodes[..], nodeNum + Pow2(newSize));
        AloneTrans(old(nodes[..]), ns, nodes[..], live);
        assert LowHalf(b) == Block(nodeNum, newSize);
      }
    }

    /** The least size from `size` up with a free block; `NODE_BITS + 1` if there is none. */
    method FindFreeSize(size: nat) returns (newSize: nat)
      requires TreesHold() && size <= NODE_BITS
      ensures size <= newSize <= NODE_BITS + 1
      ensures forall g :: g in FreeBlocks(trees) && g.size >= size ==> g.size >= newSize
      ensures newSize <= NODE_BITS ==> head[newSize] != 0 && Block(head[newSize], newSize) in FreeBlocks(trees)
      ensures newSize <= NODE_BITS ==> ComesFirst(FreeBlocks(trees), Block(head[newSize], newSize))
    {
      hide TreesApart, BitTables.Valid, Pow2, LegalRoot, Precedes;
      newSize := size;
      while newSize <= NODE_BITS && head[newSize] == 0
        invariant size <= newSize <= NODE_BITS + 1
        invariant forall s :: size <= s < newSize ==> trees[s].Leaf?
      {
        assert Holds(newSize, trees[newSize]);
        newSize := newSize + 1;
      }
      if newSize <= NODE_BITS {
        assert Holds(newSize, trees[newSize]);
        assert head[newSize] in Elems(trees[newSize]);
        RootComesFirst(trees, newSize);
      }
    }

    /** The bytes in the blocks of `live` are as they were. */
    twostate predicate LivesOn(live: set<Block>)
      reads nodes
    {
      nodes.Length == NODE_COUNT && LeavesAlone(old(nodes[..]), nodes[..], live)
    }

    /** A block for `numBytes`, marked with its kind; 0 if there is none. */
    method AllocIndex(numBytes: int, kind: int) returns (nodeNum: NodeRef)
      requires Valid() && 0 < numBytes && kind != 0
      modifies this`trees, this`totalAlloc, this`totalAllocBuckets, nodes, head, usage, usageSize
      ensures Valid()
      ensures nodeNum == 0 <==> numBytes >= NODE_COUNT || !Servable(SizeClass(numBytes), old(Live()))
      ensures nodeNum == 0 ==> Live() == old(Live())
      ensures nodeNum != 0 ==>
        var b := Block(nodeNum, SizeClass(numBytes));
        && FreeRun(b, old(Live())) && Live() == old(Live()) + {b} && b !in old(Live())
        && usage[..] == old(usage[..])[nodeNum := kind] && usageSize[..] == old(usageSize[..])[nodeNum := b.size]
        && BestFit(old(FreeBlocks(trees)), b)
      ensures LivesOn(old(Live()))
    {
      hide LeavesAlone, Unused, TreesApart, FreeBlocks, Spells, LegalRoot, Elems, BitTables.Valid, Pow2, LiveBlocks, Sound, CellsOf, InHand, FreeRun, Servable, SizeClass, Legal, WellPlaced;
      LeftAlone(nodes[..], Live());
      if numBytes >= NODE_COUNT {
        return 0;
      }
      var size := tables.GetSize(numBytes);
      ghost var free, live := FreeBlocks(trees), Live();
      SizeClassIsLeast(numBytes);
      var newSize := FindFreeSize(size);
      ServableIffFree(size, free, live);
      if newSize > NODE_BITS {
        NoneTooLarge(free, live);
        return 0;
      }
      var found := CarveBlock(newSize, size);
      Record(found, kind, size);
      nodeNum := found;
    }

    /** Takes a free block of size `newSize`, the first of its tree, and cuts it down to `size`. */
    method CarveBlock(newSize: nat, size: nat) returns (nodeNum: NodeNum)
      requires Recorded() && Sound(FreeBlocks(trees), Live()) && size <= newSize <= NODE_BITS
      requires TreesHold() && head[newSize] != 0 && Block(head[newSize], newSize) in FreeBlocks(trees)
      modifies this`trees, nodes, head
      ensures TreesHold() && Recorded() && nodeNum == old(head[newSize])
      ensures var b := Block(nodeNum, size);
        FreeRun(b, Live()) && b !in Live() && Sound(FreeBlocks(trees), Live() + {b}) && forall a :: a in Live() ==> a.start != nodeNum
      ensures LeavesAlone(old(nodes[..]), nodes[..], Live())
    {
      hide LeavesAlone, Unused, TreesApart, FreeBlocks, Spells, LegalRoot, Elems, BitTables.Valid, Pow2, LiveBlocks, Sound, CellsOf, InHand, FreeRun, Legal, WellPlaced;
      ghost var free, live := FreeBlocks(trees), Live();
      nodeNum := head[newSize];
      ghost var ns, ts := nodes[..], trees;
      RemoveHeadMemoryNode(newSize);
      SoundLeavesAlone(ts, live, ns, nodes[..]);
      TakeFree(free, live, Block(nodeNum, newSize));
      ghost var ns' := nodes[..];
      SplitDown(nodeNum, newSize, size, live);
      AloneTrans(ns, ns', nodes[..], live);
      ghost var b := Block(nodeNum, size);
      InHandIsFreeRun(FreeBlocks(trees), live, b);
      MakeLive(FreeBlocks(trees), live, b);
    }

    /** Enters a block handed out into the totals and the usage tables. */
    method Record(nodeNum: NodeNum, kind: int, size: nat)
      requires Recorded() && kind != 0 && FreeRun(Block(nodeNum, size), Live()) && Block(nodeNum, size) !in Live()
      requires totalAlloc == |Live()| && totalAllocBuckets == |CellsOf(Live())|
      requires forall a :: a in Live() ==> a.start != nodeNum
      modifies this`totalAlloc, this`totalAllocBuckets, usage, usageSize
      ensures Live() == old(Live()) + {Block(nodeNum, size)}
      ensures usage[..] == old(usage[..])[nodeNum := kind] && usageSize[..] == old(usageSize[..])[nodeNum := size]
      ensures totalAlloc == |Live()| && totalAllocBuckets == |CellsOf(Live())|
    {
      hide LiveBlocks, CellsOf, FreeRun, Pow2;
      LiveBlocksAdd(usage[..], usageSize[..], nodeNum, kind, size);
      TotalsAdd(Live(), Block(nodeNum, size));
      totalAlloc := totalAlloc + 1;
      totalAllocBuckets := totalAllocBuckets + Pow2(size);
      usage[nodeNum] := kind;
      usageSize[nodeNum] := size;
    }

    /** Gives back a block, joining it with its buddy as long as that is free. */
    method FreeIndex(nodeNum0: NodeRef, numBytes: int)
      requires Valid() && 0 < numBytes < NODE_COUNT
      requires 0 < nodeNum0 && usage[nodeNum0] != 0 && usageSize[nodeNum0] == SizeClass(numBytes)
      modifies this`trees, this`totalAlloc, this`totalAllocBuckets, nodes, head, usage, usageSize
      ensures Valid()
      ensures Block(nodeNum0, SizeClass(numBytes)) in old(Live())
      ensures Live() == old(Live()) - {Block(nodeNum0, SizeClass(numBytes))}
      ensures usage[..] == old(usage[..])[nodeNum0 := 0] && usageSize[..] == old(usageSize[..])[nodeNum0 := 0]
      ensures LivesOn(Live())
    {
      hide LeavesAlone, Unused, TreesApart, FreeBlocks, Spells, LegalRoot, Elems, BitTables.Valid, Pow2, LiveBlocks, Sound, CellsOf, InHand, FreeRun;
      var size := tables.GetSize(numBytes);
      ghost var free, live0, b := FreeBlocks(trees), Live(), Block(nodeNum0, size);
      ghost var live := live0 - {b};
      LiveBlocksRemove(usage[..], usageSize[..], nodeNum0);
      TakeLive(free, live0, b);
      InHandIsFreeRun(free, live, b);
      TotalsAdd(live, b);
      assert live + {b} == live0;
      totalAlloc := totalAlloc - 1;
      totalAllocBuckets := totalAllocBuckets - Pow2(size);
      usage[nodeNum0] := 0;
      usageSize[nodeNum0] := 0;
      JoinUp(nodeNum0, size, live);
    }

    /** Joins the block in hand with free buddies, then puts it on the free tree of its size. */
    method JoinUp(nodeNum0: NodeNum, size0: nat, ghost live: set<Block>)
      requires TreesHold() && InHand(FreeBlocks(trees), live, Block(nodeNum0, size0))
      modifies this`trees, nodes, head
      ensures TreesHold() && Sound(FreeBlocks(trees), live)
      ensures LeavesAlone(old(nodes[..]), nodes[..], live)
    {
      hide TreesApart, FreeBlocks, Spells, LegalRoot, Elems, BitTables.Valid, Pow2, Sound, InHand, LeavesAlone, Unused;
      var nodeNum: NodeNum, size := nodeNum0, size0;
      LeftAlone(nodes[..], live);
      while true
        invariant TreesHold() && InHand(FreeBlocks(trees), live, Block(nodeNum, size))
        invariant LeavesAlone(old(nodes[..]), nodes[..], live)
        decreases NODE_BITS - size
      {
        ghost var free, b := FreeBlocks(trees), Block(nodeNum, size);
        BuddyInRange(free, live, b);
        if size == NODE_BITS {
          break;
        }
        ghost var ns, ts := nodes[..], trees;
        var joined := RemoveMemoryNode(ToggleBit(nodeNum, size), size);
        HandLeavesAlone(ts, live, b, ns, nodes[..], nodeNum);
        AloneTrans(old(nodes[..]), ns, nodes[..], live);
        if !joined {
          assert FreeBlocks(trees) == free;
          break;
        }
        JoinInHand(free, live, b);
        JoinedInRange(free - {BuddyOf(b)}, live, b);
        nodeNum := ClearBit(nodeNum, size);
        size := size + 1;
      }
      ghost var free, b := FreeBlocks(trees), Block(nodeNum, size);
      InHandAlone(free, live, b);
      StartsUnused(trees, nodeNum);
      MakeFree(free, live, b);
      ghost var ns, ts := nodes[..], trees;
      StartInside(b);
      AddMemoryNode(nodeNum, size);
      HandLeavesAlone(ts, live, b, ns, nodes[..], nodeNum);
      AloneTrans(old(nodes[..]), ns, nodes[..], live);
    }

    // ---------------------------------------------------------------- accounting

    method GetSubTreeSize(nodeNum: NodeRef, ghost t: Tree) returns (count: nat)
      requires nodes.Length == NODE_COUNT && Spells(nodes[..], nodeNum, t)
      ensures count == Size(t)
      decreases t
    {
      if nodeNum == 0 {
        return 0;
      }
      var before := GetSubTreeSize(nodes[nodeNum].prev, t.prev);
      var after := GetSubTreeSize(nodes[nodeNum].next, t.next);
      count := before + after + 1;
    }

    /** Allocated buckets and the buckets counted on the free trees always make up the whole range. */
    method CountBuckets() returns (totalBuckets: int)
      requires Valid()
      ensures totalBuckets == NODE_COUNT - 1
    {
      hide FreeBlocks, Elems, BitTables.Valid, Pow2, LiveBlocks, CellsOf, Sound, Spells, Size, TreesApart;
      totalBuckets := totalAllocBuckets;
      NoFreeCells(trees);
      for size := 0 to NODE_BITS + 1
        invariant totalBuckets == totalAllocBuckets + |CellsOf(FreeBlocks(trees[..size]))|
      {
        assert Holds(size, trees[size]);
        var subTreeSize := GetSubTreeSize(head[size], trees[size]);
        totalBuckets := totalBuckets + subTreeSize * Pow2(size);
        FreeCellsOfNextSize(trees, size, Live());
      }
      assert trees[..NODE_BITS + 1] == trees;
      AllCells(FreeBlocks(trees), Live());
    }
  }

  lemma NoFreeCells(trees: seq<Tree>)
    ensures CellsOf(FreeBlocks(trees[..0])) == {}
  {
    assert FreeBlocks(trees[..0]) == {};
    NoCells();
  }

  lemma AllCells(free: set<Block>, live: set<Block>)
    requires Sound(free, live)
    ensures |CellsOf(free)| + |CellsOf(live)| == NODE_COUNT - 1
  {
    TilingCells(free, live);
  }

  lemma FreeCellsOfNextSize(trees: seq<Tree>, size: nat, live: set<Block>)
    requires size < |trees| && LegalRoot(trees[size]) && Sound(FreeBlocks(trees), live)
    ensures |CellsOf(FreeBlocks(trees[..size + 1]))| == |CellsOf(FreeBlocks(trees[..size]))| + Size(trees[size]) * Pow2(size)
  {
    var starts, rest := Elems(trees[size]), FreeBlocks(trees[..size]);
    SizeIsCardinality(trees[size], 0, NODE_BITS);
    assert FreeBlocks(trees[..size + 1]) == rest + OfSize(starts, size) by { FreeBlocksStep(trees, size); }
    FreeBlocksApart(trees, size, live);
    SameSizeCells(starts, rest, size);
  }

  lemma FreeBlocksStep(trees: seq<Tree>, size: nat)
    requires size < |trees|
    ensures FreeBlocks(trees[..size + 1]) == FreeBlocks(trees[..size]) + OfSize(Elems(trees[size]), size)
  {
    forall b | b in FreeBlocks(trees[..size]) + OfSize(Elems(trees[size]), size)
      ensures b in FreeBlocks(trees[..size + 1])
    {
      assert b.size < size + 1 && b.start in Elems(trees[..size + 1][b.size]);
    }
  }

  lemma FreeBlocksApart(trees: seq<Tree>, size: nat, live: set<Block>)
    requires size < |trees| && Sound(FreeBlocks(trees), live)
    ensures forall n :: n in Elems(trees[size]) ==> WellPlaced(Block(n, size))
    ensures forall m, n :: m in Elems(trees[size]) && n in Elems(trees[size]) && m != n ==> Buddy.Apart(Block(m, size), Block(n, size))
    ensures forall n, a :: n in Elems(trees[size]) && a in FreeBlocks(trees[..size]) ==> Buddy.Apart(a, Block(n, size))
  {
    var free := FreeBlocks(trees);
    var all := free + live;
    forall n | n in Elems(trees[size])
      ensures Block(n, size) in all
    {
      assert Block(n, size) in free;
    }
    forall a | a in FreeBlocks(trees[..size])
      ensures a in all && a.size != size
    {
      assert a in free;
    }
  }

  /** The allocator's free trees, roots included, are a function of the blocks handed out. */
  lemma SameLiveSameTrees(m: MemoryTree, m': MemoryTree)
    requires m.Valid() && m'.Valid() && m.Live() == m'.Live()
    ensures m.trees == m'.trees && m.head[..] == m'.head[..]
  {
    FreeBlocksAreCanonical(FreeBlocks(m.trees), FreeBlocks(m'.trees), m.Live());
    forall s | 0 <= s <= NODE_BITS
      ensures m.trees[s] == m'.trees[s] && m.head[s] == m'.head[s]
    {
      assert m.Holds(s, m.trees[s]) && m'.Holds(s, m'.trees[s]);
      SameBlocksSameNodes(m.trees, m'.trees, s);
      ShapeIsCanonical(m.trees[s], m'.trees[s], 0, NODE_BITS);
    }
  }

  lemma SameBlocksSameNodes(trees: seq<Tree>, trees': seq<Tree>, s: nat)
    requires |trees| == |trees'| && s < |trees| && FreeBlocks(trees) == FreeBlocks(trees')
    ensures Elems(trees[s]) == Elems(trees'[s])
  {
    forall n: NodeNum
      ensures n in Elems(trees[s]) <==> n in Elems(trees'[s])
    {
      FreeBlocksMember(trees, n, s);
      FreeBlocksMember(trees', n, s);
    }
  }

  lemma BuddyInRange(free: set<Block>, live: set<Block>, b: Block)
    requires InHand(free, live, b)
    ensures b.size < NODE_BITS && ToggleBit(b.start, b.size) < NODE_COUNT
  {
    InHandAlone(free, live, b);
    Pow2Literals();
    ToggleBound(b.start, b.size, NODE_BITS);
  }

  lemma JoinedInRange(free: set<Block>, live: set<Block>, b: Block)
    requires InHand(free, live, Joined(b))
    ensures 0 < ClearBit(b.start, b.size) < NODE_COUNT && b.size + 1 < NODE_BITS
  {
    InHandAlone(free, live, Joined(b));
  }

  lemma LiveBlocksRemove(usage: seq<int>, sizes: seq<nat>, n: nat)
    requires |usage| == |sizes| && n < |usage| && usage[n] != 0
    ensures Block(n, sizes[n]) in LiveBlocks(usage, sizes)
    ensures LiveBlocks(usage[n := 0], sizes[n := 0]) == LiveBlocks(usage, sizes) - {Block(n, sizes[n])}
  {
    var usage', sizes' := usage[n := 0], sizes[n := 0];
    forall b | b in LiveBlocks(usage, sizes) - {Block(n, sizes[n])}
      ensures b in LiveBlocks(usage', sizes')
    {
      assert b.start != n && usage'[b.start] != 0 && b == Block(b.start, sizes'[b.start]);
    }
  }

  /** Some aligned run of `2^size` cells is free. */
  ghost predicate Servable(size: nat, live: set<Block>) {
    exists run :: FreeRun(run, live) && run.size == size
  }

  lemma NoneLive(usage: seq<int>, sizes: seq<nat>)
    requires |usage| == |sizes| && forall n :: 0 <= n < |usage| ==> usage[n] == 0
    ensures LiveBlocks(usage, sizes) == {}
  {}

  lemma NothingFree(nodes: Nodes, head: seq<NodeRef>, trees: seq<Tree>)
    requires |head| == |trees|
    requires forall s :: 0 <= s < |trees| ==> trees[s] == Leaf && head[s] == 0
    ensures forall s :: 0 <= s < |trees| ==> Spells(nodes, head[s], trees[s]) && LegalRoot(trees[s])
    ensures TreesApart(trees)
    ensures FreeBlocks(trees) == {} == InitialBlocks(0)
  {}

  lemma InitialNodeUnused(trees: seq<Tree>, i: nat)
    requires FreeBlocks(trees) == InitialBlocks(i) && i < NODE_BITS
    ensures 0 < Pow2(i) < NODE_COUNT && Unused(trees, Pow2(i))
    ensures InitialBlocks(i + 1) == InitialBlocks(i) + {Block(Pow2(i), i)}
  {
    Pow2Literals();
    Pow2Mono(i, NODE_BITS);
    InitialBlocksLaidOut(i);
    StartsUnused(trees, Pow2(i));
  }

  /** `b` is cut from the start of a free block of the least sufficient size, which comes before all others of this size. */
  ghost predicate BestFit(free: set<Block>, b: Block) {
    exists f :: f in free && f.start == b.start && b.size <= f.size && ComesFirst(free, f)
      && forall g :: g in free && g.size >= b.size ==> g.size >= f.size
  }

  /** Of the free blocks of its size, `f` spans the start of another that it is aligned better than, or has the lower address. */
  ghost predicate ComesFirst(free: set<Block>, f: Block) {
    forall g :: g in free && g.size == f.size && g != f ==>
      0 < f.start < NODE_COUNT && 0 < g.start < NODE_COUNT && Precedes(f.start, g.start)
  }

  lemma RootComesFirst(trees: seq<Tree>, size: nat)
    requires size < |trees| && trees[size].Node? && LegalRoot(trees[size])
    ensures ComesFirst(FreeBlocks(trees), Block(trees[size].num, size))
  {
    hide Precedes;
    RootPrecedes(trees[size], 0, NODE_BITS);
  }

  lemma ServableIffFree(size: nat, free: set<Block>, live: set<Block>)
    requires Sound(free, live)
    ensures Servable(size, live) <==> exists f :: f in free && f.size >= size
  {
    RequestCanBeServed(size, free, live);
  }

  lemma NoneTooLarge(free: set<Block>, live: set<Block>)
    requires Sound(free, live)
    ensures forall f :: f in free ==> f.size < NODE_BITS
  {
    forall f | f in free
      ensures f.size < NODE_BITS
    {
      assert f in free + live;
    }
  }

  lemma InHandIsFreeRun(free: set<Block>, live: set<Block>, b: Block)
    requires InHand(free, live, b)
    ensures FreeRun(b, live) && b !in live && 0 < b.start < NODE_COUNT
    ensures forall a :: a in live ==> a.start != b.start
  {
    InHandAlone(free, live, b);
    var bs := free + live + {b};
    forall a | a in live
      ensures Apart(b, a)
    {
      assert a in bs && b in bs;
    }
  }

  lemma TotalsAdd(live: set<Block>, b: Block)
    requires FreeRun(b, live) && b !in live
    ensures |live + {b}| == |live| + 1
    ensures |CellsOf(live + {b})| == |CellsOf(live)| + Pow2(b.size)
  {
    AddBlockCells(live, b);
  }

  lemma LiveBlocksAdd(usage: seq<int>, sizes: seq<nat>, n: nat, kind: int, size: nat)
    requires |usage| == |sizes| && n < |usage| && kind != 0
    requires forall a :: a in LiveBlocks(usage, sizes) ==> a.start != n
    ensures LiveBlocks(usage[n := kind], sizes[n := size]) == LiveBlocks(usage, sizes) + {Block(n, size)}
  {
    assert usage[n] == 0 by {
      assert usage[n] != 0 ==> Block(n, sizes[n]) in LiveBlocks(usage, sizes);
    }
    var usage', sizes' := usage[n := kind], sizes[n := size];
    forall b | b in LiveBlocks(usage, sizes) + {Block(n, size)}
      ensures b in LiveBlocks(usage', sizes')
    {
      assert b.start < |usage'| && usage'[b.start] != 0 && b == Block(b.start, sizes'[b.start]);
    }
  }

  /** The blocks a usage table records. */
  ghost function LiveBlocks(usage: seq<int>, sizes: seq<nat>): set<Block>
    requires |usage| == |sizes|
  {
    set n: nat | n < |usage| && usage[n] != 0 :: Block(n, sizes[n])
  }

  /** The cells of the blocks in `live`, which hold their users' bytes, are as they were. */
  ghost predicate LeavesAlone(ns: Nodes, ns': Nodes, live: set<Block>) {
    forall x: NodeNum :: Covered(live, x) ==> ns'[x] == ns[x]
  }

  lemma LeftAlone(ns: Nodes, live: set<Block>)
    ensures LeavesAlone(ns, ns, live)
  {}

  lemma AloneTrans(ns: Nodes, ns': Nodes, ns'': Nodes, live: set<Block>)
    requires LeavesAlone(ns, ns', live) && LeavesAlone(ns', ns'', live)
    ensures LeavesAlone(ns, ns'', live)
  {}

  /** No free block starts in a live one. */
  lemma LiveCellUnused(trees: seq<Tree>, live: set<Block>, x: NodeNum)
    requires FreeBlocks(trees) !! live && PairwiseApart(FreeBlocks(trees) + live) && Covered(live, x)
    ensures Unused(trees, x)
  {
    hide FreeBlocks, Unused;
    var a :| a in live && Contains(a, x);
    forall f | f in FreeBlocks(trees)
      ensures f.start != x
    {
      assert f in FreeBlocks(trees) + live && a in FreeBlocks(trees) + live && f != a;
      assert Buddy.Apart(f, a) && Buddy.Contains(f, f.start);
    }
    StartsUnused(trees, x);
  }

  /** Rewriting nodes of free blocks leaves the live blocks alone. */
  lemma SoundLeavesAlone(trees: seq<Tree>, live: set<Block>, ns: Nodes, ns': Nodes)
    requires Sound(FreeBlocks(trees), live)
    requires forall x: NodeNum :: Unused(trees, x) ==> ns'[x] == ns[x]
    ensures LeavesAlone(ns, ns', live)
  {
    hide FreeBlocks, Unused, Covered;
    forall x: NodeNum | Covered(live, x)
      ensures ns'[x] == ns[x]
    {
      LiveCellUnused(trees, live, x);
    }
  }

  /** So does rewriting a node of the block in hand too. */
  lemma HandLeavesAlone(trees: seq<Tree>, live: set<Block>, b: Block, ns: Nodes, ns': Nodes, n: NodeNum)
    requires InHand(FreeBlocks(trees), live, b) && Contains(b, n)
    requires forall x: NodeNum :: x != n && Unused(trees, x) ==> ns'[x] == ns[x]
    ensures LeavesAlone(ns, ns', live)
  {
    hide FreeBlocks, Unused;
    var free := FreeBlocks(trees);
    assert PairwiseApart(free + live) by {
      assert forall a :: a in free + live ==> a in free + live + {b};
    }
    forall x: NodeNum | Covered(live, x)
      ensures ns'[x] == ns[x]
    {
      LiveCellUnused(trees, live, x);
      var a :| a in live && Contains(a, x);
      assert a in free + live + {b} && b in free + live + {b} && a != b;
      assert Buddy.Apart(a, b);
    }
  }

  lemma StartInside(b: Block)
    ensures Contains(b, b.start)
  {}

  lemma HighStartInside(b: Block)
    requires b.size > 0
    ensures Contains(b, b.start + Pow2(b.size - 1))
  {}

  lemma StartsUnused(trees: seq<Tree>, n: NodeNum)
    requires forall a :: a in FreeBlocks(trees) ==> a.start != n
    ensures Unused(trees, n)
  {
    forall s: nat | s < |trees|
      ensures n !in Elems(trees[s])
    {
      FreeBlocksMember(trees, n, s);
    }
  }

  ghost predicate TreesApart(trees: seq<Tree>) {
    forall s, u :: 0 <= s < u < |trees| ==> Elems(trees[s]) !! Elems(trees[u])
  }

  ghost predicate Unused(trees: seq<Tree>, n: NodeNum) {
    forall s :: 0 <= s < |trees| ==> n !in Elems(trees[s])
  }

  /** The blocks on the free trees. */
  ghost function FreeBlocks(trees: seq<Tree>): set<Block> {
    set s: nat, n: NodeNum | s < |trees| && n in Elems(trees[s]) :: Block(n, s)
  }

  lemma FreeBlocksMember(trees: seq<Tree>, n: NodeNum, s: nat)
    requires s < |trees|
    ensures Block(n, s) in FreeBlocks(trees) <==> n in Elems(trees[s])
  {}

  lemma FreeBlocksAdd(trees: seq<Tree>, size: nat, t': Tree, n: NodeNum)
    requires size < |trees| && Elems(t') == Elems(trees[size]) + {n}
    ensures FreeBlocks(trees[size := t']) == FreeBlocks(trees) + {Block(n, size)}
    ensures TreesApart(trees) && Unused(trees, n) ==> TreesApart(trees[size := t'])
  {
    var trees' := trees[size := t'];
    forall b | b in FreeBlocks(trees) + {Block(n, size)}
      ensures b in FreeBlocks(trees')
    {
      assert b.size < |trees| && b.start in Elems(trees'[b.size]);
    }
  }

  lemma FreeBlocksRemove(trees: seq<Tree>, size: nat, t': Tree, n: NodeRef)
    requires size < |trees| && Elems(t') == Elems(trees[size]) - {n}
    ensures FreeBlocks(trees[size := t']) == FreeBlocks(trees) - {Block(n, size)}
    ensures Block(n, size) in FreeBlocks(trees) <==> n in Elems(trees[size])
    ensures TreesApart(trees) ==> TreesApart(trees[size := t'])
  {
    var trees' := trees[size := t'];
    forall b | b in FreeBlocks(trees) - {Block(n, size)}
      ensures b in FreeBlocks(trees')
    {
      assert b.size < |trees| && b.start in Elems(trees'[b.size]);
    }
  }

  /** Rewriting nodes of one tree only leaves the other trees as they are. */
  lemma OtherTreesFrame(ns: Nodes, ns': Nodes, hs: seq<NodeRef>, hs': seq<NodeRef>, trees: seq<Tree>, size: nat, touched: set<NodeNum>)
    requires |hs| == |hs'| == |trees| && size < |trees|
    requires forall s :: 0 <= s < |trees| ==> Spells(ns, hs[s], trees[s])
    requires forall s :: 0 <= s < |trees| && s != size ==> hs'[s] == hs[s]
    requires forall x: NodeNum :: x !in touched ==> ns'[x] == ns[x]
    requires forall s :: 0 <= s < |trees| && s != size ==> Elems(trees[s]) !! touched
    ensures forall s :: 0 <= s < |trees| && s != size ==> Spells(ns', hs'[s], trees[s])
  {
    forall s | 0 <= s < |trees| && s != size
      ensures Spells(ns', hs'[s], trees[s])
    {
      SpellsFrame(ns, ns', hs[s], trees[s]);
    }
  }

  lemma RootOutranked(y: NodeNum, t: Tree)
    requires t.Node? && Score(t.num) < Score(y)
    ensures Outranks(Score(y), t)
  {}

  lemma RewriteLinkFrame(nodes: Nodes, c: Path, v: NodeRef)
    ensures forall x: NodeNum :: x !in PathElems(c) ==> StoreNodes(nodes, LinkOf(c), v)[x] == nodes[x]
    ensures StoreNodes(nodes, LinkOf(c), v)[0] == nodes[0]
  {
    assert !c.Top? ==> c.num in PathElems(c);
  }
}