/**
 Free trees laid out in the node array, and a cursor into such a tree: the path from the
 root down to one link of the array, with everything that hangs off the path.
 */
module FreeTreeLinks {
  import opened Bits
  import opened FreeTree

  /** A 16-bit node number; 0 is the null link. */
  type NodeRef = n: int | 0 <= n < NODE_COUNT

  datatype MemNode = MemNode(prev: NodeRef, next: NodeRef)

  type Nodes = s: seq<MemNode> | |s| == NODE_COUNT
    witness seq(NODE_COUNT, _ => MemNode(0, 0))

  /** What a pointer to a link may point at: the head of the tree or a link of a node. */
  datatype Link = Head | PrevOf(num: NodeNum) | NextOf(num: NodeNum)

  function Load(nodes: Nodes, head: NodeRef, link: Link): NodeRef {
    match link
    case Head => head
    case PrevOf(n) => nodes[n].prev
    case NextOf(n) => nodes[n].next
  }

  function StoreNodes(nodes: Nodes, link: Link, v: NodeRef): Nodes {
    match link
    case Head => nodes
    case PrevOf(n) => nodes[n := nodes[n].(prev := v)]
    case NextOf(n) => nodes[n := nodes[n].(next := v)]
  }

  function StoreHead(head: NodeRef, link: Link, v: NodeRef): NodeRef {
    if link.Head? then v else head
  }

  /** The links starting from `root` spell out `t`. */
  ghost predicate Spells(nodes: Nodes, root: NodeRef, t: Tree)
    decreases t
  {
    match t
    case Leaf => root == 0
    case Node(n, l, r) => root == n && Spells(nodes, nodes[n].prev, l) && Spells(nodes, nodes[n].next, r)
  }

  lemma {:induction false} SpellsFrame(before: Nodes, after: Nodes, root: NodeRef, t: Tree)
    requires Spells(before, root, t)
    requires forall x :: x in Elems(t) ==> after[x] == before[x]
    ensures Spells(after, root, t)
    decreases t
  {
    if t.Node? {
      assert after[t.num] == before[t.num] by { assert t.num in Elems(t); }
      SpellsFrame(before, after, before[t.num].prev, t.prev);
      SpellsFrame(before, after, before[t.num].next, t.next);
    }
  }

  // ---------------------------------------------------------------- the cursor

  /**
   The path above a link, innermost step first: the node passed, the sibling subtree left
   behind, and the pivot of the node's position.
   */
  datatype Path =
    | Top
    | ViaPrev(num: NodeNum, sibling: Tree, pivot: int, outer: Path)
    | ViaNext(num: NodeNum, sibling: Tree, pivot: int, outer: Path)

  function LinkOf(c: Path): Link {
    match c
    case Top => Head
    case ViaPrev(n, _, _, _) => PrevOf(n)
    case ViaNext(n, _, _, _) => NextOf(n)
  }

  /** The whole tree, with `t` hanging from the cursor's link. */
  function Plug(c: Path, t: Tree): Tree {
    match c
    case Top => t
    case ViaPrev(n, r, _, outer) => Plug(outer, Node(n, t, r))
    case ViaNext(n, l, _, outer) => Plug(outer, Node(n, l, t))
  }

  function PathElems(c: Path): set<NodeNum> {
    if c.Top? then {} else {c.num} + Elems(c.sibling) + PathElems(c.outer)
  }

  predicate RanksBelow(n: NodeNum, c: Path) {
    c.Top? || Score(n) < Score(c.num)
  }

  /** Everything along the path is in its place when the cursor's link is at pivot `p`, level `k`. */
  ghost predicate LegalPath(c: Path, p: int, k: nat)
    decreases c
  {
    if c.Top? then p == 0 && k == NODE_BITS
    else
      && p == (if c.ViaPrev? then PrevPivot(c.pivot, k) else NextPivot(c.pivot, k))
      && Legal(c.sibling, if c.ViaPrev? then NextPivot(c.pivot, k) else PrevPivot(c.pivot, k), k)
      && Outranks(Score(c.num), c.sibling)
      && InRange(c.num, c.pivot, k + 1) && RanksBelow(c.num, c.outer)
      && LegalPath(c.outer, c.pivot, k + 1)
  }

  /** No node occurs twice along the path. */
  ghost predicate NodesDistinct(c: Path) {
    !c.Top? ==>
      && c.num !in Elems(c.sibling) && c.num !in PathElems(c.outer)
      && Elems(c.sibling) !! PathElems(c.outer)
      && NodesDistinct(c.outer)
  }

  /** The links along the path spell it out; the cursor's own link may hold anything. */
  ghost predicate SpellsPath(nodes: Nodes, head: NodeRef, c: Path) {
    match c
    case Top => true
    case ViaPrev(n, r, _, outer) =>
      Spells(nodes, nodes[n].next, r) && Load(nodes, head, LinkOf(outer)) == n && SpellsPath(nodes, head, outer)
    case ViaNext(n, l, _, outer) =>
      Spells(nodes, nodes[n].prev, l) && Load(nodes, head, LinkOf(outer)) == n && SpellsPath(nodes, head, outer)
  }

  /** A cursor at pivot `p`, level `k`, in good order. */
  ghost predicate Cursor(nodes: Nodes, head: NodeRef, c: Path, p: int, k: nat) {
    SpellsPath(nodes, head, c) && LegalPath(c, p, k) && NodesDistinct(c) && IsPivot(p, k)
  }

  lemma {:induction false} PlugSpells(nodes: Nodes, head: NodeRef, c: Path, t: Tree)
    requires SpellsPath(nodes, head, c) && Spells(nodes, Load(nodes, head, LinkOf(c)), t)
    ensures Spells(nodes, head, Plug(c, t))
  {
    match c
    case Top =>
    case ViaPrev(n, r, _, outer) => PlugSpells(nodes, head, outer, Node(n, t, r));
    case ViaNext(n, l, _, outer) => PlugSpells(nodes, head, outer, Node(n, l, t));
  }

  lemma {:induction false} PlugElems(c: Path, t: Tree)
    ensures Elems(Plug(c, t)) == PathElems(c) + Elems(t)
  {
    match c
    case Top =>
    case ViaPrev(n, r, _, outer) => PlugElems(outer, Node(n, t, r));
    case ViaNext(n, l, _, outer) => PlugElems(outer, Node(n, l, t));
  }

  /** The tree one level up, with `t` at the cursor's link. */
  ghost function Join(c: Path, t: Tree): Tree
    requires !c.Top?
  {
    if c.ViaPrev? then Node(c.num, t, c.sibling) else Node(c.num, c.sibling, t)
  }

  lemma {:induction false} PlugLegal(c: Path, t: Tree, p: int, k: nat)
    requires LegalPath(c, p, k) && Legal(t, p, k)
    requires t.Node? ==> RanksBelow(t.num, c)
    ensures LegalRoot(Plug(c, t))
    decreases c
  {
    if !c.Top? {
      PlugLegal(c.outer, Join(c, t), c.pivot, k + 1);
    }
  }

  lemma {:induction false} SpellsPathFrame(before: Nodes, after: Nodes, h: NodeRef, h': NodeRef, c: Path)
    requires SpellsPath(before, h, c)
    requires h == h'
    requires forall x :: x in PathElems(c) ==> after[x] == before[x]
    ensures SpellsPath(after, h', c)
  {
    if !c.Top? {
      assert c.num in PathElems(c);
      if c.ViaPrev? {
        SpellsFrame(before, after, before[c.num].next, c.sibling);
      } else {
        SpellsFrame(before, after, before[c.num].prev, c.sibling);
      }
      if !c.outer.Top? {
        assert c.outer.num in PathElems(c.outer);
      }
      SpellsPathFrame(before, after, h, h', c.outer);
    }
  }

  /** Storing through the cursor's link leaves the path as it was. */
  lemma StoreAtCursor(nodes: Nodes, head: NodeRef, c: Path, v: NodeRef)
    requires SpellsPath(nodes, head, c) && NodesDistinct(c)
    ensures SpellsPath(StoreNodes(nodes, LinkOf(c), v), StoreHead(head, LinkOf(c), v), c)
    ensures Load(StoreNodes(nodes, LinkOf(c), v), StoreHead(head, LinkOf(c), v), LinkOf(c)) == v
    ensures forall x: NodeNum :: x !in PathElems(c) ==> StoreNodes(nodes, LinkOf(c), v)[x] == nodes[x]
    ensures StoreNodes(nodes, LinkOf(c), v)[0] == nodes[0]
  {
    if !c.Top? {
      var after := StoreNodes(nodes, LinkOf(c), v);
      assert c.num in PathElems(c);
      if c.ViaPrev? {
        SpellsFrame(nodes, after, nodes[c.num].next, c.sibling);
      } else {
        SpellsFrame(nodes, after, nodes[c.num].prev, c.sibling);
      }
      if !c.outer.Top? {
        assert c.outer.num in PathElems(c.outer);
      }
      SpellsPathFrame(nodes, after, head, head, c.outer);
    }
  }

  /** The path one step further down `t`, at pivot `p`, towards `x`. */
  ghost function StepPath(c: Path, t: Tree, p: int, x: int): Path
    requires t.Node?
  {
    if x > p then ViaNext(t.num, t.prev, p, c) else ViaPrev(t.num, t.next, p, c)
  }

  ghost function StepTree(t: Tree, p: int, x: int): Tree
    requires t.Node?
  {
    if x > p then t.next else t.prev
  }

  ghost function StepPivot(p: int, k: nat, x: int): int {
    if x > p then NextPivot(p, k) else PrevPivot(p, k)
  }

  lemma StepHasRoom(p: int, k: nat, x: int)
    requires InRange(x, p, k) && x != p
    ensures k > 0 && InRange(x, StepPivot(p, k - 1, x), k - 1)
  {}

  lemma StepElems(c: Path, t: Tree, p: int, x: int)
    requires t.Node? && NodesDistinct(c) && PathElems(c) !! Elems(t)
    requires t.num !in Elems(t.prev) && t.num !in Elems(t.next) && Elems(t.prev) !! Elems(t.next)
    ensures var c', t' := StepPath(c, t, p, x), StepTree(t, p, x);
      && NodesDistinct(c') && PathElems(c') !! Elems(t')
      && PathElems(c') + Elems(t') == PathElems(c) + Elems(t)
  {
    assert Elems(t) == Elems(t.prev) + Elems(t.next) + {t.num};
  }

  lemma StepLegal(c: Path, t: Tree, p: int, k: nat, x: int)
    requires LegalPath(c, p, k) && IsPivot(p, k) && t.Node? && Legal(t, p, k)
    requires RanksBelow(t.num, c) && InRange(x, p, k) && x != p
    ensures k > 0
    ensures var c', t', p' := StepPath(c, t, p, x), StepTree(t, p, x), StepPivot(p, k - 1, x);
      && LegalPath(c', p', k - 1) && IsPivot(p', k - 1)
      && Legal(t', p', k - 1) && InRange(x, p', k - 1) && Outranks(Score(c'.num), t')
  {
    StepHasRoom(p, k, x);
    ChildPivots(p, k - 1);
  }

  /** One step down a tree hanging from the cursor. */
  lemma Descend(nodes: Nodes, head: NodeRef, c: Path, t: Tree, p: int, k: nat, x: int)
    requires Cursor(nodes, head, c, p, k) && t.Node? && Legal(t, p, k)
    requires Spells(nodes, Load(nodes, head, LinkOf(c)), t)
    requires RanksBelow(t.num, c) && PathElems(c) !! Elems(t)
    requires InRange(x, p, k) && x != p
    ensures k > 0
    ensures var c', t', p' := StepPath(c, t, p, x), StepTree(t, p, x), StepPivot(p, k - 1, x);
      && Cursor(nodes, head, c', p', k - 1)
      && Legal(t', p', k - 1) && InRange(x, p', k - 1)
      && Spells(nodes, Load(nodes, head, LinkOf(c')), t')
      && Outranks(Score(c'.num), t')
      && PathElems(c') !! Elems(t') && PathElems(c') + Elems(t') == PathElems(c) + Elems(t)
  {
    StepLegal(c, t, p, k, x);
    StepElems(c, t, p, x) by { LegalDistinct(t, p, k); }
    var c' := StepPath(c, t, p, x);
    assert SpellsPath(nodes, head, c');
  }

  /** The node array after a store of `y` through the cursor's link and a rewrite of node `y`. */
  function Rewritten(nodes: Nodes, c: Path, y: NodeNum, v: MemNode): Nodes {
    StoreNodes(nodes, LinkOf(c), y)[y := v]
  }

  lemma RewriteFrame(nodes: Nodes, c: Path, y: NodeNum, v: MemNode)
    ensures forall x: NodeNum :: x !in PathElems(c) && x != y ==> Rewritten(nodes, c, y, v)[x] == nodes[x]
    ensures Rewritten(nodes, c, y, v)[0] == nodes[0]
  {
    assert !c.Top? ==> c.num in PathElems(c);
  }

  lemma StoreAndRewrite(nodes: Nodes, head: NodeRef, c: Path, y: NodeNum, v: MemNode)
    requires SpellsPath(nodes, head, c) && NodesDistinct(c) && y !in PathElems(c)
    ensures var after, head' := Rewritten(nodes, c, y, v), StoreHead(head, LinkOf(c), y);
      && SpellsPath(after, head', c) && Load(after, head', LinkOf(c)) == y && after[y] == v
      && after[0] == nodes[0]
      && forall x: NodeNum :: x !in PathElems(c) && x != y ==> after[x] == nodes[x]
  {
    var mid := StoreNodes(nodes, LinkOf(c), y);
    var head' := StoreHead(head, LinkOf(c), y);
    StoreAtCursor(nodes, head, c, y);
    SpellsPathFrame(mid, mid[y := v], head', head', c);
    assert !c.Top? ==> c.num in PathElems(c);
  }

  /** A single node put at an empty place. */
  lemma PlaceLeaf(nodes: Nodes, head: NodeRef, c: Path, p: int, k: nat, y: NodeNum)
    requires Cursor(nodes, head, c, p, k) && InRange(y, p, k) && RanksBelow(y, c) && y !in PathElems(c)
    ensures var t := Plug(c, Node(y, Leaf, Leaf));
      && Spells(Rewritten(nodes, c, y, MemNode(0, 0)), StoreHead(head, LinkOf(c), y), t)
      && LegalRoot(t) && Elems(t) == PathElems(c) + {y}
  {
    var t := Node(y, Leaf, Leaf);
    var after, head' := Rewritten(nodes, c, y, MemNode(0, 0)), StoreHead(head, LinkOf(c), y);
    assert SpellsPath(after, head', c) && Spells(after, Load(after, head', LinkOf(c)), t) by {
      StoreAndRewrite(nodes, head, c, y, MemNode(0, 0));
    }
    PlugSpells(after, head', c, t);
    assert Legal(t, p, k);
    PlugLegal(c, t, p, k);
    PlugElems(c, t);
  }

  /** Putting `y` where a lower-ranking tree hung: `y` takes over the root's links. */
  lemma Displace(nodes: Nodes, head: NodeRef, c: Path, t: Tree, p: int, k: nat, y: NodeNum)
    requires Cursor(nodes, head, c, p, k) && t.Node? && Legal(t, p, k)
    requires Spells(nodes, Load(nodes, head, LinkOf(c)), t)
    requires PathElems(c) !! Elems(t)
    requires InRange(y, p, k) && y !in PathElems(c) && y !in Elems(t) && Score(t.num) < Score(y)
    ensures var after, head' := Rewritten(nodes, c, y, nodes[t.num]), StoreHead(head, LinkOf(c), y);
      var t' := Node(y, t.prev, t.next);
      && Cursor(after, head', c, p, k) && Legal(t', p, k)
      && Load(after, head', LinkOf(c)) == y && Spells(after, y, t')
  {
    assert t.num in Elems(t);
    StoreAndRewrite(nodes, head, c, y, nodes[t.num]);
    var after := Rewritten(nodes, c, y, nodes[t.num]);
    SpellsFrame(nodes, after, nodes[t.num].prev, t.prev);
    SpellsFrame(nodes, after, nodes[t.num].next, t.next);
    DisplaceLegal(t, p, k, y);
  }

  lemma DisplaceLegal(t: Tree, p: int, k: nat, y: NodeNum)
    requires t.Node? && Legal(t, p, k) && InRange(y, p, k) && Score(t.num) < Score(y)
    ensures Legal(Node(y, t.prev, t.next), p, k)
  {}

  // ---------------------------------------------------------------- closing a gap

  /** Two subtrees `l` and `r`, with their links in `val`, that have lost their parent at the cursor. */
  ghost predicate Orphans(nodes: Nodes, val: MemNode, l: Tree, r: Tree, c: Path, p: int, k: nat) {
    && Spells(nodes, val.prev, l) && Spells(nodes, val.next, r)
    && LegalPair(l, r, p, k)
    && (l.Node? ==> RanksBelow(l.num, c)) && (r.Node? ==> RanksBelow(r.num, c))
    && Elems(l) !! Elems(r) && PathElems(c) !! Elems(l) && PathElems(c) !! Elems(r)
  }

  /** The path with the chosen child moved up into the gap at pivot `p`. */
  ghost function SiftPath(c: Path, l: Tree, r: Tree, p: int, fromPrev: bool): Path
    requires if fromPrev then l.Node? else r.Node?
  {
    if fromPrev then ViaPrev(l.num, r, p, c) else ViaNext(r.num, l, p, c)
  }

  ghost function SiftPivot(p: int, k: nat, fromPrev: bool): int {
    if fromPrev then PrevPivot(p, k) else NextPivot(p, k)
  }

  lemma SiftPathLegal(c: Path, l: Tree, r: Tree, p: int, k: nat, fromPrev: bool)
    requires LegalPath(c, p, k) && IsPivot(p, k) && LegalPair(l, r, p, k)
    requires if fromPrev then l.Node? && RanksBelow(l.num, c) && Outranks(Score(l.num), r)
             else r.Node? && RanksBelow(r.num, c) && Outranks(Score(r.num), l)
    ensures k > 0
    ensures var p' := SiftPivot(p, k - 1, fromPrev);
      LegalPath(SiftPath(c, l, r, p, fromPrev), p', k - 1) && IsPivot(p', k - 1)
  {
    ChildPivots(p, k - 1);
  }

  lemma SiftSpells(nodes: Nodes, head: NodeRef, c: Path, val: MemNode, m: Tree, other: Tree, root: NodeRef)
    requires m.Node? && SpellsPath(nodes, head, c) && NodesDistinct(c) && Spells(nodes, root, other)
    requires Spells(nodes, m.num, m) && PathElems(c) !! Elems(m) && PathElems(c) !! Elems(other)
    requires Elems(m) !! Elems(other) && m.num !in Elems(m.prev) && m.num !in Elems(m.next)
    ensures var after, head' := Rewritten(nodes, c, m.num, val), StoreHead(head, LinkOf(c), m.num);
      && SpellsPath(after, head', c) && Load(after, head', LinkOf(c)) == m.num && after[m.num] == val
      && Spells(after, nodes[m.num].prev, m.prev) && Spells(after, nodes[m.num].next, m.next)
      && Spells(after, root, other)
  {
    assert m.num in Elems(m);
    StoreAndRewrite(nodes, head, c, m.num, val);
    var after := Rewritten(nodes, c, m.num, val);
    SpellsFrame(nodes, after, nodes[m.num].prev, m.prev);
    SpellsFrame(nodes, after, nodes[m.num].next, m.next);
    SpellsFrame(nodes, after, root, other);
  }

  lemma SiftElems(c: Path, l: Tree, r: Tree, p: int, fromPrev: bool)
    requires if fromPrev then l.Node? else r.Node?
    requires NodesDistinct(c) && Elems(l) !! Elems(r) && PathElems(c) !! Elems(l) && PathElems(c) !! Elems(r)
    requires var m := if fromPrev then l else r;
      m.num !in Elems(m.prev) && m.num !in Elems(m.next) && Elems(m.prev) !! Elems(m.next)
    ensures var m, c' := if fromPrev then l else r, SiftPath(c, l, r, p, fromPrev);
      && NodesDistinct(c') && PathElems(c') !! Elems(m.prev) && PathElems(c') !! Elems(m.next)
      && PathElems(c') + Elems(m.prev) + Elems(m.next) == PathElems(c) + Elems(l) + Elems(r)
  {
    var m := if fromPrev then l else r;
    assert Elems(m) == Elems(m.prev) + Elems(m.next) + {m.num};
  }

  /** The legal half of a sift: places and sets. */
  lemma SiftLegal(c: Path, l: Tree, r: Tree, p: int, k: nat, fromPrev: bool)
    requires LegalPath(c, p, k) && IsPivot(p, k) && NodesDistinct(c) && LegalPair(l, r, p, k)
    requires Elems(l) !! Elems(r) && PathElems(c) !! Elems(l) && PathElems(c) !! Elems(r)
    requires if fromPrev then l.Node? && RanksBelow(l.num, c) && Outranks(Score(l.num), r)
             else r.Node? && RanksBelow(r.num, c) && Outranks(Score(r.num), l)
    ensures k > 0
    ensures var m := if fromPrev then l else r;
      var c', p' := SiftPath(c, l, r, p, fromPrev), SiftPivot(p, k - 1, fromPrev);
      && LegalPath(c', p', k - 1) && IsPivot(p', k - 1) && NodesDistinct(c') && LegalPair(m.prev, m.next, p', k - 1)
      && Outranks(Score(c'.num), m.prev) && Outranks(Score(c'.num), m.next)
      && m.num !in Elems(m.prev) && m.num !in Elems(m.next)
      && Elems(m.prev) !! Elems(m.next) && PathElems(c') !! Elems(m.prev) && PathElems(c') !! Elems(m.next)
      && PathElems(c') + Elems(m.prev) + Elems(m.next) == PathElems(c) + Elems(l) + Elems(r)
  {
    var m := if fromPrev then l else r;
    SiftPathLegal(c, l, r, p, k, fromPrev);
    assert m.num !in Elems(m.prev) && m.num !in Elems(m.next) && Elems(m.prev) !! Elems(m.next) by {
      LegalDistinct(m, SiftPivot(p, k - 1, fromPrev), k - 1);
    }
    SiftElems(c, l, r, p, fromPrev);
  }

  /** The higher-ranking orphan root `m` fills the gap and leaves a gap of its own. */
  lemma SiftUp(nodes: Nodes, head: NodeRef, c: Path, val: MemNode, l: Tree, r: Tree, p: int, k: nat, fromPrev: bool)
    requires Cursor(nodes, head, c, p, k) && Orphans(nodes, val, l, r, c, p, k)
    requires if fromPrev then l.Node? && Outranks(Score(l.num), r) else r.Node? && Outranks(Score(r.num), l)
    ensures k > 0
    ensures var m := if fromPrev then l else r;
      var after, head' := Rewritten(nodes, c, m.num, val), StoreHead(head, LinkOf(c), m.num);
      var c', p' := SiftPath(c, l, r, p, fromPrev), SiftPivot(p, k - 1, fromPrev);
      && Cursor(after, head', c', p', k - 1) && Orphans(after, nodes[m.num], m.prev, m.next, c', p', k - 1)
      && PathElems(c') + Elems(m.prev) + Elems(m.next) == PathElems(c) + Elems(l) + Elems(r)
  {
    SiftLegal(c, l, r, p, k, fromPrev);
    if fromPrev {
      SiftSpells(nodes, head, c, val, l, r, val.next);
    } else {
      SiftSpells(nodes, head, c, val, r, l, val.prev);
    }
  }

  /** With no orphan left the gap is closed by a null link. */
  lemma CloseGap(nodes: Nodes, head: NodeRef, c: Path, p: int, k: nat)
    requires Cursor(nodes, head, c, p, k)
    ensures Spells(StoreNodes(nodes, LinkOf(c), 0), StoreHead(head, LinkOf(c), 0), Plug(c, Leaf))
    ensures LegalRoot(Plug(c, Leaf)) && Elems(Plug(c, Leaf)) == PathElems(c)
  {
    StoreAtCursor(nodes, head, c, 0);
    PlugSpells(StoreNodes(nodes, LinkOf(c), 0), StoreHead(head, LinkOf(c), 0), c, Leaf);
    PlugLegal(c, Leaf, p, k);
    PlugElems(c, Leaf);
  }

  // ---------------------------------------------------------------- insertion, step by step

  /** `y` belongs somewhere in the tree `t` that hangs from the cursor. */
  ghost predicate Inserting(nodes: Nodes, head: NodeRef, c: Path, t: Tree, p: int, k: nat, y: NodeNum) {
    && Cursor(nodes, head, c, p, k) && Legal(t, p, k) && Spells(nodes, Load(nodes, head, LinkOf(c)), t)
    && (t.Node? ==> RanksBelow(t.num, c)) && PathElems(c) !! Elems(t)
    && InRange(y, p, k) && RanksBelow(y, c) && y !in PathElems(c) && y !in Elems(t)
  }

  /** A tree all of whose nodes outrank `y`'s place lets `y` through, and `y` is not its pivot. */
  lemma InsertBelow(nodes: Nodes, head: NodeRef, c: Path, t: Tree, p: int, k: nat, y: NodeNum)
    requires Inserting(nodes, head, c, t, p, k, y) && t.Node? && Score(t.num) >= Score(y)
    ensures y != p && k > 0
    ensures Inserting(nodes, head, StepPath(c, t, p, y), StepTree(t, p, y), StepPivot(p, k - 1, y), k - 1, y)
    ensures PathElems(StepPath(c, t, p, y)) + Elems(StepTree(t, p, y)) == PathElems(c) + Elems(t)
  {
    assert t.num in Elems(t);
    ScoreInjective(t.num, y);
    if y == p {
      PivotOutranks(y, k, t.num);
    }
    Descend(nodes, head, c, t, p, k, y);
  }

  /** The pushed-out root is not the pivot of the place it is pushed out of. */
  lemma PushedIsNotPivot(n: NodeNum, y: NodeNum, p: int, k: nat)
    requires IsPivot(p, k) && InRange(n, p, k) && InRange(y, p, k) && Score(n) < Score(y)
    ensures n != p
  {
    if n == p {
      PivotOutranks(n, k, y);
    }
  }

  lemma PushElems(c: Path, t: Tree, p: int, y: NodeNum)
    requires t.Node? && PathElems(c) !! Elems(t) && y !in PathElems(c) && y !in Elems(t)
    requires t.num !in Elems(t.prev) && t.num !in Elems(t.next) && Elems(t.prev) !! Elems(t.next)
    ensures var t' := Node(y, t.prev, t.next);
      var c', u := StepPath(c, t', p, t.num), StepTree(t', p, t.num);
      && PathElems(c) !! Elems(t') && t.num !in PathElems(c') && t.num !in Elems(u)
      && PathElems(c') + Elems(u) + {t.num} == PathElems(c) + Elems(t) + {y}
  {
    assert Elems(t) == Elems(t.prev) + Elems(t.next) + {t.num};
    assert Elems(Node(y, t.prev, t.next)) == Elems(t.prev) + Elems(t.next) + {y};
  }

  /** `y` takes the place of the root of `t`, and the old root has to go further down. */
  lemma PushOut(nodes: Nodes, head: NodeRef, c: Path, t: Tree, p: int, k: nat, y: NodeNum)
    requires Inserting(nodes, head, c, t, p, k, y) && t.Node? && Score(t.num) < Score(y)
    ensures t.num != p && k > 0
    ensures var after, head', t' := Rewritten(nodes, c, y, nodes[t.num]), StoreHead(head, LinkOf(c), y), Node(y, t.prev, t.next);
      var c', u := StepPath(c, t', p, t.num), StepTree(t', p, t.num);
      && Inserting(after, head', c', u, StepPivot(p, k - 1, t.num), k - 1, t.num)
      && Outranks(Score(t.num), u)
      && PathElems(c') + Elems(u) + {t.num} == PathElems(c) + Elems(t) + {y}
  {
    var after, head', t' := Rewritten(nodes, c, y, nodes[t.num]), StoreHead(head, LinkOf(c), y), Node(y, t.prev, t.next);
    PushedIsNotPivot(t.num, y, p, k);
    PushElems(c, t, p, y) by { LegalDistinct(t, p, k); }
    Displace(nodes, head, c, t, p, k, y);
    Descend(after, head', c, t', p, k, t.num);
  }

  lemma StartInserting(nodes: Nodes, head: NodeRef, t: Tree, y: NodeNum)
    requires Spells(nodes, head, t) && LegalRoot(t) && y !in Elems(t)
    ensures Inserting(nodes, head, Top, t, 0, NODE_BITS, y) && PathElems(Top) == {} && Pow2(NODE_BITS) == NODE_COUNT
  {
    Pow2Literals();
  }

  /** The value in the cursor's link tells whether anything hangs from it, and what its root is. */
  lemma RootAtInsertion(nodes: Nodes, head: NodeRef, c: Path, t: Tree, p: int, k: nat, y: NodeNum)
    requires Inserting(nodes, head, c, t, p, k, y)
    ensures var node := Load(nodes, head, LinkOf(c));
      && (node == 0 <==> t.Leaf?)
      && (t.Node? ==> t.num == node && node in Elems(t) && node != y)
      && (t.Leaf? ==> Elems(t) == {})
      && Cursor(nodes, head, c, p, k) && InRange(y, p, k) && RanksBelow(y, c) && y !in PathElems(c)
  {}

  lemma HalfLevel(k: nat)
    requires k > 0
    ensures Pow2(k) / 2 == Pow2(k - 1)
  {}

  // ---------------------------------------------------------------- search and removal, step by step

  /** If `x` is in the tree at all, it is in the tree `t` that hangs from the cursor. */
  ghost predicate Searching(nodes: Nodes, head: NodeRef, c: Path, t: Tree, p: int, k: nat, x: NodeRef) {
    && Cursor(nodes, head, c, p, k) && Legal(t, p, k) && Spells(nodes, Load(nodes, head, LinkOf(c)), t)
    && (t.Node? ==> RanksBelow(t.num, c)) && PathElems(c) !! Elems(t)
    && InRange(x, p, k)
  }

  lemma StartSearching(nodes: Nodes, head: NodeRef, t: Tree, x: NodeRef)
    requires Spells(nodes, head, t) && LegalRoot(t)
    ensures Searching(nodes, head, Top, t, 0, NODE_BITS, x) && PathElems(Top) == {} && Pow2(NODE_BITS) == NODE_COUNT
  {
    Pow2Literals();
  }

  lemma RootAtSearch(nodes: Nodes, head: NodeRef, c: Path, t: Tree, p: int, k: nat, x: NodeRef)
    requires Searching(nodes, head, c, t, p, k, x)
    ensures var node := Load(nodes, head, LinkOf(c));
      && (node == 0 <==> t.Leaf?)
      && (t.Node? ==> t.num == node && node in Elems(t))
      && (t.Leaf? ==> Elems(t) == {})
  {}

  /** A search for the pivot of a position ends at the position's root. */
  lemma PivotMissing(nodes: Nodes, head: NodeRef, c: Path, t: Tree, p: int, k: nat, x: NodeRef)
    requires Searching(nodes, head, c, t, p, k, x) && t.Node? && t.num != x && x == p
    ensures x !in Elems(t)
  {
    if p > 0 {
      PivotAtRoot(t, p, k);
    }
  }

  lemma SearchBelow(nodes: Nodes, head: NodeRef, c: Path, t: Tree, p: int, k: nat, x: NodeRef)
    requires Searching(nodes, head, c, t, p, k, x) && t.Node? && t.num != x && x != p
    ensures k > 0
    ensures Searching(nodes, head, StepPath(c, t, p, x), StepTree(t, p, x), StepPivot(p, k - 1, x), k - 1, x)
    ensures PathElems(StepPath(c, t, p, x)) + Elems(StepTree(t, p, x)) == PathElems(c) + Elems(t)
    ensures x in Elems(t) <==> x in Elems(StepTree(t, p, x))
  {
    Descend(nodes, head, c, t, p, k, x);
    LegalSides(t, p, k);
  }

  /** Taking out the root of `t` leaves its subtrees orphaned at the cursor. */
  lemma Orphaned(nodes: Nodes, head: NodeRef, c: Path, t: Tree, p: int, k: nat, x: NodeRef)
    requires Searching(nodes, head, c, t, p, k, x) && t.Node?
    ensures Cursor(nodes, head, c, p, k) && Orphans(nodes, nodes[t.num], t.prev, t.next, c, p, k)
    ensures PathElems(c) + Elems(t.prev) + Elems(t.next) == PathElems(c) + Elems(t) - {t.num}
  {
    LegalDistinct(t, p, k);
    assert Elems(t) == Elems(t.prev) + Elems(t.next) + {t.num};
    if !c.Top? {
      OutrankedBelow(c, t);
    }
  }

  lemma OutrankedBelow(c: Path, t: Tree)
    requires !c.Top? && t.Node? && RanksBelow(t.num, c) && Outranks(Score(t.num), t.prev) && Outranks(Score(t.num), t.next)
    ensures (t.prev.Node? ==> RanksBelow(t.prev.num, c)) && (t.next.Node? ==> RanksBelow(t.next.num, c))
  {}

  lemma OrphanRoots(nodes: Nodes, val: MemNode, l: Tree, r: Tree, c: Path, p: int, k: nat)
    requires Orphans(nodes, val, l, r, c, p, k)
    ensures (val.prev == 0 <==> l.Leaf?) && (val.next == 0 <==> r.Leaf?)
    ensures l.Node? ==> l.num == val.prev && l.num !in PathElems(c) && l.num in Elems(l)
    ensures r.Node? ==> r.num == val.next && r.num !in PathElems(c) && r.num in Elems(r)
    ensures l.Leaf? ==> Elems(l) == {}
    ensures r.Leaf? ==> Elems(r) == {}
    ensures l.Node? && r.Node? ==> l.num != r.num
    ensures l.Node? && r.Node? && Score(l.num) >= Score(r.num) ==> Outranks(Score(l.num), r)
    ensures l.Node? && r.Node? && Score(l.num) < Score(r.num) ==> Outranks(Score(r.num), l)
    ensures l.Leaf? ==> forall s :: Outranks(s, l)
    ensures r.Leaf? ==> forall s :: Outranks(s, r)
  {
    if l.Node? && r.Node? {
      assert l.num in Elems(l) && r.num in Elems(r);
      ScoreInjective(l.num, r.num);
    }
  }
}
