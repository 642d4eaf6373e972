/**
 The shape of one free tree. A node's place is both a trie by address bits (the pivot
 address and the level of its position) and a heap by node score.
 */
module FreeTree {
  import opened Bits
  import opened NodeScore

  const NODE_BITS: nat := 16
  const NODE_COUNT: nat := 65536

  type NodeNum = n: int | 0 < n < NODE_COUNT witness 1

  datatype Tree = Leaf | Node(num: NodeNum, prev: Tree, next: Tree)

  /** The score of a block address; larger scores sit nearer the root. */
  function Score(num: NodeNum): int {
    PostOrder(NODE_COUNT - num)
  }

  function Elems(t: Tree): set<NodeNum> {
    match t
    case Leaf => {}
    case Node(n, l, r) => Elems(l) + Elems(r) + {n}
  }

  /** Number of nodes in the tree. */
  function Size(t: Tree): nat {
    match t
    case Leaf => 0
    case Node(_, l, r) => Size(l) + Size(r) + 1
  }

  /** `p` is the pivot address of some position at level `k`: the root, or an odd multiple of `2^k`. */
  ghost predicate IsPivot(p: int, k: nat) {
    if k == NODE_BITS then p == 0
    else k < NODE_BITS && exists a: int :: IsOddMultiple(p, a, k)
  }

  predicate IsOddMultiple(p: int, a: int, k: nat) {
    p == Shift(2 * a + 1, k)
  }

  /** Pivots of the positions below the position with pivot `p` at level `k + 1`. */
  function PrevPivot(p: int, k: nat): int {
    p - Pow2(k)
  }

  function NextPivot(p: int, k: nat): int {
    p + Pow2(k)
  }

  /** The addresses that may sit at or below the position with pivot `p` at level `k`. */
  predicate InRange(n: int, p: int, k: nat) {
    p - Pow2(k) < n < p + Pow2(k)
  }

  predicate Outranks(s: int, t: Tree) {
    t.Leaf? || Score(t.num) < s
  }

  /** `t` is a legal subtree for the position with pivot `p` at level `k`. */
  predicate Legal(t: Tree, p: int, k: nat)
    decreases k, 1
  {
    match t
    case Leaf => true
    case Node(n, l, r) =>
      && InRange(n, p, k)
      && Outranks(Score(n), l) && Outranks(Score(n), r)
      && LegalPair(l, r, p, k)
  }

  /** `l` and `r` are legal below the position with pivot `p` at level `k`. */
  predicate LegalPair(l: Tree, r: Tree, p: int, k: nat)
    decreases k, 0
  {
    if k == 0 then l == Leaf && r == Leaf
    else Legal(l, PrevPivot(p, k - 1), k - 1) && Legal(r, NextPivot(p, k - 1), k - 1)
  }

  predicate LegalRoot(t: Tree) {
    Legal(t, 0, NODE_BITS)
  }

  // ---------------------------------------------------------------- scores

  lemma ScoreInjective(m: NodeNum, n: NodeNum)
    ensures Score(m) == Score(n) ==> m == n
  {
    Pow2Literals();
    if m < n {
      PostOrderInjective(NODE_BITS, NODE_COUNT - n, NODE_COUNT - m);
    } else if n < m {
      PostOrderInjective(NODE_BITS, NODE_COUNT - m, NODE_COUNT - n);
    }
  }

  lemma ChildPivots(p: int, k: nat)
    requires IsPivot(p, k + 1)
    ensures IsPivot(PrevPivot(p, k), k) && IsPivot(NextPivot(p, k), k)
  {
    ShiftOne(k);
    if k + 1 == NODE_BITS {
      ShiftAdd(-1, 1, k);
      ShiftSign(0, k);
      assert IsOddMultiple(p - Pow2(k), -1, k);
      assert IsOddMultiple(p + Pow2(k), 0, k);
    } else {
      var a: int :| IsOddMultiple(p, a, k + 1);
      ShiftAdd(2 * a + 1, 2 * a + 1, k);
      ShiftAdd(4 * a + 1, 1, k);
      ShiftAdd(4 * a + 2, 1, k);
      assert IsOddMultiple(p - Pow2(k), 2 * a, k);
      assert IsOddMultiple(p + Pow2(k), 2 * a + 1, k);
    }
  }

  /** Seen from the other end of the address range, a pivot is an odd multiple again. */
  lemma MirroredPivot(p: NodeNum, k: nat) returns (b: nat)
    requires k < NODE_BITS && IsPivot(p, k)
    ensures b % 2 == 1 && NODE_COUNT - p == Shift(b, k)
  {
    var a: int :| IsOddMultiple(p, a, k);
    var h := Pow2(NODE_BITS - k - 1);
    assert Shift(2 * h, k) == NODE_COUNT by {
      Doubled(NODE_BITS - k - 1);
      ShiftPow2(NODE_BITS - k, k);
      Pow2Literals();
    }
    hide Shift, Pow2;
    ShiftAdd(2 * h - (2 * a + 1), 2 * a + 1, k);
    ShiftSign(2 * h - (2 * a + 1), k);
    assert NODE_COUNT - p == Shift(2 * h - (2 * a + 1), k);
    b := 2 * h - (2 * a + 1);
    OddDifference(h, a);
  }

  lemma Doubled(k: nat)
    ensures Pow2(k + 1) == 2 * Pow2(k)
  {}

  lemma OddDifference(h: nat, a: int)
    ensures (2 * h - (2 * a + 1)) % 2 == 1
  {
    assert 2 * h - (2 * a + 1) == 2 * (h - a - 1) + 1;
  }

  /** A position's pivot address outranks every other address in the position's range. */
  lemma PivotOutranks(p: NodeNum, k: nat, n: NodeNum)
    requires IsPivot(p, k) && InRange(n, p, k) && n != p
    ensures Score(n) < Score(p)
  {
    var b := MirroredPivot(p, k);
    PostOrderDominates(b, k, NODE_COUNT - n);
  }

  /** The address `g` is closer to `f` than the greatest power of two that divides `f`. */
  predicate Spans(f: NodeNum, g: NodeNum) {
    f - Pow2(Trailing(f)) < g < f + Pow2(Trailing(f))
  }

  /** `f` comes before `g` in the free trees: the one that spans the other, or else the lower address. */
  predicate Precedes(f: NodeNum, g: NodeNum) {
    Spans(f, g) || (!Spans(g, f) && f < g)
  }

  /** Seen from the other end of the range an address has as many trailing zeros. */
  lemma {:induction false} MirroredTrailing(width: nat, n: nat)
    requires 0 < n < Pow2(width)
    ensures Trailing(Pow2(width) - n) == Trailing(n)
  {
    if n % 2 == 0 {
      MirroredTrailing(width - 1, n / 2);
      assert (Pow2(width) - n) / 2 == Pow2(width - 1) - n / 2;
    }
  }

  /** Of two addresses the one that comes first has the higher score. */
  lemma ScoreOrder(f: NodeNum, g: NodeNum)
    requires f != g
    ensures Score(f) > Score(g) <==> Precedes(f, g)
  {
    hide PostOrder, Trailing, Pow2;
    Pow2Literals();
    MirroredTrailing(NODE_BITS, f);
    MirroredTrailing(NODE_BITS, g);
    PostOrderIsPostOrder(NODE_BITS, NODE_COUNT - f, NODE_COUNT - g);
  }

  /** The scores are exactly the numbers from 1 to 65535. */
  lemma ScoresAreAll(r: int)
    ensures 0 < r < NODE_COUNT <==> exists f: NodeNum :: Score(f) == r
  {
    Pow2Literals();
    if f: NodeNum :| Score(f) == r {
      PostOrderRange(NODE_BITS, NODE_COUNT - f);
    }
    if 0 < r < NODE_COUNT {
      var n := PostOrderOnto(NODE_BITS, r);
      assert Score(NODE_COUNT - n) == r;
    }
  }

  // ---------------------------------------------------------------- legal trees

  lemma {:induction false} LegalRange(t: Tree, p: int, k: nat)
    requires Legal(t, p, k)
    ensures forall x: NodeNum :: x in Elems(t) ==> InRange(x, p, k)
  {
    if t.Node? && k > 0 {
      LegalRange(t.prev, PrevPivot(p, k - 1), k - 1);
      LegalRange(t.next, NextPivot(p, k - 1), k - 1);
    }
  }

  /** Every node below the root of a legal tree has a smaller score than the root. */
  lemma {:induction false} LegalHeap(t: Tree, p: int, k: nat)
    requires Legal(t, p, k) && t.Node?
    ensures forall x: NodeNum :: x in Elems(t.prev) || x in Elems(t.next) ==> Score(x) < Score(t.num)
  {
    if t.prev.Node? {
      LegalHeap(t.prev, PrevPivot(p, k - 1), k - 1);
    }
    if t.next.Node? {
      LegalHeap(t.next, NextPivot(p, k - 1), k - 1);
    }
  }

  /** The root of a legal tree comes before all other nodes in it. */
  lemma RootPrecedes(t: Tree, p: int, k: nat)
    requires Legal(t, p, k) && t.Node?
    ensures forall x: NodeNum :: x in Elems(t) && x != t.num ==> Precedes(t.num, x)
  {
    LegalHeap(t, p, k);
    forall x: NodeNum | x in Elems(t) && x != t.num
      ensures Precedes(t.num, x)
    {
      ScoreOrder(t.num, x);
    }
  }

  lemma LegalSides(t: Tree, p: int, k: nat)
    requires t.Node? && Legal(t, p, k)
    ensures forall x: NodeNum :: x in Elems(t.prev) ==> x < p
    ensures forall x: NodeNum :: x in Elems(t.next) ==> x > p
  {
    if k > 0 {
      LegalRange(t.prev, PrevPivot(p, k - 1), k - 1);
      LegalRange(t.next, NextPivot(p, k - 1), k - 1);
    }
  }

  lemma LegalDistinct(t: Tree, p: int, k: nat)
    requires t.Node? && Legal(t, p, k)
    ensures t.num !in Elems(t.prev) && t.num !in Elems(t.next)
    ensures Elems(t.prev) !! Elems(t.next)
  {
    LegalHeap(t, p, k);
    LegalSides(t, p, k);
  }

  /** The two subtrees hold the addresses on either side of the pivot, the root holds the rest. */
  lemma LegalSplit(t: Tree, p: int, k: nat)
    requires t.Node? && Legal(t, p, k)
    ensures Elems(t.prev) == set x: NodeNum | x in Elems(t) && x != t.num && x < p
    ensures Elems(t.next) == set x: NodeNum | x in Elems(t) && x != t.num && x > p
  {
    LegalSides(t, p, k);
    LegalDistinct(t, p, k);
  }

  /** A node equal to its position's pivot can only be the root of that position. */
  lemma PivotAtRoot(t: Tree, p: NodeNum, k: nat)
    requires Legal(t, p, k) && t.Node?
    ensures p in Elems(t) <==> t.num == p
  {
    LegalSides(t, p, k);
  }

  lemma SameRoot(t: Tree, u: Tree, p: int, k: nat)
    requires Legal(t, p, k) && Legal(u, p, k) && Elems(t) == Elems(u)
    ensures t.Node? == u.Node?
    ensures t.Node? ==> t.num == u.num
  {
    if t.Node? {
      assert t.num in Elems(u);
      LegalHeap(u, p, k);
    }
    if u.Node? {
      assert u.num in Elems(t);
      LegalHeap(t, p, k);
    }
  }

  /** The tree is a function of the set of nodes in it. */
  lemma {:induction false} ShapeIsCanonical(t: Tree, u: Tree, p: int, k: nat)
    requires Legal(t, p, k) && Legal(u, p, k) && Elems(t) == Elems(u)
    ensures t == u
  {
    SameRoot(t, u, p, k);
    if t.Node? && k > 0 {
      hide Elems, Score;
      LegalSplit(t, p, k);
      LegalSplit(u, p, k);
      ShapeIsCanonical(t.prev, u.prev, PrevPivot(p, k - 1), k - 1);
      ShapeIsCanonical(t.next, u.next, NextPivot(p, k - 1), k - 1);
    }
  }

  /** The subtree-size recursion counts the nodes. */
  lemma {:induction false} SizeIsCardinality(t: Tree, p: int, k: nat)
    requires Legal(t, p, k)
    ensures Size(t) == |Elems(t)|
  {
    if t.Node? {
      LegalDistinct(t, p, k);
      if k > 0 {
        SizeIsCardinality(t.prev, PrevPivot(p, k - 1), k - 1);
        SizeIsCardinality(t.next, NextPivot(p, k - 1), k - 1);
      }
    }
  }
}
