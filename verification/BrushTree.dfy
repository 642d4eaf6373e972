/**
 The tree of nodes that a leaf's brushes are split into, and what a finished tree says of the brushes.
 Coordinates are reals.
 */
module BrushTree {

  type Vec = v: seq<real> | |v| == 3 witness [0.0, 0.0, 0.0]

  datatype Brush = Brush(mins: Vec, maxs: Vec, contents: bv32)

  /** The largest finite float. */
  const FLT_MAX: real := 340282350000000000000000000000000000000.0

  /**
   A node. A leaf has `leafBrushCount > 0` brushes from `start` on. A split has a straddling child
   right after it if `leafBrushCount` is -1, and its two sides at `child0` and `child1` after it.
   */
  datatype Node = Node(axis: nat, leafBrushCount: int, contents: bv32, start: nat, dist: real, range: real, child0: nat, child1: nat)

  /** The shape of a finished tree. `mid` is `NoTree` if no brush straddles the plane. */
  datatype Tree =
    | NoTree
    | Leaf
    | Split(axis: nat, dist: real, reach: real, nm: nat, n0: nat, n1: nat, mid: Tree, upper: Tree, lower: Tree)

  function NodeCount(t: Tree): nat {
    match t
    case NoTree => 0
    case Leaf => 1
    case Split(_, _, _, _, _, _, mid, upper, lower) => 1 + NodeCount(mid) + NodeCount(upper) + NodeCount(lower)
  }

  function Or(a: bv32, b: bv32): bv32 {
    a | b
  }

  lemma OrLaws(a: bv32, b: bv32, c: bv32)
    ensures Or(Or(a, b), c) == Or(a, Or(b, c)) && Or(0, a) == a && Or(a, 0) == a
  {}

  /** The brushes with these numbers exist, with their corners in order. */
  ghost predicate Known(bs: seq<Brush>, s: seq<nat>) {
    forall k :: 0 <= k < |s| ==> s[k] < |bs| && BrushOk(bs[s[k]])
  }

  ghost predicate BrushOk(b: Brush) {
    forall a :: 0 <= a < 3 ==> -FLT_MAX <= b.mins[a] < b.maxs[a] <= FLT_MAX
  }

  function OrAll(bs: seq<Brush>, s: seq<nat>): bv32
    requires Known(bs, s)
  {
    if s == [] then 0 else Or(OrAll(bs, s[..|s| - 1]), bs[s[|s| - 1]].contents)
  }

  /** A list of brushes has the contents that some brush in it has. */
  lemma {:induction false} OrAllMeans(bs: seq<Brush>, s: seq<nat>, mask: bv32)
    requires Known(bs, s)
    ensures Meets(OrAll(bs, s), mask) <==> exists k :: 0 <= k < |s| && Meets(bs[s[k]].contents, mask)
    decreases |s|
  {
    hide Meets, Or, BrushOk;
    NothingMeets(mask);
    if s != [] {
      var front, last := s[..|s| - 1], s[|s| - 1];
      OrAllMeans(bs, front, mask);
      OrMeets(OrAll(bs, front), bs[last].contents, mask);
    }
  }

  function And(a: bv32, b: bv32): bv32 {
    a & b
  }

  predicate Meets(contents: bv32, mask: bv32) {
    And(contents, mask) != 0
  }

  lemma OrMeets(a: bv32, b: bv32, mask: bv32)
    ensures Meets(Or(a, b), mask) <==> Meets(a, mask) || Meets(b, mask)
  {
    hide And, Or;
    OrAnd(a, b, mask);
    OrZero(And(a, mask), And(b, mask));
  }

  lemma OrAnd(a: bv32, b: bv32, mask: bv32)
    ensures And(Or(a, b), mask) == Or(And(a, mask), And(b, mask))
  {}

  lemma OrZero(a: bv32, b: bv32)
    ensures Or(a, b) == 0 <==> a == 0 && b == 0
  {}

  lemma NothingMeets(mask: bv32)
    ensures !Meets(0, mask)
  {}

  lemma {:induction false} OrAllConcat(bs: seq<Brush>, a: seq<nat>, b: seq<nat>)
    requires Known(bs, a) && Known(bs, b)
    ensures Known(bs, a + b) && OrAll(bs, a + b) == Or(OrAll(bs, a), OrAll(bs, b))
    decreases |b|
  {
    hide Or;
    if b == [] {
      assert a + b == a;
      OrLaws(OrAll(bs, a), 0, 0);
    } else {
      OrAllConcat(bs, a, b[..|b| - 1]);
      assert (a + b)[..|a + b| - 1] == a + b[..|b| - 1];
      OrLaws(OrAll(bs, a), OrAll(bs, b[..|b| - 1]), bs[b[|b| - 1]].contents);
    }
  }

  /** All of `s` lie within the bounds. */
  ghost predicate Within(bs: seq<Brush>, s: seq<nat>, mins: Vec, maxs: Vec)
    requires Known(bs, s)
  {
    forall k, a :: 0 <= k < |s| && 0 <= a < 3 ==> mins[a] <= bs[s[k]].mins[a] && bs[s[k]].maxs[a] <= maxs[a]
  }

  /** All of `s` lie at least `range` above the plane, below it, or are cut by it. */
  ghost predicate AllAbove(bs: seq<Brush>, s: seq<nat>, axis: nat, at: real)
    requires Known(bs, s) && axis < 3
  {
    forall k :: 0 <= k < |s| ==> bs[s[k]].mins[axis] >= at
  }

  ghost predicate AllBelow(bs: seq<Brush>, s: seq<nat>, axis: nat, at: real)
    requires Known(bs, s) && axis < 3
  {
    forall k :: 0 <= k < |s| ==> bs[s[k]].maxs[axis] <= at
  }

  /** `range` is the distance of the plane to the nearest of `s` above it, or `from` if that is less. */
  ghost predicate NearestAbove(bs: seq<Brush>, s: seq<nat>, axis: nat, dist: real, range: real, from: real)
    requires Known(bs, s) && axis < 3
  {
    && 0.0 <= range <= from && AllAbove(bs, s, axis, dist + range)
    && (range == from || exists k :: 0 <= k < |s| && bs[s[k]].mins[axis] == dist + range)
  }

  ghost predicate NearestBelow(bs: seq<Brush>, s: seq<nat>, axis: nat, dist: real, range: real, from: real)
    requires Known(bs, s) && axis < 3
  {
    && 0.0 <= range <= from && AllBelow(bs, s, axis, dist - range)
    && (range == from || exists k :: 0 <= k < |s| && bs[s[k]].maxs[axis] == dist - range)
  }

  ghost predicate AllStraddle(bs: seq<Brush>, s: seq<nat>, axis: nat, dist: real)
    requires Known(bs, s) && axis < 3
  {
    forall k :: 0 <= k < |s| ==> bs[s[k]].mins[axis] < dist < bs[s[k]].maxs[axis]
  }

  /** The candidate planes: the lower or the upper side of brush `k`. */
  function Candidate(bs: seq<Brush>, s: seq<nat>, axis: nat, k: nat, upper: bool): real
    requires Known(bs, s) && k < |s| && axis < 3
  {
    if upper then bs[s[k]].maxs[axis] else bs[s[k]].mins[axis]
  }

  // ---------------------------------------------------------------- how well a plane splits

  /** The positions of the brushes wholly below the plane. */
  ghost function LeftOf(bs: seq<Brush>, s: seq<nat>, axis: nat, d: real): (l: set<nat>)
    requires axis < 3 && Known(bs, s)
    ensures forall k :: k in l ==> k < |s|
  {
    set k: nat | k < |s| && bs[s[k]].mins[axis] < d && bs[s[k]].maxs[axis] <= d
  }

  /** Those not below the plane with any part. */
  ghost function RightOf(bs: seq<Brush>, s: seq<nat>, axis: nat, d: real): (r: set<nat>)
    requires axis < 3 && Known(bs, s)
    ensures forall k :: k in r ==> k < |s|
  {
    set k: nat | k < |s| && d <= bs[s[k]].mins[axis]
  }

  /** `h` is the highest upper side among the brushes at the positions `l`. */
  ghost predicate Highest(bs: seq<Brush>, s: seq<nat>, axis: nat, l: set<nat>, h: real)
    requires axis < 3 && Known(bs, s) && forall k :: k in l ==> k < |s|
  {
    (exists k :: k in l && bs[s[k]].maxs[axis] == h) && forall k :: k in l ==> bs[s[k]].maxs[axis] <= h
  }

  /** `w` is the lowest lower side among the brushes at the positions `r`. */
  ghost predicate Lowest(bs: seq<Brush>, s: seq<nat>, axis: nat, r: set<nat>, w: real)
    requires axis < 3 && Known(bs, s) && forall k :: k in r ==> k < |s|
  {
    (exists k :: k in r && bs[s[k]].mins[axis] == w) && forall k :: k in r ==> w <= bs[s[k]].mins[axis]
  }

  predicate Least(x: real, a: real, b: real) {
    x <= a && x <= b && (x == a || x == b)
  }

  /**
   A plane has no score if a side has fewer than two brushes. Otherwise it is the number of brushes
   on the smaller side but one, times the smaller of the two extents that the other side leaves
   free; and the plane moves half way between the sides.
   */
  ghost predicate Scored(bs: seq<Brush>, s: seq<nat>, axis: nat, mins: Vec, maxs: Vec, d: real, score: real, dist: real)
    requires axis < 3 && Known(bs, s)
  {
    var l, r := LeftOf(bs, s, axis, d), RightOf(bs, s, axis, d);
    if |l| < 2 || |r| < 2 then score == 0.0
    else
      exists h, w :: Highest(bs, s, axis, l, h) && Lowest(bs, s, axis, r, w)
        && Weighs(Smaller(|l|, |r|), maxs[axis], mins[axis], h, w, score, dist)
  }

  /** What a plane is worth with at least `n` brushes on either side, one side reaching up to `h` and the other down to `w`. */
  predicate Weighs(n: nat, max: real, min: real, h: real, w: real, score: real, dist: real) {
    dist - h == w - dist && Least(score, (n - 1) as real * (max - h), (n - 1) as real * (w - min))
  }

  ghost function Smaller(m: nat, n: nat): (c: nat)
    ensures c <= m && c <= n && (c == m || c == n)
  {
    if m <= n then m else n
  }

  /** The plane `d` has the best score of all candidates, and it is positive. */
  ghost predicate IsBest(bs: seq<Brush>, s: seq<nat>, axis: nat, d: real, best: real, dist: real, mins: Vec, maxs: Vec)
    requires axis < 3 && Known(bs, s)
  {
    && best > 0.0 && Scored(bs, s, axis, mins, maxs, d, best, dist)
    && forall a: nat, j: nat, up, score, dist' ::
         a < 3 && j < |s| && Scored(bs, s, a, mins, maxs, Candidate(bs, s, a, j, up), score, dist') ==> score <= best
  }

  /** The plane `dist` is half way between the two sides of a best candidate. */
  ghost predicate BestSplit(bs: seq<Brush>, s: seq<nat>, axis: nat, dist: real, mins: Vec, maxs: Vec)
    requires axis < 3 && Known(bs, s)
  {
    exists k: nat, up: bool, best :: k < |s| && IsBest(bs, s, axis, Candidate(bs, s, axis, k, up), best, dist, mins, maxs)
  }

  /** No candidate plane has two brushes on either side. */
  ghost predicate Unsplittable(bs: seq<Brush>, s: seq<nat>)
    requires Known(bs, s)
  {
    forall a: nat, k: nat, up :: a < 3 && k < |s| ==>
      |LeftOf(bs, s, a, Candidate(bs, s, a, k, up))| < 2 || |RightOf(bs, s, a, Candidate(bs, s, a, k, up))| < 2
  }

  // ---------------------------------------------------------------- the tree

  /**
   The nodes from `id` on are a tree of shape `t` over the brushes `s`, which are at `lo` in the
   order, built within the bounds: every node's contents is the union over its brushes, all within
   its bounds; a split's straddlers, upper and lower brushes follow each other and are where its
   plane, and its range, say. A split is at a best plane, and no leaf can be split.
   */
  ghost predicate Built(bs: seq<Brush>, nodes: seq<Node>, s: seq<nat>, id: nat, t: Tree, lo: nat, mins: Vec, maxs: Vec)
    decreases t
  {
    && s != [] && !t.NoTree? && id + NodeCount(t) <= |nodes| && Known(bs, s) && Within(bs, s, mins, maxs)
    && nodes[id].contents == OrAll(bs, s)
    && match t
       case Leaf => nodes[id].leafBrushCount == |s| <= 0x7FFF && nodes[id].start == lo && Unsplittable(bs, s)
       case Split(axis, dist, reach, nm, n0, n1, mid, upper, lower) =>
         && SplitOk(bs, nodes[id], s, t) && BestSplit(bs, s, axis, dist, mins, maxs)
         && (if nm == 0 then mid == NoTree else Built(bs, nodes, s[..nm], id + 1, mid, lo, mins, maxs))
         && Built(bs, nodes, s[nm..nm + n0], id + 1 + NodeCount(mid), upper, lo + nm, mins[axis := dist + reach], maxs)
         && Built(bs, nodes, s[nm + n0..], id + 1 + NodeCount(mid) + NodeCount(upper), lower, lo + nm + n0, mins, maxs[axis := dist - nodes[id].range])
  }

  /** What a split node says, and that it is so. */
  ghost predicate SplitOk(bs: seq<Brush>, node: Node, s: seq<nat>, t: Tree)
    requires t.Split? && Known(bs, s)
  {
    && t.axis < 3 && |s| == t.nm + t.n0 + t.n1 && t.n0 > 0 && t.n1 > 0
    && node.axis == t.axis && node.dist == t.dist && 0.0 <= node.range <= t.reach
    && node.leafBrushCount == (if t.nm == 0 then 0 else -1)
    && node.child0 == 1 + NodeCount(t.mid) && node.child1 == 1 + NodeCount(t.mid) + NodeCount(t.upper) <= 0xFFFF
    && AllStraddle(bs, s[..t.nm], t.axis, t.dist)
    && NearestAbove(bs, s[t.nm..t.nm + t.n0], t.axis, t.dist, t.reach, FLT_MAX)
    && NearestBelow(bs, s[t.nm + t.n0..], t.axis, t.dist, node.range, t.reach)
  }

  /** A split's range is the distance of its plane to the nearest brush that it does not cut, as far as numbers go. */
  lemma RangeIsNearest(bs: seq<Brush>, node: Node, s: seq<nat>, t: Tree)
    requires t.Split? && Known(bs, s) && SplitOk(bs, node, s, t)
    ensures forall k :: t.nm <= k < t.nm + t.n0 ==> bs[s[k]].mins[t.axis] - t.dist >= node.range
    ensures forall k :: t.nm + t.n0 <= k < |s| ==> t.dist - bs[s[k]].maxs[t.axis] >= node.range
    ensures node.range == FLT_MAX
         || (exists k :: t.nm <= k < t.nm + t.n0 && bs[s[k]].mins[t.axis] - t.dist == node.range)
         || exists k :: t.nm + t.n0 <= k < |s| && t.dist - bs[s[k]].maxs[t.axis] == node.range
  {
    var su, sl := s[t.nm..t.nm + t.n0], s[t.nm + t.n0..];
    forall k | t.nm <= k < t.nm + t.n0
      ensures bs[s[k]].mins[t.axis] - t.dist >= t.reach
    {
      assert bs[su[k - t.nm]].mins[t.axis] >= t.dist + t.reach;
    }
    forall k | t.nm + t.n0 <= k < |s|
      ensures t.dist - bs[s[k]].maxs[t.axis] >= node.range
    {
      assert bs[sl[k - t.nm - t.n0]].maxs[t.axis] <= t.dist - node.range;
    }
    if node.range != t.reach {
      var k :| 0 <= k < |sl| && bs[sl[k]].maxs[t.axis] == t.dist - node.range;
      assert sl[k] == s[t.nm + t.n0 + k];
    } else if t.reach != FLT_MAX {
      var k :| 0 <= k < |su| && bs[su[k]].mins[t.axis] == t.dist + t.reach;
      assert su[k] == s[t.nm + k];
    }
  }

  /** The children of a split, and where their nodes are. */
  ghost predicate Children(bs: seq<Brush>, nodes: seq<Node>, s: seq<nat>, id: nat, t: Tree, lo: nat, mins: Vec, maxs: Vec)
    requires t.Split? && t.axis < 3 && |s| == t.nm + t.n0 + t.n1 && id < |nodes|
  {
    && (if t.nm == 0 then t.mid == NoTree else Built(bs, nodes, s[..t.nm], id + 1, t.mid, lo, mins, maxs))
    && Built(bs, nodes, s[t.nm..t.nm + t.n0], id + 1 + NodeCount(t.mid), t.upper, lo + t.nm, mins[t.axis := t.dist + t.reach], maxs)
    && Built(bs, nodes, s[t.nm + t.n0..], id + 1 + NodeCount(t.mid) + NodeCount(t.upper), t.lower, lo + t.nm + t.n0,
             mins, maxs[t.axis := t.dist - nodes[id].range])
  }

  lemma SplitParts(bs: seq<Brush>, nodes: seq<Node>, s: seq<nat>, id: nat, t: Tree, lo: nat, mins: Vec, maxs: Vec)
    requires Built(bs, nodes, s, id, t, lo, mins, maxs) && t.Split?
    ensures s != [] && id < |nodes| && Known(bs, s) && Within(bs, s, mins, maxs) && nodes[id].contents == OrAll(bs, s)
    ensures SplitOk(bs, nodes[id], s, t) && t.axis < 3 && |s| == t.nm + t.n0 + t.n1 && BestSplit(bs, s, t.axis, t.dist, mins, maxs)
    ensures Children(bs, nodes, s, id, t, lo, mins, maxs)
    ensures NodeCount(t) == 1 + NodeCount(t.mid) + NodeCount(t.upper) + NodeCount(t.lower)
  {
    hide Known, Within, OrAll, AllStraddle, NearestAbove, NearestBelow, BestSplit, Unsplittable;
  }

  lemma SplitBuilt(bs: seq<Brush>, nodes: seq<Node>, s: seq<nat>, id: nat, t: Tree, lo: nat, mins: Vec, maxs: Vec)
    requires t.Split? && s != [] && id + NodeCount(t) <= |nodes| && id < |nodes| && Known(bs, s) && Within(bs, s, mins, maxs)
    requires nodes[id].contents == OrAll(bs, s) && SplitOk(bs, nodes[id], s, t) && t.axis < 3 && |s| == t.nm + t.n0 + t.n1
    requires BestSplit(bs, s, t.axis, t.dist, mins, maxs)
    requires Children(bs, nodes, s, id, t, lo, mins, maxs)
    ensures Built(bs, nodes, s, id, t, lo, mins, maxs)
  {
    hide Known, Within, OrAll, AllStraddle, NearestAbove, NearestBelow, BestSplit, Unsplittable;
  }

  lemma BuiltIsTree(bs: seq<Brush>, nodes: seq<Node>, s: seq<nat>, id: nat, t: Tree, lo: nat, mins: Vec, maxs: Vec)
    requires Built(bs, nodes, s, id, t, lo, mins, maxs)
    ensures !t.NoTree? && NodeCount(t) > 0 && id + NodeCount(t) <= |nodes| && id < |nodes|
    ensures Known(bs, s) && nodes[id].contents == OrAll(bs, s)
  {}

  /** A finished tree stays one while other nodes change. */
  lemma {:induction false} BuiltFrame(
      bs: seq<Brush>, nodes: seq<Node>, nodes': seq<Node>, s: seq<nat>, id: nat, t: Tree, lo: nat, mins: Vec, maxs: Vec)
    requires Built(bs, nodes, s, id, t, lo, mins, maxs)
    requires id + NodeCount(t) <= |nodes'| && forall i: nat :: id <= i < id + NodeCount(t) ==> nodes'[i] == nodes[i]
    ensures Built(bs, nodes', s, id, t, lo, mins, maxs)
    decreases t
  {
    hide Built, SplitOk, Known, Within, OrAll, NodeCount, BestSplit;
    if t.Split? {
      BuiltIsTree(bs, nodes, s, id, t, lo, mins, maxs);
      assert nodes'[id] == nodes[id];
      SplitParts(bs, nodes, s, id, t, lo, mins, maxs);
      if t.nm > 0 {
        BuiltFrame(bs, nodes, nodes', s[..t.nm], id + 1, t.mid, lo, mins, maxs);
      }
      BuiltFrame(bs, nodes, nodes', s[t.nm..t.nm + t.n0], id + 1 + NodeCount(t.mid), t.upper, lo + t.nm, mins[t.axis := t.dist + t.reach], maxs);
      BuiltFrame(bs, nodes, nodes', s[t.nm + t.n0..], id + 1 + NodeCount(t.mid) + NodeCount(t.upper), t.lower, lo + t.nm + t.n0,
                 mins, maxs[t.axis := t.dist - nodes[id].range]);
      SplitBuilt(bs, nodes', s, id, t, lo, mins, maxs);
    } else {
      LeafFrame(bs, nodes, nodes', s, id, t, lo, mins, maxs);
    }
  }

  lemma LeafFrame(
      bs: seq<Brush>, nodes: seq<Node>, nodes': seq<Node>, s: seq<nat>, id: nat, t: Tree, lo: nat, mins: Vec, maxs: Vec)
    requires Built(bs, nodes, s, id, t, lo, mins, maxs) && !t.Split?
    requires id + NodeCount(t) <= |nodes'| && forall i: nat :: id <= i < id + NodeCount(t) ==> nodes'[i] == nodes[i]
    ensures Built(bs, nodes', s, id, t, lo, mins, maxs)
  {
    hide Known, Within, OrAll, Unsplittable;
  }
}
