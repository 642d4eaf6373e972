/** Splitting a leaf's brushes into a tree, permuting the list of their numbers in place. */
module BrushPartition {
  import opened Wrappers
  import opened BrushTree
  import opened BrushScore

  class Partitioner {
    const brushes: seq<Brush>
    const leafBrushes: array<nat>
    var nodes: seq<Node>

    constructor (brushes: seq<Brush>, leafBrushes: array<nat>)
      ensures this.brushes == brushes && this.leafBrushes == leafBrushes && nodes == []
    {
      this.brushes := brushes;
      this.leafBrushes := leafBrushes;
      nodes := [];
    }

    // -------------------------------------------------------------- choosing a plane

    /** Counts the brushes on either side of the plane `d`, and finds how near they come to it. */
    method CountSides(s: seq<nat>, axis: nat, d: real) returns (rightBrushCount: int, leftBrushCount: int, min: real, max: real)
      requires axis < 3 && Known(brushes, s)
      ensures leftBrushCount == LeftCount(brushes, s, axis, d) - 1 && rightBrushCount == RightCount(brushes, s, axis, d) - 1
      ensures min == LeftMax(brushes, s, axis, d) && max == RightMin(brushes, s, axis, d)
    {
      rightBrushCount, leftBrushCount := -1, -1;
      min, max := -FLT_MAX, FLT_MAX;
      for k: nat := 0 to |s|
        invariant leftBrushCount == LeftCount(brushes, s[..k], axis, d) - 1
        invariant rightBrushCount == RightCount(brushes, s[..k], axis, d) - 1
        invariant min == LeftMax(brushes, s[..k], axis, d) && max == RightMin(brushes, s[..k], axis, d)
      {
        assert s[..k + 1][..k] == s[..k];
        var b := brushes[s[k]];
        if b.mins[axis] < d {
          if d >= b.maxs[axis] {
            leftBrushCount := leftBrushCount + 1;
            if b.maxs[axis] > min {
              min := b.maxs[axis];
            }
          }
        } else {
          rightBrushCount := rightBrushCount + 1;
          if max > b.mins[axis] {
            max := b.mins[axis];
          }
        }
      }
      assert s[..|s|] == s;
    }

    /** The score of the plane `d`, and the plane half way between the brushes on its sides. */
    method GetPartitionScore(s: seq<nat>, axis: nat, mins: Vec, maxs: Vec, d: real) returns (score: real, dist: real)
      requires axis < 3 && Known(brushes, s) && -FLT_MAX <= d <= FLT_MAX
      ensures score == Score(brushes, s, axis, mins, maxs, d) && dist == Halfway(brushes, s, axis, d)
      ensures Scored(brushes, s, axis, mins, maxs, d, score, dist)
    {
      hide LeftMax, RightMin, LeftCount, RightCount, Scored;
      ScoreMeans(brushes, s, axis, mins, maxs, d);
      var rightBrushCount, leftBrushCount, min, max := CountSides(s, axis, d);
      ExtremesBound(brushes, s, axis, d);
      assert min <= d <= max;
      var bc := if rightBrushCount < leftBrushCount then rightBrushCount else leftBrushCount;
      dist := (min + max) * 0.5;
      if bc <= 0 {
        score := 0.0;
      } else if (maxs[axis] - min) - (max - mins[axis]) < 0.0 {
        score := bc as real * (maxs[axis] - min);
      } else {
        score := bc as real * (max - mins[axis]);
      }
    }

    /** No candidate plane before the one given has a better score. */
    ghost predicate NoneBetter(s: seq<nat>, mins: Vec, maxs: Vec, axis: nat, k: nat, upper: bool, best: real)
      requires Known(brushes, s)
    {
      forall a, j, up :: 0 <= a < 3 && 0 <= j < |s| && Earlier(a, j, up, axis, k, upper) ==>
        Score(brushes, s, a, mins, maxs, Candidate(brushes, s, a, j, up)) <= best
    }

    /** The plane chosen, if any, splits well, and was the half-way plane of the first candidate with that score. */
    ghost predicate Chosen(s: seq<nat>, mins: Vec, maxs: Vec, axis: int, dist: real, best: real)
      requires Known(brushes, s)
    {
      if axis < 0 then best == 0.0
      else
        && axis < 3 && best > 0.0
        && |Sorted(brushes, s, axis, dist, Above)| >= 2 && |Sorted(brushes, s, axis, dist, Below)| >= 2
        && exists k, up: bool | 0 <= k < |s| :: IsFirst(s, mins, maxs, axis, k, up, dist, best)
    }

    /** The candidate plane gives `dist` with the score `best`, and those before it have smaller scores. */
    ghost predicate IsFirst(s: seq<nat>, mins: Vec, maxs: Vec, axis: nat, k: nat, up: bool, dist: real, best: real)
      requires Known(brushes, s) && k < |s| && axis < 3
    {
      var d := Candidate(brushes, s, axis, k, up);
      && Score(brushes, s, axis, mins, maxs, d) == best && dist == Halfway(brushes, s, axis, d)
      && forall a, j, u :: 0 <= a < 3 && 0 <= j < |s| && Earlier(a, j, u, axis, k, up) ==>
           Score(brushes, s, a, mins, maxs, Candidate(brushes, s, a, j, u)) < best
    }

    /** The candidate plane with the best score, the first of them if there are several; no axis if none is good. */
    method PickPlane(s: seq<nat>, mins: Vec, maxs: Vec) returns (axis: int, dist: real, bestScore: real)
      requires Known(brushes, s)
      ensures Chosen(s, mins, maxs, axis, dist, bestScore) && NoneBetter(s, mins, maxs, 3, 0, false, bestScore)
    {
      hide Score, Halfway, Sorted, IsFirst, Candidate;
      bestScore, axis, dist := 0.0, -1, 0.0;
      for testAxis: nat := 0 to 3
        invariant Chosen(s, mins, maxs, axis, dist, bestScore) && NoneBetter(s, mins, maxs, testAxis, 0, false, bestScore) && bestScore >= 0.0
      {
        for k: nat := 0 to |s|
          invariant Chosen(s, mins, maxs, axis, dist, bestScore) && NoneBetter(s, mins, maxs, testAxis, k, false, bestScore) && bestScore >= 0.0
        {
          CandidateFacts(s, testAxis, k);
          var b := brushes[s[k]];
          axis, dist, bestScore := TryPlane(s, mins, maxs, testAxis, k, false, b.mins[testAxis], axis, dist, bestScore);
          axis, dist, bestScore := TryPlane(s, mins, maxs, testAxis, k, true, b.maxs[testAxis], axis, dist, bestScore);
          assert NoneBetter(s, mins, maxs, testAxis, k + 1, false, bestScore);
        }
        assert NoneBetter(s, mins, maxs, testAxis + 1, 0, false, bestScore);
      }
    }

    lemma CandidateFacts(s: seq<nat>, axis: nat, k: nat)
      requires Known(brushes, s) && axis < 3 && k < |s|
      ensures var b := brushes[s[k]];
        && Candidate(brushes, s, axis, k, false) == b.mins[axis] && Candidate(brushes, s, axis, k, true) == b.maxs[axis]
        && -FLT_MAX <= b.mins[axis] <= b.maxs[axis] <= FLT_MAX
    {
      assert BrushOk(brushes[s[k]]);
    }

    /** Takes the candidate plane `d` if it is better than the best so far. */
    method TryPlane(s: seq<nat>, mins: Vec, maxs: Vec, testAxis: nat, ghost k: nat, ghost up: bool, d: real, axis: int, dist: real, best: real)
      returns (axis': int, dist': real, best': real)
      requires Known(brushes, s) && testAxis < 3 && -FLT_MAX <= d <= FLT_MAX && best >= 0.0
      requires k < |s| && d == Candidate(brushes, s, testAxis, k, up)
      requires Chosen(s, mins, maxs, axis, dist, best) && NoneBetter(s, mins, maxs, testAxis, k, up, best)
      ensures Chosen(s, mins, maxs, axis', dist', best') && best' >= best
      ensures if up then NoneBetter(s, mins, maxs, testAxis, k + 1, false, best') else NoneBetter(s, mins, maxs, testAxis, k, true, best')
    {
      hide Score, Halfway, Sorted, Candidate, Scored, FLT_MAX;
      axis', dist', best' := axis, dist, best;
      var score, half := GetPartitionScore(s, testAxis, mins, maxs, d);
      if score > best {
        GoodPlane(brushes, s, testAxis, mins, maxs, d);
        axis', dist', best' := testAxis, half, score;
        assert IsFirst(s, mins, maxs, testAxis, k, up, half, score);
      }
    }

    /** What the choice means: the plane chosen is best, and within the bounds none is chosen exactly if there is no plane to split by. */
    lemma ChosenIsBest(s: seq<nat>, mins: Vec, maxs: Vec, axis: int, dist: real, best: real)
      requires Known(brushes, s) && Within(brushes, s, mins, maxs)
      requires Chosen(s, mins, maxs, axis, dist, best) && NoneBetter(s, mins, maxs, 3, 0, false, best)
      ensures axis < 0 <==> Unsplittable(brushes, s)
      ensures axis >= 0 ==> axis < 3 && BestSplit(brushes, s, axis, dist, mins, maxs)
    {
      hide Score, Halfway, Sorted, Candidate, Scored, LeftOf, RightOf, Within;
      forall a: nat, j: nat, u | a < 3 && j < |s|
        ensures var d := Candidate(brushes, s, a, j, u);
          && Score(brushes, s, a, mins, maxs, d) <= best
          && (Score(brushes, s, a, mins, maxs, d) > 0.0 <==> |LeftOf(brushes, s, a, d)| >= 2 && |RightOf(brushes, s, a, d)| >= 2)
          && Scored(brushes, s, a, mins, maxs, d, Score(brushes, s, a, mins, maxs, d), Halfway(brushes, s, a, d))
          && forall score, dist :: Scored(brushes, s, a, mins, maxs, d, score, dist) ==> score == Score(brushes, s, a, mins, maxs, d)
      {
        assert Earlier(a, j, u, 3, 0, false);
        ScoreMeans(brushes, s, a, mins, maxs, Candidate(brushes, s, a, j, u));
        ScoreIsPositiveIff(brushes, s, a, mins, maxs, Candidate(brushes, s, a, j, u));
      }
      if axis >= 0 {
        var k, up :| 0 <= k < |s| && IsFirst(s, mins, maxs, axis, k, up, dist, best);
        assert IsBest(brushes, s, axis, Candidate(brushes, s, axis, k, up), best, dist, mins, maxs);
      }
    }

    // -------------------------------------------------------------- sorting the brushes

    method Write(i: nat, brushnum: nat)
      requires i < leafBrushes.Length
      modifies leafBrushes
      ensures leafBrushes[..] == old(leafBrushes[..])[i := brushnum]
    {
      leafBrushes[i] := brushnum;
    }

    /** Writes the brushes of `copy` that the plane cuts from `pos` on; returns how many there are. */
    method PutStraddling(copy: seq<nat>, pos: nat, axis: nat, dist: real) returns (count: nat)
      requires Known(brushes, copy) && axis < 3 && pos + |Sorted(brushes, copy, axis, dist, Straddling)| <= leafBrushes.Length
      modifies leafBrushes
      ensures Placed(old(leafBrushes[..]), leafBrushes[..], pos, Sorted(brushes, copy, axis, dist, Straddling))
      ensures count == |Sorted(brushes, copy, axis, dist, Straddling)|
    {
      hide Sorted, Placed, Known, BrushOk;
      count := 0;
      ghost var a, done := leafBrushes[..], [];
      NoneSorted(brushes, copy, axis, dist, Straddling);
      NothingPlaced(a, pos);
      for k: nat := 0 to |copy|
        invariant Known(brushes, copy[..k]) && done == Sorted(brushes, copy[..k], axis, dist, Straddling) && |done| == count
        invariant Placed(a, leafBrushes[..], pos, done)
      {
        KnownAt(brushes, copy, k);
        SortedStep(brushes, copy, k, axis, dist, Straddling);
        var brushnum := copy[k];
        var b := brushes[brushnum];
        if b.mins[axis] < dist && dist < b.maxs[axis] {
          PlacedMore(a, leafBrushes[..], pos, done, brushnum);
          Write(pos + count, brushnum);
          count := count + 1;
          done := done + [brushnum];
        }
      }
      assert copy[..|copy|] == copy;
    }

    /** As `PutStraddling` for the brushes above the plane; `range` shrinks to the nearest of them. */
    method PutAbove(copy: seq<nat>, pos: nat, axis: nat, dist: real, range: real) returns (count: nat, range': real)
      requires Known(brushes, copy) && axis < 3 && pos + |Sorted(brushes, copy, axis, dist, Above)| <= leafBrushes.Length && range >= 0.0
      modifies leafBrushes
      ensures Placed(old(leafBrushes[..]), leafBrushes[..], pos, Sorted(brushes, copy, axis, dist, Above))
      ensures count == |Sorted(brushes, copy, axis, dist, Above)|
      ensures Known(brushes, Sorted(brushes, copy, axis, dist, Above))
      ensures NearestAbove(brushes, Sorted(brushes, copy, axis, dist, Above), axis, dist, range', range)
    {
      hide PutSoFar, Known, Sorted, OnSide, Gap, Closer, Placed, NearestAbove;
      count, range' := 0, range;
      ghost var a := leafBrushes[..];
      PutNothing(brushes, copy, axis, dist, Above, a, pos, range);
      for k: nat := 0 to |copy|
        invariant PutSoFar(brushes, copy, k, axis, dist, Above, a, leafBrushes[..], pos, count, range', range)
      {
        PutStep(brushes, copy, k, axis, dist, Above, a, leafBrushes[..], pos, count, range', range);
        var brushnum := copy[k];
        var b := brushes[brushnum];
        if OnSide(b, axis, dist, Above) {
          range' := Closer(range', Gap(b, axis, dist, Above));
          Write(pos + count, brushnum);
          count := count + 1;
        }
      }
      PutAll(brushes, copy, axis, dist, Above, a, leafBrushes[..], pos, count, range', range);
    }

    /** As `PutAbove` for the brushes below the plane. */
    method PutBelow(copy: seq<nat>, pos: nat, axis: nat, dist: real, range: real) returns (count: nat, range': real)
      requires Known(brushes, copy) && axis < 3 && pos + |Sorted(brushes, copy, axis, dist, Below)| <= leafBrushes.Length && range >= 0.0
      modifies leafBrushes
      ensures Placed(old(leafBrushes[..]), leafBrushes[..], pos, Sorted(brushes, copy, axis, dist, Below))
      ensures count == |Sorted(brushes, copy, axis, dist, Below)|
      ensures Known(brushes, Sorted(brushes, copy, axis, dist, Below))
      ensures NearestBelow(brushes, Sorted(brushes, copy, axis, dist, Below), axis, dist, range', range)
    {
      hide PutSoFar, Known, Sorted, OnSide, Gap, Closer, Placed, NearestBelow;
      count, range' := 0, range;
      ghost var a := leafBrushes[..];
      PutNothing(brushes, copy, axis, dist, Below, a, pos, range);
      for k: nat := 0 to |copy|
        invariant PutSoFar(brushes, copy, k, axis, dist, Below, a, leafBrushes[..], pos, count, range', range)
      {
        PutStep(brushes, copy, k, axis, dist, Below, a, leafBrushes[..], pos, count, range', range);
        var brushnum := copy[k];
        var b := brushes[brushnum];
        if OnSide(b, axis, dist, Below) {
          range' := Closer(range', Gap(b, axis, dist, Below));
          Write(pos + count, brushnum);
          count := count + 1;
        }
      }
      PutAll(brushes, copy, axis, dist, Below, a, leafBrushes[..], pos, count, range', range);
    }

    // -------------------------------------------------------------- building the tree

    /** The slice of `n` brush numbers at `lo` is to be split; all its brushes lie within the bounds. */
    ghost predicate Task(lo: nat, n: nat, mins: Vec, maxs: Vec)
      reads leafBrushes
    {
      && lo + n <= leafBrushes.Length && n > 0
      && Known(brushes, leafBrushes[lo..lo + n]) && Within(brushes, leafBrushes[lo..lo + n], mins, maxs)
    }

    /** The slice has been rearranged, and the nodes from `id` on are a tree of shape `t` over it. */
    twostate predicate Done(lo: nat, n: nat, mins: Vec, maxs: Vec, id: nat, t: Tree)
      reads this, leafBrushes
    {
      && id == |old(nodes)| <= |nodes| && nodes[..id] == old(nodes) && |nodes| == id + NodeCount(t)
      && Rearranged(old(leafBrushes[..]), leafBrushes[..], lo, n)
      && Built(brushes, nodes, leafBrushes[lo..lo + n], id, t, lo, mins, maxs)
    }

    /**
     Splits the `n` brushes at `lo`, rearranging them, and appends the nodes of the tree; the root is
     `id`. False if a leaf's count or a child's offset is too large for its field.
     */
    method PartitionLeafBrushes_r(lo: nat, n: nat, mins: Vec, maxs: Vec) returns (ok: bool, id: nat, ghost t: Tree)
      requires Task(lo, n, mins, maxs)
      modifies this`nodes, leafBrushes
      ensures ok ==> Done(lo, n, mins, maxs, id, t)
      ensures !ok ==> n > 0x7FFF || |nodes| > 0xFFFF
      decreases n, 3
    {
      hide Built, Known, Within, Chosen, NoneBetter, NodeCount, OrAll, BestSplit, Unsplittable;
      id := |nodes|;
      nodes := nodes + [Node(0, 0, 0, 0, 0.0, 0.0, 0, 0)];
      var axis, dist, score := PickPlane(leafBrushes[lo..lo + n], mins, maxs);
      ChosenIsBest(leafBrushes[lo..lo + n], mins, maxs, axis, dist, score);
      if axis >= 0 {
        ChosenFacts(leafBrushes[lo..lo + n], mins, maxs, axis, dist, score);
        ok, t := SplitNode(id, lo, n, mins, maxs, axis, dist);
      } else {
        ok, t := LeafNode(id, lo, n, mins, maxs);
      }
    }

    lemma ChosenFacts(s: seq<nat>, mins: Vec, maxs: Vec, axis: int, dist: real, best: real)
      requires Known(brushes, s) && Chosen(s, mins, maxs, axis, dist, best) && axis >= 0
      ensures axis < 3 && |Sorted(brushes, s, axis, dist, Above)| > 0 && |Sorted(brushes, s, axis, dist, Below)| > 0
    {}

    /** The last node is a new one, for the slice. */
    ghost predicate Fresh(id: nat, lo: nat, n: nat, mins: Vec, maxs: Vec)
      reads this, leafBrushes
    {
      Task(lo, n, mins, maxs) && |nodes| == id + 1 && nodes[id].contents == 0 && nodes[id].leafBrushCount == 0
    }

    /** The new node is complete. */
    twostate predicate Filled(id: nat, lo: nat, n: nat, mins: Vec, maxs: Vec, t: Tree)
      reads this, leafBrushes
    {
      && |old(nodes)| == id + 1 <= |nodes| && nodes[..id] == old(nodes)[..id] && |nodes| == id + NodeCount(t)
      && Rearranged(old(leafBrushes[..]), leafBrushes[..], lo, n)
      && Built(brushes, nodes, leafBrushes[lo..lo + n], id, t, lo, mins, maxs)
    }

    /** The node becomes a leaf. */
    method LeafNode(id: nat, lo: nat, n: nat, mins: Vec, maxs: Vec) returns (ok: bool, ghost t: Tree)
      requires Fresh(id, lo, n, mins, maxs) && Unsplittable(brushes, leafBrushes[lo..lo + n])
      modifies this`nodes
      ensures ok ==> Filled(id, lo, n, mins, maxs, t)
      ensures !ok ==> n > 0x7FFF
    {
      t := Tree.Leaf;
      ok := n <= 0x7FFF;
      if !ok {
        return;
      }
      ghost var s := leafBrushes[lo..lo + n];
      var contents: bv32 := 0;
      for k: nat := 0 to n
        invariant contents == OrAll(brushes, s[..k])
      {
        assert s[..k + 1][..k] == s[..k] && leafBrushes[lo + k] == s[k];
        contents := Or(contents, brushes[leafBrushes[lo + k]].contents);
      }
      assert s[..n] == s;
      nodes := nodes[id := nodes[id].(leafBrushCount := n, contents := contents, start := lo)];
    }

    /** The brushes of `copy` are to be sorted by the plane; `m`, `u` and `l` are what that gives. */
    ghost predicate Sorting(copy: seq<nat>, axis: nat, dist: real, mins: Vec, maxs: Vec, m: seq<nat>, u: seq<nat>, l: seq<nat>) {
      && axis < 3 && Known(brushes, copy) && Within(brushes, copy, mins, maxs)
      && m == Sorted(brushes, copy, axis, dist, Straddling) && u == Sorted(brushes, copy, axis, dist, Above)
      && l == Sorted(brushes, copy, axis, dist, Below) && u != [] && l != []
    }

    lemma SortingFacts(copy: seq<nat>, axis: nat, dist: real, mins: Vec, maxs: Vec, m: seq<nat>, u: seq<nat>, l: seq<nat>)
      requires Sorting(copy, axis, dist, mins, maxs, m, u, l)
      ensures multiset(m) + multiset(u) + multiset(l) == multiset(copy) && |m| + |u| + |l| == |copy|
      ensures Known(brushes, m) && Within(brushes, m, mins, maxs) && AllStraddle(brushes, m, axis, dist)
      ensures Known(brushes, u) && Within(brushes, u, mins, maxs) && Known(brushes, l) && Within(brushes, l, mins, maxs)
    {
      SortedAll(brushes, copy, axis, dist);
      SortedFacts(brushes, copy, axis, dist, Straddling);
      PartWithin(brushes, copy, m, u, l, mins, maxs);
    }

    /** The brushes the plane cuts are at `lo`, with a tree right after node `id` if there are any. */
    twostate predicate MidDone(id: nat, lo: nat, m: seq<nat>, mins: Vec, maxs: Vec, t: Tree, axis: nat, dist: real)
      reads this, leafBrushes
    {
      && |old(nodes)| == id + 1 <= |nodes| && nodes[..id] == old(nodes)[..id]
      && Sent(old(leafBrushes[..]), leafBrushes[..], lo, m)
      && Opened(brushes, nodes, id, lo, leafBrushes[lo..lo + |m|], t, mins, maxs, axis, dist)
    }

    /** The brushes the plane cuts get a tree of their own, if there are any. */
    method MidPart(id: nat, lo: nat, copy: seq<nat>, mins: Vec, maxs: Vec, axis: nat, dist: real, ghost m: seq<nat>, ghost u: seq<nat>, ghost l: seq<nat>)
      returns (ok: bool, nm: nat, ghost t: Tree)
      requires Sorting(copy, axis, dist, mins, maxs, m, u, l) && lo + |m| <= leafBrushes.Length
      requires |nodes| == id + 1 && nodes[id].contents == 0 && nodes[id].leafBrushCount == 0
      modifies this`nodes, leafBrushes
      ensures ok ==> nm == |m| && MidDone(id, lo, m, mins, maxs, t, axis, dist)
      ensures !ok ==> |copy| > 0x7FFF || |nodes| > 0xFFFF
      decreases |copy|, 1
    {
      hide Built, Known, Within, NodeCount, OrAll, Sorted;
      SortingFacts(copy, axis, dist, mins, maxs, m, u, l);
      ghost var a := leafBrushes[..];
      nm := PutStraddling(copy, lo, axis, dist);
      ghost var a' := leafBrushes[..];
      PlacedSlice(a, a', lo, m);
      ok, t := true, NoTree;
      NoTreeSize();
      if nm > 0 {
        var mid;
        ok, mid, t := PartitionLeafBrushes_r(lo, nm, mins, maxs);
        if !ok {
          return;
        }
        BuiltIsTree(brushes, nodes, leafBrushes[lo..lo + nm], mid, t, lo, mins, maxs);
        ghost var nodes1 := nodes;
        nodes := nodes[id := nodes[id].(leafBrushCount := -1, contents := nodes[mid].contents)];
        nodes := nodes[id := nodes[id].(axis := axis, dist := dist)];
        BuiltFrame(brushes, nodes1, nodes, leafBrushes[lo..lo + nm], mid, t, lo, mins, maxs);
        PlacedThenSent(a, a', leafBrushes[..], lo, m);
      } else {
        nodes := nodes[id := nodes[id].(axis := axis, dist := dist)];
        NoneOfAll(brushes);
      }
    }

    /** The node becomes a split: the brushes the plane cuts, those above and those below get trees of their own. */
    method SplitNode(id: nat, lo: nat, n: nat, mins: Vec, maxs: Vec, axis: nat, dist: real) returns (ok: bool, ghost t: Tree)
      requires Fresh(id, lo, n, mins, maxs) && axis < 3 && BestSplit(brushes, leafBrushes[lo..lo + n], axis, dist, mins, maxs)
      requires |Sorted(brushes, leafBrushes[lo..lo + n], axis, dist, Above)| > 0 && |Sorted(brushes, leafBrushes[lo..lo + n], axis, dist, Below)| > 0
      modifies this`nodes, leafBrushes
      ensures ok ==> Filled(id, lo, n, mins, maxs, t)
      ensures !ok ==> n > 0x7FFF || |nodes| > 0xFFFF
      decreases n, 2
    {
      hide Built, Known, Within, NodeCount, OrAll, Sorted, NearestAbove, NearestBelow, AllStraddle, Opened, Attached, Sent, BestSplit;
      var copy := leafBrushes[lo..lo + n];
      ghost var m, u, l := Sorted(brushes, copy, axis, dist, Straddling), Sorted(brushes, copy, axis, dist, Above), Sorted(brushes, copy, axis, dist, Below);
      SortingFacts(copy, axis, dist, mins, maxs, m, u, l);
      ghost var a := leafBrushes[..];
      t := NoTree;
      var nm;
      ghost var tm, tu, tl;
      ok, nm, tm := MidPart(id, lo, copy, mins, maxs, axis, dist, m, u, l);
      if !ok {
        return;
      }
      ghost var aM, nodesM := leafBrushes[..], nodes;
      var n0, range;
      ok, n0, range, tu := UpperSide(id, lo + nm, copy, mins, maxs, axis, dist, m, u, l);
      if !ok {
        return;
      }
      ghost var reach, aU, nodesU := range, leafBrushes[..], nodes;
      var n1;
      ok, n1, range, tl := LowerSide(id, lo + nm + n0, copy, mins, maxs, axis, dist, range, m, u, l);
      if !ok {
        return;
      }
      ghost var nodesL := nodes;
      t := Split(axis, dist, reach, nm, n0, n1, tm, tu, tl);
      PartsTogether(brushes, nodesM, nodesU, nodesL, a, aM, aU, leafBrushes[..], id, lo, mins, maxs, t, range, copy, m, u, l);
      nodes := nodes[id := nodes[id].(range := range)];
    }

    /** One side of the plane is done: its brushes `u` are at `pos`, with a tree whose root is a child of node `id`. */
    twostate predicate SideDone(id: nat, pos: nat, u: seq<nat>, mins: Vec, maxs: Vec, t: Tree, node: Node)
      reads this, leafBrushes
    {
      && Sent(old(leafBrushes[..]), leafBrushes[..], pos, u) && id < |old(nodes)| < |nodes|
      && pos + |u| <= leafBrushes.Length && Attached(brushes, old(nodes), nodes, id, pos, leafBrushes[pos..pos + |u|], t, mins, maxs, node)
    }

    /** The brushes above the plane get a tree of their own, within the upper bounds. */
    method UpperSide(id: nat, pos: nat, copy: seq<nat>, mins: Vec, maxs: Vec, axis: nat, dist: real, ghost m: seq<nat>, ghost u: seq<nat>, ghost l: seq<nat>)
      returns (ok: bool, n0: nat, range: real, ghost t: Tree)
      requires Sorting(copy, axis, dist, mins, maxs, m, u, l) && id < |nodes| && pos + |u| <= leafBrushes.Length
      modifies this`nodes, leafBrushes
      ensures ok ==> n0 == |u| && 0.0 <= range && Known(brushes, u) && NearestAbove(brushes, u, axis, dist, range, FLT_MAX)
      ensures ok ==> SideDone(id, pos, u, mins[axis := dist + range], maxs, t, old(nodes)[id].(child0 := |old(nodes)| - id))
      ensures !ok ==> |copy| > 0x7FFF || |nodes| > 0xFFFF
      decreases |copy|, 1
    {
      hide Built, Known, Within, NodeCount, OrAll, Sorted, AllAbove;
      SortingFacts(copy, axis, dist, mins, maxs, m, u, l);
      ghost var a := leafBrushes[..];
      n0, range := PutAbove(copy, pos, axis, dist, FLT_MAX);
      PlacedSlice(a, leafBrushes[..], pos, u);
      AboveWithin(brushes, u, axis, dist + range, mins, maxs);
      ghost var a', nodes0 := leafBrushes[..], nodes;
      var child;
      ok, child, t := PartitionLeafBrushes_r(pos, n0, mins[axis := dist + range], maxs);
      if !ok {
        return;
      }
      BuiltIsTree(brushes, nodes, leafBrushes[pos..pos + n0], child, t, pos, mins[axis := dist + range], maxs);
      if child - id > 0xFFFF {
        ok := false;
        return;
      }
      ghost var nodes1 := nodes;
      nodes := nodes[id := nodes[id].(child0 := child - id, contents := Or(nodes[id].contents, nodes[child].contents))];
      BuiltFrame(brushes, nodes1, nodes, leafBrushes[pos..pos + n0], child, t, pos, mins[axis := dist + range], maxs);
      PlacedThenSent(a, a', leafBrushes[..], pos, u);
    }

    /** The brushes below the plane get a tree of their own, within the lower bounds. */
    method LowerSide(id: nat, pos: nat, copy: seq<nat>, mins: Vec, maxs: Vec, axis: nat, dist: real, reach: real,
        ghost m: seq<nat>, ghost u: seq<nat>, ghost l: seq<nat>)
      returns (ok: bool, n1: nat, range: real, ghost t: Tree)
      requires Sorting(copy, axis, dist, mins, maxs, m, u, l) && id < |nodes| && pos + |l| <= leafBrushes.Length && reach >= 0.0
      modifies this`nodes, leafBrushes
      ensures ok ==> n1 == |l| && 0.0 <= range <= reach && Known(brushes, l) && NearestBelow(brushes, l, axis, dist, range, reach)
      ensures ok ==> SideDone(id, pos, l, mins, maxs[axis := dist - range], t, old(nodes)[id].(child1 := |old(nodes)| - id))
      ensures !ok ==> |copy| > 0x7FFF || |nodes| > 0xFFFF
      decreases |copy|, 1
    {
      hide Built, Known, Within, NodeCount, OrAll, Sorted, AllBelow;
      SortingFacts(copy, axis, dist, mins, maxs, m, u, l);
      ghost var a := leafBrushes[..];
      n1, range := PutBelow(copy, pos, axis, dist, reach);
      PlacedSlice(a, leafBrushes[..], pos, l);
      BelowWithin(brushes, l, axis, dist - range, mins, maxs);
      ghost var a', nodes0 := leafBrushes[..], nodes;
      var child;
      ok, child, t := PartitionLeafBrushes_r(pos, n1, mins, maxs[axis := dist - range]);
      if !ok {
        return;
      }
      BuiltIsTree(brushes, nodes, leafBrushes[pos..pos + n1], child, t, pos, mins, maxs[axis := dist - range]);
      if child - id > 0xFFFF {
        ok := false;
        return;
      }
      ghost var nodes1 := nodes;
      nodes := nodes[id := nodes[id].(child1 := child - id, contents := Or(nodes[id].contents, nodes[child].contents))];
      BuiltFrame(brushes, nodes1, nodes, leafBrushes[pos..pos + n1], child, t, pos, mins, maxs[axis := dist - range]);
      PlacedThenSent(a, a', leafBrushes[..], pos, l);
    }

    /** The bounds of the brushes at `lo` and the tree over them; the leaf's bounds are an eighth wider. Nothing is done for no brushes. */
    method PartitionLeafBrushes(lo: nat, n: nat) returns (ok: bool, mins: Vec, maxs: Vec, leafMins: Vec, leafMaxs: Vec, id: nat, ghost t: Tree)
      requires lo + n <= leafBrushes.Length && Known(brushes, leafBrushes[lo..lo + n])
      modifies this`nodes, leafBrushes
      ensures n == 0 ==> leafBrushes[..] == old(leafBrushes[..]) && nodes == old(nodes)
      ensures n > 0 ==> IsHull(brushes, old(leafBrushes[lo..lo + n]), mins, maxs)
      ensures n > 0 ==> forall a :: 0 <= a < 3 ==> leafMins[a] == mins[a] - 0.125 && leafMaxs[a] == maxs[a] + 0.125
      ensures n > 0 && ok ==> Done(lo, n, mins, maxs, id, t)
      ensures !ok ==> n > 0x7FFF || |nodes| > 0xFFFF
    {
      hide Built, NodeCount, OrAll;
      if n == 0 {
        ok, t, mins, maxs, leafMins, leafMaxs, id := true, NoTree, [0.0, 0.0, 0.0], [0.0, 0.0, 0.0], [0.0, 0.0, 0.0], [0.0, 0.0, 0.0], 0;
        return;
      }
      mins, maxs := Hull(lo, n);
      HullWithin(brushes, leafBrushes[lo..lo + n], mins, maxs);
      leafMins, leafMaxs := mins, maxs;
      for j: nat := 0 to 3
        invariant forall a :: 0 <= a < j ==> leafMins[a] == mins[a] - 0.125 && leafMaxs[a] == maxs[a] + 0.125
        invariant forall a :: j <= a < 3 ==> leafMins[a] == mins[a] && leafMaxs[a] == maxs[a]
      {
        leafMins := leafMins[j := leafMins[j] - 0.125];
        leafMaxs := leafMaxs[j := leafMaxs[j] + 0.125];
      }
      ok, id, t := PartitionLeafBrushes_r(lo, n, mins, maxs);
    }

    /** The smallest box around the brushes. */
    method Hull(lo: nat, n: nat) returns (mins: Vec, maxs: Vec)
      requires lo + n <= leafBrushes.Length && n > 0 && Known(brushes, leafBrushes[lo..lo + n])
      ensures IsHull(brushes, leafBrushes[lo..lo + n], mins, maxs)
    {
      hide HullSoFar;
      ghost var s := leafBrushes[lo..lo + n];
      NoHull(brushes, s);
      mins, maxs := [FLT_MAX, FLT_MAX, FLT_MAX], [-FLT_MAX, -FLT_MAX, -FLT_MAX];
      for k: nat := 0 to n
        invariant forall a :: 0 <= a < 3 ==> HullSoFar(brushes, s, k, a, mins[a], maxs[a])
      {
        assert leafBrushes[lo + k] == s[k];
        var b := brushes[leafBrushes[lo + k]];
        assert BrushOk(b);
        for j: nat := 0 to 3
          invariant forall a :: 0 <= a < 3 ==> HullSoFar(brushes, s, if a < j then k + 1 else k, a, mins[a], maxs[a])
        {
          HullStep(brushes, s, k, j, mins[j], maxs[j]);
          if mins[j] > b.mins[j] {
            mins := mins[j := b.mins[j]];
          }
          if b.maxs[j] > maxs[j] {
            maxs := maxs[j := b.maxs[j]];
          }
        }
      }
    }
  }

  /** `a'` is `a` with `s` written from `pos` on. */
  ghost predicate Placed(a: seq<nat>, a': seq<nat>, pos: nat, s: seq<nat>) {
    && |a'| == |a| && pos + |s| <= |a|
    && (forall i :: 0 <= i < |s| ==> a'[pos + i] == s[i])
    && (forall i :: 0 <= i < |a| && (i < pos || i >= pos + |s|) ==> a'[i] == a[i])
  }

  /** The first `k` of the brushes in `copy` have been sorted: those on the side are at `pos`, and the range is that of the nearest. */
  ghost predicate PutSoFar(
      bs: seq<Brush>, copy: seq<nat>, k: nat, axis: nat, dist: real, side: Side, a: seq<nat>, a': seq<nat>, pos: nat, count: nat, range': real, range: real)
  {
    && Known(bs, copy) && k <= |copy| && axis < 3 && !side.Straddling?
    && var done := Sorted(bs, copy[..k], axis, dist, side);
      && |done| == count && Placed(a, a', pos, done) && Known(bs, done)
      && if side == Above then NearestAbove(bs, done, axis, dist, range', range) else NearestBelow(bs, done, axis, dist, range', range)
  }

  lemma PutNothing(bs: seq<Brush>, copy: seq<nat>, axis: nat, dist: real, side: Side, a: seq<nat>, pos: nat, range: real)
    requires Known(bs, copy) && axis < 3 && !side.Straddling? && pos <= |a| && 0.0 <= range
    ensures PutSoFar(bs, copy, 0, axis, dist, side, a, a, pos, 0, range, range)
  {
    hide Placed, Sorted, NearestAbove, NearestBelow;
    NoneNearer(bs, axis, dist, range);
    NoneSorted(bs, copy, axis, dist, side);
    NothingPlaced(a, pos);
  }

  lemma PutStep(
      bs: seq<Brush>, copy: seq<nat>, k: nat, axis: nat, dist: real, side: Side, a: seq<nat>, a': seq<nat>, pos: nat, count: nat, range': real, range: real)
    requires PutSoFar(bs, copy, k, axis, dist, side, a, a', pos, count, range', range) && k < |copy|
    requires Known(bs, copy) && axis < 3 && pos + |Sorted(bs, copy, axis, dist, side)| <= |a|
    ensures copy[k] < |bs| && !side.Straddling?
    ensures var b := bs[copy[k]];
      if OnSide(b, axis, dist, side) then
        && pos + count < |a| == |a'|
        && PutSoFar(bs, copy, k + 1, axis, dist, side, a, a'[pos + count := copy[k]], pos, count + 1, Closer(range', Gap(b, axis, dist, side)), range)
      else PutSoFar(bs, copy, k + 1, axis, dist, side, a, a', pos, count, range', range)
  {
    hide Placed, Sorted, NearestAbove, NearestBelow, OnSide, Gap, Closer, Known, BrushOk;
    KnownAt(bs, copy, k);
    SortedStep(bs, copy, k, axis, dist, side);
    var done := Sorted(bs, copy[..k], axis, dist, side);
    if OnSide(bs[copy[k]], axis, dist, side) {
      if side == Above {
        NearerAbove(bs, done, copy[k], axis, dist, range', range);
      } else {
        NearerBelow(bs, done, copy[k], axis, dist, range', range);
      }
      PlacedMore(a, a', pos, done, copy[k]);
    }
  }

  lemma PutAll(
      bs: seq<Brush>, copy: seq<nat>, axis: nat, dist: real, side: Side, a: seq<nat>, a': seq<nat>, pos: nat, count: nat, range': real, range: real)
    requires PutSoFar(bs, copy, |copy|, axis, dist, side, a, a', pos, count, range', range)
    ensures Known(bs, copy) && axis < 3 && Placed(a, a', pos, Sorted(bs, copy, axis, dist, side)) && count == |Sorted(bs, copy, axis, dist, side)|
    ensures Known(bs, Sorted(bs, copy, axis, dist, side))
    ensures side == Above ==> NearestAbove(bs, Sorted(bs, copy, axis, dist, side), axis, dist, range', range)
    ensures side == Below ==> NearestBelow(bs, Sorted(bs, copy, axis, dist, side), axis, dist, range', range)
  {
    hide Placed, Sorted, NearestAbove, NearestBelow, Known;
    assert copy[..|copy|] == copy;
  }

  lemma NoneNearer(bs: seq<Brush>, axis: nat, dist: real, range: real)
    requires axis < 3 && 0.0 <= range
    ensures NearestAbove(bs, [], axis, dist, range, range) && NearestBelow(bs, [], axis, dist, range, range)
  {}

  lemma NoneSorted(bs: seq<Brush>, s: seq<nat>, axis: nat, dist: real, side: Side)
    requires Known(bs, s) && axis < 3
    ensures s[..0] == [] && Known(bs, []) && Sorted(bs, [], axis, dist, side) == []
  {}

  lemma KnownAt(bs: seq<Brush>, s: seq<nat>, k: nat)
    requires Known(bs, s) && k < |s|
    ensures s[k] < |bs| && BrushOk(bs[s[k]]) && Known(bs, s[..k]) && Known(bs, s[..k + 1])
  {}

  lemma NothingPlaced(a: seq<nat>, pos: nat)
    requires pos <= |a|
    ensures Placed(a, a, pos, [])
  {}

  lemma PlacedMore(a: seq<nat>, a': seq<nat>, pos: nat, s: seq<nat>, x: nat)
    requires Placed(a, a', pos, s) && pos + |s| < |a|
    ensures |a'| == |a| && Placed(a, a'[pos + |s| := x], pos, s + [x])
  {}

  function Closer(range: real, far: real): real {
    if far - range < 0.0 then far else range
  }

  /** One more brush above the plane. */
  lemma NearerAbove(bs: seq<Brush>, s: seq<nat>, x: nat, axis: nat, dist: real, range: real, from: real)
    requires Known(bs, s) && axis < 3 && NearestAbove(bs, s, axis, dist, range, from)
    requires x < |bs| && BrushOk(bs[x]) && OnSide(bs[x], axis, dist, Above)
    ensures Known(bs, s + [x])
    ensures NearestAbove(bs, s + [x], axis, dist, Closer(range, Gap(bs[x], axis, dist, Above)), from)
  {
    var t, far := s + [x], Gap(bs[x], axis, dist, Above);
    if far - range < 0.0 {
      assert bs[t[|s|]].mins[axis] == dist + far;
    } else if range != from {
      var k :| 0 <= k < |s| && bs[s[k]].mins[axis] == dist + range;
      assert t[k] == s[k];
    }
  }

  lemma NearerBelow(bs: seq<Brush>, s: seq<nat>, x: nat, axis: nat, dist: real, range: real, from: real)
    requires Known(bs, s) && axis < 3 && NearestBelow(bs, s, axis, dist, range, from)
    requires x < |bs| && BrushOk(bs[x]) && OnSide(bs[x], axis, dist, Below)
    ensures Known(bs, s + [x])
    ensures NearestBelow(bs, s + [x], axis, dist, Closer(range, Gap(bs[x], axis, dist, Below)), from)
  {
    var t, far := s + [x], Gap(bs[x], axis, dist, Below);
    if far - range < 0.0 {
      assert bs[t[|s|]].maxs[axis] == dist - far;
    } else if range != from {
      var k :| 0 <= k < |s| && bs[s[k]].maxs[axis] == dist - range;
      assert t[k] == s[k];
    }
  }

  /** What sorting has found after one more brush. */
  lemma SortedStep(bs: seq<Brush>, s: seq<nat>, k: nat, axis: nat, dist: real, side: Side)
    requires Known(bs, s) && k < |s| && axis < 3
    ensures var r, r' := Sorted(bs, s[..k], axis, dist, side), Sorted(bs, s[..k + 1], axis, dist, side);
      && r' == (if OnSide(bs[s[k]], axis, dist, side) then r + [s[k]] else r) && |r'| <= |Sorted(bs, s, axis, dist, side)|
  {
    assert s[..k + 1][..k] == s[..k];
    SortedGrows(bs, s, k + 1, axis, dist, side);
  }

  lemma {:induction false} SortedGrows(bs: seq<Brush>, s: seq<nat>, k: nat, axis: nat, dist: real, side: Side)
    requires Known(bs, s) && k <= |s| && axis < 3
    ensures |Sorted(bs, s[..k], axis, dist, side)| <= |Sorted(bs, s, axis, dist, side)|
    decreases |s|
  {
    if k == |s| {
      assert s[..k] == s;
    } else {
      assert s[..|s| - 1][..k] == s[..k];
      SortedGrows(bs, s[..|s| - 1], k, axis, dist, side);
    }
  }

  /** Only the slice of `n` at `lo` is rearranged. */
  ghost predicate Rearranged(a: seq<nat>, a': seq<nat>, lo: nat, n: nat) {
    && |a'| == |a| && lo + n <= |a| && multiset(a'[lo..lo + n]) == multiset(a[lo..lo + n])
    && (forall i :: 0 <= i < |a| && (i < lo || i >= lo + n) ==> a'[i] == a[i])
  }

  lemma PlacedSlice(a: seq<nat>, a': seq<nat>, pos: nat, s: seq<nat>)
    requires Placed(a, a', pos, s)
    ensures a'[pos..pos + |s|] == s
  {}

  /** The parts of sorted brushes lie where the whole does. */
  lemma PartWithin(bs: seq<Brush>, s: seq<nat>, m: seq<nat>, u: seq<nat>, l: seq<nat>, mins: Vec, maxs: Vec)
    requires Known(bs, s) && Within(bs, s, mins, maxs) && multiset(m) + multiset(u) + multiset(l) == multiset(s)
    ensures Known(bs, m) && Within(bs, m, mins, maxs) && Known(bs, u) && Within(bs, u, mins, maxs) && Known(bs, l) && Within(bs, l, mins, maxs)
  {
    forall x | x in m || x in u || x in l
      ensures x in s
    {
      assert x in multiset(m) + multiset(u) + multiset(l);
    }
    ElementsWithin(bs, s, m, mins, maxs);
    ElementsWithin(bs, s, u, mins, maxs);
    ElementsWithin(bs, s, l, mins, maxs);
  }

  lemma ElementsWithin(bs: seq<Brush>, s: seq<nat>, r: seq<nat>, mins: Vec, maxs: Vec)
    requires Known(bs, s) && Within(bs, s, mins, maxs) && forall x :: x in r ==> x in s
    ensures Known(bs, r) && Within(bs, r, mins, maxs)
  {
    forall k | 0 <= k < |r|
      ensures r[k] < |bs| && BrushOk(bs[r[k]])
      ensures forall a :: 0 <= a < 3 ==> mins[a] <= bs[r[k]].mins[a] && bs[r[k]].maxs[a] <= maxs[a]
    {
      assert r[k] in s;
      var j :| 0 <= j < |s| && s[j] == r[k];
    }
  }

  /** The elements of `u`, in some order, are at `pos`; nothing else has changed. */
  ghost predicate Sent(a: seq<nat>, a': seq<nat>, pos: nat, u: seq<nat>) {
    && |a'| == |a| && pos + |u| <= |a| && multiset(a'[pos..pos + |u|]) == multiset(u)
    && (forall i :: 0 <= i < |a| && (i < pos || i >= pos + |u|) ==> a'[i] == a[i])
  }

  lemma PlacedThenSent(a: seq<nat>, b: seq<nat>, c: seq<nat>, pos: nat, u: seq<nat>)
    requires Placed(a, b, pos, u) && Rearranged(b, c, pos, |u|)
    ensures Sent(a, c, pos, u)
  {
    PlacedSlice(a, b, pos, u);
  }

  lemma AboveWithin(bs: seq<Brush>, u: seq<nat>, axis: nat, at: real, mins: Vec, maxs: Vec)
    requires axis < 3 && Known(bs, u) && Within(bs, u, mins, maxs) && AllAbove(bs, u, axis, at)
    ensures Within(bs, u, mins[axis := at], maxs)
  {}

  lemma BelowWithin(bs: seq<Brush>, l: seq<nat>, axis: nat, at: real, mins: Vec, maxs: Vec)
    requires axis < 3 && Known(bs, l) && Within(bs, l, mins, maxs) && AllBelow(bs, l, axis, at)
    ensures Within(bs, l, mins, maxs[axis := at])
  {}

  /** Node `id` is a split whose straddlers `s`, if there are any, have a tree right after it. */
  ghost predicate Opened(bs: seq<Brush>, nodes: seq<Node>, id: nat, lo: nat, s: seq<nat>, t: Tree, mins: Vec, maxs: Vec, axis: nat, dist: real) {
    && id < |nodes| == id + 1 + NodeCount(t) && Known(bs, s)
    && nodes[id].axis == axis && nodes[id].dist == dist && nodes[id].contents == OrAll(bs, s)
    && nodes[id].leafBrushCount == (if s == [] then 0 else -1)
    && if s == [] then t == NoTree else Built(bs, nodes, s, id + 1, t, lo, mins, maxs)
  }

  /** The tree of `s` has been appended to the nodes, and node `id` has become `node`, with its contents added. */
  ghost predicate Attached(
      bs: seq<Brush>, nodes: seq<Node>, nodes': seq<Node>, id: nat, pos: nat, s: seq<nat>, t: Tree, mins: Vec, maxs: Vec, node: Node)
  {
    && id < |nodes| < |nodes'| && |nodes'| == |nodes| + NodeCount(t) && |nodes| - id <= 0xFFFF
    && (forall i: nat :: i < |nodes| && i != id ==> nodes'[i] == nodes[i])
    && Built(bs, nodes', s, |nodes|, t, pos, mins, maxs)
    && nodes'[id] == node.(contents := Or(nodes[id].contents, nodes'[|nodes|].contents))
  }

  lemma NoTreeSize()
    ensures NodeCount(NoTree) == 0
  {}

  lemma NoneOfAll(bs: seq<Brush>)
    ensures Known(bs, []) && OrAll(bs, []) == 0
  {}

  /** A slice that lies before or after what is sent is kept. */
  lemma SentElsewhere(a: seq<nat>, b: seq<nat>, pos: nat, u: seq<nat>, lo: nat, n: nat)
    requires Sent(a, b, pos, u) && lo + n <= |a| && (lo + n <= pos || pos + |u| <= lo)
    ensures |b| == |a| && b[lo..lo + n] == a[lo..lo + n]
  {
    var s, r := b[lo..lo + n], a[lo..lo + n];
    forall i | 0 <= i < n
      ensures s[i] == r[i]
    {
      assert b[lo + i] == a[lo + i];
    }
  }

  /** What is sent is where it says. */
  lemma SentHere(a: seq<nat>, b: seq<nat>, pos: nat, u: seq<nat>)
    requires Sent(a, b, pos, u)
    ensures |b| == |a| && pos + |u| <= |a| && multiset(b[pos..pos + |u|]) == multiset(u)
  {}

  /** The three parts stay where they are put. */
  lemma SentParts(a: seq<nat>, b: seq<nat>, c: seq<nat>, d: seq<nat>, lo: nat, m: seq<nat>, u: seq<nat>, l: seq<nat>)
    requires Sent(a, b, lo, m) && Sent(b, c, lo + |m|, u) && Sent(c, d, lo + |m| + |u|, l)
    ensures |d| == |c| == |b| == |a| && lo + |m| + |u| + |l| <= |a|
    ensures d[lo..lo + |m|] == b[lo..lo + |m|] && d[lo + |m|..lo + |m| + |u|] == c[lo + |m|..lo + |m| + |u|]
    ensures multiset(d[lo..lo + |m|]) == multiset(m) && multiset(d[lo + |m|..lo + |m| + |u|]) == multiset(u)
    ensures multiset(d[lo + |m| + |u|..lo + |m| + |u| + |l|]) == multiset(l)
  {
    hide Sent;
    SentHere(a, b, lo, m);
    SentHere(b, c, lo + |m|, u);
    SentHere(c, d, lo + |m| + |u|, l);
    SentElsewhere(b, c, lo + |m|, u, lo, |m|);
    SentElsewhere(c, d, lo + |m| + |u|, l, lo, |m|);
    SentElsewhere(c, d, lo + |m| + |u|, l, lo + |m|, |u|);
  }

  lemma SentOutside(a: seq<nat>, b: seq<nat>, c: seq<nat>, d: seq<nat>, lo: nat, m: seq<nat>, u: seq<nat>, l: seq<nat>)
    requires Sent(a, b, lo, m) && Sent(b, c, lo + |m|, u) && Sent(c, d, lo + |m| + |u|, l)
    ensures |d| == |a| && forall i :: 0 <= i < |a| && (i < lo || i >= lo + |m| + |u| + |l|) ==> d[i] == a[i]
  {}

  /** The three parts, one after the other, are the whole slice rearranged. */
  lemma SentAll(a: seq<nat>, b: seq<nat>, c: seq<nat>, d: seq<nat>, lo: nat, copy: seq<nat>, m: seq<nat>, u: seq<nat>, l: seq<nat>)
    requires lo + |copy| <= |a| && copy == a[lo..lo + |copy|]
    requires multiset(m) + multiset(u) + multiset(l) == multiset(copy) && |m| + |u| + |l| == |copy|
    requires Sent(a, b, lo, m) && Sent(b, c, lo + |m|, u) && Sent(c, d, lo + |m| + |u|, l)
    ensures Rearranged(a, d, lo, |copy|) && |d| == |c| == |b| == |a|
    ensures d[lo..lo + |m|] == b[lo..lo + |m|] && d[lo + |m|..lo + |m| + |u|] == c[lo + |m|..lo + |m| + |u|]
    ensures multiset(d[lo..lo + |m|]) == multiset(m) && multiset(d[lo + |m|..lo + |m| + |u|]) == multiset(u)
    ensures multiset(d[lo + |m| + |u|..lo + |copy|]) == multiset(l)
  {
    hide Sent;
    SentParts(a, b, c, d, lo, m, u, l);
    SentOutside(a, b, c, d, lo, m, u, l);
    SentWhole(a, b, c, d, lo, copy, m, u, l);
  }

  lemma SentWhole(a: seq<nat>, b: seq<nat>, c: seq<nat>, d: seq<nat>, lo: nat, copy: seq<nat>, m: seq<nat>, u: seq<nat>, l: seq<nat>)
    requires multiset(m) + multiset(u) + multiset(l) == multiset(copy) && |m| + |u| + |l| == |copy|
    requires Sent(a, b, lo, m) && Sent(b, c, lo + |m|, u) && Sent(c, d, lo + |m| + |u|, l)
    ensures lo + |copy| <= |d| && multiset(d[lo..lo + |copy|]) == multiset(copy)
  {
    hide *;
    SentParts(a, b, c, d, lo, m, u, l);
    PartsMakeWhole(d, lo, |copy|, |m|, |u|, |l|);
  }

  lemma PartsMakeWhole(d: seq<nat>, lo: nat, n: nat, nm: nat, n0: nat, n1: nat)
    requires lo + n <= |d| && n == nm + n0 + n1
    ensures multiset(d[lo..lo + n])
      == multiset(d[lo..lo + nm]) + multiset(d[lo + nm..lo + nm + n0]) + multiset(d[lo + nm + n0..lo + nm + n0 + n1])
  {
    Slices(d, lo, nm, n0, n1);
    var s := d[lo..lo + nm + n0 + n1];
    Thirds(s, nm, n0);
    Joined(s[..nm], s[nm..nm + n0], s[nm + n0..], s);
  }

  lemma Thirds(s: seq<nat>, i: nat, j: nat)
    requires i + j <= |s|
    ensures s == s[..i] + s[i..i + j] + s[i + j..]
  {}

  lemma Joined(a: seq<nat>, b: seq<nat>, c: seq<nat>, s: seq<nat>)
    requires s == a + b + c
    ensures multiset(s) == multiset(a) + multiset(b) + multiset(c)
  {}

  lemma Slices(a: seq<nat>, lo: nat, nm: nat, n0: nat, n1: nat)
    requires lo + nm + n0 + n1 <= |a|
    ensures var s := a[lo..lo + nm + n0 + n1];
      s[..nm] == a[lo..lo + nm] && s[nm..nm + n0] == a[lo + nm..lo + nm + n0] && s[nm + n0..] == a[lo + nm + n0..lo + nm + n0 + n1]
  {
    var s := a[lo..lo + nm + n0 + n1];
    Slice(a, lo, nm + n0 + n1, 0, nm);
    Slice(a, lo, nm + n0 + n1, nm, n0);
    Slice(a, lo, nm + n0 + n1, nm + n0, n1);
    assert s[..nm] == s[0..nm] && s[nm + n0..] == s[nm + n0..nm + n0 + n1];
  }

  lemma Slice(a: seq<nat>, lo: nat, n: nat, from: nat, count: nat)
    requires lo + n <= |a| && from + count <= n
    ensures a[lo..lo + n][from..from + count] == a[lo + from..lo + from + count]
  {
    var s, r := a[lo..lo + n][from..from + count], a[lo + from..lo + from + count];
    assert |s| == |r|;
    forall k | 0 <= k < count
      ensures s[k] == r[k]
    {
      assert s[k] == a[lo..lo + n][from + k];
    }
  }

  /** The three parts of a split make the finished node, over the rearranged slice. */
  lemma PartsTogether(
      bs: seq<Brush>, nodesM: seq<Node>, nodesU: seq<Node>, nodesL: seq<Node>, a: seq<nat>, b: seq<nat>, c: seq<nat>, d: seq<nat>,
      id: nat, lo: nat, mins: Vec, maxs: Vec, t: Tree, range: real, copy: seq<nat>, m: seq<nat>, u: seq<nat>, l: seq<nat>)
    requires t.Split? && t.axis < 3 && t.nm == |m| && t.n0 == |u| > 0 && t.n1 == |l| > 0 && 0.0 <= range <= t.reach
    requires lo + |copy| <= |a| && copy == a[lo..lo + |copy|] && Known(bs, copy) && Within(bs, copy, mins, maxs)
    requires BestSplit(bs, copy, t.axis, t.dist, mins, maxs)
    requires multiset(m) + multiset(u) + multiset(l) == multiset(copy) && |m| + |u| + |l| == |copy|
    requires Sent(a, b, lo, m) && Sent(b, c, lo + |m|, u) && Sent(c, d, lo + |m| + |u|, l)
    requires Known(bs, m) && AllStraddle(bs, m, t.axis, t.dist) && Known(bs, u) && NearestAbove(bs, u, t.axis, t.dist, t.reach, FLT_MAX)
    requires Known(bs, l) && NearestBelow(bs, l, t.axis, t.dist, range, t.reach)
    requires lo + |m| <= |b| && Opened(bs, nodesM, id, lo, b[lo..lo + |m|], t.mid, mins, maxs, t.axis, t.dist)
    requires id < |nodesM| && lo + |m| + |u| <= |c|
    requires Attached(bs, nodesM, nodesU, id, lo + |m|, c[lo + |m|..lo + |m| + |u|], t.upper, mins[t.axis := t.dist + t.reach], maxs,
                      nodesM[id].(child0 := |nodesM| - id))
    requires id < |nodesU| && lo + |copy| <= |d|
    requires Attached(bs, nodesU, nodesL, id, lo + |m| + |u|, d[lo + |m| + |u|..lo + |m| + |u| + |l|], t.lower, mins, maxs[t.axis := t.dist - range],
                      nodesU[id].(child1 := |nodesU| - id))
    ensures Rearranged(a, d, lo, |copy|) && id < |nodesL| && nodesL[..id] == nodesM[..id]
    ensures var nodes := nodesL[id := nodesL[id].(range := range)];
      Built(bs, nodes, d[lo..lo + |copy|], id, t, lo, mins, maxs) && |nodes| == id + NodeCount(t)
  {
    hide Built, Known, Within, NodeCount, OrAll, NearestAbove, NearestBelow, AllStraddle, Opened, Attached, Sent, Rearranged, PartsDone, BestSplit;
    var s := d[lo..lo + |copy|];
    SlicesSent(a, b, c, d, lo, copy, m, u, l);
    PartsAreDone(bs, nodesM, nodesU, nodesL, s, id, lo, mins, maxs, t, range, m, u, l);
    AttachedKeeps(bs, nodesM, nodesU, nodesL, s, id, lo, mins, maxs, t, range, m, u, l);
    SplitDone(bs, nodesM, nodesU, nodesL, nodesL[id := nodesL[id].(range := range)], s, id, lo, mins, maxs, t, range, copy, m, u, l);
  }

  /** The parts of the slice are where they were sent. */
  lemma SlicesSent(a: seq<nat>, b: seq<nat>, c: seq<nat>, d: seq<nat>, lo: nat, copy: seq<nat>, m: seq<nat>, u: seq<nat>, l: seq<nat>)
    requires lo + |copy| <= |a| && copy == a[lo..lo + |copy|]
    requires multiset(m) + multiset(u) + multiset(l) == multiset(copy) && |m| + |u| + |l| == |copy|
    requires Sent(a, b, lo, m) && Sent(b, c, lo + |m|, u) && Sent(c, d, lo + |m| + |u|, l)
    ensures Rearranged(a, d, lo, |copy|) && |d| == |c| == |b| == |a|
    ensures var s := d[lo..lo + |copy|];
      && multiset(s) == multiset(copy)
      && s[..|m|] == b[lo..lo + |m|] && multiset(s[..|m|]) == multiset(m)
      && s[|m|..|m| + |u|] == c[lo + |m|..lo + |m| + |u|] && multiset(s[|m|..|m| + |u|]) == multiset(u)
      && s[|m| + |u|..] == d[lo + |m| + |u|..lo + |m| + |u| + |l|] && multiset(s[|m| + |u|..]) == multiset(l)
  {
    hide Sent;
    SentAll(a, b, c, d, lo, copy, m, u, l);
    Slices(d, lo, |m|, |u|, |l|);
  }

  lemma PartsAreDone(
      bs: seq<Brush>, nodesM: seq<Node>, nodesU: seq<Node>, nodesL: seq<Node>, s: seq<nat>, id: nat, lo: nat, mins: Vec, maxs: Vec, t: Tree,
      range: real, m: seq<nat>, u: seq<nat>, l: seq<nat>)
    requires t.Split? && t.axis < 3 && t.nm == |m| && t.n0 == |u| > 0 && t.n1 == |l| > 0 && |s| == |m| + |u| + |l| && 0.0 <= range <= t.reach
    requires Known(bs, m) && AllStraddle(bs, m, t.axis, t.dist) && multiset(s[..t.nm]) == multiset(m)
    requires Known(bs, u) && NearestAbove(bs, u, t.axis, t.dist, t.reach, FLT_MAX) && multiset(s[t.nm..t.nm + t.n0]) == multiset(u)
    requires Known(bs, l) && NearestBelow(bs, l, t.axis, t.dist, range, t.reach) && multiset(s[t.nm + t.n0..]) == multiset(l)
    requires Opened(bs, nodesM, id, lo, s[..t.nm], t.mid, mins, maxs, t.axis, t.dist)
    requires id < |nodesM| && Attached(bs, nodesM, nodesU, id, lo + t.nm, s[t.nm..t.nm + t.n0], t.upper, mins[t.axis := t.dist + t.reach], maxs,
                                       nodesM[id].(child0 := |nodesM| - id))
    requires id < |nodesU| && Attached(bs, nodesU, nodesL, id, lo + t.nm + t.n0, s[t.nm + t.n0..], t.lower, mins, maxs[t.axis := t.dist - range],
                                       nodesU[id].(child1 := |nodesU| - id))
    ensures PartsDone(bs, nodesM, nodesU, nodesL, s, id, lo, mins, maxs, t, range, m, u, l)
  {
    hide Opened, Attached, NearestAbove, NearestBelow, AllStraddle;
  }

  /** Attaching children to node `id` keeps the nodes before it. */
  lemma AttachedKeeps(
      bs: seq<Brush>, nodesM: seq<Node>, nodesU: seq<Node>, nodesL: seq<Node>, s: seq<nat>, id: nat, lo: nat, mins: Vec, maxs: Vec, t: Tree,
      range: real, m: seq<nat>, u: seq<nat>, l: seq<nat>)
    requires PartsDone(bs, nodesM, nodesU, nodesL, s, id, lo, mins, maxs, t, range, m, u, l)
    ensures id < |nodesM| && id < |nodesL| && nodesL[..id] == nodesM[..id]
  {
    hide Built, Known, NodeCount, OrAll, NearestAbove, NearestBelow, AllStraddle;
  }

  /** The elements of a list are those of another with the same multiset. */
  lemma SameElements(s: seq<nat>, r: seq<nat>)
    requires multiset(s) == multiset(r)
    ensures |s| == |r| && forall x :: x in s ==> x in r
  {
    assert |multiset(s)| == |s| && |multiset(r)| == |r|;
    forall x | x in s
      ensures x in r
    {
      assert x in multiset(s);
    }
  }

  lemma PermutedWithin(bs: seq<Brush>, s: seq<nat>, r: seq<nat>, mins: Vec, maxs: Vec)
    requires multiset(s) == multiset(r) && Known(bs, r) && Within(bs, r, mins, maxs)
    ensures Known(bs, s) && Within(bs, s, mins, maxs)
  {
    SameElements(s, r);
    ElementsWithin(bs, r, s, mins, maxs);
  }

  lemma PermutedStraddle(bs: seq<Brush>, s: seq<nat>, r: seq<nat>, axis: nat, dist: real)
    requires multiset(s) == multiset(r) && Known(bs, r) && Known(bs, s) && axis < 3 && AllStraddle(bs, r, axis, dist)
    ensures AllStraddle(bs, s, axis, dist)
  {
    SameElements(s, r);
    forall k | 0 <= k < |s|
      ensures bs[s[k]].mins[axis] < dist < bs[s[k]].maxs[axis]
    {
      assert s[k] in r;
      var j :| 0 <= j < |r| && r[j] == s[k];
    }
  }

  lemma PermutedAbove(bs: seq<Brush>, s: seq<nat>, r: seq<nat>, axis: nat, dist: real, range: real, from: real)
    requires multiset(s) == multiset(r) && Known(bs, r) && Known(bs, s) && axis < 3 && NearestAbove(bs, r, axis, dist, range, from)
    ensures NearestAbove(bs, s, axis, dist, range, from)
  {
    SameElements(s, r);
    SameElements(r, s);
    forall k | 0 <= k < |s|
      ensures bs[s[k]].mins[axis] >= dist + range
    {
      assert s[k] in r;
      var j :| 0 <= j < |r| && r[j] == s[k];
    }
    if range != from {
      var k :| 0 <= k < |r| && bs[r[k]].mins[axis] == dist + range;
      assert r[k] in s;
      var j :| 0 <= j < |s| && s[j] == r[k];
    }
  }

  lemma PermutedBelow(bs: seq<Brush>, s: seq<nat>, r: seq<nat>, axis: nat, dist: real, range: real, from: real)
    requires multiset(s) == multiset(r) && Known(bs, r) && Known(bs, s) && axis < 3 && NearestBelow(bs, r, axis, dist, range, from)
    ensures NearestBelow(bs, s, axis, dist, range, from)
  {
    SameElements(s, r);
    SameElements(r, s);
    forall k | 0 <= k < |s|
      ensures bs[s[k]].maxs[axis] <= dist - range
    {
      assert s[k] in r;
      var j :| 0 <= j < |r| && r[j] == s[k];
    }
    if range != from {
      var k :| 0 <= k < |r| && bs[r[k]].maxs[axis] == dist - range;
      assert r[k] in s;
      var j :| 0 <= j < |s| && s[j] == r[k];
    }
  }

  /** What is known of the parts of a split when its last child is done. */
  ghost predicate PartsDone(
      bs: seq<Brush>, nodesM: seq<Node>, nodesU: seq<Node>, nodesL: seq<Node>, s: seq<nat>, id: nat, lo: nat, mins: Vec, maxs: Vec, t: Tree,
      range: real, m: seq<nat>, u: seq<nat>, l: seq<nat>)
  {
    && t.Split? && t.axis < 3 && t.nm == |m| && t.n0 == |u| > 0 && t.n1 == |l| > 0 && |s| == |m| + |u| + |l| && 0.0 <= range <= t.reach
    && Known(bs, m) && AllStraddle(bs, m, t.axis, t.dist) && multiset(s[..t.nm]) == multiset(m)
    && Known(bs, u) && NearestAbove(bs, u, t.axis, t.dist, t.reach, FLT_MAX) && multiset(s[t.nm..t.nm + t.n0]) == multiset(u)
    && Known(bs, l) && NearestBelow(bs, l, t.axis, t.dist, range, t.reach) && multiset(s[t.nm + t.n0..]) == multiset(l)
    && Opened(bs, nodesM, id, lo, s[..t.nm], t.mid, mins, maxs, t.axis, t.dist)
    && Attached(bs, nodesM, nodesU, id, lo + t.nm, s[t.nm..t.nm + t.n0], t.upper, mins[t.axis := t.dist + t.reach], maxs,
                nodesM[id].(child0 := |nodesM| - id))
    && Attached(bs, nodesU, nodesL, id, lo + t.nm + t.n0, s[t.nm + t.n0..], t.lower, mins, maxs[t.axis := t.dist - range],
                nodesU[id].(child1 := |nodesU| - id))
  }

  /** The finished split node and its children. */
  lemma SplitDone(
      bs: seq<Brush>, nodesM: seq<Node>, nodesU: seq<Node>, nodesL: seq<Node>, nodes: seq<Node>, s: seq<nat>, id: nat, lo: nat,
      mins: Vec, maxs: Vec, t: Tree, range: real, copy: seq<nat>, m: seq<nat>, u: seq<nat>, l: seq<nat>)
    requires PartsDone(bs, nodesM, nodesU, nodesL, s, id, lo, mins, maxs, t, range, m, u, l)
    requires Known(bs, copy) && Within(bs, copy, mins, maxs) && multiset(s) == multiset(copy) && t.axis < 3
    requires BestSplit(bs, copy, t.axis, t.dist, mins, maxs)
    requires id < |nodesL| && nodes == nodesL[id := nodesL[id].(range := range)]
    ensures Built(bs, nodes, s, id, t, lo, mins, maxs) && |nodes| == id + NodeCount(t)
  {
    hide Built, Known, Within, NodeCount, OrAll, NearestAbove, NearestBelow, AllStraddle, SplitOk, Children, BestSplit;
    PermutedWithin(bs, s, copy, mins, maxs);
    BestPermuted(bs, copy, s, t.axis, t.dist, mins, maxs);
    SplitNodeOk(bs, nodesM, nodesU, nodesL, nodes, s, id, lo, mins, maxs, t, range, m, u, l);
    SplitChildren(bs, nodesM, nodesU, nodesL, nodes, s, id, lo, mins, maxs, t, range, m, u, l);
    SplitBuilt(bs, nodes, s, id, t, lo, mins, maxs);
  }

  lemma CountSplit(t: Tree)
    requires t.Split?
    ensures NodeCount(t) == 1 + NodeCount(t.mid) + NodeCount(t.upper) + NodeCount(t.lower)
  {}

  lemma SplitNodeOk(
      bs: seq<Brush>, nodesM: seq<Node>, nodesU: seq<Node>, nodesL: seq<Node>, nodes: seq<Node>, s: seq<nat>, id: nat, lo: nat,
      mins: Vec, maxs: Vec, t: Tree, range: real, m: seq<nat>, u: seq<nat>, l: seq<nat>)
    requires PartsDone(bs, nodesM, nodesU, nodesL, s, id, lo, mins, maxs, t, range, m, u, l) && Known(bs, s)
    requires id < |nodesL| && nodes == nodesL[id := nodesL[id].(range := range)]
    ensures s != [] && t.axis < 3 && |s| == t.nm + t.n0 + t.n1 && |nodes| == id + NodeCount(t)
    ensures SplitOk(bs, nodes[id], s, t) && nodes[id].contents == OrAll(bs, s)
  {
    hide Built, Within, NodeCount, OrAll, NearestAbove, NearestBelow, AllStraddle, Or;
    var sm, su, sl := s[..t.nm], s[t.nm..t.nm + t.n0], s[t.nm + t.n0..];
    CountSplit(t);
    BuiltIsTree(bs, nodesU, su, |nodesM|, t.upper, lo + t.nm, mins[t.axis := t.dist + t.reach], maxs);
    BuiltIsTree(bs, nodesL, sl, |nodesU|, t.lower, lo + t.nm + t.n0, mins, maxs[t.axis := t.dist - range]);
    hide Known;
    PermutedStraddle(bs, sm, m, t.axis, t.dist);
    PermutedAbove(bs, su, u, t.axis, t.dist, t.reach, FLT_MAX);
    PermutedBelow(bs, sl, l, t.axis, t.dist, range, t.reach);
    OrAllConcat(bs, sm, su);
    OrAllConcat(bs, sm + su, sl);
    assert sm + su + sl == s;
  }

  lemma SplitChildren(
      bs: seq<Brush>, nodesM: seq<Node>, nodesU: seq<Node>, nodesL: seq<Node>, nodes: seq<Node>, s: seq<nat>, id: nat, lo: nat,
      mins: Vec, maxs: Vec, t: Tree, range: real, m: seq<nat>, u: seq<nat>, l: seq<nat>)
    requires PartsDone(bs, nodesM, nodesU, nodesL, s, id, lo, mins, maxs, t, range, m, u, l)
    requires id < |nodesL| && nodes == nodesL[id := nodesL[id].(range := range)]
    ensures t.axis < 3 && |s| == t.nm + t.n0 + t.n1 && id < |nodes| && Children(bs, nodes, s, id, t, lo, mins, maxs)
  {
    hide Built, Known, Within, NodeCount, OrAll, NearestAbove, NearestBelow, AllStraddle, Or;
    var sm, su, sl := s[..t.nm], s[t.nm..t.nm + t.n0], s[t.nm + t.n0..];
    if t.nm > 0 {
      BuiltIsTree(bs, nodesM, sm, id + 1, t.mid, lo, mins, maxs);
      BuiltFrame(bs, nodesM, nodes, sm, id + 1, t.mid, lo, mins, maxs);
    } else {
      NoTreeSize();
    }
    BuiltFrame(bs, nodesU, nodes, su, |nodesM|, t.upper, lo + t.nm, mins[t.axis := t.dist + t.reach], maxs);
    BuiltFrame(bs, nodesL, nodes, sl, |nodesU|, t.lower, lo + t.nm + t.n0, mins, maxs[t.axis := t.dist - range]);
  }

  /** On axis `a`, the first `k` brushes lie between `min` and `max`, and touch both. */
  ghost predicate HullSoFar(bs: seq<Brush>, s: seq<nat>, k: nat, a: nat, min: real, max: real)
    requires Known(bs, s) && k <= |s| && a < 3
  {
    && (forall j :: 0 <= j < k ==> min <= bs[s[j]].mins[a] && bs[s[j]].maxs[a] <= max)
    && if k == 0 then min == FLT_MAX && max == -FLT_MAX
       else (exists j :: 0 <= j < k && bs[s[j]].mins[a] == min) && (exists j :: 0 <= j < k && bs[s[j]].maxs[a] == max)
  }

  lemma NoHull(bs: seq<Brush>, s: seq<nat>)
    requires Known(bs, s)
    ensures HullSoFar(bs, s, 0, 0, FLT_MAX, -FLT_MAX) && HullSoFar(bs, s, 0, 1, FLT_MAX, -FLT_MAX)
    ensures HullSoFar(bs, s, 0, 2, FLT_MAX, -FLT_MAX)
  {}

  lemma HullStep(bs: seq<Brush>, s: seq<nat>, k: nat, a: nat, min: real, max: real)
    requires Known(bs, s) && k < |s| && a < 3 && HullSoFar(bs, s, k, a, min, max)
    ensures var b := bs[s[k]];
      HullSoFar(bs, s, k + 1, a, if min > b.mins[a] then b.mins[a] else min, if b.maxs[a] > max then b.maxs[a] else max)
  {
    assert BrushOk(bs[s[k]]);
  }

  ghost predicate IsHull(bs: seq<Brush>, s: seq<nat>, mins: Vec, maxs: Vec) {
    Known(bs, s) && forall a :: 0 <= a < 3 ==> HullSoFar(bs, s, |s|, a, mins[a], maxs[a])
  }

  lemma HullWithin(bs: seq<Brush>, s: seq<nat>, mins: Vec, maxs: Vec)
    requires IsHull(bs, s, mins, maxs)
    ensures Known(bs, s) && Within(bs, s, mins, maxs)
  {
    forall k, a | 0 <= k < |s| && 0 <= a < 3
      ensures mins[a] <= bs[s[k]].mins[a] && bs[s[k]].maxs[a] <= maxs[a]
    {
      assert HullSoFar(bs, s, |s|, a, mins[a], maxs[a]);
    }
  }

  // ---------------------------------------------------------------- the leaves

  /** The slices of the leaves of a tree over `n` brushes at `lo`, in order. */
  function Leaves(t: Tree, lo: nat, n: nat): seq<(nat, nat)> {
    match t
    case NoTree => []
    case Leaf => [(lo, n)]
    case Split(_, _, _, nm, n0, n1, mid, upper, lower) =>
      Leaves(mid, lo, nm) + Leaves(upper, lo + nm, n0) + Leaves(lower, lo + nm + n0, n1)
  }

  /** The slices follow each other without gaps from `from` to `to`, and none is empty. */
  predicate Tile(s: seq<(nat, nat)>, from: nat, to: nat) {
    if s == [] then from == to else s[0].0 == from && s[0].1 > 0 && Tile(s[1..], from + s[0].1, to)
  }

  lemma {:induction false} TileConcat(a: seq<(nat, nat)>, b: seq<(nat, nat)>, x: nat, y: nat, z: nat)
    requires Tile(a, x, y) && Tile(b, y, z)
    ensures Tile(a + b, x, z)
    decreases |a|
  {
    if a == [] {
      assert a + b == b;
    } else {
      TileConcat(a[1..], b, x + a[0].1, y, z);
      assert (a + b)[1..] == a[1..] + b;
    }
  }

  /** The leaves of a finished tree tile its slice: every brush is in exactly one of them. */
  lemma {:induction false} LeavesTile(bs: seq<Brush>, nodes: seq<Node>, s: seq<nat>, id: nat, t: Tree, lo: nat, mins: Vec, maxs: Vec)
    requires Built(bs, nodes, s, id, t, lo, mins, maxs)
    ensures Tile(Leaves(t, lo, |s|), lo, lo + |s|)
    decreases t
  {
    hide Built, SplitOk, Known, Within, OrAll, NodeCount, Leaves, Tile;
    BuiltIsTree(bs, nodes, s, id, t, lo, mins, maxs);
    if t.Split? {
      SplitParts(bs, nodes, s, id, t, lo, mins, maxs);
      var nm, n0, n1 := t.nm, t.n0, t.n1;
      LeavesOfSplit(t, lo, |s|);
      if nm > 0 {
        LeavesTile(bs, nodes, s[..nm], id + 1, t.mid, lo, mins, maxs);
      } else {
        NoLeaves(lo);
      }
      LeavesTile(bs, nodes, s[nm..nm + n0], id + 1 + NodeCount(t.mid), t.upper, lo + nm, mins[t.axis := t.dist + t.reach], maxs);
      LeavesTile(bs, nodes, s[nm + n0..], id + 1 + NodeCount(t.mid) + NodeCount(t.upper), t.lower, lo + nm + n0,
                 mins, maxs[t.axis := t.dist - nodes[id].range]);
      TileConcat(Leaves(t.mid, lo, nm), Leaves(t.upper, lo + nm, n0), lo, lo + nm, lo + nm + n0);
      TileConcat(Leaves(t.mid, lo, nm) + Leaves(t.upper, lo + nm, n0), Leaves(t.lower, lo + nm + n0, n1), lo, lo + nm + n0, lo + nm + n0 + n1);
    } else {
      OneLeaf(t, lo, |s|);
      assert |s| > 0 by { BuiltNotEmpty(bs, nodes, s, id, t, lo, mins, maxs); }
    }
  }

  lemma BuiltNotEmpty(bs: seq<Brush>, nodes: seq<Node>, s: seq<nat>, id: nat, t: Tree, lo: nat, mins: Vec, maxs: Vec)
    requires Built(bs, nodes, s, id, t, lo, mins, maxs)
    ensures |s| > 0
  {}

  lemma LeavesOfSplit(t: Tree, lo: nat, n: nat)
    requires t.Split?
    ensures Leaves(t, lo, n) ==
      Leaves(t.mid, lo, t.nm) + Leaves(t.upper, lo + t.nm, t.n0) + Leaves(t.lower, lo + t.nm + t.n0, t.n1)
  {}

  lemma NoLeaves(lo: nat)
    ensures Tile(Leaves(NoTree, lo, 0), lo, lo) && Leaves(NoTree, lo, 0) == []
  {}

  lemma OneLeaf(t: Tree, lo: nat, n: nat)
    requires t.Leaf?
    ensures Leaves(t, lo, n) == [(lo, n)] && (n > 0 ==> Tile(Leaves(t, lo, n), lo, lo + n))
  {
    assert n > 0 ==> Tile([(lo, n)][1..], lo + n, lo + n);
  }

  /** The slice a leaf node holds. */
  function Slot(node: Node): seq<(nat, nat)> {
    if node.leafBrushCount > 0 then [(node.start, node.leafBrushCount)] else []
  }

  /** The slices that leaf nodes of `nodes` hold, in the order of the nodes. */
  function LeafSlots(nodes: seq<Node>): seq<(nat, nat)> {
    if nodes == [] then [] else Slot(nodes[0]) + LeafSlots(nodes[1..])
  }

  lemma {:induction false} LeafSlotsConcat(a: seq<Node>, b: seq<Node>)
    ensures LeafSlots(a + b) == LeafSlots(a) + LeafSlots(b)
    decreases |a|
  {
    hide Slot;
    if a == [] {
      assert a + b == b;
    } else {
      LeafSlotsConcat(a[1..], b);
      assert (a + b)[1..] == a[1..] + b && (a + b)[0] == a[0];
      assert Slot(a[0]) + (LeafSlots(a[1..]) + LeafSlots(b)) == (Slot(a[0]) + LeafSlots(a[1..])) + LeafSlots(b);
    }
  }

  lemma LeafSlotsFirst(nodes: seq<Node>, from: nat, to: nat)
    requires from < to <= |nodes|
    ensures LeafSlots(nodes[from..to]) == Slot(nodes[from]) + LeafSlots(nodes[from + 1..to])
  {
    assert nodes[from..to][1..] == nodes[from + 1..to];
  }

  lemma LeafSlotsSplit(nodes: seq<Node>, from: nat, mid: nat, to: nat)
    requires from <= mid <= to <= |nodes|
    ensures LeafSlots(nodes[from..to]) == LeafSlots(nodes[from..mid]) + LeafSlots(nodes[mid..to])
  {
    assert nodes[from..to] == nodes[from..mid] + nodes[mid..to];
    LeafSlotsConcat(nodes[from..mid], nodes[mid..to]);
  }

  /** The nodes of a finished tree hold exactly those leaves. */
  lemma {:induction false} NodesHoldLeaves(bs: seq<Brush>, nodes: seq<Node>, s: seq<nat>, id: nat, t: Tree, lo: nat, mins: Vec, maxs: Vec)
    requires Built(bs, nodes, s, id, t, lo, mins, maxs)
    ensures id + NodeCount(t) <= |nodes| && LeafSlots(nodes[id..id + NodeCount(t)]) == Leaves(t, lo, |s|)
    decreases t
  {
    hide Built, SplitOk, Known, Within, OrAll, NodeCount, Leaves, LeafSlots, Slot;
    BuiltIsTree(bs, nodes, s, id, t, lo, mins, maxs);
    if t.Split? {
      SplitParts(bs, nodes, s, id, t, lo, mins, maxs);
      SplitHeader(bs, nodes[id], s, t);
      LeavesOfSplit(t, lo, |s|);
      var nm, n0, n1 := t.nm, t.n0, t.n1;
      var i0 := id + 1 + NodeCount(t.mid);
      var i1 := i0 + NodeCount(t.upper);
      var end := i1 + NodeCount(t.lower);
      if nm > 0 {
        NodesHoldLeaves(bs, nodes, s[..nm], id + 1, t.mid, lo, mins, maxs);
      } else {
        NoLeafSlots(nodes, id + 1, lo);
      }
      NodesHoldLeaves(bs, nodes, s[nm..nm + n0], i0, t.upper, lo + nm, mins[t.axis := t.dist + t.reach], maxs);
      NodesHoldLeaves(bs, nodes, s[nm + n0..], i1, t.lower, lo + nm + n0, mins, maxs[t.axis := t.dist - nodes[id].range]);
      LeafSlotsFirst(nodes, id, end);
      LeafSlotsSplit(nodes, id + 1, i0, end);
      LeafSlotsSplit(nodes, i0, i1, end);
    } else {
      LeafHolds(bs, nodes, s, id, t, lo, mins, maxs);
    }
  }

  lemma NoLeafSlots(nodes: seq<Node>, id: nat, lo: nat)
    requires id <= |nodes|
    ensures NodeCount(NoTree) == 0 && LeafSlots(nodes[id..id]) == [] == Leaves(NoTree, lo, 0)
  {}

  lemma LeafHolds(bs: seq<Brush>, nodes: seq<Node>, s: seq<nat>, id: nat, t: Tree, lo: nat, mins: Vec, maxs: Vec)
    requires Built(bs, nodes, s, id, t, lo, mins, maxs) && t.Leaf?
    ensures NodeCount(t) == 1 && id + 1 <= |nodes| && LeafSlots(nodes[id..id + 1]) == Leaves(t, lo, |s|)
  {
    hide Known, Within, OrAll;
    assert nodes[id..id + 1] == [nodes[id]];
    assert LeafSlots([nodes[id]][1..]) == [];
  }

  lemma SplitHeader(bs: seq<Brush>, node: Node, s: seq<nat>, t: Tree)
    requires t.Split? && Known(bs, s) && SplitOk(bs, node, s, t)
    ensures Slot(node) == []
  {}
}
