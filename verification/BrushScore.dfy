/** Choosing the plane that splits a leaf's brushes best, and sorting the brushes by it. */
module BrushScore {
  import opened Wrappers
  import opened BrushTree

  // ---------------------------------------------------------------- the score of a plane

  function IsLeft(b: Brush, axis: nat, d: real): bool
    requires axis < 3
  {
    b.mins[axis] < d && b.maxs[axis] <= d
  }

  function IsRight(b: Brush, axis: nat, d: real): bool
    requires axis < 3
  {
    b.mins[axis] >= d
  }

  function LeftCount(bs: seq<Brush>, s: seq<nat>, axis: nat, d: real): nat
    requires axis < 3 && Known(bs, s)
  {
    if s == [] then 0
    else LeftCount(bs, s[..|s| - 1], axis, d) + if IsLeft(bs[s[|s| - 1]], axis, d) then 1 else 0
  }

  function RightCount(bs: seq<Brush>, s: seq<nat>, axis: nat, d: real): nat
    requires axis < 3 && Known(bs, s)
  {
    if s == [] then 0
    else RightCount(bs, s[..|s| - 1], axis, d) + if IsRight(bs[s[|s| - 1]], axis, d) then 1 else 0
  }

  /** The highest upper side of the left brushes. */
  function LeftMax(bs: seq<Brush>, s: seq<nat>, axis: nat, d: real): real
    requires axis < 3 && Known(bs, s)
  {
    if s == [] then -FLT_MAX
    else
      var b, m := bs[s[|s| - 1]], LeftMax(bs, s[..|s| - 1], axis, d);
      if IsLeft(b, axis, d) && b.maxs[axis] > m then b.maxs[axis] else m
  }

  /** The lowest lower side of the right brushes. */
  function RightMin(bs: seq<Brush>, s: seq<nat>, axis: nat, d: real): real
    requires axis < 3 && Known(bs, s)
  {
    if s == [] then FLT_MAX
    else
      var b, m := bs[s[|s| - 1]], RightMin(bs, s[..|s| - 1], axis, d);
      if IsRight(b, axis, d) && m > b.mins[axis] then b.mins[axis] else m
  }

  /** Candidate planes are tried axis by axis, brush by brush, the lower side first. */
  predicate Earlier(a: nat, j: nat, up: bool, axis: nat, k: nat, upper: bool) {
    a < axis || (a == axis && (j < k || (j == k && !up && upper)))
  }

  /** Number of brushes on the smaller side but one, times the smaller free extent. */
  function Score(bs: seq<Brush>, s: seq<nat>, axis: nat, mins: Vec, maxs: Vec, d: real): real
    requires axis < 3 && Known(bs, s)
  {
    var bc := Min(RightCount(bs, s, axis, d) - 1, LeftCount(bs, s, axis, d) - 1);
    var above, below := maxs[axis] - LeftMax(bs, s, axis, d), RightMin(bs, s, axis, d) - mins[axis];
    if bc <= 0 then 0.0 else bc as real * (if above < below then above else below)
  }

  /** The plane half way between the two sides. */
  function Halfway(bs: seq<Brush>, s: seq<nat>, axis: nat, d: real): real
    requires axis < 3 && Known(bs, s)
  {
    (LeftMax(bs, s, axis, d) + RightMin(bs, s, axis, d)) * 0.5
  }

  // ---------------------------------------------------------------- sorting by a plane

  datatype Side = Straddling | Above | Below

  predicate OnSide(b: Brush, axis: nat, dist: real, side: Side)
    requires axis < 3
  {
    match side
    case Straddling => b.mins[axis] < dist && dist < b.maxs[axis]
    case Above => dist <= b.mins[axis]
    case Below => b.maxs[axis] <= dist
  }

  /** How far a brush on one side of the plane is from it. */
  function Gap(b: Brush, axis: nat, dist: real, side: Side): real
    requires axis < 3 && !side.Straddling?
  {
    if side == Above then b.mins[axis] - dist else dist - b.maxs[axis]
  }

  function Sorted(bs: seq<Brush>, s: seq<nat>, axis: nat, dist: real, side: Side): seq<nat>
    requires axis < 3 && Known(bs, s)
  {
    if s == [] then []
    else Sorted(bs, s[..|s| - 1], axis, dist, side) + if OnSide(bs[s[|s| - 1]], axis, dist, side) then [s[|s| - 1]] else []
  }

  lemma {:induction false} SortedFacts(bs: seq<Brush>, s: seq<nat>, axis: nat, dist: real, side: Side)
    requires axis < 3 && Known(bs, s)
    ensures var r := Sorted(bs, s, axis, dist, side);
      |r| <= |s| && Known(bs, r) && forall k :: 0 <= k < |r| ==> OnSide(bs[r[k]], axis, dist, side)
    decreases |s|
  {
    if s != [] {
      SortedFacts(bs, s[..|s| - 1], axis, dist, side);
    }
  }

  /** A brush with its corners in order is on exactly one side: sorting loses and repeats nothing. */
  lemma {:induction false} SortedAll(bs: seq<Brush>, s: seq<nat>, axis: nat, dist: real)
    requires axis < 3 && Known(bs, s)
    ensures var m, u, l := Sorted(bs, s, axis, dist, Straddling), Sorted(bs, s, axis, dist, Above), Sorted(bs, s, axis, dist, Below);
      multiset(m) + multiset(u) + multiset(l) == multiset(s) && |m| + |u| + |l| == |s|
    decreases |s|
  {
    if s != [] {
      var front, last := s[..|s| - 1], s[|s| - 1];
      SortedAll(bs, front, axis, dist);
      assert BrushOk(bs[last]);
      SortedLast(bs, s, axis, dist);
      hide Sorted, BrushOk, Known;
      OneOfThree(front, last, s,
                 Sorted(bs, front, axis, dist, Straddling), Sorted(bs, front, axis, dist, Above), Sorted(bs, front, axis, dist, Below),
                 Sorted(bs, s, axis, dist, Straddling), Sorted(bs, s, axis, dist, Above), Sorted(bs, s, axis, dist, Below));
    }
  }

  lemma OneOfThree(
      front: seq<nat>, last: nat, s: seq<nat>, m: seq<nat>, u: seq<nat>, l: seq<nat>, m': seq<nat>, u': seq<nat>, l': seq<nat>)
    requires s == front + [last] && multiset(m) + multiset(u) + multiset(l) == multiset(front) && |m| + |u| + |l| == |front|
    requires (m' == m + [last] && u' == u && l' == l) || (m' == m && u' == u + [last] && l' == l) || (m' == m && u' == u && l' == l + [last])
    ensures multiset(m') + multiset(u') + multiset(l') == multiset(s) && |m'| + |u'| + |l'| == |s|
  {
    assert multiset(s) == multiset(front) + multiset{last};
    if m' == m + [last] {
      assert multiset(m') == multiset(m) + multiset{last};
    } else if u' == u + [last] {
      assert multiset(u') == multiset(u) + multiset{last};
    } else {
      assert multiset(l') == multiset(l) + multiset{last};
    }
  }

  lemma SortedLast(bs: seq<Brush>, s: seq<nat>, axis: nat, dist: real)
    requires axis < 3 && Known(bs, s) && s != [] && bs[s[|s| - 1]].mins[axis] < bs[s[|s| - 1]].maxs[axis]
    ensures var front, last := s[..|s| - 1], s[|s| - 1];
      var m, u, l := Sorted(bs, front, axis, dist, Straddling), Sorted(bs, front, axis, dist, Above), Sorted(bs, front, axis, dist, Below);
      var m', u', l' := Sorted(bs, s, axis, dist, Straddling), Sorted(bs, s, axis, dist, Above), Sorted(bs, s, axis, dist, Below);
      || (m' == m + [last] && u' == u && l' == l) || (m' == m && u' == u + [last] && l' == l) || (m' == m && u' == u && l' == l + [last])
  {
    var b := bs[s[|s| - 1]];
    assert OnSide(b, axis, dist, Straddling) || OnSide(b, axis, dist, Above) || OnSide(b, axis, dist, Below);
  }

  // ---------------------------------------------------------------- a plane with a score splits

  lemma {:induction false} ExtremesBound(bs: seq<Brush>, s: seq<nat>, axis: nat, d: real)
    requires axis < 3 && Known(bs, s) && -FLT_MAX <= d <= FLT_MAX
    ensures LeftMax(bs, s, axis, d) <= d <= RightMin(bs, s, axis, d)
    decreases |s|
  {
    if s != [] {
      ExtremesBound(bs, s[..|s| - 1], axis, d);
    }
  }

  /** Every left brush is below a plane that is not below their highest side, and so on. */
  lemma {:induction false} CountsKept(bs: seq<Brush>, s: seq<nat>, axis: nat, d: real, e: real)
    requires axis < 3 && Known(bs, s) && LeftMax(bs, s, axis, d) <= e <= RightMin(bs, s, axis, d)
    ensures |Sorted(bs, s, axis, e, Above)| >= RightCount(bs, s, axis, d)
    ensures |Sorted(bs, s, axis, e, Below)| >= LeftCount(bs, s, axis, d)
    decreases |s|
  {
    if s != [] {
      CountsKept(bs, s[..|s| - 1], axis, d, e);
    }
  }

  /** A plane with a positive score leaves at least two brushes on either side when it is moved half way. */
  lemma GoodPlane(bs: seq<Brush>, s: seq<nat>, axis: nat, mins: Vec, maxs: Vec, d: real)
    requires axis < 3 && Known(bs, s) && -FLT_MAX <= d <= FLT_MAX && Score(bs, s, axis, mins, maxs, d) > 0.0
    ensures var e := Halfway(bs, s, axis, d);
      |Sorted(bs, s, axis, e, Above)| >= 2 && |Sorted(bs, s, axis, e, Below)| >= 2
  {
    ExtremesBound(bs, s, axis, d);
    CountsKept(bs, s, axis, d, Halfway(bs, s, axis, d));
  }

  // ---------------------------------------------------------------- what the score means

  lemma LeftStep(bs: seq<Brush>, s: seq<nat>, axis: nat, d: real)
    requires axis < 3 && Known(bs, s) && s != []
    ensures var n, l := |s| - 1, LeftOf(bs, s[..|s| - 1], axis, d);
      n !in l && LeftOf(bs, s, axis, d) == if IsLeft(bs[s[n]], axis, d) then l + {n} else l
  {}

  lemma RightStep(bs: seq<Brush>, s: seq<nat>, axis: nat, d: real)
    requires axis < 3 && Known(bs, s) && s != []
    ensures var n, r := |s| - 1, RightOf(bs, s[..|s| - 1], axis, d);
      n !in r && RightOf(bs, s, axis, d) == if IsRight(bs[s[n]], axis, d) then r + {n} else r
  {}

  lemma {:induction false} SidesCounted(bs: seq<Brush>, s: seq<nat>, axis: nat, d: real)
    requires axis < 3 && Known(bs, s)
    ensures |LeftOf(bs, s, axis, d)| == LeftCount(bs, s, axis, d) && |RightOf(bs, s, axis, d)| == RightCount(bs, s, axis, d)
    decreases |s|
  {
    if s != [] {
      SidesCounted(bs, s[..|s| - 1], axis, d);
      LeftStep(bs, s, axis, d);
      RightStep(bs, s, axis, d);
      hide LeftOf, RightOf, IsLeft, IsRight;
    }
  }

  lemma {:induction false} LeftHighest(bs: seq<Brush>, s: seq<nat>, axis: nat, d: real)
    requires axis < 3 && Known(bs, s)
    ensures var l, h := LeftOf(bs, s, axis, d), LeftMax(bs, s, axis, d);
      if l == {} then h == -FLT_MAX else Highest(bs, s, axis, l, h) && h > -FLT_MAX
    decreases |s|
  {
    if s != [] {
      var n := |s| - 1;
      LeftHighest(bs, s[..n], axis, d);
      LeftStep(bs, s, axis, d);
      assert BrushOk(bs[s[n]]);
      hide LeftOf, FLT_MAX, IsLeft;
      if LeftOf(bs, s[..n], axis, d) != {} {
        HighestMore(bs, s, axis, LeftOf(bs, s[..n], axis, d), LeftMax(bs, s[..n], axis, d));
      }
    }
  }

  lemma HighestMore(bs: seq<Brush>, s: seq<nat>, axis: nat, l: set<nat>, h: real)
    requires axis < 3 && Known(bs, s) && s != [] && (forall k :: k in l ==> k < |s| - 1) && Highest(bs, s[..|s| - 1], axis, l, h)
    ensures Highest(bs, s, axis, l, h)
    ensures var b, n := bs[s[|s| - 1]].maxs[axis], |s| - 1; Highest(bs, s, axis, l + {n}, if b > h then b else h)
  {
    assert forall k :: k in l ==> s[k] == s[..|s| - 1][k];
    var k :| k in l && bs[s[..|s| - 1][k]].maxs[axis] == h;
    assert k in l + {|s| - 1} && |s| - 1 in l + {|s| - 1};
  }

  lemma {:induction false} RightLowest(bs: seq<Brush>, s: seq<nat>, axis: nat, d: real)
    requires axis < 3 && Known(bs, s)
    ensures var r, w := RightOf(bs, s, axis, d), RightMin(bs, s, axis, d);
      if r == {} then w == FLT_MAX else Lowest(bs, s, axis, r, w) && w < FLT_MAX
    decreases |s|
  {
    if s != [] {
      var n := |s| - 1;
      RightLowest(bs, s[..n], axis, d);
      RightStep(bs, s, axis, d);
      assert BrushOk(bs[s[n]]);
      hide RightOf, FLT_MAX, IsRight;
      if RightOf(bs, s[..n], axis, d) != {} {
        LowestMore(bs, s, axis, RightOf(bs, s[..n], axis, d), RightMin(bs, s[..n], axis, d));
      }
    }
  }

  lemma LowestMore(bs: seq<Brush>, s: seq<nat>, axis: nat, r: set<nat>, w: real)
    requires axis < 3 && Known(bs, s) && s != [] && (forall k :: k in r ==> k < |s| - 1) && Lowest(bs, s[..|s| - 1], axis, r, w)
    ensures Lowest(bs, s, axis, r, w)
    ensures var b, n := bs[s[|s| - 1]].mins[axis], |s| - 1; Lowest(bs, s, axis, r + {n}, if w > b then b else w)
  {
    assert forall k :: k in r ==> s[k] == s[..|s| - 1][k];
    var k :| k in r && bs[s[..|s| - 1][k]].mins[axis] == w;
    assert k in r + {|s| - 1} && |s| - 1 in r + {|s| - 1};
  }

  lemma OneHighest(bs: seq<Brush>, s: seq<nat>, axis: nat, l: set<nat>)
    requires axis < 3 && Known(bs, s) && forall k :: k in l ==> k < |s|
    ensures forall h, h' :: Highest(bs, s, axis, l, h) && Highest(bs, s, axis, l, h') ==> h == h'
  {}

  lemma OneLowest(bs: seq<Brush>, s: seq<nat>, axis: nat, r: set<nat>)
    requires axis < 3 && Known(bs, s) && forall k :: k in r ==> k < |s|
    ensures forall w, w' :: Lowest(bs, s, axis, r, w) && Lowest(bs, s, axis, r, w') ==> w == w'
  {}

  /** The score is what this says, and nothing else is. */
  lemma ScoreMeans(bs: seq<Brush>, s: seq<nat>, axis: nat, mins: Vec, maxs: Vec, d: real)
    requires axis < 3 && Known(bs, s)
    ensures Scored(bs, s, axis, mins, maxs, d, Score(bs, s, axis, mins, maxs, d), Halfway(bs, s, axis, d))
    ensures forall score, dist :: Scored(bs, s, axis, mins, maxs, d, score, dist) ==> score == Score(bs, s, axis, mins, maxs, d)
  {
    hide LeftOf, RightOf, LeftCount, RightCount, LeftMax, RightMin, Highest, Lowest;
    SidesCounted(bs, s, axis, d);
    LeftHighest(bs, s, axis, d);
    RightLowest(bs, s, axis, d);
    OneHighest(bs, s, axis, LeftOf(bs, s, axis, d));
    OneLowest(bs, s, axis, RightOf(bs, s, axis, d));
  }

  /** Within the bounds a plane has a positive score exactly if there are two brushes on either side. */
  lemma ScoreIsPositiveIff(bs: seq<Brush>, s: seq<nat>, axis: nat, mins: Vec, maxs: Vec, d: real)
    requires axis < 3 && Known(bs, s) && Within(bs, s, mins, maxs)
    ensures Score(bs, s, axis, mins, maxs, d) > 0.0 <==> |LeftOf(bs, s, axis, d)| >= 2 && |RightOf(bs, s, axis, d)| >= 2
    ensures Score(bs, s, axis, mins, maxs, d) >= 0.0
  {
    hide LeftCount, RightCount, LeftMax, RightMin, FLT_MAX, LeftOf, RightOf, Highest, Lowest, Known, Within;
    SidesCounted(bs, s, axis, d);
    LeftHighest(bs, s, axis, d);
    RightLowest(bs, s, axis, d);
    var l, r := LeftOf(bs, s, axis, d), RightOf(bs, s, axis, d);
    if |l| >= 2 && |r| >= 2 {
      ApartWithin(bs, s, axis, mins, maxs, d, LeftMax(bs, s, axis, d), RightMin(bs, s, axis, d));
    }
  }

  /** Both sides leave some room within the bounds. */
  lemma ApartWithin(bs: seq<Brush>, s: seq<nat>, axis: nat, mins: Vec, maxs: Vec, d: real, h: real, w: real)
    requires axis < 3 && Known(bs, s) && Within(bs, s, mins, maxs)
    requires Highest(bs, s, axis, LeftOf(bs, s, axis, d), h) && Lowest(bs, s, axis, RightOf(bs, s, axis, d), w)
    ensures maxs[axis] > h && w > mins[axis]
  {
    hide FLT_MAX;
    var k :| k in LeftOf(bs, s, axis, d) && bs[s[k]].maxs[axis] == h;
    var j :| j in RightOf(bs, s, axis, d) && bs[s[j]].mins[axis] == w;
    assert BrushOk(bs[s[k]]) && BrushOk(bs[s[j]]);
  }

  // ---------------------------------------------------------------- the order of the brushes does not matter

  lemma {:induction false} SortedTimes(bs: seq<Brush>, s: seq<nat>, axis: nat, dist: real, side: Side, x: nat)
    requires axis < 3 && Known(bs, s)
    ensures multiset(Sorted(bs, s, axis, dist, side))[x] == if x < |bs| && OnSide(bs[x], axis, dist, side) then multiset(s)[x] else 0
    decreases |s|
  {
    if s != [] {
      var front, last := s[..|s| - 1], s[|s| - 1];
      SortedTimes(bs, front, axis, dist, side, x);
      hide OnSide, Known;
      assert s == front + [last];
      assert multiset(s) == multiset(front) + multiset{last};
    }
  }

  lemma SortedPermuted(bs: seq<Brush>, s: seq<nat>, s': seq<nat>, axis: nat, dist: real, side: Side)
    requires axis < 3 && Known(bs, s) && Known(bs, s') && multiset(s) == multiset(s')
    ensures |Sorted(bs, s, axis, dist, side)| == |Sorted(bs, s', axis, dist, side)|
  {
    var r, r' := Sorted(bs, s, axis, dist, side), Sorted(bs, s', axis, dist, side);
    hide Sorted, OnSide, Known;
    var m: multiset<nat>, m': multiset<nat> := multiset(r), multiset(r');
    forall x: nat
      ensures m[x] == m'[x]
    {
      SortedTimes(bs, s, axis, dist, side, x);
      SortedTimes(bs, s', axis, dist, side, x);
    }
    assert m == m' && |m| == |r| && |m'| == |r'|;
  }

  lemma {:induction false} SidesSorted(bs: seq<Brush>, s: seq<nat>, axis: nat, d: real)
    requires axis < 3 && Known(bs, s)
    ensures |LeftOf(bs, s, axis, d)| == |Sorted(bs, s, axis, d, Below)| && |RightOf(bs, s, axis, d)| == |Sorted(bs, s, axis, d, Above)|
    decreases |s|
  {
    if s != [] {
      SidesSorted(bs, s[..|s| - 1], axis, d);
      LeftStep(bs, s, axis, d);
      RightStep(bs, s, axis, d);
      assert BrushOk(bs[s[|s| - 1]]);
      hide LeftOf, RightOf, FLT_MAX;
    }
  }

  /** Every brush of one list is in the other. */
  lemma SameBrushes(s: seq<nat>, s': seq<nat>)
    requires multiset(s) == multiset(s')
    ensures forall k :: 0 <= k < |s| ==> exists j :: 0 <= j < |s'| && s'[j] == s[k]
  {
    forall k | 0 <= k < |s|
      ensures exists j :: 0 <= j < |s'| && s'[j] == s[k]
    {
      assert s[k] in multiset(s) && s[k] in multiset(s');
      assert s[k] in s';
    }
  }

  lemma SidesPermuted(bs: seq<Brush>, s: seq<nat>, s': seq<nat>, axis: nat, d: real)
    requires axis < 3 && Known(bs, s) && Known(bs, s') && multiset(s) == multiset(s')
    ensures |LeftOf(bs, s, axis, d)| == |LeftOf(bs, s', axis, d)| && |RightOf(bs, s, axis, d)| == |RightOf(bs, s', axis, d)|
  {
    hide *;
    SidesSorted(bs, s, axis, d);
    SidesSorted(bs, s', axis, d);
    SortedPermuted(bs, s, s', axis, d, Below);
    SortedPermuted(bs, s, s', axis, d, Above);
  }

  lemma SameSide(bs: seq<Brush>, s: seq<nat>, s': seq<nat>, axis: nat, d: real, k: nat, j: nat)
    requires axis < 3 && Known(bs, s) && Known(bs, s') && k < |s| && j < |s'| && s[k] == s'[j]
    ensures k in LeftOf(bs, s, axis, d) <==> j in LeftOf(bs, s', axis, d)
    ensures k in RightOf(bs, s, axis, d) <==> j in RightOf(bs, s', axis, d)
  {}

  lemma HighestPermuted(bs: seq<Brush>, s: seq<nat>, s': seq<nat>, axis: nat, d: real, h: real)
    requires axis < 3 && Known(bs, s) && Known(bs, s') && multiset(s) == multiset(s') && Highest(bs, s, axis, LeftOf(bs, s, axis, d), h)
    ensures Highest(bs, s', axis, LeftOf(bs, s', axis, d), h)
  {
    hide LeftOf, BrushOk;
    SameBrushes(s, s');
    SameBrushes(s', s);
    var k :| k in LeftOf(bs, s, axis, d) && bs[s[k]].maxs[axis] == h;
    var j: nat :| j < |s'| && s'[j] == s[k];
    SameSide(bs, s, s', axis, d, k, j);
    forall i | i in LeftOf(bs, s', axis, d)
      ensures bs[s'[i]].maxs[axis] <= h
    {
      var l: nat :| l < |s| && s[l] == s'[i];
      SameSide(bs, s, s', axis, d, l, i);
    }
  }

  lemma LowestPermuted(bs: seq<Brush>, s: seq<nat>, s': seq<nat>, axis: nat, d: real, w: real)
    requires axis < 3 && Known(bs, s) && Known(bs, s') && multiset(s) == multiset(s') && Lowest(bs, s, axis, RightOf(bs, s, axis, d), w)
    ensures Lowest(bs, s', axis, RightOf(bs, s', axis, d), w)
  {
    hide RightOf, BrushOk;
    SameBrushes(s, s');
    SameBrushes(s', s);
    var k :| k in RightOf(bs, s, axis, d) && bs[s[k]].mins[axis] == w;
    var j: nat :| j < |s'| && s'[j] == s[k];
    SameSide(bs, s, s', axis, d, k, j);
    forall i | i in RightOf(bs, s', axis, d)
      ensures w <= bs[s'[i]].mins[axis]
    {
      var l: nat :| l < |s| && s[l] == s'[i];
      SameSide(bs, s, s', axis, d, l, i);
    }
  }

  lemma ScoredPermuted(bs: seq<Brush>, s: seq<nat>, s': seq<nat>, axis: nat, mins: Vec, maxs: Vec, d: real, score: real, dist: real)
    requires axis < 3 && Known(bs, s) && Known(bs, s') && multiset(s) == multiset(s') && Scored(bs, s, axis, mins, maxs, d, score, dist)
    ensures Scored(bs, s', axis, mins, maxs, d, score, dist)
  {
    hide Known, LeftOf, RightOf, Highest, Lowest, Weighs, Smaller;
    SidesPermuted(bs, s, s', axis, d);
    var l, r := LeftOf(bs, s, axis, d), RightOf(bs, s, axis, d);
    if |l| >= 2 && |r| >= 2 {
      var h, w :| Highest(bs, s, axis, l, h) && Lowest(bs, s, axis, r, w) && Weighs(Smaller(|l|, |r|), maxs[axis], mins[axis], h, w, score, dist);
      HighestPermuted(bs, s, s', axis, d, h);
      LowestPermuted(bs, s, s', axis, d, w);
    }
  }

  lemma BestPermuted(bs: seq<Brush>, s: seq<nat>, s': seq<nat>, axis: nat, dist: real, mins: Vec, maxs: Vec)
    requires axis < 3 && Known(bs, s) && Known(bs, s') && multiset(s) == multiset(s') && BestSplit(bs, s, axis, dist, mins, maxs)
    ensures BestSplit(bs, s', axis, dist, mins, maxs)
  {
    hide Known, Scored;
    SameBrushes(s, s');
    SameBrushes(s', s);
    var k: nat, up: bool, best :| k < |s| && IsBest(bs, s, axis, Candidate(bs, s, axis, k, up), best, dist, mins, maxs);
    var d := Candidate(bs, s, axis, k, up);
    var i :| 0 <= i < |s'| && s'[i] == s[k];
    assert d == Candidate(bs, s', axis, i, up);
    ScoredPermuted(bs, s, s', axis, mins, maxs, d, best, dist);
    forall a: nat, j: nat, u, score, dist' | a < 3 && j < |s'| && Scored(bs, s', a, mins, maxs, Candidate(bs, s', a, j, u), score, dist')
      ensures score <= best
    {
      var e := Candidate(bs, s', a, j, u);
      var l :| 0 <= l < |s| && s[l] == s'[j];
      assert e == Candidate(bs, s, a, l, u);
      ScoredPermuted(bs, s', s, a, mins, maxs, e, score, dist');
    }
    assert IsBest(bs, s', axis, d, best, dist, mins, maxs);
  }
}
