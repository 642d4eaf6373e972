/** The quick test whether a moving point can meet a box. */
module TraceBox {

  /** How far the start and the end of a move are outside one face of a box; negative numbers are inside. */
  datatype Side = Side(d: real, o: real)
  {
    /** The same for the point at a fraction `t` of the move. */
    function At(t: real): real {
      d + t * (o - d)
    }

    predicate Outside() {
      d > 0.0 && o > 0.0
    }

    predicate Enters() {
      d > 0.0 && o <= 0.0
    }

    predicate Leaves() {
      d <= 0.0 && o > 0.0
    }

    /** The whole move is within the face's plane. */
    predicate Slides() {
      d == 0.0 && o == 0.0
    }

    /** When the move crosses the face. */
    function Crossing(): real
      requires Enters() || Leaves()
    {
      d / (d - o)
    }
  }

  lemma CrossingDivides(a: Side, t: real)
    requires a.Enters() || a.Leaves()
    ensures a.Enters() ==> (a.At(t) < 0.0 <==> t > a.Crossing())
    ensures a.Leaves() ==> (a.At(t) < 0.0 <==> t < a.Crossing())
  {
    var c := a.Crossing();
    assert c * (a.d - a.o) == a.d;
    assert a.At(t) == (c - t) * (a.d - a.o);
  }

  lemma CrossingIsLater(a: Side)
    requires a.Enters() || a.Leaves()
    ensures a.Crossing() >= 0.0 && (a.Crossing() == 0.0 <==> a.d == 0.0)
  {
    var c := a.Crossing();
    assert c * (a.d - a.o) == a.d;
  }

  // ---------------------------------------------------------------- what the test computes

  /** The fraction that is left after the faces that the move leaves by among the first `n`. */
  function Limit(sides: seq<Side>, n: nat, fraction: real): real
    requires n <= |sides|
  {
    if n == 0 then fraction
    else
      var f := Limit(sides, n - 1, fraction);
      if sides[n - 1].Leaves() && sides[n - 1].Crossing() < f then sides[n - 1].Crossing() else f
  }

  /** What the test of face `k` sees as a miss. */
  predicate MissAt(sides: seq<Side>, k: nat, fraction: real)
    requires k < |sides|
  {
    var a := sides[k];
    a.Outside() || (a.Leaves() && a.d == 0.0) || (a.Enters() && a.Crossing() >= Limit(sides, k, fraction))
  }

  predicate MissIn(sides: seq<Side>, n: nat, fraction: real)
    requires n <= |sides|
  {
    exists k :: 0 <= k < n && MissAt(sides, k, fraction)
  }

  lemma {:induction false} LimitOfBoth(a: seq<Side>, b: seq<Side>, n: nat, fraction: real)
    requires n <= |a| + |b|
    ensures Limit(a + b, n, fraction) == if n <= |a| then Limit(a, n, fraction) else Limit(b, n - |a|, Limit(a, |a|, fraction))
    decreases n
  {
    if n > 0 { LimitOfBoth(a, b, n - 1, fraction); }
  }

  /** Testing some faces and then others is testing all of them. */
  lemma MissInBoth(a: seq<Side>, b: seq<Side>, fraction: real)
    ensures MissIn(a + b, |a + b|, fraction) <==> MissIn(a, |a|, fraction) || MissIn(b, |b|, Limit(a, |a|, fraction))
  {
    hide Limit;
    forall k | 0 <= k < |a + b|
      ensures MissAt(a + b, k, fraction) <==> if k < |a| then MissAt(a, k, fraction) else MissAt(b, k - |a|, Limit(a, |a|, fraction))
    {
      LimitOfBoth(a, b, k, fraction);
      if k == |a| { LimitOfNone(b, Limit(a, |a|, fraction)); }
    }
    forall k | 0 <= k < |b| && MissAt(b, k, Limit(a, |a|, fraction)) ensures MissIn(a + b, |a + b|, fraction) {
      assert MissAt(a + b, |a| + k, fraction);
    }
  }

  lemma LimitOfNone(sides: seq<Side>, fraction: real)
    ensures Limit(sides, 0, fraction) == fraction
  {}

  /** What testing one more face adds. */
  lemma NextFace(sides: seq<Side>, i: nat, fraction: real)
    requires i < |sides|
    ensures MissIn(sides, i + 1, fraction) <==> MissIn(sides, i, fraction) || MissAt(sides, i, fraction)
    ensures var f := Limit(sides, i, fraction);
      Limit(sides, i + 1, fraction) == if sides[i].Leaves() && sides[i].Crossing() < f then sides[i].Crossing() else f
  {}

  /** A miss seen at one face is a miss. */
  lemma MissStays(sides: seq<Side>, i: nat, fraction: real)
    requires i < |sides| && MissAt(sides, i, fraction)
    ensures MissIn(sides, |sides|, fraction)
  {}

  lemma NoFace(sides: seq<Side>, fraction: real)
    ensures !MissIn(sides, 0, fraction) && Limit(sides, 0, fraction) == fraction
  {}

  /** How far a point is outside of a face at `test`; `s` is 1 for an upper face and -1 for a lower one. */
  function Outward(x: real, test: real, s: real): real {
    (x - test) * s
  }

  /** When a move that starts `d` outside of a face crosses it. */
  function Scaled(d: real, invDelta: real, s: real): real {
    (d * invDelta) * s
  }

  /** The move against one face. */
  function SideOf(start: real, end: real, test: real, s: real): Side {
    Side(Outward(start, test, s), Outward(end, test, s))
  }

  function SidesOf(start: seq<real>, end: seq<real>, testvec: seq<real>, s: real): (r: seq<Side>)
    requires |start| == |end| == |testvec| == 3
    ensures |r| == 3 && forall i :: 0 <= i < 3 ==> r[i] == SideOf(start[i], end[i], testvec[i], s)
  {
    [SideOf(start[0], end[0], testvec[0], s), SideOf(start[1], end[1], testvec[1], s), SideOf(start[2], end[2], testvec[2], s)]
  }

  /** A crossing can be found by multiplying with the inverse of the move's length along the axis. */
  lemma CrossingFound(a: Side, delta: real, inv: real, s: real)
    requires (s == 1.0 || s == -1.0) && delta * s == a.d - a.o && inv * delta == 1.0 && (a.Enters() || a.Leaves())
    ensures Scaled(a.d, inv, s) == a.Crossing()
  {
    var c := a.Crossing();
    assert c * (a.d - a.o) == a.d;
    if s == 1.0 {
      assert a.d * inv == (c * delta) * inv == c * (inv * delta);
    } else {
      assert a.d * inv == (c * -delta) * inv == c * -(inv * delta);
    }
  }

  /** What is computed for a face. */
  lemma FaceFound(a: Side, start: real, end: real, test: real, inv: real, s: real)
    requires (s == 1.0 || s == -1.0) && a == SideOf(start, end, test, s) && (start != end ==> inv * (start - end) == 1.0)
    ensures a == Side(Outward(start, test, s), Outward(end, test, s))
    ensures a.Enters() || a.Leaves() ==> Scaled(a.d, inv, s) == a.Crossing()
    ensures a.Leaves() ==> (a.Crossing() <= 0.0 <==> a.d == 0.0)
  {
    if a.Enters() || a.Leaves() {
      assert (start - end) * s == a.d - a.o;
      CrossingFound(a, start - end, inv, s);
      CrossingIsLater(a);
    }
  }

  /** Where the point is on one axis at a fraction `t` of the move. */
  function PointAt(start: real, end: real, t: real): real {
    start + t * (end - start)
  }

  predicate PointInside(start: seq<real>, end: seq<real>, mins: seq<real>, maxs: seq<real>, t: real)
    requires |start| == |end| == |mins| == |maxs| == 3
  {
    forall i :: 0 <= i < 3 ==> mins[i] < PointAt(start[i], end[i], t) < maxs[i]
  }

  /** At no time before the fraction is up is the point strictly within the box. */
  ghost predicate NeverInside(start: seq<real>, end: seq<real>, mins: seq<real>, maxs: seq<real>, fraction: real)
    requires |start| == |end| == |mins| == |maxs| == 3
  {
    forall t :: 0.0 <= t < fraction ==> !PointInside(start, end, mins, maxs, t)
  }

  lemma SideAt(start: real, end: real, test: real, t: real)
    ensures SideOf(start, end, test, 1.0).At(t) == PointAt(start, end, t) - test
    ensures SideOf(start, end, test, -1.0).At(t) == test - PointAt(start, end, t)
  {
    var a, b := SideOf(start, end, test, 1.0), SideOf(start, end, test, -1.0);
    assert a.o - a.d == end - start && b.o - b.d == -(end - start);
    assert t * -(end - start) == -(t * (end - start));
  }

  lemma InsideAllFaces(start: seq<real>, end: seq<real>, mins: seq<real>, maxs: seq<real>, t: real)
    requires |start| == |end| == |mins| == |maxs| == 3
    ensures PointInside(start, end, mins, maxs, t) <==> Within(SidesOf(start, end, mins, -1.0) + SidesOf(start, end, maxs, 1.0), t)
  {
    var lower, upper := SidesOf(start, end, mins, -1.0), SidesOf(start, end, maxs, 1.0);
    hide SidesOf, SideOf, PointAt, Side.At;
    var faces := lower + upper;
    forall i | 0 <= i < 3
      ensures lower[i].At(t) < 0.0 && upper[i].At(t) < 0.0 <==> mins[i] < PointAt(start[i], end[i], t) < maxs[i]
    {
      SideAt(start[i], end[i], mins[i], t);
      SideAt(start[i], end[i], maxs[i], t);
    }
    assert forall i :: 0 <= i < 3 ==> faces[i] == lower[i] && faces[i + 3] == upper[i];
    if Within(faces, t) {
      forall i | 0 <= i < 3 ensures mins[i] < PointAt(start[i], end[i], t) < maxs[i] {
        assert faces[i].At(t) < 0.0 && faces[i + 3].At(t) < 0.0;
      }
    }
    if PointInside(start, end, mins, maxs, t) {
      forall k | 0 <= k < 6 ensures faces[k].At(t) < 0.0 {
        if k < 3 { assert mins[k] < PointAt(start[k], end[k], t) < maxs[k]; }
        else { assert mins[k - 3] < PointAt(start[k - 3], end[k - 3], t) < maxs[k - 3]; }
      }
    }
  }

  class TraceExtents {
    var start: seq<real>
    var end: seq<real>
    var invDelta: seq<real>

    constructor (start: seq<real>, end: seq<real>)
      requires |start| == |end| == 3
      ensures this.start == start && this.end == end && Ready()
    {
      this.start := start;
      this.end := end;
      invDelta := [0.0, 0.0, 0.0];
      new;
      CalcTraceExtents();
    }

    predicate Shaped()
      reads this
    {
      |start| == 3 && |end| == 3 && |invDelta| == 3
    }

    predicate Ready()
      reads this
    {
      Shaped() && forall i :: 0 <= i < 3 && start[i] != end[i] ==> invDelta[i] * (start[i] - end[i]) == 1.0
    }

    /** Computes what a crossing is found with. */
    method CalcTraceExtents()
      requires Shaped()
      modifies this`invDelta
      ensures Ready() && forall i :: 0 <= i < 3 && start[i] == end[i] ==> invDelta[i] == 0.0
    {
      for i := 0 to 3
        invariant Shaped()
        invariant forall j :: 0 <= j < i ==> if start[j] != end[j] then invDelta[j] * (start[j] - end[j]) == 1.0 else invDelta[j] == 0.0
      {
        var diff := start[i] - end[i];
        invDelta := invDelta[i := if diff != 0.0 then 1.0 / diff else 0.0];
      }
    }

    /** The move against the faces through `testvec`. */
    ghost function Sides(testvec: seq<real>, s: real): (r: seq<Side>)
      requires |start| == 3 && |end| == 3 && |testvec| == 3
      reads this
    {
      SidesOf(start, end, testvec, s)
    }

    /** Narrows the fraction to where the move leaves by one of three faces, unless it finds a miss. */
    method TraceBoxInternal(testvec: seq<real>, s: real, fraction: real) returns (miss: bool, fraction': real)
      requires Ready() && |testvec| == 3 && (s == 1.0 || s == -1.0)
      ensures miss <==> MissIn(Sides(testvec, s), 3, fraction)
      ensures !miss ==> fraction' == Limit(Sides(testvec, s), 3, fraction)
    {
      hide Side.Crossing, Limit, MissIn, SidesOf, SideOf, Outward, Scaled;
      fraction' := fraction;
      ghost var sides := Sides(testvec, s);
      NoFace(sides, fraction);
      for i := 0 to 3
        invariant fraction' == Limit(sides, i, fraction) && !MissIn(sides, i, fraction)
      {
        NextFace(sides, i, fraction);
        var d := Outward(start[i], testvec[i], s);
        var o := Outward(end[i], testvec[i], s);
        var crossing := Scaled(d, invDelta[i], s);
        FaceFound(sides[i], start[i], end[i], testvec[i], invDelta[i], s);
        if MissAt(sides, i, fraction) {
          MissStays(sides, i, fraction);
        }
        if d <= 0.0 {
          if o > 0.0 {
            d := crossing;
            if d <= 0.0 {
              return true, fraction';
            }
            if d - fraction' < 0.0 {
              fraction' := d;
            }
          }
        } else if o > 0.0 || crossing >= fraction' {
          return true, fraction';
        }
      }
      return false, fraction';
    }

    /** The move against all faces of a box. */
    ghost function Faces(mins: seq<real>, maxs: seq<real>): (r: seq<Side>)
      requires |start| == 3 && |end| == 3 && |mins| == 3 && |maxs| == 3
      reads this
      ensures |r| == 6
    {
      Sides(mins, -1.0) + Sides(maxs, 1.0)
    }

    /** Tells whether the move misses the box. A miss is never wrong, and what misses it does not see is known. */
    method TraceBox(mins: seq<real>, maxs: seq<real>, fraction: real) returns (miss: bool)
      requires Ready() && |mins| == 3 && |maxs| == 3
      ensures miss <==> MissIn(Faces(mins, maxs), 6, fraction)
      ensures fraction <= 1.0 && miss ==> NeverInside(start, end, mins, maxs, fraction)
      ensures 0.0 < fraction <= 1.0 ==>
        (NeverInside(start, end, mins, maxs, fraction) <==> miss || Unseen(Faces(mins, maxs)))
    {
      hide MissIn, Limit, Unseen, SidesOf, NeverInside;
      MissInBoth(Sides(mins, -1.0), Sides(maxs, 1.0), fraction);
      MoveMissesExactly(start, end, mins, maxs, fraction);
      var lfraction := fraction;
      miss, lfraction := TraceBoxInternal(mins, -1.0, lfraction);
      if miss {
        return true;
      }
      miss, lfraction := TraceBoxInternal(maxs, 1.0, lfraction);
      if miss {
        return true;
      }
      return false;
    }
  }

  // ---------------------------------------------------------------- what the answer means

  predicate Within(sides: seq<Side>, t: real) {
    forall k :: 0 <= k < |sides| ==> sides[k].At(t) < 0.0
  }

  /** A move enters by one face only when it has left by another. */
  predicate TooLate(a: Side, b: Side) {
    a.Enters() && b.Leaves() && a.Crossing() >= b.Crossing()
  }

  /** A miss that the test does not see: the move is within a face, or leaves by a face tested after the one it enters by. */
  predicate Unseen(sides: seq<Side>) {
    (exists k :: 0 <= k < |sides| && sides[k].Slides())
    || exists k, j :: 0 <= k < j < |sides| && TooLate(sides[k], sides[j])
  }

  lemma ScaledSign(t: real, x: real)
    requires 0.0 <= t && 0.0 <= x
    ensures 0.0 <= t * x
  {}

  /** What the fraction has been narrowed by. */
  lemma {:induction false} LimitIsSome(sides: seq<Side>, n: nat, fraction: real)
    requires n <= |sides|
    ensures Limit(sides, n, fraction) <= fraction
    ensures forall j :: 0 <= j < n && sides[j].Leaves() ==> Limit(sides, n, fraction) <= sides[j].Crossing()
    ensures Limit(sides, n, fraction) == fraction
         || exists j :: 0 <= j < n && sides[j].Leaves() && Limit(sides, n, fraction) == sides[j].Crossing()
    decreases n
  {
    if n > 0 {
      LimitIsSome(sides, n - 1, fraction);
      if sides[n - 1].Leaves() && sides[n - 1].Crossing() < Limit(sides, n - 1, fraction) {
        assert Limit(sides, n, fraction) == sides[n - 1].Crossing();
      }
    }
  }

  lemma TooLateIsNever(sides: seq<Side>, k: nat, j: nat, t: real)
    requires k < |sides| && j < |sides| && TooLate(sides[k], sides[j])
    ensures !Within(sides, t)
  {
    CrossingDivides(sides[k], t);
    CrossingDivides(sides[j], t);
  }

  /** Where the test of a face sees a miss, no part of the move is within all faces. */
  lemma MissAtIsRight(sides: seq<Side>, k: nat, fraction: real, t: real)
    requires k < |sides| && MissAt(sides, k, fraction) && 0.0 <= t < fraction <= 1.0
    ensures !Within(sides, t)
  {
    var a := sides[k];
    if a.Outside() {
      assert a.At(t) == (1.0 - t) * a.d + t * a.o;
      ScaledSign(1.0 - t, a.d);
      ScaledSign(t, a.o);
    } else if a.Leaves() {
      assert a.At(t) == t * a.o;
      ScaledSign(t, a.o);
    } else {
      LimitIsSome(sides, k, fraction);
      CrossingDivides(a, t);
      if Limit(sides, k, fraction) != fraction {
        var j :| 0 <= j < k && sides[j].Leaves() && Limit(sides, k, fraction) == sides[j].Crossing();
        TooLateIsNever(sides, k, j, t);
      }
    }
  }

  lemma MissIsRight(sides: seq<Side>, fraction: real)
    requires MissIn(sides, |sides|, fraction) && fraction <= 1.0
    ensures forall t :: 0.0 <= t < fraction ==> !Within(sides, t)
  {
    var k :| 0 <= k < |sides| && MissAt(sides, k, fraction);
    forall t | 0.0 <= t < fraction ensures !Within(sides, t) {
      MissAtIsRight(sides, k, fraction, t);
    }
  }

  lemma UnseenIsRight(sides: seq<Side>, t: real)
    requires Unseen(sides)
    ensures !Within(sides, t)
  {
    if k :| 0 <= k < |sides| && sides[k].Slides() {
      assert sides[k].At(t) == t * 0.0;
    } else {
      var k, j :| 0 <= k < j < |sides| && TooLate(sides[k], sides[j]);
      TooLateIsNever(sides, k, j, t);
    }
  }

  /** When the move has entered by all of the first `n` faces that it enters by. */
  function Entered(sides: seq<Side>, n: nat): real
    requires n <= |sides|
  {
    if n == 0 then 0.0
    else
      var e := Entered(sides, n - 1);
      if sides[n - 1].Enters() && sides[n - 1].Crossing() > e then sides[n - 1].Crossing() else e
  }

  lemma {:induction false} EnteredIsSome(sides: seq<Side>, n: nat)
    requires n <= |sides|
    ensures Entered(sides, n) >= 0.0
    ensures forall k :: 0 <= k < n && sides[k].Enters() ==> Entered(sides, n) >= sides[k].Crossing()
    ensures Entered(sides, n) == 0.0 || exists k :: 0 <= k < n && sides[k].Enters() && Entered(sides, n) == sides[k].Crossing()
    decreases n
  {
    if n > 0 {
      EnteredIsSome(sides, n - 1);
      if sides[n - 1].Enters() && sides[n - 1].Crossing() > Entered(sides, n - 1) {
        assert Entered(sides, n) == sides[n - 1].Crossing();
      }
    }
  }

  /** If nothing is missed, the move has entered everywhere before it leaves anywhere. */
  lemma EntersBeforeLeaving(sides: seq<Side>, fraction: real)
    requires !MissIn(sides, |sides|, fraction) && !Unseen(sides) && fraction > 0.0
    ensures Entered(sides, |sides|) < Limit(sides, |sides|, fraction)
  {
    hide Limit, Entered;
    var n := |sides|;
    EnteredIsSome(sides, n);
    LimitIsSome(sides, n, fraction);
    var e, f := Entered(sides, n), Limit(sides, n, fraction);
    forall j | 0 <= j < n && sides[j].Leaves() ensures sides[j].Crossing() > 0.0 {
      assert !MissAt(sides, j, fraction);
      CrossingIsLater(sides[j]);
    }
    if e != 0.0 {
      var k :| 0 <= k < n && sides[k].Enters() && e == sides[k].Crossing();
      assert !MissAt(sides, k, fraction);
      LimitIsSome(sides, k, fraction);
      if f != fraction {
        var j :| 0 <= j < n && sides[j].Leaves() && f == sides[j].Crossing();
        if k < j {
          assert !TooLate(sides[k], sides[j]);
        }
      }
    }
  }

  /** Between entering and leaving, the move is within all faces. */
  lemma BetweenIsWithin(sides: seq<Side>, fraction: real) returns (t: real)
    requires !MissIn(sides, |sides|, fraction) && !Unseen(sides) && 0.0 < fraction <= 1.0
    ensures 0.0 <= t < fraction && Within(sides, t)
  {
    hide Limit, Entered;
    EntersBeforeLeaving(sides, fraction);
    EnteredIsSome(sides, |sides|);
    LimitIsSome(sides, |sides|, fraction);
    t := (Entered(sides, |sides|) + Limit(sides, |sides|, fraction)) / 2.0;
    forall k | 0 <= k < |sides| ensures sides[k].At(t) < 0.0 {
      var a := sides[k];
      assert !MissAt(sides, k, fraction) && !a.Slides();
      if a.Enters() || a.Leaves() {
        CrossingDivides(a, t);
      } else {
        assert a.At(t) == (1.0 - t) * a.d + t * a.o;
        if a.d < 0.0 { assert (1.0 - t) * a.d < 0.0 && t * a.o <= 0.0; }
        else { assert t * a.o < 0.0; }
      }
    }
  }

  /** The move misses the box exactly if a miss is seen or it is one of the two kinds that are not seen. */
  lemma MissedExactly(sides: seq<Side>, fraction: real)
    requires 0.0 < fraction <= 1.0
    ensures (forall t :: 0.0 <= t < fraction ==> !Within(sides, t)) <==> MissIn(sides, |sides|, fraction) || Unseen(sides)
  {
    hide MissIn, Unseen, Within;
    if MissIn(sides, |sides|, fraction) {
      MissIsRight(sides, fraction);
    } else if Unseen(sides) {
      forall t ensures !Within(sides, t) { UnseenIsRight(sides, t); }
    } else {
      var t := BetweenIsWithin(sides, fraction);
    }
  }

  /** A move past an edge of a box: it leaves by an upper face at a third of the way, has entered only at half of it, and no miss is seen. */
  lemma MissNotSeen()
    ensures var start, end, mins, maxs := [-1.0, 0.0, 0.0], [1.0, 3.0, 0.0], [0.0, -10.0, -1.0], [10.0, 1.0, 1.0];
      !MissIn(SidesOf(start, end, mins, -1.0) + SidesOf(start, end, maxs, 1.0), 6, 1.0) && NeverInside(start, end, mins, maxs, 1.0)
  {
    var start, end, mins, maxs := [-1.0, 0.0, 0.0], [1.0, 3.0, 0.0], [0.0, -10.0, -1.0], [10.0, 1.0, 1.0];
    var faces := SidesOf(start, end, mins, -1.0) + SidesOf(start, end, maxs, 1.0);
    assert faces == [Side(1.0, -1.0), Side(-10.0, -13.0), Side(-1.0, -1.0), Side(-11.0, -9.0), Side(-1.0, 2.0), Side(-1.0, -1.0)];
    assert faces[0].Crossing() == 0.5 && TooLate(faces[0], faces[4]);
    LimitOfNone(faces, 1.0);
    assert !MissAt(faces, 0, 1.0);
    forall k | 0 < k < 6
      ensures !MissAt(faces, k, 1.0)
    {
      assert !faces[k].Outside() && !faces[k].Enters() && faces[k].d != 0.0;
    }
    MoveMissesExactly(start, end, mins, maxs, 1.0);
  }

  /** The same of the box's six faces. */
  lemma MoveMissesExactly(start: seq<real>, end: seq<real>, mins: seq<real>, maxs: seq<real>, fraction: real)
    requires |start| == |end| == |mins| == |maxs| == 3
    ensures var faces := SidesOf(start, end, mins, -1.0) + SidesOf(start, end, maxs, 1.0);
      && (fraction <= 1.0 && MissIn(faces, 6, fraction) ==> NeverInside(start, end, mins, maxs, fraction))
      && (0.0 < fraction <= 1.0 ==>
        (NeverInside(start, end, mins, maxs, fraction) <==> MissIn(faces, 6, fraction) || Unseen(faces)))
  {
    hide MissIn, Limit, Unseen, SidesOf, PointInside, Within;
    var faces := SidesOf(start, end, mins, -1.0) + SidesOf(start, end, maxs, 1.0);
    assert |faces| == 6;
    forall t: real ensures PointInside(start, end, mins, maxs, t) <==> Within(faces, t) {
      InsideAllFaces(start, end, mins, maxs, t);
    }
    if fraction <= 1.0 && MissIn(faces, 6, fraction) {
      MissIsRight(faces, fraction);
    }
    if 0.0 < fraction <= 1.0 {
      MissedExactly(faces, fraction);
    }
  }
}
