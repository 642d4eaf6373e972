/**
 Circular lists threaded through a table of successor indices. A list is described by the
 sequence of indices met when walking it once round from its first index.
 */
module Rings {

  predicate Distinct(s: seq<nat>) {
    forall i, j :: 0 <= i < j < |s| ==> s[i] != s[j]
  }

  /** The index met after `i` steps from the first. */
  function Turn(s: seq<nat>, i: nat): nat
    requires s != [] && i <= |s|
  {
    if i == |s| then s[0] else s[i]
  }

  /** The index met just before position `i`. */
  function Before(s: seq<nat>, i: nat): nat
    requires i < |s|
  {
    if i == 0 then s[|s| - 1] else s[i - 1]
  }

  /** Following `next` walks round `s`. */
  ghost predicate Cycle(next: seq<nat>, s: seq<nat>) {
    && s != [] && Distinct(s)
    && (forall i :: 0 <= i < |s| ==> s[i] < |next|)
    && (forall i :: 0 <= i < |s| ==> next[s[i]] == Turn(s, i + 1))
  }

  /** Following `prev` walks round `s` the other way. */
  ghost predicate BackCycle(prev: seq<nat>, s: seq<nat>) {
    && s != []
    && (forall i :: 0 <= i < |s| ==> s[i] < |prev|)
    && (forall i :: 0 <= i < |s| ==> prev[Turn(s, i + 1)] == s[i])
  }

  function Without(s: seq<nat>, k: nat): seq<nat>
    requires k < |s|
  {
    s[..k] + s[k + 1..]
  }

  function With(s: seq<nat>, k: nat, x: nat): seq<nat>
    requires k <= |s|
  {
    s[..k] + [x] + s[k..]
  }

  lemma CycleFrame(next: seq<nat>, next': seq<nat>, s: seq<nat>)
    requires Cycle(next, s) && |next'| == |next|
    requires forall y :: y in s ==> next'[y] == next[y]
    ensures Cycle(next', s)
  {}

  lemma BackCycleFrame(prev: seq<nat>, prev': seq<nat>, s: seq<nat>)
    requires BackCycle(prev, s) && |prev'| == |prev|
    requires forall y :: y in s ==> prev'[y] == prev[y]
    ensures BackCycle(prev', s)
  {
    forall i | 0 <= i < |s|
      ensures prev'[Turn(s, i + 1)] == s[i]
    {
      assert prev[Turn(s, i + 1)] == s[i];
      assert Turn(s, i + 1) == s[if i + 1 == |s| then 0 else i + 1];
    }
  }

  lemma WithoutElems(s: seq<nat>, k: nat)
    requires k < |s| && Distinct(s)
    ensures Distinct(Without(s, k))
    ensures forall x :: x in Without(s, k) <==> x in s && x != s[k]
  {
    var t := Without(s, k);
    forall i, j | 0 <= i < j < |t|
      ensures t[i] != t[j]
    {
      assert t[i] == s[if i < k then i else i + 1];
      assert t[j] == s[if j < k then j else j + 1];
    }
    forall x
      ensures x in t <==> x in s && x != s[k]
    {
      if x in t {
        var i :| 0 <= i < |t| && t[i] == x;
        assert t[i] == s[if i < k then i else i + 1];
      }
      if x in s && x != s[k] {
        var i :| 0 <= i < |s| && s[i] == x;
        assert t[if i < k then i else i - 1] == x;
      }
    }
  }

  lemma WithElems(s: seq<nat>, k: nat, x: nat)
    requires k <= |s| && Distinct(s) && x !in s
    ensures Distinct(With(s, k, x))
    ensures forall y :: y in With(s, k, x) <==> y in s || y == x
  {
    var t := With(s, k, x);
    forall i, j | 0 <= i < j < |t|
      ensures t[i] != t[j]
    {
      assert i != k ==> t[i] == s[if i < k then i else i - 1];
      assert j != k ==> t[j] == s[if j < k then j else j - 1];
    }
    forall y
      ensures y in t <==> y in s || y == x
    {
      if y in s {
        var i :| 0 <= i < |s| && s[i] == y;
        assert t[if i < k then i else i + 1] == y;
      }
      assert t[k] == x;
      if y in t {
        var i :| 0 <= i < |t| && t[i] == y;
        assert i != k ==> y == s[if i < k then i else i - 1];
      }
    }
  }

  lemma ReplaceElems(s: seq<nat>, k: nat, x: nat)
    requires k < |s| && Distinct(s) && x !in s
    ensures Distinct(s[k := x])
    ensures forall y :: y in s[k := x] <==> (y in s && y != s[k]) || y == x
  {
    forall y
      ensures y in s[k := x] <==> (y in s && y != s[k]) || y == x
    {
      if y in s && y != s[k] {
        var i :| 0 <= i < |s| && s[i] == y;
        assert s[k := x][i] == y;
      }
      assert s[k := x][k] == x;
    }
  }

  lemma OnlyAt(s: seq<nat>, k: nat)
    requires k < |s| && Distinct(s)
    ensures forall i :: 0 <= i < |s| && i != k ==> s[i] != s[k]
  {}

  /** Reading a cycle at one position. */
  lemma CycleAt(next: seq<nat>, s: seq<nat>, i: nat)
    requires Cycle(next, s) && i < |s|
    ensures s[i] in s && s[i] < |next| && next[s[i]] == Turn(s, i + 1) && Distinct(s)
  {}

  lemma CycleFromPoints(next: seq<nat>, s: seq<nat>)
    requires s != [] && Distinct(s) && forall i :: 0 <= i < |s| ==> s[i] < |next|
    requires forall i :: 0 <= i < |s| ==> next[s[i]] == Turn(s, i + 1)
    ensures Cycle(next, s)
  {}

  /** The index at each position of a cycle without position `k`, and the one after it. */
  lemma WithoutTurn(s: seq<nat>, k: nat, i: nat)
    requires 0 < k < |s| && i < |s| - 1
    ensures |Without(s, k)| == |s| - 1
    ensures var j := if i < k then i else i + 1;
      Without(s, k)[i] == s[j] && Turn(Without(s, k), i + 1) == Turn(s, if i == k - 1 then k + 1 else j + 1)
  {}

  lemma WithTurn(s: seq<nat>, k: nat, x: nat, i: nat)
    requires 0 < k <= |s| && i <= |s|
    ensures |With(s, k, x)| == |s| + 1
    ensures var j := if i < k then i else i - 1;
      && With(s, k, x)[i] == (if i == k then x else s[j])
      && Turn(With(s, k, x), i + 1) == if i == k - 1 then x else Turn(s, j + 1)
  {}

  /** Bypassing the index at position `k`. */
  lemma CycleRemove(next: seq<nat>, next': seq<nat>, s: seq<nat>, k: nat)
    requires Cycle(next, s) && 0 < k < |s| && |next'| == |next|
    requires next'[s[k - 1]] == next[s[k]]
    requires forall y :: y in s && y != s[k - 1] && y != s[k] ==> next'[y] == next[y]
    ensures Cycle(next', Without(s, k))
  {
    hide Distinct, Cycle, Without, Turn;
    CycleAt(next, s, k);
    WithoutElems(s, k);
    OnlyAt(s, k - 1);
    OnlyAt(s, k);
    var t := Without(s, k);
    WithoutTurn(s, k, 0);
    forall i | 0 <= i < |t|
      ensures t[i] < |next'| && next'[t[i]] == Turn(t, i + 1)
    {
      WithoutTurn(s, k, i);
      CycleAt(next, s, if i < k then i else i + 1);
    }
    CycleFromPoints(next', t);
  }

  /** Hooking a new index in after position `k - 1`. */
  lemma CycleInsert(next: seq<nat>, next': seq<nat>, s: seq<nat>, k: nat, x: nat)
    requires Cycle(next, s) && 0 < k <= |s| && |next'| == |next| && x < |next| && x !in s
    requires next'[s[k - 1]] == x && next'[x] == next[s[k - 1]]
    requires forall y :: y in s && y != s[k - 1] ==> next'[y] == next[y]
    ensures Cycle(next', With(s, k, x))
  {
    hide Distinct, Cycle, With, Turn;
    CycleAt(next, s, k - 1);
    WithElems(s, k, x);
    OnlyAt(s, k - 1);
    var t := With(s, k, x);
    WithTurn(s, k, x, 0);
    forall i | 0 <= i < |t|
      ensures t[i] < |next'| && next'[t[i]] == Turn(t, i + 1)
    {
      WithTurn(s, k, x, i);
      CycleAt(next, s, if i < k then i else i - 1);
    }
    CycleFromPoints(next', t);
  }

  /** Putting a new index in the place of the one at position `k`. */
  lemma CycleReplace(next: seq<nat>, next': seq<nat>, s: seq<nat>, k: nat, x: nat)
    requires Cycle(next, s) && 0 < k < |s| && |next'| == |next| && x < |next| && x !in s
    requires next'[s[k - 1]] == x && next'[x] == next[s[k]]
    requires forall y :: y in s && y != s[k - 1] && y != s[k] ==> next'[y] == next[y]
    ensures Cycle(next', s[k := x])
  {
    hide Distinct;
    var t := s[k := x];
    ReplaceElems(s, k, x);
    OnlyAt(s, k - 1);
    OnlyAt(s, k);
    forall i | 0 <= i < |t|
      ensures t[i] < |next'| && next'[t[i]] == Turn(t, i + 1)
    {
      assert next[s[i]] == Turn(s, i + 1) && next[s[k]] == Turn(s, k + 1);
    }
  }

  /** Reading a backward cycle at the index itself. */
  lemma BackCycleAt(prev: seq<nat>, s: seq<nat>, i: nat)
    requires BackCycle(prev, s) && i < |s|
    ensures prev[s[i]] == Before(s, i)
  {
    if i == 0 {
      assert prev[Turn(s, |s|)] == s[|s| - 1];
    } else {
      assert prev[Turn(s, i)] == s[i - 1];
    }
  }

  /** Every index is followed by its successor's back link. */
  lemma BackCycleFromPoints(prev: seq<nat>, s: seq<nat>)
    requires s != [] && forall i :: 0 <= i < |s| ==> s[i] < |prev|
    requires forall i :: 0 <= i < |s| ==> prev[s[i]] == Before(s, i)
    ensures BackCycle(prev, s)
  {
    forall i | 0 <= i < |s|
      ensures prev[Turn(s, i + 1)] == s[i]
    {
      var j := if i + 1 == |s| then 0 else i + 1;
      assert prev[s[j]] == Before(s, j);
      assert Turn(s, i + 1) == s[j];
    }
  }

  lemma BackInTable(prev: seq<nat>, s: seq<nat>)
    requires BackCycle(prev, s)
    ensures s != [] && forall y :: y in s ==> y < |prev|
  {}

  /** The index at each position of a cycle without position `k`, and the one before it. */
  lemma WithoutAt(s: seq<nat>, k: nat, i: nat)
    requires 0 < k < |s| && i < |s| - 1
    ensures |Without(s, k)| == |s| - 1
    ensures var j := if i < k then i else i + 1;
      Without(s, k)[i] == s[j] && s[j] in s && Before(Without(s, k), i) == if i == k || (i == 0 && k + 1 == |s|) then s[k - 1] else Before(s, j)
  {}

  lemma WithAt(s: seq<nat>, k: nat, x: nat, i: nat)
    requires 0 < k <= |s| && i <= |s|
    ensures |With(s, k, x)| == |s| + 1
    ensures Before(With(s, k, x), i) == if i == k then s[k - 1] else if i == k + 1 || (i == 0 && k == |s|) then x else Before(s, if i < k then i else i - 1)
    ensures if i == k then With(s, k, x)[i] == x else With(s, k, x)[i] == s[if i < k then i else i - 1] && With(s, k, x)[i] in s
  {}

  lemma BackCycleRemove(prev: seq<nat>, prev': seq<nat>, s: seq<nat>, k: nat)
    requires BackCycle(prev, s) && Distinct(s) && 0 < k < |s| && |prev'| == |prev|
    requires prev'[Turn(s, k + 1)] == s[k - 1]
    requires forall y :: y in s && y != s[k] && y != Turn(s, k + 1) ==> prev'[y] == prev[y]
    ensures BackCycle(prev', Without(s, k))
  {
    var t := Without(s, k);
    hide Distinct, BackCycle, Without;
    BackInTable(prev, s);
    OnlyAt(s, k);
    OnlyAt(s, if k + 1 == |s| then 0 else k + 1);
    forall i | 0 <= i < |t|
      ensures t[i] < |prev'| && prev'[t[i]] == Before(t, i)
    {
      var j := if i < k then i else i + 1;
      WithoutAt(s, k, i);
      BackCycleAt(prev, s, j);
    }
    BackCycleFromPoints(prev', t);
  }

  lemma BackCycleInsert(prev: seq<nat>, prev': seq<nat>, s: seq<nat>, k: nat, x: nat)
    requires BackCycle(prev, s) && Distinct(s) && 0 < k <= |s| && |prev'| == |prev| && x < |prev| && x !in s
    requires prev'[x] == s[k - 1] && prev'[Turn(s, k)] == x
    requires forall y :: y in s && y != Turn(s, k) ==> prev'[y] == prev[y]
    ensures BackCycle(prev', With(s, k, x))
  {
    var t := With(s, k, x);
    hide Distinct, BackCycle, With;
    BackInTable(prev, s);
    OnlyAt(s, if k == |s| then 0 else k);
    forall i | 0 <= i < |t|
      ensures t[i] < |prev'| && prev'[t[i]] == Before(t, i)
    {
      WithAt(s, k, x, i);
      if i != k {
        BackCycleAt(prev, s, if i < k then i else i - 1);
      }
    }
    BackCycleFromPoints(prev', t);
  }
}
