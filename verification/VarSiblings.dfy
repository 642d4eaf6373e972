/** Linking a slot into the list of its siblings, at either end, and taking it out. */
module VarSiblings {
  import opened BucketRings
  import opened VarCells
  import opened VarLinks
  import opened VarFamilies

  /** Slot `x`, in cell `i`, is linked to nothing yet. */
  ghost predicate Loose(p: Pool, at: seq<nat>, s: set<nat>, x: nat, i: nat) {
    && Linked(p, at, s) && x !in s && 0 < x < |p.id| && 0 < i < |p.id| && p.id[i] == x && at[x] == i
  }

  /** `c` is 0, or the cell of a linked slot. */
  ghost predicate EndCell(p: Pool, at: seq<nat>, s: set<nat>, c: nat) {
    && PSized(p) && |at| == |p.id| && c < |p.id|
    && (c != 0 ==> p.id[c] in s && p.id[c] < |p.id| && at[p.id[c]] == c)
  }

  // ---------------------------------------------------------------- at the front

  /** Slot `x`, in cell `i`, goes before the slot in cell `c`. */
  function FrontLinked(p: Pool, x: nat, i: nat, c: nat): Pool
    requires PSized(p) && x < |p.id| && i < |p.id| && c < |p.id|
  {
    p.(prev := (if c != 0 then p.prev[c := i] else p.prev)[i := 0], sib := p.sib[x := c])
  }

  lemma FrontLinkedOk(p: Pool, at: seq<nat>, s: set<nat>, x: nat, i: nat, c: nat)
    requires Loose(p, at, s, x, i) && EndCell(p, at, s, c) && (c != 0 ==> p.prev[c] == 0)
    ensures var p' := FrontLinked(p, x, i, c);
      && Linked(p', at, s + {x}) && LinkedAt(p', at, s + {x}, x) && NextId(p', x) == p.id[c] && PrevId(p', at, x) == 0
      && (forall y: nat :: y in s ==>
            && LinkedAt(p, at, s, y) && LinkedAt(p', at, s + {x}, y) && NextId(p', y) == NextId(p, y)
            && PrevId(p', at, y) == if c != 0 && y == p.id[c] then x else PrevId(p, at, y))
  {
    var p', s' := FrontLinked(p, x, i, c), s + {x};
    forall y: nat | y in s
      ensures LinkedAt(p, at, s, y) && LinkedAt(p', at, s', y) && NextId(p', y) == NextId(p, y)
      ensures PrevId(p', at, y) == if c != 0 && y == p.id[c] then x else PrevId(p, at, y)
    {
      assert LinkedAt(p, at, s, y);
      if p.sib[y] != 0 {
        assert LinkedAt(p, at, s, p.id[p.sib[y]]);
      }
      if p.prev[at[y]] != 0 {
        assert LinkedAt(p, at, s, p.id[p.prev[at[y]]]);
      }
    }
    if c != 0 {
      assert LinkedAt(p, at, s, p.id[c]);
    }
    assert LinkedAt(p', at, s', x);
  }

  lemma FrontChain(p: Pool, at: seq<nat>, s: set<nat>, x: nat, i: nat, c: nat, k: seq<nat>)
    requires Loose(p, at, s, x, i) && EndCell(p, at, s, c) && (c != 0 ==> p.prev[c] == 0)
    requires Chain(p, at, s, k) && Unique(k) && p.id[c] == (if k == [] then 0 else k[0]) && (c == 0 <==> k == [])
    ensures Linked(FrontLinked(p, x, i, c), at, s + {x})
    ensures Chain(FrontLinked(p, x, i, c), at, s + {x}, [x] + k)
  {
    FrontLinkedOk(p, at, s, x, i, c);
    hide Linked, LinkedAt, FrontLinked;
    var k', p' := [x] + k, FrontLinked(p, x, i, c);
    forall j: nat | j < |k'|
      ensures k'[j] in s + {x} && LinkedAt(p', at, s + {x}, k'[j])
      ensures NextId(p', k'[j]) == Follower(k', j) && PrevId(p', at, k'[j]) == Leader(k', j)
    {
      if j > 0 {
        assert k'[j] == k[j - 1] && k[j - 1] in s;
        assert NextId(p, k[j - 1]) == Follower(k, j - 1) && PrevId(p, at, k[j - 1]) == Leader(k, j - 1);
      }
    }
  }

  lemma FrontOtherChain(p: Pool, at: seq<nat>, s: set<nat>, x: nat, i: nat, c: nat, k: seq<nat>)
    requires Loose(p, at, s, x, i) && EndCell(p, at, s, c) && (c != 0 ==> p.prev[c] == 0)
    requires Chain(p, at, s, k) && (c != 0 ==> p.id[c] !in k)
    ensures Linked(FrontLinked(p, x, i, c), at, s + {x})
    ensures Chain(FrontLinked(p, x, i, c), at, s + {x}, k)
  {
    FrontLinkedOk(p, at, s, x, i, c);
    hide Linked, LinkedAt, FrontLinked;
  }

  // ---------------------------------------------------------------- at the back

  /** Slot `x`, in cell `i`, goes after the slot in cell `c`. */
  function BackLinked(p: Pool, x: nat, i: nat, c: nat): Pool
    requires PSized(p) && x < |p.id| && i < |p.id| && c < |p.id| && p.id[c] < |p.id|
  {
    p.(sib := (if c != 0 then p.sib[p.id[c] := i] else p.sib)[x := 0], prev := p.prev[i := c])
  }

  lemma BackLinkedOk(p: Pool, at: seq<nat>, s: set<nat>, x: nat, i: nat, c: nat)
    requires Loose(p, at, s, x, i) && EndCell(p, at, s, c) && p.id[c] < |p.id| && (c != 0 ==> p.sib[p.id[c]] == 0)
    ensures var p' := BackLinked(p, x, i, c);
      && Linked(p', at, s + {x}) && LinkedAt(p', at, s + {x}, x) && NextId(p', x) == 0 && PrevId(p', at, x) == p.id[c]
      && (forall y: nat :: y in s ==>
            && LinkedAt(p, at, s, y) && LinkedAt(p', at, s + {x}, y) && PrevId(p', at, y) == PrevId(p, at, y)
            && NextId(p', y) == if c != 0 && y == p.id[c] then x else NextId(p, y))
  {
    var p', s' := BackLinked(p, x, i, c), s + {x};
    forall y: nat | y in s
      ensures LinkedAt(p, at, s, y) && LinkedAt(p', at, s', y) && PrevId(p', at, y) == PrevId(p, at, y)
      ensures NextId(p', y) == if c != 0 && y == p.id[c] then x else NextId(p, y)
    {
      assert LinkedAt(p, at, s, y);
      if p.sib[y] != 0 {
        assert LinkedAt(p, at, s, p.id[p.sib[y]]);
      }
      if p.prev[at[y]] != 0 {
        assert LinkedAt(p, at, s, p.id[p.prev[at[y]]]);
      }
    }
    if c != 0 {
      assert LinkedAt(p, at, s, p.id[c]);
    }
    assert LinkedAt(p', at, s', x);
  }

  lemma BackChain(p: Pool, at: seq<nat>, s: set<nat>, x: nat, i: nat, c: nat, k: seq<nat>)
    requires Loose(p, at, s, x, i) && EndCell(p, at, s, c) && p.id[c] < |p.id| && (c != 0 ==> p.sib[p.id[c]] == 0)
    requires Chain(p, at, s, k) && Unique(k) && p.id[c] == (if k == [] then 0 else k[|k| - 1]) && (c == 0 <==> k == [])
    ensures Linked(BackLinked(p, x, i, c), at, s + {x})
    ensures Chain(BackLinked(p, x, i, c), at, s + {x}, k + [x])
  {
    BackLinkedOk(p, at, s, x, i, c);
    hide Linked, LinkedAt, BackLinked;
    var k', p' := k + [x], BackLinked(p, x, i, c);
    forall j: nat | j < |k'|
      ensures k'[j] in s + {x} && LinkedAt(p', at, s + {x}, k'[j])
      ensures NextId(p', k'[j]) == Follower(k', j) && PrevId(p', at, k'[j]) == Leader(k', j)
    {
      if j < |k| {
        assert k'[j] == k[j] && k[j] in s;
        assert NextId(p, k[j]) == Follower(k, j) && PrevId(p, at, k[j]) == Leader(k, j);
      }
    }
  }

  lemma BackOtherChain(p: Pool, at: seq<nat>, s: set<nat>, x: nat, i: nat, c: nat, k: seq<nat>)
    requires Loose(p, at, s, x, i) && EndCell(p, at, s, c) && p.id[c] < |p.id| && (c != 0 ==> p.sib[p.id[c]] == 0)
    requires Chain(p, at, s, k) && (c != 0 ==> p.id[c] !in k)
    ensures Linked(BackLinked(p, x, i, c), at, s + {x})
    ensures Chain(BackLinked(p, x, i, c), at, s + {x}, k)
  {
    BackLinkedOk(p, at, s, x, i, c);
    hide Linked, LinkedAt, BackLinked;
  }

  // ---------------------------------------------------------------- taking a slot out

  /** The neighbours of the slot in cell `i` are linked to each other. */
  function Bridged(p: Pool, x: nat, i: nat): Pool
    requires PSized(p) && x < |p.id| && i < |p.id| && p.sib[x] < |p.id| && p.prev[i] < |p.id| && p.id[p.prev[i]] < |p.id|
  {
    p.(sib := if p.prev[i] != 0 then p.sib[p.id[p.prev[i]] := p.sib[x]] else p.sib,
       prev := if p.sib[x] != 0 then p.prev[p.sib[x] := p.prev[i]] else p.prev)
  }

  /** `x` is linked, and not its own neighbour's neighbour on both sides. */
  ghost predicate CanBridge(p: Pool, at: seq<nat>, s: set<nat>, x: nat, k: seq<nat>, j: nat) {
    && Linked(p, at, s) && x in s && Chain(p, at, s, k) && Unique(k) && j < |k| && k[j] == x && (forall y :: y in k ==> y > 0)
  }

  lemma BridgedOk(p: Pool, at: seq<nat>, s: set<nat>, x: nat, k: seq<nat>, j: nat)
    requires CanBridge(p, at, s, x, k, j)
    ensures LinkedAt(p, at, s, x) && p.id[p.prev[at[x]]] < |p.id|
    ensures var p', s' := Bridged(p, x, at[x]), s - {x};
      && Linked(p', at, s')
      && (forall y: nat :: y in s' ==>
            && LinkedAt(p, at, s, y) && LinkedAt(p', at, s', y)
            && NextId(p', y) == (if NextId(p, y) == x then NextId(p, x) else NextId(p, y))
            && PrevId(p', at, y) == if PrevId(p, at, y) == x then PrevId(p, at, x) else PrevId(p, at, y))
  {
    assert LinkedAt(p, at, s, x);
    NoLoop(p, at, s, x, k, j);
    var p', s' := Bridged(p, x, at[x]), s - {x};
    forall y: nat | y in s'
      ensures LinkedAt(p, at, s, y) && LinkedAt(p', at, s', y)
      ensures NextId(p', y) == if NextId(p, y) == x then NextId(p, x) else NextId(p, y)
      ensures PrevId(p', at, y) == if PrevId(p, at, y) == x then PrevId(p, at, x) else PrevId(p, at, y)
    {
      assert LinkedAt(p, at, s, y);
      BridgedAt(p, at, s, x, y);
    }
  }

  lemma NoLoop(p: Pool, at: seq<nat>, s: set<nat>, x: nat, k: seq<nat>, j: nat)
    requires CanBridge(p, at, s, x, k, j) && LinkedAt(p, at, s, x)
    ensures p.sib[x] != 0 ==> p.sib[x] != p.prev[at[x]]
  {
    assert NextId(p, k[j]) == Follower(k, j) && PrevId(p, at, k[j]) == Leader(k, j);
    if 0 < j && j + 1 < |k| {
      assert k[j - 1] != k[j + 1];
    }
  }

  lemma BridgedAt(p: Pool, at: seq<nat>, s: set<nat>, x: nat, y: nat)
    requires Linked(p, at, s) && x in s && y in s && y != x && LinkedAt(p, at, s, x) && p.id[p.prev[at[x]]] < |p.id|
    requires p.sib[x] != 0 ==> p.sib[x] != p.prev[at[x]]
    ensures var p', s' := Bridged(p, x, at[x]), s - {x};
      && LinkedAt(p, at, s, y) && LinkedAt(p', at, s', y)
      && NextId(p', y) == (if NextId(p, y) == x then NextId(p, x) else NextId(p, y))
      && PrevId(p', at, y) == if PrevId(p, at, y) == x then PrevId(p, at, x) else PrevId(p, at, y)
  {
    hide Linked, Bridged;
    PlacesOf(p, at, s, x);
    PlacesOf(p, at, s, y);
    Adjacent(p, at, s, x, y);
    Adjacent(p, at, s, y, x);
    BridgedFields(p, x, at[x], y, at[y]);
    if p.sib[y] != 0 {
      Adjacent(p, at, s, x, p.id[p.sib[y]]);
      BridgedFields(p, x, at[x], y, p.sib[y]);
    }
    if p.prev[at[y]] != 0 {
      Adjacent(p, at, s, p.id[p.prev[at[y]]], x);
      BridgedFields(p, x, at[x], p.id[p.prev[at[y]]], at[y]);
    }
    if p.sib[x] != 0 {
      PlacesOf(p, at, s, p.id[p.sib[x]]);
      BridgedFields(p, x, at[x], y, p.sib[x]);
    }
    if p.prev[at[x]] != 0 {
      PlacesOf(p, at, s, p.id[p.prev[at[x]]]);
      BridgedFields(p, x, at[x], p.id[p.prev[at[x]]], at[y]);
    }
  }

  lemma BridgedFields(p: Pool, x: nat, i: nat, y: nat, j: nat)
    requires PSized(p) && x < |p.id| && i < |p.id| && p.sib[x] < |p.id| && p.prev[i] < |p.id| && p.id[p.prev[i]] < |p.id|
    requires y < |p.id| && j < |p.id|
    ensures var p' := Bridged(p, x, i);
      && PSized(p') && p'.id == p.id
      && p'.sib[y] == (if p.prev[i] != 0 && y == p.id[p.prev[i]] then p.sib[x] else p.sib[y])
      && p'.prev[j] == if p.sib[x] != 0 && j == p.sib[x] then p.prev[i] else p.prev[j]
  {}

  lemma PlacesOf(p: Pool, at: seq<nat>, s: set<nat>, x: nat)
    requires Linked(p, at, s) && x in s
    ensures PSized(p) && |at| == |p.id| && LinkedAt(p, at, s, x) && p.id[0] == 0
  {}

  /** Neighbours in a list after position `j` has been taken out. */
  lemma RemovedNeighbours(k: seq<nat>, j: nat, i: nat)
    requires Unique(k) && j < |k| && i + 1 < |k| && forall y :: y in k ==> y > 0
    ensures var k', i' := k[..j] + k[j + 1..], if i < j then i else i + 1;
      && k'[i] == k[i'] && k[i'] != k[j]
      && Follower(k', i) == (if Follower(k, i') == k[j] then Follower(k, j) else Follower(k, i'))
      && Leader(k', i) == if Leader(k, i') == k[j] then Leader(k, j) else Leader(k, i')
  {
    var k', i' := k[..j] + k[j + 1..], if i < j then i else i + 1;
    assert k[j] in k;
    if i + 1 < |k'| {
      assert k'[i + 1] == k[if i + 1 < j then i + 1 else i + 2];
    }
    if 0 < i {
      assert k'[i - 1] == k[if i - 1 < j then i - 1 else i];
    }
  }

  lemma BridgedChain(p: Pool, at: seq<nat>, s: set<nat>, x: nat, k: seq<nat>, j: nat)
    requires CanBridge(p, at, s, x, k, j)
    ensures LinkedAt(p, at, s, x) && p.id[p.prev[at[x]]] < |p.id|
    ensures Linked(Bridged(p, x, at[x]), at, s - {x})
    ensures Chain(Bridged(p, x, at[x]), at, s - {x}, k[..j] + k[j + 1..])
  {
    hide Linked, Bridged, Follower, Leader, NextId, PrevId, Unique;
    BridgedOk(p, at, s, x, k, j);
    ChainAt(p, at, s, k, j);
    var k', p', s' := k[..j] + k[j + 1..], Bridged(p, x, at[x]), s - {x};
    forall i: nat | i < |k'|
      ensures k'[i] in s' && LinkedAt(p', at, s', k'[i])
      ensures NextId(p', k'[i]) == Follower(k', i) && PrevId(p', at, k'[i]) == Leader(k', i)
    {
      RemovedNeighbours(k, j, i);
      ChainAt(p, at, s, k, if i < j then i else i + 1);
    }
  }

  lemma ChainAt(p: Pool, at: seq<nat>, s: set<nat>, k: seq<nat>, i: nat)
    requires Linked(p, at, s) && Chain(p, at, s, k) && i < |k|
    ensures PSized(p) && |at| == |p.id|
    ensures k[i] in s && LinkedAt(p, at, s, k[i]) && NextId(p, k[i]) == Follower(k, i) && PrevId(p, at, k[i]) == Leader(k, i)
  {
  }

  lemma BridgedOtherChain(p: Pool, at: seq<nat>, s: set<nat>, x: nat, k: seq<nat>, j: nat, k2: seq<nat>)
    requires CanBridge(p, at, s, x, k, j) && Chain(p, at, s, k2) && x !in k2 && 0 !in k2
    ensures LinkedAt(p, at, s, x) && p.id[p.prev[at[x]]] < |p.id|
    ensures Linked(Bridged(p, x, at[x]), at, s - {x})
    ensures Chain(Bridged(p, x, at[x]), at, s - {x}, k2)
  {
    BridgedOk(p, at, s, x, k, j);
    hide Linked, LinkedAt, Bridged;
    forall i: nat | i < |k2|
      ensures k2[i] in s - {x}
      ensures NextId(Bridged(p, x, at[x]), k2[i]) == Follower(k2, i) && PrevId(Bridged(p, x, at[x]), at, k2[i]) == Leader(k2, i)
    {
      assert NextId(p, k2[i]) == Follower(k2, i) && PrevId(p, at, k2[i]) == Leader(k2, i);
      assert k2[i] in k2 && Follower(k2, i) != x && Leader(k2, i) != x by {
        if i + 1 < |k2| { assert k2[i + 1] in k2; }
        if i > 0 { assert k2[i - 1] in k2; }
      }
    }
  }
}
