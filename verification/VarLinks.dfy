/** The sibling links that run through the cells, and what is kept when slots change cells. */
module VarLinks {
  import opened BucketRings
  import opened VarCells

  /** Cells `h` and `n` trade places. */
  function Traded(h: nat, n: nat, i: nat): nat {
    if i == h then n else if i == n then h else i
  }

  /** Slot `x` has its place in the linked set `s`, and its neighbours point back at its cell. */
  ghost predicate LinkedAt(p: Pool, at: seq<nat>, s: set<nat>, x: nat)
    requires PSized(p) && |at| == |p.id|
  {
    && 0 < x < |p.id| && 0 < at[x] < |p.id| && p.id[at[x]] == x
    && p.sib[x] < |p.id| && p.prev[at[x]] < |p.id|
    && p.sib[x] != at[x]
    && (p.sib[x] != 0 ==> p.id[p.sib[x]] in s && p.id[p.sib[x]] < |p.id| && at[p.id[p.sib[x]]] == p.sib[x] && p.prev[p.sib[x]] == at[x])
    && (p.prev[at[x]] != 0 ==>
          var y := p.id[p.prev[at[x]]]; y in s && y < |p.id| && at[y] == p.prev[at[x]] && p.sib[y] == at[x])
  }

  /** Forward and backward links of the slots in `s` agree and stay in `s`. */
  ghost predicate Linked(p: Pool, at: seq<nat>, s: set<nat>) {
    && PSized(p) && |at| == |p.id| && p.id[0] == 0
    && forall x: nat :: x in s ==> LinkedAt(p, at, s, x)
  }

  /** The slot after `x`, and the slot before it; 0 at the ends. */
  ghost function NextId(p: Pool, x: nat): nat
    requires PSized(p) && x < |p.id| && p.sib[x] < |p.id|
  {
    p.id[p.sib[x]]
  }

  ghost function PrevId(p: Pool, at: seq<nat>, x: nat): nat
    requires PSized(p) && x < |p.id| == |at| && at[x] < |p.id| && p.prev[at[x]] < |p.id|
  {
    p.id[p.prev[at[x]]]
  }

  /** Every slot of `s` keeps its neighbours. */
  ghost predicate SameLinks(p: Pool, at: seq<nat>, p': Pool, at': seq<nat>, s: set<nat>)
    requires Linked(p, at, s) && Linked(p', at', s)
  {
    forall x: nat :: x in s ==>
      LinkedAt(p, at, s, x) && LinkedAt(p', at', s, x)
      && NextId(p', x) == NextId(p, x) && PrevId(p', at', x) == PrevId(p, at, x)
  }

  /** The links follow slot `x` when cells `h` and `n` trade places. */
  ghost predicate Follows(p: Pool, at: seq<nat>, p': Pool, at': seq<nat>, h: nat, n: nat, x: nat)
    requires PSized(p) && |at| == |p.id| && PSized(p') && |at'| == |p.id| == |p'.id| && x < |p.id| && at[x] < |p.id|
  {
    && at'[x] == Traded(h, n, at[x]) < |p.id| && p'.id[at'[x]] == x
    && p'.sib[x] == Traded(h, n, p.sib[x]) && p'.prev[at'[x]] == Traded(h, n, p.prev[at[x]])
  }

  /** Slot `x` points to the cell of `z` exactly if that cell points back to the cell of `x`. */
  lemma Adjacent(p: Pool, at: seq<nat>, s: set<nat>, x: nat, z: nat)
    requires Linked(p, at, s) && x in s && z in s
    ensures LinkedAt(p, at, s, x) && LinkedAt(p, at, s, z)
    ensures p.sib[x] == at[z] <==> p.prev[at[z]] == at[x]
    ensures p.prev[at[z]] != 0 ==> (p.id[p.prev[at[z]]] == x <==> p.prev[at[z]] == at[x])
  {
    assert LinkedAt(p, at, s, x) && LinkedAt(p, at, s, z);
  }

  lemma LinksFollow(p: Pool, at: seq<nat>, p': Pool, at': seq<nat>, s: set<nat>, h: nat, n: nat)
    requires Linked(p, at, s) && 0 < h && 0 < n && PSized(p') && |at'| == |p.id| == |p'.id| && p'.id[0] == 0
    requires forall x: nat :: x in s ==> LinkedAt(p, at, s, x) && Follows(p, at, p', at', h, n, x)
    ensures Linked(p', at', s) && SameLinks(p, at, p', at', s)
  {
    forall x: nat | x in s
      ensures LinkedAt(p', at', s, x) && NextId(p', x) == NextId(p, x) && PrevId(p', at', x) == PrevId(p, at, x)
    {
      assert LinkedAt(p, at, s, x) && Follows(p, at, p', at', h, n, x);
      if p.sib[x] != 0 {
        var y := p.id[p.sib[x]];
        assert LinkedAt(p, at, s, y) && Follows(p, at, p', at', h, n, y);
      }
      if p.prev[at[x]] != 0 {
        var y := p.id[p.prev[at[x]]];
        assert LinkedAt(p, at, s, y) && Follows(p, at, p', at', h, n, y);
      }
    }
  }

  lemma LinksCompose(p: Pool, at: seq<nat>, q: Pool, at': seq<nat>, r: Pool, at'': seq<nat>, s: set<nat>)
    requires Linked(p, at, s) && Linked(q, at', s) && Linked(r, at'', s)
    requires SameLinks(p, at, q, at', s) && SameLinks(q, at', r, at'', s)
    ensures SameLinks(p, at, r, at'', s)
  {}

  /** Slots outside `s` do not matter to its links. */
  lemma LinksFrame(p: Pool, at: seq<nat>, p': Pool, s: set<nat>)
    requires Linked(p, at, s) && PSized(p') && p'.id == p.id
    requires forall x: nat :: x in s ==>
      LinkedAt(p, at, s, x) && p'.sib[x] == p.sib[x] && p'.prev[at[x]] == p.prev[at[x]]
    ensures Linked(p', at, s) && SameLinks(p, at, p', at, s)
  {
    forall x: nat | x in s
      ensures LinkedAt(p', at, s, x)
    {
      assert LinkedAt(p, at, s, x);
      if p.sib[x] != 0 {
        assert LinkedAt(p, at, s, p.id[p.sib[x]]);
      }
      if p.prev[at[x]] != 0 {
        assert LinkedAt(p, at, s, p.id[p.prev[at[x]]]);
      }
    }
  }

  /** Moving the links of the slot in cell `h` to the unlinked cell `n`, as the insertions do it. */
  function MovedSib(p: Pool, h: nat, n: nat): seq<nat>
    requires PSized(p) && h < |p.id| && p.prev[h] < |p.id| && p.id[p.prev[h]] < |p.id|
  {
    if p.prev[h] != 0 then p.sib[p.id[p.prev[h]] := n] else p.sib
  }

  lemma MovedFollows(p: Pool, at: seq<nat>, p': Pool, at': seq<nat>, s: set<nat>, h: nat, n: nat, x: nat)
    requires Linked(p, at, s) && 0 < h < |p.id| && 0 < n < |p.id| && h != n && p.id[h] in s
    requires forall x: nat :: x in s ==> LinkedAt(p, at, s, x) && at[x] != n
    requires at[p.id[h]] == h && PSized(p') && |at'| == |p.id| == |p'.id| && x in s
    requires var m := p.id[h];
      && (forall y: nat :: y in s && y != m ==> at'[y] == at[y] && p'.id[at[y]] == y)
      && at'[m] == n && p'.id[n] == m
      && p.prev[h] < |p.id| && p.id[p.prev[h]] < |p.id| && p.sib[m] < |p.id|
      && (forall y: nat :: y in s ==> p'.sib[y] == MovedSib(p, h, n)[y])
      && p'.prev[n] == p.prev[h]
      && (forall y: nat :: y in s && y != m ==> p'.prev[at[y]] == if at[y] == p.sib[m] then n else p.prev[at[y]])
    ensures LinkedAt(p, at, s, x) && Follows(p, at, p', at', h, n, x)
  {
    var m := p.id[h];
    Adjacent(p, at, s, x, m);
    Adjacent(p, at, s, m, x);
    hide Linked;
  }
}
