/** The lists of all objects' children at once, in the cells of objects and variables. */
module VarThreads {
  import opened BucketRings
  import opened VarCells
  import opened VarLinks
  import opened VarFamilies
  import opened VarSiblings

  ghost function First(k: seq<nat>): nat {
    if k == [] then 0 else k[0]
  }

  ghost function Last(k: seq<nat>): nat {
    if k == [] then 0 else k[|k| - 1]
  }

  /** Object `p`, in its cell, knows the first and the last of its children `k`. */
  ghost predicate EndsOk(pp: Pool, pat: seq<nat>, p: nat, k: seq<nat>) {
    p < |pp.sib| && p < |pat| && pat[p] < |pp.prev| && pp.sib[p] == First(k) && pp.prev[pat[p]] == Last(k)
  }

  /** The children of `p`, all in the linked set `s`, are threaded in order. */
  ghost predicate ThreadOk(pp: Pool, pat: seq<nat>, cp: Pool, cat: seq<nat>, s: set<nat>, k: Kids, p: nat)
    requires Linked(cp, cat, s) && p in k
  {
    EndsOk(pp, pat, p, k[p]) && Chain(cp, cat, s, k[p]) && Unique(k[p])
  }

  ghost predicate Threads(pp: Pool, pat: seq<nat>, cp: Pool, cat: seq<nat>, s: set<nat>, k: Kids) {
    && Linked(cp, cat, s) && (forall p :: p in k ==> ThreadOk(pp, pat, cp, cat, s, k, p))
    && Apart(k)
  }

  /** Relocations of cells, which keep every slot's neighbours, keep the lists. */
  lemma ThreadsKept(pp: Pool, pat: seq<nat>, cp: Pool, cat: seq<nat>, cp': Pool, cat': seq<nat>, s: set<nat>, k: Kids)
    requires Threads(pp, pat, cp, cat, s, k) && Linked(cp', cat', s) && SameLinks(cp, cat, cp', cat', s)
    ensures Threads(pp, pat, cp', cat', s, k)
  {
    hide Linked, LinkedAt, EndsOk, Chain, SameLinks;
    forall p | p in k
      ensures ThreadOk(pp, pat, cp', cat', s, k, p)
    {
      assert ThreadOk(pp, pat, cp, cat, s, k, p);
      ChainKept(cp, cat, cp', cat', s, k[p]);
    }
  }

  /** Objects whose list ends and cells are kept have the same lists. */
  lemma ThreadsSameEnds(pp: Pool, pat: seq<nat>, pp': Pool, pat': seq<nat>, cp: Pool, cat: seq<nat>, s: set<nat>, k: Kids)
    requires Threads(pp, pat, cp, cat, s, k)
    requires forall p :: p in k ==> EndsOk(pp', pat', p, k[p])
    ensures Threads(pp', pat', cp, cat, s, k)
  {
    hide Linked, LinkedAt, EndsOk, Chain;
    forall p | p in k
      ensures ThreadOk(pp', pat', cp, cat, s, k, p)
    {
      assert ThreadOk(pp, pat, cp, cat, s, k, p);
    }
  }

  /** Only the link fields of the objects' cells matter. */
  lemma ThreadsSameLinks(pp: Pool, pat: seq<nat>, pp': Pool, cp: Pool, cat: seq<nat>, s: set<nat>, k: Kids)
    requires Threads(pp, pat, cp, cat, s, k) && pp'.sib == pp.sib && pp'.prev == pp.prev
    ensures Threads(pp', pat, cp, cat, s, k)
  {
    hide Linked;
    forall p | p in k
      ensures EndsOk(pp', pat, p, k[p])
    {
      assert ThreadOk(pp, pat, cp, cat, s, k, p);
    }
    ThreadsSameEnds(pp, pat, pp', pat, cp, cat, s, k);
  }

  /** The cell of the first child of `p`, or 0. */
  ghost function FirstCell(cat: seq<nat>, k: seq<nat>): nat
    requires k != [] ==> k[0] < |cat|
  {
    if k == [] then 0 else cat[k[0]]
  }

  lemma FirstCellFacts(pp: Pool, pat: seq<nat>, cp: Pool, cat: seq<nat>, s: set<nat>, k: Kids, p: nat)
    requires Threads(pp, pat, cp, cat, s, k) && p in k
    ensures PSized(cp) && (k[p] != [] ==> k[p][0] < |cat|)
    ensures var c := FirstCell(cat, k[p]);
      && EndCell(cp, cat, s, c) && (c != 0 ==> cp.prev[c] == 0) && cp.id[c] == First(k[p]) && (c == 0 <==> k[p] == [])
    ensures EndsOk(pp, pat, p, k[p]) && (k[p] != [] ==> k[p][0] in s)
  {
    assert ThreadOk(pp, pat, cp, cat, s, k, p);
    if k[p] != [] {
      assert k[p][0] in s && LinkedAt(cp, cat, s, k[p][0]) && PrevId(cp, cat, k[p][0]) == Leader(k[p], 0);
    }
  }

  /** A slot linked before the first child of `p` becomes the first child. */
  lemma ThreadsFront(pp: Pool, pat: seq<nat>, pp': Pool, cp: Pool, cat: seq<nat>, s: set<nat>, k: Kids, p: nat, x: nat, i: nat)
    requires Threads(pp, pat, cp, cat, s, k) && p in k && Loose(cp, cat, s, x, i)
    requires forall q :: q in k && q != p ==> EndsOk(pp', pat, q, k[q])
    requires EndsOk(pp', pat, p, [x] + k[p])
    ensures k[p] != [] ==> k[p][0] < |cat|
    ensures PSized(cp) && FirstCell(cat, k[p]) < |cp.id|
    ensures Threads(pp', pat, FrontLinked(cp, x, i, FirstCell(cat, k[p])), cat, s + {x}, k[p := [x] + k[p]])
  {
    assert i < |cp.id| && x < |cp.id|;
    hide Linked, EndsOk, FirstCell, FrontLinked, Loose, EndCell, Apart, Chain, LinkedAt, Unique;
    FirstCellFacts(pp, pat, cp, cat, s, k, p);
    FrontLinkedOk(cp, cat, s, x, i, FirstCell(cat, k[p]));
    var k' := k[p := [x] + k[p]];
    forall q | q in k
      ensures x !in k[q] && ThreadOk(pp', pat, FrontLinked(cp, x, i, FirstCell(cat, k[p])), cat, s + {x}, k', q)
    {
      ThreadFront(pp, pat, pp', cp, cat, s, k, p, x, i, q);
    }
    ApartWith(k, p, x, [x] + k[p]);
  }

  lemma ThreadFront(pp: Pool, pat: seq<nat>, pp': Pool, cp: Pool, cat: seq<nat>, s: set<nat>, k: Kids, p: nat, x: nat, i: nat, q: nat)
    requires Threads(pp, pat, cp, cat, s, k) && p in k && q in k && Loose(cp, cat, s, x, i)
    requires if q == p then EndsOk(pp', pat, p, [x] + k[p]) else EndsOk(pp', pat, q, k[q])
    ensures PSized(cp) && (k[p] != [] ==> k[p][0] < |cat|) && FirstCell(cat, k[p]) < |cp.id|
    ensures Linked(FrontLinked(cp, x, i, FirstCell(cat, k[p])), cat, s + {x})
    ensures x !in k[q] && ThreadOk(pp', pat, FrontLinked(cp, x, i, FirstCell(cat, k[p])), cat, s + {x}, k[p := [x] + k[p]], q)
  {
    FirstCellFacts(pp, pat, cp, cat, s, k, p);
    FrontLinkedOk(cp, cat, s, x, i, FirstCell(cat, k[p]));
    assert ThreadOk(pp, pat, cp, cat, s, k, p) && ThreadOk(pp, pat, cp, cat, s, k, q);
    assert x !in s;
    hide Linked, EndsOk, FirstCell, FrontLinked, Loose, EndCell, Apart, Chain, LinkedAt, Unique;
    OutsideList(cp, cat, s, k[q], x);
    if q == p {
      FrontChain(cp, cat, s, x, i, FirstCell(cat, k[p]), k[p]);
      UniqueWith(k[p], x);
    } else {
      assert k[p] != [] ==> k[p][0] in k[p];
      assert k[p] != [] ==> k[p][0] !in k[q] by { if k[p] != [] { NotShared(k, p, q, k[p][0]); } }
      FrontOtherChain(cp, cat, s, x, i, FirstCell(cat, k[p]), k[q]);
    }
  }

  /** No two lists share a child. */
  ghost predicate Apart(k: Kids) {
    forall p, q, x :: p in k && q in k && x in k[p] && x in k[q] ==> p == q
  }

  /** The lists still share no child when one of them gets a new one. */
  lemma ApartWith(k: Kids, p: nat, x: nat, list: seq<nat>)
    requires Apart(k) && p in k && (forall q :: q in k ==> x !in k[q]) && forall y :: y in list <==> y == x || y in k[p]
    ensures Apart(k[p := list])
  {}

  lemma NotShared(k: Kids, p: nat, q: nat, x: nat)
    requires Apart(k) && p in k && q in k && p != q && x in k[p]
    ensures x !in k[q]
  {}

  lemma UniqueWith(k: seq<nat>, x: nat)
    requires Unique(k) && x !in k
    ensures Unique([x] + k) && Unique(k + [x])
  {}

  lemma OutsideList(cp: Pool, cat: seq<nat>, s: set<nat>, k: seq<nat>, x: nat)
    requires Linked(cp, cat, s) && Chain(cp, cat, s, k) && x !in s
    ensures x !in k
  {}

  /** The cell of the last child of `p`, or 0. */
  ghost function LastCell(cat: seq<nat>, k: seq<nat>): nat
    requires k != [] ==> k[|k| - 1] < |cat|
  {
    if k == [] then 0 else cat[k[|k| - 1]]
  }

  lemma LastCellFacts(pp: Pool, pat: seq<nat>, cp: Pool, cat: seq<nat>, s: set<nat>, k: Kids, p: nat)
    requires Threads(pp, pat, cp, cat, s, k) && p in k
    ensures PSized(cp) && (k[p] != [] ==> k[p][|k[p]| - 1] < |cat|)
    ensures var c := LastCell(cat, k[p]);
      && EndCell(cp, cat, s, c) && cp.id[c] < |cp.id| && (c != 0 ==> cp.sib[cp.id[c]] == 0)
      && cp.id[c] == Last(k[p]) && (c == 0 <==> k[p] == [])
    ensures EndsOk(pp, pat, p, k[p]) && (k[p] != [] ==> k[p][|k[p]| - 1] in s)
  {
    assert ThreadOk(pp, pat, cp, cat, s, k, p);
    if k[p] != [] {
      var i := |k[p]| - 1;
      assert k[p][i] in s && LinkedAt(cp, cat, s, k[p][i]) && NextId(cp, k[p][i]) == Follower(k[p], i);
    }
  }

  /** A slot linked after the last child of `p` becomes the last child. */
  lemma ThreadsBack(pp: Pool, pat: seq<nat>, pp': Pool, cp: Pool, cat: seq<nat>, s: set<nat>, k: Kids, p: nat, x: nat, i: nat)
    requires Threads(pp, pat, cp, cat, s, k) && p in k && Loose(cp, cat, s, x, i)
    requires forall q :: q in k && q != p ==> EndsOk(pp', pat, q, k[q])
    requires EndsOk(pp', pat, p, k[p] + [x])
    ensures k[p] != [] ==> k[p][|k[p]| - 1] < |cat|
    ensures PSized(cp) && LastCell(cat, k[p]) < |cp.id| && cp.id[LastCell(cat, k[p])] < |cp.id|
    ensures Threads(pp', pat, BackLinked(cp, x, i, LastCell(cat, k[p])), cat, s + {x}, k[p := k[p] + [x]])
  {
    assert i < |cp.id| && x < |cp.id|;
    hide Linked, EndsOk, LastCell, BackLinked, Loose, EndCell, Apart, Chain, LinkedAt, Unique;
    LastCellFacts(pp, pat, cp, cat, s, k, p);
    BackLinkedOk(cp, cat, s, x, i, LastCell(cat, k[p]));
    var k' := k[p := k[p] + [x]];
    forall q | q in k
      ensures x !in k[q] && ThreadOk(pp', pat, BackLinked(cp, x, i, LastCell(cat, k[p])), cat, s + {x}, k', q)
    {
      ThreadBack(pp, pat, pp', cp, cat, s, k, p, x, i, q);
    }
    ApartWith(k, p, x, k[p] + [x]);
  }

  lemma ThreadBack(pp: Pool, pat: seq<nat>, pp': Pool, cp: Pool, cat: seq<nat>, s: set<nat>, k: Kids, p: nat, x: nat, i: nat, q: nat)
    requires Threads(pp, pat, cp, cat, s, k) && p in k && q in k && Loose(cp, cat, s, x, i)
    requires if q == p then EndsOk(pp', pat, p, k[p] + [x]) else EndsOk(pp', pat, q, k[q])
    ensures PSized(cp) && (k[p] != [] ==> k[p][|k[p]| - 1] < |cat|) && LastCell(cat, k[p]) < |cp.id| && cp.id[LastCell(cat, k[p])] < |cp.id|
    ensures Linked(BackLinked(cp, x, i, LastCell(cat, k[p])), cat, s + {x})
    ensures x !in k[q] && ThreadOk(pp', pat, BackLinked(cp, x, i, LastCell(cat, k[p])), cat, s + {x}, k[p := k[p] + [x]], q)
  {
    LastCellFacts(pp, pat, cp, cat, s, k, p);
    BackLinkedOk(cp, cat, s, x, i, LastCell(cat, k[p]));
    assert ThreadOk(pp, pat, cp, cat, s, k, p) && ThreadOk(pp, pat, cp, cat, s, k, q);
    assert x !in s;
    hide Linked, EndsOk, LastCell, BackLinked, Loose, EndCell, Apart, Chain, LinkedAt, Unique;
    OutsideList(cp, cat, s, k[q], x);
    if q == p {
      BackChain(cp, cat, s, x, i, LastCell(cat, k[p]), k[p]);
      UniqueWith(k[p], x);
    } else {
      assert k[p] != [] ==> k[p][|k[p]| - 1] in k[p];
      assert k[p] != [] ==> k[p][|k[p]| - 1] !in k[q] by { if k[p] != [] { NotShared(k, p, q, k[p][|k[p]| - 1]); } }
      BackOtherChain(cp, cat, s, x, i, LastCell(cat, k[p]), k[q]);
    }
  }

  /** The child at position `j` of `p`, its neighbours linked to each other, leaves the list. */
  lemma ThreadsBridged(pp: Pool, pat: seq<nat>, pp': Pool, cp: Pool, cat: seq<nat>, s: set<nat>, k: Kids, p: nat, j: nat)
    requires Threads(pp, pat, cp, cat, s, k) && p in k && j < |k[p]| && 0 !in s
    requires forall q :: q in k && q != p ==> EndsOk(pp', pat, q, k[q])
    requires EndsOk(pp', pat, p, k[p][..j] + k[p][j + 1..])
    ensures k[p][j] in s && LinkedAt(cp, cat, s, k[p][j]) && cp.id[cp.prev[cat[k[p][j]]]] < |cp.id|
    ensures Threads(pp', pat, Bridged(cp, k[p][j], cat[k[p][j]]), cat, s - {k[p][j]}, k[p := k[p][..j] + k[p][j + 1..]])
  {
    hide Linked, EndsOk, LinkedAt, Chain, Bridged;
    var x := k[p][j];
    CanBridgeChild(pp, pat, cp, cat, s, k, p, j);
    hide ThreadOk, CanBridge, Unique;
    var cp', k', s' := Bridged(cp, x, cat[x]), k[p := k[p][..j] + k[p][j + 1..]], s - {x};
    assert Linked(cp', cat, s') by { BridgedOk(cp, cat, s, x, k[p], j); }
    forall q | q in k'
      ensures ThreadOk(pp', pat, cp', cat, s', k', q)
    {
      ThreadBridged(pp, pat, pp', cp, cat, s, k, p, j, q);
    }
    assert Unique(k[p]) by { UniqueThread(pp, pat, cp, cat, s, k, p); }
    ListRemoved(k[p], j);
  }

  lemma UniqueThread(pp: Pool, pat: seq<nat>, cp: Pool, cat: seq<nat>, s: set<nat>, k: Kids, p: nat)
    requires Threads(pp, pat, cp, cat, s, k) && p in k
    ensures Unique(k[p])
  {
    assert ThreadOk(pp, pat, cp, cat, s, k, p);
  }

  lemma ThreadBridged(pp: Pool, pat: seq<nat>, pp': Pool, cp: Pool, cat: seq<nat>, s: set<nat>, k: Kids, p: nat, j: nat, q: nat)
    requires Threads(pp, pat, cp, cat, s, k) && p in k && j < |k[p]| && 0 !in s && q in k
    requires k[p][j] in s && LinkedAt(cp, cat, s, k[p][j]) && PSized(cp) && |cat| == |cp.id|
    requires cp.id[cp.prev[cat[k[p][j]]]] < |cp.id|
    requires q != p ==> EndsOk(pp', pat, q, k[q])
    requires q == p ==> EndsOk(pp', pat, p, k[p][..j] + k[p][j + 1..])
    ensures var cp', k', s' := Bridged(cp, k[p][j], cat[k[p][j]]), k[p := k[p][..j] + k[p][j + 1..]], s - {k[p][j]};
      Linked(cp', cat, s') && ThreadOk(pp', pat, cp', cat, s', k', q)
  {
    hide Linked, EndsOk, Chain, Bridged, CanBridge;
    var x := k[p][j];
    CanBridgeChild(pp, pat, cp, cat, s, k, p, j);
    assert ThreadOk(pp, pat, cp, cat, s, k, q) && ThreadOk(pp, pat, cp, cat, s, k, p);
    BridgedChain(cp, cat, s, x, k[p], j);
    hide LinkedAt;
    ListRemoved(k[p], j);
    assert x in k[p];
    if q != p {
      ListInSet(cp, cat, s, k[q]);
      assert 0 !in k[q];
      BridgedOtherChain(cp, cat, s, x, k[p], j, k[q]);
    }
  }

  lemma ListInSet(cp: Pool, cat: seq<nat>, s: set<nat>, k: seq<nat>)
    requires Linked(cp, cat, s) && Chain(cp, cat, s, k)
    ensures forall x :: x in k ==> x in s
  {}

  lemma CanBridgeChild(pp: Pool, pat: seq<nat>, cp: Pool, cat: seq<nat>, s: set<nat>, k: Kids, p: nat, j: nat)
    requires Threads(pp, pat, cp, cat, s, k) && p in k && j < |k[p]| && 0 !in s
    ensures CanBridge(cp, cat, s, k[p][j], k[p], j)
    ensures PSized(cp) && |cat| == |cp.id| && k[p][j] < |cp.id| && cat[k[p][j]] < |cp.id| && cp.sib[k[p][j]] < |cp.id|
    ensures cp.prev[cat[k[p][j]]] < |cp.id| && cp.id[cp.prev[cat[k[p][j]]]] < |cp.id|
    ensures k[p][j] in s && LinkedAt(cp, cat, s, k[p][j])
    ensures NextId(cp, k[p][j]) == Follower(k[p], j) && PrevId(cp, cat, k[p][j]) == Leader(k[p], j)
  {
    assert ThreadOk(pp, pat, cp, cat, s, k, p);
    ListInSet(cp, cat, s, k[p]);
    assert k[p][j] in s && LinkedAt(cp, cat, s, k[p][j]);
    if cp.prev[cat[k[p][j]]] != 0 {
      assert LinkedAt(cp, cat, s, cp.id[cp.prev[cat[k[p][j]]]]);
    }
    hide Linked;
  }

  /** What the neighbours of the child at position `j` of `p` are. */
  lemma ChildLinks(pp: Pool, pat: seq<nat>, cp: Pool, cat: seq<nat>, s: set<nat>, k: Kids, p: nat, j: nat)
    requires Threads(pp, pat, cp, cat, s, k) && p in k && j < |k[p]| && 0 !in s
    ensures EndsOk(pp, pat, p, k[p]) && PSized(cp) && |cat| == |cp.id| && cp.id[0] == 0
    ensures var x := k[p][j];
      && 0 < x < |cp.id| && x in s && 0 < cat[x] < |cp.id| && cp.id[cat[x]] == x && cp.sib[x] < |cp.id| && cp.prev[cat[x]] < |cp.id|
      && cp.id[cp.sib[x]] == Follower(k[p], j) && cp.id[cp.prev[cat[x]]] == Leader(k[p], j) && cp.id[cp.prev[cat[x]]] < |cp.id|
      && (cp.sib[x] == 0 <==> j + 1 == |k[p]|) && (cp.prev[cat[x]] == 0 <==> j == 0)
      && (cp.sib[x] != 0 ==> cp.id[cp.sib[x]] in s && cat[cp.id[cp.sib[x]]] == cp.sib[x])
      && (cp.prev[cat[x]] != 0 ==> cp.id[cp.prev[cat[x]]] in s)
  {
    hide Linked, Chain;
    CanBridgeChild(pp, pat, cp, cat, s, k, p, j);
    assert ThreadOk(pp, pat, cp, cat, s, k, p);
    ListInSet(cp, cat, s, k[p]);
    ThreadsZero(pp, pat, cp, cat, s, k);
    assert j + 1 < |k[p]| ==> k[p][j + 1] in k[p];
    assert j > 0 ==> k[p][j - 1] in k[p];
  }

  lemma ThreadsZero(pp: Pool, pat: seq<nat>, cp: Pool, cat: seq<nat>, s: set<nat>, k: Kids)
    requires Threads(pp, pat, cp, cat, s, k)
    ensures PSized(cp) && cp.id[0] == 0
  {}

  lemma BridgedEnds(pp: Pool, pat: seq<nat>, pp': Pool, p: nat, k: seq<nat>, j: nat)
    requires EndsOk(pp, pat, p, k) && j < |k| && |pp'.sib| == |pp.sib| && |pp'.prev| == |pp.prev|
    requires pp'.sib[p] == if j == 0 then Follower(k, 0) else pp.sib[p]
    requires pp'.prev[pat[p]] == if j + 1 == |k| then Leader(k, j) else pp.prev[pat[p]]
    ensures EndsOk(pp', pat, p, k[..j] + k[j + 1..])
  {}

  /** An object without children comes, or goes; the others keep their ends. */
  lemma ThreadsObjects(pp: Pool, pat: seq<nat>, pp': Pool, pat': seq<nat>, cp: Pool, cat: seq<nat>, s: set<nat>, k: Kids, k': Kids, o: nat)
    requires Threads(pp, pat, cp, cat, s, k)
    requires (k' == k[o := []] && o !in k && EndsOk(pp', pat', o, [])) || (k' == k - {o} && o in k)
    requires forall q :: q in k && q != o ==> EndsOk(pp', pat', q, k[q])
    ensures Threads(pp', pat', cp, cat, s, k')
  {
    hide Linked, EndsOk, Chain;
    forall q | q in k'
      ensures ThreadOk(pp', pat', cp, cat, s, k', q)
    {
      if q != o {
        assert ThreadOk(pp, pat, cp, cat, s, k, q);
      } else {
        EmptyChain(cp, cat, s);
      }
    }
  }

  lemma EmptyChain(cp: Pool, cat: seq<nat>, s: set<nat>)
    requires Linked(cp, cat, s)
    ensures Chain(cp, cat, s, []) && Unique([])
  {}
}
