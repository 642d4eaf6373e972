/** The table of weak handles to entities, changed in place. */
module EntHandles {
  import opened Rings
  import opened HandleRings

  class HandleTable {
    const next: array<nat>
    const prev: array<nat>
    const handle: array<nat>
    const first: array<nat>
    var head: nat
    var used: nat
    var maxUsed: nat
    /** The fields of the handles themselves: the entity's number plus one, and the record. */
    const number: array<nat>
    const info: array<nat>
    ghost var lists: Lists

    ghost predicate Laid() {
      && next.Length == prev.Length == handle.Length > 1 && number.Length == info.Length > 0
      && next != prev && next != handle && next != first && next != number && next != info
      && prev != handle && prev != first && prev != number && prev != info
      && handle != first && handle != number && handle != info
      && first != number && first != info && number != info
    }

    ghost function Repr(): set<object> {
      {this, next, prev, handle, first, number, info}
    }

    ghost function Snap(): Table
      reads Repr()
    {
      Table(next[..], prev[..], handle[..], first[..], head, used, number[..], info[..])
    }

    ghost predicate Valid()
      reads Repr()
    {
      Laid() && Ok(Snap(), lists) && used <= maxUsed
    }

    /** No entity has a handle; handles `1..handles - 1` name nothing. */
    constructor (records: nat, entities: nat, handles: nat)
      requires records > 1 && handles > 0
      ensures Valid() && fresh(Repr())
      ensures first.Length == entities && number.Length == handles && next.Length == records
      ensures forall h :: 0 < h < handles ==> number[h] == 0
    {
      next := new nat[records];
      prev := new nat[records];
      handle := new nat[records];
      first := new nat[entities](_ => 0);
      number := new nat[handles](_ => 0);
      info := new nat[handles](_ => 0);
      head := 1;
      used := 0;
      maxUsed := 0;
      lists := EmptyLists(records, entities);
      new;
      ChainUp();
      EmptyOk(Snap());
    }

    /** Every record free, each linked to the one after it. */
    method ChainUp()
      requires Laid()
      modifies next, handle
      ensures forall i: nat :: 0 < i < next.Length ==> handle[i] == 0 && next[i] == if i + 1 < next.Length then i + 1 else 0
    {
      for i: nat := 1 to next.Length
        invariant forall j: nat :: 0 < j < i ==> next[j] == j + 1 && handle[j] == 0
      {
        next[i] := i + 1;
        handle[i] := 0;
      }
      next[next.Length - 1] := 0;
    }

    /** Puts the record of a handle of entity `e` back on the free list. */
    method RemoveInfo(e: nat, oldInfo: nat)
      requires Laid() && e < first.Length && oldInfo < next.Length && next[oldInfo] < next.Length && prev[oldInfo] < next.Length && used > 0
      modifies this`head, this`used, next, prev, handle, first
      ensures next[..] == old(next[..])[old(prev[oldInfo]) := old(next[oldInfo])][oldInfo := old(head)]
      ensures prev[..] == old(prev[..])[old(next[oldInfo]) := old(prev[oldInfo])] && handle[..] == old(handle[..])[oldInfo := 0]
      ensures first[..] == if old(first[e]) == oldInfo then old(first[..])[e := if oldInfo != old(next[oldInfo]) then old(next[oldInfo]) else 0] else old(first[..])
      ensures head == oldInfo && used == old(used) - 1
    {
      if first[e] == oldInfo {
        first[e] := if oldInfo != next[oldInfo] then next[oldInfo] else 0;
      }
      handle[oldInfo] := 0;
      used := used - 1;
      var before := prev[oldInfo];
      prev[next[oldInfo]] := before;
      next[before] := next[oldInfo];
      next[oldInfo] := head;
      head := oldInfo;
    }

    /** Takes the first free record for handle `h` of entity `e`; returns the record. */
    method AddInfo(e: nat, h: nat) returns (infoIndex: nat)
      requires Laid() && e < first.Length && 0 < head < next.Length && first[e] < next.Length && first[e] != head
      requires first[e] != 0 ==> next[first[e]] < next.Length
      modifies this`head, this`used, this`maxUsed, next, prev, handle, first
      ensures infoIndex == old(head) && head == old(next[head]) && used == old(used) + 1
      ensures maxUsed == if old(maxUsed) < used then used else old(maxUsed)
      ensures handle[..] == old(handle[..])[infoIndex := h]
      ensures old(first[e]) != 0 ==> next[..] == old(next[..])[infoIndex := old(next[first[e]])][old(first[e]) := infoIndex]
      ensures old(first[e]) != 0 ==> prev[..] == old(prev[..])[infoIndex := old(first[e])][old(next[first[e]]) := infoIndex]
      ensures old(first[e]) != 0 ==> first[..] == old(first[..])
      ensures old(first[e]) == 0 ==> next[..] == old(next[..])[infoIndex := infoIndex] && prev[..] == old(prev[..])[infoIndex := infoIndex]
      ensures old(first[e]) == 0 ==> first[..] == old(first[..])[e := infoIndex]
    {
      infoIndex := head;
      head := next[infoIndex];
      used := used + 1;
      if maxUsed < used {
        maxUsed := used;
      }
      handle[infoIndex] := h;
      var infoHead := first[e];
      if infoHead != 0 {
        next[infoIndex] := next[infoHead];
        prev[infoIndex] := infoHead;
        prev[next[infoHead]] := infoIndex;
        next[infoHead] := infoIndex;
      } else {
        next[infoIndex] := infoIndex;
        prev[infoIndex] := infoIndex;
        first[e] := infoIndex;
      }
    }

    /**
     Makes handle `h` name entity `ent - 1`, or nothing if `ent` is 0. When it named nothing before and
     no record is free, nothing changes and false is returned.
     */
    method SetEnt(h: nat, ent: nat) returns (ok: bool)
      requires Valid() && 0 < h < number.Length && ent <= first.Length
      modifies Repr()
      ensures Valid()
      ensures number[..] == if ok then old(number[..])[h := ent] else old(number[..])
      ensures !ok <==> ent != 0 && old(number[h]) == 0 && old(head) == 0
      ensures !ok ==> Snap() == old(Snap())
    {
      hide Ok, Cycle, BackCycle;
      ok := true;
      SizesOk(Snap(), lists);
      if number[h] != 0 {
        if ent == number[h] {
          return;
        }
        Disconnect(h);
        if ent == 0 {
          return;
        }
        Connect(h, ent - 1);
      } else if ent != 0 {
        if head == 0 {
          return false;
        }
        Connect(h, ent - 1);
      }
    }

    /** Handle `h` names nothing any more. */
    method Disconnect(h: nat)
      requires Valid() && 0 < h < number.Length && number[h] != 0
      modifies Repr()
      ensures Valid() && number[..] == old(number[..])[h := 0] && head != 0
    {
      hide Ok, Cycle, BackCycle, Without;
      ghost var t := Snap();
      SizesOk(t, lists);
      ghost var e, k := RecordPosition(t, lists, h);
      RemovedOk(t, lists, h, e, k);
      InfoPositive(t, lists, h);
      RemoveInfo(number[h] - 1, info[h]);
      lists := RemovedLists(t, lists, e, k);
      number[h] := 0;
      info[h] := 0;
      assert Snap() == Removed(t, h);
    }

    /** Handle `h`, which named nothing, names entity `e`. */
    method Connect(h: nat, e: nat)
      requires Valid() && 0 < h < number.Length && number[h] == 0 && e < first.Length && head != 0
      modifies Repr()
      ensures Valid() && number[..] == old(number[..])[h := e + 1]
    {
      hide Ok, Cycle, BackCycle, With;
      ghost var t := Snap();
      SizesOk(t, lists);
      AddedOk(t, lists, e, h);
      AddFacts(t, lists, e, h);
      FirstNotHead(t, lists, e);
      var infoIndex := AddInfo(e, h);
      info[h] := infoIndex;
      number[h] := e + 1;
      lists := AddedLists(t, lists, e);
      assert Snap() == Added(t, e, h);
    }

    /** The entity `e` goes: every handle that named it, and no other, names nothing any more. */
    method Dissociate(e: nat)
      requires Valid() && e < first.Length
      modifies Repr()
      ensures Valid()
      ensures forall h :: 0 < h < number.Length ==> number[h] == if old(number[h]) == e + 1 then 0 else old(number[h])
    {
      hide Ok, Cycle, BackCycle, Cleared;
      ghost var t := Snap();
      SizesOk(t, lists);
      EmptyRing(t, lists, e);
      var infoIndexHead := first[e];
      if infoIndexHead != 0 {
        RingFacts(t, lists, e);
        ClearHandles(e);
        DissociatedOk(t, lists, Snap(), e);
        ClearedKeeps(t, Snap(), lists.rings[e], e);
        next[prev[infoIndexHead]] := head;
        head := infoIndexHead;
        lists := DissociatedLists(lists, e);
      } else {
        NoHandles(t, lists, e);
      }
    }

    /** Goes round the ring of `e` and clears every handle on it. */
    method ClearHandles(e: nat)
      requires Valid() && e < first.Length && e < |lists.rings| && lists.rings[e] != []
      modifies this`used, handle, first, number, info
      ensures Laid() && Cleared(old(Snap()), Snap(), lists.rings[e], e, |lists.rings[e]|) && used <= maxUsed
    {
      hide Ok, Cycle, BackCycle, Cleared;
      ghost var t, ring := Snap(), lists.rings[e];
      RingFacts(t, lists, e);
      SizesOk(t, lists);
      var infoIndexHead := first[e];
      first[e] := 0;
      ClearedStart(t, Snap(), ring, e);
      var infoIndex := infoIndexHead;
      ghost var k: nat := 0;
      var more := true;
      while more
        invariant Laid() && k <= |ring| && Cleared(t, Snap(), ring, e, k) && used <= maxUsed
        invariant if more then k < |ring| && infoIndex == ring[k] else k == |ring|
        decreases |ring| - k, if more then 1 else 0
      {
        ghost var u := Snap();
        RingRecord(t, lists, e, k);
        ClearedAt(t, lists, u, e, k);
        var h := handle[infoIndex];
        number[h] := 0;
        info[h] := 0;
        handle[infoIndex] := 0;
        used := used - 1;
        assert Snap() == u.(number := u.number[h := 0], info := u.info[h := 0], handle := u.handle[infoIndex := 0], used := u.used - 1);
        ClearedMore(t, lists, u, Snap(), e, k);
        infoIndex := next[infoIndex];
        BackAtHead(t, lists, e, k);
        k := k + 1;
        more := infoIndex != infoIndexHead;
      }
    }
  }

  lemma SizesOk(t: Table, l: Lists)
    requires Ok(t, l)
    ensures Sized(t, l)
  {}

  lemma InfoPositive(t: Table, l: Lists, h: nat)
    requires Ok(t, l) && 0 < h < |t.number| && t.number[h] != 0
    ensures |t.info| == |t.number| && 0 < t.info[h]
  {
    assert HandleOk(t, l, h);
  }

  lemma FirstNotHead(t: Table, l: Lists, e: nat)
    requires Ok(t, l) && e < |t.first| && t.head != 0
    ensures t.first[e] != t.head
  {
    assert RingOk(t, l, e);
    FreeMembers(t, l);
    if l.rings[e] != [] {
      assert l.rings[e][0] in l.rings[e];
      InRange(t.next, l.rings[e]);
      assert l.free[0] in l.free;
    }
  }

  lemma EmptyRing(t: Table, l: Lists, e: nat)
    requires Ok(t, l) && e < |t.first|
    ensures e < |l.rings| && (t.first[e] == 0 <==> l.rings[e] == [])
  {
    assert RingOk(t, l, e);
    FreeMembers(t, l);
    if l.rings[e] != [] {
      assert l.rings[e][0] in l.rings[e];
      InRange(t.next, l.rings[e]);
    }
  }

  /** An entity with no ring is named by no handle. */
  lemma NoHandles(t: Table, l: Lists, e: nat)
    requires Ok(t, l) && e < |l.rings| && l.rings[e] == []
    ensures forall h: nat :: 0 < h < |t.number| ==> t.number[h] != e + 1
  {
    assert RingOk(t, l, e);
    forall h: nat | 0 < h < |t.number|
      ensures t.number[h] != e + 1
    {
      assert HandleOk(t, l, h);
    }
  }

  lemma ClearedStart(t: Table, u: Table, ring: seq<nat>, e: nat)
    requires |t.next| == |t.prev| == |t.handle| && |t.number| == |t.info| && e < |t.first| && u == t.(first := t.first[e := 0])
    ensures Cleared(t, u, ring, e, 0)
  {
    assert ring[..0] == [];
  }

  /** The next record to clear still has its handle. */
  lemma ClearedAt(t: Table, l: Lists, u: Table, e: nat, k: nat)
    requires Ok(t, l) && e < |l.rings| && k < |l.rings[e]| && Cleared(t, u, l.rings[e], e, k)
    ensures var x := l.rings[e][k];
      && x < |u.handle| == |u.next| && x < |t.handle| && u.handle[x] == t.handle[x] < |u.number| == |u.info| && u.next == t.next && u.used > 0
  {
    RingRecord(t, l, e, k);
    DissociatedUsed(t, l, e);
  }

  lemma ClearedKeeps(t: Table, u: Table, ring: seq<nat>, e: nat)
    requires Cleared(t, u, ring, e, |ring|)
    ensures u.prev == t.prev && u.head == t.head && |u.next| == |t.next|
  {}

  /** After the last record of the ring comes the first, and not before. */
  lemma BackAtHead(t: Table, l: Lists, e: nat, k: nat)
    requires Ok(t, l) && e < |l.rings| && k < |l.rings[e]|
    ensures Turn(l.rings[e], k + 1) == l.rings[e][0] <==> k + 1 == |l.rings[e]|
  {
    RingFacts(t, l, e);
    OnlyAt(l.rings[e], 0);
  }

  /** Every record on the free list, in order. */
  ghost function EmptyLists(n: nat, entities: nat): Lists
    requires n > 1
  {
    Lists(seq(entities, _ => []), seq(n - 1, i => i + 1), seq(n, _ => 0))
  }

  lemma EmptyOk(t: Table)
    requires |t.next| == |t.prev| == |t.handle| > 1 && |t.number| == |t.info| > 0 && t.head == 1 && t.used == 0
    requires forall i: nat :: 0 < i < |t.next| ==> t.handle[i] == 0 && t.next[i] == if i + 1 < |t.next| then i + 1 else 0
    requires forall e: nat :: e < |t.first| ==> t.first[e] == 0
    requires forall h: nat :: h < |t.number| ==> t.number[h] == 0 && t.info[h] == 0
    ensures Ok(t, EmptyLists(|t.next|, |t.first|))
  {
    var l := EmptyLists(|t.next|, |t.first|);
    hide Cycle, BackCycle;
    forall i: nat | i < |l.owner|
      ensures i in l.free <==> i > 0
    {
      assert i > 0 ==> l.free[i - 1] == i;
    }
    assert UsedRecords(l) == {};
  }
}
