/**
 The half of the variable list that holds child variables (or, in a second instance, objects):
 allocation of slots, the hash rings of named variables, and their relocation in place.
 */
module CellPool {
  import opened Rings
  import opened BucketRings
  import opened CellRings
  import opened VarCells
  import opened VarLinks
  import opened VarTaking
  import opened VarMoves
  import opened VarEvicting
  import opened VarLeaving
  import opened VarRings

  class CellPool {
    const id: array<nat>
    const prev: array<nat>
    const stat: array<Status>
    const next: array<nat>
    const unext: array<nat>
    const sib: array<nat>
    const name: array<nat>
    const value: array<Value>
    ghost var lay: Layout

    ghost predicate Laid() {
      && id.Length == prev.Length == stat.Length == next.Length == unext.Length == sib.Length == name.Length == value.Length > 1
      && id != prev && id != next && id != unext && id != sib && id != name
      && prev != next && prev != unext && prev != sib && prev != name
      && next != unext && next != sib && next != name
      && unext != sib && unext != name && sib != name
    }

    ghost function Repr(): set<object> {
      {this, id, prev, stat, next, unext, sib, name, value}
    }

    /** The cells as they are now. */
    ghost function Snap(): Pool
      reads Repr()
    {
      Pool(id[..], prev[..], stat[..], next[..], unext[..], sib[..], name[..], value[..])
    }

    ghost predicate Valid()
      reads Repr()
    {
      Laid() && PoolOk(Snap(), lay)
    }

    /** What the pool holds. */
    ghost function Holds(): map<nat, Entry>
      reads Repr()
      requires Valid()
    {
      Contents(Snap(), lay)
    }

    /** The sibling links among the slots of `s`, all of them in use, are sound. */
    ghost predicate Tied(s: set<nat>)
      reads Repr()
      requires Valid()
    {
      Linked(Snap(), lay.at, s) && s <= Holds().Keys
    }

    /** Every slot of the pool is in use. */
    ghost predicate Full()
      reads Repr()
      requires Valid()
    {
      forall x: nat :: 0 < x < id.Length ==> x in Holds()
    }

    /** An empty pool of `size` cells. */
    constructor (size: nat)
      requires size > 1
      ensures Valid() && fresh(Repr()) && id.Length == size
      ensures Holds() == map[] && Tied({})
    {
      hide PoolOk, Contents, Linked, EmptyCells, EmptyLayout;
      id := new nat[size];
      prev := new nat[size];
      stat := new Status[size](_ => Free);
      next := new nat[size];
      unext := new nat[size];
      sib := new nat[size](_ => 0);
      name := new nat[size](_ => 0);
      value := new Value[size](_ => Undefined);
      lay := EmptyLayout(size);
      new;
      assert fresh(Repr());
      ChainUp();
      EmptyPoolOk(Snap());
    }

    /** Every slot free and in its own cell, each cell linked to its neighbours. */
    method ChainUp()
      requires Laid()
      modifies id, prev, stat, next, unext
      ensures EmptyCells(Snap())
    {
      for index: nat := 1 to id.Length
        invariant forall i: nat :: 0 < i < index ==> id[i] == i && stat[i] == Free && next[i] == i
        invariant forall i: nat :: 0 < i < index ==> unext[i] == i + 1
        invariant forall i: nat :: 0 < i < index ==> prev[i] == i - 1
      {
        stat[index] := Free;
        id[index] := index;
        next[index] := index;
        unext[index] := index + 1;
        prev[index] := index - 1;
      }
      stat[0] := Free;
      id[0] := 0;
      next[0] := 0;
      unext[0] := 1;
      prev[1] := 0;
      prev[0] := id.Length - 1;
      unext[id.Length - 1] := 0;
    }

    // -------------------------------------------------------------- looking up

    /** The cell of the slot named `nm` in bucket `index`, or 0. */
    method FindIndex(nm: nat, index: nat) returns (r: nat)
      requires Valid() && 0 < index < id.Length
      ensures r == 0 ==> forall x :: x in Holds() ==> Holds()[x].bucket != index || Holds()[x].name != nm
      ensures r != 0 ==> r < id.Length && id[r] in Holds() && Holds()[id[r]].bucket == index && Holds()[id[r]].name == nm
      ensures r != 0 ==> lay.at[id[r]] == r
    {
      hide PoolOk, Contents, Live;
      ghost var p := Snap();
      HeadIff(p, lay, index);
      if stat[id[index]] != Head {
        NotInBucket(p, lay, index, nm, 0);
        return 0;
      }
      ghost var ring := lay.g.rings[index];
      RingStep(p, lay, index, 0);
      ghost var i: nat := 0;
      if name[id[index]] == nm {
        MemberHeld(p, lay, index, 0);
        return index;
      }
      var newIndex := next[id[index]];
      i := 1;
      while newIndex != index
        invariant 0 < i <= |ring| && newIndex == Turn(ring, i)
        invariant forall j: nat :: j < i ==> ring[j] < id.Length && id[ring[j]] < id.Length && name[id[ring[j]]] != nm
        decreases |ring| - i
      {
        RingStep(p, lay, index, i);
        if name[id[newIndex]] == nm {
          MemberHeld(p, lay, index, i);
          return newIndex;
        }
        newIndex := next[id[newIndex]];
        i := i + 1;
      }
      assert i == |ring| by {
        if i < |ring| {
          RingStep(p, lay, index, i);
        }
      }
      NotInBucket(p, lay, index, nm, i);
      return 0;
    }

    // -------------------------------------------------------------- inserting

    /** What an insertion of a slot named `nm` in bucket `index` into cell `r` leaves. */
    twostate predicate Inserted(r: nat, nm: nat, index: nat, s: set<nat>)
      reads Repr()
    {
      && Valid() && old(Valid()) && old(Tied(s)) && 0 < r < id.Length && 0 < id[r] < id.Length
      && id[r] !in old(Holds()) && Holds() == old(Holds())[id[r] := Entry(index, nm, Undefined)]
      && Tied(s) && SameLinks(old(Snap()), old(lay.at), Snap(), lay.at, s)
    }

    /**
     A new slot named `nm` in bucket `index`; returns its cell. When no cell is free, and one is
     needed, nothing changes and 0 is returned.
     */
    method Insert(nm: nat, index: nat, ghost s: set<nat>) returns (r: nat)
      requires Valid() && Tied(s) && Holds().Keys <= s && 0 < index < id.Length
      modifies this`lay, id, prev, stat, next, unext, sib, name, value
      ensures r != 0 ==> Inserted(r, nm, index, s)
      ensures r == 0 ==> old(Full()) && Snap() == old(Snap()) && lay == old(lay)
    {
      hide PoolOk, Contents, Linked, SameLinks;
      ghost var p, l := Snap(), lay;
      HeadIff(p, lay, index);
      InUse(p, lay, index);
      if stat[id[index]] != Free {
        if stat[id[index]] == Head {
          if stat[index] != Free {
            if unext[0] == 0 {
              NoFreeCell(p, lay);
              return 0;
            }
            r := InsertBehindHead(index, s);
          } else {
            r := index;
            InsertAtHead(index, s);
          }
        } else {
          if stat[index] != Free && unext[0] == 0 {
            NoFreeCell(p, lay);
            return 0;
          }
          r := index;
          InsertDisplacing(index, s);
        }
      } else {
        r := index;
        InsertAtHome(index, s);
      }
      Label(r, nm, s, p, l);
    }

    /** Names the slot in cell `r`. */
    method Label(r: nat, nm: nat, ghost s: set<nat>, ghost p: Pool, ghost l: Layout)
      requires Valid() && Tied(s) && 0 < r < id.Length && id[r] in Holds() && 0 < id[r] < id.Length
      requires PoolOk(p, l) && Linked(p, l.at, s) && SameLinks(p, l.at, Snap(), lay.at, s)
      modifies name
      ensures Valid() && Tied(s) && Holds() == old(Holds())[id[r] := old(Holds())[id[r]].(name := nm)]
      ensures SameLinks(p, l.at, Snap(), lay.at, s)
    {
      hide PoolOk, Contents, Linked, SameLinks;
      ghost var q := Snap();
      Relabelled(q, lay, id[r], nm, value[id[r]], s);
      name[id[r]] := nm;
      ghost var x := id[r];
      assert Snap() == q.(name := q.name[x := nm], value := q.value[x := q.value[x]]);
      LinksCompose(p, l.at, q, lay.at, Snap(), lay.at, s);
      assert Holds().Keys == old(Holds()).Keys + {x};
    }

    /** What bringing the slot now in cell `r` into bucket `index` leaves, before it is named. */
    twostate predicate Brought(r: nat, index: nat, s: set<nat>)
      reads Repr()
    {
      && Valid() && old(Valid()) && old(Tied(s)) && 0 < r < id.Length && 0 < id[r] < id.Length
      && id[r] !in old(Holds()) && Holds() == old(Holds())[id[r] := Entry(index, name[id[r]], Undefined)]
      && Tied(s) && SameLinks(old(Snap()), old(lay.at), Snap(), lay.at, s)
    }

    /** Slot `i` moves home from cell `j`, where the slot `f` from cell `i` goes. */
    method SwapHome(i: nat, j: nat, f: nat)
      requires Laid() && i < id.Length && j < id.Length && f < id.Length
      modifies id, next, unext
      ensures id[..] == old(id[..])[j := f][i := i]
      ensures next[..] == old(next[..])[f := j]
      ensures unext[..] == old(unext[..])[f := old(unext[i])]
    {
      id[j] := f;
      id[i] := i;
      next[f] := j;
      unext[f] := unext[i];
    }

    /** Cell `i`, followed by `nx`, leaves the free list, and its slot `x` comes into use. */
    method Use(x: nat, i: nat, nx: nat, st: Status)
      requires Laid() && x < id.Length && i < id.Length && nx < id.Length && prev[i] < id.Length && id[prev[i]] < id.Length
      modifies prev, unext, stat, next, value
      ensures prev[..] == old(prev[..])[nx := old(prev[i])]
      ensures unext[..] == old(unext[..])[id[old(prev[i])] := nx]
      ensures stat[..] == old(stat[..])[x := st] && next[..] == old(next[..])[x := i]
      ensures value[..] == old(value[..])[x := Undefined]
    {
      var pv := prev[i];
      unext[id[pv]] := nx;
      prev[nx] := pv;
      stat[x] := st;
      next[x] := i;
      value[x] := Undefined;
    }

    /** Cell `h` is free: it heads a new ring, with slot `h` in it if that is free in another cell. */
    method InsertAtHome(h: nat, ghost s: set<nat>)
      requires Valid() && Tied(s) && 0 < h < id.Length && lay.g.owner[h] == 0
      modifies this`lay, id, prev, stat, next, unext, value
      ensures Brought(h, h, s)
    {
      hide PoolOk, Contents, Linked, SameLinks, Settled, CanSwap, CanTake;
      ghost var p, l := Snap(), lay;
      PoolSizes(p, l);
      AllLive(p, l, s);
      CanTakeFree(p, l, h);
      TakeFacts(p, l, h);
      HomeCondition(p, l, h);
      ghost var swap := !(next[h] == id[h] || stat[h] != Free);
      ghost var l' := SettledOk(p, l, h, swap, Head, s);
      SettledWrites(p, l, h, swap, Head);
      var x, nx := id[h], unext[id[h]];
      if !(next[h] == id[h] || stat[h] != Free) {
        SwapFacts(p, l, h);
        SwapHome(h, next[h], id[h]);
        x := h;
      }
      Use(x, h, nx, Head);
      assert Snap() == Settled(p, h, swap, Head);
      lay := l';
    }

    /** Cell `n`, followed by cell `nx`, leaves the free list. */
    method Unlink(n: nat, nx: nat)
      requires Laid() && n < id.Length && nx < id.Length && prev[n] < id.Length && id[prev[n]] < id.Length
      modifies prev, unext
      ensures prev[..] == old(prev[..])[nx := old(prev[n])]
      ensures unext[..] == old(unext[..])[id[old(prev[n])] := nx]
    {
      var pv := prev[n];
      unext[id[pv]] := nx;
      prev[nx] := pv;
    }

    /** Cell `h` heads its ring and slot `h` is in use: the slot in the first free cell goes right behind the head. */
    method InsertBehindHead(h: nat, ghost s: set<nat>) returns (r: nat)
      requires Valid() && Tied(s) && Holds().Keys <= s && 0 < h < id.Length && id[h] < id.Length
      requires stat[id[h]] == Head && unext[0] != 0
      modifies this`lay, prev, stat, next, unext, value
      ensures Brought(r, h, s)
    {
      hide PoolOk, Contents, Linked, SameLinks, CanMove, MoveReady;
      ghost var p, l := Snap(), lay;
      r := unext[0];
      FirstFreeMove(p, l, h, r, s);
      HeadIff(p, l, h);
      MoveFacts(p, l, h, r, s);
      ghost var l' := JoinedOk(p, l, h, r, s, false);
      var x, m := id[r], id[h];
      Unlink(r, unext[x]);
      stat[x], value[x] := Movable, Undefined;
      next[x] := next[m];
      next[m] := r;
      assert Snap() == Joined(p, h, r);
      lay := l';
    }

    /** Cell `h` heads its ring and slot `h` is free: it becomes the head, the slot in cell `h` goes right behind it. */
    method InsertAtHead(h: nat, ghost s: set<nat>)
      requires Valid() && Tied(s) && Holds().Keys <= s && 0 < h < id.Length && id[h] < id.Length
      requires stat[id[h]] == Head && stat[h] == Free
      modifies this`lay, id, prev, stat, unext, sib, value
      ensures Brought(h, h, s)
    {
      hide PoolOk, Contents, Linked, SameLinks, CanMove, MoveReady;
      ghost var p, l := Snap(), lay;
      var n := next[h];
      FreeHomeMove(p, l, h, s);
      HeadIff(p, l, h);
      MoveFacts(p, l, h, n, s);
      ghost var l' := JoinedOk(p, l, h, n, s, true);
      TakeHome(h, n);
      lay := l';
    }

    /** The writes when slot `h` comes home from cell `n` to head its ring. */
    method TakeHome(h: nat, n: nat)
      requires Laid() && h != n && h < id.Length && n < id.Length && id[n] == h && id[h] < id.Length && unext[h] < id.Length
      requires prev[n] < id.Length && id[prev[n]] < id.Length && prev[h] < id.Length && id[prev[h]] < id.Length && sib[id[h]] < id.Length
      requires prev[h] != n && prev[h] != h && unext[h] != h && id[prev[h]] != id[h]
      modifies id, prev, stat, unext, sib, value
      ensures Snap() == HomeTaken(old(Snap()), h, n)
    {
      ghost var p := Snap();
      var m := id[h];
      Unlink(n, unext[h]);
      id[n] := m;
      id[h] := h;
      prev[n] := prev[h];
      sib[id[prev[n]]] := n;
      prev[sib[m]] := n;
      stat[m] := Movable;
      stat[h], value[h] := Head, Undefined;
      assert Snap() == HomeTaken(p, h, n);
    }

    /** The slot before cell `h`, at position `j` of its ring, found by going once round. */
    method FindBefore(h: nat, ghost o: nat, ghost j: nat) returns (a: nat)
      requires Valid() && HeadsRing(lay, o) && 0 < j < |lay.g.rings[o]| && lay.g.rings[o][j] == h
      ensures lay.g.rings[o][j - 1] < id.Length && a == id[lay.g.rings[o][j - 1]]
    {
      hide PoolOk;
      ghost var p, ring := Snap(), lay.g.rings[o];
      RingStep(p, lay, o, j);
      ghost var i: nat := if j + 1 == |ring| then 0 else j + 1;
      RingStep(p, lay, o, i);
      a := id[next[id[h]]];
      while next[a] != h
        invariant i < |ring| && i != j && ring[i] < id.Length && a == id[ring[i]] && a < id.Length
        invariant next[a] == Turn(ring, i + 1) && next[a] < id.Length
        decreases if i > j then |ring| - i + j else j - i
      {
        AroundStep(p, lay, o, i, j);
        i := if i + 1 == |ring| then 0 else i + 1;
        RingStep(p, lay, o, i);
        a := id[next[a]];
      }
      OnlyBefore(p, lay, o, i, j);
    }

    /** A free cell for the resident of cell `h`: the one that slot `h` is free in, or else the first. */
    method FindRoom(h: nat, ghost s: set<nat>) returns (n: nat)
      requires Valid() && Tied(s) && Holds().Keys <= s && 0 < h < id.Length && id[h] < id.Length && stat[id[h]] != Free
      requires stat[h] == Free || unext[0] != 0
      ensures CanMove(Snap(), lay, h, n, s)
    {
      hide PoolOk, Contents, Linked, CanMove;
      if stat[h] != Free {
        n := unext[0];
        FirstFreeMove(Snap(), lay, h, n, s);
      } else {
        n := next[h];
        FreeHomeMove(Snap(), lay, h, s);
      }
    }

    /** The slot whose link is to be redirected when the resident of cell `h` moves: itself if external. */
    method FindPredecessor(h: nat) returns (a: nat, ghost j: nat)
      requires Valid() && 0 < h < id.Length && id[h] < id.Length && (stat[id[h]] == Movable || stat[id[h]] == External)
      ensures h < |lay.g.owner| && (h !in lay.ext ==> lay.g.owner[h] in lay.g.rings && lay.g.owner[h] != h)
      ensures h !in lay.ext ==> 0 < j < |lay.g.rings[lay.g.owner[h]]| && lay.g.rings[lay.g.owner[h]][j] == h
      ensures PredCell(lay, h, j) < id.Length && a == id[PredCell(lay, h, j)]
    {
      hide PoolOk;
      HeadIff(Snap(), lay, h);
      a := id[h];
      j := 0;
      if stat[a] == Movable {
        j := MovableRing(Snap(), lay, h);
        a := FindBefore(h, lay.g.owner[h], j);
      }
    }

    /** The resident of cell `h` moves to a free cell, and the slot from there heads a new ring in cell `h`. */
    method InsertDisplacing(h: nat, ghost s: set<nat>)
      requires Valid() && Tied(s) && Holds().Keys <= s && 0 < h < id.Length && id[h] < id.Length
      requires stat[id[h]] == Movable || stat[id[h]] == External
      requires stat[h] == Free || unext[0] != 0
      modifies this`lay, id, prev, stat, next, unext, sib, value
      ensures Brought(h, h, s)
    {
      hide PoolOk, Contents, Linked, SameLinks, CanMove, MoveReady, ReadyToEvict;
      ghost var p, l := Snap(), lay;
      var newIndex := FindRoom(h, s);
      var a, j := FindPredecessor(h);
      EvictionReady(p, l, h, newIndex, s);
      ghost var l' := EvictedOk(p, l, h, newIndex, j, s);
      Evict(h, newIndex, a);
      lay := l';
    }

    /** The writes of an eviction. */
    method Evict(h: nat, n: nat, a: nat)
      requires Laid() && ReadyToEvict(Snap(), h, n) && a < id.Length
      modifies id, prev, stat, next, unext, sib, value
      ensures Snap() == Evicted(old(Snap()), h, n, a)
    {
      ghost var p := Snap();
      var f, m := id[n], id[h];
      Relink(h, n);
      next[a] := n;
      prev[n] := prev[h];
      id[n] := m;
      id[h] := f;
      stat[f], value[f] := Head, Undefined;
      next[f] := h;
      assert Snap() == Evicted(p, h, n, a);
    }

    /** Cell `n` leaves the free list, and the siblings of the slot in cell `h` come to point at it. */
    method Relink(h: nat, n: nat)
      requires Laid() && h < id.Length && n < id.Length && id[h] < id.Length && id[n] < id.Length && unext[id[n]] < id.Length
      requires prev[n] < id.Length && id[prev[n]] < id.Length && prev[h] < id.Length && id[prev[h]] < id.Length && sib[id[h]] < id.Length
      requires unext[id[n]] != h && id[prev[h]] != id[h] && sib[id[h]] != h
      modifies prev, unext, sib
      ensures sib[..] == MovedSib(old(Snap()), h, n)
      ensures unext[..] == FreeUnlinked(old(Snap()), n, old(unext[id[n]])).unext
      ensures var m, q := id[h], FreeUnlinked(old(Snap()), n, old(unext[id[n]]));
        prev[..] == (if old(sib[m]) != 0 then q.prev[old(sib[m]) := n] else q.prev) && prev[h] == old(prev[h])
    {
      var f, m := id[n], id[h];
      Unlink(n, unext[f]);
      var prevSibling, nextSibling := prev[h], sib[m];
      if prevSibling != 0 {
        sib[id[prevSibling]] := n;
      }
      if nextSibling != 0 {
        prev[nextSibling] := n;
      }
    }

    // -------------------------------------------------------------- taking a slot out of its ring

    /** What taking slot `x` out of its ring leaves. */
    twostate predicate Left(x: nat, s: set<nat>)
      reads Repr()
    {
      && Valid() && old(Valid()) && old(Tied(s)) && x in old(Holds())
      && Holds() == old(Holds())[x := old(Holds())[x].(bucket := 0)]
      && Tied(s) && SameLinks(old(Snap()), old(lay.at), Snap(), lay.at, s)
    }

    /** The slot in cell `index` becomes external. */
    method MakeExternal(index: nat, ghost s: set<nat>)
      requires Valid() && Tied(s) && Holds().Keys <= s && 0 < index < id.Length
      requires id[index] in Holds() && Holds()[id[index]].bucket != 0
      modifies this`lay, id, prev, stat, next, sib
      ensures Left(old(id[index]), s)
    {
      hide PoolOk, Contents, Linked, SameLinks, CanLeave;
      ghost var p, l := Snap(), lay;
      LeaveFacts(p, l, index, s);
      HeadIff(p, l, index);
      var m := id[index];
      if stat[m] == Head {
        RingStep(p, l, index, 0);
        if next[m] == index {
          LoneRing(p, l, index);
          ghost var l' := LoneLeftOk(p, l, index, s);
          stat[m] := External;
          next[m] := index;
          lay := l';
        } else {
          HeadLeaves(index, s);
        }
      } else {
        MemberLeaves(index, s);
      }
    }

    method MemberLeaves(index: nat, ghost s: set<nat>)
      requires Valid() && Tied(s) && CanLeave(Snap(), lay, index, s) && id[index] < id.Length && stat[id[index]] == Movable
      modifies this`lay, stat, next
      ensures Left(old(id[index]), s)
    {
      hide PoolOk, Contents, Linked, SameLinks, CanLeave;
      ghost var p, l := Snap(), lay;
      LeaveParts(p, l, index, s);
      HeadIff(p, l, index);
      ghost var o := l.g.owner[index];
      ghost var j := MovableRing(p, l, index);
      MemberFactsAt(p, l, o, index, j, s);
      var m := id[index];
      var a := FindBeforeSelf(index, o, j);
      next[a] := next[m];
      stat[m] := External;
      next[m] := index;
      assert Snap() == MemberLeft(p, index, a);
      ghost var l' := MemberLeftLayout(Snap(), l, o, index, j);
      MemberLeftOk(p, l, o, index, j, s, Snap(), l');
      lay := l';
    }

    /** As `FindBefore`, remembering the cell passed last until coming back to cell `h`. */
    method FindBeforeSelf(h: nat, ghost o: nat, ghost j: nat) returns (a: nat)
      requires Valid() && HeadsRing(lay, o) && 0 < j < |lay.g.rings[o]| && lay.g.rings[o][j] == h
      ensures lay.g.rings[o][j - 1] < id.Length && a == id[lay.g.rings[o][j - 1]]
    {
      hide PoolOk;
      ghost var p, ring := Snap(), lay.g.rings[o];
      RingStep(p, lay, o, j);
      ghost var i: nat := j;
      var prevCell, cell := h, next[id[h]];
      while cell != h
        invariant i < |ring| && prevCell == ring[i] && prevCell < id.Length && cell == Turn(ring, i + 1) && cell < id.Length
        invariant id[prevCell] < id.Length
        decreases if i >= j then |ring| - i + j else j - i
      {
        NotYetRound(p, lay, o, i, j);
        i := if i + 1 == |ring| then 0 else i + 1;
        RingStep(p, lay, o, i);
        prevCell := cell;
        cell := next[id[cell]];
      }
      OnlyBefore(p, lay, o, i, j);
      a := id[prevCell];
    }

    method HeadLeaves(index: nat, ghost s: set<nat>)
      requires Valid() && Tied(s) && Holds().Keys <= s && CanLeave(Snap(), lay, index, s) && id[index] < id.Length
      requires stat[id[index]] == Head && next[id[index]] != index
      modifies this`lay, id, prev, stat, next, sib
      ensures Left(old(id[index]), s)
    {
      hide PoolOk, Contents, Linked, SameLinks, CanLeave;
      ghost var p, l := Snap(), lay;
      LeaveParts(p, l, index, s);
      HeadIff(p, l, index);
      LongRing(p, l, index);
      HeadPair(p, l, index, s);
      var m := id[index];
      var oldIndex := next[m];
      InUse(p, l, oldIndex);
      LinkIndices(p, l, index, s);
      LinkIndices(p, l, oldIndex, s);
      ghost var y := id[oldIndex];
      Promote(index, oldIndex);
      ghost var l' := HeadLeftLayout(Snap(), l, index, oldIndex, l.at[m := oldIndex][y := index]);
      HeadLeftOk(p, l, index, oldIndex, s, Snap(), l');
      lay := l';
    }

    /** The slots in cells `h` and `o` trade places; the one now in cell `h` heads the ring and the other is external. */
    method Promote(h: nat, o: nat)
      requires Laid() && h < id.Length && o < id.Length && id[h] < id.Length && id[o] < id.Length
      requires prev[h] < id.Length && prev[o] < id.Length && sib[id[h]] < id.Length && sib[id[o]] < id.Length
      requires id[prev[h]] < id.Length && id[prev[o]] < id.Length && h != o
      modifies id, prev, stat, next, sib
      ensures Snap() == HeadLeft(old(Snap()), h, o)
    {
      var m := id[h];
      Trade(h, o);
      stat[id[h]] := Head;
      stat[m] := External;
      next[m] := o;
    }

    /** The links to the slots in cells `h` and `o` are redirected, as those trade places. */
    method Redirect(h: nat, o: nat)
      requires Laid() && h < id.Length && o < id.Length && id[h] < id.Length && id[o] < id.Length
      requires prev[h] < id.Length && prev[o] < id.Length && sib[id[h]] < id.Length && sib[id[o]] < id.Length
      requires id[prev[h]] < id.Length && id[prev[o]] < id.Length
      modifies prev, sib
      ensures Redirected(old(Snap()), prev[..], sib[..], h, o)
    {
      ghost var p := Snap();
      var prevSibling, nextSibling := prev[h], sib[id[h]];
      var oldPrevSibling, oldNextSibling := prev[o], sib[id[o]];
      if oldNextSibling != 0 {
        prev[oldNextSibling] := h;
      }
      if oldPrevSibling != 0 {
        sib[id[oldPrevSibling]] := h;
      }
      if nextSibling != 0 {
        prev[nextSibling] := o;
      }
      if prevSibling != 0 {
        sib[id[prevSibling]] := o;
      }
    }

    /** The slots in cells `h` and `o` trade places, and the links to them follow. */
    method Trade(h: nat, o: nat)
      requires Laid() && h < id.Length && o < id.Length && id[h] < id.Length && id[o] < id.Length
      requires prev[h] < id.Length && prev[o] < id.Length && sib[id[h]] < id.Length && sib[id[o]] < id.Length
      requires id[prev[h]] < id.Length && id[prev[o]] < id.Length && h != o
      modifies id, prev, sib
      ensures Snap() == Swapped(old(Snap()), h, o) && id[h] == old(id[o]) && id[o] == old(id[h])
    {
      hide Swapped, Redirected;
      ghost var p := Snap();
      Redirect(h, o);
      ghost var b, f := prev[..], sib[..];
      id[h], id[o] := id[o], id[h];
      prev[h], prev[o] := prev[o], prev[h];
      RedirectedSwapped(p, b, f, h, o);
      assert Snap() == p.(id := p.id[h := p.id[o]][o := p.id[h]], prev := b[h := b[o]][o := b[h]], sib := f);
    }

    // -------------------------------------------------------------- external slots

    /** The slots in use before the call, other than `x`, keep their cell and what both link fields hold. */
    twostate predicate Undisturbed(x: nat)
      reads Repr()
    {
      Valid() && old(Valid()) && StayPut(old(Snap()), old(lay), Snap(), lay, x)
    }

    /** What the allocation of the external slot `x` leaves. */
    twostate predicate Allocated(x: nat, v: Value, s: set<nat>)
      reads Repr()
    {
      && Valid() && old(Valid()) && old(Tied(s)) && 0 < x < id.Length && x !in old(Holds())
      && Holds() == old(Holds())[x := Entry(0, name[x], v)]
      && Tied(s) && SameLinks(old(Snap()), old(lay.at), Snap(), lay.at, s)
      && sib[x] == 0 && next[x] < id.Length && prev[next[x]] == 0
      && Undisturbed(x)
    }

    /**
     A new external slot, holding `v`, linked to nothing; slot `i` of the first free cell `i` if that
     is free. Returns 0 when no cell is free.
     */
    method Alloc(v: Value, ghost s: set<nat>) returns (x: nat)
      requires Valid() && Tied(s)
      modifies this`lay, id, prev, stat, next, unext, sib, value
      ensures if x == 0 then old(Full()) && Snap() == old(Snap()) && lay == old(lay) else Allocated(x, v, s)
    {
      hide PoolOk, Contents, Linked, SameLinks, CanSwap, CanTake, StayPut;
      ghost var p, l := Snap(), lay;
      PoolSizes(p, l);
      if unext[0] == 0 {
        NoFreeCell(p, l);
        return 0;
      }
      x := TakeFirst(s);
      LiveCells(Snap(), lay);
      Clear(x, next[x], v, s, p, l);
    }

    /** The first free cell comes into use, with the slot of its number if that is free. */
    method TakeFirst(ghost s: set<nat>) returns (x: nat)
      requires Valid() && Tied(s) && unext[0] != 0
      modifies this`lay, id, prev, stat, next, unext, value
      ensures Valid() && 0 < x < id.Length && x !in old(Holds()) && Holds() == old(Holds())[x := Entry(0, name[x], Undefined)]
      ensures Tied(s) && SameLinks(old(Snap()), old(lay.at), Snap(), lay.at, s)
      ensures 0 < next[x] < id.Length == |lay.g.owner| && id[next[x]] == x && lay.g.owner[next[x]] == next[x]
      ensures Undisturbed(x)
    {
      hide PoolOk, Contents, Linked, SameLinks, Settled, CanSwap, CanTake;
      ghost var p, l := Snap(), lay;
      PoolSizes(p, l);
      var i := unext[0];
      FirstFreeCell(p, l);
      AllLive(p, l, s);
      CanTakeFree(p, l, i);
      TakeFacts(p, l, i);
      HomeConditionFirst(p, l, i);
      ghost var swap := i != id[i] && stat[i] == Free;
      ghost var l' := SettledOk(p, l, i, swap, External, s);
      SettledWrites(p, l, i, swap, External);
      LiveCells(p, l);
      x := id[i];
      var nx := unext[x];
      if i != id[i] && stat[i] == Free {
        SwapFacts(p, l, i);
        SwapHome(i, next[i], id[i]);
        x := i;
      }
      Use(x, i, nx, External);
      lay := l';
      assert Snap() == Settled(p, i, swap, External);
      PoolSizes(Snap(), l');
    }

    /** A slot just taken, in cell `i`, gets its first value and no links. */
    method Clear(x: nat, i: nat, v: Value, ghost s: set<nat>, ghost p: Pool, ghost l: Layout)
      requires Valid() && Tied(s) && x in Holds() && x !in s && x < id.Length && 0 < i < id.Length && lay.g.owner[i] == i
      requires id[i] == x && next[x] == i
      requires PoolOk(p, l) && Linked(p, l.at, s) && SameLinks(p, l.at, Snap(), lay.at, s)
      requires Contents(p, l).Keys <= Holds().Keys - {x} && StayPut(p, l, Snap(), lay, x)
      modifies this`lay, prev, sib, value
      ensures StayPut(p, l, Snap(), lay, x)
      ensures Valid() && Tied(s) && Holds() == old(Holds())[x := old(Holds())[x].(value := v)]
      ensures SameLinks(p, l.at, Snap(), lay.at, s) && sib[..] == old(sib[..])[x := 0] && prev[..] == old(prev[..])[i := 0]
      ensures lay == old(lay).(t := lay.t)
    {
      hide PoolOk, Contents, Linked, SameLinks, StayPut;
      PoolSizes(Snap(), lay);
      SetValue(x, v, s);
      LinksCompose(p, l.at, old(Snap()), old(lay.at), Snap(), lay.at, s);
      label valued:
      SetLinks(x, i, 0, 0);
      OutsideLinks(old@valued(Snap()), lay.at, x, i, 0, 0, s);
      StillPut(p, l, old(Snap()), old(lay), Snap(), lay, x, i);
      LinksCompose(p, l.at, old@valued(Snap()), lay.at, Snap(), lay.at, s);
    }

    method SetValue(x: nat, v: Value, ghost s: set<nat>)
      requires Valid() && x in Holds() && x < id.Length && Linked(Snap(), lay.at, s)
      modifies value
      ensures Valid() && Holds() == old(Holds())[x := old(Holds())[x].(value := v)]
      ensures value[..] == old(value[..])[x := v]
      ensures Linked(Snap(), lay.at, s) && SameLinks(old(Snap()), lay.at, Snap(), lay.at, s)
    {
      hide PoolOk, Contents, Linked, SameLinks;
      ghost var q := Snap();
      Relabelled(q, lay, x, name[x], v, s);
      value[x] := v;
      assert Snap() == q.(name := q.name[x := q.name[x]], value := q.value[x := v]);
    }

    /** Writes the forward link of slot `x`. */
    method SetSib(x: nat, v: nat)
      requires Valid() && x < id.Length
      modifies sib
      ensures Valid() && Holds() == old(Holds()) && sib[..] == old(sib[..])[x := v]
    {
      hide PoolOk, Contents;
      ghost var q := Snap();
      Resibled(q, lay, x, v);
      sib[x] := v;
      assert Snap() == q.(sib := q.sib[x := v]);
    }

    /** Writes the backward link of a cell in use. */
    method SetPrev(i: nat, v: nat)
      requires Valid() && i < id.Length && i < |lay.g.owner| && (i == 0 || lay.g.owner[i] != 0)
      modifies this`lay, prev
      ensures Valid() && Holds() == old(Holds()) && prev[..] == old(prev[..])[i := v]
      ensures lay == old(lay).(t := lay.t)
    {
      hide PoolOk, Contents;
      ghost var q := Snap();
      lay := Repreved(q, lay, i, v);
      prev[i] := v;
      assert Snap() == q.(prev := q.prev[i := v]);
    }

    /** Writes both links of a slot: the backward one in its cell `i`. */
    method SetLinks(x: nat, i: nat, v: nat, b: nat)
      requires Valid() && x < id.Length && i < id.Length && i < |lay.g.owner| && (i == 0 || lay.g.owner[i] != 0)
      modifies this`lay, prev, sib
      ensures Valid() && Holds() == old(Holds()) && sib[..] == old(sib[..])[x := v] && prev[..] == old(prev[..])[i := b]
      ensures lay == old(lay).(t := lay.t)
    {
      hide PoolOk, Contents;
      SetPrev(i, b);
      SetSib(x, v);
    }

    /** The external slot `x` goes back to the free list. */
    method Release(x: nat, ghost s: set<nat>)
      requires Valid() && Tied(s) && x in Holds() && Holds()[x].bucket == 0 && x !in s && 0 < x < id.Length
      modifies this`lay, prev, stat, unext, value
      ensures Valid() && Holds() == old(Holds()) - {x}
      ensures Tied(s) && SameLinks(old(Snap()), old(lay.at), Snap(), lay.at, s)
      ensures Undisturbed(x)
    {
      hide PoolOk, Contents, Linked, SameLinks;
      ghost var p, l := Snap(), lay;
      LiveCells(p, l);
      ExternalFacts(p, l, x);
      AllLive(p, l, s);
      var i := next[x];
      ghost var l' := ReleasedOk(p, l, i, s);
      stat[x], value[x] := Free, Undefined;
      unext[x] := unext[0];
      prev[i] := 0;
      prev[unext[0]] := i;
      unext[0] := i;
      FirstFreeCell(p, l);
      assert Snap() == Released(p, i);
      lay := l';
    }
  }

  /** Every slot in use but `x` has the cell it had, with the same links in its two fields. */
  ghost predicate StayPut(p: Pool, l: Layout, p': Pool, l': Layout, x: nat)
    requires PoolOk(p, l)
  {
    forall q: nat :: q in Contents(p, l) && q != x ==>
      && q < |p'.id| == |l'.at| && q < |p.id| == |l.at| && l'.at[q] == l.at[q] < |p'.id| && l.at[q] < |p.id|
      && |p'.sib| == |p'.prev| == |p'.id| && |p.sib| == |p.prev| == |p.id|
      && p'.sib[q] == p.sib[q] && p'.prev[l.at[q]] == p.prev[l.at[q]]
  }

  /** Writing the links of slot `x` in cell `i` leaves the others put. */
  lemma StillPut(p: Pool, l: Layout, p': Pool, l': Layout, q: Pool, m: Layout, x: nat, i: nat)
    requires PoolOk(p, l) && PoolOk(p', l') && PoolOk(q, m) && StayPut(p, l, p', l', x) && Contents(p, l).Keys <= Contents(p', l').Keys
    requires x < |p'.id| && i < |p'.id| && |p'.sib| == |p'.prev| == |p'.id| && p'.id[i] == x && m.at == l'.at && |q.id| == |p'.id|
    requires q.sib == p'.sib[x := 0] && q.prev == p'.prev[i := 0]
    ensures StayPut(p, l, q, m, x)
  {
    hide PoolOk, Contents;
    LiveCells(p', l');
  }

  /** The links in the way of an eviction are not those to be written. */
  ghost predicate ReadyToEvict(p: Pool, h: nat, n: nat) {
    && MoveReady(p, h, n) && h != n && p.prev[h] != n && p.prev[h] != h && p.sib[p.id[h]] != h && p.sib[p.id[h]] != n
    && p.unext[p.id[n]] != h && p.id[p.prev[h]] != p.id[h]
  }

  lemma EvictionReady(p: Pool, l: Layout, h: nat, n: nat, s: set<nat>)
    requires CanMove(p, l, h, n, s)
    ensures ReadyToEvict(p, h, n) && h < |p.id| && n < |p.id| && 0 < p.id[n] < |p.id|
  {
    hide PoolOk, Linked, Contents;
    MoveFacts(p, l, h, n, s);
  }

  /** The columns of links after the slots in cells `h` and `o` have traded places, but for their own. */
  ghost predicate Redirected(p: Pool, b: seq<nat>, f: seq<nat>, h: nat, o: nat)
    requires PSized(p) && h < |p.id| && o < |p.id| && p.id[h] < |p.id| && p.id[o] < |p.id|
    requires p.prev[h] < |p.id| && p.prev[o] < |p.id| && p.sib[p.id[h]] < |p.id| && p.sib[p.id[o]] < |p.id|
    requires p.id[p.prev[h]] < |p.id| && p.id[p.prev[o]] < |p.id|
  {
    var m, y := p.id[h], p.id[o];
    var b1 := if p.sib[y] != 0 then p.prev[p.sib[y] := h] else p.prev;
    var f1 := if p.prev[o] != 0 then p.sib[p.id[p.prev[o]] := h] else p.sib;
    && b == (if p.sib[m] != 0 then b1[p.sib[m] := o] else b1)
    && f == (if p.prev[h] != 0 then f1[p.id[p.prev[h]] := o] else f1)
  }

  lemma RedirectedSwapped(p: Pool, b: seq<nat>, f: seq<nat>, h: nat, o: nat)
    requires PSized(p) && h < |p.id| && o < |p.id| && p.id[h] < |p.id| && p.id[o] < |p.id|
    requires p.prev[h] < |p.id| && p.prev[o] < |p.id| && p.sib[p.id[h]] < |p.id| && p.sib[p.id[o]] < |p.id|
    requires p.id[p.prev[h]] < |p.id| && p.id[p.prev[o]] < |p.id| && Redirected(p, b, f, h, o)
    ensures |b| == |p.id| && Swapped(p, h, o) == p.(id := p.id[h := p.id[o]][o := p.id[h]], prev := b[h := b[o]][o := b[h]], sib := f)
  {}

  lemma MemberHeld(p: Pool, l: Layout, h: nat, i: nat)
    requires PoolOk(p, l) && HeadsRing(l, h) && i < |l.g.rings[h]| && h != 0
    ensures var c := l.g.rings[h][i];
      c < |p.id| && p.id[c] in Contents(p, l) && p.id[c] < |p.name| && Contents(p, l)[p.id[c]].name == p.name[p.id[c]]
      && Contents(p, l)[p.id[c]].bucket == h && p.id[c] < |l.at| && l.at[p.id[c]] == c
  {
    hide Cells, Viewed;
    RingStep(p, l, h, i);
    var x := p.id[l.g.rings[h][i]];
    assert Live(p, x);
    BucketIsRing(p, l, h, x);
  }

  /** Once the whole ring has been looked at, no slot of the bucket has the name. */
  lemma NotInBucket(p: Pool, l: Layout, h: nat, nm: nat, i: nat)
    requires PoolOk(p, l) && h != 0
    requires HeadsRing(l, h) ==> i == |l.g.rings[h]|
    requires HeadsRing(l, h) ==> forall j: nat :: j < i ==>
      l.g.rings[h][j] < |p.id| == |p.name| && p.id[l.g.rings[h][j]] < |p.id| && p.name[p.id[l.g.rings[h][j]]] != nm
    ensures forall x :: x in Contents(p, l) ==> Contents(p, l)[x].bucket != h || Contents(p, l)[x].name != nm
  {
    hide Cells;
    forall x | x in Contents(p, l)
      ensures Contents(p, l)[x].bucket != h || Contents(p, l)[x].name != nm
    {
      BucketIsRing(p, l, h, x);
    }
  }

  /** A cell in use belongs to a live slot. */
  lemma InUse(p: Pool, l: Layout, i: nat)
    requires PoolOk(p, l) && i < |p.id|
    ensures p.id[i] < |p.stat| && (p.stat[p.id[i]] != Free ==> i == 0 || p.id[i] in Contents(p, l))
    ensures p.id[0] == 0 && p.stat[0] == Free
  {
    hide Cells;
    CellFacts(p, l, i);
    CellFacts(p, l, 0);
    FirstFreeCell(p, l);
  }

  /** Without a first free cell every slot is in use. */
  lemma NoFreeCell(p: Pool, l: Layout)
    requires PoolOk(p, l) && p.unext[0] == 0
    ensures forall x: nat :: 0 < x < |p.id| ==> x in Contents(p, l)
  {
    hide Cells;
    FirstFreeCell(p, l);
    forall x: nat | 0 < x < |p.id|
      ensures x in Contents(p, l)
    {
      SlotFacts(p, l, x);
      CellFacts(p, l, l.at[x]);
      if p.stat[x] == Free {
        var k := FreeCellPosition(p, l, l.at[x]);
      }
    }
  }

  lemma CanTakeFree(p: Pool, l: Layout, h: nat)
    requires PoolOk(p, l) && 0 < h < |p.id| && h < |l.g.owner| && l.g.owner[h] == 0
    ensures CanTake(p, l, h)
  {}

  lemma AllLive(p: Pool, l: Layout, s: set<nat>)
    requires PoolOk(p, l) && s <= Contents(p, l).Keys
    ensures forall x :: x in s ==> Live(p, x)
  {}

  /** A free slot that is not at home can move there. */
  lemma HomeCondition(p: Pool, l: Layout, h: nat)
    requires CanTake(p, l, h)
    ensures PSized(p) && (p.next[h] != p.id[h] && p.stat[h] == Free ==> CanSwap(p, l, h))
  {
    hide Cells, Viewed;
    PoolSizes(p, l);
    SlotFacts(p, l, h);
    CellFacts(p, l, h);
  }

  /** What settling writes, column by column. */
  lemma SettledWrites(p: Pool, l: Layout, i: nat, swap: bool, st: Status)
    requires CanTake(p, l, i) && (swap ==> CanSwap(p, l, i))
    ensures p.id[i] < |p.id| && p.unext[p.id[i]] < |p.id| && p.prev[i] < |p.id| && p.id[p.prev[i]] < |p.id|
    ensures swap ==> p.next[i] < |p.id|
    ensures var f, j, pv, p' := p.id[i], p.next[i], p.prev[i], Settled(p, i, swap, st);
      var nx, x := p.unext[f], if swap then i else f;
      var id' := if swap then p.id[j := f][i := i] else p.id;
      && p'.id == id' && id'[pv] < |p.id| && p'.prev == p.prev[nx := pv]
      && p'.stat == p.stat[x := st] && p'.value == p.value[x := Undefined]
      && p'.next == (if swap then p.next[f := j][i := i] else p.next[f := i])
      && p'.unext == (if swap then p.unext[f := p.unext[i]] else p.unext)[id'[pv] := nx]
      && p'.sib == p.sib && p'.name == p.name
  {
    hide PoolOk;
    PoolSizes(p, l);
    TakeFacts(p, l, i);
    if swap {
      SwapFacts(p, l, i);
      CellFacts(p, l, i);
      CellFacts(p, l, p.prev[i]);
    }
  }

  /** The first free cell, to make room for the linked slot in cell `h`. */
  lemma FirstFreeMove(p: Pool, l: Layout, h: nat, n: nat, s: set<nat>)
    requires PoolOk(p, l) && Linked(p, l.at, s) && s == Contents(p, l).Keys
    requires 0 < h < |p.id| && p.id[h] < |p.id| && p.stat[p.id[h]] != Free && n == p.unext[0] != 0
    ensures n < |p.id| && CanMove(p, l, h, n, s) && p.prev[n] == 0 && p.id[0] == 0
  {
    hide Cells, Linked;
    FirstFreeCell(p, l);
    CellFacts(p, l, h);
    InUse(p, l, h);
  }

  /** The cell in which slot `h` is free, to make room for the linked slot in cell `h`. */
  lemma FreeHomeMove(p: Pool, l: Layout, h: nat, s: set<nat>)
    requires PoolOk(p, l) && Linked(p, l.at, s) && s == Contents(p, l).Keys
    requires 0 < h < |p.id| && p.id[h] < |p.id| && p.stat[p.id[h]] != Free && p.stat[h] == Free
    ensures p.next[h] < |p.id| && CanMove(p, l, h, p.next[h], s) && p.id[p.next[h]] == h
  {
    hide Cells, Linked;
    CellFacts(p, l, h);
    InUse(p, l, h);
    SlotFacts(p, l, h);
    CellFacts(p, l, l.at[h]);
    CellFacts(p, l, 0);
  }

  /** Going round, the cell before position `j` is the last one met. */
  lemma AroundStep(p: Pool, l: Layout, o: nat, i: nat, j: nat)
    requires PoolOk(p, l) && HeadsRing(l, o) && i < |l.g.rings[o]| && j < |l.g.rings[o]| && i != j
    requires Turn(l.g.rings[o], i + 1) != l.g.rings[o][j]
    ensures i + 1 != j && (i + 1 == |l.g.rings[o]| ==> j != 0)
  {}

  lemma OnlyBefore(p: Pool, l: Layout, o: nat, i: nat, j: nat)
    requires PoolOk(p, l) && HeadsRing(l, o) && i < |l.g.rings[o]| && 0 < j < |l.g.rings[o]|
    requires Turn(l.g.rings[o], i + 1) == l.g.rings[o][j]
    ensures i == j - 1
  {
    HeadFacts(l.t, l.g, l.ext, o);
    OnlyInRing(l.t.next, l.g.rings[o], j);
  }

  lemma NotYetRound(p: Pool, l: Layout, o: nat, i: nat, j: nat)
    requires PoolOk(p, l) && HeadsRing(l, o) && i < |l.g.rings[o]| && j < |l.g.rings[o]|
    requires Turn(l.g.rings[o], i + 1) != l.g.rings[o][j]
    ensures i + 1 != j && (i + 1 == |l.g.rings[o]| ==> j != 0)
  {}

  /** A ring whose head points to itself has one member. */
  lemma LoneRing(p: Pool, l: Layout, h: nat)
    requires PoolOk(p, l) && HeadsRing(l, h) && h < |p.id| && p.id[h] < |p.next| && p.next[p.id[h]] == h
    ensures |l.g.rings[h]| == 1
  {
    hide Cells, Viewed;
    HeadIff(p, l, h);
    RingStep(p, l, h, 0);
    if |l.g.rings[h]| > 1 {
      RingStep(p, l, h, 1);
    }
  }

  lemma LongRing(p: Pool, l: Layout, h: nat)
    requires PoolOk(p, l) && HeadsRing(l, h) && h < |p.id| && p.id[h] < |p.next| && p.next[p.id[h]] != h
    ensures |l.g.rings[h]| > 1 && l.g.rings[h][1] == p.next[p.id[h]]
  {
    hide Cells, Viewed;
    HeadIff(p, l, h);
    RingStep(p, l, h, 0);
  }

  lemma LeaveFacts(p: Pool, l: Layout, h: nat, s: set<nat>)
    requires PoolOk(p, l) && Linked(p, l.at, s) && s == Contents(p, l).Keys && 0 < h < |p.id|
    requires p.id[h] in Contents(p, l) && Contents(p, l)[p.id[h]].bucket != 0
    ensures CanLeave(p, l, h, s) && p.id[h] < |p.id| && (p.stat[p.id[h]] == Head || p.stat[p.id[h]] == Movable)
  {
    hide Cells, Linked;
    CellFacts(p, l, h);
  }

  lemma LeaveParts(p: Pool, l: Layout, h: nat, s: set<nat>)
    requires CanLeave(p, l, h, s)
    ensures PoolOk(p, l) && Linked(p, l.at, s) && 0 < h < |p.id| == |l.g.owner| && l.g.owner[h] != 0 && h !in l.ext
    ensures p.id[h] in s && forall x :: x in s ==> Live(p, x)
  {}

  lemma HomeConditionFirst(p: Pool, l: Layout, h: nat)
    requires CanTake(p, l, h)
    ensures PSized(p) && h < |p.id| && (p.id[h] != h && p.stat[h] == Free ==> CanSwap(p, l, h))
  {}

  /** Links of a slot outside `s` do not matter to `s`. */
  lemma OutsideLinks(p: Pool, at: seq<nat>, x: nat, i: nat, v: nat, b: nat, s: set<nat>)
    requires Linked(p, at, s) && x !in s && x < |p.id| && 0 < i < |p.id| && p.id[i] == x
    ensures PSized(p)
    ensures var p' := p.(sib := p.sib[x := v], prev := p.prev[i := b]);
      Linked(p', at, s) && SameLinks(p, at, p', at, s)
  {
    LinksFrame(p, at, p.(sib := p.sib[x := v], prev := p.prev[i := b]), s);
  }

  /** An external slot knows its cell. */
  lemma ExternalFacts(p: Pool, l: Layout, x: nat)
    requires PoolOk(p, l) && x in Contents(p, l) && Contents(p, l)[x].bucket == 0
    ensures PSized(p) && 0 < x < |p.id| && p.next[x] < |p.id| && p.id[p.next[x]] == x && l.at[x] == p.next[x]
    ensures CanRelease(p, l, p.next[x]) && |l.g.owner| == |p.id| && l.g.owner[p.next[x]] == p.next[x]
  {
    hide Viewed, KnowHome, RingAt, FreeList, Cells;
    PoolSizes(p, l);
    SlotFacts(p, l, x);
    var i := l.at[x];
    CellFacts(p, l, i);
    ExtInRings(p, l, i);
    LoneExternal(p, l, i);
    HeadFacts(l.t, l.g, l.ext, i);
    assert l.t.next[l.g.rings[i][0]] == Turn(l.g.rings[i], 1);
  }

  /** The cells of the slots a pool holds. */
  lemma LiveCells(p: Pool, l: Layout)
    requires PoolOk(p, l)
    ensures PSized(p) && |l.at| == |p.id| == |l.g.owner|
    ensures forall x: nat :: x in Contents(p, l) ==>
      && 0 < x < |p.id| && Live(p, x) && 0 < l.at[x] < |p.id| && p.id[l.at[x]] == x && l.g.owner[l.at[x]] != 0
  {
    hide Cells, Viewed;
    PoolSizes(p, l);
    CellsOfLive(p, l);
  }
}
