/**
 The script VM's variable list: objects, each with a list of named variables, in two pools of cells
 that are searched by hashing and rearranged in place.
 */
module VariableList {
  import opened Wrappers
  import opened BucketRings
  import opened CellRings
  import opened VarCells
  import opened VarLinks
  import opened VarTaking
  import opened VarFamilies
  import opened VarSiblings
  import opened VarThreads
  import opened VarStore
  import opened VarRelease
  import opened VarReach
  import opened VarCopy
  import opened VarDirectory
  import opened VarRuns
  import opened Pools = CellPool

  class VariableList {
    const parents: Pools.CellPool
    const children: Pools.CellPool
    /** The counter of live values and references, `totalObjectRefCount`. */
    var total: int
    ghost var kids: Kids
    ghost var roots: multiset<nat>
    ghost var spent: set<nat>

    ghost function Repr(): set<object> {
      {this} + parents.Repr() + children.Repr()
    }

    /** The two pools are apart, and each is in order. */
    ghost predicate Pools()
      reads Repr()
    {
      && parents.Repr() !! children.Repr() && this !in parents.Repr() + children.Repr()
      && parents.Valid() && children.Valid()
      && parents.id.Length == PARENT_SIZE && children.id.Length == CHILD_SIZE
      && parents.Tied({})
    }

    /** The lists of children, threaded through the slots of `s`. */
    ghost predicate Listed(s: set<nat>)
      reads Repr()
      requires Pools()
    {
      Threads(parents.Snap(), parents.lay.at, children.Snap(), children.lay.at, s, kids)
    }

    /** The list as scripts see it. */
    ghost function State(): Store
      reads Repr()
      requires Pools()
    {
      Store(children.Holds(), parents.Holds(), kids, roots, spent, total)
    }

    ghost predicate Valid()
      reads Repr()
    {
      Pools() && Listed(children.Holds().Keys) && WellFormed(State())
    }

    constructor ()
      ensures Valid() && fresh(Repr())
      ensures State() == Store(map[], map[], map[], multiset{}, {}, 0)
    {
      hide WellFormed, Threads, PoolOk, Linked, Contents, CellPool.Laid, CellPool.Repr;
      var objects, variables := EmptyPools();
      parents, children := objects, variables;
      total := 0;
      kids := map[];
      roots := multiset{};
      spent := {};
      new;
      NoCell(this, parents);
      NoCell(this, children);
      EmptyStoreOk();
      EmptyThreads(parents.Snap(), parents.lay.at, children.Snap(), children.lay.at);
      assert State() == Store(map[], map[], map[], multiset{}, {}, 0);
    }

    /** Two empty pools, with no storage in common. */
    static method EmptyPools() returns (objects: Pools.CellPool, variables: Pools.CellPool)
      ensures fresh(objects.Repr()) && fresh(variables.Repr()) && objects.Repr() !! variables.Repr()
      ensures objects.Valid() && objects.id.Length == PARENT_SIZE && objects.Holds() == map[] && objects.Tied({})
      ensures variables.Valid() && variables.id.Length == CHILD_SIZE && variables.Holds() == map[] && variables.Tied({})
    {
      hide PoolOk, Linked, Contents, CellPool.Laid;
      objects := new Pools.CellPool(PARENT_SIZE);
      variables := new Pools.CellPool(CHILD_SIZE);
    }

    // -------------------------------------------------------------- looking up

    /** Cell `index` holds the child `x`. */
    ghost predicate CellOf(x: nat, index: nat)
      reads Repr()
    {
      0 < index < children.id.Length && children.id[index] == x && x < |children.lay.at| && children.lay.at[x] == index
    }

    /** The cell of the variable `name` of object `p`, or 0. */
    method FindVariable(p: nat, name: nat) returns (index: nat)
      requires Valid() && p in kids && name < NAME_LIMIT
      ensures index == 0 ==> Valid() && NoVariable(State(), p, name) && (AllSettled(State()) ==> NoEntry(p, name))
      ensures index != 0 ==> FoundAt(p, name, index)
    {
      hide WellFormed, Threads, Families, PoolOk, Contents, Directory;
      ListFamilies(State());
      index := children.FindIndex(name, BucketOf(p, name));
      if index == 0 {
        NotFoundNoChild(children.Holds(), kids, p, name);
      } else {
        LiveCells(children.Snap(), children.lay);
        FoundIsChild(children.Holds(), kids, p, name, children.id[index]);
      }
      DirectoryAt(State(), p, name);
    }

    /** The variable `name` of `p` is in cell `index`. */
    ghost predicate FoundAt(p: nat, name: nat, index: nat)
      reads Repr()
    {
      && Valid() && 0 < index < children.id.Length && CellOf(children.id[index], index)
      && IsVariable(State(), p, name, children.id[index]) && Listing(p, name, children.id[index])
    }

    /** The directory has the variable `x` for `name` of `p`. */
    ghost predicate Listing(p: nat, name: nat, x: nat)
      reads Repr()
    {
      Valid() && (p, name) in Directory(State()) && Directory(State())[(p, name)] == x
    }

    ghost predicate NoEntry(p: nat, name: nat)
      reads Repr()
    {
      Valid() && (p, name) !in Directory(State())
    }

    // -------------------------------------------------------------- linking a new child

    /** The cell of the child `y` of `p`, found by its name. */
    method ChildCell(p: nat, y: nat) returns (c: nat)
      requires Pools() && y < children.id.Length && Findable(children.Holds(), p, y)
      ensures CellOf(y, c) && c < |children.lay.g.owner| && children.lay.g.owner[c] != 0
    {
      hide PoolOk, Contents, Linked, Findable;
      ghost var cp, cl := children.Snap(), children.lay;
      FindableName(cp, cl, p, y);
      LiveCells(cp, cl);
      c := children.FindIndex(children.name[y], BucketOf(p, children.name[y]));
      FoundChild(children.Holds(), cp, cl, p, y, c);
    }

    /** The new child `x`, in cell `r`, goes to the front of the list of `p`. */
    method LinkFirst(p: nat, x: nat, r: nat, ghost s: set<nat>)
      requires Pools() && Listed(s) && p in kids && x !in s && children.Holds().Keys == s + {x} && CellOf(x, r)
      requires kids.Keys == parents.Holds().Keys && Externals(parents.Holds())
      requires kids[p] != [] ==> Findable(children.Holds(), p, kids[p][0])
      modifies this`kids, parents`lay, parents.prev, parents.sib, children`lay, children.prev, children.sib
      ensures Pools() && Listed(s + {x}) && kids == old(kids)[p := [x] + old(kids)[p]]
      ensures children.Holds() == old(children.Holds()) && parents.Holds() == old(parents.Holds()) && CellOf(x, r)
    {
      hide PoolOk, Contents, Linked, Threads, Findable, Externals, Loose;
      ghost var pp, pl, cp, cl := parents.Snap(), parents.lay, children.Snap(), children.lay;
      ReadyToLink(pp, pl, cp, cl, s, kids, p, x, r);
      var first, c := parents.sib[p], 0;
      if first != 0 {
        c := ChildCell(p, first);
        children.SetPrev(c, r);
      } else {
        parents.SetPrev(parents.next[p], x);
      }
      ghost var k := kids;
      kids := kids[p := [x] + kids[p]];
      parents.SetSib(p, x);
      children.SetLinks(x, r, c, 0);
      assert children.Snap() == FrontLinked(cp, x, r, c);
      NoneTied(parents.Snap(), parents.lay);
      LinkedFirst(pp, pl, parents.Snap(), cp, cl, s, k, p, x, r);
    }

    /** The new child `x`, in cell `r`, goes to the back of the list of `p`. */
    method LinkLast(p: nat, x: nat, r: nat, ghost s: set<nat>)
      requires Pools() && Listed(s) && p in kids && x !in s && children.Holds().Keys == s + {x} && CellOf(x, r)
      requires kids.Keys == parents.Holds().Keys && Externals(parents.Holds())
      requires kids[p] != [] ==> Findable(children.Holds(), p, kids[p][|kids[p]| - 1])
      modifies this`kids, parents`lay, parents.prev, parents.sib, children`lay, children.prev, children.sib
      ensures Pools() && Listed(s + {x}) && kids == old(kids)[p := old(kids)[p] + [x]]
      ensures children.Holds() == old(children.Holds()) && parents.Holds() == old(parents.Holds()) && CellOf(x, r)
    {
      hide PoolOk, Contents, Linked, Threads, Findable, Externals, Loose;
      ghost var pp, pl, cp, cl := parents.Snap(), parents.lay, children.Snap(), children.lay;
      ReadyToLink(pp, pl, cp, cl, s, kids, p, x, r);
      var parentCell := parents.next[p];
      var last, c := parents.prev[parentCell], 0;
      if last != 0 {
        children.SetSib(last, r);
        c := ChildCell(p, last);
      } else {
        parents.SetSib(p, x);
      }
      ghost var k := kids;
      kids := kids[p := kids[p] + [x]];
      parents.SetPrev(parentCell, x);
      children.SetLinks(x, r, 0, c);
      assert children.Snap() == BackLinked(cp, x, r, c);
      NoneTied(parents.Snap(), parents.lay);
      LinkedLast(pp, pl, parents.Snap(), cp, cl, s, k, p, x, r);
    }

    // -------------------------------------------------------------- creating a variable

    /** A slot for the variable `name` of `p`, not in the list of `p` yet; returns its cell, or 0 if the pool is full. */
    method NewSlot(p: nat, name: nat) returns (r: nat)
      requires Valid() && p in kids && name < NAME_LIMIT
      modifies this`total, parents.value, children.Repr()
      ensures r == 0 ==> old(children.Full()) && Valid() && State() == old(State())
      ensures r != 0 ==> Pools() && Listed(old(children.Holds().Keys)) && p in old(parents.Holds())
      ensures r != 0 ==> r < children.id.Length && CellOf(children.id[r], r) && children.id[r] > 0
      ensures r != 0 ==> old(parents.Holds())[p].value.Object?
      ensures r != 0 ==> children.id[r] !in old(children.Holds()) && total == old(total) + 1
      ensures r != 0 ==> children.Holds() == old(children.Holds())[children.id[r] := Entry(BucketOf(p, name), name, Undefined)]
      ensures r != 0 ==> parents.Holds() == old(parents.Holds())[p := WithSize(old(parents.Holds())[p], 1)]
    {
      hide PoolOk, Contents, Linked, Threads, WellFormed, SameLinks, Families;
      ghost var s, cp, cl := children.Holds().Keys, children.Snap(), children.lay;
      ListFamilies(State());
      IsObject(State(), p);
      ThreadsLinked(parents.Snap(), parents.lay.at, cp, cl.at, s, kids);
      r := children.Insert(name, BucketOf(p, name), s);
      if r == 0 {
        return;
      }
      ThreadsKept(parents.Snap(), parents.lay.at, cp, cl.at, children.Snap(), children.lay.at, s, kids);
      PoolSizes(children.Snap(), children.lay);
      CellFacts(children.Snap(), children.lay, r);
      total := total + 1;
      CountChild(p, 1, s);
    }

    /** The size of an array is one more or less. */
    method CountChild(p: nat, d: int, ghost keys: set<nat>)
      requires Pools() && Listed(keys) && p in parents.Holds() && parents.Holds()[p].value.Object?
      requires parents.Holds()[p].value.isArray ==> parents.Holds()[p].value.size + d >= 0
      modifies parents.value
      ensures Pools() && Listed(keys) && parents.Holds() == old(parents.Holds())[p := WithSize(old(parents.Holds())[p], d)]
      ensures children.Holds() == old(children.Holds())
    {
      hide PoolOk, Contents, Linked, SameLinks, Threads;
      ghost var pp := parents.Snap();
      ObjectNumber(pp, parents.lay, p);
      HeldName(pp, parents.lay, p);
      var v := parents.value[p];
      if v.isArray {
        parents.SetValue(p, v.(size := v.size + d), {});
        ThreadsSameLinks(pp, parents.lay.at, parents.Snap(), children.Snap(), children.lay.at, keys, kids);
      }
    }

    /** What creating the variable `name` of `p` in cell `index` leaves: a new first or last child. */
    twostate predicate Created(p: nat, name: nat, index: nat, first: bool)
      reads Repr()
    {
      && Valid() && old(Valid()) && p in old(kids) && p in old(parents.Holds()) && old(parents.Holds())[p].value.Object?
      && index < children.id.Length && CellOf(children.id[index], index)
      && var x := children.id[index];
        && x > 0 && x !in old(children.Holds())
        && State() == NewChild(old(State()), p, name, x, if first then [x] + old(kids)[p] else old(kids)[p] + [x])
    }

    /**
     A new, undefined variable `name` of `p`, its first child. Returns its cell; 0, with nothing
     changed, when the pool of variables is full.
     */
    method CreateVariable(p: nat, name: nat) returns (index: nat)
      requires Valid() && p in kids && name < NAME_LIMIT && Hashed(State().vars, kids[p]) && NoVariable(State(), p, name)
      modifies this`total, this`kids, parents`lay, parents.value, parents.prev, parents.sib, children.Repr()
      ensures index == 0 ==> old(children.Full()) && Valid() && State() == old(State())
      ensures index != 0 ==> Created(p, name, index, true)
    {
      hide PoolOk, Contents, Linked, Threads, WellFormed, SameLinks, Findable, CellPool.Laid, CellPool.Tied;
      ghost var s := State();
      index := NewSlot(p, name);
      if index == 0 {
        return;
      }
      var x := children.id[index];
      Creatable(s, p, name, x);
      LinkFirst(p, x, index, s.vars.Keys);
      NewChildOk(s, p, name, x, [x] + s.kids[p]);
    }

    /** As `CreateVariable`, but the new variable is the last child. */
    method CreateVariableLast(p: nat, name: nat) returns (index: nat)
      requires Valid() && p in kids && name < NAME_LIMIT && Hashed(State().vars, kids[p]) && NoVariable(State(), p, name)
      modifies this`total, this`kids, parents`lay, parents.value, parents.prev, parents.sib, children.Repr()
      ensures index == 0 ==> old(children.Full()) && Valid() && State() == old(State())
      ensures index != 0 ==> Created(p, name, index, false) && Answered(Append(p, name, children.id[index]))
    {
      hide PoolOk, Contents, Linked, Threads, WellFormed, SameLinks, Findable, CellPool.Laid, CellPool.Tied, Gives;
      ghost var s := State();
      index := NewSlot(p, name);
      if index == 0 {
        return;
      }
      var x := children.id[index];
      Creatable(s, p, name, x);
      LinkLast(p, x, index, s.vars.Keys);
      NewChildOk(s, p, name, x, s.kids[p] + [x]);
      AppendGives(s, p, name, x);
    }

    /** The cell of the variable `name` of `p`, created if need be; 0 when there is no room for it. */
    method GetVariable(p: nat, name: nat) returns (index: nat)
      requires Valid() && p in kids && name < NAME_LIMIT && Hashed(State().vars, kids[p])
      modifies this`total, this`kids, parents`lay, parents.value, parents.prev, parents.sib, children.Repr()
      ensures Valid() && (index == 0 ==> old(children.Full()) && State() == old(State()))
      ensures index != 0 ==> index < children.id.Length && CellOf(children.id[index], index)
      ensures index != 0 ==> IsVariable(State(), p, name, children.id[index])
      ensures index != 0 ==> if NoVariable(old(State()), p, name) then Created(p, name, index, true) else State() == old(State())
      ensures index != 0 ==> Answered(Get(p, name, children.id[index]))
    {
      hide PoolOk, Contents, Linked, Threads, WellFormed, SameLinks, Findable, IsVariable, NoVariable, Directory;
      FamiliesKeys(State());
      index := FindVariable(p, name);
      if index != 0 {
        NotBoth(State(), p, name, children.id[index]);
        VariableNamed(State(), p, name, children.id[index]);
        return;
      }
      ghost var s := State();
      index := CreateVariable(p, name);
      if index != 0 {
        CreatedIsVariable(s, p, name, children.id[index]);
        Creatable(s, p, name, children.id[index]);
        CreatedEntry(s, p, name, children.id[index], [children.id[index]] + s.kids[p]);
        NotListed(s, p, name);
      }
    }

    /** What the call does to the directory. */
    twostate predicate Answered(call: Call)
      reads Repr()
    {
      Valid() && old(Valid()) && Gives(old(State()), call, State())
    }

    // -------------------------------------------------------------- objects

    /** There is a new object `o`, without variables and with one reference to it. */
    twostate predicate Allocated(o: nat, isArray: bool)
      reads Repr()
    {
      && Valid() && old(Valid()) && o !in old(parents.Holds()) && o < parents.name.Length
      && State() == NewObject(old(State()), o, parents.name[o], isArray)
    }

    /** A new object without variables, with one reference to it; 0 when the pool of objects is full. */
    method AllocObject(isArray: bool) returns (o: nat)
      requires Valid()
      modifies this`total, this`kids, this`roots, parents.Repr()
      ensures o != 0 ==> Answered(New(o, isArray))
      ensures Valid() && if o == 0 then old(parents.Full()) && State() == old(State()) else Allocated(o, isArray)
    {
      hide PoolOk, Contents, Linked, Threads, WellFormed, SameLinks, Gives;
      ghost var s, pp, pl := State(), parents.Snap(), parents.lay;
      o := parents.Alloc(Object(isArray, 0, 0), {});
      if o == 0 {
        return;
      }
      Objects(s);
      LiveCells(parents.Snap(), parents.lay);
      ExternalFacts(parents.Snap(), parents.lay, o);
      EndsUndisturbed(pp, pl.at, parents.Snap(), parents.lay.at, children.Snap(), children.lay.at, s.vars.Keys, kids, o);
      ThreadsObjects(pp, pl.at, parents.Snap(), parents.lay.at, children.Snap(), children.lay.at, s.vars.Keys, kids, kids[o := []], o);
      kids := kids[o := []];
      roots := roots + multiset{o};
      total := total + 1;
      NewGives(s, o, parents.name[o], isArray);
      assert State() == NewObject(s, o, parents.name[o], isArray);
    }

    /** One more reference to object `o`. */
    method AddRefToObject(o: nat)
      requires Valid() && o in kids
      modifies this`total, this`roots, parents.value
      ensures Valid() && o in old(parents.Holds()) && old(parents.Holds())[o].value.Object?
      ensures State() == Referenced(old(State()), o)
    {
      hide PoolOk, Contents, Linked, Threads, WellFormed, SameLinks;
      ghost var s, pp := State(), parents.Snap();
      Objects(s);
      ReferencedOk(s, o);
      HeldName(pp, parents.lay, o);
      ObjectNumber(pp, parents.lay, o);
      total := total + 1;
      roots := roots + multiset{o};
      var v := parents.value[o];
      parents.SetValue(o, v.(refCount := v.refCount + 1), {});
      ThreadsSameLinks(pp, parents.lay.at, parents.Snap(), children.Snap(), children.lay.at, s.vars.Keys, kids);
    }

    /** One reference to object `o` fewer, when it is not the last. */
    method DropRef(o: nat)
      requires Valid() && o in parents.Holds() && roots[o] > 0
      requires parents.Holds()[o].value.Object? && parents.Holds()[o].value.refCount > 0
      modifies this`total, this`roots, parents.value
      ensures Valid() && State() == Dereferenced(old(State()), o)
    {
      hide PoolOk, Contents, Linked, Threads, WellFormed, SameLinks;
      ghost var s, pp := State(), parents.Snap();
      DereferencedOk(s, o);
      HeldName(pp, parents.lay, o);
      ObjectNumber(pp, parents.lay, o);
      total := total - 1;
      roots := roots - multiset{o};
      var v := parents.value[o];
      parents.SetValue(o, v.(refCount := v.refCount - 1), {});
      ThreadsSameLinks(pp, parents.lay.at, parents.Snap(), children.Snap(), children.lay.at, s.vars.Keys, kids);
    }

    /** The object `o`, childless and with one reference left, which is given up. */
    method FreeVariable(o: nat)
      requires Valid() && o in parents.Holds() && roots[o] > 0 && o in kids && kids[o] == []
      requires parents.Holds()[o].value.Object? && parents.Holds()[o].value.refCount == 0
      modifies this`total, this`kids, this`roots, parents`lay, parents.prev, parents.stat, parents.unext, parents.value
      ensures Valid() && State() == ObjectFreed(old(State()), o) && old(roots[o]) == 1
    {
      hide PoolOk, Contents, Linked, Threads, WellFormed, SameLinks;
      ghost var s, pp, pl := State(), parents.Snap(), parents.lay;
      Objects(s);
      ObjectFreedOk(s, o);
      ObjectNumber(pp, pl, o);
      total := total - 1;
      roots := roots - multiset{o};
      ReleaseObject(o);
    }

    /** The slot of the childless object `o` is given back. */
    method ReleaseObject(o: nat)
      requires Pools() && Listed(children.Holds().Keys) && o in kids && kids[o] == [] && Externals(parents.Holds())
      requires o in parents.Holds() && kids.Keys == parents.Holds().Keys
      modifies this`kids, parents`lay, parents.prev, parents.stat, parents.unext, parents.value
      ensures Pools() && Listed(children.Holds().Keys) && kids == old(kids) - {o} && parents.Holds() == old(parents.Holds()) - {o}
      ensures children.Holds() == old(children.Holds())
    {
      hide PoolOk, Contents, Linked, Threads, SameLinks;
      ghost var k, pp, pl, keys := kids, parents.Snap(), parents.lay, children.Holds().Keys;
      ObjectNumber(pp, pl, o);
      kids := kids - {o};
      parents.Release(o, {});
      EndsUndisturbed(pp, pl.at, parents.Snap(), parents.lay.at, children.Snap(), children.lay.at, keys, k, o);
      ThreadsObjects(pp, pl.at, parents.Snap(), parents.lay.at, children.Snap(), children.lay.at, keys, k, kids, o);
    }

    // -------------------------------------------------------------- removing a variable

    /** Child `x` of `p` has been taken off its ring, and nothing else has changed. */
    twostate predicate Off(p: nat, x: nat)
      reads Repr()
    {
      && Valid() && old(Valid()) && p in old(parents.Holds()) && x in old(children.Holds())
      && old(parents.Holds())[p].value.Object?
      && (old(parents.Holds())[p].value.isArray ==> old(parents.Holds())[p].value.size > 0)
      && State() == TakenOff(old(State()), p, x)
    }

    /** The child of `p` in cell `index` is taken off its ring. */
    method MakeVariableExternal(p: nat, index: nat)
      requires Valid() && p in kids && 0 < index < children.id.Length && children.id[index] in kids[p]
      requires children.id[index] in children.Holds() && children.Holds()[children.id[index]].bucket != 0
      modifies parents.value, children`lay, children.id, children.prev, children.stat, children.next, children.sib
      ensures Off(p, old(children.id[index]))
    {
      hide CellPool.Valid, PoolOk, Contents, Linked, Threads, WellFormed, SameLinks;
      ghost var s, x := State(), children.id[index];
      ListFamilies(s);
      TakenOffSize(s, p, x);
      TakenOffOk(s, p, x);
      CountChild(p, -1, s.vars.Keys);
      MakeExternal(index);
      assert State() == TakenOff(s, p, x);
    }

    /** The child in cell `index` is taken off its ring, whoever it belongs to. */
    method MakeExternal(index: nat)
      requires Pools() && Listed(children.Holds().Keys) && 0 < index < children.id.Length
      requires children.id[index] in children.Holds() && children.Holds()[children.id[index]].bucket != 0
      modifies children`lay, children.id, children.prev, children.stat, children.next, children.sib
      ensures Pools() && Listed(children.Holds().Keys)
      ensures children.Holds() == old(children.Holds()[children.id[index] := children.Holds()[children.id[index]].(bucket := 0)])
      ensures parents.Holds() == old(parents.Holds())
    {
      hide PoolOk, Contents, Linked, Threads, SameLinks;
      ghost var cp, cl, keys := children.Snap(), children.lay, children.Holds().Keys;
      ThreadsLinked(parents.Snap(), parents.lay.at, cp, cl.at, keys, kids);
      children.MakeExternal(index, keys);
      ThreadsKept(parents.Snap(), parents.lay.at, cp, cl.at, children.Snap(), children.lay.at, keys, kids);
      assert children.Holds().Keys == keys;
    }

    /** The neighbours of child `x` of `p` are linked to each other. */
    method Bridge(p: nat, x: nat, ghost j: nat)
      requires Valid() && p in kids && j < |kids[p]| && kids[p][j] == x && x in children.Holds() && children.Holds()[x].bucket == 0
      modifies this`kids, parents`lay, parents.prev, parents.sib, children`lay, children.prev, children.sib
      ensures Pools() && Listed(old(children.Holds()).Keys - {x}) && kids == old(kids)[p := old(kids)[p][..j] + old(kids)[p][j + 1..]]
      ensures children.Holds() == old(children.Holds()) && parents.Holds() == old(parents.Holds())
    {
      hide PoolOk, Contents, Linked, Threads, WellFormed, SameLinks;
      ghost var cp, cl, pp, pl := children.Snap(), children.lay, parents.Snap(), parents.lay;
      ghost var keys := children.Holds().Keys;
      Objects(State());
      ObjectCell(pp, pl, p);
      ExternalFacts(cp, cl, x);
      LiveCells(cp, cl);
      ChildLinks(pp, pl.at, cp, cl.at, keys, kids, p, j);
      var index := children.next[x];
      var nextSibling, prevSibling := children.sib[x], children.prev[index];
      ghost var k := kids;
      kids := kids[p := kids[p][..j] + kids[p][j + 1..]];
      if prevSibling != 0 {
        children.SetSib(children.id[prevSibling], nextSibling);
      } else {
        parents.SetSib(p, children.id[nextSibling]);
      }
      if nextSibling != 0 {
        children.SetPrev(nextSibling, prevSibling);
      } else {
        parents.SetPrev(parents.next[p], children.id[prevSibling]);
      }
      assert children.Snap() == Bridged(cp, x, index);
      NoneTied(parents.Snap(), parents.lay);
      UnlinkedThreads(pp, pl, parents.Snap(), cp, cl, keys, k, p, j);
    }

    /** Child `x` of `p`, off its ring and with no reference left in it, is unlinked and freed. */
    method Unlink(p: nat, x: nat, ghost j: nat)
      requires Valid() && p in kids && j < |kids[p]| && kids[p][j] == x && x in children.Holds()
      requires children.Holds()[x].bucket == 0 && (children.Holds()[x].value.Pointer? ==> x in spent)
      modifies this`total, this`kids, this`spent, parents`lay, parents.prev, parents.sib
      modifies children`lay, children.prev, children.stat, children.unext, children.sib, children.value
      ensures Valid() && State() == ChildFreed(old(State()), p, j)
    {
      hide CellPool.Valid, PoolOk, Contents, Linked, Threads, WellFormed, SameLinks;
      ghost var s := State();
      ghost var keys := s.vars.Keys - {x};
      ChildFreedOk(s, p, j);
      Bridge(p, x, j);
      ReleaseChild(x, keys);
    }

    /** The slot of child `x`, off its ring and in no list any more, is given back. */
    method ReleaseChild(x: nat, ghost keys: set<nat>)
      requires Pools() && Listed(keys) && x in children.Holds() && children.Holds()[x].bucket == 0 && keys == children.Holds().Keys - {x}
      modifies this`total, this`spent, children`lay, children.prev, children.stat, children.unext, children.value
      ensures Pools() && Listed(keys) && children.Holds() == old(children.Holds()) - {x} && parents.Holds() == old(parents.Holds())
      ensures total == old(total) - 1 && spent == old(spent) - {x}
    {
      hide PoolOk, Contents, Linked, Threads, SameLinks;
      ghost var cp, cl := children.Snap(), children.lay;
      LiveCells(cp, cl);
      ThreadsLinked(parents.Snap(), parents.lay.at, cp, cl.at, keys, kids);
      total := total - 1;
      spent := spent - {x};
      children.Release(x, keys);
      ThreadsKept(parents.Snap(), parents.lay.at, cp, cl.at, children.Snap(), children.lay.at, keys, kids);
    }

    // -------------------------------------------------------------- releasing references

    /** Everything that is still there is unharmed, `p` apart; the lists are in order again. */
    twostate predicate Spared(p: nat)
      reads Repr()
    {
      Valid() && old(Valid()) && Survives(old(State()), State(), p)
    }

    /** As `Spared`; and `p` is left with the children `list`, which are unharmed. */
    twostate predicate Pruned(p: nat, list: seq<nat>)
      reads Repr()
    {
      Spared(p) && Trimmed(old(State()), State(), p, list)
    }

    /** A reference to `o` has been given up; `o` is still there exactly if it was not the last. */
    twostate predicate Released(o: nat)
      reads Repr()
    {
      && Valid() && old(Valid())
      && Survives(old(State()).(roots := old(roots) - multiset{o}), State(), NOBODY)
      && o in old(parents.Holds()) && old(parents.Holds())[o].value.Object?
      && (o in parents.Holds() <==> old(parents.Holds())[o].value.refCount > 0)
      && Gives(old(State()), Release(o), State())
    }

    /**
     Gives up one reference to object `o`. With the last one the object goes, and so do the
     references in its variables. Objects in the middle of a change are within reach by other references.
     */
    method RemoveRefToObject(o: nat)
      requires Valid() && roots[o] > 0 && (LastOf(State(), o) ==> Protected(State(), roots - multiset{o}, NOBODY))
      modifies Repr()
      ensures Released(o)
      ensures old(parents.Holds())[o].value.refCount > 0 ==> State() == Dereferenced(old(State()), o)
      decreases RingCount(State().vars), 3
    {
      hide PoolOk, Contents, Linked, Threads, WellFormed, Survives, Protected, RingCount, ThreadOk, Gives;
      ghost var s := State();
      RootLives(s, o);
      ObjectNumber(parents.Snap(), parents.lay, o);
      HeldName(parents.Snap(), parents.lay, o);
      if parents.value[o].refCount > 0 {
        DereferencedSurvives(s, o);
        DropRef(o);
      } else {
        LastIsApart(s, o);
        ObjectEnds(o);
        if parents.sib[o] != 0 {
          ClearObject(o);
        } else {
          SurvivesRefl(s, o);
        }
        LastGoes(s, State(), o);
        FreeVariable(o);
      }
      EntriesLeft(s, State(), o);
    }

    /** The list of `o` is empty exactly if it has no first child. */
    lemma ObjectEnds(o: nat)
      requires Valid() && o in kids
      ensures o < parents.id.Length && (kids[o] == [] <==> parents.sib[o] == 0)
    {
      hide PoolOk, Contents, Linked, Threads, WellFormed;
      Objects(State());
      ObjectNumber(parents.Snap(), parents.lay, o);
      LiveCells(children.Snap(), children.lay);
      FirstCellFacts(parents.Snap(), parents.lay.at, children.Snap(), children.lay.at, children.Holds().Keys, kids, o);
    }

    /**
     Removes all variables of `o`. The object is referred to meanwhile; if nothing else refers to it in
     the end it goes.
     */
    method ClearObject(o: nat)
      requires Valid() && o in kids && Protected(State(), roots, o) && Steady(State(), o)
      modifies Repr()
      ensures Spared(o) && Answered(Clear(o)) && (o in kids ==> kids[o] == [])
      ensures o in kids <==> roots[o] > 0 || Referrers(State().vars, State().spent, o) != {}
      ensures old(roots[o]) > 0 ==> Pruned(o, [])
      decreases RingCount(State().vars), 2
    {
      hide PoolOk, Contents, Linked, Threads, WellFormed, Survives, Protected, RingCount, ThreadOk, Steady, Gives, Trimmed, Held, Referrers;
      ghost var s := State();
      ListFamilies(s);
      FamiliesKeys(s);
      IsObject(s, o);
      ReferencedOk(s, o);
      ReferencedSurvives(s, o);
      ReferencedHeld(s, o);
      ReferencedSteady(s, o);
      AddRefToObject(o);
      ghost var t := State();
      ClearObjectInternal(o);
      ghost var u := State();
      TemporaryReference(s, u, o);
      RemoveRefToEmptyObject(o);
      ClearedObject(s, t, u, State(), o);
      ClearGives(s, State(), o);
      LivesIffReferenced(State(), o);
      FamiliesKeys(State());
    }

    /** Takes all variables of `p` off their rings, then frees them one by one. */
    method ClearObjectInternal(p: nat)
      requires Valid() && p in kids && Held(State(), p) && Steady(State(), p)
      modifies Repr()
      ensures Pruned(p, [])
      decreases RingCount(State().vars), 1
    {
      hide PoolOk, Contents, Linked, Threads, WellFormed, Survives, RingCount, ThreadOk, Steady, Held;
      ghost var s := State();
      ListFamilies(s);
      FamiliesKeys(s);
      IsObject(s, p);
      ObjectEnds(p);
      if parents.sib[p] != 0 {
        TakeAllOff(p);
        ghost var t := State();
        HeldSurvives(s, t, p);
        FreeAll(p);
        PrunedAfterOff(s, t, State(), p);
      } else {
        SurvivesRefl(s, p);
        NothingTrimmed(s, p);
      }
    }

    /** The first loop of a clearing: every variable of `p` is taken off its ring, in list order. */
    method TakeAllOff(p: nat)
      requires Valid() && p in kids && kids[p] != [] && Steady(State(), p)
      modifies parents.value, children`lay, children.id, children.prev, children.stat, children.next, children.sib
      ensures Spared(p) && kids == old(kids) && roots == old(roots) && spent == old(spent)
      ensures RingCount(State().vars) < old(RingCount(State().vars))
      ensures AllOff(State(), p)
      ensures p in old(parents.Holds()) && p in parents.Holds() && SameRecord(old(parents.Holds())[p], parents.Holds()[p])
    {
      hide PoolOk, Contents, Linked, Threads, WellFormed, Survives, RingCount, ThreadOk, Steady, OffUpTo;
      ghost var s, k := State(), kids[p];
      ListFamilies(s);
      FamiliesKeys(s);
      IsObject(s, p);
      SurvivesRefl(s, p);
      StartOff(s, p);
      var nextSibling := FirstCellOf(p);
      ghost var i: nat := 0;
      while nextSibling != 0
        invariant Valid() && kids == s.kids && roots == s.roots && spent == s.spent
        invariant Survives(s, State(), p)
        invariant i <= |k| && OffUpTo(s, State(), p, i)
        invariant if i < |k| then CellOf(k[i], nextSibling) else nextSibling == 0
        invariant i > 0 ==> RingCount(State().vars) < RingCount(s.vars)
        decreases |k| - i
      {
        ghost var t := State();
        StepOff(s, t, p, i);
        var id := children.id[nextSibling];
        MakeVariableExternal(p, nextSibling);
        SteppedOff(s, t, State(), p, i);
        NextCell(p, i);
        nextSibling := children.sib[id];
        i := i + 1;
      }
      EndOff(s, State(), p);
    }

    /** The cell of the first variable of `p`, found by its name. */
    method FirstCellOf(p: nat) returns (c: nat)
      requires Valid() && p in kids && kids[p] != [] && Steady(State(), p)
      ensures CellOf(kids[p][0], c)
    {
      hide PoolOk, Contents, Linked, Threads, WellFormed, Findable, Steady;
      ObjectEnds(p);
      FirstIs(p);
      FirstFindable(State(), p);
      c := ChildCell(p, parents.sib[p]);
    }

    lemma FirstIs(p: nat)
      requires Valid() && p in kids && kids[p] != [] && p < parents.id.Length
      ensures parents.sib[p] == kids[p][0] < children.id.Length
    {
      hide PoolOk, Contents, Linked, WellFormed;
      LiveCells(children.Snap(), children.lay);
      assert ThreadOk(parents.Snap(), parents.lay.at, children.Snap(), children.lay.at, children.Holds().Keys, kids, p);
    }

    /** The next link of the child at position `i` of `p` is the cell of the one after it. */
    lemma NextCell(p: nat, i: nat)
      requires Valid() && p in kids && i < |kids[p]|
      ensures kids[p][i] < children.id.Length
      ensures if i + 1 < |kids[p]| then CellOf(kids[p][i + 1], children.sib[kids[p][i]]) else children.sib[kids[p][i]] == 0
    {
      hide PoolOk, Contents, Linked, Threads, WellFormed;
      LiveCells(children.Snap(), children.lay);
      ChildLinks(parents.Snap(), parents.lay.at, children.Snap(), children.lay.at, children.Holds().Keys, kids, p, i);
    }

    /** The second loop of a clearing, begun in state `s`, has freed all but the last children of `p`; `nextId` is the next one. */
    ghost predicate Freeing(s: Store, p: nat, more: bool, nextId: nat)
      reads Repr()
    {
      && Valid() && roots == s.roots && spent == s.spent && p in kids && p in s.kids && Survives(s, State(), p)
      && |kids[p]| <= |s.kids[p]| && kids[p] == s.kids[p][|s.kids[p]| - |kids[p]|..] && Trimmed(s, State(), p, kids[p])
      && if more then kids[p] != [] && nextId == kids[p][0] else kids[p] == []
    }

    /** The second loop of a clearing: every variable of `p` is freed, in list order. */
    method FreeAll(p: nat)
      requires Valid() && p in kids && kids[p] != [] && Held(State(), p) && AllOff(State(), p)
      modifies Repr()
      ensures Pruned(p, [])
      decreases RingCount(State().vars), 7
    {
      hide PoolOk, Contents, Linked, Threads, WellFormed, Survives, Held, RingCount, ThreadOk, Trimmed, AllOff;
      ghost var s := State();
      ListFamilies(s);
      FamiliesKeys(s);
      SurvivesRefl(s, p);
      ObjectEnds(p);
      FirstIs(p);
      AllTrimmed(s, p);
      var nextId, more := parents.sib[p], true;
      while more
        invariant Freeing(s, p, more, nextId)
        decreases |kids[p]|
      {
        nextId, more := FreeNext(p, nextId, s);
      }
    }

    /** Frees the first child of `p`; what is next is read before. */
    method FreeNext(p: nat, savedNextId: nat, ghost s: Store) returns (nextId: nat, more: bool)
      requires WellFormed(s) && p in s.objs && p in s.kids && Held(s, p) && AllOff(s, p) && Freeing(s, p, true, savedNextId)
      modifies Repr()
      ensures Freeing(s, p, more, nextId) && p in old(kids) && |kids[p]| < |old(kids)[p]|
      decreases RingCount(s.vars), 6
    {
      hide PoolOk, Contents, Linked, Threads, WellFormed, Survives, Held, RingCount, ThreadOk, Trimmed, AllOff;
      ghost var t := State();
      NextCell(p, 0);
      HeldSurvives(s, t, p);
      FirstOff(s, t, p);
      var nextSibling := children.sib[savedNextId];
      nextId := NextNumber(nextSibling);
      MeasureKept(s, t, p);
      FreeChildValue(p, savedNextId, 0, kids[p][..0] + kids[p][1..]);
      FreedFirst(s, t, State(), p);
      more := nextSibling != 0;
    }

    /** The slot in a cell, which may be cell 0. */
    method NextNumber(cell: nat) returns (x: nat)
      requires Valid() && cell < children.id.Length
      ensures x == children.id[cell]
    {
      x := children.id[cell];
    }

    /** Child `x` of `p`, at position `j`, is off its ring and still has its reference; the others are `list`. */
    ghost predicate ToBeFreed(p: nat, x: nat, j: nat, list: seq<nat>)
      reads Repr()
    {
      && Valid() && p in kids && j < |kids[p]| && kids[p][j] == x && x in State().vars && State().vars[x].bucket == 0
      && x !in spent && list == kids[p][..j] + kids[p][j + 1..]
      && (Held(State(), p) || NotTheLast(State(), x))
    }

    /** Releases the reference in the child `x` of `p`, which is off its ring, and frees the child. */
    method FreeChildValue(p: nat, x: nat, ghost j: nat, ghost list: seq<nat>)
      requires ToBeFreed(p, x, j, list)
      modifies Repr()
      ensures Pruned(p, list)
      decreases RingCount(State().vars), 5
    {
      hide PoolOk, Contents, Linked, Threads, WellFormed, Survives, RingCount, Trimmed, Held, NotTheLast;
      ghost var s := State();
      FamiliesKeys(s);
      GiveUp(x, p);
      ReleasedThenFreed(s, State(), p, j, s.vars[x].value.Pointer?);
      ChildFreedOk(State(), p, j);
      Unlink(p, x, j);
    }

    /** Gives up the reference in variable `x` of `p`, if it holds one. */
    method GiveUp(x: nat, ghost p: nat)
      requires Valid() && x in State().vars && x !in spent && p in kids && x in kids[p] && (Held(State(), p) || NotTheLast(State(), x))
      modifies Repr()
      ensures Valid() && old(Valid()) && x in old(children.Holds()) && p in parents.Holds()
      ensures if old(State()).vars[x].value.Pointer? then Survives(old(State()).(spent := old(spent) + {x}), State(), NOBODY)
              else State() == old(State())
      decreases RingCount(State().vars), 4
    {
      hide PoolOk, Contents, Linked, Threads, WellFormed, Survives, Protected, RingCount, Held, NotTheLast, Gives;
      ghost var s := State();
      HeldName(children.Snap(), children.lay, x);
      if children.value[x].Pointer? {
        var o := children.value[x].obj;
        HandOver(s, x, p);
        spent, roots := spent + {x}, roots + multiset{o};
        RemoveRefToObject(o);
        HandedBack(s, State(), x, o);
      }
      OwnerStays(s, State(), x, p);
    }

    /** Gives up one reference to the childless object `o`, and frees it if that was the last. */
    method RemoveRefToEmptyObject(o: nat)
      requires Valid() && o in kids && kids[o] == [] && roots[o] > 0
      modifies this`total, this`kids, this`roots, parents`lay, parents.prev, parents.stat, parents.unext, parents.value
      ensures Valid() && o in old(parents.Holds()) && old(parents.Holds())[o].value.Object?
      ensures var s := old(State());
        State() == if s.objs[o].value.refCount > 0 then Dereferenced(s, o) else ObjectFreed(s, o)
      ensures old(roots[o]) > 1 ==> old(parents.Holds())[o].value.refCount > 0
    {
      hide PoolOk, Contents, Linked, Threads, WellFormed;
      RootLives(State(), o);
      ObjectNumber(parents.Snap(), parents.lay, o);
      HeldName(parents.Snap(), parents.lay, o);
      if roots[o] > 1 {
        SeveralReferences(State(), o);
      }
      if parents.value[o].refCount > 0 {
        DropRef(o);
      } else {
        FreeVariable(o);
      }
    }

    // -------------------------------------------------------------- values

    /** A variable without a value gets one; a reference in it comes from the caller. */
    method SetNewVariableValue(x: nat, v: Value)
      requires Valid() && x in State().vars && State().vars[x].value == Undefined && !v.Object?
      requires v.Pointer? ==> roots[v.obj] > 0
      modifies this`roots, this`spent, children.value
      ensures Valid() && x in old(children.Holds()) && State() == Assigned(old(State()), x, v)
      ensures OnlyValue(old(State()), State(), x, v)
    {
      hide PoolOk, Contents, Linked, Threads, WellFormed, OnlyValue;
      AssignedOnly(State(), x, v);
      PutValue(x, v);
    }

    /** What giving `x` the value `v` needs: no object goes with the reference in `x`, or the owner of `x` is within reach without it. */
    ghost predicate Assignable(x: nat, v: Value)
      reads Repr()
    {
      && Valid() && x in State().vars && x !in spent && !v.Object? && (v.Pointer? ==> roots[v.obj] > 0)
      && (NotTheLast(State(), x) || exists q :: q in kids && x in kids[q] && Held(State(), q))
    }

    /** `x` has got the value `v`, and everything else still there is unharmed. */
    twostate predicate Overwritten(x: nat, v: Value)
      reads Repr()
    {
      && Valid() && old(Valid()) && x in old(children.Holds())
      && Survives(Assigned(old(State()), x, v), State(), NOBODY)
      && OnlyValue(old(State()), State(), x, v) && Gives(old(State()), Set(x, v), State())
    }

    /** Variable `x` gets the value `v` in place of what it had, whose reference is released first. */
    method SetVariableValue(x: nat, v: Value)
      requires Assignable(x, v)
      modifies Repr()
      ensures Overwritten(x, v)
    {
      hide PoolOk, Contents, Linked, Threads, WellFormed, Survives, Held, NotTheLast, Gives;
      ghost var s := State();
      ghost var p := OwnerOf(s, x);
      GiveUp(x, p);
      OnlyOwner(s, x, p);
      ReleasedThenAssigned(s, State(), x, v);
      PutValue(x, v);
      SetGives(s, State(), x, v);
    }

    /** The write of a value. */
    method PutValue(x: nat, v: Value)
      requires Valid() && x in State().vars && (State().vars[x].value.Pointer? ==> x in spent) && !v.Object?
      requires v.Pointer? ==> roots[v.obj] > 0
      modifies this`roots, this`spent, children.value
      ensures Valid() && x in old(children.Holds()) && State() == Assigned(old(State()), x, v)
    {
      hide PoolOk, Contents, Linked, Threads, WellFormed, SameLinks;
      ghost var s, cp, keys := State(), children.Snap(), children.Holds().Keys;
      AssignedOk(s, x, v);
      LiveCells(cp, children.lay);
      ThreadsLinked(parents.Snap(), parents.lay.at, cp, children.lay.at, keys, kids);
      spent := spent - {x};
      roots := if v.Pointer? then roots - multiset{v.obj} else roots;
      children.SetValue(x, v, keys);
      ThreadsKept(parents.Snap(), parents.lay.at, cp, children.lay.at, children.Snap(), children.lay.at, keys, kids);
      assert State().vars.Keys == keys;
    }

    // -------------------------------------------------------------- removing by name

    /** Between calls: every variable is on its ring and has the reference it holds. */
    ghost predicate Settled()
      reads Repr()
    {
      Valid() && spent == {} && forall x :: x in State().vars ==> State().vars[x].bucket != 0
    }

    /** What removing child `x` of `p` leaves: the other children of `p`, and whatever objects are left. */
    twostate predicate Removed(p: nat, x: nat)
      reads Repr()
    {
      Settled() && old(Settled()) && LostChild(old(State()), State(), p, x)
    }

    /** If `p` had a variable `name` it is gone, as `Removed` says; if not, nothing has changed. */
    twostate predicate SafelyRemoved(p: nat, name: nat)
      reads Repr()
    {
      && Settled() && old(Settled())
      && (NoVariable(old(State()), p, name) ==> State() == old(State()))
      && (!NoVariable(old(State()), p, name) ==> exists x :: IsVariable(old(State()), p, name, x) && Removed(p, x))
      && Gives(old(State()), Remove(p, name), State())
    }

    /** Removes the variable `name` of `p`, if there is one, with the reference it holds. */
    method SafeRemoveVariable(p: nat, name: nat)
      requires Settled() && p in kids && name < NAME_LIMIT
      requires forall x :: IsVariable(State(), p, name, x) ==> MayRemove(State(), p, x)
      modifies Repr()
      ensures SafelyRemoved(p, name)
    {
      hide PoolOk, Contents, Linked, Threads, WellFormed, IsVariable, NoVariable, Unharmed, Directory, Restricted;
      ghost var s := State();
      var index := FindVariable(p, name);
      FamiliesKeys(s);
      if index == 0 {
        NothingRemoved(s, p, name);
      } else {
        NotBoth(s, p, name, children.id[index]);
        ghost var x := children.id[index];
        RemoveChild(p, index, PositionOf(s, p, name, x));
        assert IsVariable(s, p, name, x) && Removed(p, x);
        VariableNamed(s, p, name, x);
        RemovedEntry(s, State(), p, name, x);
        OthersKeep(s, State(), p, x);
      }
    }

    /** Removes the first variable of `p`. */
    method RemoveNextVariable(p: nat)
      requires Settled() && p in kids && kids[p] != [] && MayRemove(State(), p, kids[p][0])
      modifies Repr()
      ensures Removed(p, old(kids)[p][0])
      ensures old(kids)[p][0] in old(State()).vars && Answered(Remove(p, old(State()).vars[old(kids)[p][0]].name))
    {
      hide PoolOk, Contents, Linked, Threads, WellFormed, Steady, Unharmed, Directory, Restricted, MayRemove;
      ghost var s := State();
      SettledSteady(s, p);
      FirstNamed(s, p);
      var index := FirstCellOf(p);
      RemoveChild(p, index, 0);
      EntryNamed(s, p, s.vars[s.kids[p][0]].name, s.kids[p][0]);
      RemovedEntry(s, State(), p, s.vars[s.kids[p][0]].name, s.kids[p][0]);
      OthersKeep(s, State(), p, s.kids[p][0]);
    }

    /** Takes the child in cell `index`, at position `j` of `p`, off its ring and frees it. */
    method RemoveChild(p: nat, index: nat, ghost j: nat)
      requires Settled() && p in kids && 0 < index < children.id.Length
      requires j < |kids[p]| && CellOf(kids[p][j], index) && MayRemove(State(), p, kids[p][j])
      modifies Repr()
      ensures Removed(p, old(kids)[p][j])
    {
      hide PoolOk, Contents, Linked, Threads, WellFormed, Survives, Protected, RingCount, Trimmed, Unharmed, Held, NotTheLast, MayRemove, LostChild;
      ghost var s := State();
      ReadyToRemove(s, p, j);
      var id := children.id[index];
      MakeVariableExternal(p, index);
      ghost var t := State();
      OffOne(s, p, j);
      FreeChildValue(p, id, j, kids[p][..j] + kids[p][j + 1..]);
      OneRemoved(s, t, State(), p, j);
    }

    // -------------------------------------------------------------- copying arrays

    /** Array `n` has become a deep copy of array `a`; everything that was there before is unchanged. */
    twostate predicate Copied(a: nat, n: nat, rank: map<nat, nat>)
      reads Repr()
    {
      && Valid() && old(Valid()) && a in rank && Extends(old(State()), State(), n)
      && Mirrors(State(), a, n, rank[a], old(State()).objs.Keys - {n})
    }

    /** `n`, an empty array, can take a copy of `a`; below `a` arrays nest as `rank` says. */
    ghost predicate CanCopy(a: nat, n: nat, rank: map<nat, nat>)
      reads Repr()
    {
      Valid() && Copying(State(), a, n, 0, State().objs.Keys, rank)
    }

    /** Copies the variables of array `a` into the empty array `n`; false when a pool is full. */
    method CopyArray(a: nat, n: nat, ghost rank: map<nat, nat>) returns (ok: bool)
      requires CanCopy(a, n, rank)
      modifies Repr()
      ensures Valid() && (ok ==> Copied(a, n, rank))
      decreases if a in rank then rank[a] else 0, 1
    {
      hide PoolOk, Contents, Linked, Threads, WellFormed, Copying, Extends, Mirrors, MirrorsUpTo;
      ghost var s, kept := State(), State().objs.Keys;
      ok := true;
      CopyStart(s, a, n, kept, rank);
      ObjectEnds(a);
      if kids[a] != [] {
        FirstIs(a);
        ChildNumber(a, 0);
      }
      var id := parents.sib[a];
      ghost var i: nat := 0;
      while id != 0
        invariant Valid() && Copying(State(), a, n, i, kept, rank) && Extends(s, State(), n) && a in kids && kids[a] == s.kids[a]
        invariant i <= |kids[a]| && if i < |kids[a]| then id == kids[a][i] && id > 0 else id == 0
        decreases |s.kids[a]| - i
      {
        ghost var t := State();
        ok := CopyItem(a, n, id, i, kept, rank);
        if !ok {
          return;
        }
        ItemStep(s, t, State(), a, n, kept, rank);
        NextCell(a, i);
        var nextSibling := children.sib[id];
        i := i + 1;
        if nextSibling == 0 {
          id := 0;
        } else {
          id := children.id[nextSibling];
          ChildNumber(a, i);
        }
      }
      EndCopy(s, State(), a, n, kept, rank);
    }

    /** The next item of `a` has been copied to `n`; everything else is unchanged. */
    twostate predicate ItemCopied(a: nat, n: nat, i: nat, kept: set<nat>, rank: map<nat, nat>)
      reads Repr()
    {
      Valid() && old(Valid()) && Copying(State(), a, n, i + 1, kept, rank) && Extends(old(State()), State(), n)
    }

    /** `x` is the item of `a` to be copied to `n` next. */
    ghost predicate NextItem(a: nat, n: nat, x: nat, i: nat, kept: set<nat>, rank: map<nat, nat>)
      reads Repr()
    {
      Valid() && Copying(State(), a, n, i, kept, rank) && a in kids && i < |kids[a]| && kids[a][i] == x
    }

    /** Copies the variable `x` of `a` to `n`. */
    method CopyItem(a: nat, n: nat, x: nat, ghost i: nat, ghost kept: set<nat>, ghost rank: map<nat, nat>) returns (ok: bool)
      requires NextItem(a, n, x, i, kept, rank)
      modifies Repr()
      ensures Valid() && (ok ==> ItemCopied(a, n, i, kept, rank))
      decreases if a in rank then rank[a] else 0, 0
    {
      hide PoolOk, Contents, Linked, Threads, WellFormed, Copying, Extends, Mirrors, MirrorsUpTo, ItemMirrors, Hashed, NoVariable;
      ghost var s := State();
      CopyingFacts(s, a, n, i, kept, rank);
      HeldName(children.Snap(), children.lay, x);
      LiveCells(children.Snap(), children.lay);
      assert NoVariable(s, n, s.vars[x].name) by { NoneNamed(s, n, s.vars[x].name); }
      var name, v := children.name[x], children.value[x];
      var index := GetVariable(n, name);
      if index == 0 {
        return false;
      }
      var y := children.id[index];
      ghost var u := State();
      if v.Pointer? {
        NewChildKind(s, n, name, y, [y] + s.kids[n], v.obj);
        HeldName(parents.Snap(), parents.lay, v.obj);
        ObjectNumber(parents.Snap(), parents.lay, v.obj);
        if parents.value[v.obj].isArray {
          ok := CopyNested(a, n, x, y, v.obj, i, s, kept, rank);
        } else {
          ok := true;
          SharedAdded(s, n, name, y, v.obj);
          ShareObject(y, v.obj);
          FlatMirrors(s, State(), n, x, y, rank[a], kept);
          NextCopying(s, State(), a, n, i, y, kept, rank);
        }
      } else {
        ok := true;
        PlainAdded(s, n, name, y, v);
        SetNewVariableValue(y, v);
        FlatMirrors(s, State(), n, x, y, rank[a], kept);
        NextCopying(s, State(), a, n, i, y, kept, rank);
      }
    }

    /** The new variable `y` refers to the object `o` too. */
    method ShareObject(y: nat, o: nat)
      requires Valid() && y in State().vars && State().vars[y].value == Undefined && o in kids
      modifies this`total, this`roots, this`spent, parents.value, children.value
      ensures Valid() && o in old(parents.Holds()) && old(parents.Holds())[o].value.Object? && y in old(children.Holds())
      ensures State() == Assigned(Referenced(old(State()), o), y, Pointer(o))
    {
      hide PoolOk, Contents, Linked, Threads, WellFormed;
      ListFamilies(State());
      IsObject(State(), o);
      ReferencedOk(State(), o);
      AddRefToObject(o);
      SetNewVariableValue(y, Pointer(o));
    }

    /** Variable `x`, which has no value, gets a new array; 0 when there is no room for one. */
    method PutNewArray(x: nat) returns (b: nat, ghost name: nat)
      requires Valid() && x in State().vars && State().vars[x].value == Undefined
      modifies this`total, this`kids, this`roots, this`spent, parents.Repr(), children.value
      ensures Valid() && (b == 0 ==> State() == old(State()))
      ensures b != 0 ==> b !in old(parents.Holds()) && x in old(children.Holds())
      ensures b != 0 ==> State() == Assigned(NewObject(old(State()), b, name, true), x, Pointer(b))
    {
      hide PoolOk, Contents, Linked, Threads, WellFormed, Gives;
      name := 0;
      ghost var s := State();
      b := AllocObject(true);
      if b != 0 {
        name := parents.name[b];
        SetNewVariableValue(x, Pointer(b));
      }
    }

    /** The new variable `y` of `n` gets a new array, which becomes a copy of `c`, the array `x` refers to. */
    method CopyNested(a: nat, n: nat, x: nat, y: nat, c: nat, ghost i: nat, ghost s: Store, ghost kept: set<nat>, ghost rank: map<nat, nat>)
      returns (ok: bool)
      requires Valid() && Copying(s, a, n, i, kept, rank) && a in s.kids && i < |s.kids[a]| && s.kids[a][i] == x && x in s.vars
      requires RefersToArray(s, s.vars[x].value) && s.vars[x].value.obj == c && y !in s.vars && a in rank
      requires n in s.objs && n in s.kids && s.objs[n].value.Object?
      requires State() == NewChild(s, n, s.vars[x].name, y, [y] + s.kids[n])
      modifies Repr()
      ensures Valid() && (ok ==> Copying(State(), a, n, i + 1, kept, rank) && Extends(s, State(), n))
      decreases rank[a], 0, 0
    {
      hide PoolOk, Contents, Linked, Threads, WellFormed, Copying, Extends, Mirrors, MirrorsUpTo, ItemMirrors;
      CopyingFacts(s, a, n, i, kept, rank);
      var b;
      ghost var bname;
      b, bname := PutNewArray(y);
      if b == 0 {
        return false;
      }
      NestedAdded(s, n, s.vars[x].name, y, b, bname);
      ghost var u := State();
      NestedStart(s, u, a, n, i, b, y, kept, rank);
      ok := CopyArray(c, b, rank);
      if ok {
        NestedFilled(s, u, State(), n, s.vars[x].name, y, b);
        NestedMirrors(s, u, State(), n, x, y, b, rank[c], rank[a], kept);
        NextCopying(s, State(), a, n, i, y, kept, rank);
      }
    }

    lemma ChildNumber(p: nat, i: nat)
      requires Valid() && p in kids && i < |kids[p]|
      ensures kids[p][i] > 0
    {
      hide PoolOk, Contents, Linked, Threads, WellFormed;
      LiveCells(children.Snap(), children.lay);
      ChildLinks(parents.Snap(), parents.lay.at, children.Snap(), children.lay.at, children.Holds().Keys, kids, p, i);
    }

    // -------------------------------------------------------------- writing to arrays

    /** What evaluating variable `x` as an array to be written to needs. */
    ghost predicate Evaluable(x: nat, rank: map<nat, nat>)
      reads Repr()
    {
      && Settled() && Acyclic(State(), rank) && x in State().vars
      && (RefersToArray(State(), State().vars[x].value) ==> State().vars[x].value.obj in rank)
    }

    /** What it gives and leaves, by what `x` held. */
    twostate predicate Evaluated(x: nat, res: ArrayRef, rank: map<nat, nat>)
      reads Repr()
    {
      && Valid() && old(Valid()) && x in old(State()).vars
      && (res != NoRoom ==> Gives(old(State()), Eval(x, ArrayOf(res)), State()))
      && var s := old(State());
        var v := s.vars[x].value;
        if res == NoRoom then true
        else if v == Undefined then
          res.Found? && exists name :: State() == Assigned(NewObject(s, res.id, name, true), x, Pointer(res.id))
        else if !RefersToArray(s, v) then res == NotAnArray && State() == s
        else if s.objs[v.obj].value.refCount == 0 then res == Found(v.obj) && State() == s
        else res.Found? && v.obj in rank && Detached(s, State(), x, v.obj, res.id, rank[v.obj])
    }

    /**
     The array in variable `x`, for writing: a new one if `x` is undefined; the array itself if no one
     shares it; otherwise a copy of it, which `x` then refers to.
     */
    method EvalArrayRef(x: nat, ghost rank: map<nat, nat>) returns (res: ArrayRef)
      requires Evaluable(x, rank)
      modifies Repr()
      ensures Evaluated(x, res, rank)
    {
      hide PoolOk, Contents, Linked, Threads, WellFormed, Acyclic, AllHanded, Detached, Gives;
      ghost var s := State();
      HandedAll(s, rank);
      SameGives(s, x);
      HeldName(children.Snap(), children.lay, x);
      LiveCells(children.Snap(), children.lay);
      ValueFacts(s, x);
      var v := children.value[x];
      if v == Undefined {
        var b;
        ghost var name;
        b, name := PutNewArray(x);
        if b == 0 {
          return NoRoom;
        }
        AssignedGives(s, State(), b, name, x);
        return Found(b);
      }
      if !v.Pointer? {
        return NotAnArray;
      }
      HeldName(parents.Snap(), parents.lay, v.obj);
      ObjectNumber(parents.Snap(), parents.lay, v.obj);
      if !parents.value[v.obj].isArray {
        return NotAnArray;
      }
      if parents.value[v.obj].refCount > 0 {
        res := Detach(x, v.obj, rank);
      } else {
        res := Found(v.obj);
      }
    }

    /** `x` gets its own copy of the shared array `a`. */
    method Detach(x: nat, a: nat, ghost rank: map<nat, nat>) returns (res: ArrayRef)
      requires Valid() && SharedRef(State(), x, a, rank)
      modifies Repr()
      ensures Valid() && (res == NoRoom || res.Found?)
      ensures res.Found? ==> a in rank && Detached(old(State()), State(), x, a, res.id, rank[a]) && Gives(old(State()), Eval(x, Some(res.id)), State())
    {
      hide PoolOk, Contents, Linked, Threads, WellFormed, Acyclic, AllHanded, AllHashed, Detached, Mirrors, Extends, Copying, Gives;
      ghost var s := State();
      HandedOverOk(s, x);
      spent, roots := spent + {x}, roots + multiset{a};
      RemoveRefToObject(a);
      ghost var e := State();
      var b := AllocObject(true);
      if b == 0 {
        return NoRoom;
      }
      ghost var bname := parents.name[b];
      ObjectNumber(parents.Snap(), parents.lay, b);
      ReplacingReady(s, x, a, b, bname, rank);
      ghost var t := State();
      var ok := CopyArray(a, b, rank);
      if !ok {
        return NoRoom;
      }
      ghost var u := State();
      assert CopyDone(s, u, x, a, b, bname, rank) by { CopyIsDone(s, t, u, x, a, b, bname, rank); }
      DetachedOk(s, u, x, a, b, bname, rank);
      PutValue(x, Pointer(b));
      DetachedGives(s, State(), x, a, b, rank[a]);
      res := Found(b);
    }
  }

  /** `x` is the child of `p` named `name`, and is on its ring. */
  ghost predicate IsVariable(s: Store, p: nat, name: nat, x: nat) {
    && Named(s.vars, s.kids, p, name, x) && s.vars[x].bucket != 0
    && forall y :: Named(s.vars, s.kids, p, name, y) ==> y == x
  }

  /** No child of `p` on its ring is named `name`. */
  ghost predicate NoVariable(s: Store, p: nat, name: nat) {
    forall x :: Named(s.vars, s.kids, p, name, x) ==> s.vars[x].bucket == 0
  }

  lemma ListFamilies(s: Store)
    requires WellFormed(s)
    ensures Families(s.vars, s.kids) && s.objs.Keys == s.kids.Keys
  {}

  lemma EmptyStoreOk()
    ensures WellFormed(Store(map[], map[], map[], multiset{}, {}, 0))
  {}

  /** A list is no part of a pool. */
  lemma NoCell(l: VariableList, p: Pools.CellPool)
    ensures l !in p.Repr()
  {}

  lemma EmptyThreads(pp: Pool, pat: seq<nat>, cp: Pool, cat: seq<nat>)
    requires Linked(cp, cat, {})
    ensures Threads(pp, pat, cp, cat, {}, map[])
  {}

  /** Objects are external in their pool. */
  ghost predicate Externals(objs: Vars) {
    forall o :: o in objs ==> objs[o].bucket == 0
  }

  /** Looking for `y` by its name, as a child of `p`, finds it. */
  ghost predicate Findable(v: Vars, p: nat, y: nat) {
    && y in v && v[y].bucket == BucketOf(p, v[y].name)
    && forall z :: z in v && v[z].bucket == v[y].bucket && v[z].name == v[y].name ==> z == y
  }

  lemma ObjectCell(pp: Pool, pl: Layout, p: nat)
    requires PoolOk(pp, pl) && p in Contents(pp, pl) && Externals(Contents(pp, pl))
    ensures PSized(pp) && |pl.at| == |pp.id| == |pl.g.owner| && 0 < p < |pp.id|
    ensures 0 < pp.next[p] < |pp.id| && pp.next[p] == pl.at[p] && pl.g.owner[pl.at[p]] != 0 && pp.id[pl.at[p]] == p
  {
    hide PoolOk, Contents;
    ExternalFacts(pp, pl, p);
    LiveCells(pp, pl);
  }

  lemma HeldName(cp: Pool, cl: Layout, x: nat)
    requires PoolOk(cp, cl) && x in Contents(cp, cl)
    ensures x < |cp.name| && Contents(cp, cl)[x].name == cp.name[x] && x < |cp.value| && Contents(cp, cl)[x].value == cp.value[x]
  {}

  lemma FindableName(cp: Pool, cl: Layout, p: nat, y: nat)
    requires PoolOk(cp, cl) && Findable(Contents(cp, cl), p, y)
    ensures y < |cp.name| && y in Contents(cp, cl) && Contents(cp, cl)[y].name == cp.name[y]
  {
    hide PoolOk, Contents;
    HeldName(cp, cl, y);
  }

  /** What the search for a child returns is its cell. */
  lemma FoundChild(v: Vars, cp: Pool, cl: Layout, p: nat, y: nat, c: nat)
    requires PoolOk(cp, cl) && v == Contents(cp, cl) && Findable(v, p, y) && y < |cp.name|
    requires c == 0 ==> forall x :: x in v ==> v[x].bucket != BucketOf(p, cp.name[y]) || v[x].name != cp.name[y]
    requires c != 0 ==> c < |cp.id| && cp.id[c] in v && cp.id[c] < |cl.at| && cl.at[cp.id[c]] == c
    requires c != 0 ==> v[cp.id[c]].bucket == BucketOf(p, cp.name[y]) && v[cp.id[c]].name == cp.name[y]
    ensures c != 0 && cp.id[c] == y && c < |cl.g.owner| && cl.g.owner[c] != 0
  {
    hide PoolOk, Contents;
    HeldName(cp, cl, y);
    LiveCells(cp, cl);
  }

  /** What linking `x` into the list of `p` relies on. */
  lemma ReadyToLink(pp: Pool, pl: Layout, cp: Pool, cl: Layout, s: set<nat>, k: Kids, p: nat, x: nat, r: nat)
    requires PoolOk(pp, pl) && PoolOk(cp, cl) && Threads(pp, pl.at, cp, cl.at, s, k)
    requires k.Keys == Contents(pp, pl).Keys && Externals(Contents(pp, pl)) && p in k
    requires Contents(cp, cl).Keys == s + {x} && x !in s && 0 < r < |cp.id| && cp.id[r] == x && x < |cl.at| && cl.at[x] == r
    ensures PSized(pp) && |pl.at| == |pp.id| == |pl.g.owner| && 0 < p < |pp.id| && EndsOk(pp, pl.at, p, k[p])
    ensures 0 < pp.next[p] < |pp.id| && pp.next[p] == pl.at[p] && pl.g.owner[pl.at[p]] != 0
    ensures PSized(cp) && |cl.at| == |cp.id| == |cl.g.owner| && cl.g.owner[r] != 0 && x < |cp.id| && cp.id[0] == 0
    ensures Loose(cp, cl.at, s, x, r)
    ensures k[p] == [] <==> First(k[p]) == 0
    ensures k[p] == [] <==> Last(k[p]) == 0
    ensures k[p] != [] ==> 0 < k[p][0] < |cp.id| && 0 < k[p][|k[p]| - 1] < |cp.id| && k[p][|k[p]| - 1] != x
  {
    hide PoolOk, Contents, Linked;
    ObjectCell(pp, pl, p);
    LiveCells(cp, cl);
    FirstCellFacts(pp, pl.at, cp, cl.at, s, k, p);
    LastCellFacts(pp, pl.at, cp, cl.at, s, k, p);
    LooseChild(cp, cl, s, x, r);
  }

  lemma LinkedFirst(pp: Pool, pl: Layout, pp': Pool, cp: Pool, cl: Layout, s: set<nat>, k: Kids, p: nat, x: nat, r: nat)
    requires PoolOk(pp, pl) && Threads(pp, pl.at, cp, cl.at, s, k) && k.Keys == Contents(pp, pl).Keys && p in k
    requires p < |pl.at| && EndsOk(pp, pl.at, p, k[p]) && Loose(cp, cl.at, s, x, r)
    requires pp'.sib == pp.sib[p := x] && pp'.prev == if k[p] == [] then pp.prev[pl.at[p] := x] else pp.prev
    ensures PSized(cp) && (k[p] != [] ==> k[p][0] < |cl.at|) && FirstCell(cl.at, k[p]) < |cp.id| && x < |cp.id| && r < |cp.id|
    ensures Threads(pp', pl.at, FrontLinked(cp, x, r, FirstCell(cl.at, k[p])), cl.at, s + {x}, k[p := [x] + k[p]])
  {
    hide PoolOk, Contents, Linked, Threads;
    EndsElsewhere(pp, pl, pp', cp, cl.at, s, k, p);
    FrontEnds(pp, pl.at, pp', p, k[p], x);
    ThreadsFront(pp, pl.at, pp', cp, cl.at, s, k, p, x, r);
  }

  lemma LinkedLast(pp: Pool, pl: Layout, pp': Pool, cp: Pool, cl: Layout, s: set<nat>, k: Kids, p: nat, x: nat, r: nat)
    requires PoolOk(pp, pl) && Threads(pp, pl.at, cp, cl.at, s, k) && k.Keys == Contents(pp, pl).Keys && p in k
    requires p < |pl.at| && EndsOk(pp, pl.at, p, k[p]) && Loose(cp, cl.at, s, x, r)
    requires pp'.prev == pp.prev[pl.at[p] := x] && pp'.sib == if k[p] == [] then pp.sib[p := x] else pp.sib
    ensures PSized(cp) && (k[p] != [] ==> k[p][|k[p]| - 1] < |cl.at|) && LastCell(cl.at, k[p]) < |cp.id|
    ensures cp.id[LastCell(cl.at, k[p])] < |cp.id| && x < |cp.id| && r < |cp.id|
    ensures Threads(pp', pl.at, BackLinked(cp, x, r, LastCell(cl.at, k[p])), cl.at, s + {x}, k[p := k[p] + [x]])
  {
    hide PoolOk, Contents, Linked, Threads;
    EndsElsewhere(pp, pl, pp', cp, cl.at, s, k, p);
    BackEnds(pp, pl.at, pp', p, k[p], x);
    ThreadsBack(pp, pl.at, pp', cp, cl.at, s, k, p, x, r);
  }

  lemma BackEnds(pp: Pool, pat: seq<nat>, pp': Pool, p: nat, k: seq<nat>, x: nat)
    requires EndsOk(pp, pat, p, k) && |pp'.sib| == |pp.sib| && |pp'.prev| == |pp.prev|
    requires pp'.prev[pat[p]] == x && pp'.sib[p] == if k == [] then x else pp.sib[p]
    ensures EndsOk(pp', pat, p, k + [x])
  {}

  lemma LooseChild(cp: Pool, cl: Layout, s: set<nat>, x: nat, r: nat)
    requires PoolOk(cp, cl) && Linked(cp, cl.at, s) && x !in s && x in Contents(cp, cl)
    requires 0 < r < |cp.id| && cp.id[r] == x && x < |cl.at| && cl.at[x] == r
    ensures Loose(cp, cl.at, s, x, r)
  {
    hide PoolOk, Contents, Linked;
    LiveCells(cp, cl);
  }

  /** Rewriting the ends of `p` does not touch those of other objects. */
  lemma EndsElsewhere(pp: Pool, pl: Layout, pp': Pool, cp: Pool, cat: seq<nat>, s: set<nat>, k: Kids, p: nat)
    requires PoolOk(pp, pl) && k.Keys == Contents(pp, pl).Keys && p in k && Threads(pp, pl.at, cp, cat, s, k)
    requires p < |pl.at| && |pp'.sib| == |pp.sib| && |pp'.prev| == |pp.prev|
    requires forall q: nat :: q < |pp.sib| && q != p ==> pp'.sib[q] == pp.sib[q]
    requires forall c: nat :: c < |pp.prev| && c != pl.at[p] ==> pp'.prev[c] == pp.prev[c]
    ensures forall q :: q in k && q != p ==> EndsOk(pp', pl.at, q, k[q])
  {
    hide PoolOk, Contents, Linked;
    LiveCells(pp, pl);
    forall q | q in k && q != p
      ensures EndsOk(pp', pl.at, q, k[q])
    {
      assert ThreadOk(pp, pl.at, cp, cat, s, k, q);
    }
  }

  lemma FrontEnds(pp: Pool, pat: seq<nat>, pp': Pool, p: nat, k: seq<nat>, x: nat)
    requires EndsOk(pp, pat, p, k) && |pp'.sib| == |pp.sib| && |pp'.prev| == |pp.prev|
    requires pp'.sib[p] == x && pp'.prev[pat[p]] == if k == [] then x else pp.prev[pat[p]]
    ensures EndsOk(pp', pat, p, [x] + k)
  {}

  lemma ThreadsLinked(pp: Pool, pat: seq<nat>, cp: Pool, cat: seq<nat>, s: set<nat>, k: Kids)
    requires Threads(pp, pat, cp, cat, s, k)
    ensures Linked(cp, cat, s)
  {}

  lemma NoneTied(p: Pool, l: Layout)
    requires PoolOk(p, l)
    ensures Linked(p, l.at, {})
  {
    hide Cells, Viewed;
    PoolSizes(p, l);
    CellFacts(p, l, 0);
  }

  /** What creating a variable relies on: its name is new, and the ends of its list can be found. */
  lemma Creatable(s: Store, p: nat, name: nat, x: nat)
    requires WellFormed(s) && p in s.kids && Hashed(s.vars, s.kids[p]) && NoVariable(s, p, name) && name < NAME_LIMIT
    requires x > 0 && x !in s.vars && p in s.objs && s.objs[p].value.Object?
    ensures s.kids.Keys == s.objs.Keys && Externals(s.objs) && Externals(s.objs[p := WithSize(s.objs[p], 1)])
    ensures forall y :: !Named(s.vars, s.kids, p, name, y)
    ensures var v' := s.vars[x := Entry(BucketOf(p, name), name, Undefined)];
      s.kids[p] != [] ==> Findable(v', p, s.kids[p][0]) && Findable(v', p, s.kids[p][|s.kids[p]| - 1])
  {
    hide Families, NoDangling, Tallied, Findable;
    ListFamilies(s);
    assert forall o :: o in s.objs ==> ObjectOk(s, o);
    hide ObjectOk;
    if s.kids[p] != [] {
      EachFindable(s, p, name, x, 0);
      EachFindable(s, p, name, x, |s.kids[p]| - 1);
    }
  }

  lemma EachFindable(s: Store, p: nat, name: nat, x: nat, i: nat)
    requires Families(s.vars, s.kids) && p in s.kids && Hashed(s.vars, s.kids[p]) && i < |s.kids[p]| && x !in s.vars
    requires forall y :: !Named(s.vars, s.kids, p, name, y)
    ensures Findable(s.vars[x := Entry(BucketOf(p, name), name, Undefined)], p, s.kids[p][i])
  {
    var y := s.kids[p][i];
    assert FamilyOk(s.vars, s.kids, p) && y in s.kids[p];
    assert ChildOk(s.vars, p, y) && !Named(s.vars, s.kids, p, name, y);
    forall z | z in s.vars && s.vars[z].bucket == s.vars[y].bucket && s.vars[z].name == s.vars[y].name
      ensures z == y
    {
      hide Families, BucketOf;
      FoundIsChild(s.vars, s.kids, p, s.vars[y].name, z);
      assert Named(s.vars, s.kids, p, s.vars[y].name, y);
    }
  }

  lemma NotBoth(s: Store, p: nat, name: nat, x: nat)
    requires IsVariable(s, p, name, x)
    ensures !NoVariable(s, p, name)
  {}

  lemma CreatedIsVariable(s: Store, p: nat, name: nat, x: nat)
    requires WellFormed(s) && p in s.kids && p in s.objs && s.objs[p].value.Object? && x !in s.vars
    requires NoVariable(s, p, name) && Hashed(s.vars, s.kids[p])
    ensures IsVariable(NewChild(s, p, name, x, [x] + s.kids[p]), p, name, x)
  {
    hide Families, ObjectOk, NoDangling, Tallied;
    var s' := NewChild(s, p, name, x, [x] + s.kids[p]);
    forall y | Named(s'.vars, s'.kids, p, name, y)
      ensures y == x
    {
      if y != x {
        assert false;
      }
    }
  }

  lemma ObjectNumber(pp: Pool, pl: Layout, p: nat)
    requires PoolOk(pp, pl) && p in Contents(pp, pl)
    ensures 0 < p < |pp.id|
  {}

  lemma Objects(s: Store)
    requires WellFormed(s)
    ensures Externals(s.objs) && s.kids.Keys == s.objs.Keys
  {
    hide Families, NoDangling, Tallied;
    assert forall o :: o in s.objs ==> ObjectOk(s, o);
  }

  lemma UnlinkedThreads(pp: Pool, pl: Layout, pp': Pool, cp: Pool, cl: Layout, s: set<nat>, k: Kids, p: nat, j: nat)
    requires PoolOk(pp, pl) && Threads(pp, pl.at, cp, cl.at, s, k) && k.Keys == Contents(pp, pl).Keys && p in k
    requires j < |k[p]| && 0 !in s && p < |pl.at| && EndsOk(pp, pl.at, p, k[p])
    requires pp'.sib == if j == 0 then pp.sib[p := Follower(k[p], 0)] else pp.sib
    requires pp'.prev == if j + 1 == |k[p]| then pp.prev[pl.at[p] := Leader(k[p], j)] else pp.prev
    ensures k[p][j] in s && k[p][j] < |cl.at| && PSized(cp) && cl.at[k[p][j]] < |cp.id| && k[p][j] < |cp.id|
    ensures cp.sib[k[p][j]] < |cp.id| && cp.prev[cl.at[k[p][j]]] < |cp.id| && cp.id[cp.prev[cl.at[k[p][j]]]] < |cp.id|
    ensures Threads(pp', pl.at, Bridged(cp, k[p][j], cl.at[k[p][j]]), cl.at, s - {k[p][j]}, k[p := k[p][..j] + k[p][j + 1..]])
  {
    hide PoolOk, Contents, Linked, Threads;
    EndsElsewhere(pp, pl, pp', cp, cl.at, s, k, p);
    BridgedEnds(pp, pl.at, pp', p, k[p], j);
    ChildLinks(pp, pl.at, cp, cl.at, s, k, p, j);
    ThreadsBridged(pp, pl.at, pp', cp, cl.at, s, k, p, j);
  }

  /** Objects whose cells and links are undisturbed keep the ends of their lists. */
  lemma EndsUndisturbed(pp: Pool, pat: seq<nat>, pp': Pool, pat': seq<nat>, cp: Pool, cat: seq<nat>, s: set<nat>, k: Kids, o: nat)
    requires Threads(pp, pat, cp, cat, s, k)
    requires forall q: nat :: q in k && q != o ==>
      && q < |pat'| && q < |pat| && q < |pp'.sib| && q < |pp.sib| && pat'[q] == pat[q] && pp'.sib[q] == pp.sib[q]
      && pat[q] < |pp'.prev| && pat[q] < |pp.prev| && pp'.prev[pat[q]] == pp.prev[pat[q]]
    ensures forall q :: q in k && q != o ==> EndsOk(pp', pat', q, k[q])
  {
    hide Linked, Chain;
    forall q | q in k && q != o
      ensures EndsOk(pp', pat', q, k[q])
    {
      assert ThreadOk(pp, pat, cp, cat, s, k, q);
    }
  }

  /** The reference to `o` about to be given up is the last one. */
  ghost predicate LastOf(s: Store, o: nat) {
    o in s.objs && s.objs[o].value.Object? && s.objs[o].value.refCount == 0
  }

  /** Clearing an object that is about to be freed, then freeing it, is giving up the reference. */
  lemma ReleasedAfterClear(s: Store, t: Store, o: nat)
    requires WellFormed(s) && WellFormed(t) && Survives(s, t, o) && o in t.objs && t.roots[o] == 1 && t.kids[o] == []
    ensures var u := ObjectFreed(t, o);
      Survives(s.(roots := s.roots - multiset{o}), u, NOBODY) && o !in u.objs
  {
    hide WellFormed, RingCount;
    ObjectFreedSurvives(t, o);
    var u := ObjectFreed(t, o);
    forall q | q in u.objs
      ensures Unharmed(s.(roots := s.roots - multiset{o}), u, q)
    {
      NotNobody(t, q);
      assert Unharmed(t.(roots := t.roots - multiset{o}), u, q);
      assert Unharmed(s, t, q);
    }
  }

  /** Once cleared, an object whose last reference is given up can be freed. */
  lemma LastGoes(s: Store, t: Store, o: nat)
    requires WellFormed(s) && WellFormed(t) && Survives(s, t, o)
    requires s.roots[o] > 0 && o in s.objs && s.objs[o].value.Object? && s.objs[o].value.refCount == 0
    requires o in t.kids && t.kids[o] == []
    ensures o in t.objs && t.roots[o] == 1 && t.objs[o].value.Object? && t.objs[o].value.refCount == 0
    ensures var u := ObjectFreed(t, o);
      Survives(s.(roots := s.roots - multiset{o}), u, NOBODY) && o !in u.objs
  {
    LastReference(s, o);
    ClearedUnreferenced(s, t, o);
    hide WellFormed, RingCount, Referrers;
    FamiliesKeys(t);
    NoReferrersCount(t, o);
    ReleasedAfterClear(s, t, o);
  }

  lemma ReferencedSteady(s: Store, o: nat)
    requires o in s.objs && s.objs[o].value.Object? && Steady(s, o)
    ensures var t := Referenced(s, o); t.vars == s.vars && t.kids == s.kids && Steady(t, o)
    ensures Referenced(s, o).roots[o] == s.roots[o] + 1
  {}

  /** While an object is cleared it is referred to once more. */
  lemma TemporaryReference(s: Store, u: Store, o: nat)
    requires WellFormed(s) && WellFormed(u) && o in s.objs && s.objs[o].value.Object?
    requires Survives(Referenced(s, o), u, o) && Trimmed(Referenced(s, o), u, o, [])
    ensures u.roots[o] == s.roots[o] + 1 && o in u.objs && o in u.kids && u.kids[o] == []
  {
    hide WellFormed, RingCount;
  }

  lemma SeveralReferences(s: Store, o: nat)
    requires WellFormed(s) && o in s.objs && s.roots[o] > 1
    ensures s.objs[o].value.Object? && s.objs[o].value.refCount > 0
  {
    hide Families, NoDangling, Tallied, Referrers;
    assert ObjectOk(s, o);
  }

  /** Referring to an object, clearing it and giving the reference up again is clearing it. */
  lemma ClearedObject(s: Store, t: Store, u: Store, w: Store, o: nat)
    requires WellFormed(s) && WellFormed(u) && o in s.objs && s.objs[o].value.Object? && t == Referenced(s, o)
    requires Survives(t, u, o) && Trimmed(t, u, o, []) && u.roots[o] == s.roots[o] + 1
    requires s.roots[o] > 0 ==> u.objs[o].value.refCount > 0
    requires w == if u.objs[o].value.refCount > 0 then Dereferenced(u, o) else ObjectFreed(u, o)
    ensures Survives(s, w, o) && (o in w.objs ==> o in w.kids && w.kids[o] == []) && (s.roots[o] > 0 ==> Trimmed(s, w, o, []))
  {
    hide WellFormed, RingCount;
    assert w.roots == s.roots;
    forall q | q in w.objs && q != o
      ensures Unharmed(s, w, q)
    {
      assert Unharmed(t, u, q);
    }
  }

  /** All children of `p` are off their rings, and none has given up its reference yet. */
  ghost predicate AllOff(s: Store, p: nat) {
    p in s.kids && forall x :: x in s.kids[p] ==> x in s.vars && s.vars[x].bucket == 0 && x !in s.spent
  }

  ghost predicate SameRecord(e: Entry, e': Entry) {
    e.value.Object? && e'.value.Object? && e'.value.isArray == e.value.isArray
  }

  /** The first `i` children of `p` have been taken off their rings, the others are as in `s`. */
  ghost predicate OffUpTo(s: Store, t: Store, p: nat, i: nat) {
    && p in s.kids && p in t.kids && t.kids == s.kids && i <= |s.kids[p]| && p in s.objs && p in t.objs
    && SameRecord(s.objs[p], t.objs[p])
    && (forall j: nat :: j < |s.kids[p]| ==> var x := s.kids[p][j];
          x in t.vars && x in s.vars && s.vars[x].bucket != 0 && x !in t.spent && (t.vars[x].bucket == 0 <==> j < i))
  }

  lemma StartOff(s: Store, p: nat)
    requires WellFormed(s) && p in s.objs && Steady(s, p)
    ensures OffUpTo(s, s, p, 0)
  {
    IsObject(s, p);
    AllKidsLive(s, p);
    hide Families, Tallied, ObjectOk;
  }

  lemma StepOff(s: Store, t: Store, p: nat, i: nat)
    requires WellFormed(t) && OffUpTo(s, t, p, i) && i < |s.kids[p]|
    ensures p in t.kids && s.kids[p][i] in t.kids[p] && s.kids[p][i] in t.vars && t.vars[s.kids[p][i]].bucket != 0
  {
    hide WellFormed;
  }

  lemma SteppedOff(s: Store, t: Store, u: Store, p: nat, i: nat)
    requires WellFormed(t) && OffUpTo(s, t, p, i) && i < |s.kids[p]| && Survives(s, t, p)
    requires t.objs[p].value.isArray ==> t.objs[p].value.size > 0
    requires s.kids[p][i] in t.vars && u == TakenOff(t, p, s.kids[p][i])
    ensures OffUpTo(s, u, p, i + 1) && Survives(s, u, p)
    ensures RingCount(u.vars) < RingCount(t.vars) <= RingCount(s.vars)
  {
    hide Families, Tallied, ObjectOk, NoDangling, RingCount, Unique;
    var x := s.kids[p][i];
    assert x in t.kids[p];
    TakenOffSurvives(t, p, x);
    SurvivesTrans(s, t, u, p);
    assert Unique(s.kids[p]) by { UniqueOf(t, p); }
    UniqueAt(s.kids[p], i);
  }

  lemma UniqueOf(s: Store, p: nat)
    requires WellFormed(s) && p in s.kids
    ensures Unique(s.kids[p])
  {
    assert FamilyOk(s.vars, s.kids, p);
  }

  lemma UniqueAt(k: seq<nat>, i: nat)
    requires Unique(k) && i < |k|
    ensures forall j: nat :: j < |k| && j != i ==> k[j] != k[i]
  {}

  lemma EndOff(s: Store, t: Store, p: nat)
    requires p in s.kids && OffUpTo(s, t, p, |s.kids[p]|)
    ensures AllOff(t, p) && p in s.objs && p in t.objs && SameRecord(s.objs[p], t.objs[p])
  {}

  lemma FirstFindable(s: Store, p: nat)
    requires WellFormed(s) && p in s.kids && s.kids[p] != [] && Steady(s, p)
    ensures Findable(s.vars, p, s.kids[p][0])
  {
    ListFamilies(s);
    var y := s.kids[p][0];
    assert FamilyOk(s.vars, s.kids, p) && y in s.kids[p];
    assert ChildOk(s.vars, p, y);
    hide WellFormed;
    forall z | z in s.vars && s.vars[z].bucket == s.vars[y].bucket && s.vars[z].name == s.vars[y].name
      ensures z == y
    {
      hide Families, BucketOf;
      FoundIsChild(s.vars, s.kids, p, s.vars[y].name, z);
      assert Named(s.vars, s.kids, p, s.vars[y].name, y);
    }
  }

  lemma NothingTrimmed(s: Store, p: nat)
    requires WellFormed(s) && p in s.objs && p in s.kids && s.kids[p] == []
    ensures Trimmed(s, s, p, [])
  {
    IsObject(s, p);
  }

  lemma AllTrimmed(s: Store, p: nat)
    requires WellFormed(s) && p in s.objs && p in s.kids
    ensures Trimmed(s, s, p, s.kids[p])
  {
    IsObject(s, p);
    AllKidsLive(s, p);
    hide WellFormed;
  }

  /** Freeing what has been taken off is clearing. */
  lemma PrunedAfterOff(s: Store, t: Store, u: Store, p: nat)
    requires Survives(s, t, p) && Survives(t, u, p) && Trimmed(t, u, p, [])
    requires p in s.objs && p in t.objs && SameRecord(s.objs[p], t.objs[p])
    ensures Survives(s, u, p) && Trimmed(s, u, p, [])
  {
    SurvivesTrans(s, t, u, p);
  }

  /** The first of the children still to be freed is off its ring, as it was at the start. */
  lemma FirstOff(s: Store, t: Store, p: nat)
    requires AllOff(s, p) && p in t.kids && t.kids[p] != [] && Trimmed(s, t, p, t.kids[p]) && t.spent == s.spent
    requires |t.kids[p]| <= |s.kids[p]| && t.kids[p] == s.kids[p][|s.kids[p]| - |t.kids[p]|..]
    ensures var x := t.kids[p][0]; x in t.vars && t.vars[x].bucket == 0 && x !in t.spent
  {
    assert t.kids[p][0] in t.kids[p];
    assert t.kids[p][0] == s.kids[p][|s.kids[p]| - |t.kids[p]|];
  }

  lemma MeasureKept(s: Store, t: Store, p: nat)
    requires Survives(s, t, p)
    ensures RingCount(t.vars) <= RingCount(s.vars)
  {}

  lemma FreedFirst(s: Store, t: Store, u: Store, p: nat)
    requires Survives(s, t, p) && Survives(t, u, p) && p in t.kids && t.kids[p] != [] && Trimmed(s, t, p, t.kids[p])
    requires Trimmed(t, u, p, t.kids[p][..0] + t.kids[p][1..])
    ensures p in u.kids && u.kids[p] == t.kids[p][1..] && Survives(s, u, p) && Trimmed(s, u, p, u.kids[p])
    ensures u.roots == s.roots && u.spent == s.spent
  {
    SurvivesTrans(s, t, u, p);
    assert t.kids[p][..0] + t.kids[p][1..] == t.kids[p][1..];
    forall y | y in t.kids[p][1..]
      ensures y in t.kids[p]
    {}
  }

  /** The reference handed over is gone: what is left survives the whole. */
  lemma HandedBack(s: Store, u: Store, x: nat, o: nat)
    requires x in s.vars && s.vars[x].value == Pointer(o)
    requires var h := HandedOver(s, x); Survives(h.(roots := h.roots - multiset{o}), u, NOBODY)
    ensures Survives(s.(spent := s.spent + {x}), u, NOBODY)
  {
    var h := HandedOver(s, x);
    assert h.roots - multiset{o} == s.roots;
    assert h.(roots := h.roots - multiset{o}) == s.(spent := s.spent + {x});
  }

  /** What handing over the reference in a variable of `p` gives. */
  lemma HandOver(s: Store, x: nat, p: nat)
    requires WellFormed(s) && x in s.vars && s.vars[x].value.Pointer? && x !in s.spent && p in s.kids && x in s.kids[p]
    requires Held(s, p) || NotTheLast(s, x)
    ensures var t, o := HandedOver(s, x), s.vars[x].value.obj;
      && WellFormed(t) && t.roots[o] > 0 && (LastOf(t, o) ==> Protected(t, t.roots - multiset{o}, NOBODY))
      && (NotTheLast(s, x) ==> o in t.objs && t.objs[o].value.Object? && t.objs[o].value.refCount > 0)
  {
    hide WellFormed, Protected, Held;
    HandedOverOk(s, x);
    if !NotTheLast(s, x) {
      HandedOverHeld(s, x, p);
    }
  }

  /** The owner of the variable is still there when its reference has been released. */
  lemma OwnerStays(s: Store, u: Store, x: nat, p: nat)
    requires WellFormed(s) && WellFormed(u) && x in s.vars && x !in s.spent && p in s.kids && x in s.kids[p]
    requires Held(s, p) || NotTheLast(s, x)
    requires if s.vars[x].value.Pointer? then
        && Survives(s.(spent := s.spent + {x}), u, NOBODY)
        && (NotTheLast(s, x) ==> u == Dereferenced(HandedOver(s, x), s.vars[x].value.obj))
      else u == s
    ensures p in u.objs
  {
    hide WellFormed, Anchored, Protected;
    FamiliesKeys(s);
    if s.vars[x].value.Pointer? && !NotTheLast(s, x) {
      ReleasedSpares(s, u, x, p);
      AnchoredSurvives(s, u, s.roots, p, p);
    }
  }

  lemma ReleasedSpares(s: Store, u: Store, x: nat, p: nat)
    requires WellFormed(s) && WellFormed(u) && p in s.kids && x in s.kids[p] && Survives(s.(spent := s.spent + {x}), u, NOBODY)
    ensures Spares(s, u, p) && u.roots == s.roots
  {
    hide WellFormed, RingCount;
    FamiliesKeys(s);
    forall q | q in u.objs && q != p
      ensures Unharmed(s, u, q) && forall y :: y in s.kids[q] && y in u.spent ==> y in s.spent
    {
      NotNobody(u, q);
      assert Unharmed(s.(spent := s.spent + {x}), u, q);
      if x in s.kids[q] {
        OneOwner(s, p, q, x);
      }
    }
  }

  /** The owner of a variable. */
  lemma OwnerOf(s: Store, x: nat) returns (p: nat)
    requires WellFormed(s) && x in s.vars
    requires NotTheLast(s, x) || exists q :: q in s.kids && x in s.kids[q] && Held(s, q)
    ensures p in s.kids && x in s.kids[p] && (Held(s, p) || NotTheLast(s, x))
  {
    hide WellFormed, Held, NotTheLast;
    if NotTheLast(s, x) {
      KidOfSome(s, x);
      p :| p in s.kids && x in s.kids[p];
    } else {
      p :| p in s.kids && x in s.kids[p] && Held(s, p);
    }
  }

  lemma OnlyOwner(s: Store, x: nat, p: nat)
    requires WellFormed(s) && p in s.kids && x in s.kids[p]
    ensures forall q :: q in s.kids && x in s.kids[q] ==> q == p
  {
    hide WellFormed;
    forall q | q in s.kids && x in s.kids[q]
      ensures q == p
    {
      OneOwner(s, p, q, x);
    }
  }

  /** The variable `x` of `p` may be removed: no object goes with its reference, or `p` is within reach without its own variables. */
  ghost predicate MayRemove(s: Store, p: nat, x: nat) {
    NotTheLast(s, x) || Anchored(s, s.roots, p, p)
  }

  ghost predicate AllSettled(s: Store) {
    s.spent == {} && forall x :: x in s.vars ==> s.vars[x].bucket != 0
  }

  lemma SettledSteady(s: Store, p: nat)
    requires WellFormed(s) && AllSettled(s) && p in s.kids
    ensures Steady(s, p)
  {
    FamiliesKeys(s);
    AllKidsLive(s, p);
  }

  ghost function PositionOf(s: Store, p: nat, name: nat, x: nat): (j: nat)
    requires IsVariable(s, p, name, x)
    ensures p in s.kids && j < |s.kids[p]| && s.kids[p][j] == x
  {
    var j :| 0 <= j < |s.kids[p]| && s.kids[p][j] == x;
    j
  }

  lemma ReadyToRemove(s: Store, p: nat, j: nat)
    requires WellFormed(s) && AllSettled(s) && p in s.kids && j < |s.kids[p]|
    ensures p in s.objs && s.objs[p].value.Object? && s.kids[p][j] in s.vars && s.vars[s.kids[p][j]].bucket != 0
  {
    hide WellFormed;
    FamiliesKeys(s);
    IsObject(s, p);
    AllKidsLive(s, p);
  }

  lemma OffOne(s: Store, p: nat, j: nat)
    requires WellFormed(s) && AllSettled(s) && p in s.kids && j < |s.kids[p]| && p in s.objs && MayRemove(s, p, s.kids[p][j])
    requires s.kids[p][j] in s.vars && s.objs[p].value.Object? && (s.objs[p].value.isArray ==> s.objs[p].value.size > 0)
    ensures var t, x := TakenOff(s, p, s.kids[p][j]), s.kids[p][j];
      && Survives(s, t, p) && x in t.vars && t.vars[x].bucket == 0 && x !in t.spent
      && (Held(t, p) || NotTheLast(t, x))
  {
    hide WellFormed, Anchored, Protected;
    ReadyToRemove(s, p, j);
    var x := s.kids[p][j];
    TakenOffSurvives(s, p, x);
    if !NotTheLast(s, x) {
      SettledProtected(s, s.roots, p);
      TakenOffOk(s, p, x);
      HeldSurvives(s, TakenOff(s, p, x), p);
    }
  }

  /** `p` has lost its child `x`; its other children, and all other objects left, are unharmed. */
  ghost predicate LostChild(s: Store, t: Store, p: nat, x: nat) {
    && p in s.kids && p in t.kids && p in s.objs && p in t.objs
    && x !in t.kids[p] && (forall y :: y in t.kids[p] <==> y in s.kids[p] && y != x) && t.kids[p] == Minus(s.kids[p], x)
    && (forall y :: y in t.kids[p] ==> y in s.vars && y in t.vars && t.vars[y] == s.vars[y])
    && (forall q :: q in t.objs && q != p ==> Unharmed(s, t, q))
    && t.roots == s.roots
  }

  /** Putting together what taking one child off its ring and freeing it do. */
  lemma OneRemoved(s: Store, t: Store, u: Store, p: nat, j: nat)
    requires WellFormed(s) && WellFormed(u) && AllSettled(s) && p in s.objs && p in s.kids && j < |s.kids[p]|
    requires s.objs[p].value.Object? && (s.objs[p].value.isArray ==> s.objs[p].value.size > 0) && s.kids[p][j] in s.vars
    requires t == TakenOff(s, p, s.kids[p][j]) && Survives(s, t, p) && Survives(t, u, p)
    requires Trimmed(t, u, p, s.kids[p][..j] + s.kids[p][j + 1..])
    ensures AllSettled(u) && LostChild(s, u, p, s.kids[p][j])
  {
    hide WellFormed, RingCount, Unique, Minus;
    SurvivesTrans(s, t, u, p);
    UniqueOf(s, p);
    ListRemoved(s.kids[p], j);
    MinusAt(s.kids[p], j);
    AllKidsLive(s, p);
    forall x | x in u.vars
      ensures u.vars[x].bucket != 0
    {
      KidOfSome(u, x);
      FamiliesKeys(u);
      var q :| q in u.kids && x in u.kids[q];
      if q != p {
        assert Unharmed(s, u, q);
      }
    }
  }

  lemma NoneNamed(s: Store, p: nat, name: nat)
    requires forall y :: !Named(s.vars, s.kids, p, name, y)
    ensures NoVariable(s, p, name)
  {}

  /** The array a variable gives for writing to, or why there is none. */
  datatype ArrayRef = Found(id: nat) | NotAnArray | NoRoom

  function ArrayOf(res: ArrayRef): Option<nat> {
    if res.Found? then Some(res.id) else None
  }

  lemma ValueFacts(s: Store, x: nat)
    requires WellFormed(s) && x in s.vars && x !in s.spent
    ensures s.vars[x].value.Pointer? ==>
      s.vars[x].value.obj in s.objs && s.vars[x].value.obj in s.kids && s.objs[s.vars[x].value.obj].value.Object?
  {
    hide Families, ObjectOk, Tallied;
    if s.vars[x].value.Pointer? {
      IsObject(s, s.vars[x].value.obj);
    }
  }

  lemma CopyIsDone(s: Store, t: Store, u: Store, x: nat, a: nat, b: nat, bname: nat, rank: map<nat, nat>)
    requires SharedRef(s, x, a, rank) && b !in s.objs && WellFormed(t) && WellFormed(u) && t == Replacing(s, x, a, b, bname)
    requires t.roots[b] == 1 && Copying(t, a, b, 0, t.objs.Keys, rank) && Extends(t, u, b) && Mirrors(u, a, b, rank[a], t.objs.Keys - {b})
    ensures CopyDone(s, u, x, a, b, bname, rank)
  {
    hide WellFormed, Mirrors, Extends, AllHanded, Acyclic, AllHashed, MirrorsUpTo;
  }

  lemma EntriesLeft(s: Store, t: Store, o: nat)
    requires WellFormed(s) && WellFormed(t) && Survives(s.(roots := s.roots - multiset{o}), t, NOBODY)
    ensures Gives(s, Release(o), t)
  {
    hide WellFormed, RingCount, Directory, Restricted;
    FamiliesKeys(t);
    NobodyListed(t);
    forall q | q in t.objs
      ensures Unharmed(s, t, q)
    {
      NotNobody(t, q);
      assert Unharmed(s.(roots := s.roots - multiset{o}), t, q);
    }
    ReleasedEntries(s, t);
    SurvivorsKeep(s, t, NOBODY);
    SurvivorsListed(s, t, NOBODY);
  }

  /** The variables left when `p` has lost a child have the values they had. */
  lemma OthersKeep(s: Store, t: Store, p: nat, x: nat)
    requires WellFormed(t) && LostChild(s, t, p, x)
    ensures KeepValues(s, t, {}) && KeepLists(s, t, {p})
  {
    hide WellFormed, Minus;
    FamiliesKeys(t);
    SurvivorsListed(s, t, p);
    forall y | y in s.vars && y in t.vars
      ensures t.vars[y] == s.vars[y]
    {
      KidOfSome(t, y);
      var q :| q in t.kids && y in t.kids[q];
      if q != p {
        assert Unharmed(s, t, q);
      }
    }
  }

  lemma AssignedOnly(s: Store, x: nat, v: Value)
    requires x in s.vars
    ensures OnlyValue(s, Assigned(s, x, v), x, v)
  {}

  lemma FirstNamed(s: Store, p: nat)
    requires Steady(s, p) && s.kids[p] != []
    ensures s.kids[p][0] in s.vars && Named(s.vars, s.kids, p, s.vars[s.kids[p][0]].name, s.kids[p][0])
  {}

  lemma VariableNamed(s: Store, p: nat, name: nat, x: nat)
    requires IsVariable(s, p, name, x)
    ensures Named(s.vars, s.kids, p, name, x)
  {}

  lemma SameGives(s: Store, x: nat)
    requires WellFormed(s) && x in s.vars
    ensures Gives(s, Eval(x, None), s)
    ensures s.vars[x].value.Pointer? ==> Gives(s, Eval(x, Some(s.vars[x].value.obj)), s)
  {
    hide WellFormed, Gives;
    FamiliesKeys(s);
    EvalGives(s, s, x, None);
    if s.vars[x].value.Pointer? {
      EvalGives(s, s, x, Some(s.vars[x].value.obj));
    }
  }

  lemma AssignedGives(s: Store, t: Store, b: nat, name: nat, x: nat)
    requires WellFormed(s) && WellFormed(t) && x in s.vars && b !in s.objs && t == Assigned(NewObject(s, b, name, true), x, Pointer(b))
    ensures Gives(s, Eval(x, Some(b)), t)
  {
    hide WellFormed, Gives;
    FamiliesKeys(s);
    EvalGives(s, t, x, Some(b));
  }

  lemma DetachedGives(s: Store, t: Store, x: nat, a: nat, b: nat, d: nat)
    requires WellFormed(s) && WellFormed(t) && Detached(s, t, x, a, b, d)
    ensures Gives(s, Eval(x, Some(b)), t)
  {
    hide WellFormed, Gives, Mirrors;
    EvalGives(s, t, x, Some(b));
  }

  lemma AppendGives(s: Store, p: nat, name: nat, x: nat)
    requires WellFormed(s) && p in s.objs && p in s.kids && s.objs[p].value.Object? && x !in s.vars && x > 0 && name < NAME_LIMIT
    requires Hashed(s.vars, s.kids[p]) && NoVariable(s, p, name) && WellFormed(NewChild(s, p, name, x, s.kids[p] + [x]))
    ensures Gives(s, Append(p, name, x), NewChild(s, p, name, x, s.kids[p] + [x]))
  {
    hide WellFormed, Directory;
    NotListed(s, p, name);
    CreatedEntry(s, p, name, x, s.kids[p] + [x]);
  }

  lemma NotListed(s: Store, p: nat, name: nat)
    requires WellFormed(s) && p in s.kids && Hashed(s.vars, s.kids[p]) && NoVariable(s, p, name)
    ensures (p, name) !in Directory(s)
  {
    hide WellFormed, Directory;
    DirectoryAt(s, p, name);
    assert forall x :: !Named(s.vars, s.kids, p, name, x);
  }

  lemma NothingRemoved(s: Store, p: nat, name: nat)
    requires WellFormed(s) && (p, name) !in Directory(s)
    ensures Directory(s) == Restricted(Directory(s) - {(p, name)}, s.objs.Keys)
  {
    hide WellFormed, ChildOf;
    FamiliesKeys(s);
    assert forall k :: k in Directory(s) ==> k.0 in s.objs;
  }
}
