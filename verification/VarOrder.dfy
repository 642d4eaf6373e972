/** The order of an object's variables over whole runs: the names that a loop over them meets. */
module VarOrder {
  import opened Wrappers
  import opened VarCells
  import opened VarFamilies
  import opened VarStore
  import opened VarRelease
  import opened VarDirectory
  import opened VarRuns

  ghost function NameOf(s: Store, x: nat): nat {
    if x in s.vars then s.vars[x].name else 0
  }

  ghost function NamesOf(s: Store, list: seq<nat>): seq<nat> {
    seq(|list|, i requires 0 <= i < |list| => NameOf(s, list[i]))
  }

  /** The names of the variables of `p`, in order. */
  ghost function Names(s: Store, p: nat): seq<nat> {
    if p in s.kids then NamesOf(s, s.kids[p]) else []
  }

  /** What the calls leave of a list of names, by the calls alone. */
  function Order(calls: seq<Call>, p: nat, start: seq<nat>): seq<nat> {
    if calls == [] then start
    else
      var before := Order(calls[..|calls| - 1], p, start);
      match calls[|calls| - 1]
      case Get(q, name, _) => if q == p && name !in before then [name] + before else before
      case Append(q, name, _) => if q == p then before + [name] else before
      case Remove(q, name) => if q == p then Minus(before, name) else before
      case Clear(q) => if q == p then [] else before
      case _ => before
  }

  lemma NamesConcat(s: Store, a: seq<nat>, b: seq<nat>)
    ensures NamesOf(s, a + b) == NamesOf(s, a) + NamesOf(s, b)
  {}

  /** The same variables under the same names. */
  lemma SameNames(s: Store, t: Store, list: seq<nat>)
    requires forall x :: x in list ==> NameOf(t, x) == NameOf(s, x)
    ensures NamesOf(t, list) == NamesOf(s, list)
  {}

  /** Leaving out a variable leaves out its name, if no other has it. */
  lemma {:induction false} NamesMinus(s: Store, list: seq<nat>, x: nat)
    requires forall y :: y in list ==> (NameOf(s, y) == NameOf(s, x) <==> y == x)
    ensures NamesOf(s, Minus(list, x)) == Minus(NamesOf(s, list), NameOf(s, x))
  {
    if list != [] {
      var rest := list[1..];
      NamesMinus(s, rest, x);
      NamesConcat(s, [list[0]], Minus(rest, x));
      assert NamesOf(s, [list[0]]) == [NameOf(s, list[0])];
      assert NamesOf(s, list)[1..] == NamesOf(s, rest);
      hide NamesOf;
      assert Minus(list, x) == (if list[0] == x then [] else [list[0]]) + Minus(rest, x);
      assert [] + Minus(rest, x) == Minus(rest, x);
    }
  }

  lemma MinusNone(s: Store, list: seq<nat>, name: nat)
    requires forall y :: y in list ==> NameOf(s, y) != name
    ensures Minus(NamesOf(s, list), name) == NamesOf(s, list)
  {
    MinusAbsent(NamesOf(s, list), name);
  }

  /** The names of an object are those the directory has for it, each once. */
  lemma NamesListed(s: Store, p: nat, name: nat)
    requires WellFormed(s) && p in s.kids
    ensures forall y :: y in s.kids[p] ==> y in s.vars
    ensures name in Names(s, p) <==> (p, name) in Directory(s)
    ensures (p, name) in Directory(s) ==>
      var x := Directory(s)[(p, name)]; x in s.kids[p] && NameOf(s, x) == name && forall y :: y in s.kids[p] ==> (NameOf(s, y) == name <==> y == x)
    ensures (p, name) !in Directory(s) ==> forall y :: y in s.kids[p] ==> NameOf(s, y) != name
  {
    hide WellFormed, Directory;
    ListedAlive(s, p);
    forall y | y in s.kids[p] && NameOf(s, y) == name
      ensures (p, name) in Directory(s) && Directory(s)[(p, name)] == y
    {
      EntryNamed(s, p, name, y);
    }
    if (p, name) in Directory(s) {
      EntryNamed(s, p, name, Directory(s)[(p, name)]);
      var i :| 0 <= i < |s.kids[p]| && s.kids[p][i] == Directory(s)[(p, name)];
      assert NamesOf(s, s.kids[p])[i] == name;
    }
    if name in Names(s, p) {
      var i :| 0 <= i < |s.kids[p]| && NamesOf(s, s.kids[p])[i] == name;
      assert s.kids[p][i] in s.kids[p];
    }
  }

  lemma NoNames(s: Store)
    ensures NamesOf(s, []) == []
  {}

  /** One call changes the order of the variables of `p` as it says, as long as `p` exists. */
  lemma CallOrdered(s: Store, call: Call, t: Store, p: nat)
    requires Gives(s, call, t) && p in s.objs && p in t.objs
    ensures Names(t, p) == Order([call], p, Names(s, p))
  {
    hide WellFormed, Directory, NamesOf, Minus;
    assert [call][..0] == [] && Order([], p, Names(s, p)) == Names(s, p);
    FamiliesKeys(s);
    FamiliesKeys(t);
    ListedAlive(s, p);
    ListedAlive(t, p);
    match call
    case Get(q, name, x) =>
      NamesListed(s, q, name);
      if q == p && (p, name) !in Directory(s) {
        AddedNames(s, t, p, name, x, [x], []);
      } else {
        SameNames(s, t, s.kids[p]);
      }
    case Append(q, name, x) =>
      if q == p {
        AddedNames(s, t, p, name, x, [], [x]);
      } else {
        SameNames(s, t, s.kids[p]);
      }
    case Remove(q, name) =>
      NamesListed(s, p, name);
      if q == p && (p, name) in Directory(s) {
        MinusMembers(s.kids[p], Directory(s)[(p, name)]);
        NamesMinus(s, s.kids[p], Directory(s)[(p, name)]);
      } else if q == p {
        MinusNone(s, s.kids[p], name);
      }
      SameNames(s, t, t.kids[p]);
    case Clear(q) =>
      SameNames(s, t, t.kids[p]);
      NoNames(t);
    case _ =>
      SameNames(s, t, s.kids[p]);
  }

  lemma AddedNames(s: Store, t: Store, p: nat, name: nat, x: nat, front: seq<nat>, back: seq<nat>)
    requires WellFormed(t) && p in s.kids && p in t.kids && (forall y :: y in s.kids[p] ==> y in s.vars && y in t.vars)
    requires KeepLists(s, t, {p}) && t.kids[p] == front + s.kids[p] + back && (p, name) in Directory(t) && Directory(t)[(p, name)] == x
    requires (front == [x] && back == []) || (front == [] && back == [x])
    ensures Names(t, p) == (if front == [] then [] else [name]) + Names(s, p) + if back == [] then [] else [name]
  {
    hide WellFormed, Directory;
    EntryNamed(t, p, name, x);
    SameNames(s, t, s.kids[p]);
    NamesConcat(t, front + s.kids[p], back);
    NamesConcat(t, front, s.kids[p]);
    assert NamesOf(t, []) == [] && NamesOf(t, [x]) == [name];
  }

  /**
   Whatever objects come and go, a loop over the variables of an object that is there throughout meets
   the names that the calls alone say, in that order: a variable looked up for the first time comes
   first, one appended comes last, and the others keep their places.
   */
  lemma {:induction false} RunsKeepOrder(states: seq<Store>, calls: seq<Call>, p: nat)
    requires IsRun(states, calls) && forall i :: 0 <= i < |states| ==> p in states[i].objs
    ensures Names(states[|calls|], p) == Order(calls, p, Names(states[0], p))
    decreases |calls|
  {
    hide Gives, Names;
    if calls != [] {
      var n := |calls| - 1;
      RunsKeepOrder(states[..|calls|], calls[..n], p);
      assert Gives(states[n], calls[n], states[n + 1]);
      CallOrdered(states[n], calls[n], states[n + 1], p);
      OrderStep(calls, p, Names(states[0], p));
    }
  }

  lemma OrderStep(calls: seq<Call>, p: nat, start: seq<nat>)
    requires calls != []
    ensures Order(calls, p, start) == Order([calls[|calls| - 1]], p, Order(calls[..|calls| - 1], p, start))
  {
    var c := [calls[|calls| - 1]];
    assert c[..0] == [];
  }
}
