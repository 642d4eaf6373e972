/** The string table over whole runs: what every sequence of calls keeps. */
module StringRuns {
  import opened Strings

  /** The strings, and for each the number of plain references its holders have. */
  datatype State = State(refs: Store, plain: map<nat, nat>)

  /** What a caller may do: it drops only references it has. */
  ghost predicate Possible(s: State, call: Call) {
    && Callable(s.refs, call)
    && match call
       case RemoveRef(x) => x in s.plain && s.plain[x] > 0
       case Transfer(x, _) => x in s.plain && s.plain[x] > 0
       case _ => true
  }

  ghost function Plain(s: State, x: nat): nat {
    if x in s.plain then s.plain[x] else 0
  }

  /** The state after a call; plain references come from callers that name no user. */
  ghost function After(s: State, call: Call): State
    requires Possible(s, call)
  {
    var refs := Called(s.refs, call);
    match call
    case Get(_, user, x) =>
      State(refs, s.plain[x := (if x in s.refs then Plain(s, x) else 0) + if user == {} then 1 else 0])
    case AddRef(x) => State(refs, s.plain[x := Plain(s, x) + 1])
    case AddUser(_, _) => State(refs, s.plain)
    case RemoveRef(x) => State(refs, if x in refs then s.plain[x := s.plain[x] - 1] else s.plain - {x})
    case Transfer(x, _) => State(refs, s.plain[x := s.plain[x] - 1])
    case Shutdown(_) => State(refs, map x | x in s.plain && x in refs :: s.plain[x])
  }

  /** Each reference count is the number of users plus the number of plain references, and not zero. */
  ghost predicate Balanced(s: State) {
    s.plain.Keys == s.refs.Keys && forall x :: x in s.refs ==> Even(s.refs[x], s.plain[x])
  }

  predicate Even(r: RefString, plain: nat) {
    0 < r.refCount == |r.user| + plain
  }

  ghost predicate Sound(s: State) {
    Balanced(s) && Interned(s.refs)
  }

  // ---------------------------------------------------------------- which calls keep the balance

  /** The call counts every user that it names: where it adds users it adds one, and it ends one at most of each string. */
  ghost predicate Counted(s: State, call: Call) {
    match call
    case Get(_, user, x) => |user| <= 1 || (x in s.refs && !(user !! s.refs[x].user))
    case AddRef(_) => true
    case AddUser(x, user) => |user| == 1 || (x in s.refs && !(user !! s.refs[x].user))
    case RemoveRef(_) => true
    case Transfer(x, user) => |user| == 1 || (x in s.refs && !(user !! s.refs[x].user))
    case Shutdown(user) => forall x :: x in s.refs ==> |user * s.refs[x].user| <= 1
  }

  /** Adding users counts one reference for all of them. */
  lemma UserCounts(r: RefString, user: Mask, plain: nat)
    requires Even(r, plain)
    ensures Even(WithUser(r, user), plain) <==> |user| == 1 || !(user !! r.user)
    ensures Even(WithUser(r, user), plain + 1) <==> user == {}
  {
    if user !! r.user {
      assert |r.user + user| == |r.user| + |user|;
      assert |user| == 0 <==> user == {};
    } else {
      assert user != {};
    }
  }

  /** A plain reference handed to several users at once counts for all of them. */
  lemma TransferCounts(r: RefString, user: Mask, plain: nat)
    requires Even(r, plain) && plain > 0
    ensures Even(Transferred(r, user), plain - 1) <==> |user| == 1 || !(user !! r.user)
  {
    if user !! r.user {
      assert |r.user + user| == |r.user| + |user|;
    } else {
      var u :| u in user && u in r.user;
      assert |r.user| > 0;
    }
  }

  /** A new string has one reference whatever users it is for. */
  lemma NewCounts(user: Mask, str: seq<byte>)
    ensures Even(RefString(1, user, str), if user == {} then 1 else 0) <==> |user| <= 1
  {
    assert |user| == 0 <==> user == {};
  }

  /** Ending several users of one string drops one reference for all of them. */
  lemma EndCounts(r: RefString, user: Mask, plain: nat)
    requires Even(r, plain) && !(user !! r.user)
    ensures r.refCount == 1 ==> |user * r.user| == 1
    ensures r.refCount > 1 ==> (Even(r.(user := r.user - user, refCount := r.refCount - 1), plain) <==> |user * r.user| == 1)
  {
    assert r.user == (r.user - user) + (user * r.user);
    assert (r.user - user) !! (user * r.user);
    var u :| u in user && u in r.user;
    assert u in user * r.user;
    assert |r.user| == |r.user - user| + |user * r.user|;
  }

  /** The balance after one string has changed is that of this string. */
  lemma OneChanged(s: State, t: State, x: nat)
    requires Balanced(s) && x in t.refs && x in t.plain
    requires t.refs == s.refs[x := t.refs[x]] && t.plain == s.plain[x := t.plain[x]]
    ensures Balanced(t) <==> Even(t.refs[x], t.plain[x])
  {
    forall y | y in t.refs && y != x
      ensures Even(t.refs[y], t.plain[y])
    {
      assert Even(s.refs[y], s.plain[y]);
    }
  }

  /** A call keeps the balance exactly if it counts every user that it names. */
  lemma BalanceKeptIff(s: State, call: Call)
    requires Balanced(s) && Possible(s, call)
    ensures Balanced(After(s, call)) <==> Counted(s, call)
  {
    hide Even, Balanced, Known, Hit, WithUser, Transferred;
    var t := After(s, call);
    match call
    case Get(str, user, x) => GetBalance(s, str, user, x);
    case AddRef(x) => AddRefBalance(s, x);
    case AddUser(x, user) =>
      Held(s, x);
      UserCounts(s.refs[x], user, s.plain[x]);
      assert t.plain == s.plain[x := s.plain[x]];
      OneChanged(s, t, x);
    case RemoveRef(x) => RemoveRefBalance(s, x);
    case Transfer(x, user) =>
      Held(s, x);
      TransferCounts(s.refs[x], user, s.plain[x]);
      OneChanged(s, t, x);
    case Shutdown(user) => ShutdownBalance(s, user);
  }

  lemma Held(s: State, x: nat)
    requires Balanced(s) && x in s.refs
    ensures x in s.plain && Even(s.refs[x], s.plain[x])
  {}

  lemma GetBalance(s: State, str: seq<byte>, user: Mask, x: nat)
    requires Balanced(s) && Possible(s, Get(str, user, x))
    ensures Balanced(After(s, Get(str, user, x))) <==> Counted(s, Get(str, user, x))
  {
    hide Even, Balanced, Known, Hit, WithUser;
    var t := After(s, Get(str, user, x));
    OneChanged(s, t, x);
    assert |user| == 0 <==> user == {};
    if x in s.refs {
      Held(s, x);
      UserCounts(s.refs[x], user, s.plain[x]);
    } else {
      NewCounts(user, str);
    }
  }

  lemma AddRefBalance(s: State, x: nat)
    requires Balanced(s) && Possible(s, AddRef(x))
    ensures Balanced(After(s, AddRef(x)))
  {
    Held(s, x);
    OneChanged(s, After(s, AddRef(x)), x);
  }

  lemma RemoveRefBalance(s: State, x: nat)
    requires Balanced(s) && Possible(s, RemoveRef(x))
    ensures Balanced(After(s, RemoveRef(x)))
  {
    Held(s, x);
    if x in After(s, RemoveRef(x)).refs {
      OneChanged(s, After(s, RemoveRef(x)), x);
    }
  }

  lemma ShutdownBalance(s: State, user: Mask)
    requires Balanced(s) && Possible(s, Shutdown(user))
    ensures Balanced(After(s, Shutdown(user))) <==> Counted(s, Shutdown(user))
  {
    hide Even;
    var t := After(s, Shutdown(user));
    assert t.plain.Keys == t.refs.Keys;
    forall x | x in s.refs
      ensures x in t.refs ==> (Even(t.refs[x], t.plain[x]) <==> |user * s.refs[x].user| <= 1)
      ensures x !in t.refs ==> |user * s.refs[x].user| <= 1
    {
      Held(s, x);
      EndedCount(s.refs[x], user, s.plain[x]);
    }
  }

  lemma EndedCount(r: RefString, user: Mask, plain: nat)
    requires Even(r, plain)
    ensures user !! r.user ==> |user * r.user| == 0
    ensures !(user !! r.user) && r.refCount == 1 ==> |user * r.user| <= 1
    ensures !(user !! r.user) && r.refCount > 1 ==>
      (Even(r.(user := r.user - user, refCount := r.refCount - 1), plain) <==> |user * r.user| <= 1)
    ensures r.refCount > 0
  {
    if user !! r.user {
      assert user * r.user == {};
    } else {
      EndCounts(r, user, plain);
      var u :| u in user && u in r.user;
      assert u in user * r.user;
    }
  }

  /** Two users in one call: getting a new string, adding them, handing them a reference, and ending them lose the balance. */
  lemma TwoUsersLoseBalance()
    ensures var two: Mask := {0, 1};
      var none, plain, both := State(map[], map[]), State(map[4 := RefString(1, {}, [0])], map[4 := 1]), State(map[4 := RefString(2, two, [0])], map[4 := 0]);
      && Balanced(none) && Possible(none, Get([0], two, 4)) && !Balanced(After(none, Get([0], two, 4)))
      && Balanced(plain) && Possible(plain, AddUser(4, two)) && !Balanced(After(plain, AddUser(4, two)))
      && Possible(plain, Transfer(4, two)) && !Balanced(After(plain, Transfer(4, two)))
      && Balanced(both) && Possible(both, Shutdown(two)) && !Balanced(After(both, Shutdown(two)))
  {
    hide After;
    var two: Mask := {0, 1};
    var none, plain := State(map[], map[]), State(map[4 := RefString(1, {}, [0])], map[4 := 1]);
    assert |two| == 2 && |two * two| == 2 by { assert two * two == two; }
    assert !Known(none.refs, [0]);
    BalanceKeptIff(none, Get([0], two, 4));
    BalanceKeptIff(plain, AddUser(4, two));
    BalanceKeptIff(plain, Transfer(4, two));
    EndingTwo(two);
  }

  lemma EndingTwo(two: Mask)
    requires two == {0, 1}
    ensures var both := State(map[4 := RefString(2, two, [0])], map[4 := 0]);
      Balanced(both) && Possible(both, Shutdown(two)) && !Balanced(After(both, Shutdown(two)))
  {
    hide After;
    var both := State(map[4 := RefString(2, two, [0])], map[4 := 0]);
    assert |two| == 2 && |two * two| == 2 by { assert two * two == two; }
    WhatIsRecoverable([0]);
    assert both.refs[4].user == two;
    BalanceKeptIff(both, Shutdown(two));
  }

  // ---------------------------------------------------------------- runs

  /** No call makes two equal short strings, whatever bytes they have. */
  lemma CallKeepsStrings(s: State, call: Call)
    requires Sound(s) && Possible(s, call)
    ensures Interned(After(s, call).refs)
  {
    hide Interned, Balanced, Known;
    var after := After(s, call).refs;
    if call.Get? && call.x !in s.refs {
      NewKeepsStrings(s.refs, call.str, call.user, call.x);
    } else {
      CallKeepsBytes(s, call);
      SameStrings(s.refs, after);
    }
  }

  lemma CallKeepsBytes(s: State, call: Call)
    requires Possible(s, call) && !(call.Get? && call.x !in s.refs)
    ensures var after := After(s, call).refs; after.Keys <= s.refs.Keys && forall x :: x in after ==> after[x].bytes == s.refs[x].bytes
  {
    hide Hit, Known, Recoverable;
  }

  /** Fewer strings, or the same with other counts. */
  lemma SameStrings(refs: Store, after: Store)
    requires Interned(refs) && after.Keys <= refs.Keys && forall x :: x in after ==> after[x].bytes == refs[x].bytes
    ensures Interned(after)
  {}

  /** A string that was not found. */
  lemma NewKeepsStrings(refs: Store, str: seq<byte>, user: Mask, x: nat)
    requires Interned(refs) && !Known(refs, str) && x !in refs
    ensures Interned(refs[x := RefString(1, user, str)])
  {
    hide Hit;
    forall y | y in refs && |str| < 256
      ensures refs[y].bytes != str
    {
      HitIsEquality(refs, str, y);
    }
  }

  ghost predicate AllowedRun(s: State, calls: seq<Call>)
    decreases |calls|
  {
    calls != [] ==> Possible(s, calls[0]) && Counted(s, calls[0]) && AllowedRun(After(s, calls[0]), calls[1..])
  }

  ghost function RunOf(s: State, calls: seq<Call>): State
    requires AllowedRun(s, calls)
    decreases |calls|
  {
    if calls == [] then s else RunOf(After(s, calls[0]), calls[1..])
  }

  /** Whatever calls are made, for whatever bytes, the counts balance and equal short strings share one number. */
  lemma {:induction false} RunsStaySound(s: State, calls: seq<Call>)
    requires Sound(s) && AllowedRun(s, calls)
    ensures Sound(RunOf(s, calls))
    decreases |calls|
  {
    hide Balanced, Interned, Counted, Possible, After;
    if calls != [] {
      BalanceKeptIff(s, calls[0]);
      CallKeepsStrings(s, calls[0]);
      RunsStaySound(After(s, calls[0]), calls[1..]);
    }
  }

  /** From the empty table on, every run stays sound. */
  lemma RunsFromEmpty(calls: seq<Call>)
    requires AllowedRun(State(map[], map[]), calls)
    ensures Sound(RunOf(State(map[], map[]), calls))
  {
    RunsStaySound(State(map[], map[]), calls);
  }

  /** A string goes only when it has neither users nor plain references left. */
  lemma GoneMeansUnheld(s: State, call: Call, x: nat)
    requires Balanced(s) && Possible(s, call) && x in s.refs && x !in After(s, call).refs
    ensures match call
      case RemoveRef(_) => s.refs[x].user == {} && s.plain[x] == 1
      case Shutdown(user) => s.refs[x].user <= user && s.plain[x] == 0
      case _ => false
  {
    hide Hit, Known;
    Held(s, x);
    if call.Shutdown? {
      var r := s.refs[x].user;
      var u :| u in call.user && u in r;
      assert |r - {u}| == |r| - 1 == 0;
      assert r == {u};
    }
  }

  /** After users have ended no string has them. */
  lemma ShutdownEndsUser(s: State, user: Mask, x: nat)
    requires Possible(s, Shutdown(user)) && x in After(s, Shutdown(user)).refs
    ensures user !! After(s, Shutdown(user)).refs[x].user
  {}

  // ---------------------------------------------------------------- who has a string

  /** User `u` has string `x`. */
  ghost predicate Has(refs: Store, x: nat, u: nat) {
    x in refs && u in refs[x].user
  }

  ghost function Users(refs: Store, x: nat): Mask {
    if x in refs then refs[x].user else {}
  }

  /** The users that the call names for string `x`. */
  function Named(call: Call, x: nat): Mask {
    match call
    case Get(_, user, y) => if y == x then user else {}
    case AddUser(y, user) => if y == x then user else {}
    case Transfer(y, user) => if y == x then user else {}
    case _ => {}
  }

  predicate Ends(call: Call, u: nat) {
    call.Shutdown? && u in call.user
  }

  /** Exactly who has string `x` after a call: users are added only if none of those named had it. */
  lemma UsersAfter(s: State, call: Call, x: nat, u: nat)
    requires Balanced(s) && Possible(s, call)
    ensures Has(After(s, call).refs, x, u) <==>
      (Has(s.refs, x, u) && !Ends(call, u)) || (u in Named(call, x) && Named(call, x) !! Users(s.refs, x))
  {
    hide Hit, Known, Balanced, Recoverable;
    if x in s.refs && x !in After(s, call).refs {
      GoneMeansUnheld(s, call, x);
    }
  }

  /** The call names users for a string that has all of them or none. */
  ghost predicate Whole(s: State, call: Call) {
    forall x :: x in s.refs ==> Named(call, x) !! s.refs[x].user || Named(call, x) <= s.refs[x].user
  }

  /** A call gives the string it names to all users it names exactly if the string had all of them or none; other users are not touched. */
  lemma UsersGivenIff(s: State, call: Call)
    requires Balanced(s) && Possible(s, call) && !call.Shutdown?
    ensures (forall x, u :: Has(After(s, call).refs, x, u) <==> Has(s.refs, x, u) || u in Named(call, x)) <==> Whole(s, call)
  {
    hide Possible, Balanced, After;
    if Whole(s, call) {
      forall x, u
        ensures Has(After(s, call).refs, x, u) <==> Has(s.refs, x, u) || u in Named(call, x)
      {
        UsersAfter(s, call, x, u);
      }
    } else {
      var x :| x in s.refs && !(Named(call, x) !! s.refs[x].user) && !(Named(call, x) <= s.refs[x].user);
      var u :| u in Named(call, x) && u !in s.refs[x].user;
      UsersAfter(s, call, x, u);
    }
  }

  /** Calls that name one user at most are whole. */
  lemma OneUserIsWhole(s: State, call: Call)
    requires forall x :: |Named(call, x)| <= 1
    ensures Whole(s, call)
  {
    forall x | x in s.refs && !(Named(call, x) !! s.refs[x].user)
      ensures Named(call, x) <= s.refs[x].user
    {
      var u :| u in Named(call, x) && u in s.refs[x].user;
      assert |Named(call, x) - {u}| == 0;
    }
  }

  /** Adding users 0 and 1 to a string that user 0 has does not give it to user 1. */
  lemma PartlyHeldIsNotGiven()
    ensures var s := State(map[4 := RefString(1, {0}, [0])], map[4 := 0]);
      Balanced(s) && Possible(s, AddUser(4, {0, 1})) && !Has(After(s, AddUser(4, {0, 1})).refs, 4, 1)
  {
    var s := State(map[4 := RefString(1, {0}, [0])], map[4 := 0]);
    assert 0 in s.refs[4].user && 0 in {0, 1};
  }

  /** Every call of the run is whole. */
  ghost predicate WholeRun(s: State, calls: seq<Call>)
    requires AllowedRun(s, calls)
    decreases |calls|
  {
    calls != [] ==> Whole(s, calls[0]) && WholeRun(After(s, calls[0]), calls[1..])
  }

  /** The last call of the run that names `u` for `x` or ends `u` names it; without such a call nothing has changed. */
  ghost predicate Kept(calls: seq<Call>, x: nat, u: nat, had: bool) {
    || (had && forall j :: 0 <= j < |calls| ==> !Ends(calls[j], u))
    || exists i :: 0 <= i < |calls| && u in Named(calls[i], x) && forall j :: i < j < |calls| ==> !Ends(calls[j], u)
  }

  lemma KeptStep(calls: seq<Call>, x: nat, u: nat, had: bool)
    requires calls != []
    ensures Kept(calls, x, u, had) <==> Kept(calls[1..], x, u, (had && !Ends(calls[0], u)) || u in Named(calls[0], x))
  {
    var rest := calls[1..];
    assert forall j :: 0 <= j < |rest| ==> rest[j] == calls[j + 1];
    assert forall j :: 0 < j < |calls| ==> calls[j] == rest[j - 1];
    if i :| 0 < i < |calls| && u in Named(calls[i], x) && forall j :: i < j < |calls| ==> !Ends(calls[j], u) {
      assert u in Named(rest[i - 1], x);
    }
  }

  /**
   Over every run a user has a string exactly if some call has named the user for it, and none has
   ended the user since; strings may go and their numbers be used again in between.
   */
  lemma {:induction false} RunsNameUsers(s: State, calls: seq<Call>, x: nat, u: nat)
    requires Balanced(s) && AllowedRun(s, calls) && WholeRun(s, calls)
    ensures Has(RunOf(s, calls).refs, x, u) <==> Kept(calls, x, u, Has(s.refs, x, u))
    decreases |calls|
  {
    hide Balanced, Counted, Possible, After, Kept;
    if calls == [] {
      NoCalls(x, u, Has(s.refs, x, u));
    } else {
      BalanceKeptIff(s, calls[0]);
      UsersAfter(s, calls[0], x, u);
      KeptStep(calls, x, u, Has(s.refs, x, u));
      RunsNameUsers(After(s, calls[0]), calls[1..], x, u);
    }
  }

  lemma NoCalls(x: nat, u: nat, had: bool)
    ensures Kept([], x, u, had) <==> had
  {}

  // ---------------------------------------------------------------- what a get returns

  /** The string returned is the one asked for, in every case, exactly if no long string is taken for it. */
  lemma GetIsRight(s: State, str: seq<byte>, user: Mask)
    requires forall y :: Hit(s.refs, str, y) ==> HasRoom(s.refs[y], user)
    ensures (forall x :: Possible(s, Get(str, user, x)) ==> After(s, Get(str, user, x)).refs[x].bytes == str) <==> NoAlias(s.refs, str)
  {
    hide Hit, Alias;
    if NoAlias(s.refs, str) {
      forall x | Possible(s, Get(str, user, x))
        ensures After(s, Get(str, user, x)).refs[x].bytes == str
      {
        HitIsEquality(s.refs, str, x);
      }
    } else {
      var x :| Alias(s.refs, str, x);
      AliasIsLonger(s.refs, str, x);
      HitIsEquality(s.refs, str, x);
      assert Known(s.refs, str);
      assert Possible(s, Get(str, user, x));
    }
  }

  lemma AliasIsLonger(refs: Store, str: seq<byte>, x: nat)
    requires Alias(refs, str, x)
    ensures x in refs && refs[x].bytes != str
  {}

  /** Asking again for a string that none is taken for gives the same number if it is shorter than 256, and never otherwise. */
  lemma GetIsByValue(s: State, str: seq<byte>, user: Mask, x: nat, y: nat)
    requires Sound(s) && Possible(s, Get(str, user, x)) && NoAlias(s.refs, str)
    ensures Hit(After(s, Get(str, user, x)).refs, str, y) <==> y == x && |str| < 256
  {
    var after := After(s, Get(str, user, x));
    CallKeepsStrings(s, Get(str, user, x));
    HitIsEquality(after.refs, str, y);
    HitIsEquality(after.refs, str, x);
    HitIsEquality(s.refs, str, x);
    if Alias(after.refs, str, y) {
      assert y != x ==> Alias(s.refs, str, y);
      assert y == x && x in s.refs ==> Alias(s.refs, str, y);
    }
  }

  /** A string of 257 bytes that begins with 64 is returned for the string of the one byte 64. */
  lemma LongIsTakenForShort()
    ensures var long: seq<byte> := seq(257, i => 64);
      var s := State(map[4 := RefString(1, {}, long)], map[4 := 1]);
      Sound(s) && Possible(s, Get([64], {}, 4)) && After(s, Get([64], {}, 4)).refs[4].bytes != [64]
  {
    var long: seq<byte> := seq(257, i => 64);
    var s := State(map[4 := RefString(1, {}, long)], map[4 := 1]);
    assert Polynomial([64]) == 64 by { assert Polynomial([]) == 0; }
    assert HashOf(long) == HashOf([64]);
    assert Hit(s.refs, [64], 4);
  }

  /** A string of 256 bytes, the last of them zero, is stored twice. */
  lemma LongIsStoredTwice()
    ensures var long: seq<byte> := seq(256, i => if i == 255 then 0 else 65);
      var s := State(map[], map[]);
      && CString(long) && Possible(s, Get(long, {}, 4))
      && var t := After(s, Get(long, {}, 4));
        Possible(t, Get(long, {}, 24)) && After(t, Get(long, {}, 24)).refs == map[4 := RefString(1, {}, long), 24 := RefString(1, {}, long)]
  {
    var long: seq<byte> := seq(256, i => if i == 255 then 0 else 65);
    var s := State(map[], map[]);
    assert !Known(s.refs, long);
    var t := After(s, Get(long, {}, 4));
    forall x ensures !Hit(t.refs, long, x) { HitIsEquality(t.refs, long, x); }
    assert !Known(t.refs, long);
  }
}
