/** Interned strings as values: what a lookup matches, and the counts a string carries. */
module Strings {

  type byte = b: int | 0 <= b < 256

  /** A mask of users is the set of its bits. */
  type Mask = set<nat>

  datatype RefString = RefString(refCount: nat, user: Mask, bytes: seq<byte>) {
    /** The stored length has eight bits. */
    function ByteLen(): nat {
      |bytes| % 256
    }

    predicate Matches(str: seq<byte>) {
      ByteLen() == |str| && bytes[..|str|] == str
    }
  }

  type Store = map<nat, RefString>

  /** A byte as a signed char, widened to 32 bits. */
  function SignExtend(b: byte): nat {
    if b < 128 then b else 0x1_0000_0000 + b - 256
  }

  function Polynomial(s: seq<byte>): nat {
    if s == [] then 0 else (SignExtend(s[|s| - 1]) + 31 * Polynomial(s[..|s| - 1])) % 0x1_0000_0000
  }

  function HashOf(s: seq<byte>): (h: nat)
    ensures 0 < h < 32768
  {
    if |s| >= 256 then (|s| / 4) % 32767 + 1 else Polynomial(s) % 32767 + 1
  }

  /** A byte as a signed char. */
  function Signed(b: byte): int {
    if b < 128 then b else b - 256
  }

  function Power31(k: nat): nat {
    if k == 0 then 1 else 31 * Power31(k - 1)
  }

  /** Every character, as a signed one, times the power of 31 by how far it is from the end. */
  function Weighted(s: seq<byte>): int {
    if s == [] then 0 else Signed(s[0]) * Power31(|s| - 1) + Weighted(s[1..])
  }

  /** The hash of a short string is the weighted sum of its characters, in 32 bits. */
  lemma HashIsWeighted(s: seq<byte>)
    requires |s| < 256
    ensures HashOf(s) == (Weighted(s) % 0x1_0000_0000) % 32767 + 1
  {
    PolynomialIsWeighted(s);
  }

  lemma {:induction false} PolynomialIsWeighted(s: seq<byte>)
    ensures Polynomial(s) == Weighted(s) % 0x1_0000_0000
    decreases |s|
  {
    if s != [] {
      var front, last := s[..|s| - 1], s[|s| - 1];
      PolynomialIsWeighted(front);
      WeightedLast(s);
      hide Weighted, Signed, SignExtend;
      NextCharacter(Weighted(front), last);
    }
  }

  /** Wrapping around at 32 bits after each character is the same as at the end. */
  lemma NextCharacter(w: int, b: byte)
    ensures (SignExtend(b) + 31 * (w % 0x1_0000_0000)) % 0x1_0000_0000 == (31 * w + Signed(b)) % 0x1_0000_0000
  {
    var q := w / 0x1_0000_0000;
    var e := if b < 128 then 0 else 1;
    assert 31 * w + Signed(b) == (SignExtend(b) + 31 * (w % 0x1_0000_0000)) + 0x1_0000_0000 * (31 * q - e);
  }

  lemma {:induction false} WeightedLast(s: seq<byte>)
    requires s != []
    ensures Weighted(s) == 31 * Weighted(s[..|s| - 1]) + Signed(s[|s| - 1])
    decreases |s|
  {
    if |s| == 1 {
      assert Weighted(s[1..]) == 0;
    } else {
      var rest, front := s[1..], s[..|s| - 1];
      WeightedLast(rest);
      assert rest[..|rest| - 1] == front[1..];
      assert Signed(s[0]) * (31 * Power31(|s| - 2)) == 31 * (Signed(s[0]) * Power31(|s| - 2));
    }
  }

  /** Two strings of the same hash, and the hash of a character above 127. */
  lemma HashInstances()
    ensures HashOf([65, 97]) == HashOf([66, 66]) == 2113 && HashOf([255]) == (0x1_0000_0000 - 1) % 32767 + 1
  {
    hide HashOf, Polynomial;
    HashIsWeighted([65, 97]);
    HashIsWeighted([66, 66]);
    HashIsWeighted([255]);
    assert Weighted([97]) == 97 && Weighted([66]) == 66 && Weighted([255]) == -1;
    assert [65, 97][1..] == [97] && [66, 66][1..] == [66];
  }

  method GetHashCode(str: seq<byte>) returns (h: nat)
    ensures h == HashOf(str)
  {
    if |str| >= 256 {
      return (|str| / 4) % 32767 + 1;
    }
    var hash: nat := 0;
    for i := 0 to |str|
      invariant hash == Polynomial(str[..i])
    {
      assert str[..i + 1][..i] == str[..i];
      hash := (SignExtend(str[i]) + 31 * hash) % 0x1_0000_0000;
    }
    assert str[..|str|] == str;
    h := hash % 32767 + 1;
  }

  // ---------------------------------------------------------------- the length, found from the bytes

  /** Looked for from the end of the first 256 bytes on, in steps of 256, the first zero byte is the last byte. */
  predicate Recoverable(s: seq<byte>) {
    s != [] && s[|s| - 1] == 0 && forall i :: 0 <= i < |s| - 1 && i % 256 == (|s| - 1) % 256 ==> s[i] != 0
  }

  /** There is a zero byte where the search looks. */
  predicate Stops(s: seq<byte>) {
    exists i :: 0 <= i < |s| && i % 256 == (|s| + 255) % 256 && s[i] == 0
  }

  /** A zero byte at the end and nowhere else. */
  predicate CString(s: seq<byte>) {
    s != [] && s[|s| - 1] == 0 && forall i :: 0 <= i < |s| - 1 ==> s[i] != 0
  }

  /** The length of every C string can be recovered, and so can that of any short string that ends with a zero byte. */
  lemma WhatIsRecoverable(s: seq<byte>)
    ensures CString(s) ==> Recoverable(s)
    ensures 0 < |s| <= 256 ==> (Recoverable(s) <==> s[|s| - 1] == 0)
    ensures Recoverable(s) ==> Stops(s)
  {
    if Recoverable(s) {
      assert (|s| - 1) % 256 == (|s| + 255) % 256;
      assert s[|s| - 1] == 0;
    }
  }

  /** The places where the search looks are 256 apart. */
  lemma NextPlace(len: nat, i: nat, m: nat)
    requires len % 256 == m && i % 256 == m && len < i
    ensures len + 256 <= i && (len + 256) % 256 == m
    ensures forall j :: len < j < len + 256 ==> j % 256 != m
  {}

  /** The length of a stored string, found from the eight bits of its size: right exactly if it is recoverable. */
  method GetRefStringLen(r: RefString) returns (len: nat)
    requires Stops(r.bytes)
    ensures len < |r.bytes| && r.bytes[len] == 0
    ensures len == |r.bytes| - 1 <==> Recoverable(r.bytes)
  {
    ghost var i :| 0 <= i < |r.bytes| && i % 256 == (|r.bytes| + 255) % 256 && r.bytes[i] == 0;
    if r.ByteLen() == 0 {
      len := 256 - 1;
    } else {
      len := r.ByteLen() - 1;
    }
    while r.bytes[len] != 0
      invariant len <= i && len % 256 == (|r.bytes| + 255) % 256
      invariant forall j :: 0 <= j < len && j % 256 == (|r.bytes| + 255) % 256 ==> r.bytes[j] != 0
      decreases |r.bytes| - len
    {
      NextPlace(len, i, (|r.bytes| + 255) % 256);
      len := len + 256;
    }
    assert (|r.bytes| - 1) % 256 == (|r.bytes| + 255) % 256;
  }

  // ---------------------------------------------------------------- what a lookup matches

  /** A stored string matches an equal one if that is shorter than 256; a longer one matches its beginning instead. */
  lemma MatchIsEquality(r: RefString, str: seq<byte>)
    ensures |r.bytes| < 256 ==> (r.Matches(str) <==> r.bytes == str)
    ensures |r.bytes| >= 256 ==> (r.Matches(str) <==> str == r.bytes[..|r.bytes| % 256])
    ensures r.Matches(str) ==> |str| < 256
  {
    if |r.bytes| < 256 && |r.bytes| == |str| {
      assert r.bytes[..|str|] == r.bytes;
    }
  }

  /** For C strings a lookup matches exactly the equal strings of size below 256. */
  lemma MatchOfCStrings(r: RefString, str: seq<byte>)
    requires CString(r.bytes) && CString(str)
    ensures r.Matches(str) <==> r.bytes == str && |str| < 256
  {
    MatchIsEquality(r, str);
    if r.Matches(str) {
      assert r.bytes[|str| - 1] == r.bytes[..|str|][|str| - 1];
    }
  }

  // ---------------------------------------------------------------- reference counts

  function WithUser(r: RefString, user: Mask): RefString {
    if user !! r.user then r.(user := r.user + user, refCount := r.refCount + 1) else r
  }

  function Transferred(r: RefString, user: Mask): RefString
    requires r.refCount > 0
  {
    if user !! r.user then r.(user := r.user + user) else r.(refCount := r.refCount - 1)
  }

  /** Dropping one reference; the last one drops the string. */
  function Dropped(refs: Store, x: nat): Store
    requires x in refs && refs[x].refCount > 0
  {
    if refs[x].refCount > 1 then refs[x := refs[x].(refCount := refs[x].refCount - 1)] else refs - {x}
  }

  // ---------------------------------------------------------------- the table seen from outside

  /** The string that a lookup of `str` finds: one of the same bucket that matches. */
  ghost predicate Hit(refs: Store, str: seq<byte>, x: nat) {
    x in refs && HashOf(refs[x].bytes) == HashOf(str) && refs[x].Matches(str)
  }

  ghost predicate Known(refs: Store, str: seq<byte>) {
    exists x :: Hit(refs, str, x)
  }

  /** No two strings of size below 256 are equal. */
  ghost predicate Interned(refs: Store) {
    forall x, y :: x in refs && y in refs && x != y && |refs[x].bytes| < 256 ==> refs[x].bytes != refs[y].bytes
  }

  /** A string of size 256 or more that a lookup takes for the short string `str`. */
  ghost predicate Alias(refs: Store, str: seq<byte>, x: nat) {
    && x in refs && |refs[x].bytes| >= 256 && HashOf(refs[x].bytes) == HashOf(str)
    && str == refs[x].bytes[..|refs[x].bytes| % 256]
  }

  ghost predicate NoAlias(refs: Store, str: seq<byte>) {
    forall x :: !Alias(refs, str, x)
  }

  /** A lookup finds the equal string if that is shorter than 256, and besides it only longer strings that are taken for it. */
  lemma HitIsEquality(refs: Store, str: seq<byte>, x: nat)
    ensures Hit(refs, str, x) <==> Alias(refs, str, x) || (x in refs && refs[x].bytes == str && |str| < 256)
  {
    if x in refs {
      MatchIsEquality(refs[x], str);
    }
  }

  /** A C string is never taken for another. */
  lemma CStringsHaveNoAlias(refs: Store, str: seq<byte>, x: nat)
    requires CString(str) && x in refs && CString(refs[x].bytes)
    ensures !Alias(refs, str, x)
  {
    HitIsEquality(refs, str, x);
    MatchOfCStrings(refs[x], str);
  }

  // ---------------------------------------------------------------- the calls

  datatype Call =
    | Get(str: seq<byte>, user: Mask, x: nat)
    | AddRef(x: nat)
    | AddUser(x: nat, user: Mask)
    | RemoveRef(x: nat)
    | Transfer(x: nat, user: Mask)
    | Shutdown(user: Mask)

  /** The greatest reference count of 16 bits. */
  const MAX_COUNT: nat := 0xFFFF

  /** The count has room for what adding the user counts. */
  predicate HasRoom(r: RefString, user: Mask) {
    user !! r.user ==> r.refCount < MAX_COUNT
  }

  /**
   The call can be made; a get returns a string that a lookup may find, or else a new one. Where a
   count goes up it has room.
   */
  ghost predicate Callable(refs: Store, call: Call) {
    match call
    case Get(str, user, x) => GetCallable(refs, str, user, x)
    case AddRef(x) => x in refs && refs[x].refCount < MAX_COUNT
    case AddUser(x, user) => x in refs && HasRoom(refs[x], user)
    case RemoveRef(x) => x in refs && refs[x].refCount > 0
    case Transfer(x, _) => x in refs && refs[x].refCount > 0
    case Shutdown(user) => user != {} && Endable(refs, user)
  }

  ghost predicate GetCallable(refs: Store, str: seq<byte>, user: Mask, x: nat) {
    if Known(refs, str) then Hit(refs, str, x) && HasRoom(refs[x], user) else x !in refs
  }

  /** Every string of the user can lose a reference, and its length can be found. */
  ghost predicate Endable(refs: Store, user: Mask) {
    forall x :: x in refs && !(user !! refs[x].user) ==> refs[x].refCount > 0 && Recoverable(refs[x].bytes)
  }

  /** What is left once a user has ended. */
  ghost function ShutDown(refs: Store, user: Mask): Store {
    map x | x in refs && (user !! refs[x].user || refs[x].refCount > 1) ::
      if user !! refs[x].user then refs[x] else refs[x].(user := refs[x].user - user, refCount := refs[x].refCount - 1)
  }

  /** The strings after a call. */
  ghost function Called(refs: Store, call: Call): Store
    requires Callable(refs, call)
  {
    match call
    case Get(str, user, x) => if x in refs then refs[x := WithUser(refs[x], user)] else refs[x := RefString(1, user, str)]
    case AddRef(x) => refs[x := refs[x].(refCount := refs[x].refCount + 1)]
    case AddUser(x, user) => refs[x := WithUser(refs[x], user)]
    case RemoveRef(x) => Dropped(refs, x)
    case Transfer(x, user) => refs[x := Transferred(refs[x], user)]
    case Shutdown(user) => ShutDown(refs, user)
  }
}
