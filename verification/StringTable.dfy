/** The script string table: interned, reference-counted strings over the bucket table and the allocator. */
module StringTable {
  import opened Strings
  import opened Rings
  import opened BucketRings
  import opened BT = BucketTable
  import opened Buddy
  import opened BitTables
  import opened FreeTree
  import opened MT = MemoryTree

  class StringTable {
    const table: BT.BucketTable
    const mt: MT.MemoryTree
    /** The strings in allocator memory, by block number. */
    var refs: Store
    /** The slot another string has moved into, or 0. */
    var nextFreeEntry: nat

    ghost predicate Separate() {
      table.Repr() !! mt.Repr() && (this as object) !in table.Repr() && (this as object) !in mt.Repr()
    }

    ghost predicate Valid()
      reads this, table, table.status, table.next, table.link
      reads mt, mt.tables.leftBits, mt.tables.numBits, mt.tables.logBits, mt.nodes, mt.head, mt.usage, mt.usageSize
    {
      && Separate() && table.Valid() && mt.Valid()
      && table.bucket == Buckets(refs)
      && Backed(refs, mt.Live())
    }

    constructor ()
      ensures Valid() && refs == map[]
    {
      hide Stores, Backed, MT.MemoryTree.Valid, MT.MemoryTree.Laid, BT.BucketTable.Valid, Buckets;
      table := new BT.BucketTable();
      mt := new MT.MemoryTree();
      refs, nextFreeEntry := map[], 0;
      new;
      NoStrings();
      mt.Init();
    }

    /**
     Walks the ring of bucket `hash` for a match of `str`. `index` is the slot found, at
     position `k` of the ring, and `prev` the slot before it.
     */
    method Search(hash: nat, str: seq<byte>) returns (found: bool, prev: nat, index: nat, ghost k: nat)
      requires Valid() && hash == HashOf(str) && table.status[hash] == Head
      ensures hash in table.shape.rings
      ensures found ==>
        && k < |table.shape.rings[hash]| && index == table.shape.rings[hash][k] && index < TABLE_SIZE
        && (if k == 0 then index == hash else prev == table.shape.rings[hash][k - 1])
        && Hit(refs, str, table.link[index])
      ensures !found ==> !Known(refs, str)
    {
      hide Stores, Backed, MT.MemoryTree.Valid, HashOf, RefString.Matches;
      ghost var t, g := table.Snap(), table.shape;
      HeadSlot(t, g, refs, hash);
      RingSlot(t, g, refs, hash, 0);
      if refs[table.link[hash]].Matches(str) {
        return true, hash, hash, 0;
      }
      prev := hash;
      index := table.next[hash];
      k := 1;
      while index != hash
        invariant 0 < k <= |g.rings[hash]| && index == Turn(g.rings[hash], k) && prev == g.rings[hash][k - 1]
        invariant index != hash <==> k < |g.rings[hash]|
        invariant Unmatched(t, g, refs, hash, str, k)
        decreases |g.rings[hash]| - k
      {
        RingSlot(t, g, refs, hash, k);
        if refs[table.link[index]].Matches(str) {
          return true, prev, index, k;
        }
        prev := index;
        index := table.next[index];
        k := k + 1;
      }
      NothingMatches(t, g, refs, hash, str);
      return false, prev, index, k;
    }

    /** The string of bucket `hash` at ring position `k` comes to the front; position 0 is there already. */
    method BringToFront(hash: nat, prev: nat, index: nat, ghost k: nat) returns (x: nat)
      requires Valid() && hash in table.shape.rings && k < |table.shape.rings[hash]| && index == table.shape.rings[hash][k]
      requires hash < TABLE_SIZE && index < TABLE_SIZE && (if k == 0 then index == hash else prev == table.shape.rings[hash][k - 1])
      modifies table.Repr()
      ensures Valid() && x == old(table.link[index]) && table.link[hash] == x
    {
      hide Stores, Backed, HashOf, RefString.Matches, Buckets, MT.MemoryTree.TreesHold, Sound;
      ghost var g := table.shape;
      StartOfRing(table.Snap(), table.shape, refs, hash, k);
      if index != hash {
        table.MoveToFront(hash, prev, index, k);
      }
      x := table.link[hash];
    }

    /** The string equal to `str`, if one is found: it is first in its bucket then. Its reference count is left alone. */
    method FindStringOfSize(str: seq<byte>) returns (x: nat)
      requires Valid()
      modifies table.Repr()
      ensures Valid()
      ensures x == 0 <==> !Known(refs, str)
      ensures x != 0 ==> Hit(refs, str, x) && table.link[HashOf(str)] == x
    {
      hide Stores, Backed, HashOf, RefString.Matches, Buckets, MT.MemoryTree.TreesHold, Sound;
      var hash := GetHashCode(str);
      if table.status[hash] != Head {
        EmptyBucket(table.Snap(), table.shape, refs, hash, str);
        return 0;
      }
      var found, prev, index, k := Search(hash, str);
      if !found {
        return 0;
      }
      x := BringToFront(hash, prev, index, k);
      HitIsKnown(refs, mt.Live(), str, x);
    }

    /** The block number of an interned string, with one more user; 0 when there is no room. */
    method GetStringOfSize(str: seq<byte>, user: Mask, kind: int) returns (x: nat)
      requires Valid() && kind != 0
      requires forall y :: Hit(refs, str, y) ==> HasRoom(refs[y], user)
      modifies this`refs, table.Repr(), mt.Repr()
      ensures Valid()
      ensures x != 0 ==> Callable(old(refs), Call.Get(str, user, x)) && refs == Called(old(refs), Call.Get(str, user, x))
      ensures x == 0 ==> refs == old(refs)
      ensures x != 0 && x !in old(refs) ==> x < mt.usage.Length && mt.usage[x] == kind
      ensures x == 0 <==> !old(Known(refs, str)) && !(old(table.HasRoom()) && old(MemoryFor(str)))
    {
      hide Stores, Backed, HashOf, RefString.Matches, Buckets, MT.MemoryTree.TreesHold, Sound, Known, Hit, Servable, SizeClass;
      var hash := GetHashCode(str);
      var found, prev, index := false, 0, 0;
      ghost var k := 0;
      if table.status[hash] == Head {
        found, prev, index, k := Search(hash, str);
      } else {
        EmptyBucket(table.Snap(), table.shape, refs, hash, str);
      }
      if found {
        x := BringToFront(hash, prev, index, k);
        HitIsKnown(refs, mt.Live(), str, x);
        KeptBytes(refs, mt.Live(), x, WithUser(refs[x], user));
        refs := refs[x := WithUser(refs[x], user)];
        return;
      }
      x := AddString(hash, str, user, kind);
    }

    /** Some block can hold a string. */
    ghost predicate MemoryFor(str: seq<byte>)
      requires mt.usage.Length == NODE_COUNT && mt.usageSize.Length == NODE_COUNT
      reads mt, mt.usage, mt.usageSize
    {
      |str| + 4 < NODE_COUNT && Servable(SizeClass(|str| + 4), mt.Live())
    }

    method AddString(hash: nat, str: seq<byte>, user: Mask, kind: int) returns (x: nat)
      requires Valid() && kind != 0 && hash == HashOf(str)
      modifies this`refs, table.Repr(), mt.Repr()
      ensures Valid()
      ensures x == 0 <==> !(old(table.HasRoom()) && old(MemoryFor(str)))
      ensures if x == 0 then refs == old(refs) else x !in old(refs) && refs == old(refs)[x := RefString(1, user, str)]
      ensures x != 0 ==> x < mt.usage.Length && mt.usage[x] == kind
    {
      hide Stores, Backed, HashOf, Buckets, MT.MemoryTree.Valid, MT.MemoryTree.Live, BT.BucketTable.Valid, Servable, SizeClass, FreeRun, BestFit;
      var room := table.RoomFor(hash);
      if !room {
        return 0;
      }
      ghost var live := mt.Live();
      var stringValue := mt.AllocIndex(|str| + 4, kind);
      if stringValue == 0 {
        return 0;
      }
      x := stringValue;
      AddedString(refs, live, x, str, user);
      table.Put(hash, x);
      refs := refs[x := RefString(1, user, str)];
    }

    method AddRefToString(x: nat)
      requires Valid() && Callable(refs, Call.AddRef(x))
      modifies this`refs
      ensures Valid() && refs == Called(old(refs), Call.AddRef(x))
    {
      hide Stores, Backed, Buckets, MT.MemoryTree.Valid;
      KeptBytes(refs, mt.Live(), x, refs[x].(refCount := refs[x].refCount + 1));
      refs := refs[x := refs[x].(refCount := refs[x].refCount + 1)];
    }

    method AddUser(x: nat, user: Mask)
      requires Valid() && Callable(refs, Call.AddUser(x, user))
      modifies this`refs
      ensures Valid() && refs == Called(old(refs), Call.AddUser(x, user))
    {
      hide Stores, Backed, Buckets, MT.MemoryTree.Valid;
      KeptBytes(refs, mt.Live(), x, WithUser(refs[x], user));
      if user !! refs[x].user {
        refs := refs[x := refs[x].(user := refs[x].user + user, refCount := refs[x].refCount + 1)];
      }
    }

    method TransferRefToUser(x: nat, user: Mask)
      requires Valid() && Callable(refs, Call.Transfer(x, user))
      modifies this`refs
      ensures Valid() && refs == Called(old(refs), Call.Transfer(x, user))
    {
      hide Stores, Backed, Buckets, MT.MemoryTree.Valid;
      KeptBytes(refs, mt.Live(), x, Transferred(refs[x], user));
      if user !! refs[x].user {
        refs := refs[x := refs[x].(user := refs[x].user + user)];
      } else {
        refs := refs[x := refs[x].(refCount := refs[x].refCount - 1)];
      }
    }

    /** The slot of every string. */
    ghost function Slot(): map<nat, nat>
      reads table
    {
      table.shape.at
    }

    /** Takes an unreferenced string out of the table and gives its block back. */
    method FreeString(x: nat, len: nat)
      requires Valid() && x in refs && len == |refs[x].bytes| && refs[x].refCount == 0
      modifies this, table.Repr(), mt.Repr()
      ensures Valid() && refs == old(refs) - {x}
      ensures Moved(old(Slot()), Slot(), refs, x, old(nextFreeEntry), nextFreeEntry)
    {
      hide Stores, Backed, HashOf, Buckets, MT.MemoryTree.Valid, BT.BucketTable.Valid, MT.MemoryTree.Live, SizeClass, RefString.Matches, Moved;
      var index := GetHashCode(refs[x].bytes);
      BlockOf(mt, refs, x);
      Forgotten(refs, mt.Live(), x);
      mt.FreeIndex(x, len + 4);
      RemoveEntry(x, index);
      refs := refs - {x};
    }

    method RemoveEntry(x: nat, index: nat)
      requires Separate() && table.Valid() && table.bucket == Buckets(refs) && x in refs && index == HashOf(refs[x].bytes)
      modifies this`nextFreeEntry, table.Repr()
      ensures table.Valid() && table.bucket == Buckets(refs) - {x}
      ensures Moved(old(Slot()), Slot(), refs - {x}, x, old(nextFreeEntry), nextFreeEntry)
    {
      hide Stores, HashOf;
      ItemsAndSlots(table.Snap(), table.shape, table.bucket);
      var promoted := table.TakeOut(index, x);
      if promoted {
        nextFreeEntry := index;
      }
      ItemsAndSlots(table.Snap(), table.shape, table.bucket);
    }

    /** Drops one reference; the last one drops the string. */
    method RemoveRefToStringOfSize(x: nat, len: nat)
      requires Valid() && Callable(refs, Call.RemoveRef(x)) && len == |refs[x].bytes|
      modifies this, table.Repr(), mt.Repr()
      ensures Valid() && refs == Called(old(refs), Call.RemoveRef(x))
      ensures if x in refs then Slot() == old(Slot()) && nextFreeEntry == old(nextFreeEntry)
              else Moved(old(Slot()), Slot(), refs, x, old(nextFreeEntry), nextFreeEntry)
    {
      hide Stores, Backed, HashOf, Buckets, MT.MemoryTree.Valid, BT.BucketTable.Valid, MT.MemoryTree.Live, SizeClass, RefString.Matches, Moved;
      KeptBytes(refs, mt.Live(), x, refs[x].(refCount := refs[x].refCount - 1));
      refs := refs[x := refs[x].(refCount := refs[x].refCount - 1)];
      if refs[x].refCount == 0 {
        KeptBytes(refs, mt.Live(), x, refs[x].(user := {}));
        refs := refs[x := refs[x].(user := {})];
        FreeString(x, len);
        assert refs == old(refs) - {x};
      }
    }

    /** The same with the size found from the string itself. */
    method RemoveRefToString(x: nat)
      requires Valid() && Callable(refs, Call.RemoveRef(x)) && Recoverable(refs[x].bytes)
      modifies this, table.Repr(), mt.Repr()
      ensures Valid() && refs == Called(old(refs), Call.RemoveRef(x))
      ensures if x in refs then Slot() == old(Slot()) && nextFreeEntry == old(nextFreeEntry)
              else Moved(old(Slot()), Slot(), refs, x, old(nextFreeEntry), nextFreeEntry)
    {
      hide Stores, Backed, HashOf, Buckets, MT.MemoryTree.Valid, BT.BucketTable.Valid, MT.MemoryTree.Live, SizeClass, RefString.Matches, Moved, Recoverable, Dropped;
      WhatIsRecoverable(refs[x].bytes);
      var len := GetRefStringLen(refs[x]);
      RemoveRefToStringOfSize(x, len + 1);
    }

    /** Ends a user: each of its strings loses the user's bits and one reference. */
    method ShutdownSystem(user: Mask)
      requires Valid() && Callable(refs, Call.Shutdown(user))
      modifies this, table.Repr(), mt.Repr()
      ensures Valid() && refs == Called(old(refs), Call.Shutdown(user))
    {
      hide Callable, Called, Stores, Backed, HashOf, Buckets, MT.MemoryTree.Valid, BT.BucketTable.Valid, MT.MemoryTree.Live, Endable, Ending, ShutDown, ClearedBelow;
      ghost var refs0 := refs;
      ShutdownSteps(refs0, user);
      SlotFacts(table.Snap(), table.shape, refs) by { TableStores(table, refs); }
      StartEnding(refs0, user, Slot());
      for hash: nat := 1 to TABLE_SIZE
        invariant Valid() && Ending(refs0, refs, user) && ClearedBelow(refs, Slot(), user, hash)
        invariant Endable(refs0, user)
      {
        ShutdownSlot(hash, user, refs0);
      }
      EndedAll(table.Snap(), table.shape, refs0, refs, user) by { TableStores(table, refs); }
    }

    /** Takes a user's bits and a reference from one string. */
    method DropUser(x: nat, user: Mask)
      requires Valid() && x in refs && refs[x].refCount > 0 && Recoverable(refs[x].bytes)
      modifies this, table.Repr(), mt.Repr()
      ensures Valid() && refs == Dropped(old(refs)[x := old(refs)[x].(user := old(refs)[x].user - user)], x)
      ensures if x in refs then Slot() == old(Slot()) && nextFreeEntry == 0 else Moved(old(Slot()), Slot(), refs, x, 0, nextFreeEntry)
    {
      hide Stores, Backed, HashOf, Buckets, MT.MemoryTree.Valid, BT.BucketTable.Valid, MT.MemoryTree.Live, Moved, Recoverable, Dropped;
      var cleared := refs[x].(user := refs[x].user - user);
      KeptBytes(refs, mt.Live(), x, cleared);
      refs := refs[x := cleared];
      nextFreeEntry := 0;
      RemoveRefToString(x);
    }

    /** Ends a user for the string in one slot. */
    method EndResident(hash: nat, user: Mask, ghost refs0: Store, x: nat)
      requires Valid() && 0 < hash < TABLE_SIZE && Endable(refs0, user) && x in refs && !(user !! refs[x].user)
      requires x in Slot() && Slot()[x] == hash && Ending(refs0, refs, user) && ClearedBelow(refs, Slot(), user, hash)
      modifies this, table.Repr(), mt.Repr()
      ensures Valid() && Ending(refs0, refs, user) && ClearedBelow(refs, Slot(), user, hash)
      ensures if nextFreeEntry == 0 then ClearedBelow(refs, Slot(), user, hash + 1) else |refs| < |old(refs)|
    {
      hide Stores, Backed, HashOf, Buckets, MT.MemoryTree.Valid, BT.BucketTable.Valid, MT.MemoryTree.Live, Endable, Ending, ClearedBelow, Moved, Recoverable, Dropped;
      SlotFacts(table.Snap(), table.shape, refs) by { TableStores(table, refs); }
      ghost var before, at := refs, Slot();
      EndOne(refs0, refs, user, x);
      DropUser(x, user);
      SlotFacts(table.Snap(), table.shape, refs) by { TableStores(table, refs); }
      EndedOne(refs0, before, refs, user, x, at, Slot(), hash, nextFreeEntry);
    }

    /** Ends a user for whatever string is, or moves, into one slot. */
    method ShutdownSlot(hash: nat, user: Mask, ghost refs0: Store)
      requires Valid() && user != {} && 0 < hash < TABLE_SIZE && Endable(refs0, user)
      requires Ending(refs0, refs, user) && ClearedBelow(refs, Slot(), user, hash)
      modifies this, table.Repr(), mt.Repr()
      ensures Valid() && Ending(refs0, refs, user) && ClearedBelow(refs, Slot(), user, hash + 1)
    {
      hide Stores, Backed, HashOf, Buckets, MT.MemoryTree.Valid, BT.BucketTable.Valid, MT.MemoryTree.Live, Endable, Ending, ClearedBelow, Moved, Recoverable, Dropped;
      TableStores(table, refs);
      while true
        invariant Valid() && Ending(refs0, refs, user) && ClearedBelow(refs, Slot(), user, hash)
        decreases |refs|
      {
        SlotFacts(table.Snap(), table.shape, refs) by { TableStores(table, refs); }
        if table.status[hash] == Free {
          SlotCleared(refs, Slot(), user, hash);
          return;
        }
        var x := table.link[hash];
        if user !! refs[x].user {
          SlotCleared(refs, Slot(), user, hash);
          return;
        }
        EndResident(hash, user, refs0, x);
        if nextFreeEntry == 0 {
          return;
        }
      }
    }
  }

  lemma ShutdownSteps(refs: Store, user: Mask)
    requires Callable(refs, Call.Shutdown(user))
    ensures user != {} && Endable(refs, user) && Called(refs, Call.Shutdown(user)) == ShutDown(refs, user)
  {}

  /** Every string is as it was, or has been ended. */
  ghost predicate Ending(refs0: Store, refs: Store, user: Mask) {
    && refs.Keys <= refs0.Keys
    && (forall x :: x in refs0 && !(user !! refs0[x].user) ==> refs0[x].refCount > 0)
    && (forall x :: x in refs0 && x !in refs ==> x !in ShutDown(refs0, user))
    && (forall x :: x in refs ==>
         refs[x] == refs0[x] || (x in ShutDown(refs0, user) && refs[x] == ShutDown(refs0, user)[x] && user !! refs[x].user))
  }

  ghost predicate ClearedBelow(refs: Store, at: map<nat, nat>, user: Mask, hash: nat) {
    forall y: nat :: y in refs && y in at && at[y] < hash ==> user !! refs[y].user
  }

  lemma StartEnding(refs: Store, user: Mask, at: map<nat, nat>)
    requires Endable(refs, user)
    requires forall y: nat :: y in refs && y in at ==> at[y] != 0
    ensures Ending(refs, refs, user) && ClearedBelow(refs, at, user, 1)
  {}

  lemma SlotCleared(refs: Store, at: map<nat, nat>, user: Mask, hash: nat)
    requires ClearedBelow(refs, at, user, hash)
    requires forall y: nat :: y in refs && y in at && at[y] == hash ==> user !! refs[y].user
    ensures ClearedBelow(refs, at, user, hash + 1)
  {}

  lemma EndOne(refs0: Store, refs: Store, user: Mask, x: nat)
    requires Ending(refs0, refs, user) && Endable(refs0, user) && x in refs && !(user !! refs[x].user)
    ensures x in refs0 && refs[x] == refs0[x] && refs[x].refCount > 0 && Recoverable(refs[x].bytes)
  {}

  lemma EndedOne(refs0: Store, before: Store, refs: Store, user: Mask, x: nat, at: map<nat, nat>, at': map<nat, nat>, hash: nat, entry: nat)
    requires Ending(refs0, before, user) && x in before && !(user !! before[x].user) && before[x].refCount > 0
    requires refs == Dropped(before[x := before[x].(user := before[x].user - user)], x)
    requires at.Keys == before.Keys && at'.Keys == refs.Keys && at[x] == hash != 0
    requires forall y, z :: y in at && z in at && at[y] == at[z] ==> y == z
    requires if x in refs then at' == at && entry == 0 else Moved(at, at', refs, x, 0, entry)
    requires ClearedBelow(before, at, user, hash)
    ensures Ending(refs0, refs, user) && ClearedBelow(refs, at', user, hash)
    ensures entry == 0 ==> ClearedBelow(refs, at', user, hash + 1)
    ensures entry != 0 ==> |refs| < |before|
  {
    hide Ending, ClearedBelow, ShutDown, Dropped, Moved;
    EndingOne(refs0, before, user, x);
    DroppedCases(before, user, x);
    if x in refs {
      BelowKept(before, refs, user, x, at, hash);
    } else {
      BelowMoved(before, refs, user, x, at, at', hash, entry);
    }
  }

  /** What is left of string `x` when it loses the bits and a reference. */
  lemma DroppedCases(before: Store, user: Mask, x: nat)
    requires x in before && before[x].refCount > 0
    ensures var refs := Dropped(before[x := before[x].(user := before[x].user - user)], x);
      && refs.Keys <= before.Keys
      && (x in refs ==> user !! refs[x].user && forall y :: y in refs && y != x ==> refs[y] == before[y])
      && (x !in refs ==> refs == before - {x} && |refs| < |before|)
  {
    var refs := Dropped(before[x := before[x].(user := before[x].user - user)], x);
    if x !in refs {
      assert refs == before - {x};
      assert |before| == |refs| + 1 by { assert before.Keys == refs.Keys + {x}; }
    }
  }

  lemma EndingOne(refs0: Store, before: Store, user: Mask, x: nat)
    requires Ending(refs0, before, user) && x in before && !(user !! before[x].user) && before[x].refCount > 0
    ensures Ending(refs0, Dropped(before[x := before[x].(user := before[x].user - user)], x), user)
  {
    assert before[x] == refs0[x];
  }

  lemma BelowKept(before: Store, refs: Store, user: Mask, x: nat, at: map<nat, nat>, hash: nat)
    requires ClearedBelow(before, at, user, hash) && x in at && at[x] == hash && x in refs && user !! refs[x].user
    requires refs.Keys <= before.Keys && forall y :: y in refs && y != x ==> refs[y] == before[y]
    requires forall y, z :: y in at && z in at && at[y] == at[z] ==> y == z
    ensures ClearedBelow(refs, at, user, hash) && ClearedBelow(refs, at, user, hash + 1)
  {}

  lemma BelowMoved(before: Store, refs: Store, user: Mask, x: nat, at: map<nat, nat>, at': map<nat, nat>, hash: nat, entry: nat)
    requires ClearedBelow(before, at, user, hash) && x in at && at[x] == hash != 0 && at.Keys == before.Keys
    requires refs == before - {x} && Moved(at, at', refs, x, 0, entry)
    requires forall y, z :: y in at && z in at && at[y] == at[z] ==> y == z
    ensures ClearedBelow(refs, at', user, hash) && (entry == 0 ==> ClearedBelow(refs, at', user, hash + 1))
  {
  }

  lemma EndedAll(t: Slots, g: Shape, refs0: Store, refs: Store, user: Mask)
    requires Stores(t, g, Buckets(refs)) && |g.owner| == TABLE_SIZE
    requires Ending(refs0, refs, user) && ClearedBelow(refs, g.at, user, TABLE_SIZE)
    ensures refs == ShutDown(refs0, user)
  {
    hide Stores, Buckets;
    SlotFacts(t, g, refs);
    forall x | x in refs
      ensures x in ShutDown(refs0, user) && refs[x] == ShutDown(refs0, user)[x]
    {
      assert user !! refs[x].user;
    }
  }

  lemma ItemsAndSlots(t: Slots, g: Shape, bucket: map<nat, nat>)
    requires Stores(t, g, bucket)
    ensures g.at.Keys == bucket.Keys
    ensures forall y :: y in g.at ==> g.at[y] != 0
  {}

  lemma TableStores(table: BT.BucketTable, refs: Store)
    requires table.Valid() && table.bucket == Buckets(refs)
    ensures Stores(table.Snap(), table.shape, Buckets(refs)) && |table.shape.owner| == TABLE_SIZE
    ensures table.status.Length == table.next.Length == table.link.Length == TABLE_SIZE
  {}

  /** Every string keeps its slot when `x` goes, unless it moves into the slot that `x` leaves. */
  ghost predicate Moved(at: map<nat, nat>, at': map<nat, nat>, refs: Store, x: nat, entry: nat, entry': nat) {
    && x in at && refs.Keys <= at.Keys && at'.Keys == refs.Keys
    && (entry' == entry || entry' == at[x] != 0)
    && forall y: nat :: y in refs ==> at'[y] == at[y] || (at'[y] == at[x] == entry')
  }

  lemma SlotFacts(t: Slots, g: Shape, refs: Store)
    requires Stores(t, g, Buckets(refs))
    ensures |t.link| == |t.status| == |g.owner| && g.at.Keys == refs.Keys
    ensures forall y: nat :: y in refs ==> y in g.at && 0 < g.at[y] < |g.owner| && t.link[g.at[y]] == y && t.status[g.at[y]] != Free
    ensures forall i: nat :: 0 < i < |g.owner| && t.status[i] != Free ==> t.link[i] in refs && g.at[t.link[i]] == i
  {
    forall y: nat | y in refs
      ensures y in g.at && 0 < g.at[y] < |g.owner| && t.link[g.at[y]] == y && t.status[g.at[y]] != Free
    {
      StatusFacts(t, g, Buckets(refs), g.at[y]);
    }
    forall i: nat | 0 < i < |g.owner| && t.status[i] != Free
      ensures t.link[i] in refs && g.at[t.link[i]] == i
    {
      StatusFacts(t, g, Buckets(refs), i);
    }
  }

  /** The allocator's own record of the block that holds a string. */
  lemma BlockOf(mt: MT.MemoryTree, refs: Store, x: nat)
    requires mt.Valid() && Backed(refs, mt.Live()) && x in refs
    ensures 0 < x < NODE_COUNT && 0 < |refs[x].bytes| + 4 < NODE_COUNT
    ensures mt.usage[x] != 0 && mt.usageSize[x] == SizeClass(|refs[x].bytes| + 4)
  {
    assert Block(x, SizeClass(|refs[x].bytes| + 4)) in LiveBlocks(mt.usage[..], mt.usageSize[..]);
  }

  lemma Forgotten(refs: Store, live: set<Block>, x: nat)
    requires x in refs && Backed(refs, live)
    ensures |refs[x].bytes| + 4 < NODE_COUNT
    ensures Backed(refs - {x}, live - {Block(x, SizeClass(|refs[x].bytes| + 4))})
    ensures Buckets(refs - {x}) == Buckets(refs) - {x}
  {}

  /** The bucket of every string. */
  ghost function Buckets(refs: Store): map<nat, nat> {
    map x | x in refs :: HashOf(refs[x].bytes)
  }

  /** Every string has a live block of the size class of its size and header. */
  ghost predicate Backed(refs: Store, live: set<Block>) {
    forall x :: x in refs ==>
      0 < x && 0 < |refs[x].bytes| + 4 < NODE_COUNT && Block(x, SizeClass(|refs[x].bytes| + 4)) in live
  }

  ghost predicate Unmatched(t: Slots, g: Shape, refs: Store, h: nat, str: seq<byte>, k: nat)
    requires h in g.rings
  {
    forall j: nat :: j < k && j < |g.rings[h]| && g.rings[h][j] < |t.link| && t.link[g.rings[h][j]] in refs ==>
      !refs[t.link[g.rings[h][j]]].Matches(str)
  }

  lemma HeadSlot(t: Slots, g: Shape, refs: Store, h: nat)
    requires Stores(t, g, Buckets(refs)) && 0 < h < |t.status| && t.status[h] == Head
    ensures h in g.rings && |g.rings[h]| > 0 && g.rings[h][0] == h && |t.link| == |t.next| == |g.owner|
  {
    StatusFacts(t, g, Buckets(refs), h);
    RingStart(t, g, h);
  }

  lemma RingSlot(t: Slots, g: Shape, refs: Store, h: nat, k: nat)
    requires Stores(t, g, Buckets(refs)) && h in g.rings && k < |g.rings[h]|
    ensures var i := g.rings[h][k];
      && i < |t.link| == |t.next| == |g.owner| && t.link[i] in refs && HashOf(refs[t.link[i]].bytes) == h
      && t.next[i] == Turn(g.rings[h], k + 1) && (t.next[i] != h <==> k + 1 < |g.rings[h]|)
  {
    var ring := g.rings[h];
    assert RingAt(t, g, h);
    var j := StepFrom(t, g, h, k);
    assert ring[k] in ring;
    OnlyAt(ring, 0);
  }

  lemma NothingMatches(t: Slots, g: Shape, refs: Store, h: nat, str: seq<byte>)
    requires Stores(t, g, Buckets(refs)) && h in g.rings && h == HashOf(str)
    requires Unmatched(t, g, refs, h, str, |g.rings[h]|)
    ensures !Known(refs, str)
  {
    forall x: nat
      ensures !Hit(refs, str, x)
    {
      if x in refs && HashOf(refs[x].bytes) == h {
        var k := ItemPosition(t, g, Buckets(refs), x);
      }
    }
  }

  lemma StartOfRing(t: Slots, g: Shape, refs: Store, h: nat, k: nat)
    requires Stores(t, g, Buckets(refs)) && h in g.rings && k < |g.rings[h]|
    ensures g.rings[h][k] == h <==> k == 0
    ensures 0 < h < |g.owner|
  {
    HeadIsUsed(t, g, h);
    RingStart(t, g, h);
    assert RingAt(t, g, h);
    OnlyAt(g.rings[h], 0);
  }

  lemma EmptyBucket(t: Slots, g: Shape, refs: Store, h: nat, str: seq<byte>)
    requires Stores(t, g, Buckets(refs)) && h == HashOf(str) && h < |t.status| && t.status[h] != Head
    ensures !Known(refs, str)
  {
    StatusFacts(t, g, Buckets(refs), h);
    forall x: nat
      ensures !Hit(refs, str, x)
    {
      if x in refs && HashOf(refs[x].bytes) == h {
        var k := ItemPosition(t, g, Buckets(refs), x);
      }
    }
  }

  lemma HitIsKnown(refs: Store, live: set<Block>, str: seq<byte>, x: nat)
    requires Hit(refs, str, x) && Backed(refs, live)
    ensures Known(refs, str) && x != 0 && x in refs
  {}

  lemma NoStrings()
    ensures Buckets(map[]) == map[] && Backed(map[], {})
  {}

  /** Changing only the counts of a string changes neither buckets nor blocks. */
  lemma KeptBytes(refs: Store, live: set<Block>, x: nat, r: RefString)
    requires x in refs && r.bytes == refs[x].bytes && Backed(refs, live)
    ensures Buckets(refs[x := r]) == Buckets(refs) && Backed(refs[x := r], live)
  {}

  lemma AddedString(refs: Store, live: set<Block>, x: nat, str: seq<byte>, user: Mask)
    requires Backed(refs, live) && 0 < x && |str| + 4 < NODE_COUNT
    requires FreeRun(Block(x, SizeClass(|str| + 4)), live)
    ensures x !in refs && x !in Buckets(refs)
    ensures var refs' := refs[x := RefString(1, user, str)];
      && Backed(refs', live + {Block(x, SizeClass(|str| + 4))})
      && Buckets(refs') == Buckets(refs)[x := HashOf(str)]
  {
    forall y | y in refs
      ensures y != x
    {
      assert Block(y, SizeClass(|refs[y].bytes| + 4)) in live;
      assert Apart(Block(x, SizeClass(|str| + 4)), Block(y, SizeClass(|refs[y].bytes| + 4)));
    }
  }
}
