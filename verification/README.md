# Verified models of the CoD4X server core

The script VM of the server keeps all its data in three storage engines that share one style: flat
arrays, updated in place, that are at once hash table, linked lists and free list. This project
models the three of them, and six smaller algorithms of the server, and proves what each keeps
whatever is called in whatever order.

`dafny verify dfyconfig.toml` checks everything.

## The models

**Memory tree** (`Bits`, `NodeScore`, `FreeTree`, `FreeTreeLinks`, `BitTables`, `Buddy`,
`BuddyCells`, `MemoryTree`). A buddy allocator over 2^16 cells. The free blocks of one size sit in
a binary tree that is a trie by address and a heap by a score of the address. The score turns out
to be a position in post-order, so no two addresses have the same one and every position's pivot
address outranks all others in its range. From this follow what the search may leave out, that a
tree's shape depends only on what is in it, and, one level up, that the free blocks are the maximal
aligned free runs and hence depend only on the blocks handed out. `NODE_BITS` is 16, as in the
source; the lemmas about the score hold for every width.

**String table** (`Rings`, `BucketRings`, `BucketTable`, `Strings`, `StringTable`, `StringRuns`).
Interned, reference-counted strings of any bytes. Each bucket is a ring threaded through the table's own slots;
its head is always in the bucket's home slot, and a foreign string found there is moved away.
Lookups move what they find to the front. The bytes come from the memory tree.

**Variable list** (`CellRings`, `VarCells`, `VarLinks`, `VarTaking`, `VarMoves`, `VarEvicting`,
`VarLeaving`, `VarRings`, `CellPool`; `VarFamilies`, `VarSiblings`, `VarThreads`, `VarStore`,
`VarRelease`, `VarReach`, `VarCopy`, `VarDirectory`, `VarRuns`, `VarOrder`,
`VariableList`). Each element of the array is
two things: a hash cell, which says which slot sits there and links to the previous sibling, and a
value slot. Insertion and removal move slots from cell to cell while the list of each object's
children runs through the same cells. `CellPool` is the array; its contract is a map from a
variable's number to its entry in which no number ever changes. `VariableList` adds the objects,
their children in order, reference counts and copy-on-write arrays. Its `State` is what a script
can see; `VarDirectory.Directory` reads it as a map from (object, name) to a number. The ghost field
`roots` stands for the references that the caller holds, and a method that needs the caller to
hold one says so. `VarReach.Anchored` is what can be reached from those references.

**CRC-32** (`Crc32`, `CrcDivision`). The sliced computation, sixteen bytes at a time, against one bit at
a time, and that against the division of polynomials.

**Entity handles** (`HandleRings`, `EntHandles`). Weak references to entities that are cleared
when the entity goes.

**Brush partitioner** (`BrushTree`, `BrushScore`, `BrushPartition`). The recursive split of a leaf's
brushes, which rearranges the array of brush numbers in place.

**Config text** (`CommandText`, `ConfigText`). The printer of archived variables, the splitter of
the command buffer and the tokenizer.

**Swept box** (`TraceBox`). The quick test whether a moving point can meet a box.

A method is proved against a function or relation on the state before and after, and the properties
are then proved of that. `Snap()` collects a class's arrays into one value for this.

## Findings

- The word that the string table calls a length is eight bits. Strings of 256 bytes and more are
  therefore never found again (`StringRuns.LongIsStoredTwice`), and a stored one can be returned for
  a short string that it begins with (`StringRuns.LongIsTakenForShort`). `Strings.HitIsEquality`
  says exactly what a lookup finds, `StringRuns.GetIsRight` when what a get returns is right, and
  `Strings.CStringsHaveNoAlias` that C strings are not taken for each other.
- The length of a string is recovered from these eight bits exactly if it is `Recoverable`, which
  every C string is; `Strings.GetRefStringLen` and `Strings.WhatIsRecoverable`.
- Naming several users in one call counts one reference for all of them, whether they are added, get
  a new string, are handed a reference or are ended. `StringRuns.BalanceKeptIff` says for every call
  when the count still balances, and `StringRuns.TwoUsersLoseBalance` shows each of the four lose it.
- When a string already has one of several users named in a call, the others are not added:
  `StringRuns.UsersGivenIff` says for every call when all users named get the string, and
  `StringRuns.PartlyHeldIsNotGiven` is an instance.
- A config file survives being printed and read exactly if no value in it has a quotation mark or a
  line break: `ConfigText.ConfigRoundTrip`. The printer checks neither. `ConfigText.QuotedValueIsSplit`
  is an instance.
- A frame of the command buffer that stops at a wait forgets that a comment is open, and a comment too
  long for the line buffer is open where its first 8191 characters end. `CommandText.FramesExecuteAll`
  holds for every text in which no wait takes effect inside a comment, which all text with shorter
  lines is; `CommandText.WaitForgetsComment` is a text and a wait for which lines are split differently.
- The swept-box test misses no hit but does not see every miss: `TraceBox.MissedExactly` gives the
  two kinds it does not see and `TraceBox.MissNotSeen` is a move and a box where it happens.

## Model

| member | source | states |
|---|---|---|
| NodeScore.PostOrderInjective | src/cscr_memorytree.cpp:211-234 | for every width, different addresses have different scores |
| NodeScore.PostOrderDominates | src/cscr_memorytree.cpp:211-234 | an odd multiple of 2^k scores above every other number within 2^k of it |
| NodeScore.PostOrderIsPostOrder | src/cscr_memorytree.cpp:211-234 | for every width, one number is indexed before another exactly if it is in the other's subtree, or neither is in the other's and it is smaller |
| FreeTree.ScoreInjective | src/cscr_memorytree.cpp:211-234 | no two nodes have the same score |
| FreeTree.ScoreOrder | src/cscr_memorytree.cpp:211-234 | of two addresses one scores higher exactly if the other is closer to it than its own alignment, or neither is and it is the lower |
| FreeTree.ScoresAreAll | src/cscr_memorytree.cpp:211-234 | the scores are exactly the numbers from 1 to 65535 |
| FreeTree.RootPrecedes | src/cscr_memorytree.cpp:301-379 | the root of a legal tree comes before every other node in that order |
| FreeTree.PivotOutranks | src/cscr_memorytree.cpp:211-234 | a position's pivot address outranks every other address of the position's range |
| FreeTree.PivotAtRoot | src/cscr_memorytree.cpp:383-471 | a node equal to its position's pivot is at that position's root, so the search may stop there |
| FreeTree.LegalHeap | src/cscr_memorytree.cpp:301-379 | in a legal tree no node outranks the root |
| FreeTree.ShapeIsCanonical | src/cscr_memorytree.cpp:301-471 | two legal trees with the same nodes are the same tree, whatever calls made them |
| FreeTreeLinks.PushOut | src/cscr_memorytree.cpp:301-379 | writing the new node over a root it outranks and pushing that one down keeps the array spelling a legal tree with one node in hand |
| FreeTreeLinks.SiftUp | src/cscr_memorytree.cpp:238-298 | moving the better child up into a gap keeps the rest a legal tree and loses no node |
| BitTables.BitTables.constructor | src/cscr_memorytree.cpp:525-554 | the three byte tables hold trailing zeros, population counts and bit lengths |
| BitTables.BitTables.GetScore | src/cscr_memorytree.cpp:211-234 | two table lookups compute the score of the whole 16-bit address |
| BitTables.BitTables.GetSize | src/cscr_memorytree.cpp:192-208 | the size class of a request, and 0 for one that is too large |
| BitTables.SizeClassIsLeast | src/cscr_memorytree.cpp:192-208 | the size class is the least power of two that holds the request |
| Buddy.FreeBlockIsMaximalRun | src/cscr_memorytree.cpp:586-622 | with buddies always joined, a block is free exactly if it is an aligned free run inside no larger one |
| Buddy.FreeBlocksAreCanonical | src/cscr_memorytree.cpp:474-622 | the set of free blocks is a function of the set of live blocks; freeing everything restores the first state |
| Buddy.RequestCanBeServed | src/cscr_memorytree.cpp:474-520 | a large enough free block exists exactly if some aligned run of that many cells is free |
| Buddy.SplitInHand | src/cscr_memorytree.cpp:474-520 | giving back the upper half of the block in hand keeps all blocks a tiling of cells 1 to 65535 with no two free buddies |
| Buddy.JoinInHand | src/cscr_memorytree.cpp:586-622 | joining the block in hand with its free buddy keeps the tiling |
| Buddy.InitiallySound | src/cscr_memorytree.cpp:556-577 | the first free blocks tile cells 1 to 65535 |
| MemoryTree.MemoryTree.Init | src/cscr_memorytree.cpp:556-577 | establishes the invariant with no block live |
| MemoryTree.MemoryTree.AddMemoryNode | src/cscr_memorytree.cpp:301-379 | adds the one block to the free blocks and keeps every tree legal |
| MemoryTree.MemoryTree.RemoveMemoryNode | src/cscr_memorytree.cpp:383-471 | returns true exactly if the node is in the tree, removes it and nothing else |
| MemoryTree.MemoryTree.RemoveHeadMemoryNode | src/cscr_memorytree.cpp:238-298 | removes the head's block and nothing else |
| MemoryTree.MemoryTree.AllocIndex | src/cscr_memorytree.cpp:474-520 | fails exactly if the request is too large or no aligned run of its size is free; otherwise hands out a run that was free, cut from the free block that comes first among those of the least sufficient size; what is stored in the live blocks stays |
| MemoryTree.MemoryTree.FreeIndex | src/cscr_memorytree.cpp:586-622 | takes the one block out of the live blocks and joins buddies until none are both free; what is stored in the other live blocks stays |
| MemoryTree.MemoryTree.GetSubTreeSize | src/cscr_memorytree.cpp:112-122 | counts the nodes of a tree |
| MemoryTree.MemoryTree.CountBuckets | src/cscr_memorytree.cpp:151-174 | allocated buckets and those counted on the free trees always make 65535 |
| MemoryTree.SameLiveSameTrees | src/cscr_memorytree.cpp:474-622 | allocators with the same live blocks have the same free trees, heads included |
| BucketRings.DisplacedThreaded | src/cscr_stringlist.cpp:706-757 | moving a foreign resident out of a home slot keeps all rings and the free list |
| BucketRings.DisplacedLocated | src/cscr_stringlist.cpp:706-757 | after that move every item, the new one included, is on the ring of its bucket |
| BucketRings.FrontedStores | src/cscr_stringlist.cpp:534-592 | moving a found item behind the head changes no item's bucket |
| BucketRings.PromotedStores | src/cscr_stringlist.cpp:185-256 | when a head goes and its successor takes the home slot, exactly one item is gone |
| BucketTable.BucketTable.constructor | src/cscr_stringlist.cpp:872-903 | an empty table whose free list holds every slot |
| BucketTable.BucketTable.Put | src/cscr_stringlist.cpp:666-803 | stores one more item in its bucket, whichever of the three cases applies |
| BucketTable.BucketTable.TakeOut | src/cscr_stringlist.cpp:185-256 | removes the one item, and tells whether another moved into the home slot |
| Strings.GetHashCode | src/cscr_stringlist.cpp:98-115 | the loop computes the polynomial hash with sign-extended characters, within the table |
| Strings.HashIsWeighted | src/cscr_stringlist.cpp:98-115 | the hash of a short string is the sum of its signed characters, each times the power of 31 by its distance from the end, in 32 bits |
| Strings.GetRefStringLen | src/cscr_stringlist.cpp:135-152 | ends at the first zero byte that the size modulo 256 leads to, which is the length exactly if the string is recoverable |
| Strings.MatchIsEquality | src/cscr_stringlist.cpp:534-592 | for any bytes, a stored string shorter than 256 matches exactly if it is equal, a longer one exactly the string of its first bytes, as many as its size modulo 256 |
| Strings.HitIsEquality | src/cscr_stringlist.cpp:534-592 | for any bytes, a lookup finds the equal string if it is shorter than 256, and besides it exactly the longer ones that are taken for it |
| Strings.WhatIsRecoverable | src/cscr_stringlist.cpp:135-152 | C strings are recoverable, and of the strings up to 256 bytes exactly those that end with a zero byte |
| Strings.MatchOfCStrings | src/cscr_stringlist.cpp:534-592 | a C string matches another exactly if they are equal and shorter than 256 |
| Strings.CStringsHaveNoAlias | src/cscr_stringlist.cpp:534-592 | no C string is returned for a different one |
| StringTable.StringTable.FindStringOfSize | src/cscr_stringlist.cpp:534-592 | returns a stored match if there is one and 0 if not; the strings are unchanged although rings are reordered, and what is found is first in its bucket then |
| StringTable.StringTable.GetStringOfSize | src/cscr_stringlist.cpp:666-803 | returns a match with one more holder, or a new string with one, whose block is marked with the kind given; 0 only without memory or a free slot |
| StringTable.StringTable.AddRefToString | src/cscr_stringlist.cpp:445-474 | one string gets one more reference |
| StringTable.StringTable.AddUser | src/cscr_stringlist.cpp:635-663 | a user not yet there is added with a reference |
| StringTable.StringTable.TransferRefToUser | src/cscr_stringlist.cpp:838-869 | a plain reference becomes the user's, or goes if the user had one |
| StringTable.StringTable.RemoveRefToStringOfSize | src/cscr_stringlist.cpp:378-440 | one reference fewer; with the last the string and its memory go |
| StringTable.StringTable.RemoveRefToString | src/cscr_stringlist.cpp:476-485 | the same with the size found from the string, for every recoverable one, in the same bucket and size class |
| StringTable.StringTable.FreeString | src/cscr_stringlist.cpp:185-256 | exactly the one string goes, its block is given back, and at most one other string changes its slot |
| StringTable.StringTable.ShutdownSystem | src/cscr_stringlist.cpp:905-935 | every string of the user loses it and one reference, though strings move while the table is walked; other strings may have any bytes |
| StringRuns.RunsStaySound | src/cscr_stringlist.cpp:185-935 | over every run in which no 16-bit count runs over, for strings of any bytes, counts are users plus plain references and no two equal strings below 256 are stored |
| StringRuns.RunsFromEmpty | src/cscr_stringlist.cpp:185-935 | the same for every run that begins with the empty table |
| StringRuns.BalanceKeptIff | src/cscr_stringlist.cpp:378-935 | each call keeps the counts equal to users plus plain references exactly if it counts every user it names: it adds one, or none for want of a new one, and ends at most one of each string |
| StringRuns.TwoUsersLoseBalance | src/cscr_stringlist.cpp:635-663 | getting, adding, transferring to and ending two users at once each lose the balance |
| StringRuns.GoneMeansUnheld | src/cscr_stringlist.cpp:378-440 | a string goes only when no user and no plain reference is left |
| StringRuns.ShutdownEndsUser | src/cscr_stringlist.cpp:905-935 | after a shutdown no string has the user |
| StringRuns.UsersAfter | src/cscr_stringlist.cpp:378-935 | exactly who has which string after each call: those ended lose it, and those named get it if none of them had it |
| StringRuns.UsersGivenIff | src/cscr_stringlist.cpp:635-869 | getting, adding and transferring give a string to exactly the users named besides those who had it, if and only if it had all of these or none |
| StringRuns.OneUserIsWhole | src/cscr_stringlist.cpp:635-869 | calls that name one user always do |
| StringRuns.PartlyHeldIsNotGiven | src/cscr_stringlist.cpp:635-663 | adding users 0 and 1 to a string of user 0 does not give it to user 1 |
| StringRuns.RunsNameUsers | src/cscr_stringlist.cpp:378-935 | over every run of such calls a user has a string exactly if a call named the user for it and none has ended the user since |
| StringRuns.GetIsByValue | src/cscr_stringlist.cpp:666-803 | after a get of a string that no longer one is taken for, it is found under exactly the number returned if it is shorter than 256 and not at all otherwise |
| StringRuns.GetIsRight | src/cscr_stringlist.cpp:666-803 | whatever the order of the ring, with room in the count, the string returned has the bytes asked for exactly if no stored string of 256 bytes or more is taken for it |
| StringRuns.LongIsTakenForShort | src/cscr_stringlist.cpp:666-803 | 257 bytes that begin with 64 are returned for the one byte 64 |
| StringRuns.LongIsStoredTwice | src/cscr_stringlist.cpp:666-803 | a C string of 256 bytes asked for twice is stored twice |
| VarTaking.SettledOk | src/cscr_variable.cpp:585-637 | taking a free cell into use, with or without the swap that makes number and cell equal, adds one slot and keeps the rest |
| VarTaking.ReleasedOk | src/cscr_variable.cpp:505-544 | freeing a slot removes it and keeps every other, the free list and all sibling links |
| VarMoves.JoinedOk | src/cscr_variable.cpp:751-857 | the insertions into a bucket whose head is at home keep all numbers, names and neighbours |
| VarEvicting.EvictedOk | src/cscr_variable.cpp:751-828 | evicting a movable or external resident keeps all numbers, names and neighbours |
| VarLeaving.HeadLeftOk | src/cscr_variable.cpp:243-302 | a ring head trades places with its successor and leaves; neighbours stay even if the two are siblings |
| VarLeaving.MemberLeftOk | src/cscr_variable.cpp:224-241 | a ring member leaves its ring and nothing else changes |
| VarRings.BucketIsRing | src/cscr_variable.cpp:306-351 | a slot is in bucket h exactly if it sits on the ring that starts in cell h |
| CellPool.CellPool.constructor | src/cscr_variable.cpp:3445-3475 | an empty pool with every slot free in its own cell |
| CellPool.CellPool.FindIndex | src/cscr_variable.cpp:306-351 | the cell of a slot of that name in the bucket, and 0 exactly if there is none |
| CellPool.CellPool.Insert | src/cscr_variable.cpp:704-892 | one new entry in the bucket and no other entry or sibling link changed; 0 only if every slot is in use |
| CellPool.CellPool.MakeExternal | src/cscr_variable.cpp:210-303 | the slot leaves its bucket; all else is kept |
| CellPool.CellPool.Alloc | src/cscr_variable.cpp:1385-1438 | a new entry outside all buckets; every other slot keeps number, cell and links |
| CellPool.CellPool.Release | src/cscr_variable.cpp:505-544 | the one entry goes |
| VarFamilies.BucketSeparates | src/cscr_variable.cpp:354-366 | objects that share a bucket for a name are the same object |
| VarFamilies.BucketsMeetIff | src/cscr_variable.cpp:354-366 | exactly which variables share a bucket: one more in the name weighs as much as 101 more in the object |
| VarFamilies.FoundIsChild | src/cscr_variable.cpp:354-366 | what is found in the bucket under a name is the object's own child, though slots do not say whose they are |
| VariableList.VariableList.FindVariable | src/cscr_variable.cpp:354-366 | finds the variable of that name exactly if the object has one on its ring |
| VariableList.VariableList.CreateVariable | src/cscr_variable.cpp:895-934 | a new first child, all other state kept; fails only when the pool is full |
| VariableList.VariableList.CreateVariableLast | src/cscr_variable.cpp:2758-2798 | the same at the end of the list |
| VariableList.VariableList.GetVariable | src/cscr_variable.cpp:937-958 | the existing variable with nothing changed, or a new one; the directory gains at most that entry |
| VariableList.VariableList.AllocObject | src/cscr_variable.cpp:639-653 | a new object or array, as asked for, with no variables and one reference |
| VariableList.VariableList.AddRefToObject | src/cscr_variable.cpp:481-503 | one more reference, and the counter with it |
| VariableList.VariableList.MakeVariableExternal | src/cscr_variable.cpp:210-303 | the child leaves its ring, an array's size goes down, and every list of children is as before |
| VariableList.VariableList.Unlink | src/cscr_variable.cpp:368-436 | exactly the one child leaves the list and the pool; its neighbours are linked |
| VariableList.VariableList.FreeChildValue | src/cscr_variable.cpp:368-436 | the child goes with its reference; every object still there keeps all its variables |
| VariableList.VariableList.ClearObjectInternal | src/cscr_variable.cpp:438-479 | both loops end, all children of the object go, every other surviving object is unharmed |
| VariableList.VariableList.ClearObject | src/cscr_variable.cpp:575-581 | no variable of the object is left, entries of surviving objects stay, and the object itself goes exactly if neither the caller nor any variable refers to it in the end; the caller need hold no reference |
| VariableList.VariableList.RemoveRefToEmptyObject | src/cscr_variable.cpp:547-573 | one reference fewer, or the object goes with the last |
| VariableList.VariableList.RemoveRefToObject | src/cscr_variable.cpp:1744-1797 | the recursion ends; the object goes exactly with its last reference and what survives is unharmed |
| VariableList.VariableList.FreeVariable | src/cscr_variable.cpp:505-544 | the childless object whose last reference goes is removed, no reference to it being left |
| VariableList.VariableList.SetNewVariableValue | src/cscr_variable.cpp:2438-2455 | an undefined variable gets the value given, and every other variable is as it was |
| VariableList.VariableList.SetVariableValue | src/cscr_variable.cpp:2271-2289 | the variable has the value given, the old reference being released first, and every other variable still there is as it was. The caller need hold no reference to the variable's object, unless another object goes with the old reference |
| VariableList.VariableList.SafeRemoveVariable | src/cscr_variable.cpp:1567-1585 | nothing changes if there is no such variable; otherwise exactly it goes, and what its reference kept; the object's other variables stay in order |
| VariableList.VariableList.RemoveNextVariable | src/cscr_variable.cpp:1706-1722 | the first child is the one removed, and the directory loses its entry and those of objects that go |
| VariableList.VariableList.CopyArray | src/cscr_variable.cpp:1128-1188 | ends, and the copy mirrors the array deeply, though inserting moves cells of the list being walked; nothing older changes |
| VariableList.VariableList.EvalArrayRef | src/cscr_variable.cpp:1454-1563 | undefined gives a new array, an unshared array itself, a shared one a deep copy that the variable then owns alone, with all other holders unchanged |
| VarCopy.DetachedOk | src/cscr_variable.cpp:1476-1490 | after the copy the variable alone refers to an unshared mirror, and no other variable, list or count has changed |
| VarCopy.MirrorsKept | src/cscr_variable.cpp:1128-1188 | a finished copy stays a copy while more of the enclosing array is copied |
| VarRelease.SurvivesTrans | src/cscr_variable.cpp:368-479 | objects unharmed by each of two releases are unharmed by both |
| VarReach.ReachableSurvives | src/cscr_variable.cpp:1744-1797 | whatever the caller can reach through variables, however far, survives every release and can still be reached |
| VarReach.ProtectedSurvives | src/cscr_variable.cpp:368-479 | objects in the middle of a change that can be reached stay so while references are released |
| VarReach.LastIsApart | src/cscr_variable.cpp:1744-1797 | nothing that can be reached without an object's last reference leads through that object, so it goes without harm to what is being changed |
| VarDirectory.CreatedEntry | src/cscr_variable.cpp:895-934 | creating a variable adds one entry to the map from (object, name) to number |
| VarDirectory.RemovedEntry | src/cscr_variable.cpp:1693-1704 | removing one takes out its entry and those of objects that go, no others |
| VarDirectory.ReleasedEntries | src/cscr_variable.cpp:1744-1797 | releasing a reference takes out the entries of the objects that go |
| VarDirectory.ArraySize | src/cscr_variable.cpp:895-934 | between calls an array's size field is the length of its list and fits 16 bits |
| VarDirectory.TotalIsConserved | src/cscr_variable.cpp:481-544 | the counter is the number of variables plus all references held, inside and outside |
| VarRuns.RunsRefineMaps | src/cscr_variable.cpp:354-1797 | over every run of creations at either end, lookups, removals, clearings of any object, assignments to any variable, releases and array evaluations with their deep copies, a variable is found exactly if it was created and not removed or cleared since, under its first number, and has the last value assigned to it |
| VarOrder.RunsKeepOrder | src/cscr_variable.cpp:354-1797 | over every run a loop over an object's variables meets them in the order that the calls say: one looked up for the first time comes first, one appended last, the others keep their places |
| VarRuns.EntriesApart | src/cscr_variable.cpp:354-366 | different variables have different numbers |
| VarRuns.LivesIffReferenced | src/cscr_variable.cpp:1744-1797 | an object exists exactly as long as something refers to it |
| Crc32.LookupIsZeros | src/crc.c:62-79 | entry i of slice k is i shifted through k + 1 zero bytes |
| Crc32.ShiftLinear | src/crc.c:62-79 | shifting through a byte is linear over exclusive or |
| Crc32.WordTables | src/crc.c:647-715 | four lookups of a word are the word shifted through zeros |
| Crc32.FeedSixteen | src/crc.c:647-715 | one round of sixteen lookups is sixteen bytes fed bit by bit |
| Crc32.Sliced | src/crc.c:647-715 | the whole computation equals the bitwise CRC-32 (section 8 of RFC 1952) for every length and start |
| Crc32.Composes | src/crc.c:647-715 | the CRC of a concatenation is that of its second part started with that of the first |
| Crc32.BurstDetected | src/crc.c:647-715 | messages that differ only within four consecutive bytes never have the same CRC |
| CrcDivision.PolynomialIsGenerator | src/crc.c:62-79 | the constant has exactly the exponents of the generator of ISO 3309 below 32 |
| CrcDivision.StepDivides | src/crc.c:62-79 | a step of the register multiplies by x and takes the generator off if that gives the exponent 32 |
| CrcDivision.FeedDivides | src/crc.c:647-715 | the register after any bytes is the remainder of the division by the generator, with the quotient found |
| CrcDivision.CrcIsRemainder | src/crc.c:647-715 | the complement of the CRC is the remainder of the message times x^32, with ones added to its first 32 bits, as section 8 of RFC 1952 asks |
| EntHandles.HandleTable.constructor | src/enthandle.cpp:167-180 | no handle names anything and every record is free |
| EntHandles.HandleTable.AddInfo | src/enthandle.cpp:50-87 | the first free record goes behind the head of the entity's ring, or starts it |
| EntHandles.HandleTable.RemoveInfo | src/enthandle.cpp:24-48 | the record leaves its ring and heads the free list |
| EntHandles.HandleTable.SetEnt | src/enthandle.cpp:116-141 | exactly this handle changes what it names; it fails only without a free record |
| EntHandles.HandleTable.Dissociate | src/enthandle.cpp:184-222 | exactly the handles that named the entity name nothing afterwards |
| HandleRings.AddedOk | src/enthandle.cpp:50-87 | rings hold exactly the handles that name their entity, rings and free list stay a partition, the count exact |
| HandleRings.RemovedOk | src/enthandle.cpp:24-48 | the same after a removal |
| HandleRings.DissociatedOk | src/enthandle.cpp:184-217 | the same after a whole ring has been spliced into the free list |
| BrushScore.GoodPlane | src/cm_load_obj.cpp:1100-1157 | a plane with a positive score has brushes wholly on each side, still so after it is moved halfway |
| BrushScore.ScoreMeans | src/cm_load_obj.cpp:1100-1157 | the score is 0 if a side has fewer than two brushes, and otherwise the smaller number of brushes but one, times the smaller of the extents that the other side's nearest brush leaves free; nothing else is |
| BrushScore.ScoreIsPositiveIff | src/cm_load_obj.cpp:1100-1157 | within the bounds the score is positive exactly if there are two brushes on either side |
| BrushScore.BestPermuted | src/cm_load_obj.cpp:1161-1320 | whether a plane is best does not depend on the order of the brushes |
| BrushScore.SortedAll | src/cm_load_obj.cpp:1161-1320 | above, below and cut by the plane are a partition of the brushes |
| BrushPartition.Partitioner.GetPartitionScore | src/cm_load_obj.cpp:1100-1157 | the score by the sets of brushes on either side and the bounds that these reach, and the plane half way between them |
| BrushPartition.Partitioner.PickPlane | src/cm_load_obj.cpp:1161-1212 | the first of the candidate planes with the best score, which come from the sides of the brushes of the slice, and none exactly if no score is positive |
| BrushPartition.Partitioner.ChosenIsBest | src/cm_load_obj.cpp:1161-1212 | no candidate plane is worth more than the one chosen, and none is chosen exactly if no candidate has two brushes on either side |
| BrushPartition.Partitioner.PartitionLeafBrushes_r | src/cm_load_obj.cpp:1161-1320 | ends; the slice is permuted in place and the nodes are a tree over it in which contents, bounds, planes and child offsets are right, every split is at a best plane, and no leaf can be split |
| BrushPartition.Partitioner.PartitionLeafBrushes | src/cm_load_obj.cpp:1323-1371 | the tree is built within the least box around the brushes, the leaf's bounds are an eighth wider, and it fails only for more brushes or nodes than the fields hold |
| BrushPartition.LeavesTile | src/cm_load_obj.cpp:1161-1320 | the leaves' slices tile the array: every brush is in exactly one leaf |
| BrushPartition.NodesHoldLeaves | src/cm_load_obj.cpp:1161-1320 | the nodes in array order hold exactly those slices |
| BrushTree.BuiltFrame | src/cm_load_obj.cpp:1214-1319 | a finished subtree stays one whatever is written outside its nodes |
| BrushTree.RangeIsNearest | src/cm_load_obj.cpp:1236-1319 | a split's range is the distance of its plane to the nearest brush that it does not cut: none is nearer and one is that near |
| BrushTree.OrAllMeans | src/cm_load_obj.cpp:1214-1319 | a node has the contents that some brush under it has, and no others |
| CommandText.CommandBuffer.Execute | src/cmd.c:218-295 | one frame executes lines in order until the text is used up or a command has set the wait counter |
| CommandText.CommandBuffer.FindBreak | src/cmd.c:236-268 | the loop ends at the first character at which the text says that the line ends |
| CommandText.FindsLineEnd | src/cmd.c:236-268 | a line ends at a line break outside starred comments, at a semicolon that is neither quoted nor in a comment, or at the end of a starred comment, and nowhere before; a comment begins with the first mark outside quotation marks |
| CommandText.LinesEndWhereTheyEnd | src/cmd.c:218-295 | the text is cut exactly there, or where the line buffer is full |
| CommandText.WaitLasts | src/cmd.c:227-234 | a wait lasts exactly as many frames as it says: nothing is executed in them and a line is in the next |
| CommandText.WaitEndsFrame | src/cmd.c:218-295 | a line that sets the wait counter is the last of its frame |
| CommandText.FramesExecuteAll | src/cmd.c:218-295 | unless a wait takes effect inside a comment, and however often commands ask to wait, the frames together execute exactly the lines of the text in order, although each frame forgets open comments |
| CommandText.ShortIsResumable | src/cmd.c:218-295 | with lines that fit the line buffer no wait takes effect inside a comment |
| CommandText.WaitForgetsComment | src/cmd.c:218-295 | after a comment of 8192 characters and a wait the rest is split differently |
| CommandText.RunWithoutWait | src/cmd.c:218-295 | without a wait one frame executes all lines |
| CommandText.LineClosesComments | src/cmd.c:241-266 | a line that ends before the text does leaves no comment open |
| CommandText.Tokenizer.TokenizeString | src/cmd.c:755-870 | appends the tokens of the text, within the limits on their number and bytes |
| CommandText.TokenBegins | src/cmd.c:755-870 | a token begins at the first visible character outside comments; if there is none the text ends, or a comment goes on to its end, before any |
| CommandText.WordEnds | src/cmd.c:755-870 | a word ends at the first blank, quotation mark or comment, or where the buffer is full |
| CommandText.QuotedEnds | src/cmd.c:755-870 | a quoted token ends at the next quotation mark, or where the buffer is full |
| ConfigText.WriteVariables | src/cvar.c:1899-1932 | writes a line for each archived variable that fits, with the latched value if there is one |
| ConfigText.PrintedLineIsSplitOff | src/cmd.c:218-295 | a printed line is split off whole, even if the value holds semicolons or comment marks |
| ConfigText.ConfigRoundTrip | src/cvar.c:1899-1932 | splitting and tokenizing the file gives exactly one command of three words for each variable written, in order, if and only if no value written has a quotation mark or a line break |
| ConfigText.SurvivesIffClean | src/cvar.c:1899-1932 | a variable is read back as written exactly if its value has no quotation mark and no line break |
| ConfigText.QuotedValueIsSplit | src/cvar.c:1899-1932 | the value of `a`, a quotation mark and `b` is read back as three words |
| ConfigText.TokensHaveNoQuotes | src/cmd.c:755-870 | no token holds a quotation mark |
| ConfigText.SetArguments | src/cvar.c:1705-1729 | gives the name and value of a command of three words; more words are joined by blanks, up to the first at which the measured length is too large |
| ConfigText.ArgumentsFit | src/cvar.c:1705-1729 | for every line that can be executed the joined arguments and their zero byte fit the buffer of 8192 bytes |
| TraceBox.TraceExtents.CalcTraceExtents | src/cm_trace.c:72-89 | the inverse of each axis' length, 0 where there is none |
| TraceBox.TraceExtents.TraceBoxInternal | src/cm_trace.c:23-53 | reports a miss exactly as the faces tested so far show one, and narrows the fraction to the first exit |
| TraceBox.TraceExtents.TraceBox | src/cm_trace.c:55-69 | a reported miss is one: at no time before the fraction is the point strictly inside; the misses not reported are characterised |
| TraceBox.MissedExactly | src/cm_trace.c:23-69 | the box is missed exactly if a miss is reported, the move slides in a face, or it leaves by a face tested later than the one it enters by |
| TraceBox.MissNotSeen | src/cm_trace.c:23-69 | a move past an edge of a box, from (-1, 0, 0) to (1, 3, 0), that misses it and is not reported |

## Left out

- Debug data: leak counters, `varUsage`, `stringsUsed`, average sizes, dumps and messages.
- Locks and interlocked updates: each call is modelled as one atomic step.
- Errors that stop the server (`Com_Error`, `Scr_TerminalError`, `MT_Error`): a full pool, a missing block or an oversized leaf is a result (0, `NoRoom`, false) instead.
- `SL_TransferSystem`, lower-case lookups and debug strings of the string table.
- Script threads, stacks, entities and their fields: objects are plain objects and arrays. With them go the entity branches of `Scr_EvalArrayRef` and `RemoveRefToObject`, `numScriptThreads` and `numScriptValues`.
- Array keys that are objects or strings: names are numbers, and keys hold no references. String and vector values hold no counted references inside the variable list.
- The unions of a slot's fields are separate columns; `classnum`, `w.status` and `w.type` bits are fields of their own.
- The bytes of strings live beside the allocator's nodes, not in them; block numbers and sizes are the real ones.
- Reference counts, script counters and user masks are numbers and sets of bits. The counts of strings have room where they go up, which is a condition of the call; those of objects are unbounded.
- CellPool.CellPool.Alloc: values that belong to no object exist only here; `VariableList` does not use them for variables.
- VariableList.VariableList.SafeRemoveVariable: if the variable holds the last reference to an object, the variable's own object can be reached from the caller's references by some way other than its own variables, as it could go in the middle otherwise; no other removal is under way. The same goes for RemoveNextVariable and SetVariableValue.
- VariableList.VariableList.RemoveRefToObject: while a removal is under way, an object that has variables off their rings can be reached from the caller's other references.
- VariableList.VariableList.EvalArrayRef: arrays nest without cycles, which `rank` witnesses, and nothing is said of the variable when a pool runs full half-way, where the source stops the server.
- Crc32.Sliced: the lookup table is what the recurrence in its comment says; the constants themselves are not repeated. Big-endian machines and prefetching are left out.
- Entity handles: assertions that an entity is in use, and `Shutdown`, which only prints.
- BrushPartition.Partitioner.PartitionLeafBrushes_r: coordinates are real numbers, so rounding of distances is not modelled; brushes have their corners in order on every axis.
- CommandText.CommandBuffer.Execute: commands may set the wait counter, but do not insert text into the buffer while it is executed.
- CommandText.Tokenizer.TokenizeString: nested tokenizations share one buffer in the source; here each starts with the bytes it is given.
- ConfigText.WriteVariables: values are given as the text that is printed for them.
- ConfigText.SetArguments: assigning the value to the variable is left out; what the source reads after an empty argument is a parameter.
- TraceBox.TraceExtents.TraceBox: over the reals, without rounding.
- Script operators and casts, notifications, file and network input and output, and everything above these cores.
