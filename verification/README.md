# HyperKV in Dafny

HyperKV is a small in-memory key-value server in the manner of Redis. This project models its data
structures, its typed store, its commands and its two text codecs, and proves what they promise.

* **Number theory and hashing** (`Primes`, `Hashing`, `Integers`): 32-bit integers, trial division, the
  search for the next prime, the two 64-bit string hashes, and the double-hashing probe sequence.
* **The hash table** (`Slots`, `Tables`, `TableProperties`, `TableRuns`, `HashTables`): open addressing
  with tombstones, prime sizes, growth above a load of 70 and shrinkage below 10. `HashTables.HashTable`
  is the table updated in place; each method is proved equal to an operation on table values, and the
  lemmas about those values give the invariant, the refinement of a finite map, and the cost of growth.
* **The string set** (`Sets`, `SetRuns`, `StringSets`): the same table, with an add that takes the first
  free slot.
* **The doubly linked list** (`ListSpec`, `LinkedLists`): nodes and links, and removal by value in both
  directions.
* **The typed store** (`StoreSpec`, `StoreProperties`, `StoreMeaning`, `Relabelling`, `Listings`,
  `Stores`): strings, hashes, lists and sets under one table. `Stores.TypedStore` owns the containers on
  the heap; `StoreSpec.Do` is what one operation makes of the store as a value, and
  `StoreMeaning` relates it to a map of strings, maps, sequences and sets.
* **The commands** (`Interpreter`, `CommandMeaning`): argument counts, the type check, the loop over the
  arguments and the replies; and what a whole command does to the maps, sequences and sets behind its key.
* **The codecs** (`Decimals`, `Resp`, `Tokens`, `Parsers`): the command-line tokenizer, and replies in the
  Redis serialization protocol, RESP2 (sections "Integers", "Bulk strings" and "Arrays" of its
  specification), with the client's decoders.

Six properties one would expect of this code do not hold of it as it stands. Each is stated with the
exact condition under which it does hold, and with an input on which it fails:

* A key whose step is 0 at the size of the table is only ever tried in its home slot, so a SET that
  answers true may store nothing, and a rehash may drop a key. A run behaves like a finite map if and
  only if no operation of it drops a key (`TableRuns.RunExact`, `TableRuns.LossyRun`).
* A set add may store a member again behind a tombstone, after which removing it leaves it a member
  (`SetRuns.RunExact`, `SetRuns.RemovedMemberRemains`).
* For these two reasons the typed store is not always the map of strings, maps, sequences and sets it
  stands for; a run is, step by step, if and only if every operation of it is faithful
  (`StoreMeaning.RunExact`, `StoreMeaning.UnfaithfulRun`).
* HGETALL, HKEYS and HVALS list a hash if and only if its counter is the number of its live slots. That
  is the case if and only if, among the HSETs and HDELs on the key since it was last created, no rehash
  drops a field; a field that finds no place when it is set leaves the counter right
  (`StoreProperties.StoredCounterExact`, `StoreProperties.MiscountedHashReached`). A wrong counter never
  recovers: the three commands answer an empty array from then on, and HDEL does not remove the key with
  its last field (`StoreProperties.MiscountStays`, `StoreProperties.RemovalsLeaveMiscounted`,
  `StoreProperties.EmptyHashReached`). A set has the same counter, which a rehash also makes wrong by
  merging two copies of a member, and SREM the same fault (`SetRuns.CounterExact`,
  `StoreProperties.EmptySetReached`).
* An array element that reads as a number is sent as one. A RESP2 decoder finds the text that was stored
  if and only if it is no number or the canonical numeral of an `int`, so `""`, `"-"`, `"007"` and
  `"2147483648"` are changed (`Resp.ItemPreservedIff`, `Resp.AlteredItems`).
* The buffers for printed numbers are large enough for every `int` but the least one, which DECR of
  -2147483647 produces (`Resp.BuffersSuffice`, `Interpreter.DecrOverrunsBuffers`).

C leaves signed overflow undefined. The model computes it as two's-complement machines do
(`Integers.Wrap`), wherever the source parses, adds, negates or counts the digits of an `int` that a
command names.

`dafny verify dfyconfig.toml` checks the whole project.

## Model

| member | source | states |
|---|---|---|
| `Primes.PrimeDividesNoProduct` | src/helper.c:35-58 | Euclid's lemma: a prime divides no product of two positive numbers below it; double hashing over prime sizes rests on it |
| `Primes.LargerPrime` | src/helper.c:49-58 | above every number there is a prime, so the search for the next one ends |
| `Primes.SmallCofactor` | src/helper.c:42-46 | trial division up to the square root is enough: a number without a divisor below `i` is prime once `i * i` exceeds it |
| `Primes.IsPrime` | src/helper.c:35-47 | the loop over odd divisors answers true exactly on the primes |
| `Primes.NextPrime` | src/helper.c:49-58 | terminates for every argument and returns the least prime at or above it |
| `Hashing.WrappedStep` | src/helper.c:60-74 | a hash step computed modulo 2^64 agrees with the step of the unwrapped polynomial |
| `Hashing.Djb2` | src/helper.c:60-66 | the shift-and-add loop with wrap-around computes the polynomial in 33 of the bytes, from 5381, modulo 2^64 and the size |
| `Hashing.Sdbm` | src/helper.c:68-74 | the shift-and-subtract loop computes the polynomial in 65599 of the bytes modulo 2^64 and the size |
| `Hashing.HashFunc` | src/helper.c:76-81 | probe `i` is home plus `i` steps modulo the size, inside the table |
| `Hashing.SignedByte` | src/helper.c:62-64 | a byte is read through a signed `char`: 128 and above count as negative |
| `Hashing.HashesByCharacter` | src/helper.c:60-74 | appending a character changes the two words as the two loops do, with the shifts by 5, 6 and 16 written as factors; they start at 5381 and 0 |
| `Hashing.HashesReduced` | src/helper.c:65-73 | home and step at any size are these words modulo the size |
| `Hashing.ProbeNext` | src/helper.c:76-81 | the probes start at home and each goes one step further, around the table |
| `Hashing.ProbeSumFitsInt` | src/helper.c:76-81 | home plus `i` steps stays within a 32-bit int for every probe of a table of at most 46341 slots |
| `Hashing.ProbesDiffer` | src/helper.c:76-81 | with a prime size and a non-zero step no two probes of the loop meet |
| `Hashing.ProbeReaches` | src/htable.c:109-123 | with a prime size and a non-zero step some probe within the bound reaches any given slot |
| `Hashing.ProbeIsPermutation` | src/htable.c:109-139 | for a prime size the bounded probe loop visits every slot exactly once if and only if the step is not 0 |
| `Slots.FindIffLive` | src/htable.c:125-139 | under the probe-chain invariant a search succeeds exactly on the live keys, whatever the tombstones and the steps |
| `Slots.FindValue` | src/htable.c:125-139 | what a search finds is the entry of the finite map the slots stand for |
| `Slots.StoreFailsIff` | src/htable.c:109-123 | in a table with a free slot, storing fails if and only if the step of the key is 0 and its home slot is live |
| `Slots.StoreKeepsChains` | src/htable.c:115-120 | storing at the first free probe keeps every live key reachable |
| `Slots.OverwriteKeepsChains` | src/htable.c:175-179 | leaving a tombstone, or replacing an item under its own key, keeps every live key reachable |
| `Slots.StoreContents` | src/htable.c:115-120 | storing an absent key adds exactly that entry to the map and one live slot |
| `Slots.RemoveContents` | src/htable.c:175-179 | a tombstone removes exactly that entry from the map and one live slot |
| `Slots.ReplaceContents` | src/htable.c:194-197 | replacing an item in its slot changes exactly that entry |
| `Slots.KeysCounted` | src/htable.c:109-186 | with unique keys there are as many live slots as keys |
| `Tables.LoadBound` | src/htable.c:97-107 | the truncated percentage is at most `b` exactly when `100 * used < (b + 1) * size` |
| `Tables.MovedProperties` | src/htable.c:78-83 | after any number of moved slots the rehash target holds exactly the items not dropped, each once, in reachable slots, without tombstones |
| `Tables.RehashProperties` | src/htable.c:72-95 | a rehash leaves no tombstone, changes no value, and loses exactly the keys whose step is 0 at the new size and whose home was taken before them |
| `Tables.RehashConserves` | src/htable.c:72-95 | the map, and the number of live slots, are the same after a rehash if and only if no key was dropped |
| `TableProperties.InitValid` | src/htable.c:12-20 | a new table is valid, empty, and its counter is right |
| `TableProperties.RehashNeverGrows` | src/htable.c:72-123 | at every point of a rehash the target is at most 50 percent loaded, so the growth test inside the inner inserts cannot fire |
| `TableProperties.MoveWithoutGrowth` | src/htable.c:67-83 | one step of a rehash: the key is not yet in the target, the growth test fails, and the counter stays exact |
| `TableProperties.ShrinkageTarget` | src/htable.c:103-107 | shrinkage leaves a target at most 20 percent loaded |
| `TableProperties.ResizeProperties` | src/htable.c:72-95 | a resize keeps the table valid and free of tombstones; contents survive exactly when no key is dropped, and so does the correctness of `used`, which is not copied |
| `TableProperties.InsertProperties` | src/htable.c:109-123 | inserting an absent key: valid again, unchanged exactly when the key finds no place, no other entry altered, the map insertion if and only if nothing is lost, and a right counter if and only if it was right and no growth dropped a key |
| `TableProperties.InsertedIsFound` | src/htable.c:109-123 | the key inserted is found afterwards with its value, unless it found no place or the growth it started dropped it |
| `TableProperties.DeleteProperties` | src/htable.c:164-186 | a delete answers whether the key was there, keeps the table valid, and is the map removal, with a right counter if it was right, if and only if the shrinkage it may start drops no key |
| `TableProperties.SizeAfter` | src/htable.c:97-123 | an insert changes the size only if it stores the key and fills the table beyond 70 percent, and then to the least prime at or above twice the size |
| `TableProperties.SizeAfterDelete` | src/htable.c:103-107 | a delete changes the size only if it removes the key and leaves less than 10 percent, in a table of at least 4 slots, and then to the least prime at or above half the size |
| `TableProperties.DeleteLeavesCount` | src/htable.c:387-396 | a counter above the number of keys stays above 0 through every delete |
| `TableProperties.PutProperties` | src/htable.c:245-258 | insert-or-overwrite keeps the table valid, is the map update if and only if nothing is lost, and leaves the counter right if and only if it was right and the growth dropped no key |
| `TableProperties.GetValue` | src/htable.c:294-297 | a get returns the value in the map, or none for an absent key |
| `TableProperties.ValidBounds` | src/htable.c:97-123 | `used` is below the size and at least the number of keys, and equal to it exactly when it counts the live slots |
| `TableRuns.ApplyProperties` | src/htable.c:141-258 | every operation answers as the finite map does; the new contents are those of the map operation exactly when no key is lost, and the counter stays right exactly when no rehash drops one |
| `TableRuns.RunSafe` | src/htable.c:109-258 | over every run, lossy or not: valid (load at most 70, a free slot left), no entry the map would not hold, no stale value ever returned |
| `TableRuns.RunExact` | src/htable.c:72-258 | a run is step by step the run of a finite map if and only if no operation of it drops a key; then all answers agree and `used` is the size of the map |
| `TableRuns.FreshRunExact` | src/htable.c:12-20 | the same equivalence for every run from a new table of any requested size, with the size of the map as counter of a lossless one |
| `TableRuns.CounterExact` | src/htable.c:72-123 | after any run `used` counts the live slots if and only if it did before and no rehash of the run dropped a key |
| `TableRuns.FreshCounterExact` | src/htable.c:12-20 | the same from a new table, and a counter once wrong is wrong after every further run |
| `TableRuns.NoZeroStepIsLossless` | src/helper.c:76-81 | a run in which no key in play has step 0 at any size the table takes drops no key |
| `TableRuns.EmptyKeyLost` | src/htable.c:245-258 | the empty key has step 0 at every size: setting it when absent answers true and stores nothing exactly when its home slot is live |
| `TableRuns.LossyRun` | src/htable.c:109-123 | a concrete run where two SETs answer true and the table holds one key |
| `TableRuns.CounterTooHigh` | src/htable.c:72-95 | two puts on a new table whose growth drops the empty key: the counter stays at 2 over one live slot |
| `TableRuns.EmptyButCounted` | src/htable.c:387-396 | deleting the one field left in that table empties it and leaves its counter at 1 |
| `TableRuns.AmortisedFrom` | src/htable.c:97-123 | the potential argument: items moved so far stay within 171/71 of `used` |
| `TableRuns.AmortisedGrowth` | src/htable.c:72-123 | in every run of insertions and overwrites from a new table all rehashes together move at most 171/71 (below 2.5) items per stored one |
| `TableRuns.AmortisedAnyRun` | src/htable.c:72-123 | in every run on a valid table, deletions included, growth moves at most 142/42 items per new key stored, beyond what the fill of the table at the start is worth |
| `TableRuns.FreshAmortised` | src/htable.c:72-186 | the same from a new table, where the fill is worth nothing; and a deletion moves fewer items than a tenth of the slots |
| `TableRuns.PutMoves` | src/htable.c:72-123 | what the amortised bounds count: a put that changes the size moves every entry, the new one included, and no other put moves any |
| `TableRuns.DeleteMoves` | src/htable.c:164-186 | a delete that shrinks the table moves every entry left, and no other delete moves any |
| `HashTables.HashTable.constructor` | src/htable.c:12-20 | a new table has the least prime size at or above the request, empty slots and a zero counter |
| `HashTables.HashTable.Insert` | src/htable.c:109-123 | the probe loop in place: slots and counter become those of the table operation; terminates although it is mutually recursive with resizing |
| `HashTables.HashTable.ResizeUp` | src/htable.c:97-101 | above a load of 70 the table becomes its rehash at twice the size, else nothing changes |
| `HashTables.HashTable.ResizeDown` | src/htable.c:103-107 | below a load of 10 the table becomes its rehash at half the size if that is at least 2, else nothing changes |
| `HashTables.HashTable.Resize` | src/htable.c:72-95 | arrays and sizes are exchanged with the rehash target, the counter is kept |
| `HashTables.HashTable.MoveAll` | src/htable.c:77-83 | the target holds the live items moved over in slot order |
| `HashTables.HashTable.ItemSwap` | src/htable.c:67-70 | one moved item: the target does not grow during a rehash |
| `HashTables.HashTable.Search` | src/htable.c:125-139 | the probe loop returns the slot found by the specification |
| `HashTables.HashTable.Exists` | src/htable.c:141-145 | true exactly for the keys of the map |
| `HashTables.HashTable.Get` | src/htable.c:294-297 | the value in the map, or none |
| `HashTables.HashTable.Del` | src/htable.c:164-186 | tombstone, counter and shrinkage, in place |
| `HashTables.HashTable.UpdateStr` | src/htable.c:188-200 | only the slot of the key changes, and nothing for an absent key |
| `HashTables.HashTable.Set` | src/htable.c:245-258 | always answers true; the table becomes that of the put operation, whose meaning PutProperties states |
| `Sets.ScanOutcome` | src/set.c:66-80 | an absent key is stored unless its step is 0 and its home is live; a member is stored a second time if and only if a free slot comes before it in its probe order |
| `Sets.NoTombstoneBeforeKey` | src/set.c:66-80 | without tombstones an add always meets a member before a free slot |
| `Sets.DroppedStaysAway` | src/set.c:35-41 | a member dropped during a rehash is not stored by a later copy of it either |
| `Sets.SetRehashProperties` | src/set.c:30-52 | a set rehash leaves no tombstone and no duplicate, brings in nothing, loses exactly the members that have step 0 at the new size and whose home was taken before any copy of them was moved, and keeps the number of live slots exactly when it drops no member and merges no copies |
| `Sets.SetAddProperties` | src/set.c:66-80 | an add answers as a mathematical set does exactly when the key is absent and finds a place, or is met before any free slot; the counter stays right exactly when the growth loses no slot |
| `Sets.SetAddKeepsUnique` | src/set.c:66-80 | such an add keeps the members distinct and counted |
| `Sets.SetRemProperties` | src/set.c:82-99 | a removal answers membership; the members left are exactly those of the other slots, a key stored twice among them, without those the shrinkage drops; the counter stays right exactly when the shrinkage loses no slot |
| `SetRuns.ApplyExact` | src/set.c:66-111 | one operation agrees with the mathematical set, members and answer, if and only if it is faithful |
| `SetRuns.RunValid` | src/set.c:30-111 | every run keeps the set valid: every live slot reachable, load at most 70 |
| `SetRuns.RunExact` | src/set.c:30-111 | a run is step by step the run of a mathematical set if and only if every operation of it is faithful; then members are distinct and `used` counts them |
| `SetRuns.CounterExact` | src/set.c:30-99 | after any run `used` counts the live slots if and only if it did before and no rehash of the run dropped a member or merged two copies of one |
| `SetRuns.SizeAfter` | src/set.c:54-99 | an add or removal changes the size under the same conditions and to the same primes as in the table |
| `SetRuns.RemLeavesCount` | src/htable.c:409-418 | a counter above the number of live slots stays wrong and above 0 through every removal |
| `SetRuns.CounterTooHigh` | src/set.c:30-52 | two adds to a new set whose growth drops the empty member: the counter stays at 2 over one live slot |
| `SetRuns.EmptyButCounted` | src/set.c:82-99 | removing the one member left empties that set and leaves its counter at 1 |
| `SetRuns.NoZeroStepFaithful` | src/helper.c:76-81 | a run in which no key in play has step 0 at any size the set takes is faithful if and only if no add meets a free slot before the member it adds again |
| `SetRuns.AddWithoutTombstones` | src/set.c:66-80 | adds leave no tombstone, so a run without removals only goes wrong by dropping a key |
| `SetRuns.DuplicateRemains` | src/set.c:66-99 | for any two keys colliding in this way, re-adding a member after a removal stores a duplicate that survives its removal |
| `SetRuns.RemovedMemberRemains` | src/set.c:66-99 | SADD a, SADD f, SREM a, SADD f, SREM f: all answer true and `f` is still a member |
| `StringSets.StringSet.constructor` | src/set.c:8-14 | a new set has the least prime size at or above the request, empty slots and a zero counter |
| `StringSets.StringSet.Add` | src/set.c:66-80 | the probe loop in place becomes the add operation, with its answer |
| `StringSets.StringSet.Resize` | src/set.c:30-52 | arrays and sizes are exchanged with the rehash target |
| `StringSets.StringSet.MoveAll` | src/set.c:34-41 | the target holds the members added in slot order |
| `StringSets.StringSet.MemberSwap` | src/set.c:38-38 | one re-added member: the target does not grow during a rehash |
| `StringSets.StringSet.Rem` | src/set.c:82-99 | tombstone, counter and shrinkage, in place |
| `StringSets.StringSet.IsMember` | src/set.c:101-111 | true exactly for the members |
| `StringSets.StringSet.Members` | src/set.c:113-123 | the live members in slot order, in an array that has room for them |
| `Listings.ListingEnumerates` | src/htable.c:436-441 | copying the live slots in order enumerates the map: every entry once, nothing else |
| `Listings.FlatIsZip` | src/htable.c:428-469 | HKEYS zipped with HVALS gives the pairs of HGETALL |
| `Listings.HashListings` | src/htable.c:428-469 | HGETALL, HKEYS and HVALS agree entry for entry, hold every field once with its value, and leave none out |
| `Listings.FullListing` | src/htable.c:442-445 | the early return is reached with the listing complete, and only with a counter that is exact |
| `Listings.SetListing` | src/set.c:113-123 | the listing names exactly the members, and each once if and only if no member is stored twice |
| `Listings.ListingInOrder` | src/htable.c:434-447 | every listing is in slot order: an item stands behind exactly those of earlier slots |
| `ListSpec.RemoveFirstIsExact` | src/list.c:144-165 | removing the first `n` matches cuts the list in two: none left before the cut, nothing changed after it |
| `ListSpec.RemoveLastIsExact` | src/list.c:144-165 | the mirror image for removal from the tail |
| `ListSpec.RemIsExact` | src/list.c:144-165 | LREM removes exactly the first min(count, occurrences), the last min(-count, occurrences) or all matches, keeps the order of the rest and shortens the list by the number returned |
| `ListSpec.CountIsMultiplicity` | src/list.c:144-165 | the occurrences counted are the multiplicity of the value in the list |
| `ListSpec.WithoutTakesOut` | src/list.c:144-165 | removing all occurrences takes out the value altogether and every other value not at all |
| `ListSpec.ProgressStep` | src/list.c:147-162 | one turn of the loop in either direction, counters included |
| `ListSpec.ProgressDone` | src/list.c:147-164 | where the loop stops, the list is the specified one and `i` the number removed |
| `LinkedLists.List.WalkVisits` | src/list.c:36-58 | walks along `next` from the head and `prev` from the tail meet the nodes in order and in reverse |
| `LinkedLists.List.WalksMirror` | src/list.c:36-88 | the two walks mirror each other, end after exactly `len` steps, and the end nodes have null outer links |
| `LinkedLists.List.constructor` | src/list.c:5-10 | a new list is empty |
| `LinkedLists.List.LPush` | src/list.c:36-46 | a new node before all others, links and length repaired |
| `LinkedLists.List.RPush` | src/list.c:48-58 | a new node after all others, links and length repaired |
| `LinkedLists.List.LPop` | src/list.c:60-73 | the first node, detached; null only for an empty list |
| `LinkedLists.List.RPop` | src/list.c:75-88 | the last node, detached; null only for an empty list |
| `LinkedLists.List.Index` | src/list.c:90-97 | the node at an index, null beyond the end, the head for a negative index |
| `LinkedLists.List.Set` | src/list.c:99-110 | one value replaced, false and no change beyond the end |
| `LinkedLists.List.Pos` | src/list.c:112-122 | the first occurrence, or -1 exactly when there is none |
| `LinkedLists.List.Range` | src/list.c:167-185 | the values between two indices, both included |
| `LinkedLists.List.NodeDel` | src/list.c:124-142 | one node unlinked, wherever it is, its own links and all values kept |
| `LinkedLists.List.Rem` | src/list.c:144-165 | the pointer loop, in either direction, leaves the list of the specification, well formed, and returns the number removed |
| `StoreSpec.FreshHashOk` | src/htable.c:264-266 | a hash started with one field holds exactly that field |
| `StoreSpec.FreshSetOk` | src/htable.c:284-286 | a set started with one member holds exactly that member |
| `StoreProperties.CarryProperties` | src/htable.c:245-288 | writing or removing one item leaves the other items alone or drops them, under an exact condition |
| `StoreProperties.EffectOk` | src/htable.c:245-418 | no operation writes an empty list, a hash or set with a zero counter, or an item of another kind over an existing one |
| `StoreProperties.DoProperties` | src/htable.c:245-418 | one operation keeps the store invariant and all kinds, and is its effect on the map of items if and only if it drops none |
| `StoreProperties.AllowedStays` | src/htable.c:387-418 | the type check made once stays true after an operation that empties and removes the key |
| `StoreProperties.AllowsMeans` | src/interpreter.c:68-70 | the type check passes if and only if the key is missing or the map of items holds one of that kind under it |
| `StoreProperties.CommandSafe` | src/interpreter.c:308-322 | after one type check every operation of a command of many arguments is memory-safe, the invariant and the kinds are kept |
| `StoreProperties.UntypedSafe` | src/interpreter.c:72-157 | DEL, SET and MSET are safe on keys of any kind and keep the invariant |
| `StoreProperties.EveryRunKeepsInv` | src/htable.c:307-317 | over every run of commands no stored list is empty and no stored hash or set has a zero counter, so popping never reads a null node |
| `StoreProperties.KindStays` | src/htable.c:252-255 | a key that is never gone in between keeps the kind of its item over any sequence of operations |
| `StoreProperties.KindNeverChanges` | src/interpreter.c:68-70 | over every run of commands the kind of a key only changes through its deletion |
| `StoreProperties.StoredCounterExact` | src/htable.c:387-396 | after every run of operations on a new store the hash under a key is what the HSETs and HDELs on it since it was last created make of a new table, and its counter is right if and only if no rehash among these drops a field |
| `StoreProperties.MiscountStays` | src/htable.c:428-448 | a hash or set with a wrong counter keeps one as long as its key is not gone, whatever the operations are; HGETALL answers nothing for such a hash |
| `StoreProperties.RemovalsLeaveMiscounted` | src/htable.c:387-418 | HDEL of any fields, or SREM of any members, the last one included, leaves such a hash or set under its key |
| `StoreProperties.MiscountedHashReached` | src/htable.c:260-268 | on a new store and under any key, HSET of the empty field and then of g leaves a hash with a wrong counter |
| `StoreProperties.EmptyHashReached` | src/htable.c:387-396 | HDEL of g then leaves a hash without fields under the key |
| `StoreProperties.MiscountedSetReached` | src/htable.c:280-288 | on a new store and under any key, SADD of the empty member and then of g leaves a set with a wrong counter |
| `StoreProperties.EmptySetReached` | src/htable.c:409-418 | SREM of g then leaves a set without members under the key |
| `StoreMeaning.EffectMeans` | src/htable.c:245-418 | an operation on an item is the operation on the map, sequence or set it stands for, with the same answer, if and only if it is faithful |
| `StoreMeaning.DoMeans` | src/htable.c:245-418 | an operation on the store is the operation on its meaning, effect and answer, if and only if it is faithful |
| `StoreMeaning.RunExact` | src/htable.c:245-418 | a run of operations is step by step the run on maps, sequences and sets if and only if every operation of it is faithful |
| `StoreMeaning.FreshRunExact` | src/htable.c:12-20 | the same for every run from a new store |
| `StoreMeaning.UnfaithfulRun` | src/htable.c:245-258 | on a new store, SET of the empty key after SET of b stores nothing, so this run is not that of the map |
| `StoreMeaning.RunMeans` | src/htable.c:245-418 | the final meaning and the answers of a faithful run are those of the run on maps, sequences and sets |
| `StoreMeaning.InitMeans` | src/htable.c:12-20 | the new store means the empty map |
| `Relabelling.RelabelInsert` | src/htable.c:109-123 | an insert, growth included, moves values without looking at them |
| `Relabelling.RelabelDelete` | src/htable.c:164-186 | so does a delete, shrinkage included |
| `Stores.TypedStore.constructor` | src/htable.c:12-20 | a new store is valid and empty |
| `Stores.TypedStore.Attach` | src/htable.c:260-288 | a new container is inserted; the store as a value gets its value |
| `Stores.TypedStore.Detach` | src/htable.c:164-186 | a key is deleted with its container |
| `Stores.TypedStore.ChangedInPlace` | src/htable.c:202-243 | changing one container in place changes only its item, as no two items share an object |
| `Stores.TypedStore.UpdateHash` | src/htable.c:202-214 | the hash a live key names changes in place, in its slot, and nothing else does; false for an absent key |
| `Stores.TypedStore.UpdateList` | src/htable.c:216-229 | the list a live key names grows in place and its length is returned; 0 for an absent key |
| `Stores.TypedStore.UpdateSet` | src/htable.c:231-243 | the set a live key names takes a member in place, with the answer of the add; false for an absent key |
| `Stores.TypedStore.SetStr` | src/htable.c:245-258 | a string set or overwritten; an item of another kind is refused |
| `Stores.TypedStore.Del` | src/htable.c:164-186 | a key of any kind deleted |
| `Stores.TypedStore.HSet` | src/htable.c:260-268 | a field set in place, or a hash started with it |
| `Stores.TypedStore.HDel` | src/htable.c:387-396 | a field deleted in place; the key goes when the counter reaches 0 |
| `Stores.TypedStore.Push` | src/htable.c:270-278 | a value pushed in place, or a list started with it; the new length |
| `Stores.TypedStore.Pop` | src/htable.c:307-317 | the value of the named end taken, from a node that is always there; the key goes with the last one |
| `Stores.TypedStore.LSet` | src/htable.c:379-385 | a value overwritten in place |
| `Stores.TypedStore.LRem` | src/htable.c:398-407 | matches removed in place; the key goes with the last value |
| `Stores.TypedStore.SAdd` | src/htable.c:280-288 | a member added in place, or a set started with it |
| `Stores.TypedStore.SRem` | src/htable.c:409-418 | a member removed in place; the key goes when the counter reaches 0 |
| `Stores.TypedStore.TypeOf` | src/htable.c:147-162 | the kind of the item under a key, none for a missing key |
| `Stores.TypedStore.HGet` | src/htable.c:299-305 | the field in the map of the hash, none for a missing key or field |
| `Stores.TypedStore.HGetAll` | src/htable.c:428-448 | all fields and values when the counter is exact, nothing otherwise |
| `Stores.TypedStore.HKeyVals` | src/htable.c:450-469 | all fields, or all values, under the same condition |
| `Stores.Pairs` | src/htable.c:434-447 | the copying loop stays in its array and ends early exactly when the counter is exact |
| `Stores.TypedStore.SMembers` | src/htable.c:482-488 | the members of the set in slot order |
| `Stores.TypedStore.SIsMember` | src/htable.c:319-325 | true exactly for the members |
| `Stores.TypedStore.CheckId` | src/htable.c:345-354 | an index counted from the end if negative, and whether it is in the list |
| `Stores.TypedStore.CheckIds` | src/htable.c:357-368 | two indices in the list and in order |
| `Stores.TypedStore.LIndex` | src/htable.c:370-377 | the value at an index, the first for a negative one, null beyond the end or for a missing key |
| `Stores.TypedStore.LRange` | src/htable.c:471-480 | the values between two indices, both included |
| `Stores.TypedStore.LPos` | src/htable.c:420-426 | the first occurrence, or -1 exactly when there is none |
| `Interpreter.RunSteps` | src/interpreter.c:314-316 | the argument loop performs exactly the sequence of operations, on a store that stays valid |
| `Interpreter.RunTyped` | src/interpreter.c:308-322 | type check, loop and reply: a type error changes nothing |
| `Interpreter.RunsAreCommands` | src/interpreter.c:308-322 | a command in the runs of EveryRunKeepsInv and KindNeverChanges leaves the store that the command of one call leaves |
| `Interpreter.FixedReplies` | src/interpreter.c:62-66 | a strict RESP2 decoder reads the OK reply as the bulk string OK and the two error replies as errors with their messages |
| `Interpreter.ArgcReply` | src/interpreter.c:56-60 | it reads the argument-count reply as an error that states the number given and what was expected |
| `Interpreter.ExecDel` | src/interpreter.c:72-85 | deletes the keys in order and counts those that were there |
| `Interpreter.ExecSet` | src/interpreter.c:114-129 | sets a value, or the empty string; answers OK even when nothing is set |
| `Interpreter.ExecMSet` | src/interpreter.c:149-157 | sets the pairs in order |
| `Interpreter.ExecHSet` | src/interpreter.c:279-293 | sets the fields in order, counting true answers |
| `Interpreter.ExecHDel` | src/interpreter.c:308-322 | deletes the fields in order, also after the hash was emptied midway |
| `Interpreter.ExecPush` | src/interpreter.c:399-413 | pushes the values in order and replies with the last length |
| `Interpreter.ExecPop` | src/interpreter.c:419-430 | pops one value, null for a missing key |
| `Interpreter.ExecSAdd` | src/interpreter.c:539-553 | adds the members in order, counting true answers |
| `Interpreter.ExecSRem` | src/interpreter.c:555-569 | removes the members in order, also after the set was emptied midway |
| `Interpreter.ExecLRem` | src/interpreter.c:509-524 | removes by count, after checking type and count in that order |
| `Interpreter.ExecIncr` | src/interpreter.c:176-218 | adds or subtracts 1 in an `int`; a missing key starts at 1 or -1; a value that is no number is an error that changes nothing |
| `Interpreter.ExecIncrBy` | src/interpreter.c:220-264 | adds or subtracts the operand in an `int`; a missing key takes the operand itself, for DECRBY too |
| `Interpreter.ExecGet` | src/interpreter.c:131-147 | the string under a key, null for a missing key, an error for another kind |
| `Interpreter.ExecHGetAll` | src/interpreter.c:324-335 | the array of fields and values, empty when the counter of the hash is not exact |
| `Interpreter.ExecHKeyVals` | src/interpreter.c:350-361 | the array of fields or of values, under the same condition |
| `Interpreter.ExecLIndex` | src/interpreter.c:448-466 | the value at an index counted from either end, an error out of range, null for a missing key |
| `Interpreter.ExecLRange` | src/interpreter.c:468-486 | the values between two indices counted from either end, an error when out of range or out of order |
| `Interpreter.ExecLSet` | src/interpreter.c:488-507 | overwrites a value in range and answers OK, an error out of range, null for a missing key |
| `Interpreter.SetThenGet` | src/interpreter.c:114-147 | after SET the reply to GET holds the value, or null exactly when the new key was dropped, never an older value; the client, and a strict RESP2 decoder, find it if and only if its length is an `int` |
| `Interpreter.CountsAdd` | src/interpreter.c:220-264 | two increments of a counter leave the store, and the reply, of one increment by the sum, wrap-around included |
| `Interpreter.CounterMeaning` | src/interpreter.c:176-264 | on a missing key a counter command leaves the printed first value, unless the new key is dropped, and replies it; on a number it leaves and replies the `int` of the sum; on anything else it changes nothing and replies an error |
| `Interpreter.FirstIncrement` | src/interpreter.c:182-208 | INCR of a missing key leaves "1" and replies :1, DECR of one leaves "-1" and replies :-1, unless the new key is dropped |
| `Interpreter.DecrOverrunsBuffers` | src/interpreter.c:198-218 | DECR of -2147483647 gives the least `int` without overflow, and neither the buffer of the new value nor that of the reply has room for it |
| `Interpreter.LeastPlusOneIsStored` | src/interpreter.c:114-129 | SET stores that value in a new store, under any key |
| `CommandMeaning.SAddMeaning` | src/interpreter.c:539-553 | SADD without a drop or duplicate: the set becomes its union with all arguments, and the reply states the number of new members |
| `CommandMeaning.SRemMeaning` | src/interpreter.c:555-569 | SREM: the set loses all arguments, the key goes if none is left, and the reply states the number of members removed |
| `CommandMeaning.HSetMeaning` | src/interpreter.c:279-293 | HSET: the last value of each field is merged in; the reply states the number of pairs, whether the fields are new or not |
| `CommandMeaning.HDelMeaning` | src/interpreter.c:308-322 | HDEL: the hash loses all arguments, the key goes if none is left, and the reply states the number of fields deleted |
| `CommandMeaning.PushMeaning` | src/interpreter.c:399-413 | LPUSH puts the arguments in reverse order before the list, RPUSH in order after it; the reply states the new length |
| `CommandMeaning.PopMeaning` | src/interpreter.c:419-434 | LPOP takes the first value, RPOP the last, and the key goes with the only one; the reply holds the value, null for a missing key, for the client and for a strict decoder if and only if its length is an `int` |
| `CommandMeaning.LRemMeaning` | src/interpreter.c:509-524 | LREM leaves the list without the matches, or no key when nothing is left, and the reply states how many were removed, 0 for a missing key |
| `CommandMeaning.LSetMeaning` | src/interpreter.c:488-507 | LSET replaces the value at the index and nothing else, on every store |
| `CommandMeaning.HGetMeaning` | src/htable.c:299-305 | a lookup of a field under a key finds the value of the map the store means, none for a missing key or field |
| `CommandMeaning.HGetAllMeaning` | src/interpreter.c:324-361 | a decoder of the HGETALL, HKEYS and HVALS replies finds every field of the map once with its value, in the same order in all three, if the counter is right and the lengths are `int`s; the reply for no array decodes to an empty one |
| `CommandMeaning.ReadMeaning` | src/htable.c:294-325 | what the other reads find under a key is the string, the list in order, or exactly the members of the set that the store means |
| `CommandMeaning.DelMeaning` | src/interpreter.c:72-85 | DEL without a drop: the keys are gone, and as many are counted as the store has fewer |
| `CommandMeaning.MSetMeaning` | src/interpreter.c:149-157 | MSET: each key takes its last value, but a hash, list or set stays as it is although the reply is OK |
| `Decimals.NDigits` | src/helper.c:83-91 | the number of decimal digits, none for 0, and none for the least `int`, whose negation is itself |
| `Decimals.DecimalLength` | src/helper.c:83-91 | the count is the printed length less the sign, but 0 instead of 1 for 0, and at least 2 too small for the least `int` |
| `Decimals.IsNumber` | src/helper.c:93-101 | true exactly for an optional minus sign and digits, possibly none of either |
| `Decimals.StrToI` | src/helper.c:103-113 | the signed value of the digits, reduced to an `int` |
| `Decimals.ReadBackDecimal` | src/helper.c:93-120 | what is printed for an integer is recognised as a number and stands for it, and every `int` is read back |
| `Decimals.PrintBackIffCanonical` | src/helper.c:93-120 | a string recognised as a number survives reading and printing if and only if it is the canonical numeral of an `int` |
| `Resp.ReplyArrayN` | src/interpreter.c:22-36 | header, then the items in order: numbers as integers, others as bulk strings, missing ones as null |
| `Resp.ReplyArray` | src/interpreter.c:38-54 | the same with the items counted on the way, and an empty array for none |
| `Resp.BuffersSuffice` | src/interpreter.c:7-60 | the buffers computed from what `ndigits` answers, for integers, printed values, array headers and the argument-count error, have room for the text and its NUL if and only if the number is not the least `int`; that of a bulk string if and only if its length is at most 2147483630, where the `int` sum of its size does not overflow |
| `Resp.ParseInt` | src/client.c:48-58 | the number of the first line, reduced to an `int` |
| `Resp.ParseStr` | src/client.c:60-75 | the announced number of bytes after the first line, or null for a negative number |
| `Resp.IntegerRoundTrip` | src/client.c:48-58 | the client reads the reply of every `int` back, whatever follows it |
| `Resp.StringRoundTrip` | src/client.c:60-75 | the client reads a string reply back, null and strings with CR LF included, whatever follows it, if and only if its length is an `int` |
| `Resp.IntegerDecodes` | src/interpreter.c:16-20 | a strict RESP2 decoder, which demands CR LF after the line, finds the integer and what follows the reply |
| `Resp.BulkDecodes` | src/interpreter.c:7-14 | a strict RESP2 decoder, which demands CR LF after the line and after the announced bytes, finds the string and what follows the reply if its length is an `int`, and never finds it otherwise |
| `Resp.NullDecodes` | src/interpreter.c:8-9 | it finds null, for which only the length -1 stands |
| `Resp.ErrorDecodes` | src/interpreter.c:56-66 | it finds an error reply with its message |
| `Resp.ItemsDecode` | src/interpreter.c:25-34 | a decoder as strict as RESP2 finds the items of an array body one for one, and what follows, if and only if every announced length is an `int` |
| `Resp.ArrayRoundTrip` | src/interpreter.c:22-54 | array replies are framed unambiguously: a decoder as strict as RESP2 finds the items sent and what follows the reply if and only if their number and lengths are `int`s |
| `Resp.ItemPreservedIff` | src/interpreter.c:30-30 | an element that reads as a number is sent as that number in an `int`; it is sent as stored if and only if it is no number or the canonical numeral of an `int`; with its buffer large enough, if and only if that `int` is not the least one |
| `Resp.AlteredItems` | src/interpreter.c:45-45 | the empty string, a lone minus sign, 007 and 2147483648 are sent as 0, 0, 7 and -2147483648 |
| `Tokens.PrintRoundTrip` | src/parser.c:32-92 | arguments without quotes, printed with quotes where empty or holding white space, tokenize back to the same list |
| `Tokens.TokensRepresentable` | src/parser.c:32-92 | every token of a message is one that the printer can print |
| `Tokens.CarriedIffRepresentable` | src/parser.c:32-92 | some message carries an argument list if and only if every argument is free of quotes, or non-empty, free of white space and not starting with a quote |
| `Tokens.SeparatorSplits` | src/parser.c:69-92 | two argument lists on a line with a blank, tab, line feed, carriage return, vertical tab or form feed between them are the arguments of both |
| `Tokens.SeparatorEnds` | src/parser.c:69-92 | one of these six at the end of a line, such as the newline of a typed command, belongs to no argument |
| `Tokens.OneToken` | src/parser.c:32-47 | a text without these six that does not start with a quote is one token, so nothing else separates |
| `Tokens.QuotesEnclose` | src/parser.c:49-67 | a text between two quotes, of either kind each, is a token of its own whatever follows |
| `Tokens.OpenQuote` | src/parser.c:49-67 | without a second quote the token runs to the end of the line |
| `Parsers.Parser.Advance` | src/parser.c:25-30 | one character on, staying at the end |
| `Parsers.Parser.ParseId` | src/parser.c:32-47 | the characters up to the next white space |
| `Parsers.Parser.ParseString` | src/parser.c:49-67 | the characters up to the next quote of either kind, which is skipped |
| `Parsers.Parser.GetNextToken` | src/parser.c:69-92 | the next token of the specification; a token always advances the position |
| `Parsers.Parser.GetArgc` | src/parser.c:94-101 | terminates and counts the tokens of the whole message less one |
| `Parsers.Parse` | src/parser.c:117-223 | the second pass gets exactly the tokens the first counted, none of them null; NOOP if and only if there are no tokens |

## Left out

- Sockets, `readline` and `writeline`, the 1024-byte message buffer, the server and client loops and `main` (src/server.c, src/hyperkv.c, src/hyperkv-cli.c, src/client.c:1-47): input and output only.
- Logging (src/log.c, src/log_init.c), the benchmarks and the test harness: no effect on results.
- `malloc`, `free`, `strdup` and running out of memory: strings are immutable values and an object that is no longer reachable is simply dropped. That the buffers are large enough is stated by Resp.BuffersSuffice and by the array bounds in the listing methods.
- `sprintf` onto a buffer that overlaps its own argument, in `parse_id` and `parse_string`: modelled as appending the character.
- The dispatch on command names, and the commands that only combine reads shown here (EXISTS, TYPE, MGET, STRLEN, HGET, HEXISTS, HMGET, HLEN, LLEN, LPOS, SISMEMBER, SMEMBERS, SMISMEMBER): easy members. MGET checks the type of its first key only; what it reads under later keys that name a container has no defined value.
- Strings holding NUL: C strings end there. Tokens.PrintRoundTrip and the parser exclude NUL from a message; table keys are arbitrary strings, which includes all C strings.
- Signed overflow, which C leaves undefined, in the numbers a command names: taken as wrap-around, so what another compiler makes of it is not modelled.
- The width of `int` in the tables and lists: `size`, `used`, `len` and the counts of a command are unbounded integers. Hashing.ProbeSumFitsInt says for which table sizes the probe sum stays in range.
- Hashing.HashFunc: the sum of home and step multiple is unbounded here; Hashing.ProbeSumFitsInt gives the sizes for which it fits 32 bits.
- Primes.IsPrime: the bound `floor(sqrt(x))` is written `i * i <= x`, so the rounding of `sqrt` on doubles is not modelled.
- Decimals.StrToI: requires a string that reads as a number, which every caller checks first.
- Resp.ParseInt: requires a reply with a line end, as the source reads past the end without one.
- Resp.ParseStr: requires a reply that holds the bytes it announces, as the source reads past the end otherwise.
- Parsers.Parse: the message is modelled without NUL; how the two strings of the command object are allocated is not.
- Interpreter.ExecIncr: does not model what the process does after the overrun that Interpreter.DecrOverrunsBuffers shows; the store and the reply are those that were computed.
- Interpreter.ExecIncrBy: requires a numeric operand when the key is missing, because the source then passes a null pointer to `is_number`, and stops at the same overrun as INCR and DECR. DECRBY on a missing key stores the operand itself, not its negation, as the source does.
- Interpreter.RunSteps: stands for the argument loop of every command of several arguments, with the operations of the command as a list; the counters `oks` are computed from the answers afterwards.
- HashTables.HashTable.Set: has no type test, as the hashes inside the store hold strings only; the store's own SET, with the test, is Stores.TypedStore.SetStr.
- HashTables.HashTable.Insert: takes an absent key only, as every caller in the source checks; what an insert of a present key would do is not stated.
- LinkedLists.List.Range: takes both indices in the list, as its caller checks before it.
- StoreProperties.CommandSafe: the kind of a key is kept by every single operation and every typed command; a MSET may drop a container by a rehash and set the same key as a string later in the same command, and KindNeverChanges therefore speaks of keys that are never gone in between.
- TableRuns.AmortisedAnyRun: counts the moves of growth. A deletion moves fewer items than a tenth of the slots, but how often in a row it can do so depends on the gaps between primes, on which nothing is proved.
