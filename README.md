# hashtable: a verified model of the table engine

This project models the core of the C library `hashtable`. The core is a
separate-chaining hash table from byte-string keys to byte-string values. It
has two layers:

- the entry layer (`src/hashitem.c`): a node holds a key buffer, a value
  buffer and a link. Each buffer is either copied into memory the node owns or
  borrowed from the caller, as the flags `HT_KEY_CONST` and `HT_VALUE_CONST`
  say;
- the table layer (`src/hashcore.c`): a bucket array of singly linked chains,
  the counters `key_count` and `collisions`, and a load factor that doubles
  the bucket count when it passes its limit.

Files:

- `chain_model.dfy` (module `ChainModel`): the table as a value, one sequence
  of key/value pairs per bucket in chain order. It holds the functions that
  specify every operation (`Place`, `Remove`, `Rehash`), the mapping a table
  stands for (`ToMap`) and the counting functions (`Total`, `NonEmpty`,
  `Collisions`), with their lemmas.
- `hash_item.dfy` (module `HashItem`): the flags, heap buffers, the
  `HashEntry` class and the entry operations.
- `hash_core.dfy` (module `HashCore`): the `HashTable` class. Its real
  fields are those of `hash_table_t`: the digest binding, the counters, the
  bucket array, the flags and the load factors. Its ghost fields are `chains`
  (the entries of each bucket in link order), `model` (the pairs they hold)
  and `slot` (where each entry is linked). `Valid()` ties the array and the
  `next` links to `chains`, the entries to `model`, and the counters to
  `Total` and `Collisions` of the model. It also says every pair sits in the
  bucket its digest selects, and no key appears twice.
- `scenarios.dfy` (module `Scenarios`): the first three tests of
  `tst/main.c`, stated as a method whose postcondition is every check those
  tests make.

Memory is modelled with objects:

- A buffer is a `Buffer` whose bytes are fixed when it is filled.
- A borrowed buffer is the caller's own object. An owned one is a fresh object.
- `free` is modelled by returning the set of objects a call releases.
- `malloc` is modelled by a count of the requests the allocator will still grant.

The digest (`phashfunc_x86_32`) is a parameter of type `(Bytes, bv32) -> bv32`,
applied to the key and the process-wide seed 2976579765 (`src/hashcore.c:17`).

## Model

| member | source | states |
|---|---|---|
| ChainModel.Bucket | src/hashcore.c:380-387 | the bucket of a key is its digest reduced modulo the bucket count, always below that count |
| ChainModel.CollisionsIdentity | src/hashcore.c:208-211 | the collision count equals the key count minus the number of non-empty buckets |
| ChainModel.SizeIsTotal | src/hashcore.c:332-335 | in a well-formed table the number of mapped keys is the sum of the chain lengths |
| ChainModel.ToMapAt | src/hashcore.c:227-250 | a key is mapped exactly when its own bucket's chain holds it, and maps to the value found there |
| ChainModel.FlattenKeys | src/hashcore.c:360-375 | walking all buckets in order meets pairwise different keys, and exactly the mapped ones |
| ChainModel.PlaceInChainReplace | src/hashcore.c:191-205 | placing a pair whose key sits at rank j replaces the pair at rank j and nothing else |
| ChainModel.PlaceInChainAppend | src/hashcore.c:208-209 | placing a pair whose key the chain lacks appends it at the tail |
| ChainModel.PlaceInChainMap | src/hashcore.c:185-212 | placing into a chain updates the chain's mapping at that key |
| ChainModel.PlaceWellFormed | src/hashcore.c:172-212 | insertion keeps every pair in its bucket and all keys distinct |
| ChainModel.PlaceMap | src/hashcore.c:172-212 | insertion maps the key to the new value and leaves every other key as it was |
| ChainModel.PlaceCounts | src/hashcore.c:177-211 | insertion adds one key exactly when the key is new, and one collision exactly when the key is new and its bucket was non-empty |
| ChainModel.RemoveFromChainAt | src/hashcore.c:298-307 | removal drops the first pair with the key from its chain and keeps the order of the rest |
| ChainModel.RemoveFromChainAbsent | src/hashcore.c:298-322 | removing a key the chain lacks leaves the chain unchanged |
| ChainModel.RemoveWellFormed | src/hashcore.c:286-323 | removal keeps every pair in its bucket and all keys distinct |
| ChainModel.RemoveMap | src/hashcore.c:286-323 | removal deletes exactly that key from the mapping |
| ChainModel.RemoveCounts | src/hashcore.c:309-312 | removal takes one key off exactly when the key was mapped, and one collision exactly when its chain had two or more pairs |
| ChainModel.PlaceAllSpec | src/hashcore.c:143-155 | re-inserting a sequence of pairs keeps the table well formed and applies the updates in order |
| ChainModel.PlaceAllTotal | src/hashcore.c:143-155 | re-inserting pairwise different new keys adds exactly that many keys |
| ChainModel.PlaceAllStep | src/hashcore.c:147-151 | during a rehash each pair's key is not in the new table yet, and placing it extends the placed prefix by one |
| ChainModel.RehashSpec | src/hashcore.c:143-164 | rehashing into any positive bucket count keeps the table well formed and keeps the mapping and the key count |
| HashItem.HashEntry.SetValue | src/hashitem.c:103-125 | a borrowed value is the caller's buffer; an owned one is a fresh copy of the first n bytes and the old buffer is released; on allocation failure the value is null and its size stale; the link is untouched |
| HashItem.CreateEntry | src/hashitem.c:31-77 | an entry exists exactly when every allocation the flags need is granted; it records both sizes and null for its link, holds the input bytes, and stores borrowed buffers as given; a refused allocation releases only fresh objects |
| HashItem.ReleasedOnValueFailure | src/hashitem.c:62-68 | when the value copy is refused, the key is released exactly when the entry owns it |
| HashItem.BorrowedKeyFreedAsWritten | src/hashitem.c:62-68 | with a borrowed key and an owned value the code as written frees the caller's key; the corrected rule does not |
| HashItem.Destroy | src/hashitem.c:79-90 | destroying an entry frees the node, the key only when it is owned, the value only when it is owned |
| HashItem.OwnedAllSpec | src/hashcore.c:97-106 | destroying a sequence of entries frees exactly what destroying each of them frees |
| HashItem.KeyCompare | src/hashitem.c:92-101 | two entries match exactly when their keys have equal sizes and equal bytes; values take no part |
| HashItem.KeyCompareReflexive | src/hashitem.c:92-101 | every key matches itself |
| HashItem.KeyCompareSymmetric | src/hashitem.c:92-101 | matching does not depend on argument order |
| HashItem.KeyCompareTransitive | src/hashitem.c:92-101 | matching is transitive |
| HashItem.KeyCompareSizes | src/hashitem.c:97-98 | keys with different sizes never match, even when one is a prefix of the other |
| HashCore.NewBuckets | src/hashcore.c:66-70 | the fresh bucket array has n slots, all null |
| HashCore.RemoveCollisions | src/hashcore.c:309-312 | the corrected counter update gives the collision count of the table after the removal, wherever the pair sat in its chain |
| HashCore.RemoveHeadCollisionsAsWritten | src/hashcore.c:311-312 | removing the head of a chain of two or more, the update as written leaves the counter one above the table's collision count |
| HashCore.HashTable.EmptyValid | src/hashcore.c:59-70 | a bound table whose buckets are null and counters zero is valid and maps nothing |
| HashCore.HashTable.Init | src/hashcore.c:33-73 | 64 buckets, zero counters and load factor, the given flags, limit and digest, an empty mapping; valid exactly when a digest is bound |
| HashCore.HashTable.Sized | src/hashcore.c:123-140 | the local table of a resize: n null buckets, zero counters, the old table's digest, flags and limit; valid and empty |
| HashCore.HashTable.Index | src/hashcore.c:380-387 | the index is below the bucket count |
| HashCore.HashTable.Size | src/hashcore.c:332-335 | the key count is the number of mapped keys |
| HashCore.HashTable.Get | src/hashcore.c:225-253 | a value buffer comes back exactly when the key is mapped; its first valueSize bytes are the mapped value; a miss keeps the caller's size |
| HashCore.HashTable.Contains | src/hashcore.c:255-275 | true exactly when the key is mapped |
| HashCore.HashTable.LinkHead | src/hashcore.c:177-186 | into an empty bucket the entry becomes the head; the key count grows by one and the collision count does not change |
| HashCore.HashTable.FindInChain | src/hashcore.c:191-197 | the walk stops at the first entry with the key, or else at the tail |
| HashCore.HashTable.LinkTail | src/hashcore.c:208-212 | a new key is appended at the tail; both counters grow by one and the load factor is recomputed |
| HashCore.HashTable.ReplaceValue | src/hashcore.c:199-205 | an equal key gets the new value in place; chains, counters and links stay; the new entry is freed |
| HashCore.HashTable.PlaceInChain | src/hashcore.c:185-212 | in a non-empty chain: a collision exactly when the key is new, with the counters, the load factor and the freed objects that follow |
| HashCore.HashTable.Place | src/hashcore.c:172-212 | without autoresize: the model becomes `Place` of the old one, the mapping is updated at the key, the counters follow from whether the key was new and its bucket empty |
| HashCore.HashTable.Rehome | src/hashcore.c:150 | re-inserting an entry with a new key places its pair and adds the entry |
| HashCore.MoveEntry | src/hashcore.c:148-151 | one step of a chain's move: the next link is read, then the entry is placed in the new table |
| HashCore.MoveChain | src/hashcore.c:146-152 | moving one chain places its pairs, in chain order, into the new table, which gains exactly that chain's entries |
| HashCore.MoveBucket | src/hashcore.c:144-154 | after bucket i the new table holds the first i + 1 chains placed in walk order, and bucket i is null |
| HashCore.MoveBucketChain | src/hashcore.c:146-152 | moving chain i extends the new table to the first i + 1 chains placed in walk order, and the chains after i still keep their links |
| HashCore.MoveInto | src/hashcore.c:146-152 | given a chain whose pairs are not in the new table yet and whose entries are in no other chain, moving it keeps the walk state one bucket further on |
| HashCore.HashTable.MoveAll | src/hashcore.c:143-155 | after the walk the new table holds the old model rehashed, only old entries, and every old bucket is null |
| HashCore.HashTable.TakeOver | src/hashcore.c:156-164 | with every bucket cleared, destroying frees only the bucket array; the table then takes the new table's array, size, counters and digest and keeps its flags, limit and load factor |
| HashCore.HashTable.Adopt | src/hashcore.c:158-164 | the table takes the local table's digest, array, size, counters and entries and stays valid; flags, limit and current load factor are not copied |
| HashCore.HashTable.Resize | src/hashcore.c:120-166 | the model becomes the old one rehashed into newSize buckets; mapping, key count, digest, flags, limit and load factor stay; no entry is added; only the old array is freed |
| HashCore.HashTable.Grow | src/hashcore.c:216-221 | the bucket count doubles, the mapping stays and the load factor is recomputed for the new size |
| HashCore.HashTable.HeInsert | src/hashcore.c:172-223 | the mapping is updated at the key; a resize happens exactly when the insert adds a collision, autoresize is on and the new load factor passes the limit, and then the model is rehashed into twice the buckets |
| HashCore.HashTable.Insert | src/hashcore.c:280-284 | with every allocation granted, the mapping is updated at the key and the key count grows exactly when the key is new; the model is `Place` of the old one, rehashed into twice the buckets exactly when the insert adds a collision, autoresize is on and the load factor passes the limit; a collision recomputes the load factor; a replacement keeps the entries and frees only the new node's objects and an owned old value |
| HashCore.HashTable.FindForRemove | src/hashcore.c:296-322 | the walk stops at the first entry with the key, keeping its predecessor, or runs off the chain |
| HashCore.HashTable.Bypass | src/hashcore.c:304-312 | the bucket or the predecessor takes the entry's successor; the key count drops by one and the collision count by the corrected update |
| HashCore.HashTable.Unlink | src/hashcore.c:304-312 | the entry leaves its chain; the model becomes `Remove` of the old one; the table stays valid |
| HashCore.HashTable.Detach | src/hashcore.c:304-312 | the entry is dropped from its chain's ghost record and its pair from the model; the bucket head or the predecessor's link takes its successor; no other link or bucket changes; the counters follow the corrected rule |
| HashCore.HashTable.UnlinkEntry | src/hashcore.c:304-315 | the entry leaves its chain and is destroyed |
| HashCore.HashTable.Remove | src/hashcore.c:286-323 | the key leaves the mapping; when it was mapped, the key count drops by one and the collision count drops exactly when its chain had two or more; an absent key changes nothing |
| HashCore.HashTable.EntriesKeys | src/hashcore.c:356-375 | the walk meets key-count entries with pairwise different keys, exactly the mapped keys |
| HashCore.HashTable.FillKeys | src/hashcore.c:356-375 | the walk writes every key pointer in walk order; the corrected check never reports, the check as written reports on every non-empty table |
| HashCore.HashTable.Keys | src/hashcore.c:337-378 | null and zero for an empty table; otherwise an array of key-count key pointers in walk order |
| HashCore.HashTable.DestroyEntries | src/hashcore.c:97-106 | walking every chain frees exactly what destroying each entry frees |
| HashCore.HashTable.Destroy | src/hashcore.c:86-118 | the entries and the bucket array are freed; no array, no digest, zero size and counters; flags and load factors stay |
| HashCore.HashTable.Reset | src/hashcore.c:108-117 | no array, no digest, zero size and counters, nothing stored; flags, limit and load factor stay |
| HashCore.HashTable.ClearAsWritten | src/hashcore.c:75-84 | as written, the cleared table has no digest and is not valid, though it is empty with 64 buckets |
| HashCore.HashTable.Clear | src/hashcore.c:75-84 | the corrected clear leaves a valid, empty table of 64 buckets under the same digest, flags and limit, with zero counters and load factor |
| Scenarios.Test1 | tst/main.c:61-91 | inserting Key1 with Data1 into the empty table maps exactly that pair; the key is then found and its value has Data1's 11 bytes |
| Scenarios.Test2 | tst/main.c:97-130 | inserting Key1 again with Data2 replaces the value: one key, a non-null key list, and Data2's 11 bytes |
| Scenarios.Test3 | tst/main.c:136-165 | removing Key1 empties the table: the key is missing and no key is listed |
| Scenarios.Run | tst/main.c:32-51 | on a table initialised with borrowed keys and values and limit 0.05, under any digest, every check of the first three tests passes |

## Left out

- I/O: the `debug` macro and its messages, `exit(-1)` when `ht_init` cannot allocate (`src/hashcore.c:54-57`), and `main_test4` of `tst/main.c`, a stress run driven by `rand()` and the clock.
- MurmurHash3 (`inc/murmur.h` only declares it): the digest is a parameter. The two 128-bit digest pointers are never called and are dropped.
- `ht_set_seed` (`src/hashcore.c:328-330`): the seed is the constant 2976579765. Re-seeding a table that holds keys would lose them.
- 32-bit wrap-around: `key_count`, `collisions`, `array_size` and `new_size * sizeof(...)` are unbounded integers. Overflow of `array_size * 2` is not modelled.
- `double` arithmetic: the load factors are `real`, so the comparison at `src/hashcore.c:216-217` is exact and has no rounding.
- Allocation failure in `ht_init`, `ht_resize` and `ht_keys_pp` is not modelled: those allocations always succeed. `he_create_p` and `he_set_value` model it.
- HashCore.HashTable.ReplaceValue: the replacement's value copy always succeeds. `HashItem.HashEntry.SetValue` models the failure on its own.
- HashCore.HashTable.Insert: requires that every allocation `he_create_p` needs is granted. The source passes a NULL entry on to `ht_he_insert`, which dereferences it; this model does not follow it there.
- HashCore.HashTable.Rehome: the re-insertion inside `ht_resize` never autoresizes. In the source it runs `ht_he_insert` on the local table, which could start a nested resize. The mapping would be the same, but the final bucket count could differ, so the `arraySize` that HashCore.HashTable.Resize, HashCore.HashTable.Grow, HashCore.HashTable.HeInsert and HashCore.HashTable.Insert promise after a resize is the one the program reaches only when no nested resize happens.
- HashCore.HashTable.Sized: the local table's load factor is set to zero. The source leaves it uninitialised, but it is never read before being written.
- HashCore.HashTable.Resize: requires `newSize > 0`, because `ht_index_ui` would divide by zero. It states that no entry is added, not that every old entry survives; the mapping and the key count carry that.
- The `released` sets are value-level bookkeeping. The model does not prove that no object is freed twice across calls.
- HashCore.HashTable.Get: `ht_get_p` accepts a NULL `value_size` pointer and then skips writing the size; the model always returns the size.
- HashCore.HashTable.HeInsert: the autoresize test reads the corrected collision count (third row of "## Findings"). After the head of a chain has been removed, the program's count is higher than the model's, so the program can resize on an earlier insert than the model does.
- HashItem.CreateEntry: a value is always a buffer object. Under `HT_VALUE_CONST` the source stores a caller's NULL value pointer as is, and `ht_get_p` then returns NULL for a key that is present (`src/hashcore.c:243-245`), against the promise in `inc/hashcore.h` that NULL means absent; `HashCore.HashTable.Get`'s "null exactly when absent" holds because that case cannot arise here.
- HashItem.CreateEntry: the model allocates the node after both buffers, so a failed call never holds a node. The source allocates the node first and frees it on each failure path (`src/hashitem.c:49`, `src/hashitem.c:66`); that free is not in `released`.

## Findings

| source | as written | input that shows it | evidently intended | confidence | as-written member | corrected member |
|---|---|---|---|---|---|---|
| src/hashcore.c:75-84 | `ht_clear` calls `ht_destroy`, which sets the digest pointers to NULL, and then passes those NULL pointers to `ht_init` (build without `__WITH_MURMUR`) | any valid table: after `ht_clear` its digest is NULL and the next insert calls through NULL | the table keeps its digest, as it keeps its flags and limit | high, not executed | HashCore.HashTable.ClearAsWritten | HashCore.HashTable.Clear |
| src/hashitem.c:62-68 | when the value copy fails, `he_create_p` frees `pentry->pkey` whatever the flags | flags `HT_KEY_CONST`, allocator granting two requests: the caller's key buffer is freed | free the key only when the entry made its own copy | high, not executed | HashItem.BorrowedKeyFreedAsWritten | HashItem.ReleasedOnValueFailure |
| src/hashcore.c:311-312 | `collisions` drops only when the removed entry had a predecessor | remove the head of a chain of two: the counter stays one above the number of non-head entries and drifts upward | drop it whenever the bucket keeps an entry | medium, not executed | HashCore.RemoveHeadCollisionsAsWritten | HashCore.RemoveCollisions |
| src/hashcore.c:370 | the sanity check tests `*pkey_count >= key_count` | any non-empty table: the check fires at the last key | report only a count beyond `key_count` (`>`) | high, not executed | HashCore.HashTable.FillKeys | HashCore.HashTable.Keys |

For the third row, `HashCore.CollisionsAfterRemoveAsWritten` is the update as
written and `HashCore.CollisionsAfterRemove` the corrected one, which the model
uses. For the fourth row, `HashCore.TooManyKeysAsWritten` and
`HashCore.TooManyKeys` are the two checks. `FillKeys` reports both outcomes:
`reportedAsWritten` holds on every non-empty table, and `reported` is always
false.

## Where the code is followed

- `he_set_value`: when the new value cannot be allocated it returns before
  setting `value_size` (`src/hashitem.c:110-113`). The model keeps the old size,
  with a null value.
- `he_key_compare_i` compares keys only, although the comment at
  `inc/hashcore.h:109` says values are compared too.
- An explicit `ht_resize` does not refresh `current_load_factor`
  (`src/hashcore.c:158-164`). The next colliding insert (`src/hashcore.c:212`)
  or an autoresize (`src/hashcore.c:219-220`) recomputes it.
- Placement after a resize uses the digest modulo the new bucket count, as
  `ht_index_ui` does (`src/hashcore.c:380-387`).
