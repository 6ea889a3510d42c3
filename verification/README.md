# primitive-map: addressing, probing, buckets and stores

A Dafny model of the core of `primitivemap`, a Rust hash map for primitive integer
keys over a fixed table of buckets. A key is hashed by `DefaultHasher` (the identity
on 8-bit keys, `v ^ v >> 7` on wider ones), compressed to an address with
`% table length`, and then the store is walked in wrap-around probe order
(`WrappingIndexIterator`) from that address. `insert` writes to the first bucket that
has not reached its maximum capacity; `get` and `get_mut` read the first bucket whose
own `get` finds the key. The bucket type decides everything else: `OptionBucket`
slots give open addressing with linear probing, while `VecBucket`, `SmallVecBucketN`
and `BTreeBucket` never fill and give separate chaining.

Modules, following the crate's structure:

- `Common`: `Option`, and a `Result` whose failure names the panic the Rust code raises.
- `Hash` (`src/hash.rs`): keys of the eight primitive widths as bit-vectors, `hash`,
  `compress` and the address. Signed keys carry the arithmetic shift and the
  sign-extending `as usize`; `usize` is 64 bits.
- `Probe` (`src/bucket/helpers.rs`): the iterator as a value with a pure `Next`, a
  method `Collect` that runs it to the end, and the probe order it yields.
- `OptionBucket`, `ListBucket` (`VecBucket` and every `SmallVecBucketN`) and
  `BTreeBucket` (`src/bucket/buckets/*`): the bucket implementations.
- `Buckets` (`src/bucket/mod.rs`): the `Bucket` trait as a sum type over those
  implementations, chosen by a `Policy`.
- `Store` (`src/bucket/stores/*`): `search_bucket`, `search_entry`,
  `search_entry_mut` over a slice, and the `Vec` and fixed-array constructors.
- `PrimitiveMap` (`src/lib.rs`): `get_addr`, `insert`, `get`, `get_mut`, the
  constructors, `Clone` and the type aliases.
- `Chaining` and `LinearProbing`: what `insert` and `get` do for the two families of
  bucket types, and the map's unit tests stated for all inputs of their shape.
- `LegacyBucket` (`src/bucket.rs`): the older push-only bucket API, with a fixed
  two-place `ArrayBucket` and 2048-bucket lists.

Mutation is modelled functionally. An operation returns the new map, and a mutable
reference returned by a search is the index of the bucket it found; `WriteThrough`
writes through it. A Rust panic is an `Err` naming it: an assertion in the iterator,
a remainder by zero, the `expect` on exhausted capacity, `initialized_with_capacity`
of an array store, or an index past the end.

Behaviours one might expect that the code does not have:

- An iterator started at `start == length > 0` yields a full cycle `0, ..., length - 1`,
  not nothing.
- `insert` on a table with no bucket left panics through `expect`. It does not return
  a recoverable error.
- A single slot's `insert` replaces whatever it holds, under any key. It does not fail
  when the slot is full.
- `BTreeBucket` defines `len`, `remove_entry` and `clear`, although the `Bucket` trait
  declares none of them.
- The slice store defines `search_bucket`, `search_entry` and `search_entry_mut`,
  although the `BucketStore` trait declares none of them. The map calls all three
  through its `BucketStore` bound.

## Model

| member | source | states |
|---|---|---|
| Hash.Remainder | src/hash.rs:40-42 | `% n` panics exactly when `n` is 0; otherwise the result lies below `n`, and a value already below `n` is its own remainder |
| Hash.DefaultHash | src/hash.rs:33-127 | the hash has the key's own type, width and signedness, and an 8-bit key is its own hash |
| Hash.AsUsize | src/hash.rs:39-126 | `hash as usize` lies below 2^64 and keeps the hash's low bits. It is the bit pattern itself unless the hash is negative, and its top bit is set exactly when a narrower hash is negative |
| Hash.Compress | src/hash.rs:111-114 | `compress` panics exactly for an empty table, and otherwise gives an index inside the table |
| Hash.CompressOwnIndex | src/hash.rs:63-66 | a non-negative hash below the table length is its own index |
| Hash.Address | src/hash.rs:33-126 | computing an address panics exactly for an empty table, and otherwise gives an index inside the table |
| Hash.ByteKeyOwnAddress | src/hash.rs:33-54 | a non-negative 8-bit key below the table length is its own address |
| Hash.HashInjective | src/hash.rs:57-120 | two keys with the same hash are equal when the first key is unsigned or 8 bits wide |
| Hash.AddressInRange | src/hash.rs:112-114 | every key's address lies in `[0, n)` for a non-empty table; an empty table is the remainder-by-zero panic |
| Hash.U8OwnAddress | src/hash.rs:35-42 | the `u8` and `i8` hashes are the identity, and in 256 buckets a `u8` key's address is the key itself |
| Hash.SignedHashCollides | src/hash.rs:71-73 | with the arithmetic shift, 0 and -1 hash alike as `i16` and as `i32`, and a signed 16-bit hash never has its sign bit set |
| Hash.SmallI32Hash | src/hash.rs:95-97 | for a non-negative `i32` below 1024 the hash is `v ^ (v >> 7)` and stays below 1024 |
| Hash.SmallScrambleInjective | src/hash.rs:95-97 | distinct values below 1024 scramble to distinct values |
| Hash.SmallI32Address | src/hash.rs:95-102 | a non-negative `i32` key below 1024 has its scramble as its address in 1024 buckets |
| Hash.SmallI32KeysOwnAddresses | src/hash.rs:93-102 | distinct `i32` keys below 1024 get distinct addresses in 1024 buckets |
| Hash.ScrambleInvertible16 | src/hash.rs:59-61 | the `u16` scramble is undone by shift-xors by 7 and 14, so it is injective |
| Hash.ScrambleInvertible32 | src/hash.rs:83-85 | the `u32` scramble is undone by shift-xors by 7, 14 and 28, so it is injective |
| Hash.ScrambleInvertible64 | src/hash.rs:107-109 | the `u64` and `usize` scramble is undone by shift-xors by 7, 14, 28 and 56, so it is injective |
| Probe.New | src/bucket/helpers.rs:15-23 | panics exactly when `start > length`; otherwise a valid iterator positioned at `start` that has not yet run |
| Probe.Next | src/bucket/helpers.rs:28-45 | a yielded index is below `length` and the cursor moves past it; a `None` leaves the iterator exhausted, and an exhausted iterator keeps yielding `None`; the wrap recurses at most once |
| Probe.ProbeOrder | src/bucket/helpers.rs:30-44 | the probe order has exactly `length` items, each below `length` |
| Probe.NextAfter | src/bucket/helpers.rs:28-45 | after `k < length` items the iterator yields the `k`-th index of the probe order |
| Probe.NextAfterAll | src/bucket/helpers.rs:42-44 | after `length` items the iterator yields nothing |
| Probe.Collect | src/bucket/helpers.rs:15-45 | running the iterator to the end panics when `start > length` and otherwise yields exactly the probe order |
| Probe.ProbeOrderIsRotation | src/bucket/helpers.rs:30-44 | the output is `start..length` followed by `0..start`, and a start equal to the length gives a full cycle |
| Probe.WrapIsRemainder | src/bucket/helpers.rs:34-40 | counting on from `start` and wrapping once is `(start + i) % length` |
| Probe.ProbeOrderIsModular | src/bucket/helpers.rs:30-44 | the `i`-th index yielded is `(start + i) % length` |
| Probe.StepOf | src/bucket/helpers.rs:30-44 | every index below `length` is reached at some step of the probe order |
| Probe.ProbeOrderIsPermutation | src/bucket/helpers.rs:30-44 | the probe order visits every index of the store exactly once |
| Probe.ProbeOrderStart | src/bucket/helpers.rs:30-40 | the first index is `start`, or 0 when `start` equals the length |
| Probe.ProbeOrderExamples | src/bucket/helpers.rs:53-90 | the unit tests' outputs for (0,5), (2,5), (0,1) and (0,0), a full cycle for (3,3), and the panic for (1,0) |
| OptionBucket.NewIsEmpty | src/bucket/buckets/option.rs:10-12 | a new slot is empty, answers nothing and is not full |
| OptionBucket.Get | src/bucket/buckets/option.rs:20-26 | `get` answers exactly when the slot is occupied, with the stored value, whatever key is asked for |
| OptionBucket.Insert | src/bucket/buckets/option.rs:14-18 | `insert` stores the pair, leaves the slot full and returns the value it displaced |
| OptionBucket.SetFound | src/bucket/buckets/option.rs:24-26 | writing through `get_mut` keeps the stored key and does nothing to an empty slot |
| OptionBucket.InsertThenGet | src/bucket/buckets/option.rs:14-22 | after `insert(k, v)` every key reads `v`, and a pair under another key is displaced and returned |
| OptionBucket.SetFoundThenGet | src/bucket/buckets/option.rs:20-26 | the value written through `get_mut` is what `get` then returns |
| OptionBucket.ReachedMaxCapacity | src/bucket/buckets/option.rs:28-30 | a slot reports full exactly when it is occupied; `OptionBucket.FullExactlyWhenAnswering` relates this to `get` |
| OptionBucket.FullExactlyWhenAnswering | src/bucket/buckets/option.rs:20-30 | a slot is full exactly when `get` answers, and a full slot answers every key with its value |
| OptionBucket.GetIgnoresKey | src/bucket/buckets/option.rs:20-22 | `get` never compares keys: any two keys read the same |
| ListBucket.NewIsEmpty | src/bucket/buckets/vec.rs:13-15 | a new list bucket has no entries, answers nothing and holds no key twice |
| ListBucket.IndexOf | src/bucket/buckets/vec.rs:42-47 | `index_of` returns the least index whose entry has the key, and nothing exactly when no entry has it |
| ListBucket.Get | src/bucket/buckets/vec.rs:25-27 | `get` answers nothing exactly when no entry has the key, and otherwise answers with a stored value of the key |
| ListBucket.GetAtIndexOf | src/bucket/buckets/vec.rs:25-32 | `get` returns the value of the entry `index_of` finds |
| ListBucket.GetOfUnique | src/bucket/buckets/vec.rs:25-27 | with unique keys, `get(k) == Some(v)` exactly when `(k, v)` is stored |
| ListBucket.SwapRemove | src/bucket/buckets/vec.rs:19-20 | `swap_remove(i)` takes out element `i`, moves the last element into its place, and keeps every other element |
| ListBucket.Insert | src/bucket/buckets/vec.rs:18-22 | `insert` returns the previous value of the key; the count grows by one only for a new key; the new pair ends the list; the other pairs are kept as a multiset |
| ListBucket.SetFound | src/bucket/buckets/vec.rs:30-32 | writing through `get_mut` changes no key and no length |
| ListBucket.SwapRemoveKeepsUnique | src/bucket/buckets/vec.rs:19-20 | swap-removing from a list with unique keys leaves unique keys, without the removed key |
| ListBucket.AppendFreshKeepsUnique | src/bucket/buckets/vec.rs:21 | pushing a pair whose key is absent keeps the keys unique |
| ListBucket.InsertKeepsUnique | src/bucket/buckets/vec.rs:18-22 | unique keys stay unique across `insert` |
| ListBucket.InsertThenGet | src/bucket/buckets/vec.rs:18-27 | after `insert(k, v)`, `get(k)` is `v` |
| ListBucket.InsertKeepsOthers | src/bucket/buckets/vec.rs:18-27 | `insert(k, v)` leaves `get` of every other key unchanged |
| ListBucket.SetFoundThenGet | src/bucket/buckets/vec.rs:25-32 | the value written through `get_mut` is what `get` then returns, and other keys are untouched |
| ListBucket.ReachedMaxCapacity | src/bucket/buckets/vec.rs:35-37 | a list bucket never reports full, whatever its length; `Buckets.OnlySlotsFill` shows it stays open after any insert |
| ListBucket.FirstMatchExample | src/bucket/buckets/smallvec.rs:26-28 | with a key stored twice, `index_of` and `get` both stop at the first entry |
| ListBucket.InsertNewKeyExample | src/bucket/buckets/smallvec.rs:19-23 | a new key is appended and nothing is returned |
| ListBucket.InsertPresentKeyExample | src/bucket/buckets/smallvec.rs:19-23 | a present key's entry is swap-removed, the new pair is appended, and the old value is returned |
| BTreeBucket.NewIsEmpty | src/bucket/buckets/btreemap.rs:15-17 | a new tree bucket holds no keys and answers nothing |
| BTreeBucket.Get | src/bucket/buckets/btreemap.rs:25-32 | `get` answers exactly for stored keys, with their value |
| BTreeBucket.Insert | src/bucket/buckets/btreemap.rs:20-22 | `insert` returns the previous value, makes `get(k)` return `v`, keeps every other key, and adds a key only when it is new |
| BTreeBucket.ReachedMaxCapacity | src/bucket/buckets/btreemap.rs:35-37 | a tree bucket never reports full; `Buckets.OnlySlotsFill` shows it stays open after any insert |
| BTreeBucket.Len | src/bucket/buckets/btreemap.rs:40-42 | `len` is the number of distinct keys, zero only for the empty tree |
| BTreeBucket.RemoveEntry | src/bucket/buckets/btreemap.rs:44-46 | `remove_entry(k)` returns `(k, v)` exactly when `k` is present, deletes only `k`, and changes nothing otherwise |
| BTreeBucket.Clear | src/bucket/buckets/btreemap.rs:48-50 | `clear` leaves no entries |
| BTreeBucket.SetFound | src/bucket/buckets/btreemap.rs:30-32 | writing through `get_mut` updates only a present key and keeps the key set |
| BTreeBucket.InsertThenRemove | src/bucket/buckets/btreemap.rs:20-22 | removing a key just inserted returns the inserted pair and, for a new key, restores the tree |
| BTreeBucket.LenCountsKeys | src/bucket/buckets/btreemap.rs:40-42 | `len` counts keys, not insertions |
| Buckets.New | src/bucket/mod.rs:15-16 | `new` builds the policy's bucket type; `Buckets.NewIsFresh` shows it is empty and not full |
| Buckets.Get | src/bucket/mod.rs:18 | a slot answers exactly when occupied, whatever the key; a list answers exactly when some entry has the key, with a value stored under it; a tree answers exactly for its keys, with their values |
| Buckets.ReachedMaxCapacity | src/bucket/mod.rs:20 | only an occupied slot reports full; `Buckets.FullExactlyWhenSlotAnswers` relates this to `get` |
| Buckets.FullExactlyWhenSlotAnswers | src/bucket/mod.rs:18-20 | a bucket is full exactly when it is a slot that answers, and then it answers with the value it holds |
| Buckets.NewIsFresh | src/bucket/mod.rs:15-21 | `new` builds the policy's bucket type, empty for every key and not full |
| Buckets.Insert | src/bucket/mod.rs:15-21 | `insert` returns what `get` returned; afterwards `get` returns the new value; list and tree buckets keep other keys; exactly a slot becomes full |
| Buckets.SetFound | src/bucket/mod.rs:15-21 | a write through `get_mut` lands only where `get` finds the key, and changes neither bucket kind nor fullness |
| Buckets.InlineSizeUnobservable | src/bucket/buckets/smallvec.rs:53-59 | every `SmallVecBucketN` and `VecBucket` start from the same empty list and share every operation |
| Buckets.OnlySlotsFill | src/bucket/buckets/smallvec.rs:36-38 | only a single slot can be full; a list or tree bucket stays open after any insert, past any inline size |
| Store.FirstIn | src/bucket/stores/mod.rs:31-41 | the first position in an order whose bucket satisfies the predicate, with none before it, or none at all |
| Store.SearchBucket | src/bucket/stores/mod.rs:30-41 | panics when `start > len`; otherwise finds nothing exactly when no bucket satisfies the predicate, else an in-range satisfying bucket with none before it in probe order |
| Store.NoneInProbeOrder | src/bucket/stores/mod.rs:32-40 | a search that finds nothing along the probe order has looked at every bucket |
| Store.SearchEntryMut | src/bucket/stores/mod.rs:57-67 | finds the first bucket in probe order whose `get_mut` finds the key, or nothing exactly when no bucket holds it |
| Store.SearchEntry | src/bucket/stores/mod.rs:44-55 | returns the query key with the value of the bucket `search_entry_mut` finds, or nothing exactly when no bucket holds the key |
| Store.WriteThrough | src/bucket/stores/mod.rs:58-67 | writing through the found reference changes only that bucket, which then returns the new value |
| Store.VecWithCapacity | src/bucket/stores/vec.rs:14-17 | `initialized_with_capacity(cap)` is `cap` copies of a new bucket; `Store.VecWithCapacityIsFresh` states it |
| Store.VecInitialized | src/bucket/stores/vec.rs:10-12 | `initialized` uses `DEFAULT_BUCKETS_COUNT`; `Store.VecInitializedIsDefaultCapacity` states it |
| Store.Size | src/bucket/stores/array.rs:64-79 | every array store type holds at least two buckets, so computing an address over it never divides by zero |
| Store.ArrayInitialized | src/bucket/stores/array.rs:17-31 | `initialized` fills the array with new buckets; `Store.ArrayInitializedIsFresh` states it |
| Store.ArrayWithCapacity | src/bucket/stores/array.rs:33-35 | `initialized_with_capacity` on an array store panics; `Store.ArrayWithCapacityPanics` states it |
| Store.VecWithCapacityIsFresh | src/bucket/stores/vec.rs:14-17 | `cap` buckets, each new, including none at all |
| Store.VecInitializedIsDefaultCapacity | src/bucket/stores/vec.rs:10-12 | `initialized` is `initialized_with_capacity(DEFAULT_BUCKETS_COUNT)`: 256 new buckets |
| Store.ArrayInitializedIsFresh | src/bucket/stores/array.rs:17-31 | an array store holds exactly its fixed number of buckets, each new |
| Store.ArrayWithCapacityPanics | src/bucket/stores/array.rs:33-35 | every requested capacity panics |
| Store.FirstInCongruent | src/bucket/stores/mod.rs:31-41 | a search depends only on which buckets satisfy the predicate |
| Store.SearchBucketCongruent | src/bucket/stores/mod.rs:31-41 | stores whose buckets answer the predicates alike give the same search result |
| Store.SearchBucketStopsAtStart | src/bucket/stores/mod.rs:32-37 | a search stops at once when the start bucket satisfies the predicate |
| Store.SearchStopsAtStart | src/bucket/stores/mod.rs:30-67 | a key held at the start, or room at the start, is found at the start |
| Store.VecStoreExamples | src/bucket/stores/vec.rs:25-37 | both unit tests: a search from index 1 wraps round to index 0 |
| Store.FreshStoreIsEmpty | src/bucket/stores/mod.rs:44-55 | a fresh store holds no entry, and an empty store finds nothing |
| PrimitiveMap.GetAddr | src/lib.rs:189-192 | the address is `compress(hash(key), len)`, in range for a non-empty store, and the remainder-by-zero panic for an empty one |
| PrimitiveMap.Home | src/lib.rs:189-192 | in a non-empty store a key's address is a valid index |
| PrimitiveMap.Target | src/lib.rs:110-113 | `insert` targets the first bucket in probe order from the address that is not full, and panics exactly when every bucket is full or the store is empty |
| PrimitiveMap.Insert | src/lib.rs:109-115 | `insert` applies the target bucket's `insert`, returns its result, and leaves every other bucket unchanged |
| PrimitiveMap.GetMut | src/lib.rs:123-127 | `get_mut` finds the first bucket in probe order from the address that holds the key, and nothing exactly when no bucket holds it |
| PrimitiveMap.Get | src/lib.rs:117-121 | `get` answers nothing exactly when no bucket holds the key, and otherwise reads the bucket `get_mut` finds |
| PrimitiveMap.SetThroughGetMut | src/lib.rs:123-127 | a write through `get_mut` happens exactly when `get` finds the key, and changes nothing otherwise |
| PrimitiveMap.InsertAll | src/lib.rs:266-268 | inserting a list of pairs keeps the table size |
| PrimitiveMap.Custom | src/lib.rs:93-98 | `custom` wraps the given store and drops the hasher marker; `PrimitiveMap.FreshMapIsEmpty` and `PrimitiveMap.EmptyStorePanics` state what it gives |
| PrimitiveMap.WithBuckets | src/lib.rs:80-82 | `with_buckets` is `custom` with the default hasher |
| PrimitiveMap.New | src/lib.rs:63-65 | `new` over a `Vec` store is `custom(initialized())`; `PrimitiveMap.NewBuildsFreshStore` states it |
| PrimitiveMap.WithCapacity | src/lib.rs:67-69 | `with_capacity(cap)` over a `Vec` store is `custom(initialized_with_capacity(cap))`; `PrimitiveMap.WithCapacityBuildsFreshStore` states it |
| PrimitiveMap.NewArray | src/lib.rs:63-65 | `new` over an array store; `PrimitiveMap.NewBuildsFreshStore` states it |
| PrimitiveMap.WithCapacityArray | src/lib.rs:67-69 | `with_capacity` over an array store always panics; `PrimitiveMap.WithCapacityBuildsFreshStore` states it |
| PrimitiveMap.Clone | src/lib.rs:33-38 | `clone` is `custom` over a copy of the store; `PrimitiveMap.CloneIsIndependent` states it |
| PrimitiveMap.NewBuildsFreshStore | src/lib.rs:63-65 | `new` builds `DEFAULT_BUCKETS_COUNT` new buckets over a `Vec` store, and the array's fixed number over an array store |
| PrimitiveMap.WithCapacityBuildsFreshStore | src/lib.rs:67-69 | `with_capacity(cap)` builds `cap` new buckets over a `Vec` store and always panics over an array store |
| PrimitiveMap.FreshBucketsHoldNothing | src/lib.rs:117-121 | a map whose buckets are all new holds nothing |
| PrimitiveMap.FreshMapIsEmpty | src/lib.rs:237-247 | `get` on any freshly built map finds nothing |
| PrimitiveMap.EmptyStorePanics | src/lib.rs:189-192 | over an empty store `get`, `insert` and `get_mut` all panic computing the address |
| PrimitiveMap.CloneIsIndependent | src/lib.rs:33-38 | a clone answers every `get` like the original, and an `insert` into the clone gives what an `insert` into the original gives |
| PrimitiveMap.SetThroughGetMutThenGet | src/lib.rs:117-127 | the value written through `get_mut` is what `get` then returns |
| Chaining.LastValue | src/lib.rs:266-268 | the value last paired with a key in a list of insertions |
| Chaining.GetReadsHome | src/lib.rs:117-121 | with never-full buckets, `get` reads the key's home bucket |
| Chaining.InsertTargetsHome | src/lib.rs:109-115 | with never-full buckets, `insert` writes to the key's home bucket |
| Chaining.SameLengthSameHome | src/lib.rs:189-192 | a key's address depends only on the table length |
| Chaining.InsertAtHome | src/lib.rs:109-115 | with never-full buckets, `insert` applies the home bucket's `insert` and changes no other bucket |
| Chaining.InsertKeepsChained | src/lib.rs:109-115 | `insert` keeps every key in its home bucket |
| Chaining.InsertKeepsOtherKeys | src/lib.rs:109-121 | `insert` leaves `get` of every other key unchanged |
| Chaining.InsertChained | src/lib.rs:109-121 | `insert` never panics, returns the previous value, and makes `get` return the new value |
| Chaining.InsertAllChained | src/lib.rs:263-272 | after inserting a list of pairs, `get` returns each key's last value, or its earlier value when it was not inserted |
| Chaining.LastValueOfDistinct | src/lib.rs:266-268 | with distinct keys, each pair's value is its key's last value |
| Chaining.FreshMapChained | src/lib.rs:63-69 | a fresh map over list or tree buckets keeps every key at its home |
| Chaining.SaturateBuckets | src/lib.rs:263-272 | a `VecPrimitiveMap` with 100 buckets takes any list of distinct keys and returns each value |
| Chaining.InsertAndGetDynamic | src/lib.rs:249-254 | a `VecPrimitiveMap` returns the inserted value, and a re-insert returns the old value and replaces it |
| LinearProbing.LinearInsert | src/lib.rs:109-115 | with single slots, `insert` panics exactly when every slot is occupied; otherwise it fills one empty slot, returns nothing, and changes no other slot |
| LinearProbing.GetMutFindsFirstOccupied | src/bucket/buckets/option.rs:24-26 | with single slots, `get_mut` finds the first occupied slot from the key's address, whatever key it holds |
| LinearProbing.LinearGet | src/lib.rs:117-121 | with single slots, `get` finds nothing exactly when the table is empty, and otherwise reads the first occupied slot in probe order |
| LinearProbing.SameHomeSameGet | src/bucket/buckets/option.rs:20-22 | keys with the same address always get the same answer |
| LinearProbing.InsertIntoEmptyHome | src/lib.rs:109-121 | a key whose home slot is empty is stored there and read back |
| LinearProbing.ReinsertTakesAnotherSlot | src/lib.rs:112-114 | re-inserting a key takes another slot, returns nothing, and `get` keeps returning the first value |
| LinearProbing.Placed | src/lib.rs:277-279 | the pair the insertions placed at an address, or none when no key has that address |
| LinearProbing.PlacedAtOwnHome | src/lib.rs:277-279 | with distinct addresses, each key's pair is the one placed at its address |
| LinearProbing.PlaceNext | src/lib.rs:277-279 | a pair with a fresh address is inserted into the empty slot at that address |
| LinearProbing.InsertAllAtOwnHomes | src/lib.rs:277-279 | inserting pairs with distinct addresses into an empty table never panics and puts each pair at its address |
| LinearProbing.GetPlaced | src/lib.rs:280-282 | each placed key is read back from its address |
| LinearProbing.FullLoad | src/lib.rs:274-283 | pairs with distinct addresses all go in, and each is retrievable |
| LinearProbing.Pigeonhole | src/lib.rs:274-283 | `n` distinct indices below `n` include every index below `n` |
| LinearProbing.EveryAddressPlaced | src/lib.rs:274-283 | as many pairs as slots, with distinct addresses, fill every address |
| LinearProbing.SaturationBoundary | src/lib.rs:111-113 | once as many pairs as slots fill a table, each is retrievable and the next `insert` panics because capacity is exhausted |
| LinearProbing.PlacedStoreIsFull | src/lib.rs:111-113 | a table filled at every address has no free slot |
| LinearProbing.FreshLinearMap | src/lib.rs:208-222 | fresh maps over array or non-empty `Vec` stores of slots are empty |
| LinearProbing.SmallI32PairsDistinctHomes | src/lib.rs:274-283 | distinct `i32` keys below 1024 have distinct addresses in 1024 slots |
| LinearProbing.FullLoadLinearProbing | src/lib.rs:274-283 | a `LinearPrimitiveMap` over 1024 slots takes distinct `i32` keys below 1024 and returns each value |
| LinearProbing.FullLoadI32 | src/lib.rs:274-283 | distinct `i32` keys below 1024 all go into an empty 1024-slot map, and each is retrievable |
| LinearProbing.FullLoadSaturates | src/lib.rs:274-283 | after 1024 such keys every slot is occupied and one more `insert` panics |
| LinearProbing.FirstInsertFixed | src/lib.rs:256-260 | in 64 slots the `i16` key 0 goes to slot 0 and leaves slot 1 empty |
| LinearProbing.InsertAndGetFixed | src/lib.rs:256-260 | the inserted value is read back, and after a second insert under the same key `get` still returns the first value |
| LegacyBucket.FirstMatchAfterAppend | src/bucket.rs:26-36 | pushing a pair leaves the first match of an already present key in place |
| LegacyBucket.NewSmallVec | src/bucket.rs:19-23 | `new` holds no pairs; `LegacyBucket.NewSmallVecIsEmpty` shows it answers nothing |
| LegacyBucket.NewSmallVecIsEmpty | src/bucket.rs:19-23 | a new bucket answers nothing |
| LegacyBucket.PushSmallVec | src/bucket.rs:26-28 | `push` always succeeds, adds one pair, and a key already present keeps its earlier value |
| LegacyBucket.GetSmallVec | src/bucket.rs:31-36 | `get` answers with the first pair holding the key, or nothing exactly when no pair holds it |
| LegacyBucket.NewArray | src/bucket.rs:46-51 | a new `ArrayBucket` has `len` 0 and default pairs in every place |
| LegacyBucket.PushArray | src/bucket.rs:54-58 | `push` writes at `len` and counts it, and panics exactly when both places are filled |
| LegacyBucket.GetArray | src/bucket.rs:61-67 | `get` scans only the filled places |
| LegacyBucket.ArrayRefinesSmallVec | src/bucket.rs:26-67 | an `ArrayBucket` answers `get` and `push` like a `SmallVecBucket` of its filled places |
| LegacyBucket.EmptyArrayList | src/bucket.rs:113-115 | `empty` builds `BUCKET_LIST_SIZE` new array buckets |
| LegacyBucket.At | src/bucket.rs:100-102 | `get` on a bucket list returns the bucket at the index and panics past the end |
| LegacyBucket.PushAt | src/bucket.rs:105-107 | a push through `get_mut` changes only that bucket |
| LegacyBucket.ThirdPushPanics | src/bucket.rs:54-58 | two pushes fill an `ArrayBucket` and the third panics |
| LegacyBucket.PaddingNeverReturned | src/bucket.rs:61-67 | the default pairs padding an `ArrayBucket` are never returned |
| LegacyBucket.EarliestValueWins | src/bucket.rs:26-67 | pushing a key twice keeps the earlier value in both bucket types |
| LegacyBucket.EmptySmallVecList | src/bucket.rs:85-92 | `empty` builds `BUCKET_LIST_SIZE` new buckets; `LegacyBucket.EmptyListsHoldNothing` states it |
| LegacyBucket.Len | src/bucket.rs:94-97 | `len` is the number of buckets in the list |
| LegacyBucket.EmptyListsHoldNothing | src/bucket.rs:85-130 | both empty lists report `len` `BUCKET_LIST_SIZE` (2048), hold new buckets and answer nothing for every key |

## Left out

- Unimplemented map operations: `get_key_value`, `remove`, `remove_entry`, `retain` and `contains_key` are `unimplemented!()`. Iteration, `len`, `clear` and `drain` are commented out. None of them is modelled as a working operation.
- The `search` and `search_mut` declarations of the `BucketStore` trait (`src/bucket/mod.rs`) have no implementation. The map uses the store's searches instead, and so does the model.
- The slice store's `len`, `get` and `get_mut` are the sequence's length and indexing. The `AsRef`/`AsMut` delegation of wrapper stores is the sequence itself.
- Unsafe memory tricks are modelled as what they compute. The array store's `mem::uninitialized` with raw writes is a sequence of new buckets. `get_unchecked` is checked indexing, with the in-range proof carried by the contracts.
- Inline-versus-heap storage of a `SmallVec`, `Vec` reserve capacity and B-tree internals are not observable. Lists are `seq` values and trees are `map` values.
- The hasher type parameter is not modelled: every map uses `DefaultHasher`. The `Hash`, `Key` and `Value` marker traits become the closed `Key` type and type parameters.
- Hash.ScrambleInvertible16: injectivity of the scramble is stated as an explicit inverse on each unsigned width. For the signed widths the model proves the opposite, that 0 and -1 collide.
- Hash.SmallScrambleInjective: stated for values below 1024, the range the full-load test relies on.
- Chaining.SaturateBuckets: stated for any list of distinct keys rather than for the literal `0..10000`. Building those 10000 bit-vector keys is beyond the solver's budget.
- LinearProbing.FullLoadLinearProbing: stated for any list of distinct `i32` keys below 1024, which includes the test's `0..1024`.
- PrimitiveMap.CloneIsIndependent: buckets are immutable values, so the independence of a clone holds by construction, not by a deep copy.
- Panic messages are not modelled. A panic is an `Err` carrying the panic's kind.
- Benchmarks, the benchmark test and the example program are not part of this model. They time or print the operations modelled here.
