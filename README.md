# hash.js — two hash tables in Dafny

hash.js defines two string-keyed hash tables that share one string hash:

- `HashMap` uses open addressing with linear probing. `remove` marks an entry `deleted` and leaves it as a tombstone.
- `ChainHash` uses separate chaining, with one singly linked `LinkedList` of `_Node`s per non-empty bucket.

Before placing an entry, both tables test the load `(length + deleted + 1) / capacity > 0.9`. When the test passes, they grow the capacity by a factor of 3.

The model is split into the modules below; a seventh, `Failures` (`failures.dfy`), holds the result types.

- `StringHash` (`string_hash.dfy`): the hash `_hashString`.
  - A key is a sequence of UTF-16 code units, which is what `charCodeAt` reads.
  - The JavaScript loop runs on 32-bit signed integers. `HashString` models that loop literally, with `ToInt32` and `ToUint32`.
  - `HashString` is proved equal to `Djb2`. `Djb2` is the fold of `h * 33 + c` modulo 2^32, starting from 5381.
- `LoadPolicy` (`load_policy.dfy`): `MAX_LOAD_RATIO` and `SIZE_RATIO`. The load test is written in integers and proved equal to the real-valued test.
- `OpenAddressing` (`open_addressing.dfy`): `HashMap` as a class.
  - It holds a sequence of slots. Each slot is `Empty` (a hole of the JavaScript array), `Live` or `Tombstone`.
  - A ghost map `Contents` holds the live pairs.
  - The class invariant says:
    - every live key is stored once;
    - no probe path to a live entry passes a hole;
    - `length` counts the live entries;
    - `length + deleted` counts the occupied slots;
    - the load stays at most 9/10.
  - From this invariant, `get` answers `Contents` and `_findSlot` always finds a slot.
- `LinkedLists` (`linked_list.dfy`): `_Node` and `LinkedList` as heap objects, generic in the element type as in the source. Ghost state records the nodes and their values in order. `ChainHash` stores `Entry` values in them.
- `Chaining` (`chaining.dfy`): `ChainHash` as a class that holds a sequence of possibly-null lists.
  - Ghost `Buckets` mirrors each list's entries.
  - Several behaviours are modelled exactly as the code does them, and differ from what the table is evidently meant to do:
    - `length` counts non-empty buckets, not entries;
    - `get` answers `null` (`None`) for a missing key in a non-empty bucket, and throws only when the bucket is empty;
    - `_resize` empties the table and then throws a TypeError as soon as it meets an old list, because a `LinkedList` has no `value` field;
    - `remove` always throws a TypeError: `index.value` of the number `_findSlot` returns is `undefined`, and the assignment `index.value.deleted = true` (hash.js:249) fails on it.
- `Scenarios` (`scenarios.dfy`): client call sequences on both tables, with their outcomes proved.

Exceptions are modelled as return values:

- `Result`: `Ok(v)` or `Err(KeyError)`.
- `Status`: `Done` or `Thrown(e)`.

`KeyError` stands for `new Error('Key error')`. `TypeError` stands for the runtime error that JavaScript raises when code reads or assigns a property of `undefined`.

## Model

| member | source | states |
|---|---|---|
| StringHash.ToInt32 | hash.js:77-78 | the 32-bit signed value that JavaScript keeps after `<<` and after `hash & hash` is congruent to the exact value modulo 2^32 |
| StringHash.ToUint32 | hash.js:80 | `hash >>> 0` is the unsigned reading, below 2^32, of the same residue, and leaves non-negative values unchanged |
| StringHash.JsRound | hash.js:77-78 | one loop step as JavaScript evaluates it (`<<` wrapped to 32 bits, exact addition, `hash & hash` wrapped again) stays a signed 32-bit value congruent to `hash * 33 + c` modulo 2^32 |
| StringHash.JsRoundAgrees | hash.js:77-78 | one loop step as JavaScript evaluates it, read unsigned, equals `(h * 33 + c) mod 2^32` on the unsigned reading of the old hash |
| StringHash.HashFromBound | hash.js:74-81 | from any start below 2^32, the hash of any key stays below 2^32 |
| StringHash.Djb2Bound | hash.js:74-81 | every key hashes to an unsigned 32-bit value |
| StringHash.HashFromSnoc | hash.js:76-79 | hashing one more code unit is one more round applied to the hash so far (the loop reads left to right) |
| StringHash.HashString | hash.js:74-81 | the loop on signed 32-bit integers returns the djb2 hash (seed 5381, multiplier 33, modulo 2^32) of the key, below 2^32 |
| StringHash.HomeSlot | hash.js:47-48 | the probe start (the bucket index in `ChainHash`) is below the capacity |
| LoadPolicy.NeedsResizeIsRatioTest | hash.js:20-21 | the integer test `10 * (length + deleted + 1) > 9 * capacity` holds exactly when the real ratio exceeds 0.9 |
| LoadPolicy.NeedsResize | hash.js:20-21 | the load test of both tables (also hash.js:222-223): for any positive capacity it passes exactly when `length + deleted` has reached `9 * capacity / 10` rounded down |
| OpenAddressing.ProbeIndex | hash.js:50-51 | step `d` of a probe from `start` visits `(start + d) % capacity`, which is below the capacity |
| OpenAddressing.Dist | hash.js:50-51 | within `capacity` steps, a probe from any start visits each slot at exactly one step |
| OpenAddressing.Matches | hash.js:53 | the stop test of the probe: a hole always stops it, a deleted entry never does, and a live entry does exactly when its key is the key |
| OpenAddressing.Probe | hash.js:50-56 | the probe answers the first visited slot that is a hole or a non-deleted entry with the key; it answers `None` exactly when no visited slot qualifies |
| OpenAddressing.FindIn | hash.js:46-57 | `_findSlot` as a function: it answers a slot that is a hole or holds the key live, and answers nothing exactly when no slot of the table qualifies |
| OpenAddressing.ProbeCoversAll | hash.js:50-56 | the `capacity` steps of a probe visit every slot, so it fails exactly when no slot matches |
| OpenAddressing.HoleExists | hash.js:50-56 | a slot array with fewer occupied slots than slots has a hole |
| OpenAddressing.OccupiedUpdate | hash.js:27-31 | writing one slot changes the occupied count by that slot's change from hole to entry or back |
| OpenAddressing.EmptyTableStores | hash.js:4-9 | an empty slot array stores the empty map |
| OpenAddressing.ProbeReaches | hash.js:50-56 | a probe that passes no hole and no same-key entry before slot `j` answers `j` |
| OpenAddressing.LookupLive | hash.js:11-17 | for a stored key, `_findSlot` answers the live slot that holds the key and its value |
| OpenAddressing.LookupAbsent | hash.js:11-17 | for an absent key, when some slot is free, `_findSlot` answers a hole |
| OpenAddressing.FindNeverTombstone | hash.js:53 | `_findSlot` never answers a deleted entry |
| OpenAddressing.StoresAfterPlace | hash.js:25-31 | writing the entry at the slot `_findSlot` answers keeps the table consistent and stores the map updated at the key |
| OpenAddressing.StoresAfterRemove | hash.js:36-41 | marking the found entry deleted keeps the table consistent and stores the map without the key |
| OpenAddressing.RebuildStep | hash.js:67-71 | visiting one more old slot in order, with a live entry re-inserted, extends the rebuilt prefix |
| OpenAddressing.RebuildDone | hash.js:67-72 | after all old slots are visited, the rebuilt map is the old map |
| OpenAddressing.HashMap.constructor | hash.js:4-9 | a new table is empty, has the requested capacity and satisfies the invariant |
| OpenAddressing.HashMap.FindSlot | hash.js:46-57 | the loop answers exactly the first matching slot along the probe, or `None` where it falls off its end |
| OpenAddressing.HashMap.Get | hash.js:11-17 | a stored key answers its value, and any other key throws a KeyError |
| OpenAddressing.HashMap.Set | hash.js:19-33 | the key maps to the value and the other keys are kept; `length` grows exactly for a new key; when the load test passes, the capacity triples and tombstones are dropped; otherwise exactly the slot `_findSlot` answered changes |
| OpenAddressing.HashMap.Remove | hash.js:35-44 | a stored key: its slot becomes a tombstone, the key leaves the map, `length` drops by one and `deleted` grows by one; otherwise a KeyError is thrown and nothing changes |
| OpenAddressing.HashMap.Resize | hash.js:59-72 | after the rebuild at the new capacity, the map is the same, `deleted` is 0, `length` counts the pairs, and the invariant holds |
| LinkedLists.Node.constructor | hash.js:169-174 | a new node holds the value and has no successor |
| LinkedLists.LinkedList.constructor | hash.js:177-179 | a new list is empty |
| LinkedLists.LinkedList.InsertLast | hash.js:181-189 | the walk to the last node appends the value: the list's values are the old ones followed by the new one, and the old nodes stay in place |
| Chaining.FirstMatch | hash.js:211-218 | `get`'s walk: it answers a value stored with the key in the bucket, and answers `null` exactly when no entry has the key |
| Chaining.FirstIndex | hash.js:234-240 | the walk of `set` stops at the first entry with the key, or after the last entry |
| Chaining.Put | hash.js:234-241 | a non-empty bucket after `set`: the first entry with the key is replaced where it stands, or a new entry is appended |
| Chaining.PutThenFind | hash.js:212-217 | after `set`, `get`'s walk answers the new value |
| Chaining.PutKeepsOthers | hash.js:212-217 | after `set`, every other key answers as before |
| Chaining.PutKeepsUnique | hash.js:234-241 | `set` never puts a key into a bucket twice |
| Chaining.FirstMatchAt | hash.js:212-218 | `get`'s walk answers the value of the first entry with the key, or `null` |
| Chaining.NonEmptyCount | hash.js:228-231 | `length` counts non-empty buckets, so it never exceeds the capacity |
| Chaining.NonEmptyCountZero | hash.js:263-276 | the count is zero exactly when every bucket is empty, which is when `_resize` does not throw |
| Chaining.NonEmptyCountUpdate | hash.js:228-231 | replacing one bucket changes the count by that bucket's change between empty and non-empty |
| Chaining.WellFormedAfterPut | hash.js:227-241 | storing into the key's home bucket keeps every entry in its home bucket and the keys unique; `length` grows by one exactly when the bucket was empty |
| Chaining.EmptyWellFormed | hash.js:193-198 | all-empty buckets with `length` 0 are well formed |
| Chaining.ChainHash.constructor | hash.js:193-198 | a new table has the requested capacity and no lists |
| Chaining.ChainHash.FindSlot | hash.js:200-203 | the bucket index is the key's hash modulo the capacity |
| Chaining.ChainHash.Get | hash.js:205-219 | an empty bucket throws a KeyError; otherwise the answer is the value of the first entry with the key in list order, or `null` |
| Chaining.ChainHash.Set | hash.js:221-242 | a load-test resize of a non-empty table throws and leaves an empty table of triple capacity; otherwise the key's home bucket becomes `Put` of the old (or emptied) bucket, and `length` grows exactly when that bucket was empty |
| Chaining.ChainHash.StartBucket | hash.js:228-232 | a missing bucket gets a new one-entry list and `length` grows by one |
| Chaining.ChainHash.UpdateBucket | hash.js:234-241 | a present bucket becomes `Put` of itself, in place: every slot keeps the same list object, and `length` is unchanged |
| Chaining.ChainHash.OverwriteNode | hash.js:236-237 | the first node with the key gets the new entry; every slot keeps the same list object, the footprint is unchanged, and the other buckets are untouched |
| Chaining.ChainHash.Resize | hash.js:263-276 | the table is emptied at the new capacity; it throws a TypeError exactly when some old bucket was non-empty |
| Chaining.ChainHash.Remove | hash.js:244-252 | every call throws a TypeError and changes nothing |
| Scenarios.HobbitOverwrite | hash.js:88-91 | setting "Hobbit" twice and then "Wizard" leaves two entries, and "Hobbit" answers "Frodo" |
| Scenarios.GrowthOnEighthKey | hash.js:20-22 | a default table keeps capacity 8 for seven distinct keys and triples to 24 on the eighth |
| Scenarios.ChainedSetThenGet | hash.js:283-284 | a chained table that has been given one key answers its value |
| Scenarios.ChainedSharedBucket | hash.js:221-242 | two distinct keys with the same home bucket both answer their values, while `length` is 1 |

## Left out

- `main`, `main2`, `isPalindrome` and `groupAnagrams` are clients of the tables, not part of them. `Scenarios` replays the first calls of `main` and `main2` on abstract keys instead of literal strings.
- The floating-point load ratio is replaced by the exact integer comparison. `NeedsResizeIsRatioTest` proves the two equal against an exact real ratio. IEEE rounding of the division is not modelled.
- The JavaScript slot array is sparse. A hole is modelled as `Empty`, and the array's growing `length` is not modelled.
- Both constructors require `initialCapacity >= 1`, and tables of other capacities are not modelled. The source accepts any value. With 0, `hash % capacity` is `NaN`, and `HashMap._findSlot` then returns `undefined`. For `ChainHash`, every key lands in the one array property `"NaN"`. The load ratio is `Infinity`, so every `set` first runs `_resize(0)`, which empties the table without throwing, because `for…of` does not visit that property. Such a table holds only the most recently set key. With a negative capacity, JavaScript's `%` takes the sign of the hash, which is never negative, so the index lies below `-capacity`. `HashMap`'s probe loop never runs, because its bound `start + capacity` is below `start`, so `_findSlot` returns `undefined`. `ChainHash` still addresses buckets, but its load ratio is negative, so it never grows.
- OpenAddressing.HashMap.Set: after a resize, its contract states the new map, length, capacity and `deleted`, but not where each entry lands in the rebuilt slot array.
- OpenAddressing.HashMap.FindSlot: the `undefined` that the loop returns when it falls off its end is `None`. The invariant proves this case unreachable from `get`, `set` and `remove`, so the writes to `_slots[undefined]` that would follow are not modelled.
- The `deleted: false` flag that `ChainHash.set` stores with each entry is dropped, because the chained table never reads or changes it.
- The `==` versus `===` key comparisons both become equality of code-unit sequences, because keys are strings. Non-string keys are not modelled.
- Error message text is not modelled. Only the kind of error is kept.
- The values that `ChainHash.set` and `insertLast` return (the new head or the stored entry) are not modelled, because no caller reads them.
- The `deleted` field of `ChainHash` is always 0, because `remove` throws before it can change it. The model keeps the field and records that it stays 0.
