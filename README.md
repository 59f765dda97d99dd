# HashBrown, modelled in Dafny

`HashBrown<Key, Value, Hash>` is a separate-chaining hash map. Its state is a
vector of buckets (each an ordered vector of `(key, value)` pairs), an item
counter and a hasher. A key lives in bucket `hash(key) % bucket count`.
`insert` overwrites the value of a stored key in place, or appends the pair to
its bucket and counts it. `erase` removes a stored pair. `get` scans the key's
bucket. `resize` re-places every pair into a table of 1 or twice as many
buckets. The map's iterator is a `(bucket, position)` pair bound to the map.

The project has two modules:

- `Table` (`table.dfy`) is the table as a value: a `seq` of buckets. It holds
  the functions each operation applies to the old table (`Index`, `Find`,
  `Lookup`, `NeedsResize`, `Rehashed`, `Place`, `Upsert`, `UpsertAll`,
  `Removed`), the table invariant `WellFormed`, and the lemmas saying what
  each operation preserves and computes.
- `Hashbrown` (`hashbrown.dfy`) is the container itself.
  - `class HashBrown` has the fields `buckets`, `items` and `hasher`. Its
    methods update them in place: `Insert` and `Resize` loop the way the code
    does, and each is proved against the `Table` function for its operation.
  - `datatype Cursor` is the iterator, with `Deref` (`operator*`) and `Next`
    (prefix `operator++`). `operator==` is the datatype's own equality: same
    map, same bucket, same position.
  - `Traverse` is the range-for loop over the map.
  - `DriverInserts`, `DriverListInsert` and the `Scenario…` methods replay
    the unit tests and the driver program as clients of the contracts.

The hasher is a parameter of the constructor, a function `K -> nat`. `resize`
builds a fresh `Hash{}` instead of using the stored hasher; for a stateless
hash function both compute the same values, so the model uses the stored one.

The model follows the code as written, including where it departs from what a
hash map is meant to do:

- The growth test fires when the table is empty or when
  `items < 3 * bucket count / 4` (integer division), so it fires on a
  lightly loaded table. With one bucket it never fires (`ResizeTrigger`), so
  every map built by the constructor and `insert`/`erase` keeps exactly one
  bucket (`Insert`, `InsertAll`, `UpsertAllOneBucket`).
- `end()` is the last bucket at a position equal to the item count. It is one
  past the last bucket's pairs only when every other bucket is empty (`End`).
- Prefix `++` steps the position after it moves to the next bucket. It lands
  on position 1 there and never skips an empty bucket, so position 0 of every
  bucket after the first is never visited (`BucketHeadsUnreached`). With more
  than one bucket, `++` stops on the position just past the pairs of bucket
  0, and of every non-empty bucket before the last that it reaches. That
  position is neither a pair nor `end()`, so a range-for loop dereferences
  one past the bucket's pairs (`OverrunsBucketEnd`). An empty bucket after
  the first and before the last traps `++`: the position grows without bound
  inside that bucket, `end()` is never reached, and `*` there would read past
  the bucket's pairs (`EmptyBucketTraps`). With one bucket, which is every
  reachable map, iteration visits every pair exactly once
  (`IterationOneBucket`, `Traverse`).
- `insert(key, value)` swaps the new value into a stored pair and drops the
  old value. It returns only the iterator, not the previous value.
- `erase` of a key that is not stored decrements the counter and erases the
  end position, which is undefined behaviour. `Erase` therefore requires the
  key to be stored.

## Model

| member | source | states |
|---|---|---|
| Table.NeedsResize | hashbrown/include/hashbrown.hpp:176 | the growth test as written: it fires on a table with no buckets and never on a table with one bucket; `ResizeTrigger` gives its exact threshold |
| Table.Lookup | hashbrown/include/hashbrown.hpp:310-324 | get scans only the key's bucket: a value found is paired with the key in that bucket, and when none is found no pair of that bucket has the key; `LookupIff` lifts this to the whole table |
| Table.Index | hashbrown/include/hashbrown.hpp:267-272 | the bucket index of a key is below the bucket count |
| Table.Find | hashbrown/include/hashbrown.hpp:141-144 | the bucket scan yields the first position holding the key; it yields none exactly when no pair of the bucket has the key |
| Table.Selected | hashbrown/include/hashbrown.hpp:297-304 | reference for one new bucket of resize: the visited pairs whose key hashes to it, in visit order, each one taken from the input |
| Table.Distribute | hashbrown/include/hashbrown.hpp:295-304 | the re-placing loop yields exactly the target number of buckets |
| Table.Rehashed | hashbrown/include/hashbrown.hpp:281-307 | resize yields 1 bucket from none, else twice as many, never fewer. Every pair sits in its bucket for the new count. The multiset of pairs and the item count are unchanged. Each new bucket holds its pairs in old bucket-major order |
| Table.Prepared | hashbrown/include/hashbrown.hpp:176-178 | after the growth test the table insert works on has at least one bucket |
| Table.Place | hashbrown/include/hashbrown.hpp:180-204 | the scan-and-store step keeps the bucket count and leaves the pair (key, value) in the key's bucket |
| Table.Upsert | hashbrown/include/hashbrown.hpp:172-205 | insert always leaves at least one bucket; `UpsertCorrect` states what it does to the pairs |
| Table.UpsertAll | hashbrown/include/hashbrown.hpp:156-170 | a range insert of no pairs leaves the table as it was, and of some pairs leaves at least one bucket; `UpsertAllKeys` and `UpsertAllLookup` state what it does to the pairs |
| Table.LastValue | hashbrown/include/hashbrown.hpp:166-169 | the value a sequence of inserts leaves for a key is absent exactly when no input pair has the key; otherwise it is the value of the last input pair with that key |
| Table.Removed | hashbrown/include/hashbrown.hpp:146-147 | erasing a pair keeps the bucket count |
| Table.FlattenMember | hashbrown/include/hashbrown.hpp:297-299 | a pair is in the joined bucket-major view exactly when some bucket holds it |
| Table.SizeZero | hashbrown/include/hashbrown.hpp:248-252 | a table holds no pair exactly when every bucket is empty |
| Table.WellFormedDistinct | hashbrown/include/hashbrown.hpp:54-56 | in a well-formed table no key appears twice anywhere, across all buckets |
| Table.CountIsDistinctKeys | hashbrown/include/hashbrown.hpp:54-56 | in a well-formed table the sum of bucket lengths equals the number of distinct stored keys |
| Table.DistributePlaced | hashbrown/include/hashbrown.hpp:301-303 | every pair the re-placing loop appends sits in the bucket its key hashes to for the new count |
| Table.DistributeSelected | hashbrown/include/hashbrown.hpp:297-304 | bucket i after the re-placing loop equals the reference `Selected` for i |
| Table.DistributePairs | hashbrown/include/hashbrown.hpp:297-304 | the re-placing loop loses and duplicates no pair: same multiset, same count |
| Table.DistributeDistinct | hashbrown/include/hashbrown.hpp:297-304 | re-placing pairs with distinct keys leaves every bucket without a repeated key |
| Table.RehashedWellFormed | hashbrown/include/hashbrown.hpp:281-307 | resize keeps the table invariant |
| Table.LookupIff | hashbrown/include/hashbrown.hpp:310-324 | get yields v for k exactly when the pair (k, v) is stored in the table, both directions |
| Table.LookupSpec | hashbrown/include/hashbrown.hpp:310-324 | get finds a value exactly when the key is stored, and the value found is paired with the key |
| Table.PreparedCorrect | hashbrown/include/hashbrown.hpp:176-178 | the growth step keeps the invariant, the multiset of pairs, the count and the result of get for every key |
| Table.ReplaceBucket | hashbrown/include/hashbrown.hpp:181-204 | replacing one bucket by a placed, duplicate-free bucket that differs only in key k keeps the invariant and get for every other key, and changes the count by the length difference |
| Table.PlaceCorrect | hashbrown/include/hashbrown.hpp:180-204 | the scan-and-store step keeps the invariant. get(k) then yields the new value and every other key's get is unchanged. The count grows by one exactly when k was absent |
| Table.UpsertCorrect | hashbrown/include/hashbrown.hpp:172-205 | insert keeps the invariant, grows the table exactly when the growth test fires, and makes get(k) yield the new value. Other keys keep their get. The count grows by one exactly for a new key. The key set gains k |
| Table.UpsertAllKeys | hashbrown/include/hashbrown.hpp:156-170 | a range insert keeps the invariant and adds exactly the input's keys to the key set |
| Table.UpsertAllLookup | hashbrown/include/hashbrown.hpp:156-170 | after a range insert, get(k) yields the value of the last input pair with key k, or what it yielded before if no input pair has k |
| Table.UpsertAllOneBucket | hashbrown/include/hashbrown.hpp:176-178 | from one bucket, any sequence of inserts leaves exactly one bucket |
| Table.ResizeTrigger | hashbrown/include/hashbrown.hpp:176 | with at least one bucket, the growth test fires exactly when 4·items + 4 ≤ 3·buckets; with one bucket it never fires |
| Table.RemovedCorrect | hashbrown/include/hashbrown.hpp:136-153 | for a stored key the bucket scan finds it. erase keeps the invariant, get(k) becomes absent, and other keys keep their get. The count drops by one and the key set loses k |
| Table.EraseAt | hashbrown/include/hashbrown.hpp:147 | removing position p shifts the later pairs down by one and keeps their order. The erased key is no longer in the bucket, keys stay distinct, and the multiset loses exactly the erased pair |
| Hashbrown.Cursor.Deref | hashbrown/include/hashbrown.hpp:97-101 | operator* on a cursor at a pair yields a pair the map stores |
| Hashbrown.Cursor.Next | hashbrown/include/hashbrown.hpp:77-88 | prefix ++ stays on the same map, moves at most one bucket forward, and always leaves a non-zero position |
| Hashbrown.HashBrown.constructor | hashbrown/include/hashbrown.hpp:128-133 | a new map has one empty bucket, no items and no keys, keeps the invariant, has begin() == end(), and is empty() |
| Hashbrown.HashBrown.Get | hashbrown/include/hashbrown.hpp:310-324 | get yields a value exactly when the key is stored, and that value is paired with the key in the table |
| Hashbrown.HashBrown.Begin | hashbrown/include/hashbrown.hpp:230-233 | begin() is bucket 0 of this map; it is at a pair exactly when bucket 0 is non-empty |
| Hashbrown.HashBrown.End | hashbrown/include/hashbrown.hpp:248-252 | end() is the last bucket of this map and never at a pair. Its position is one past that bucket's pairs exactly when every earlier bucket is empty |
| Hashbrown.HashBrown.Empty | hashbrown/include/hashbrown.hpp:326-330 | empty() holds exactly for one bucket and no items, and then no key is stored |
| Hashbrown.HashBrown.Resize | hashbrown/include/hashbrown.hpp:281-307 | the loop leaves the rehashed table: 1 or twice as many buckets, each bucket holding the old pairs that hash to it in old bucket-major order, with the same multiset of pairs |
| Hashbrown.HashBrown.Store | hashbrown/include/hashbrown.hpp:180-204 | the bucket scan leaves the placed table. A stored key is overwritten at its first position and the count is kept. A new key is appended at the bucket's end and the count grows by one. The cursor names that position |
| Hashbrown.HashBrown.Insert | hashbrown/include/hashbrown.hpp:172-205 | insert keeps the invariant and leaves the upserted table. The cursor is in the key's bucket at the pair (key, value), the last one for a new key. Without growth, a stored key is overwritten at its own position and a new key is appended, and the other buckets are unchanged. get(key) then yields value and other keys are unchanged. The count grows by one exactly for a new key. One bucket stays one bucket |
| Hashbrown.HashBrown.InsertPair | hashbrown/include/hashbrown.hpp:207-227 | insert of a pair, moved pair or emplace is insert(key, value): same table, same bucket count, the cursor at the pair, get and the key set updated alike |
| Hashbrown.HashBrown.InsertAll | hashbrown/include/hashbrown.hpp:156-170 | range and list insert equal the single inserts in input order: the key set gains the input's keys, get(k) yields the last input value for k, and one bucket stays one bucket |
| Hashbrown.HashBrown.Erase | hashbrown/include/hashbrown.hpp:135-153 | erase of a stored key removes exactly its pair. The rest of its bucket keeps its order and the other buckets are unchanged. get(key) becomes absent and other keys are unchanged. The count drops by one. The cursor names the erased position |
| Hashbrown.Walk | hashbrown/include/hashbrown.hpp:77-88 | repeated prefix ++ stays on the same map |
| Hashbrown.WalkOneBucket | hashbrown/include/hashbrown.hpp:77-88 | with one bucket, n steps of ++ from position s reach position s + n |
| Hashbrown.IterationOneBucket | hashbrown/include/hashbrown.hpp:77-88 | with one bucket, the n-th step from begin() is the n-th stored pair, and it equals end() exactly after as many steps as there are items |
| Hashbrown.WalkAvoidsBucketHeads | hashbrown/include/hashbrown.hpp:77-88 | once past bucket 0, ++ never produces position 0 |
| Hashbrown.BucketHeadsUnreached | hashbrown/include/hashbrown.hpp:77-88 | iteration from begin() never reaches the first pair of any bucket after the first |
| Hashbrown.EmptyBucketTraps | hashbrown/include/hashbrown.hpp:77-88 | from a position past a bucket's pairs, such as position 1 of an empty bucket, n steps of ++ stay in that bucket at the position grown by n, are never at a pair, and in a valid map with the bucket before the last never reach end() |
| Hashbrown.OverrunsBucketEnd | hashbrown/include/hashbrown.hpp:77-88 | in a valid map, below the last bucket, ++ from a position within a bucket's pairs reaches the position just past them, which is neither a stored pair nor end(); one more ++ enters the next bucket at position 1 |
| Hashbrown.Traverse | hashbrown/src/main.cpp:17-18 | the range-for loop over a one-bucket map visits every stored pair exactly once in bucket order, as many pairs as items |
| Hashbrown.DriverInserts | hashbrown/src/main.cpp:11-13 | inserting (3, "three") and (4, "four") into a new map leaves one bucket and the keys {3, 4} |
| Hashbrown.DriverListInsert | hashbrown/src/main.cpp:14 | the list insert of (4, "another four") and (5, "five") leaves one bucket and the keys {3, 4, 5}, with get(4) yielding "another four" |
| Hashbrown.ScenarioDriver | hashbrown/src/main.cpp:8-19 | the driver's loop visits three pairs, with the keys {3, 4, 5}; key 4 is visited with "another four" and never with "four" |
| Hashbrown.ScenarioInsertOverwrites | hashbrown/test/test_hashbrown.cpp:7-25 | after insert(1, 42), get(1) yields 42; after insert(1, 66), get(1) yields 66 and the map holds one item |
| Hashbrown.ScenarioEraseRemoves | hashbrown/test/test_hashbrown.cpp:27-35 | after insert(1, 42) and erase(1), get(1) is absent and the map is empty again; the test is compiled only when `REMOVE_ELEM_TEST` is defined |
| Hashbrown.ScenarioEmptyByDefault | hashbrown/test/test_hashbrown.cpp:37-43 | a new map has begin() == end() and is empty(); get(1) on it is absent as well |

## Left out

- `load_factor()` (hashbrown/include/hashbrown.hpp:274-278) returns the floating-point constant 1.0 and nothing calls it.
- Postfix `operator++(int)` (hashbrown/include/hashbrown.hpp:90-95) returns a pointer where a reference is declared, so it is ill-formed if used; it is not modelled.
- `operator->`, `operator!=`, the const `begin`/`end`/`cbegin`/`cend` overloads, and the perfect forwarding of `emplace`. The const overloads forward to the non-const ones. `!=` is the negation of `==`. `emplace` and the moved-pair insert are modelled as `InsertPair`.
- `HashFunction` and `std::hash` (hashbrown/include/hashbrown.hpp:332-344) are not part of this model. The hasher is any function `K -> nat` given to the constructor.
- Table.Index: hash values and counters are unbounded naturals. The 64-bit width of `std::size_t` and its wrap-around are not modelled.
- Hashbrown.HashBrown.Resize: the stored hasher is used where the code builds a fresh `Hash{}`. This differs only for a hasher with state.
- Hashbrown.Traverse: covers only maps with one bucket. With more buckets, `end()` and `++` do not visit every pair; `BucketHeadsUnreached`, `OverrunsBucketEnd`, `EmptyBucketTraps` and `End` state how.
- Hashbrown.HashBrown.Erase: requires the key to be stored. Erasing an absent key is undefined behaviour in the code.
- Hashbrown.HashBrown.Insert: the value displaced by an overwrite is dropped, as in the code. The model does not return it.
- Hashbrown.Cursor.Deref: `operator*` yields a mutable reference to the stored pair, key included (hashbrown/include/hashbrown.hpp:21-22, 97-101). The model returns a copy, so writes through an iterator are not modelled. A key changed that way would break the table invariant `WellFormed`, so `Valid()` is preserved only by the modelled operations.
- Hashbrown.HashBrown.Get: `get` returns a pointer to the value inside the bucket (hashbrown/include/hashbrown.hpp:321). The model returns the value. That a later insert, erase or resize invalidates the pointer is not modelled.
- Cursors are values naming a map, a bucket and a position. The model does not state which cursors remain meaningful after a later insert or erase changes the map (C++ iterator invalidation).
- Threading and allocation failure: the map is single-threaded and its allocation failures are not modelled.
- The driver's console output (hashbrown/src/main.cpp) and the unused JSON object are not modelled.
- The other programs in the repository (mandelbrot-cpp, monte-carlo-pi, simplified-function, factory) are not part of this model.
