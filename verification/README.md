# HashMap.js in Dafny

This project models the two containers of `HashMap.js`:

- `HashMap()`, a string-keyed map;
- `HashSet()`, a string set.

Both are separately chained hash tables. The bucket array starts with 16 slots. Each slot is either absent or holds a list of entries, and a `size` counter tracks the entries. A key is placed with the polynomial rolling hash `h = (31*h + charCode) % buckets.length`.

The model is functional:

- The closure state is an immutable record `Table(buckets, size)`. Every mutating call returns the new record.
- A slot is an `Option<seq<Entry>>`. `None` stands for both `undefined` and `null`.
- Keys are sequences of UTF-16 code units, the values `charCodeAt` returns.

Module layout:

- `Hashing`: the key type, the hash as a recursive function (`Hash`) and as the source's loop (`ComputeHash`), the load test and the insertion outcome.
- `Buckets`: slots, the slot-order enumeration `Flatten` and `splice`.
- `HashMap` and `HashSet`: the two containers.
- `Demo`: the closing scenario of the file, replayed as lemmas.

Each container has:

- a representation invariant `Valid`:
  - every entry sits in the slot its key hashes to;
  - no key occurs twice in a slot;
  - no slot is present but empty;
  - `size` counts the stored entries.
- an abstraction `Model` to a Dafny `map<Key, V>` or `set<Key>`;
- lemmas showing that every operation keeps `Valid` and acts on `Model` as the matching map or set operation.

`RunRefinesMap` and `RunRefinesSet` combine these lemmas: any history of calls from a fresh table yields a valid table whose abstract value is what the same history does to a plain map or set.

Two behaviours of the code as written are modelled faithfully:

1. **The resize never takes effect.**
   - `buckets` is declared `const` (HashMap.js:2, 134) but reassigned at the end of `resize` (HashMap.js:127, 219), which raises a `TypeError`.
   - `resize` is only called after `set`/`add` has already appended the entry and incremented `size`.
   - So `Set`/`Add` return the table after insertion together with an `Outcome`, which is `ResizeThrew` exactly when the new size exceeds the load factor.
   - The capacity therefore stays 16 forever (`Run`).
   - At that capacity the twelfth distinct key is the first to throw (`SetThrowsFromTwelfthKey`, `AddThrowsFromTwelfthKey`).
2. **The rehash would not move anything anyway.**
   - Inside `resize`, `data.hash` still reads the old `buckets.length`, so `% newBuckets.length` changes nothing.
   - `Resize` is modelled as a method with the source's nested loops. It is proved to build exactly the old array followed by `capacity` absent slots.

The `% newBuckets.length` at HashMap.js:119 and 211 shows the intent to rehash every entry against the doubled capacity. The model follows what the code does instead, and never models a successful change of capacity.

The `'Index out of bounds'` branch of `set`/`add` (HashMap.js:19-21, 151-153) cannot be taken: `Hash` always returns an index below the capacity. The operations therefore have no such error path.

## Model

| member | source | states |
|---|---|---|
| `Hashing.Hash` | HashMap.js:7-15 | The hash of any key is a valid bucket index (below the capacity), and the empty key hashes to 0. |
| `Hashing.HashIsPolynomialMod` | HashMap.js:10-13 | Reducing at every step gives the same index as reading the key as a base-31 numeral and reducing once. |
| `Hashing.ComputeHash` | HashMap.js:139-147 | The `for` loop of `hash` computes the recursive `Hash`, which is the base-31 polynomial of the key modulo the capacity. |
| `Hashing.RehashIndexUnchanged` | HashMap.js:119 | `hash(key) % newBuckets.length` equals `hash(key)`, because the hash still reads the old capacity and is below it. |
| `Hashing.LoadExceededAtInitialCapacity` | HashMap.js:33 | At capacity 16, `size / 16 > 0.7` holds exactly from size 12 on. |
| `Buckets.Splice` | HashMap.js:68 | `splice(i, 1)` yields one element fewer: the elements before `i` unchanged, the later ones shifted down by one. |
| `HashMap.New` | HashMap.js:2-3 | A fresh map has 16 slots, length 0, and `get` finds nothing. |
| `HashMap.NewIsEmpty` | HashMap.js:2-3 | A fresh map satisfies the invariant and denotes the empty map. |
| `HashMap.Slot` | HashMap.js:18-21 | The index `set` computes is always in range, so the out-of-bounds throw is unreachable. |
| `HashMap.Find` | HashMap.js:25-30 | The bucket scan stops at the first entry with the key; it finds nothing exactly when no entry has the key. |
| `HashMap.Get` | HashMap.js:38-48 | `get` returns a value exactly when `has` holds, and that value is stored with the key in the key's slot. |
| `HashMap.GetModel` | HashMap.js:38-61 | On a valid table, `get` is lookup in the abstract map and `has` is membership in it. |
| `HashMap.Set` | HashMap.js:17-36 | `set` keeps the capacity and makes `get(key)` the new value. On a present key it keeps `size` and reports success. On a new key `size` grows by exactly one, and the resize throws exactly when the new size exceeds the load factor. |
| `HashMap.SetGet` | HashMap.js:25-32 | After `set`, `get(key)` is the new value and every other key's `get` is unchanged. |
| `HashMap.SetValid` | HashMap.js:17-36 | `set` keeps the representation invariant, including on the path where the resize throws. |
| `HashMap.SetMaintainsInvariant` | HashMap.js:22-32 | `set` keeps the invariant and updates the abstract map to `m[key := value]`. |
| `HashMap.SetThrowsFromTwelfthKey` | HashMap.js:32-35 | At capacity 16, setting a new key throws from `resize` exactly when the map already holds 11 or more bindings. |
| `HashMap.SetOverwriteEntries` | HashMap.js:25-29 | Setting a present key replaces the value of its one entry in place: `entries` is the old `entries` with that position updated. |
| `HashMap.SetOverwriteKeepsKeys` | HashMap.js:25-29 | Setting a present key leaves `keys` exactly as it was, order included. |
| `HashMap.SetAppendEntries` | HashMap.js:22-32 | Setting a new key makes its slot the old contents followed by the new entry, so `entries` is the old `entries` with the new entry inserted at one position and every other entry kept in order. |
| `HashMap.Remove` | HashMap.js:63-78 | `remove` returns true exactly when `has` held. On true, `size` drops by one at the same capacity. On false the table is unchanged. |
| `HashMap.RemoveGet` | HashMap.js:66-73 | After `remove`, the key is unbound and every other key's `get` is unchanged. |
| `HashMap.RemoveMaintainsInvariant` | HashMap.js:63-78 | `remove` keeps the invariant, reports whether the key was bound, and removes exactly that key from the abstract map. |
| `HashMap.RemoveEntries` | HashMap.js:66-73 | Removing a present key splices the entry with that key out of `entries` and keeps every other entry in order. |
| `HashMap.Clear` | HashMap.js:82-85 | `clear` keeps the capacity, makes `length` 0, and leaves every key unbound. |
| `HashMap.ClearMaintainsInvariant` | HashMap.js:82-85 | The cleared map is valid and empty, `entries`, `keys` and `values` are empty, and clearing twice equals clearing once. |
| `HashMap.KeysOf` | HashMap.js:88-93 | The keys collected slot by slot are the keys of the slot-order enumeration, position by position. |
| `HashMap.ValuesOf` | HashMap.js:97-102 | The values collected slot by slot are the values of the slot-order enumeration, position by position. |
| `HashMap.Keys` | HashMap.js:87-94 | `keys` has the length of `entries` and is its key projection. |
| `HashMap.Values` | HashMap.js:96-103 | `values` has the length of `entries` and is its value projection. |
| `HashMap.EntriesEnumerateModel` | HashMap.js:105-112 | `entries` lists each binding of the abstract map exactly once with its value, and its length is `length`. |
| `HashMap.KeysValuesEnumerateModel` | HashMap.js:87-103 | `keys` lists the abstract map's keys without repetition, `values` lists their values in the same order, and both have length `length`. |
| `HashMap.RehashSlot` | HashMap.js:117-125 | The inner loop of `resize` moves the entries of old slot `i`, in order, into new slot `i` and touches no other slot. |
| `HashMap.Resize` | HashMap.js:114-126 | The array `resize` builds is the old bucket array followed by `capacity` absent slots. |
| `HashMap.Apply` | HashMap.js:17-85 | No call on the map changes its capacity. |
| `HashMap.Run` | HashMap.js:2 | Whatever calls are made, the map keeps its 16 slots. |
| `HashMap.RunRefinesMap` | HashMap.js:1-131 | Every table reachable by `set`, `remove` and `clear` is valid and denotes the map the same history builds. |
| `HashSet.New` | HashMap.js:134-135 | A fresh set has 16 slots, length 0, and holds no key. |
| `HashSet.NewIsEmpty` | HashMap.js:134-135 | A fresh set satisfies the invariant and denotes the empty set. |
| `HashSet.Slot` | HashMap.js:150-153 | The index `add` computes is always in range, so the out-of-bounds throw is unreachable. |
| `HashSet.IndexOf` | HashMap.js:177-178 | `indexOf` finds the first position of the key, and finds nothing exactly when the key is absent. |
| `HashSet.HasIffModel` | HashMap.js:166-172 | On a valid table, `has` is membership in the abstract set. |
| `HashSet.Add` | HashMap.js:149-164 | After `add` the key is present and every other key is unaffected. Adding a present key changes nothing. Adding a new key grows `size` by one, and the resize throws exactly when the new size exceeds the load factor. |
| `HashSet.AddValid` | HashMap.js:149-164 | `add` keeps the representation invariant, including on the path where the resize throws. |
| `HashSet.AddMaintainsInvariant` | HashMap.js:154-159 | `add` keeps the invariant and inserts the key into the abstract set. |
| `HashSet.AddThrowsFromTwelfthKey` | HashMap.js:159-162 | At capacity 16, adding a new key throws from `resize` exactly when the set already holds 11 or more keys. |
| `HashSet.AddAppendKeys` | HashMap.js:154-159 | Adding a new key makes its slot the old contents followed by the key, so `keys` is the old `keys` with the key inserted at one position and every other key kept in order. |
| `HashSet.Remove` | HashMap.js:174-188 | `remove` returns true exactly when `has` held. On true, `size` drops by one. On false the table is unchanged. Either way every other key is unaffected. |
| `HashSet.SpliceKeepsBucket` | HashMap.js:179 | Splicing a key out of a repetition-free, well-placed bucket keeps it so, and the key is gone. |
| `HashSet.RemoveValid` | HashMap.js:179-183 | `remove` keeps the invariant, and afterwards `has(key)` is false. |
| `HashSet.RemoveMaintainsInvariant` | HashMap.js:174-188 | `remove` keeps the invariant, reports whether the key was present, and removes exactly that key from the abstract set. |
| `HashSet.RemoveKeys` | HashMap.js:177-183 | Removing a present key splices that key out of `keys` and keeps every other key in order. |
| `HashSet.Clear` | HashMap.js:192-195 | `clear` keeps the capacity, makes `length` 0, and leaves no key present. |
| `HashSet.ClearMaintainsInvariant` | HashMap.js:192-195 | The cleared set is valid and empty, `keys` is empty, and clearing twice equals clearing once. |
| `HashSet.KeysEnumerateModel` | HashMap.js:197-204 | `keys` lists each stored key exactly once, its length is `length` and the size of the abstract set, and it contains exactly the keys `has` accepts. |
| `HashSet.RehashSlot` | HashMap.js:209-217 | The inner loop of `resize` moves the keys of old slot `i`, in order, into new slot `i` and touches no other slot. |
| `HashSet.Resize` | HashMap.js:206-218 | The array `resize` builds is the old bucket array followed by `capacity` absent slots. |
| `HashSet.Apply` | HashMap.js:149-195 | No call on the set changes its capacity. |
| `HashSet.Run` | HashMap.js:134 | Whatever calls are made, the set keeps its 16 slots. |
| `HashSet.RunRefinesSet` | HashMap.js:133-223 | Every table reachable by `add`, `remove` and `clear` is valid and denotes the set the same history builds. |
| `Demo.MapKeySlots` | HashMap.js:230-232 | At capacity 16, "key1" to "key4" hash to slots 2, 3, 4 and 5. |
| `Demo.SetKeySlots` | HashMap.js:260-262 | At capacity 16, "hashSet: key1" to "hashSet: key4" hash to slots 12, 13, 14 and 15. |
| `Demo.MapLayout` | HashMap.js:230-243 | The three `set` calls fill slots 2, 3 and 4 with one entry each; removing "key2" leaves slots 2 and 4. |
| `Demo.MapLookups` | HashMap.js:228-253 | The sizes 3, 2 and 0, the three `get` results, `has` true for "key1" and false for "key4", and `get("key2")` empty after the removal, as the comments announce. |
| `Demo.MapEnumerations` | HashMap.js:248-250 | After the removal, `keys`, `values` and `entries` are `[key1, key3]`, `[value1, value3]` and their pairs. |
| `Demo.SetLayout` | HashMap.js:260-269 | The three `add` calls fill slots 12, 13 and 14; removing "hashSet: key2" leaves slots 12 and 14. |
| `Demo.SetScenario` | HashMap.js:256-277 | The sizes 3, 2 and 0, `has` true for key1 and false for key4 and for key2 after removal, and `keys` equal to `[hashSet: key1, hashSet: key3]`, as the comments announce. |

## Left out

- Console output of the closing scenario (HashMap.js:225-277): the scenario is replayed as lemmas in `Demo`, and the printing is not modelled.
- Floating-point load factor: `size / buckets.length > 0.7` is modelled as the exact integer test `10 * size > 7 * capacity`. The two agree at the only capacity that ever occurs, 16.
- The `TypeError` itself and the JavaScript closure and `const` mechanics: the failed reassignment is modelled only through its observable effect, the `ResizeThrew` outcome with the inserted entry kept.
- Aliasing: `entries()` returns the live `[key, value]` arrays, so a later `set` that overwrites a value shows through them. The model returns pure copies.
- `get`'s `null` sentinel: `Get` returns `Option<V>`. The source cannot tell a stored `null` value from a missing key (HashMap.js:47); the model can.
- JavaScript string details: keys are sequences of UTF-16 code units below 65536, as `charCodeAt` reads them; values are an arbitrary type parameter.
- `HashMap.Length` and `HashSet.Length`: they return `size` and carry no contract of their own. What `length` means is stated by `EntriesEnumerateModel` and `KeysEnumerateModel` on valid tables.
- `HashMap.Has` and `HashSet.Has`: predicates without a contract of their own. Their meaning is stated by `Get`, `GetModel` and `HasIffModel`.
- `HashMap.Entries` and `HashSet.Keys`: the slot-order concatenation `Flatten` with no contract of their own. Their meaning is stated by `EntriesEnumerateModel` and `KeysEnumerateModel`.
- Integer width: `size` is an unbounded integer; the JavaScript number never comes near the point where it would lose precision.
