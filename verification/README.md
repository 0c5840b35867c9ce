# Bidirectional maps, modelled in Dafny

This project models the two containers of the `bidirection-map` library.

- `BidirectionMap<K, V>` is one-to-one. It keeps `keyToValue` and `valueToKey`, and every mutation writes both.
- `BidirectionMultipleValueMap<K, V>` is one-to-many. Each key owns an ordered list of values, each value has exactly one owning key, and `set` moves a value from its previous owner.

The files:

- `common.dfy` (module `Common`) holds the result vocabulary. A throw becomes `Err(NotFound)` or `Err(Inconsistent)`. `Step(after, result)` pairs the state after a call with what the call returned.
- `one_to_one.dfy` (module `OneToOne`) holds pure functions `Put`, `RemoveKey` and `RemoveValue` on a `Maps` value. They give the state each mutation leaves. It also holds the lemmas about them and the class `BidirectionMap`. The class has the two `map` fields, and its methods update those fields in place. Each method's `ensures` ties the new fields to the matching pure function of the old fields.
- `one_to_many.dfy` (module `OneToMany`) follows the same plan for `BidirectionMultipleValueMap`. `deleteKey`'s `forEach` becomes a `while` loop with invariants. The constructor's nested `forEach` becomes two nested loops that call `Set`.

The invariant of each container:

- One-to-one, `Inverse`: every key points at a value that points back at it, and every value points at a key that points back at it. Under `Inverse`, `size` also counts the values.
- One-to-many, `Consistent`: every listed value points back at the key that lists it (`Owned`), and every owned value is listed under its owner (`Listed`). No list holds a value twice. So each owned value appears exactly once, in its owner's list.
- One-to-many, `Tidy`: no key holds an empty list. This is kept apart from `Consistent` because `set` does not preserve it.

Three behaviours are modelled as the code has them:

- One-to-one `set(k, v)`, when `v` already belongs to another key `k0`, leaves `k0`'s forward entry pointing at `v`. `PutKeepsInverse` proves that `set` keeps `Inverse` exactly when `v` is unowned or already owned by `k`.
- One-to-many `set` moves a value out of its old owner's list but keeps the old owner's key, even when that list is now empty (`PutMayLeaveEmptyList`). Unlike `deleteValue`, which drops a key whose list it empties, a move does not drop an owner whose list it empties; the model follows the code.
- One-to-many `set` appends the value to the new key's list before its two integrity checks. When a check fails, the append stays behind (`PutFailsAfterAppending`). `PutKeepsConsistent` proves that these checks never fail on a consistent container.

Absence is map membership throughout. The source has four truthiness tests on keys and values: `if (oldValue)` and `if (!value)` in `set` and `deleteKey` of the one-to-one map, and `if (!key)` in both `deleteValue`s. These tests also treat a falsy key or value (`0`, `""`, `false`) as absent. The model treats such keys and values as present. Two more tests, `if (!value)` in the one-to-many `deleteKey` (src/BidirectionMultipleValueMap.ts:69) and `if (!values)` in its `deleteValue` (:91), are on arrays, which are never falsy, so membership models them exactly.

## Model

| member | source | states |
|---|---|---|
| `OneToOne.Empty` | src/BidirectionMap.ts:2-4 | A new container has two empty maps that are inverse to each other. |
| `OneToOne.Put` | src/BidirectionMap.ts:14-23 | After `set(k, v)`, `k` maps to `v` and `v` maps to `k`. The key set gains `k`. Other keys keep their values. `k`'s previous value, if different, loses its reverse entry. No other reverse entry changes. |
| `OneToOne.RemoveKey` | src/BidirectionMap.ts:41-49 | `deleteKey` fails with NotFound exactly when the key is absent, and then changes nothing. Otherwise it removes the key and its value's reverse entry, and nothing else changes. |
| `OneToOne.RemoveValue` | src/BidirectionMap.ts:51-59 | `deleteValue` fails with NotFound exactly when the value is absent, and then changes nothing. Otherwise it removes the value and its key's forward entry, and nothing else changes. |
| `OneToOne.InverseSizes` | src/BidirectionMap.ts:66-68 | Inverse maps have as many keys as values. |
| `OneToOne.PutKeepsInverse` | src/BidirectionMap.ts:14-23 | From inverse maps, `set(k, v)` gives inverse maps if and only if `v` is unowned or already owned by `k`. Otherwise a stale forward entry remains. |
| `OneToOne.PutIdempotent` | src/BidirectionMap.ts:14-23 | A second identical `set` changes nothing. |
| `OneToOne.RemoveKeyKeepsInverse` | src/BidirectionMap.ts:41-49 | `deleteKey` keeps the maps inverse. |
| `OneToOne.RemoveValueKeepsInverse` | src/BidirectionMap.ts:51-59 | `deleteValue` keeps the maps inverse. |
| `OneToOne.RemoveValueIsRemoveKey` | src/BidirectionMap.ts:41-59 | On inverse maps, deleting a key's value has the same effect as deleting the key. |
| `OneToOne.PutThenRemoveKey` | src/BidirectionMap.ts:14-49 | `deleteKey` undoes a `set` of a fresh key and a fresh value. |
| `OneToOne.TwoPairsThenDeleteKey` | src/BidirectionMap.ts:14-49 | `set("a",1)` then `set("b",2)` gives `get("a")==1`, `getKey(2)=="b"` and size 2. A following `deleteKey("a")` removes `"a"` and `1` and leaves size 1. |
| `OneToOne.BidirectionMap.constructor` | src/BidirectionMap.ts:2-4 | Both fields start empty, and the container is valid. |
| `OneToOne.BidirectionMap.Set` | src/BidirectionMap.ts:14-23 | The new fields are `Put` of the old ones, and afterwards `get(k)==v` and `getKey(v)==k`. Validity is kept when `v` was unowned or owned by `k`. |
| `OneToOne.BidirectionMap.Get` | src/BidirectionMap.ts:25-27 | Returns a value exactly when the key is present. On a valid container, that value's `getKey` is the key. |
| `OneToOne.BidirectionMap.GetKey` | src/BidirectionMap.ts:29-31 | Returns a key exactly when the value is present. On a valid container, that key's `get` is the value. |
| `OneToOne.BidirectionMap.HasKey` | src/BidirectionMap.ts:33-35 | On a valid container, true exactly when some value maps back to the key. |
| `OneToOne.BidirectionMap.HasValue` | src/BidirectionMap.ts:37-39 | On a valid container, true exactly when some key maps to the value. |
| `OneToOne.BidirectionMap.DeleteKey` | src/BidirectionMap.ts:41-49 | The result and new fields are `RemoveKey` of the old fields. On success the key and its value are gone. Validity is kept. |
| `OneToOne.BidirectionMap.DeleteValue` | src/BidirectionMap.ts:51-59 | The result and new fields are `RemoveValue` of the old fields. On success the value and its key are gone. Validity is kept. |
| `OneToOne.BidirectionMap.Clear` | src/BidirectionMap.ts:61-64 | Both maps become empty. The container is valid and its size is 0. |
| `OneToOne.BidirectionMap.Size` | src/BidirectionMap.ts:66-68 | On a valid container, the number of keys equals the number of values. |
| `OneToMany.Empty` | src/BidirectionMultipleValueMap.ts:2-4 | A new container is consistent and has no key and no value. |
| `OneToMany.IndexOf` | src/BidirectionMultipleValueMap.ts:41 | `indexOf` returns -1 exactly when the value is absent. Otherwise it returns the position of its first occurrence. |
| `OneToMany.Splice` | src/BidirectionMultipleValueMap.ts:45 | `splice(index, 1)` removes the element at `index` and keeps the others in order. |
| `OneToMany.SpliceDistinct` | src/BidirectionMultipleValueMap.ts:98 | Splicing one element out of a duplicate-free list leaves exactly the other elements, still without duplicates. |
| `OneToMany.Put` | src/BidirectionMultipleValueMap.ts:22-49 | `set(k, v)` is a no-op when `v` is owned by `k`. Otherwise `v` is appended to `k`'s list, even on failure, and `k` becomes a key. The call fails with Inconsistent exactly when the old owner has no list or its list lacks `v`; the reverse map and every list except `k`'s are then unchanged. On success, `getKey(v)==k`. The old owner's first occurrence of `v` is spliced out, and the old owner stays a key. All other lists are unchanged. |
| `OneToMany.RemoveKey` | src/BidirectionMultipleValueMap.ts:67-77 | `deleteKey` fails with NotFound exactly when the key is absent, and then changes nothing. Otherwise the key is gone and every value it owned has lost its reverse entry. Other keys and other reverse entries are unchanged. |
| `OneToMany.RemoveValue` | src/BidirectionMultipleValueMap.ts:84-105 | `deleteValue` fails with NotFound exactly when the value is absent. It fails with Inconsistent exactly when the owner does not list the value. Neither failure changes anything. On success the value loses its reverse entry and leaves its owner's list. The result is true exactly when the list held only that value, and exactly when the owner key is gone. Other keys are unchanged. |
| `OneToMany.ValueCount` | src/BidirectionMultipleValueMap.ts:116-118 | On a consistent container, the number of values equals the sum of the list lengths. |
| `OneToMany.KeysIffValues` | src/BidirectionMultipleValueMap.ts:112-118 | On a consistent container with no empty lists, there are no keys exactly when there are no values. |
| `OneToMany.PutKeepsConsistent` | src/BidirectionMultipleValueMap.ts:22-49 | On a consistent container, `set` never hits an integrity throw and keeps the container consistent. |
| `OneToMany.PutIdempotent` | src/BidirectionMultipleValueMap.ts:22-25 | Repeating a successful `set` changes nothing. |
| `OneToMany.PutMoves` | src/BidirectionMultipleValueMap.ts:35-48 | `set(k1, v)` then `set(k2, v)` with `k1 != k2` makes `k2` own `v`. `k1` stays a key but no longer lists `v`. |
| `OneToMany.PutMayLeaveEmptyList` | src/BidirectionMultipleValueMap.ts:45 | Moving a key's only value leaves that key with an empty list, so `Tidy` is not preserved by `set`. |
| `OneToMany.PutFailsAfterAppending` | src/BidirectionMultipleValueMap.ts:33-44 | When the integrity check fails, the value stays appended to the new key's list. There is no rollback. |
| `OneToMany.RemoveKeyKeepsConsistent` | src/BidirectionMultipleValueMap.ts:67-77 | `deleteKey` keeps consistency and keeps `Tidy`. |
| `OneToMany.RemoveValueKeepsConsistent` | src/BidirectionMultipleValueMap.ts:84-105 | On a consistent container, `deleteValue` fails only with NotFound. It keeps consistency and keeps `Tidy`. |
| `OneToMany.PutAllKeepsConsistent` | src/BidirectionMultipleValueMap.ts:9 | `set` of each value of a list, in order, never fails on a consistent container and keeps it consistent. |
| `OneToMany.PutAll` | src/BidirectionMultipleValueMap.ts:9 | `set` of each value of a list under one key, in order, stopping at the first throw (always Inconsistent). When none throws, the key owns every value of the list and keeps every value it owned before. |
| `OneToMany.Load` | src/BidirectionMultipleValueMap.ts:6-12 | The constructor's walk over its entries: `PutAll` per entry, in order, stopping at the first throw (always Inconsistent). When none throws, the last entry's key owns all of that entry's values, so later entries win. |
| `OneToMany.LoadKeepsConsistent` | src/BidirectionMultipleValueMap.ts:6-12 | Applying every entry from a consistent state never fails and leaves a consistent container. |
| `OneToMany.MoveBetweenTwoKeys` | src/BidirectionMultipleValueMap.ts:22-49 | `set("a",1)`, `set("a",2)`, `set("b",2)` gives `get("a")==[1]`, `get("b")==[2]` and `getKey(2)=="b"`. |
| `OneToMany.DeleteOnlyValue` | src/BidirectionMultipleValueMap.ts:67-105 | Deleting a key's only value returns true and removes the key. Deleting an absent key or value fails with NotFound. |
| `OneToMany.BidirectionMultipleValueMap.constructor` | src/BidirectionMultipleValueMap.ts:6-12 | The state is `set(key, value)` applied to each value of each entry, in order, from empty. The result is consistent. |
| `OneToMany.BidirectionMultipleValueMap.Set` | src/BidirectionMultipleValueMap.ts:22-49 | The result and new fields are `Put` of the old fields, including the partial state on failure. A valid container never fails and stays valid. |
| `OneToMany.BidirectionMultipleValueMap.Get` | src/BidirectionMultipleValueMap.ts:51-53 | Returns a list exactly when the key is present. On a valid container, every value in it has `getKey` equal to the key. |
| `OneToMany.BidirectionMultipleValueMap.GetKey` | src/BidirectionMultipleValueMap.ts:55-57 | Returns a key exactly when the value is present. On a valid container, that key's list contains the value. |
| `OneToMany.BidirectionMultipleValueMap.HasKey` | src/BidirectionMultipleValueMap.ts:59-61 | On a valid container with no empty lists, true exactly when some value is owned by the key. |
| `OneToMany.BidirectionMultipleValueMap.HasValue` | src/BidirectionMultipleValueMap.ts:63-65 | On a valid container, true exactly when some key lists the value. |
| `OneToMany.BidirectionMultipleValueMap.DeleteKey` | src/BidirectionMultipleValueMap.ts:67-77 | A loop removes the reverse entry of each of the key's values, then the key. The result and new fields are `RemoveKey` of the old fields. Validity and `Tidy` are kept. |
| `OneToMany.BidirectionMultipleValueMap.DeleteValue` | src/BidirectionMultipleValueMap.ts:84-105 | The result and new fields are `RemoveValue` of the old fields. A valid container never fails with Inconsistent, stays valid, and keeps `Tidy`. |
| `OneToMany.BidirectionMultipleValueMap.Clear` | src/BidirectionMultipleValueMap.ts:107-110 | Both maps become empty, and `size` and `valueSize` are 0. |
| `OneToMany.BidirectionMultipleValueMap.Size` | src/BidirectionMultipleValueMap.ts:112-114 | On a valid container with no empty lists, the size is 0 exactly when there are no values. |
| `OneToMany.BidirectionMultipleValueMap.ValueSize` | src/BidirectionMultipleValueMap.ts:116-118 | On a valid container, the value count equals the sum of the list lengths. |

## Left out

- `keys()` and `values()` (src/BidirectionMap.ts:6-12, src/BidirectionMultipleValueMap.ts:14-20) are not modelled. They return live iterators over JavaScript `Map` keys in insertion order. The key sets of the two map fields stand in for them.
- The model does not keep the insertion order of JavaScript `Map` entries. Dafny `map`s are unordered. The order of values inside one list is kept.
- The truthiness tests (`if (oldValue)`, `if (!value)`, `if (!key)`) are modelled as membership tests. A falsy key or value therefore counts as present.
- `undefined` as a key or value is not modelled: `valueToKey.get(value) === key` and `oldKey !== undefined` in `set` are modelled as membership. Keys and values are compared with Dafny equality, one equality for both the maps and `indexOf`.
- `NaN` as a value of the one-to-many map is not modelled. `Map` finds `NaN` (SameValueZero), but `indexOf` (src/BidirectionMultipleValueMap.ts:41, :94) uses strict equality and never finds it. So in the source a moving `set` or a `deleteValue` of `NaN` throws "in-consistent data" even on a consistent container, which `PutKeepsConsistent` and `RemoveValueKeepsConsistent` rule out for the model.
- `get` on the one-to-many map returns its internal array, which callers can mutate. The model returns the list as a value, so that aliasing is not modelled.
- The error message strings and `Error` objects become the two kinds `NotFound` and `Inconsistent`.
- The constructor's optional `entries` becomes a list, and an omitted argument is the empty list. A throwing `set` inside the constructor is not modelled, because it is proved not to happen from an empty container.
- `OneToMany.BidirectionMultipleValueMap.Size`: states only how the key count relates to the value count (zero exactly together). It does not state the key count beyond the field's size, because the source promises nothing more.
- `OneToMany.BidirectionMultipleValueMap.HasKey`: states the link to owned values only when no list is empty, because `set` can leave a key with an empty list.
