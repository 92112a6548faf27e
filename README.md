# diff-utils in Dafny

A model of the diff/patch engine of diff-utils (`src/index.ts`) for
JSON-like trees, with proofs about it.

- `createDiff(old, new)` walks both values key by key. For each key it
  does not descend into, it records a leaf `{oldValue, newValue}` when the
  value changed, was removed or was added. When the old value has type
  `'object'` (null included) and the new one is present and not null, it
  descends, and it records the sub-diff only if it is non-empty (some
  changes are lost this way; see below).
- `applyDiff(source, diff)` patches a copy of `source` by writing back each
  leaf's *old* value, or deleting the key when that old value is null. It
  recurses into sub-diffs and rebuilds an array when the patched keys are
  `"0"`, ..., `"n-1"` (`isArrayLike`).
- `applyDiffs` folds `applyDiff` over a list of diffs.
- `diffIterator` walks a diff depth-first and yields one record per leaf.

Files, one module each:

- `json_values.dfy` (`JsonValues`): JSON values, and the view of their keys
  that `for..in`, `v[key]` and the spread `{...v}` give. An array shows its
  elements under their decimal index keys.
- `diff_tree.dfy` (`DiffTree`): the diff as a tagged tree of `Leaf` and `Sub`
  nodes.
- `diff_builder.dfy` (`DiffBuilder`): `createDiff`.
  - `CreateDiff` is a method with the source's two `for..in` loops. It is
    proved equal to the function `DiffOf`, and the properties of `DiffOf`
    are proved as lemmas.
- `diff_applier.dfy` (`DiffApplier`): `applyDiff`, `isArrayLike` and
  `applyDiffs`.
  - `ApplyDiff` is a method with the source's loop. It is proved equal to
    the function `Applied`.
- `diff_traversal.dfy` (`DiffTraversal`): `diffIterator`, as a method that
  returns the yielded records as a sequence.
- `round_trip.dfy` (`RoundTrip`): the reversal round trip
  `applyDiff(B, createDiff(A, B))` gives back `A` under the conditions
  stated below (`RoundTripEquiv`, `RoundTripExact`), and its extension to
  chains of revisions with `applyDiffs`.
- `wire_format.dfy` (`WireFormat`): the diff as the plain object it is at run
  time, read back by line 49's `hasOwnProperty('oldValue')` test (see
  Findings).

Throwing inputs are preconditions, each a predicate named for the operation:

- `DiffDefined`: `key in null` and `key in 5` throw in `createDiff`.
- `ApplyDefined`: `undefined[key]` and `null[key]` throw in `applyDiff`.
- `FoldDefined`: no step of `applyDiffs` throws.

Behaviours of the code worth knowing:

- `createDiff` descends whenever the old value has type `'object'` (null
  included) and the new one is present and not null (line 16). The new
  value need not be a container. So an old null or an old empty container
  replaced by a number, a boolean or the empty string is not recorded at
  all (`NullToScalarNotRecorded`, `EmptyToScalarNotRecorded`).
- The round trip does not hold for every pair of containers. It holds when
  the old value holds no null and its containers face containers, null or
  nothing in the new value (`RoundTripEquiv`). These conditions are
  sufficient, not necessary, but neither can simply be dropped: the two
  lemmas above exhibit changes that are lost when they fail. The round trip
  is exact, rather than up to an array/object relabelling, when both values
  are also in the shape `applyDiff` rebuilds (`RoundTripExact`).
- No dedicated error is raised for a malformed diff node. A node is read
  as a subtree or as a leaf by line 49, and nothing else is checked.

## Model

| member | source | states |
|---|---|---|
| JsonValues.IndexMapKeys | src/index.ts:14 | the keys `for..in` visits on an array of length n are exactly `"0"`, ..., `"n-1"` |
| JsonValues.IndexMapAt | src/index.ts:16 | `arr[i.toString()]` is element i |
| JsonValues.IndexKeyInjective | src/index.ts:115 | distinct indices have distinct `toString()` keys |
| DiffBuilder.CreateDiff | src/index.ts:10-36 | the loops build exactly the diff `DiffOf(old, new)` |
| DiffBuilder.RecordOldKey | src/index.ts:15-27 | one pass of the first loop adds the key's entry of `DiffOf`, or nothing when `DiffOf` has none |
| DiffBuilder.AddNewKeys | src/index.ts:31-33 | the second loop completes the old keys' entries to the whole of `DiffOf` |
| DiffBuilder.DiffOfAt | src/index.ts:14-33 | under an old key the diff holds what the first loop records (descend, else leaf `{old, new ?? null}` when they differ); under a key only the new value has, the leaf `{null, new}`; under any other key nothing |
| DiffBuilder.DiffOfKeys | src/index.ts:14-33 | every key of the diff is a key of the old or the new value |
| DiffBuilder.DiffOfNoEmptySubtrees | src/index.ts:17-19 | no subtree of a created diff, at any depth, is empty |
| DiffBuilder.EquivNotRecorded | src/index.ts:14-33 | comparing equivalent values, the old one not a non-empty string, never throws and gives the empty diff |
| DiffBuilder.DiffOfSelf | src/index.ts:8 | `createDiff(x, x)` is defined and empty, for any x but a non-empty string |
| DiffBuilder.UnchangedNotRecorded | src/index.ts:22 | a key bound to the same value on both sides is not recorded |
| DiffBuilder.EmptyDiffEquiv | src/index.ts:14-33 | conversely, for a null-free old value whose containers face containers, an empty diff means the two values are equivalent |
| DiffBuilder.EmptyToScalarNotRecorded | src/index.ts:16-19 | an old empty container replaced by a number, a boolean or the empty string is not recorded |
| DiffBuilder.NullToScalarNotRecorded | src/index.ts:16-19 | an old null replaced by a number, a boolean or the empty string is not recorded |
| DiffApplier.ArrayLikeKeys | src/index.ts:113-116 | `isArrayLike(m)` holds exactly when m has n >= 1 keys and they are `"0"`, ..., `"n-1"` |
| DiffApplier.Reconstitute | src/index.ts:62-66 | the result is an array exactly when the patched object is array-like, an object otherwise, and either way it has exactly the patched keys and values: `Object.values` keeps element i under key `"i"` |
| DiffApplier.ReconstituteOfEntries | src/index.ts:62-66 | a non-empty array, or an object that is not array-like, is rebuilt as itself from its entries |
| DiffApplier.EquivCanonicalEqual | src/index.ts:62-66 | equivalent values with no empty array and no array-like object at any depth are equal |
| DiffApplier.PatchedAt | src/index.ts:45-59 | after the loop, a key of the diff holds its key result and any other key its source value |
| DiffApplier.AppliedAt | src/index.ts:44-67 | a leaf with a null old value deletes the key, another leaf writes its old value, a subtree writes the recursively patched child, and every key not in the diff keeps its source binding |
| DiffApplier.AppliedEmpty | src/index.ts:45-47 | an empty diff gives back the source's keys and values |
| DiffApplier.ApplyDiff | src/index.ts:44-67 | the loop and the array check compute exactly `Applied(source, diff)` |
| DiffApplier.ApplyKey | src/index.ts:48-58 | one pass binds the key to its patched value or removes it, and changes nothing else |
| DiffApplier.ApplyDiffs | src/index.ts:75-77 | folding no diffs gives the source, and folding one diff is `applyDiff` |
| DiffApplier.ApplyDiffsCons | src/index.ts:75-77 | applying `[d] + ds` is applying `d` then `ds`, and throws exactly when one of the two does |
| DiffApplier.ApplyDiffsAppend | src/index.ts:75-77 | applying `a + b` is applying `a` then `b`, and throws exactly when one of the two does |
| RoundTrip.NullFreeDefined | src/index.ts:16-17 | `createDiff` does not throw when the old value is a null-free container and the new value is not null |
| RoundTrip.CreatedDiffApplies | src/index.ts:49-50 | a created diff can always be applied to the new value |
| RoundTrip.RestoredKeys | src/index.ts:52-53 | applying a created diff to the new value leaves only keys of the old value |
| RoundTrip.RoundTripEquiv | src/index.ts:10-67 | for a null-free old container whose containers face containers, null or nothing, `applyDiff(B, createDiff(A, B))` is equivalent to A |
| RoundTrip.RoundTripEquivAt | src/index.ts:47-57 | the round trip key by key: every old key comes back with an equivalent value |
| RoundTrip.RoundTripExact | src/index.ts:10-67 | when both values also have no empty array and no array-like object, `applyDiff(B, createDiff(A, B)) == A` exactly |
| RoundTrip.RoundTripExactAt | src/index.ts:47-57 | the exact round trip key by key: every old key comes back with its value |
| RoundTrip.ReverseDiffs | test/end-to-end.test.ts:48 | the diffs between n successive revisions are n - 1 |
| RoundTrip.ReverseChainRestores | test/end-to-end.test.ts:47-50 | `applyDiffs` over the diffs between successive revisions, newest first, turns the newest revision into the oldest |
| DiffTraversal.DiffIterator | src/index.ts:91-110 | the yielded records are exactly one per leaf reachable from the root, each path extends the starting path, and no two records share a path |
| DiffTraversal.YieldKey | src/index.ts:93-107 | one pass yields a leaf's record or everything the walk below the key yields, all under `path + [key]` and with distinct paths |
| DiffTraversal.YieldsSound | src/index.ts:91-110 | every record stands for a leaf: its path leads from the root to a leaf holding the record's old and new values, and its key is the path's last key |
| DiffTraversal.YieldsComplete | src/index.ts:91-110 | every leaf reachable from the root is yielded with its path |
| WireFormat.WireAppliedAt | src/index.ts:44-67 | applyDiff on the run-time diff, key by key: a node is applied as a subtree exactly when it is an object without an own `oldValue` key (line 49); any other node deletes the key when its `oldValue` is null and writes that `oldValue` otherwise; keys not in the diff keep their source values |
| WireFormat.EncodeNode | src/index.ts:23-26 | a diff node is a plain object at run time, and a leaf's has an own `oldValue` key |
| WireFormat.Encode | src/index.ts:19 | a diff has the same keys at run time |
| WireFormat.ExampleSubDiffOf | src/index.ts:22-26 | `createDiff({oldValue: 1}, {oldValue: 2})` is `{oldValue: {oldValue: 1, newValue: 2}}` |
| WireFormat.ExampleDiffOf | src/index.ts:16-19 | `createDiff({x: {oldValue: 1}}, {x: {oldValue: 2}})` has the sub-diff above under `x` |
| WireFormat.ExampleEncoded | src/index.ts:19 | that diff is `{x: {oldValue: {oldValue: 1, newValue: 2}}}` at run time |
| WireFormat.ExampleMisread | src/index.ts:49 | line 49 reads the sub-diff under `x` as a leaf, so `x` comes back as `{oldValue: 1, newValue: 2}` |
| WireFormat.ExampleAligned | src/index.ts:16 | the example revisions meet the round trip's null-free and alignment conditions |
| WireFormat.ExampleCanonical | src/index.ts:62-66 | the example revisions are in the shape `applyDiff` rebuilds |
| WireFormat.ExampleDiffers | src/index.ts:49 | a value holding `{oldValue: 1, newValue: 2}` under `x` is not `{x: {oldValue: 1}}` |
| WireFormat.OldValueKeyMisread | src/index.ts:49 | on the tagged diff the round trip for the example holds; as written, the run-time diff does not give back `{x: {oldValue: 1}}` |

## Left out

- String values are treated as scalars with no keys. `for..in`, `"ab"[k]` and `{..."ab"}` on a string see index keys, and they are not modelled. So `DiffOf` differs from `createDiff` where line 14 or line 31 iterates over a non-empty string: `createDiff({k: {}}, {k: "ab"})` records the added keys `"0"` and `"1"` under `k`, and `createDiff({k: null}, {k: "ab"})` and `createDiff("ab", "ab")` throw at line 32. A top-level string is also outside the declared parameter types (`Record<string, any>`). The round-trip lemmas are unaffected: `Aligned` makes every container of the old value face a container, null or nothing.
- DiffBuilder.DiffOfSelf: stated for every value but a non-empty string (`KeyedAsEnumerated`), because of the string keys left out above.
- DiffBuilder.EquivNotRecorded: stated only for an old value that is not a non-empty string, for the same reason.
- DiffBuilder.NullToScalarNotRecorded: stated only for a new scalar that is not a non-empty string, for the same reason.
- DiffBuilder.EmptyToScalarNotRecorded: stated only for a new scalar that is not a non-empty string, for the same reason.
- Properties that `key in obj` finds on the prototype chain (`"toString" in {}`) and an array's `length` are not modelled. `key in oldObj` at line 32 is read as an own-key test.
- Key enumeration order is not modelled: diffs and results are maps, and `DiffIterator` visits the keys in an unspecified order. `isArrayLike` depends on order; it is modelled through JavaScript's rule that integer keys come first, in ascending order.
- Numbers are integers: floating point, `NaN`, `-0` and their `JSON.stringify` collisions are not modelled. The `JSON.stringify` comparison at line 22 is value equality, which it is on the values that reach it.
- `undefined` is not a value: an absent key stands for it, and `applyDiff` reads an absent child as null (`DiffApplier.Child`). Both spread to `{}`.
- TypeErrors are preconditions (`DiffDefined`, `ApplyDefined`, `FoldDefined`), not modelled error results.
- Aliasing and sharing between the source and the result (the shallow copy at line 45) are not modelled; values are immutable.
- `diffIterator` is a method that returns every record at once. Generator laziness, the yield order and restartability are not modelled.
- `diffIterator` classifies nodes by the `Leaf`/`Sub` tag. Its own `hasOwnProperty('oldValue')` test at line 95 is the same as line 49 and is modelled only for `applyDiff` (`WireFormat`).
- `hasOwnProperty(key)` at lines 48 and 93 always holds for a diff built from plain data; it is not modelled.
- WireFormat.ApplyWire: the run-time form is modelled only on diffs whose every node is an object (`WireDefined`). Array or scalar nodes, which `createDiff` never builds, are left out.
- The test suites' expected values use a different encoding (bare old values and a `'$DELETE'` sentinel) that `src/index.ts` does not implement. They are not modelled; only the round-trip and fold shapes of test/end-to-end.test.ts and test/cascade.test.ts are.
- index.d.ts (type declarations) and jest.config.js (test configuration) are not part of this model.

## Findings

| source | as written | input that shows it | evidently intended | confidence | as-written member | corrected member |
|---|---|---|---|---|---|---|
| src/index.ts:49 | a diff node is read as a subtree only when it has no own `oldValue` key, so a sub-diff of an object that has a key named `oldValue` is read as a leaf | A = `{x: {oldValue: 1}}`, B = `{x: {oldValue: 2}}`: `createDiff(A, B)` is `{x: {oldValue: {oldValue: 1, newValue: 2}}}`, and applying it to B gives `{x: {oldValue: 1, newValue: 2}}` instead of A | leaves and subtrees told apart by an explicit tag, so that `applyDiff(B, createDiff(A, B))` gives back A | not executed | WireFormat.OldValueKeyMisread | RoundTrip.RoundTripExact |
