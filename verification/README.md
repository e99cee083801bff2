# enhanced-key-value-object, modelled in Dafny

The library wraps plain hierarchical data in an immutable store. The data is
made of booleans, numbers, strings and nested objects; arrays are objects
whose keys are index strings. Every value is addressed by a path: a string
split on the store's path separator (`.` by default). Every operation
returns a new store. This project models the core of that library:

- `results.dfy`: the `Try`-like result.
- `values.dfy`: values, the delete marker and the shallow copies of `src/util.ts`.
- `paths.dfy`: JavaScript `split`/`join` on a separator, and decimal index keys.
- `store.dfy`: the store, its builder and `just`/`empty` (`src/object.ts`, `src/object+utility.ts`).
- `access.dfy`: the path resolver `_valueAtNode` and the typed accessors.
- `fullpaths.dfy`: `valuesWithFullPaths`.
- `pathwrite.dfy`: the path writer at the heart of `_mappingValue`.
- `modify.dfy`: update, remove, copy, move, swap, empty, and the rebuild from full paths.
- `array.dfy`: the array emulation (`_updatingArray`, `removingArrayIndex`, `upsertingInArray`).
- `equal.dfy`, `compare.dfy`, `clone.dfy`: `equalsForValues`, `compareValues`, `cloningForPaths`.

A store is `Store(root, sep)`. Values are a datatype with value semantics,
so "the original store is unchanged" holds by construction. The internal
`_…` methods mutate one working object that is threaded through several
writes; the model threads a map the same way, in the same order.

`Walk` is the resolver's loop. It ends in one of three ways:
- `Found(v)`;
- `Missing`, when a segment holds nothing, `undefined` or `null`;
- `Threw`, when it has to index `undefined` or `null`.

A write at a segment list is `MapAt`. The main lemmas about it are:
- `WriteReadBelow`: the written path reads what was written.
- `WriteFrame`: a path that diverges from the written one is untouched. Two paths diverge when neither is a prefix of the other.
- `WriteInside` and `WriteSameIsIdentity`: what a write does above the written path.

The array lemmas assume `ArraySep(sep, path)`. It says three things:
- the separator is not empty;
- it does not start with a digit;
- every segment of the array path is clean, so no occurrence of the separator runs from the path's last segment into the separator that `join` appends.

Exactly then is `join(sep, path, i)` guaranteed to split into the segments of
`path` followed by `i`. Every one-character separator that is not a digit
meets the condition for every path (`Paths.OneCharArraySep`).

## Model

| member | source | states |
|---|---|---|
| Values.ShallowCloneObject | src/util.ts:4-6 | the copy has exactly the original's top-level keys, each with the original's value |
| Values.ShallowClone | src/util.ts:8-37 | these come back equal to the original: the delete marker, `undefined`, `null`, primitives, arrays and plain objects; a later change to the original cannot show through the copy |
| Paths.Split | src/object+access.ts:56 | `path.split(sep)`: joining the pieces with `sep` gives the path back, and a non-empty separator gives at least one piece |
| Paths.Join | src/util.ts:39-41 | no contract; `join(sep, ...paths)`, characterised by `Paths.Split`, `Paths.SplitJoin` and `Paths.JoinInjective` |
| Paths.SplitJoin | src/util.ts:39-41 | splitting a join gives the segments back when every segment is clean: no occurrence of the separator starts inside the segment, not even one that runs on into the separator after it (for a one-character separator: the segment does not contain it) |
| Paths.JoinInjective | src/util.ts:39-41 | two clean segment lists with the same joined path are the same list |
| Paths.EmptyPathIsOneSegment | src/object+access.ts:56 | the empty path is one empty segment |
| Paths.JoinIndexSplits | src/object+array.ts:88 | under `ArraySep`, the path of element `i` splits into the array path's segments followed by the decimal spelling of `i` |
| Paths.ArraySepNeeded | src/object+array.ts:88 | with separator `::` the path `a:` is one segment, yet the path of its element 1 splits into `a` and `:1`: without clean path segments the element path does not split back |
| Paths.OneCharArraySep | src/object+array.ts:88 | a one-character separator that is not a digit meets `ArraySep` for every array path |
| Paths.ParseNatStr | src/object+array.ts:74-75 | the decimal spelling of `n` is an index key and parses back to `n` |
| Paths.NatStrParse | src/object+array.ts:74-75 | every index key is the decimal spelling of the number it parses to |
| Paths.NatStrInjective | src/object+array.ts:88 | different indices have different keys |
| ObjectStore.Snapshot | src/object.ts:17-19 | the `object` getter gives a map equal to the store's root: the same keys, each with the same value |
| ObjectStore.WithObject | src/object.ts:49-55 | a missing object leaves the builder as it was; a given one becomes the root; the separator is kept |
| ObjectStore.WithPathSeparator | src/object.ts:57-63 | a missing separator leaves the builder as it was; a given one replaces the separator; the root is kept |
| ObjectStore.WithBuildable | src/object.ts:65-73 | a missing store leaves the builder as it was; a given one supplies both root and separator |
| ObjectStore.CloneBuilder | src/object.ts:29-31 | building the clone builder gives a store with the same root and separator |
| ObjectStore.Just | src/object+utility.ts:24-30 | a store comes back as itself; a raw object becomes the root under separator `.`; `undefined` gives the empty store |
| ObjectStore.NewImpl | src/object.ts:12-15 | no contract; the constructor's empty root and `.` separator, characterised by `Access.EmptyResolvesNothing`; `Cloning.CloningForPathsAsWritten` takes its separator from it |
| ObjectStore.NewBuilder | src/object.ts:45-47 | no contract; `builder()`, a builder holding a `new Impl()`, characterised by `ObjectStore.Just` and `Access.EmptyResolvesNothing` |
| ObjectStore.Build | src/object.ts:75-77 | no contract; `build()` hands out the builder's store, characterised by `ObjectStore.CloneBuilder`, `WithObject`, `WithPathSeparator` and `WithBuildable` |
| ObjectStore.Empty | src/object+utility.ts:15-17 | no contract; characterised by `Access.EmptyResolvesNothing` |
| Access.Walk | src/object+access.ts:59-71 | the walk raises exactly when it has to index `undefined`/`null`; a value found after at least one step is never `undefined`/`null` |
| Access.WalkAppend | src/object+access.ts:59-71 | walking `a + b` is walking `a`, then `b` from where that ended; a miss or raise in `a` ends the walk |
| Access.ValueAt | src/object+access.ts:76-78 | no contract; `valueAtNode` on the store's root, characterised by `Access.ResolveIn` and `Access.ResolveFollowsSegments` |
| Access.ResolveIn | src/object+access.ts:55-74 | success is never `undefined`/`null`; failure is "no value" or "not indexable", never an exception; "not indexable" happens exactly when the starting object is `undefined`/`null` |
| Access.BooleanAt | src/object+access.ts:80-83 | succeeds iff the path resolves to a boolean, with that boolean; otherwise the resolver's failure or "no boolean" |
| Access.NumberAt | src/object+access.ts:85-88 | succeeds iff the path resolves to a number, with that number; otherwise the resolver's failure or "no number" |
| Access.StringAt | src/object+access.ts:90-93 | succeeds iff the path resolves to a string, with that string; otherwise the resolver's failure or "no string" |
| Access.WalkIsLookup | src/object+access.ts:59-71 | the walk agrees with plain nested lookup (`Lookup`), except that an `undefined`/`null` entry reads as missing |
| Access.ResolveFollowsSegments | src/object+access.ts:55-78 | `valueAtNode(path)` succeeds iff nested lookup of the path's segments finds a value other than `undefined`/`null`, and returns it; a failure is "no value at path" |
| Access.NullishReadsAsAbsent | src/object+access.ts:61-67 | a top-level key holding `undefined` or `null` reads, at every path, like an absent key (deeper keys: `Access.WalkIsLookup`) |
| Access.EmptyPathNeedsEmptyKey | src/object+access.ts:56-67 | the empty path resolves iff the root has a `''` key with a value other than `undefined`/`null` |
| Access.EmptyResolvesNothing | src/object+utility.ts:15-17 | `empty()` has separator `.` and no path resolves in it |
| FullPaths.LeafIffPrimitiveWalk | src/object+access.ts:99-112 | a segment list is flattened iff walking it finds a boolean, number or string |
| FullPaths.LeavesDiverge | src/object+access.ts:99-112 | two different flattened leaves lie on diverging paths |
| FullPaths.PrimitiveEndsWalk | src/object+access.ts:100-105 | nothing lies below a boolean, number or string |
| FullPaths.EffectiveSep | src/object+access.ts:97 | a given non-empty separator is used, otherwise the store's |
| FullPaths.NestedSep | src/object+access.ts:97-107 | the separator passed to nested levels is never empty, and it is the outer one when that is non-empty |
| FullPaths.FlatValue | src/object+access.ts:105-110 | the value under a flattened key is the value at a leaf that the key names |
| FullPaths.ValuesWithFullPaths | src/object+access.ts:99-105 | only booleans, numbers and strings are emitted |
| FullPaths.FlattenPrimitive | src/object+access.ts:99-105 | every flattened value is a boolean, number or string |
| FullPaths.FullKeyIsJoin | src/object+access.ts:107-111 | with a non-empty separator a leaf's key is its segments joined with the separator |
| FullPaths.NestedKeyShape | src/object+access.ts:107-111 | a nested leaf's key is `key + sep + subkey`, the subkey formed with the nested separator |
| FullPaths.LeafFlattens | src/object+access.ts:99-112 | every leaf's key is in the flattened map |
| FullPaths.FlattenMatchesReads | src/object+access.ts:95-116 | when no key contains the separator, a key is in the flattened map iff `valueAtNode` resolves it to a primitive, and the two values agree |
| PathWrite.MapAt | src/object+modify.ts:140-186 | only the top-level entry of the first segment can change; with two or more segments that entry is an object afterwards |
| PathWrite.ReachedIsRead | src/object+modify.ts:146-151 | the value the map function receives reads, through the resolver, as the value at the path |
| PathWrite.WriteReadBelow | src/object+modify.ts:150-157 | after the write, the path and everything below it read what was written; a delete or `undefined`/`null` reads as missing |
| PathWrite.WriteFrame | src/object+modify.ts:146-180 | every path diverging from the written one reads as before |
| PathWrite.WritePrefixIsObject | src/object+modify.ts:162-179 | every proper prefix of the written path holds an object afterwards |
| PathWrite.WriteInside | src/object+modify.ts:162-179 | when a prefix already held an object, the write lands inside a copy of that object |
| PathWrite.WriteSameIsIdentity | src/object+modify.ts:150-157 | writing back the value a path already holds changes nothing |
| PathWrite.LeavesAfterPut | src/object+modify.ts:150-179 | after writing a primitive into an object, the leaves are the old ones that diverge from the path, plus the path itself |
| PathWrite.PutAllLeaves | src/object+modify.ts:241-246 | writing primitives at pairwise diverging paths into an empty object gives exactly those paths as leaves, each holding its value |
| PathWrite.FlattenPutAll | src/object+modify.ts:241-246 | the flattened map of such a write holds each written key with its value, and nothing else |
| Modify.MappingIn | src/object+modify.ts:140-186 | no contract; `_mappingValue`, the path write `PathWrite.MapAt` on the split path, characterised by `PathWrite.WriteReadBelow`, `WriteFrame` and `WritePrefixIsObject` |
| Modify.UpdatingIn | src/object+modify.ts:188-190 | no contract; `_updatingValue`, characterised by `Modify.UpdatingInReads` and `Modify.UpdatingInFrame` |
| Modify.UpdatingInReads | src/object+modify.ts:188-190 | after `_updatingValue(object, path, v)` the path reads `v`, or "no value" when `v` is `undefined`/`null` |
| Modify.UpdatingInFrame | src/object+modify.ts:188-190 | `_updatingValue` leaves every path diverging from the written one as it was |
| Modify.RemovingIn | src/object+modify.ts:192-194 | no contract; `_removingValue`, a delete-marker write, characterised by `Modify.RemoveThenRead`, `RemoveFrame` and `ArrayEmulation.RemovingArrayIndexShifts` |
| Modify.CopyingIn | src/object+modify.ts:196-199 | no contract; `_copyingValue`, characterised by `Modify.CopyingInCarriesSubtree` and `Modify.CopyThenRead` |
| Modify.MovingIn | src/object+modify.ts:201-203 | no contract; `_movingValue`, a copy then a removal on the same working object, characterised by `Modify.MoveThenRead`, `Modify.MoveFrame` and `Modify.MoveOntoItselfRemoves` |
| Modify.Emptying | src/object+modify.ts:205-207 | no contract; characterised by `Modify.EmptyingResolvesNothing` and `Modify.RebuildRoundTrip` |
| Modify.MappingValue | src/object+modify.ts:209-213 | no contract; characterised by `Modify.MappingThenRead` and `Modify.MappingFrame` |
| Modify.UpdatingValue | src/object+modify.ts:215-217 | no contract; characterised by `Modify.UpdateThenRead`, `Modify.UpdateFrame` and `Modify.UpdateBuildsIntermediates` |
| Modify.RemovingValue | src/object+modify.ts:219-221 | no contract; characterised by `Modify.RemoveThenRead` and `Modify.RemoveFrame` |
| Modify.CopyingValue | src/object+modify.ts:251-253 | no contract; characterised by `Modify.CopyThenRead`, `Modify.CopyFrame` and `Modify.CopyingInCarriesSubtree` |
| Modify.MovingValue | src/object+modify.ts:255-257 | no contract; characterised by `Modify.MoveThenRead`, `Modify.MoveFrame` and `Modify.MoveOntoItselfRemoves` |
| Modify.SwappingValue | src/object+modify.ts:259-266 | no contract; characterised by `Modify.SwapExchanges` and `Modify.SwapExample` |
| Modify.UpdatingValuesWithFullPaths | src/object+modify.ts:234-249 | no contract; characterised by `Modify.WriteEntriesIsPutAll`, `Modify.RebuildFlattens` and `Modify.RebuildRoundTrip` |
| Modify.UpdateThenRead | src/object+modify.ts:215-217 | after `updatingValue(p, v)`, `p` reads `v`; if `v` is `undefined`/`null`, `p` reads "no value"; the separator is kept |
| Modify.UpdateFrame | src/object+modify.ts:215-217 | `updatingValue` leaves every diverging path as it was |
| Modify.UpdateBuildsIntermediates | src/object+modify.ts:162-179 | after `updatingValue`, every proper prefix of the path resolves to an object, whatever lay there before |
| Modify.RemoveThenRead | src/object+modify.ts:219-221 | after `removingValue(p)`, `p` reads "no value" |
| Modify.RemoveFrame | src/object+modify.ts:219-221 | `removingValue` leaves every diverging path as it was |
| Modify.EmptyingResolvesNothing | src/object+modify.ts:205-207 | `emptying()` keeps the separator, and no path resolves in the result |
| Modify.MappingThenRead | src/object+modify.ts:209-213 | `mappingValue(p, fn)` makes `p` read whatever `fn` answers for the old value; an answer of none reads "no value" |
| Modify.MappingFrame | src/object+modify.ts:209-213 | `mappingValue` leaves every diverging path as it was |
| Modify.CopyingInCarriesSubtree | src/object+modify.ts:196-199 | after a copy, everything below the destination reads as the same path below the source did |
| Modify.CopyThenRead | src/object+modify.ts:251-253 | after `copyingValue(src, dest)`, `dest` reads what `src` read; a diverging `src` is unchanged |
| Modify.CopyFrame | src/object+modify.ts:251-253 | `copyingValue(src, dest)` leaves every path diverging from `dest` as it was |
| Modify.MoveFrame | src/object+modify.ts:255-257 | `movingValue(src, dest)` leaves every path diverging from both `src` and `dest` as it was |
| Modify.MoveThenRead | src/object+modify.ts:255-257 | after `movingValue(src, dest)`, `src` no longer resolves; a diverging `dest` holds `src`'s old value |
| Modify.WriteAbsorbs | src/object+modify.ts:201-203 | of two writes at one path only the second one counts |
| Modify.MoveOntoItselfRemoves | src/object+modify.ts:201-203 | moving a path onto itself removes it |
| Modify.SwapExchanges | src/object+modify.ts:259-266 | swapping diverging paths exchanges their values and leaves every path diverging from both unchanged |
| Modify.SwapExample | src/object+modify.ts:259-266 | swapping `a.b` and `b.a` in `{a: {b: 1}, b: {a: 2}}` gives `{a: {b: 2}, b: {a: 1}}` |
| Modify.FullPathKey | src/object+modify.ts:237-244 | no contract; the key an entry is written under, characterised by `Modify.FullPathKeySegments` and `Modify.FullPathKeyKeeps` |
| Modify.WriteEntries | src/object+modify.ts:241-246 | no contract; the `forEach` of writes in entry order, characterised by `Modify.WriteEntriesIsPutAll` |
| Modify.FullPathKeySegments | src/object+modify.ts:242-244 | re-joining a key from the given separator to the store's keeps its segments |
| Modify.FullPathKeyKeeps | src/object+modify.ts:237-244 | a key is left alone when the separators agree or it does not contain the given one |
| Modify.WriteEntriesIsPutAll | src/object+modify.ts:241-246 | writing the entries one by one is the fold of path writes over their segment lists |
| Modify.RebuildFlattens | src/object+modify.ts:234-249 | rebuilding from entries at diverging primitive paths flattens back to exactly those entries |
| Modify.RebuildOwnEntries | src/object+modify.ts:234-249 | rebuilding an empty store from a store's own flattened entries flattens to the same map, when the separator is non-empty, no key contains it, and the given separator is the store's or one no full path contains |
| Modify.RebuildRoundTrip | src/object+modify.ts:234-249 | `updatingValuesWithFullPaths` on `emptying()`, fed the store's `valuesWithFullPaths()` in any order, flattens back to the same map, when the separator is non-empty, no key contains it, and the given separator is absent, the store's, or one no full path contains (without this, `{"a.b": 1, a: 2}` rebuilds to `{a: 2}`) |
| ArrayEmulation.LastIndexAt | src/object+array.ts:64-81 | -1 iff the value at the path is missing, not an object, or has no keys; nothing iff some key is not an index key; otherwise the largest index, itself a key |
| ArrayEmulation.UpdatingArray | src/object+array.ts:63-83 | when the path holds no object, or an object without keys, `arrayFn` gets the last index -1; an object with a key that is not an index key returns the store as it was; otherwise `arrayFn` gets an index `n` that is itself a key and that no key exceeds |
| ArrayEmulation.FirstMatch | src/object+array.ts:110-121 | the scan reports a match or a raise only at an index between its start and `last`; characterised further by `ArrayEmulation.FirstMatchIsFirst` |
| ArrayEmulation.Upserted | src/object+array.ts:106-125 | no contract; the array function of `upsertingInArray`, characterised by `ArrayEmulation.UpsertOverwritesMatch`, `UpsertAppends` and `UpsertRaisedKeeps` |
| ArrayEmulation.FirstMatchIsFirst | src/object+array.ts:110-121 | the scan stops at the first present element the comparator does not answer false for, and reports its answer; it finds nothing iff every element is skipped |
| ArrayEmulation.RemoveShift | src/object+array.ts:91-97 | no contract; the move-down loop of `removingArrayIndex`, characterised by `ArrayEmulation.ShiftSlot` and `ArrayEmulation.ShiftOutside` |
| ArrayEmulation.ShiftSlot | src/object+array.ts:91-97 | under `ArraySep`: the loop from `i` to `last` gives each slot from `i` on its successor's value, empties `last`, and leaves the other slots |
| ArrayEmulation.ShiftOutside | src/object+array.ts:91-97 | under `ArraySep`: the loop leaves every path outside the array as it was |
| ArrayEmulation.RemovingArrayIndex | src/object+array.ts:85-101 | no contract; characterised by `ArrayEmulation.RemovingArrayIndexShifts`, `RemovingArrayIndexSplices`, `RemovingArrayIndexOutside` and `RemovingArrayIndexPastEnd` |
| ArrayEmulation.RemovingArrayIndexShifts | src/object+array.ts:85-101 | under `ArraySep`: for `i <= last`, slot `j` after `removingArrayIndex(path, i)` holds the old slot `j` below `i`, the old slot `j + 1` from `i` up to `last - 1`, nothing at `last`, and is unchanged past the end |
| ArrayEmulation.RemovingArrayIndexSplices | src/object+array.ts:85-101 | under `ArraySep`: the first `last` slots afterwards are the old `last + 1` slots with slot `i` spliced out |
| ArrayEmulation.RemovingArrayIndexOutside | src/object+array.ts:85-101 | under `ArraySep`: paths outside the array read as before |
| ArrayEmulation.RemovingArrayIndexPastEnd | src/object+array.ts:82-91 | an index past the end, or a value with a non-index key, leaves the store as it was |
| ArrayEmulation.RemoveHoleExample | src/object+array.ts:91-97 | removing index 3 from `{a: {5: 0}}` leaves `a.3` and `a.5` unresolvable and `a.4` holding 0 |
| ArrayEmulation.UpsertingInArray | src/object+array.ts:103-126 | no contract; characterised by `ArrayEmulation.FirstMatchIsFirst` and the `Upsert…` lemmas below |
| ArrayEmulation.UpsertOverwritesMatch | src/object+array.ts:110-117 | under `ArraySep`: when the scan matches at `n`, slot `n` reads the new value and no other slot changes |
| ArrayEmulation.UpsertAppends | src/object+array.ts:123-124 | under `ArraySep`: with no match, slot `last + 1` reads the new value and no other slot changes |
| ArrayEmulation.UpsertRaisedKeeps | src/object+array.ts:73-82 | a comparator that raises leaves the store as it was |
| ArrayEmulation.UpsertIntoEmpty | src/object+array.ts:70-71 | under `ArraySep`: upserting into a missing, non-object or empty array writes index 0 |
| ArrayEmulation.UpsertOutside | src/object+array.ts:103-126 | under `ArraySep`: upsert leaves every path outside the array as it was |
| ArrayEmulation.UpsertPresentIsNoOp | src/object+array.ts:104-116 | with the default comparator, upserting a value some element already holds leaves the store as it was (structural `===`: matches the source for primitive values only) |
| Equality.EqualsForValues | src/object+equal.ts:23-48 | no contract; `EqualsAt` with the other side taken through `just` and `===` as the default comparator, characterised by `Equality.EqualsAt` and the `Equals…` lemmas below |
| Equality.EqualsAt | src/object+equal.ts:29-47 | true iff at every listed path both sides fail, or both resolve and the comparator answers true; an empty list gives true |
| Equality.EqualsReflexive | src/object+equal.ts:24-25 | with the default comparator a store equals itself at any paths |
| Equality.EqualsSymmetric | src/object+equal.ts:24-41 | with the default comparator the answer does not depend on which side asks |
| Equality.EqualsOneSided | src/object+equal.ts:34-41 | a path resolved on one side only makes the answer false |
| Equality.EqualsRaised | src/object+equal.ts:30-44 | a comparator that raises makes the answer false |
| Equality.EqualsConcat | src/object+equal.ts:29-47 | checking `a + b` is checking `a` and checking `b` |
| Equality.EqualsSamePaths | src/object+equal.ts:29-47 | a true answer stays true for any list drawn from the same paths |
| Equality.EqualsAwayFromUpdate | src/object+equal.ts:29-47 | a store equals its `updatingValue(p, v)` at every path diverging from `p` |
| Comparison.CompareValues | src/object+compare.ts:21-25 | succeeds iff both paths resolve, with the comparator's answer on the two values in order; otherwise the left failure, else the right one |
| Comparison.CompareWithItself | src/object+compare.ts:22-25 | with the default comparator, a path compared with itself is true iff it resolves |
| Comparison.CompareSymmetric | src/object+compare.ts:22-25 | with the default comparator, swapping the paths changes neither success nor answer |
| Comparison.CompareIsSameValue | src/object+compare.ts:22-25 | with the default comparator, true iff both paths resolve to the same value (structural `===`: matches the source for primitive values only) |
| Comparison.CompareAfterCopy | src/object+compare.ts:21-25 | after copying between diverging paths, the two compare true iff the source resolved (structural `===`: matches the source for primitive values only) |
| Cloning.CloningForPaths | src/object+clone.ts:16-27 | no contract; the corrected clone, characterised by `Cloning.CloneAllAgrees`, `CloneReadsListedPaths`, `CloneTopKeys` and `CloneOfNothing` |
| Cloning.CloningForPathsAsWritten | src/object+clone.ts:16-27 | no contract; the clone as written, characterised by `Cloning.AsWrittenAgreesOnDefault` and `CloneSeparatorCounterexample` |
| Cloning.CloneAllAgrees | src/object+clone.ts:16-27 | with the store's separator, every listed path that resolves reads in the clone exactly as in the store |
| Cloning.CloneReadsListedPaths | src/object+clone.ts:20-24 | the clone keeps the separator and reads each resolvable listed path as the store does |
| Cloning.CloneTopKeys | src/object+clone.ts:17-24 | every top-level key of the clone is the first segment of a listed path that resolves |
| Cloning.CloneOfNothing | src/object+clone.ts:17-26 | when no listed path resolves the clone is empty |
| Cloning.AsWrittenAgreesOnDefault | src/object+clone.ts:17 | for a store with separator `.` the clone as written and the corrected clone coincide |
| Cloning.CloneSeparatorCounterexample | src/object+clone.ts:17-22 | with separator `/`, the clone as written of `{"a.b": 1, a: {b: 2}}` for `a.b`, `a` reads 2 at `a.b` where the store reads 1 |
| Cloning.CloneSeparatorCorrected | src/object+clone.ts:17-22 | on that input the corrected clone reads 1 at `a.b` |

## Left out

- `updatingValues`: it relies on a JSON round trip and on `Object.assign` onto the instance; that is serialisation, not path logic.
- Reference identity: aliasing, copy-on-write sharing and the safe/unsafe access modes are not modelled. Values are immutable, so the original store is never changed.
- `StrictEquals`: `===` compares objects by reference; here it is structural equality.
- CompareAfterCopy, CompareIsSameValue, UpsertPresentIsNoOp: these rest on the structural `StrictEquals` and agree with the source only for booleans, numbers and strings. The source copies an object through `shallowClone`, so a copied object compares false under `===`; and it appends an equal but distinct object on upsert instead of leaving the store as it was.
- Paths.Chars: `split('')` is modelled as splitting into Dafny characters (Unicode scalar values). JavaScript splits into UTF-16 code units, so a key holding a character outside the Basic Multilingual Plane splits differently under the empty separator.
- Numbers are mathematical integers: no floating point, NaN or `-0`.
- The error mapper and the default access mode are not modelled. Failures are a small `Error` datatype instead of message strings.
- `Object.isExtensible` on frozen objects is not modelled. Intermediates are rebuilt when they are missing, `undefined`/`null` or primitive.
- JavaScript string indexing (`'abc'['0']`) and prototype keys are not modelled: primitives have no keys.
- `shallowClone` passes "complex objects" (deeper prototype chains) through untouched. Every object here is a plain map, so that branch is not separate.
- Array identity, and the filling of sparse holes by `[...arr]`, are not modelled: arrays are index-keyed maps.
- MappingValue: the double `Try.unwrap` of the answer of `mapFn` is modelled as a function on optional values. An `undefined`/`null` old value reaches `fn` as none, and an answer of none is stored as `undefined`. A `mapFn` that throws is not modelled: `fn` is a total function here, whereas the source catches the exception and returns the store unchanged (src/object+modify.ts:183-185).
- LastIndexAt: `parseInt` accepts a numeric prefix of the last key (`"1a"`, `"01"`, `"-1"`); the model treats any key that is not a canonical index as "not an array" and returns the store as it was.
- The JavaScript bound of 2^32 - 2 on array indices is not modelled: index keys are unbounded naturals.
- Index keys that `Object.keys` orders first are assumed canonical; the model takes the largest index rather than the last key, which coincides when all keys are index keys.
- ShiftSlot, RemovingArrayIndexShifts: negative removal indices are modelled by `RemoveShift`, but no lemma describes them.
- ShiftSlot, ShiftOutside, RemovingArrayIndexShifts, RemovingArrayIndexSplices, RemovingArrayIndexOutside, UpsertOverwritesMatch, UpsertAppends, UpsertIntoEmpty, UpsertOutside, JoinIndexSplits: these assume `ArraySep(sep, path)`. Outside that condition, `join(sep, path, i)` does not split back into the path's segments and `i`. Examples are the empty separator (`a10` splits into `a`, `1`, `0`), a separator starting with a digit, or `::` with the path `a:` (`a:::1` splits into `a`, `:1`; `Paths.ArraySepNeeded`). The source then reads and writes elements somewhere other than `path` and `i`. `RemoveShift` and `Upserted` model that as written, but no lemma describes where the elements go.
- FullPaths.FlatValue: when two leaves flatten to the same key, JavaScript keeps the later one in insertion order; Dafny maps have no order, so any one of the colliding values is chosen.
- CompareValues: a comparator is a total function on values, so an exception thrown by the comparator is not modelled. The left failure is reported first, as `zipWith` does; that library's code is not part of this model.
- EqualsAt, FirstMatch, UpsertingInArray: a comparator is modelled as answering a boolean or raising (`Verdict`); the source tests the truthiness of whatever the comparator returns (src/object+equal.ts:36-38, src/object+array.ts:114), so a truthy or falsy non-boolean answer is not modelled separately.
- The `javascriptutilities` types (`Try`, `Collections`, `Objects`) are replaced by the `Result` datatype and by sequences. Their code is not part of this model.

## Findings

| source | as written | input that shows it | evidently intended | confidence | as-written member | corrected member |
|---|---|---|---|---|---|---|
| src/object+clone.ts:17-22 | the clone is a `new Impl()`, so it writes and reads paths with the default separator `.`, not the store's | a store with separator `/` and root `{"a.b": 1, a: {b: 2}}`, cloned for `a.b` then `a`: the clone reads 2 at `a.b`, the store reads 1 | the clone uses the store's separator, and every listed path reads in the clone as in the store | medium, not executed | Cloning.CloningForPathsAsWritten | Cloning.CloningForPaths |
