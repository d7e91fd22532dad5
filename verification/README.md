# linearize: Diff and Merge over linearized trees

A Dafny model of the structural Diff/Merge engine of `fgrzl/linearize`. A protobuf message is linearized into a tree of values:

- a record: field number → value;
- a slice: position → value;
- a dictionary;
- a scalar;
- nil.

The engine compares two such trees and applies the resulting changes.

There are two generations of the engine, modelled in separate modules.

- **Mask-tree engine** (`linearize_diff.go`, `linearize_merge.go`).
  - `Diff` and `compareValues` walk two records. They return a before delta, an after delta and a hierarchical update mask: position → (ADD | UPDATE | REMOVE, optional nested mask).
  - `Merge` applies such a mask to a record in place, taking new values from a diff record. `mergeSlices` and `mergeMaps` are its flat helpers.
- **Flat-list engine** (`linearize.go`).
  - `Diff`, `compareValues`, `DiffArray` and `DiffMap` build a flat list of single positions.
  - `Merge` builds a fresh union map.

## Files

| file | module | contents |
|---|---|---|
| `tree.dfy` | `Tree` | The mask-tree value type, `Op`, `MaskValue` and `UpdateMask`, plus small map helpers. |
| `diff.dfy` | `MaskDiff` | Specification functions for `compareValues` and `Diff`, and the imperative methods proved equal to them. |
| `diffprops.dfy` | `DiffProperties` | What Diff promises, key by key and kind by kind. Also the as-written model of the dictionary bookkeeping (see Findings). |
| `merge.dfy` | `MaskMerge` | A `Target` object whose `entries` Merge rewrites in place. The specification `MergeSpec` / `MergeFlatSpec`, the in-place methods, and the per-slot and idempotence lemmas. |
| `roundtrip.dfy` | `DiffMerge` | Diff followed by Merge: where it reconstructs the latest record, and where it panics. |
| `flat.dfy` | `FlatDiff` | The flat-list engine: specification functions and the imperative methods. |
| `flatprops.dfy` | `FlatProperties` | Properties of the flat-list engine, including concrete lemmas showing where it loses information. |

## Modelling decisions

**Value types.**
- Scalars are integers with equality only.
- Records, slices and dictionaries are Dafny maps keyed by `int`.
  - A slice is a position-indexed map, because the merge code looks up and deletes its positions like a map's keys.
  - `compareValues` reads a slice's length as the number of its entries, and a missing position as nil.
- `Pairs` is the unnamed `[][2]any` that the dictionary branch of `compareValues` builds for its before and after sides (`linearize_diff.go:166-167`).
  - `LinearizedMap` is a defined type, so a value of type `[][2]any` is not a `LinearizedMap` to a type switch or a type assertion.
  - Linearized messages never hold such a value. It only appears in what Diff returns.
- The flat-list engine has its own `Value` type:
  - an object or map is a `Keyed` map of `int`;
  - an array is a Dafny sequence.

**Iteration order.** Go ranges over maps in random order. The methods pick an arbitrary unvisited key with `:|`, and the specifications do not depend on the order.
- The mask-tree results are maps, so the order is invisible.
- The flat-list mask is a sequence whose order depends on the iteration order. Its contracts state its multiset of positions.

**Go panics.**
- A panic in `Merge`'s nested type assertion (`diff[pos].(LinearizedObject)` and the like) is modelled. `MergeSpec` returns `Panicked`, and the method returns `false`.
- The error results of all these functions are always nil and are not modelled.

**Where the code departs from its documented intent.** The model follows the code wherever the two disagree.
- *Kind mismatch.* A composite compared with a value of another kind, or with nil, is reported **unchanged** (`linearize_diff.go:61-216` falls out of the switch). It is not treated as a full replacement. See `DiffProperties.CompareKindMismatch`.
- *Growing or shrinking slices.* These produce UPDATE entries, not ADD or REMOVE entries (positions past the end are compared with nil).
  - A composite element past the end of the latest slice is not reported at all.
  - Merging writes nil into trailing positions instead of shortening the slice.
  - See `DiffProperties.SliceGrowth` and `DiffProperties.SliceShrink`.
- *Dictionaries.* They produce only UPDATE entries, and only for elements whose comparison returned a nested mask. A changed scalar value inside a dictionary marks the dictionary changed but gets no mask entry. See `DiffProperties.DictMaskEntries` and `DiffMerge.DictScalarChangeNotMerged`.
  - The dictionary's before and after sides are pair lists, not `LinearizedMap` values. Merge therefore panics on every dictionary that Diff reports changed (see Findings).
- *Merge with a nested mask.* When the current record lacks the key, or holds a leaf there, Merge does nothing; it is not an error. It panics only when the diff's value is not of the same kind as the current composite. A changed dictionary's after side is a pair list, so it always triggers that panic.
- *Diff then Merge.* Merging the after delta into the *previous* record reconstructs the latest record (`DiffMerge.DiffThenMerge`). This holds for records without dictionaries whose slices hold scalars and do not shrink, and where a composite is only ever compared with a composite of the same kind.
  - For all records, that merge succeeds exactly when no dictionary reached through records is reported changed (`DiffMerge.MergeOfDiffSucceeds`).
  - When it succeeds, it removes the removed fields and sets the scalar fields (`DiffMerge.DiffThenMergeScalars`).
  - A changed dictionary field makes it panic (`DiffMerge.DiffThenMergePanicsOnDict`).
- *Merging into before.* Merging the mask and after delta into the *before* record does not reconstruct the latest record. Before holds only the fields that received an op, so unchanged fields are lost. See `DiffMerge.MergeIntoBeforeLosesUnchanged`.

## Model

| member | source | states |
|---|---|---|
| MaskDiff.CompareValues | linearize_diff.go:56-216 | The result equals `Compare`: record, slice or dictionary recursion when both sides have that kind; inequality for leaves (nil, scalars and pair lists); unchanged with nil sides otherwise. |
| MaskDiff.CompareRecordValues | linearize_diff.go:62-117 | The result equals `CompareRecords`. Missing keys get REMOVE, new keys ADD, and changed keys UPDATE with the element's mask. Unchanged keys are copied into both sides. The record is changed iff the mask is non-empty. |
| MaskDiff.CompareSliceValues | linearize_diff.go:119-150 | The result equals `CompareSlices`. Every position below the longer length is compared, with nil past either end. Both sides hold each position's before and after, and each changed position gets UPDATE with its element mask. |
| MaskDiff.CompareDictValues | linearize_diff.go:152-205 | The result equals `CompareDicts` over the union of both key sets. A mask entry exists only for changed keys with a nested mask. The before and after sides are pair lists (`Pairs`), as the code builds them, not `LinearizedMap` values. Their contents are stated with the corrected bookkeeping of the first Findings row. |
| MaskDiff.Diff | linearize_diff.go:4-53 | The result equals `DiffSpec`: REMOVE, ADD or UPDATE per key, and nil before, after and mask when no key receives an op. |
| DiffProperties.CompareSelf | linearize_diff.go:56-216 | Comparing a value with itself reports no change, for every value. |
| DiffProperties.RecordMasksSelf | linearize_diff.go:62-117 | A record compared with itself produces an empty mask. |
| DiffProperties.DiffSelfIsNil | linearize_diff.go:45-52 | `Diff(A, A)` returns nil before, nil after and a nil mask. |
| DiffProperties.DiffNilIff | linearize_diff.go:45-52 | The mask is nil exactly when no key receives an op, and before and after are nil exactly when the mask is. |
| DiffProperties.DiffKey | linearize_diff.go:10-43 | For each key: <br>• removed keys get REMOVE, before = old value and after = nil; <br>• added keys get ADD, before = nil and after = new value; <br>• changed keys get UPDATE carrying the element mask, with the element's before and after; <br>• unchanged keys appear in none of the three. |
| DiffProperties.CompareLeafValue | linearize_diff.go:207-211 | Leaves are changed iff unequal. The result is then (prev, latest, no mask), so a scalar UPDATE never carries a nested mask. |
| DiffProperties.CompareKindMismatch | linearize_diff.go:61-216 | A composite compared with a value of another kind, or with nil, is unchanged with nil sides and no mask. |
| DiffProperties.CompareRecordsKeys | linearize_diff.go:62-116 | A nested record is changed iff some key receives an op. Its mask keys are exactly those keys, and both sides hold exactly the union of both key sets. |
| DiffProperties.CompareRecordsKey | linearize_diff.go:69-113 | The per-key rules inside a nested record. Unchanged keys are copied: before = old value and after = new value. |
| DiffProperties.CompareSlicesOfLeaves | linearize_diff.go:119-149 | For slices of leaves: <br>• both sides span exactly the positions below the longer length; <br>• differing positions hold the two elements and get UPDATE with no nested mask; <br>• equal positions hold nil on both sides. |
| DiffProperties.CompareSlicesPositions | linearize_diff.go:119-150 | For slices of any elements: <br>• both sides span exactly the positions below the longer length; <br>• each position holds the before and after of comparing the two elements, read as nil past either end; <br>• a position gets a mask entry iff that comparison changed, and the entry is UPDATE with its nested mask. |
| DiffProperties.SliceGrowth | linearize_diff.go:127-147 | A position present only in the longer latest slice gets UPDATE, with before = nil and after = the new element. |
| DiffProperties.SliceShrink | linearize_diff.go:127-147 | A position present only in the longer previous slice gets UPDATE (after = nil) when it holds a scalar. It gets no mask entry when it holds a composite. |
| DiffProperties.DictMaskEntries | linearize_diff.go:189-202 | A dictionary key has a mask entry iff its comparison changed and returned a nested mask. A changed scalar marks the dictionary changed without a mask entry. |
| DiffProperties.DictSidesAsWrittenPanics | linearize_diff.go:191-195 | As written, for every pair of dictionaries and every visiting order whose first key is present only in the latest dictionary with a non-nil value, the code indexes `mergedBefore[-1]`, an out-of-range panic. |
| DiffProperties.DictSidesAsWrittenMisplaces | linearize_diff.go:173-195 | As written, a removed key overwrites the after entry of an unrelated, earlier key. |
| DiffProperties.DictSidesCorrected | linearize_diff.go:166-204 | Corrected bookkeeping: <br>• the before side holds exactly the previous keys and the after side exactly the latest keys; <br>• changed keys carry the element's sides; <br>• dictionaries of leaves are kept as they are. |
| MaskMerge.MergeFlat | linearize_merge.go:53-96 | In place, the target's entries become `MergeFlatSpec` of the old entries. |
| MaskMerge.Merge | linearize_merge.go:5-50 | Returns false exactly when a nested type assertion would panic. Otherwise the target's entries become `MergeSpec` of the old entries. |
| MaskMerge.MergeNestedSlot | linearize_merge.go:12-35 | Merge's step for an ADD or UPDATE entry with a nested mask. It returns false exactly when `MergeSlot` panics, and otherwise returns `MergeSlot`'s new value for that key. |
| MaskMerge.MergeRemoves | linearize_merge.go:43-45 | REMOVE deletes the key, and deleting a missing key is harmless. |
| MaskMerge.MergeCopies | linearize_merge.go:36-41 | ADD or UPDATE without a nested mask copies `diff[pos]` when present, and otherwise leaves the slot unchanged. |
| MaskMerge.MergeNested | linearize_merge.go:12-35 | ADD or UPDATE with a nested mask recurses by the current value's kind: <br>• a record through Merge; <br>• a slice or dictionary through the flat merge; <br>• a leaf is kept; <br>• a missing key stays missing. |
| MaskMerge.MergePanicsOnKindMismatch | linearize_merge.go:18-30 | The nested case panics when the diff lacks the key or holds another kind than the current composite. |
| MaskMerge.MergeUntouched | linearize_merge.go:7-47 | Keys the mask does not name keep their value, or stay absent. |
| MaskMerge.MergeFlatSlots | linearize_merge.go:53-96 | `mergeSlices` and `mergeMaps` ignore nested masks: ADD and UPDATE copy the diff's value when present, REMOVE deletes, and other positions are kept. |
| MaskMerge.MergeFlatEmptyMask | linearize_merge.go:53-73 | An empty mask leaves a slice or dictionary unchanged. |
| MaskMerge.MergeEmptyMask | linearize_merge.go:5-50 | An empty mask leaves a record unchanged. |
| MaskMerge.MergeFlatIdempotent | linearize_merge.go:55-71 | Applying the same mask and diff twice to a slice or dictionary equals applying them once. |
| MaskMerge.MergeIdempotent | linearize_merge.go:7-47 | Applying the same mask and diff twice to a record equals applying them once, whenever the first application succeeds. |
| DiffMerge.SliceRoundTrip | linerarize_test.go:135-161 | Merging a scalar slice's mask and after side into the previous slice gives the latest slice, when the slice does not shrink. |
| DiffMerge.RecordRoundTrip | linerarize_test.go:108-133 | For records without dictionaries whose slices hold non-nil scalars and do not shrink, and whose composites face composites of the same kind: merging a nested record's mask and after side into the previous record succeeds and gives the latest record. |
| DiffMerge.DiffThenMerge | linerarize_test.go:108-133 | For the same class of records: Diff reports nothing exactly when the records are equal. Otherwise `Merge(mask, previous, after)` succeeds and yields `latest`. |
| DiffMerge.MergeOfDiffSucceeds | linearize_merge.go:12-35 | For all records: merging a record comparison's mask, with a diff record holding the comparison's after side at the masked keys, panics iff some dictionary field reached through records on both sides is reported changed. |
| DiffMerge.DiffThenMergeScalars | linerarize_test.go:320-347 | For all records, when Diff reports a change: <br>• `Merge(mask, previous, after)` succeeds iff no dictionary reached through records is reported changed; <br>• when it succeeds, every removed field is gone; <br>• and every scalar field of `latest` whose previous value was not a composite holds its latest value. |
| DiffMerge.DiffThenMergePanicsOnDict | linearize_merge.go:28-30 | When a dictionary field held by both records is reported changed, Diff returns a mask and an after record, and `Merge(mask, previous, after)` panics. |
| DiffMerge.DictFieldChangePanics | linearize_diff.go:166-204 | For {5: {1: 1}} against {5: {1: 2}}, Diff reports a change and `Merge(mask, previous, after)` panics. |
| DiffMerge.MergeOfRetypedDiffSucceeds | linearize_merge.go:12-35 | With the dictionary sides built as `LinearizedMap` values (`Retyped`), merging a record comparison's mask never panics, for all records. |
| DiffMerge.MergeIntoBeforeLosesUnchanged | linearize_diff.go:10-43 | Merging into the before record does not give the latest record: for {1: 1, 2: 5} against {1: 2, 2: 5}, the result is {1: 2}, because before holds only the fields that received an op. |
| DiffMerge.DictScalarChangeNotMerged | linearize_diff.go:189-202 | A changed scalar inside a dictionary marks the dictionary changed, but merging its mask keeps the old value. |
| FlatDiff.CompareValues | linearize.go:140-183 | The result equals `Compare`, with the mask taken as a multiset of positions. |
| FlatDiff.Diff | linearize.go:103-136 | The result equals `DiffKeyedSpec` for objects: the removed, changed and added keys, with the sub-masks appended flat. |
| FlatDiff.DiffMap | linearize.go:218-251 | The result equals `DiffKeyedSpec` with `MapKind`: Diff's rules for removed, changed and added dictionary keys. |
| FlatDiff.DiffArray | linearize.go:186-215 | The result equals `DiffArraySpec`, the prefix computation over both loops. |
| FlatDiff.Merge | linearize.go:254-279 | The result equals `MergeSpec`, the union map the three loops build. |
| FlatProperties.CompareSelf | linearize.go:140-183 | Comparing any value with itself is unchanged with an empty mask. |
| FlatProperties.DiffKeyedSelf | linearize.go:103-135 | Diff of a map with itself gives empty before and after maps and an empty mask, never nil. |
| FlatProperties.DiffArraySelf | linearize.go:186-215 | DiffArray of an array with itself gives empty sides and an empty mask. |
| FlatProperties.CompareChanged | linearize.go:140-183 | A change requires equal dynamic types and unequal values. A comparison is changed iff its mask is non-empty, and otherwise yields nil sides. |
| FlatProperties.CompareLeaves | linearize.go:174-179 | Leaves are changed iff both are scalars and unequal. The result is then (prev, latest, `{0}`). Nil against a scalar is unchanged. |
| FlatProperties.CompareNested | linearize.go:144-173 | A nested object, map or array is changed iff its sub-diff's mask is non-empty. The result is then the sub-diff. |
| FlatProperties.DiffKey | linearize.go:108-133 | Per key in the result of Diff: <br>• removed keys: before = old, after = nil, key in the mask; <br>• added keys: before = nil, after = new, key in the mask; <br>• keys on both sides appear iff changed, with their sub-mask included; <br>• absent keys do not appear. |
| FlatProperties.FlatMaskLosesPath | linearize.go:119-123 | A changed scalar field 1 yields the mask `{0}`, not `{1}`: the path is lost. |
| FlatProperties.ArrayEnds | linearize.go:191-212 | A shrinking array appends the removed tail to before and nils to after. A growing array leaves before alone and appends the new tail to after. |
| FlatProperties.ArrayEndsMasked | linearize.go:192-211 | Every index past the shorter array's end is in the mask. |
| FlatProperties.ArrayPositionsShift | linearize.go:200-205 | Unchanged elements are skipped, so before and after are compacted and their positions shift. |
| FlatProperties.MergeKeys | linearize.go:254-279 | The result's keys are the union of the masked keys and both inputs' keys. Latest values win, masked keys missing from latest become nil, and previous-only keys are kept. |
| FlatProperties.FlatDiffThenMerge | linearize.go:254-279 | After flat Diff, Merge keeps every latest value. It never deletes a removed key, and turns it into nil instead. |
| FlatProperties.FlatMergeAddsZero | linearize.go:258-262 | A scalar change's mask `{0}` makes Merge add a key 0 holding nil. |

## Left out

- Keys are unbounded integers. The `int32(key)` conversions of positions and field numbers are treated as the identity, so wrap-around of keys outside 32 bits is not modelled.
- Scalars are integers compared with `==`. Floats, strings and Go's distinct scalar types are not distinguished.
  - In the flat-list engine, two scalars of different Go types (compared by `reflect.TypeOf`) would be reported unchanged. The model cannot express this.
- Dictionaries, and the pair lists built for their sides, are maps with one value per key. Duplicate keys in a `[][2]any` pair list, where the first pair wins, are not modelled.
- `MaskDiff.CompareValues`: comparing two pair lists with Go's `!=` (`linearize_diff.go:209`) panics at run time, because slices are not comparable. The model compares them by equality. Only a caller that diffs values taken from Diff's own result can reach this.
- `FlatDiff.DiffMap`: its `key.(int)` assertions (`linearize.go:229`, `linearize.go:246`) panic on dictionary keys that are not Go `int`s. Keys are `int` here, so that panic is not modelled.
- `MaskDiff.CompareDictValues`: the same `key.(int)` assertion (`linearize_diff.go:197`) panics whenever a value under a non-`int` key changes with a nested mask, for example in string-keyed protobuf maps. Keys are `int` here, so that panic is not modelled.
- `MaskMerge.Merge`: after a panic it promises nothing about the partly updated target, and the Go map is left partly merged.
- Aliasing between the current record and nested values that the caller still holds is not modelled: each nested merge works on its own `Target`.
- A nil mask passed to `Merge` (a nil-pointer dereference in Go) is not modelled, and neither is a nil map (a nil map write in Go).
- The flat-list `Merge` only looks at `Single` mask entries. The update mask here is a sequence of single positions, so other oneof variants are not modelled.
- `FlatDiff.Diff`, `FlatDiff.DiffArray` and `FlatDiff.CompareValues`: the order of the mask sequence is not stated, only its multiset of positions, because it follows Go's random map iteration.
- `DiffMerge.DiffThenMerge`: it is proved only for trees without dictionaries whose slices hold scalars, do not shrink, and face a composite of the same kind.
- `DiffMerge.RecordRoundTrip`: the same restriction as `DiffMerge.DiffThenMerge` (`PlainFields` and `AlignedFields`). For all records only the weaker `DiffMerge.DiffThenMergeScalars` is proved.
  - Outside that class the round trip fails in the source itself; see `DiffMerge.DictScalarChangeNotMerged` and `DiffProperties.SliceShrink`.
- The shrinking-slice merge expectation of `linerarize_test.go:163-188`: merging never shortens a slice, so no length-shrinks property is stated.
- `Linearize`, `Unlinearize` and `unlinearizeStruct`: protobuf reflection over libraries that are not part of this model.
- The generated `UpdateMask`/`UpdateMaskValue` protobuf types are not part of this model. They are replaced by the datatypes in `tree.dfy`.
- `mocks/mocks.go` and the code generation directives are not part of this model.
- The error results, which are always nil.

## Findings

| source | as written | input that shows it | evidently intended | confidence | as-written member | corrected member |
|---|---|---|---|---|---|---|
| linearize_diff.go:194-195 | When a dictionary key changed, its before and after pairs overwrite the *last* appended pair on each side, whether or not this key appended one. | Previous `{}`, latest `{7: 1}`: `mergedBefore[len-1]` with an empty `mergedBefore` is index -1, a panic. Previous `{1: 1, 2: 2}`, latest `{1: 1}`, visiting 1 then 2: the after pair for key 1 is replaced by `(2, nil)`. | The before side holds every previous key and the after side every latest key. A changed key replaces only its own pair. | not executed | DiffProperties.DictSidesAsWritten | DiffProperties.DictSidesCorrected |
| linearize_diff.go:166-167 | The dictionary's before and after sides are built as `[][2]any` and returned as `any`. Merge asserts `diff[pos].(LinearizedMap)` (`linearize_merge.go:30`), and a `[][2]any` is not a `LinearizedMap`, so the assertion fails for every changed dictionary field. | Previous `{5: {1: 1}}`, latest `{5: {1: 2}}`: Diff reports UPDATE with a nested mask at 5, and `Merge(mask, previous, after)` panics. | The sides are built as `LinearizedMap` values, so Merge applies the dictionary's mask. The model keeps the code's type, because it decides whether Merge panics; `Retyped` gives the intended sides. | not executed | DiffMerge.DiffThenMergePanicsOnDict | DiffMerge.MergeOfRetypedDiffSucceeds |
