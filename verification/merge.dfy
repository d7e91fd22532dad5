/**
 * The mask-tree Merge engine: `Merge` applies an update mask to a record in
 * place, taking new values from a diff record and recursing into nested
 * records; `mergeSlices` and `mergeMaps` apply a mask to a slice or a
 * dictionary without recursing into its elements.
 *
 * A Go map passed to Merge is mutated through the caller's reference; the
 * model holds it in a `Target` object whose `entries` the methods reassign.
 * A failed type assertion `diff[pos].(T)` is a Go panic; the model reports
 * it as `Panicked` and promises nothing about the partly updated target.
 */
module MaskMerge {
  import opened Tree

  /** The outcome of a merge: a value, or a panic from a failed type assertion. */
  datatype Result<T> = Ok(value: T) | Panicked

  /** A record, slice or dictionary that Merge updates in place. */
  class Target {
    var entries: map<int, Value>

    constructor (entries: map<int, Value>)
      ensures this.entries == entries
    {
      this.entries := entries;
    }
  }

  // ---------------------------------------------------------------------
  // Specification
  // ---------------------------------------------------------------------

  /** The slot at `pos` after one flat step (mergeSlices, mergeMaps, and Merge
      without a nested mask): REMOVE empties it, ADD and UPDATE copy the diff's
      value when the diff has one and leave the slot alone otherwise. */
  function FlatSlot(mv: MaskValue, pos: int, current: map<int, Value>, diff: map<int, Value>): Option<Value>
  {
    if mv.op == REMOVE then None
    else if pos in diff then Some(diff[pos])
    else Get(current, pos)
  }

  /** The slot at `k` after a flat merge: masked slots take their step, the others keep their value. */
  function FlatFinal(mask: UpdateMask, current: map<int, Value>, diff: map<int, Value>, k: int): Option<Value>
  {
    if k in mask.values then FlatSlot(mask.values[k], k, current, diff) else Get(current, k)
  }

  /** mergeSlices and mergeMaps. */
  function MergeFlatSpec(mask: UpdateMask, current: map<int, Value>, diff: map<int, Value>): map<int, Value>
  {
    map k | k in current.Keys + mask.values.Keys && FlatFinal(mask, current, diff, k).Some?
      :: FlatFinal(mask, current, diff, k).value
  }

  /** The slot at `pos` after Merge's step for the entry `mv`. A nested mask
      recurses according to the kind of the current value and needs the diff
      to hold the same kind there; it does nothing when the current record has
      no such key or holds a leaf there. */
  function MergeSlot(mv: MaskValue, pos: int, current: map<int, Value>, diff: map<int, Value>): Result<Option<Value>>
    decreases mv, 0
  {
    if mv.op == REMOVE || mv.masks.None? then Ok(FlatSlot(mv, pos, current, diff))
    else if pos !in current then Ok(None)
    else match current[pos]
      case Record(c) =>
        if pos in diff && diff[pos].Record? then
          var r := MergeSpec(mv.masks.value, c, diff[pos].fields);
          if r.Ok? then Ok(Some(Record(r.value))) else Panicked
        else Panicked
      case Slice(c) =>
        if pos in diff && diff[pos].Slice? then Ok(Some(Slice(MergeFlatSpec(mv.masks.value, c, diff[pos].items))))
        else Panicked
      case Dict(c) =>
        if pos in diff && diff[pos].Dict? then Ok(Some(Dict(MergeFlatSpec(mv.masks.value, c, diff[pos].entries))))
        else Panicked
      case _ => Ok(Some(current[pos]))
  }

  /** The slot at `k` after Merge, when no step panicked. */
  function MergeFinal(mask: UpdateMask, current: map<int, Value>, diff: map<int, Value>, k: int): Option<Value>
    decreases mask, 0
  {
    if k in mask.values then
      var r := MergeSlot(mask.values[k], k, current, diff);
      if r.Ok? then r.value else None
    else Get(current, k)
  }

  /** True when the step of some mask entry panics. */
  predicate MergePanics(mask: UpdateMask, current: map<int, Value>, diff: map<int, Value>)
    decreases mask, 0
  {
    exists pos :: pos in mask.values && MergeSlot(mask.values[pos], pos, current, diff).Panicked?
  }

  /** Merge: a panic if any step panics, and otherwise the record holding
      every slot after its step. */
  function MergeSpec(mask: UpdateMask, current: map<int, Value>, diff: map<int, Value>): Result<map<int, Value>>
    decreases mask, 1
  {
    if MergePanics(mask, current, diff) then Panicked
    else Ok(map k | k in current.Keys + mask.values.Keys && MergeFinal(mask, current, diff, k).Some?
              :: MergeFinal(mask, current, diff, k).value)
  }

  /** Two maps that agree on every slot are equal. */
  lemma SlotsEqual(m: map<int, Value>, n: map<int, Value>)
    requires forall k :: Get(m, k) == Get(n, k)
    ensures m == n
  {
    forall k ensures k in m <==> k in n {
      assert Get(m, k).Some? <==> Get(n, k).Some?;
    }
    forall k | k in m ensures m[k] == n[k] {
      assert Get(m, k) == Get(n, k);
    }
  }

  /** Every slot of MergeFlatSpec is the slot FlatFinal describes. */
  lemma FlatSlots(mask: UpdateMask, current: map<int, Value>, diff: map<int, Value>, k: int)
    ensures Get(MergeFlatSpec(mask, current, diff), k) == FlatFinal(mask, current, diff, k)
  {
  }

  /** Every slot of a successful MergeSpec is the slot MergeFinal describes. */
  lemma MergeSlots(mask: UpdateMask, current: map<int, Value>, diff: map<int, Value>, k: int)
    requires !MergePanics(mask, current, diff)
    ensures MergeSpec(mask, current, diff).Ok?
    ensures Get(MergeSpec(mask, current, diff).value, k) == MergeFinal(mask, current, diff, k)
  {
  }

  // ---------------------------------------------------------------------
  // Implementation
  // ---------------------------------------------------------------------

  /** mergeSlices and mergeMaps (their bodies are identical): each mask entry
      copies the diff's value or deletes the position or key in place. */
  method MergeFlat(mask: UpdateMask, current: Target, diff: map<int, Value>)
    modifies current
    ensures current.entries == MergeFlatSpec(mask, old(current.entries), diff)
  {
    ghost var original := current.entries;
    var todo := mask.values.Keys;
    while todo != {}
      invariant todo <= mask.values.Keys
      invariant forall k :: Get(current.entries, k) == (if k in todo then Get(original, k) else FlatFinal(mask, original, diff, k))
      decreases todo
    {
      HasKey(todo);
      var pos :| pos in todo;
      var maskValue := mask.values[pos];
      match maskValue.op {
        case ADD =>
          if pos in diff {
            current.entries := current.entries[pos := diff[pos]];
          }
        case REMOVE =>
          current.entries := current.entries - {pos};
        case UPDATE =>
          if pos in diff {
            current.entries := current.entries[pos := diff[pos]];
          }
      }
      todo := todo - {pos};
    }
    forall k ensures Get(current.entries, k) == Get(MergeFlatSpec(mask, original, diff), k) {
      FlatSlots(mask, original, diff, k);
    }
    SlotsEqual(current.entries, MergeFlatSpec(mask, original, diff));
  }

  /** Merge: applies each mask entry to `current` in place. It returns false
      exactly when the Go code panics on a type assertion. */
  method Merge(mask: UpdateMask, current: Target, diff: map<int, Value>) returns (ok: bool)
    modifies current
    decreases mask, 1
    ensures ok <==> MergeSpec(mask, old(current.entries), diff).Ok?
    ensures ok ==> current.entries == MergeSpec(mask, old(current.entries), diff).value
  {
    ghost var original := current.entries;
    var todo := mask.values.Keys;
    while todo != {}
      invariant todo <= mask.values.Keys
      invariant forall k :: k in mask.values && k !in todo ==> MergeSlot(mask.values[k], k, original, diff).Ok?
      invariant forall k :: Get(current.entries, k) == (if k in mask.values && k !in todo then MergeFinal(mask, original, diff, k) else Get(original, k))
      decreases todo
    {
      HasKey(todo);
      var pos :| pos in todo;
      var maskValue := mask.values[pos];
      assert Get(current.entries, pos) == Get(original, pos);
      match maskValue.op {
        case REMOVE =>
          current.entries := current.entries - {pos};
        case _ =>
          if maskValue.masks.Some? {
            if pos in current.entries {
              assert MergeSlot(maskValue, pos, current.entries, diff) == MergeSlot(maskValue, pos, original, diff);
              var nestedOk, slot := MergeNestedSlot(maskValue, pos, current.entries, diff);
              if !nestedOk {
                assert MergePanics(mask, original, diff);
                return false;
              }
              current.entries := current.entries[pos := slot];
            }
          } else {
            if pos in diff {
              current.entries := current.entries[pos := diff[pos]];
            }
          }
      }
      todo := todo - {pos};
    }
    assert !MergePanics(mask, original, diff);
    forall k ensures Get(current.entries, k) == Get(MergeSpec(mask, original, diff).value, k) {
      MergeSlots(mask, original, diff, k);
    }
    SlotsEqual(current.entries, MergeSpec(mask, original, diff).value);
    return true;
  }

  /** Merge's step for an ADD or UPDATE entry with a nested mask at a key the
      record holds: a record is merged recursively and a slice or dictionary
      flatly, each in place, after asserting the diff's value to the same
      kind; a leaf is left alone. It returns false exactly when the
      assertion fails or the nested Merge does. */
  method MergeNestedSlot(mv: MaskValue, pos: int, current: map<int, Value>, diff: map<int, Value>)
    returns (ok: bool, slot: Value)
    requires mv.op != REMOVE && mv.masks.Some? && pos in current
    decreases mv, 0
    ensures ok <==> MergeSlot(mv, pos, current, diff).Ok?
    ensures ok ==> MergeSlot(mv, pos, current, diff) == Ok(Some(slot))
  {
    ok, slot := true, current[pos];
    match current[pos] {
      case Record(nestedVal) =>
        if !(pos in diff && diff[pos].Record?) {
          return false, slot;
        }
        var nested := new Target(nestedVal);
        ok := Merge(mv.masks.value, nested, diff[pos].fields);
        slot := Record(nested.entries);
      case Slice(nestedVal) =>
        if !(pos in diff && diff[pos].Slice?) {
          return false, slot;
        }
        var nested := new Target(nestedVal);
        MergeFlat(mv.masks.value, nested, diff[pos].items);
        slot := Slice(nested.entries);
      case Dict(nestedVal) =>
        if !(pos in diff && diff[pos].Dict?) {
          return false, slot;
        }
        var nested := new Target(nestedVal);
        MergeFlat(mv.masks.value, nested, diff[pos].entries);
        slot := Dict(nested.entries);
      case _ =>
    }
  }

  // ---------------------------------------------------------------------
  // Properties
  // ---------------------------------------------------------------------

  /** REMOVE deletes the key; deleting a key the record lacks changes nothing there. */
  lemma MergeRemoves(mask: UpdateMask, current: map<int, Value>, diff: map<int, Value>, pos: int)
    requires pos in mask.values && mask.values[pos].op == REMOVE
    requires MergeSpec(mask, current, diff).Ok?
    ensures pos !in MergeSpec(mask, current, diff).value
  {
    MergeSlots(mask, current, diff, pos);
  }

  /** ADD or UPDATE without a nested mask copies the diff's value, and leaves
      the slot as it was when the diff lacks the key. */
  lemma MergeCopies(mask: UpdateMask, current: map<int, Value>, diff: map<int, Value>, pos: int)
    requires pos in mask.values && mask.values[pos].op != REMOVE && mask.values[pos].masks.None?
    requires MergeSpec(mask, current, diff).Ok?
    ensures pos in diff ==> pos in MergeSpec(mask, current, diff).value && MergeSpec(mask, current, diff).value[pos] == diff[pos]
    ensures pos !in diff ==> Get(MergeSpec(mask, current, diff).value, pos) == Get(current, pos)
  {
    MergeSlots(mask, current, diff, pos);
  }

  /** ADD or UPDATE with a nested mask recurses by the kind of the current
      value: a record is merged by Merge, a slice or dictionary by the flat
      merge, a leaf is kept, and a missing key stays missing. */
  lemma MergeNested(mask: UpdateMask, current: map<int, Value>, diff: map<int, Value>, pos: int)
    requires pos in mask.values && mask.values[pos].op != REMOVE && mask.values[pos].masks.Some?
    requires MergeSpec(mask, current, diff).Ok?
    ensures var r := MergeSpec(mask, current, diff).value;
            var nested := mask.values[pos].masks.value;
            && (pos !in current ==> pos !in r)
            && (pos in current && !IsComposite(current[pos]) ==> pos in r && r[pos] == current[pos])
            && (pos in current && current[pos].Record? ==>
                  pos in diff && diff[pos].Record? && pos in r &&
                  r[pos].Record? && MergeSpec(nested, current[pos].fields, diff[pos].fields) == Ok(r[pos].fields))
            && (pos in current && current[pos].Slice? ==>
                  pos in diff && diff[pos].Slice? && pos in r &&
                  r[pos] == Slice(MergeFlatSpec(nested, current[pos].items, diff[pos].items)))
            && (pos in current && current[pos].Dict? ==>
                  pos in diff && diff[pos].Dict? && pos in r &&
                  r[pos] == Dict(MergeFlatSpec(nested, current[pos].entries, diff[pos].entries)))
  {
    MergeSlots(mask, current, diff, pos);
  }

  /** The nested case panics when the diff lacks the key or holds a value of
      another kind there than the current composite. */
  lemma MergePanicsOnKindMismatch(mask: UpdateMask, current: map<int, Value>, diff: map<int, Value>, pos: int)
    requires pos in mask.values && mask.values[pos].op != REMOVE && mask.values[pos].masks.Some?
    requires pos in current && IsComposite(current[pos])
    requires !(pos in diff && SameComposite(current[pos], diff[pos]))
    ensures MergeSpec(mask, current, diff).Panicked?
  {
    assert MergeSlot(mask.values[pos], pos, current, diff).Panicked?;
  }

  /** Keys the mask does not name keep their value, or stay absent. */
  lemma MergeUntouched(mask: UpdateMask, current: map<int, Value>, diff: map<int, Value>, k: int)
    requires k !in mask.values
    requires MergeSpec(mask, current, diff).Ok?
    ensures Get(MergeSpec(mask, current, diff).value, k) == Get(current, k)
  {
    MergeSlots(mask, current, diff, k);
  }

  /** The flat merge does not look at nested masks: ADD and UPDATE copy the
      diff's value when there is one, REMOVE deletes, other keys are kept. */
  lemma MergeFlatSlots(mask: UpdateMask, current: map<int, Value>, diff: map<int, Value>, k: int)
    ensures var r := MergeFlatSpec(mask, current, diff);
            && (k in mask.values && mask.values[k].op == REMOVE ==> k !in r)
            && (k in mask.values && mask.values[k].op != REMOVE && k in diff ==> k in r && r[k] == diff[k])
            && (k in mask.values && mask.values[k].op != REMOVE && k !in diff ==> Get(r, k) == Get(current, k))
            && (k !in mask.values ==> Get(r, k) == Get(current, k))
  {
    FlatSlots(mask, current, diff, k);
  }

  /** An empty mask leaves a slice or dictionary as it was. */
  lemma MergeFlatEmptyMask(current: map<int, Value>, diff: map<int, Value>)
    ensures MergeFlatSpec(UpdateMask(map[]), current, diff) == current
  {
    forall k ensures Get(MergeFlatSpec(UpdateMask(map[]), current, diff), k) == Get(current, k) {
      FlatSlots(UpdateMask(map[]), current, diff, k);
    }
    SlotsEqual(MergeFlatSpec(UpdateMask(map[]), current, diff), current);
  }

  /** An empty mask leaves a record as it was. */
  lemma MergeEmptyMask(current: map<int, Value>, diff: map<int, Value>)
    ensures MergeSpec(UpdateMask(map[]), current, diff) == Ok(current)
  {
    forall k ensures Get(MergeSpec(UpdateMask(map[]), current, diff).value, k) == Get(current, k) {
      MergeSlots(UpdateMask(map[]), current, diff, k);
    }
    SlotsEqual(MergeSpec(UpdateMask(map[]), current, diff).value, current);
  }

  /** Applying the same mask and diff twice to a slice or dictionary gives the
      result of applying them once. */
  lemma MergeFlatIdempotent(mask: UpdateMask, current: map<int, Value>, diff: map<int, Value>)
    ensures MergeFlatSpec(mask, MergeFlatSpec(mask, current, diff), diff) == MergeFlatSpec(mask, current, diff)
  {
    var once := MergeFlatSpec(mask, current, diff);
    forall k ensures Get(MergeFlatSpec(mask, once, diff), k) == Get(once, k) {
      FlatSlots(mask, current, diff, k);
      FlatSlots(mask, once, diff, k);
    }
    SlotsEqual(MergeFlatSpec(mask, once, diff), once);
  }

  /** Applying the same mask and diff twice to a record gives the result of
      applying them once: every step overwrites from the diff or deletes. */
  lemma {:induction false} MergeIdempotent(mask: UpdateMask, current: map<int, Value>, diff: map<int, Value>)
    requires MergeSpec(mask, current, diff).Ok?
    ensures MergeSpec(mask, MergeSpec(mask, current, diff).value, diff) == MergeSpec(mask, current, diff)
    decreases mask
  {
    var once := MergeSpec(mask, current, diff).value;
    forall pos | pos in mask.values
      ensures MergeSlot(mask.values[pos], pos, once, diff) == Ok(MergeFinal(mask, current, diff, pos))
    {
      MergeSlots(mask, current, diff, pos);
      var mv := mask.values[pos];
      if mv.op != REMOVE && mv.masks.Some? && pos in current {
        match current[pos]
        case Record(c) =>
          MergeIdempotent(mv.masks.value, c, diff[pos].fields);
        case Slice(c) =>
          MergeFlatIdempotent(mv.masks.value, c, diff[pos].items);
        case Dict(c) =>
          MergeFlatIdempotent(mv.masks.value, c, diff[pos].entries);
        case _ =>
      }
    }
    assert !MergePanics(mask, once, diff);
    forall k ensures Get(MergeSpec(mask, once, diff).value, k) == Get(once, k) {
      MergeSlots(mask, once, diff, k);
      MergeSlots(mask, current, diff, k);
    }
    SlotsEqual(MergeSpec(mask, once, diff).value, once);
  }
}
