/**
 * Diff followed by Merge. Merging the mask and the after record that Diff
 * computes from `previous` and `latest` into `previous` yields `latest`, for
 * trees on which compareValues sees every change: records nest records, slices
 * hold scalars and do not shrink, and a composite is only ever compared with a
 * composite of the same kind. For all records, the merge succeeds exactly
 * when no dictionary reached through records is reported changed: a changed
 * dictionary's after side is a pair list, which Merge rejects.
 */
module DiffMerge {
  import opened Tree
  import opened MaskDiff
  import opened MaskMerge
  import opened DiffProperties

  /** A slice whose positions are exactly 0 .. n-1, holding non-nil scalars. */
  ghost predicate ScalarSlice(m: map<int, Value>)
  {
    (forall i :: i in m <==> 0 <= i < |m|) && (forall i :: i in m ==> m[i].Scalar?)
  }

  /** Values built from nil, scalars, records of such values and scalar slices. */
  ghost predicate Plain(v: Value)
  {
    match v
    case Record(m) => forall k :: k in m ==> Plain(m[k])
    case Slice(m) => ScalarSlice(m)
    case Dict(_) => false
    case Pairs(_) => false
    case _ => true
  }

  /** Every field of a record is Plain. */
  ghost predicate PlainFields(m: map<int, Value>)
  {
    forall k :: k in m ==> Plain(m[k])
  }

  /** A record in `a` faces a record in `b` (recursively, field by field), and a
      slice in `a` faces a slice in `b` that is at least as long. */
  ghost predicate Aligned(a: Value, b: Value)
    decreases a, 1
  {
    (a.Record? ==> b.Record? && AlignedFields(a.fields, b.fields)) &&
    (a.Slice? ==> b.Slice? && |a.items| <= |b.items|)
  }

  /** The fields present on both sides are Aligned. */
  ghost predicate AlignedFields(p: map<int, Value>, l: map<int, Value>)
    decreases Record(p), 0
  {
    forall k :: k in p && k in l ==> Aligned(p[k], l[k])
  }

  /** Merging a slice's mask and after side into the previous slice gives the
      latest slice. */
  lemma SliceRoundTrip(p: map<int, Value>, l: map<int, Value>)
    requires ScalarSlice(p) && ScalarSlice(l) && |p| <= |l|
    ensures MergeFlatSpec(UpdateMask(SliceMasks(p, l)), p, SliceAfter(p, l)) == l
  {
    var mask := UpdateMask(SliceMasks(p, l));
    var r := MergeFlatSpec(mask, p, SliceAfter(p, l));
    assert Max(|p|, |l|) == |l|;
    forall i ensures Get(r, i) == Get(l, i) {
      FlatSlots(mask, p, SliceAfter(p, l), i);
      if 0 <= i < |l| {
        assert i in l && l[i].Scalar?;
        var e := SliceElem(p, l, i);
        if i in p {
          assert p[i].Scalar?;
          assert e == Compare(p[i], l[i]);
          assert e == CompareLeaf(p[i], l[i]);
        } else {
          assert e == CompareLeaf(Nil, l[i]);
        }
        assert i in SliceAfter(p, l) && SliceAfter(p, l)[i] == e.after;
        assert i in mask.values <==> e.changed;
      } else {
        assert i !in l && i !in p;
        assert i !in mask.values;
      }
    }
    SlotsEqual(r, l);
  }

  /** The generalised record round trip: `d` may hold more than the changed
      keys, as the after side of a nested record comparison does. */
  lemma {:induction false} RecordRoundTrip(p: map<int, Value>, l: map<int, Value>, d: map<int, Value>)
    requires PlainFields(p) && PlainFields(l) && AlignedFields(p, l)
    requires forall k :: k in RecordMasks(p, l) ==> k in d && d[k] == KeyAfter(p, l, k)
    ensures MergeSpec(UpdateMask(RecordMasks(p, l)), p, d) == Ok(l)
    decreases Record(p), 1
  {
    var mask := UpdateMask(RecordMasks(p, l));
    forall k | k in mask.values ensures MergeSlot(mask.values[k], k, p, d) == Ok(Get(l, k)) {
      MaskedSlot(p, l, d, k);
    }
    assert !MergePanics(mask, p, d);
    forall k ensures Get(MergeSpec(mask, p, d).value, k) == Get(l, k) {
      MergeSlots(mask, p, d, k);
      if k !in mask.values && (k in p || k in l) {
        assert k in p.Keys + l.Keys;
        assert KeyOp(p, l, k).None?;
        assert k in p && k in l;
        UnchangedFieldEqual(p, l, k);
      }
    }
    SlotsEqual(MergeSpec(mask, p, d).value, l);
  }

  /** A masked record key merges to its latest value. */
  lemma {:induction false} MaskedSlot(p: map<int, Value>, l: map<int, Value>, d: map<int, Value>, k: int)
    requires PlainFields(p) && PlainFields(l) && AlignedFields(p, l)
    requires forall k :: k in RecordMasks(p, l) ==> k in d && d[k] == KeyAfter(p, l, k)
    requires k in RecordMasks(p, l)
    ensures MergeSlot(RecordMasks(p, l)[k], k, p, d) == Ok(Get(l, k))
    decreases Record(p), 0
  {
    KeyCases(p, l, k);
    if k in p && k in l {
      var e := Compare(p[k], l[k]);
      assert Aligned(p[k], l[k]);
      if p[k].Record? {
        var pp, ll := p[k].fields, l[k].fields;
        assert e == CompareRecords(pp, ll);
        RecordRoundTrip(pp, ll, RecordAfter(pp, ll));
      } else if p[k].Slice? {
        var pp, ll := p[k].items, l[k].items;
        assert e == CompareSlices(pp, ll);
        SliceRoundTrip(pp, ll);
      } else {
        assert e == CompareLeaf(p[k], l[k]);
      }
    }
  }

  /** A field present on both sides that receives no mask entry holds equal values. */
  lemma {:induction false} UnchangedFieldEqual(p: map<int, Value>, l: map<int, Value>, k: int)
    requires PlainFields(p) && PlainFields(l) && AlignedFields(p, l)
    requires k in p && k in l && k !in RecordMasks(p, l)
    ensures p[k] == l[k]
    decreases Record(p), 0
  {
    assert k in p.Keys + l.Keys;
    var e := Compare(p[k], l[k]);
    assert KeyOp(p, l, k) == if e.changed then Some(MaskValue(UPDATE, e.mask)) else None;
    assert !e.changed;
    assert Aligned(p[k], l[k]);
    if p[k].Record? {
      var pp, ll := p[k].fields, l[k].fields;
      assert e == CompareRecords(pp, ll);
      assert RecordMasks(pp, ll) == map[];
      RecordRoundTrip(pp, ll, RecordAfter(pp, ll));
      MergeEmptyMask(pp, RecordAfter(pp, ll));
    } else if p[k].Slice? {
      var pp, ll := p[k].items, l[k].items;
      assert e == CompareSlices(pp, ll);
      assert SliceMasks(pp, ll) == map[];
      SliceRoundTrip(pp, ll);
      MergeFlatEmptyMask(pp, SliceAfter(pp, ll));
    } else {
      assert e == CompareLeaf(p[k], l[k]);
    }
  }

  /** Diff then Merge: Diff reports nothing exactly when the records are
      equal, and otherwise merging its mask and after record into `previous`
      succeeds and yields `latest`. */
  lemma DiffThenMerge(previous: map<int, Value>, latest: map<int, Value>)
    requires PlainFields(previous) && PlainFields(latest) && AlignedFields(previous, latest)
    ensures var r := DiffSpec(previous, latest);
            && (r.mask.None? <==> previous == latest)
            && (r.mask.Some? ==> r.after.Some? && MergeSpec(r.mask.value, previous, r.after.value) == Ok(latest))
  {
    var r := DiffSpec(previous, latest);
    RecordRoundTrip(previous, latest, TopAfter(previous, latest));
    if r.mask.None? {
      MergeEmptyMask(previous, TopAfter(previous, latest));
    } else if previous == latest {
      RecordMasksSelf(previous);
    }
  }

  /** True when some field that both records hold, directly or inside nested
      records held on both sides, is a dictionary on both sides whose
      comparison reports a change. */
  ghost predicate ChangesDict(p: map<int, Value>, l: map<int, Value>)
    decreases Record(p), 0
  {
    exists k :: k in p && k in l && ChangedDictAt(p[k], l[k])
  }

  /** `a` and `b` are changed dictionaries, or records for which ChangesDict holds. */
  ghost predicate ChangedDictAt(a: Value, b: Value)
    decreases a, 1
  {
    (a.Dict? && b.Dict? && CompareDicts(a.entries, b.entries).changed) ||
    (a.Record? && b.Record? && ChangesDict(a.fields, b.fields))
  }

  /** A changed dictionary, at any record depth, makes the comparison changed. */
  lemma {:induction false} ChangedDictAtChanges(a: Value, b: Value)
    requires ChangedDictAt(a, b)
    ensures Compare(a, b).changed
    decreases a
  {
    if a.Record? && b.Record? && ChangesDict(a.fields, b.fields) {
      var p, l := a.fields, b.fields;
      var k :| k in p && k in l && ChangedDictAt(p[k], l[k]);
      ChangedDictAtChanges(p[k], l[k]);
      KeyCases(p, l, k);
      assert k in p.Keys + l.Keys && k in RecordMasks(p, l);
      assert Compare(a, b) == CompareRecords(p, l);
    } else {
      assert Compare(a, b) == CompareDicts(a.entries, b.entries);
    }
  }

  /** Merging a record comparison's mask, with a diff record that holds the
      comparison's after side at the masked keys, panics exactly when a
      dictionary reached through records is reported changed: its after
      side is an unnamed pair list, which Merge's assertion to LinearizedMap
      rejects. Otherwise a nested mask only meets a record or a slice, and
      the after side holds that kind too. */
  lemma {:induction false} MergeOfDiffSucceeds(p: map<int, Value>, l: map<int, Value>, d: map<int, Value>)
    requires forall k :: k in RecordMasks(p, l) ==> k in d && d[k] == KeyAfter(p, l, k)
    ensures MergeSpec(UpdateMask(RecordMasks(p, l)), p, d).Ok? <==> !ChangesDict(p, l)
    decreases Record(p), 1
  {
    var mask := UpdateMask(RecordMasks(p, l));
    if ChangesDict(p, l) {
      var k :| k in p && k in l && ChangedDictAt(p[k], l[k]);
      ChangedDictAtChanges(p[k], l[k]);
      KeyCases(p, l, k);
      assert k in p.Keys + l.Keys && k in mask.values;
      MaskedSlotSucceeds(p, l, d, k);
      assert MergePanics(mask, p, d);
    } else {
      forall k | k in mask.values ensures MergeSlot(mask.values[k], k, p, d).Ok? {
        MaskedSlotSucceeds(p, l, d, k);
      }
      assert !MergePanics(mask, p, d);
    }
  }

  /** The step of one masked key of MergeOfDiffSucceeds. */
  lemma {:induction false} MaskedSlotSucceeds(p: map<int, Value>, l: map<int, Value>, d: map<int, Value>, k: int)
    requires forall k :: k in RecordMasks(p, l) ==> k in d && d[k] == KeyAfter(p, l, k)
    requires k in RecordMasks(p, l)
    ensures MergeSlot(RecordMasks(p, l)[k], k, p, d).Panicked? <==> k in p && k in l && ChangedDictAt(p[k], l[k])
    decreases Record(p), 0
  {
    KeyCases(p, l, k);
    if k in p && k in l {
      if p[k].Record? && l[k].Record? {
        var pp, ll := p[k].fields, l[k].fields;
        assert Compare(p[k], l[k]) == CompareRecords(pp, ll);
        MergeOfDiffSucceeds(pp, ll, RecordAfter(pp, ll));
      } else if p[k].Dict? && l[k].Dict? {
        assert Compare(p[k], l[k]) == CompareDicts(p[k].entries, l[k].entries);
      } else if p[k].Slice? && l[k].Slice? {
        assert Compare(p[k], l[k]) == CompareSlices(p[k].items, l[k].items);
      } else if !IsComposite(p[k]) {
        assert Compare(p[k], l[k]) == CompareLeaf(p[k], l[k]);
      }
    }
  }

  /** Diff then Merge panics as soon as a dictionary field that both records
      hold is reported changed: Merge asserts the after side to be a
      LinearizedMap, and the dictionary branch built it as a pair list. */
  lemma DiffThenMergePanicsOnDict(previous: map<int, Value>, latest: map<int, Value>, k: int)
    requires k in previous && k in latest && previous[k].Dict? && latest[k].Dict?
    requires Compare(previous[k], latest[k]).changed
    ensures var r := DiffSpec(previous, latest);
      && r.mask.Some? && r.after.Some?
      && MergeSpec(r.mask.value, previous, r.after.value) == Panicked
  {
    assert Compare(previous[k], latest[k]) == CompareDicts(previous[k].entries, latest[k].entries);
    assert ChangedDictAt(previous[k], latest[k]);
    KeyCases(previous, latest, k);
    assert k in previous.Keys + latest.Keys && k in RecordMasks(previous, latest);
    MergeOfDiffSucceeds(previous, latest, TopAfter(previous, latest));
  }

  /** The smallest such input: one dictionary field whose one entry changes. */
  lemma DictFieldChangePanics()
    ensures var r := DiffSpec(map[5 := Dict(map[1 := Scalar(1)])], map[5 := Dict(map[1 := Scalar(2)])]);
      && r.mask.Some? && r.after.Some?
      && MergeSpec(r.mask.value, map[5 := Dict(map[1 := Scalar(1)])], r.after.value) == Panicked
  {
    var p, l := map[1 := Scalar(1)], map[1 := Scalar(2)];
    DictMaskEntries(p, l, 1);
    assert Compare(Dict(p), Dict(l)) == CompareDicts(p, l);
    DiffThenMergePanicsOnDict(map[5 := Dict(p)], map[5 := Dict(l)], 5);
  }

  /** `v` with every unnamed pair list in it built as a LinearizedMap instead. */
  function Retyped(v: Value): Value
  {
    match v
    case Record(m) => Record(map k | k in m :: Retyped(m[k]))
    case Slice(m) => Slice(map k | k in m :: Retyped(m[k]))
    case Dict(m) => Dict(map k | k in m :: Retyped(m[k]))
    case Pairs(m) => Dict(map k | k in m :: Retyped(m[k]))
    case _ => v
  }

  /** The corrected dictionary branch, whose sides are LinearizedMap values:
      merging a record comparison's mask with the retyped after side never
      panics, for all records. */
  lemma {:induction false} MergeOfRetypedDiffSucceeds(p: map<int, Value>, l: map<int, Value>, d: map<int, Value>)
    requires forall k :: k in RecordMasks(p, l) ==> k in d && d[k] == Retyped(KeyAfter(p, l, k))
    ensures MergeSpec(UpdateMask(RecordMasks(p, l)), p, d).Ok?
    decreases Record(p), 1
  {
    var mask := UpdateMask(RecordMasks(p, l));
    forall k | k in mask.values ensures MergeSlot(mask.values[k], k, p, d).Ok? {
      RetypedSlotSucceeds(p, l, d, k);
    }
    assert !MergePanics(mask, p, d);
  }

  /** The step of one masked key of MergeOfRetypedDiffSucceeds. */
  lemma {:induction false} RetypedSlotSucceeds(p: map<int, Value>, l: map<int, Value>, d: map<int, Value>, k: int)
    requires forall k :: k in RecordMasks(p, l) ==> k in d && d[k] == Retyped(KeyAfter(p, l, k))
    requires k in RecordMasks(p, l)
    ensures MergeSlot(RecordMasks(p, l)[k], k, p, d).Ok?
    decreases Record(p), 0
  {
    KeyCases(p, l, k);
    if k in p && k in l {
      if p[k].Record? && l[k].Record? {
        var pp, ll := p[k].fields, l[k].fields;
        assert Compare(p[k], l[k]) == CompareRecords(pp, ll);
        var a := RecordAfter(pp, ll);
        assert d[k] == Record(map j | j in a :: Retyped(a[j]));
        MergeOfRetypedDiffSucceeds(pp, ll, d[k].fields);
      } else if p[k].Dict? && l[k].Dict? {
        assert Compare(p[k], l[k]) == CompareDicts(p[k].entries, l[k].entries);
      } else if p[k].Slice? && l[k].Slice? {
        assert Compare(p[k], l[k]) == CompareSlices(p[k].items, l[k].items);
      } else if !IsComposite(p[k]) {
        assert Compare(p[k], l[k]) == CompareLeaf(p[k], l[k]);
      }
    }
  }

  /** Diff then Merge for all records, as the merge tests check it: when
      Diff reports a change, merging its mask and after record into
      `previous` succeeds exactly when no dictionary reached through records
      is reported changed, and then every removed field is gone and every
      scalar field of `latest` whose previous value was not a composite ends
      up holding its latest value. */
  lemma DiffThenMergeScalars(previous: map<int, Value>, latest: map<int, Value>)
    ensures var r := DiffSpec(previous, latest);
      r.mask.Some? ==>
        && r.after.Some?
        && (MergeSpec(r.mask.value, previous, r.after.value).Ok? <==> !ChangesDict(previous, latest))
        && (MergeSpec(r.mask.value, previous, r.after.value).Ok? ==>
              && (forall k :: k in previous && k !in latest ==> k !in MergeSpec(r.mask.value, previous, r.after.value).value)
              && (forall k :: k in latest && latest[k].Scalar? && (k in previous ==> !IsComposite(previous[k])) ==>
                    k in MergeSpec(r.mask.value, previous, r.after.value).value &&
                    MergeSpec(r.mask.value, previous, r.after.value).value[k] == latest[k]))
  {
    var r := DiffSpec(previous, latest);
    if r.mask.Some? {
      var mask, d := r.mask.value, r.after.value;
      MergeOfDiffSucceeds(previous, latest, d);
      if MergeSpec(mask, previous, d).Ok? {
        var m := MergeSpec(mask, previous, d).value;
        forall k | k in previous && k !in latest ensures k !in m {
          MergeSlots(mask, previous, d, k);
          KeyCases(previous, latest, k);
        }
        forall k | k in latest && latest[k].Scalar? && (k in previous ==> !IsComposite(previous[k]))
          ensures k in m && m[k] == latest[k]
        {
          ScalarFieldMerged(previous, latest, k);
        }
      }
    }
  }

  /** One scalar field of DiffThenMergeScalars. */
  lemma ScalarFieldMerged(previous: map<int, Value>, latest: map<int, Value>, k: int)
    requires RecordMasks(previous, latest) != map[]
    requires MergeSpec(UpdateMask(RecordMasks(previous, latest)), previous, TopAfter(previous, latest)).Ok?
    requires k in latest && latest[k].Scalar? && (k in previous ==> !IsComposite(previous[k]))
    ensures var m := MergeSpec(UpdateMask(RecordMasks(previous, latest)), previous, TopAfter(previous, latest)).value;
      k in m && m[k] == latest[k]
  {
    var mask := UpdateMask(RecordMasks(previous, latest));
    MergeSlots(mask, previous, TopAfter(previous, latest), k);
    KeyCases(previous, latest, k);
    if k in previous {
      assert Compare(previous[k], latest[k]) == CompareLeaf(previous[k], latest[k]);
    }
  }

  /** Merging into the before record instead of the previous one does not
      give the latest record: before holds only the fields that received an
      op, so an unchanged field (here field 2) is lost. */
  lemma MergeIntoBeforeLosesUnchanged()
    ensures var r := DiffSpec(map[1 := Scalar(1), 2 := Scalar(5)], map[1 := Scalar(2), 2 := Scalar(5)]);
      && r.mask.Some? && r.before.Some? && r.after.Some?
      && MergeSpec(r.mask.value, r.before.value, r.after.value) == Ok(map[1 := Scalar(2)])
  {
    var p, l := map[1 := Scalar(1), 2 := Scalar(5)], map[1 := Scalar(2), 2 := Scalar(5)];
    KeyCases(p, l, 1);
    KeyCases(p, l, 2);
    var masks := RecordMasks(p, l);
    assert 1 in masks;
    MapsEqual(masks, map[1 := MaskValue(UPDATE, None)]);
    MapsEqual(TopBefore(p, l), map[1 := Scalar(1)]);
    MapsEqual(TopAfter(p, l), map[1 := Scalar(2)]);
    var r := DiffSpec(p, l);
    assert r == DiffResult(Some(map[1 := Scalar(1)]), Some(map[1 := Scalar(2)]), Some(UpdateMask(masks)));
    var mask, b, a := r.mask.value, r.before.value, r.after.value;
    assert MergeSlot(mask.values[1], 1, b, a) == Ok(Some(Scalar(2)));
    assert !MergePanics(mask, b, a);
    forall k ensures Get(MergeSpec(mask, b, a).value, k) == Get(map[1 := Scalar(2)], k) {
      MergeSlots(mask, b, a, k);
    }
    SlotsEqual(MergeSpec(mask, b, a).value, map[1 := Scalar(2)]);
  }

  /** Why dictionaries are outside the round trip: a scalar value that
      changes inside a dictionary makes the dictionary count as changed, but
      gets no mask entry, so merging the dictionary's mask and after side
      keeps the old value. */
  lemma DictScalarChangeNotMerged(p: map<int, Value>, l: map<int, Value>, k: int)
    requires k in p && k in l && p[k].Scalar? && l[k].Scalar? && p[k] != l[k]
    ensures CompareDicts(p, l).changed
    ensures var r := MergeFlatSpec(UpdateMask(DictMasks(p, l)), p, DictAfter(p, l));
            k in r && r[k] == p[k] && r[k] != l[k]
  {
    DictMaskEntries(p, l, k);
    MergeFlatSlots(UpdateMask(DictMasks(p, l)), p, DictAfter(p, l), k);
  }
}
