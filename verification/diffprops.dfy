/**
 * Properties of the mask-tree Diff engine, stated over the specification
 * functions of MaskDiff (which the Diff and CompareValues methods are proved
 * to compute).
 */
module DiffProperties {
  import opened Tree
  import opened MaskDiff

  /** A map all of whose values are nil or scalars. */
  ghost predicate LeafValued(m: map<int, Value>)
  {
    forall k :: k in m ==> !IsComposite(m[k])
  }

  // ---------------------------------------------------------------------
  // Comparing a value with itself
  // ---------------------------------------------------------------------

  /** compareValues never reports a change between a value and itself. */
  lemma {:induction false} CompareSelf(v: Value)
    ensures !Compare(v, v).changed
    decreases v, 1
  {
    match v
    case Record(m) =>
      RecordMasksSelf(m);
    case Slice(m) =>
      forall i ensures i !in SliceMasks(m, m) {
        if 0 <= i < |m| && i in m {
          CompareSelf(m[i]);
          assert Lookup(m, i) == m[i];
        }
      }
      MapsEqual(SliceMasks(m, m), map[]);
    case Dict(m) =>
      if DictChanged(m, m) != {} {
        HasKey(DictChanged(m, m));
        var k :| k in DictChanged(m, m);
        assert k in m.Keys + m.Keys && DictElem(m, m, k).changed;
        assert DictElem(m, m, k) == Compare(m[k], m[k]);
        CompareSelf(m[k]);
        assert false;
      }
    case _ =>
  }

  /** No key of a record compared with itself receives a mask entry. */
  lemma {:induction false} RecordMasksSelf(m: map<int, Value>)
    ensures RecordMasks(m, m) == map[]
    decreases Record(m), 0
  {
    forall k | k in m ensures KeyOp(m, m, k).None? {
      CompareSelf(m[k]);
    }
    MapsEqual(RecordMasks(m, m), map[]);
  }

  /** Diff(A, A) returns nil before, nil after and a nil mask. */
  lemma DiffSelfIsNil(a: map<int, Value>)
    ensures DiffSpec(a, a) == DiffResult(None, None, None)
  {
    RecordMasksSelf(a);
  }

  // ---------------------------------------------------------------------
  // Diff, key by key
  // ---------------------------------------------------------------------

  /** Diff returns nil before, nil after and a nil mask exactly when no key
      of either record receives an op; otherwise all three are non-nil. */
  lemma DiffNilIff(previous: map<int, Value>, latest: map<int, Value>)
    ensures DiffSpec(previous, latest).mask.None? ==> forall k :: KeyOp(previous, latest, k).None?
    ensures (exists k :: KeyOp(previous, latest, k).Some?) ==> DiffSpec(previous, latest).mask.Some?
    ensures DiffSpec(previous, latest).mask.None? <==> DiffSpec(previous, latest).before.None?
    ensures DiffSpec(previous, latest).mask.None? <==> DiffSpec(previous, latest).after.None?
  {
    var masks := RecordMasks(previous, latest);
    if forall k :: KeyOp(previous, latest, k).None? {
      forall k ensures k !in masks {
        assert KeyOp(previous, latest, k).None?;
      }
      MapsEqual(masks, map[]);
    } else {
      var k :| KeyOp(previous, latest, k).Some?;
      assert k in previous.Keys + latest.Keys;
      assert k in masks;
      assert masks != map[];
      assert DiffSpec(previous, latest).mask.Some?;
    }
  }

  /** What Diff records for one key of a non-empty result: a removed key gets
      REMOVE with its old value before and nil after, an added key gets ADD
      with nil before and its new value after, a changed key gets UPDATE
      carrying the element's nested mask, and an unchanged key appears in
      none of the three maps. */
  lemma DiffKey(previous: map<int, Value>, latest: map<int, Value>, k: int)
    requires DiffSpec(previous, latest).mask.Some?
    ensures var r := DiffSpec(previous, latest);
            var mask := r.mask.value.values;
            var before := r.before.value;
            var after := r.after.value;
            && (k in previous && k !in latest ==>
                  k in mask && mask[k] == MaskValue(REMOVE, None) &&
                  k in before && before[k] == previous[k] && k in after && after[k] == Nil)
            && (k !in previous && k in latest ==>
                  k in mask && mask[k] == MaskValue(ADD, None) &&
                  k in before && before[k] == Nil && k in after && after[k] == latest[k])
            && (k in previous && k in latest && Compare(previous[k], latest[k]).changed ==>
                  var e := Compare(previous[k], latest[k]);
                  k in mask && mask[k] == MaskValue(UPDATE, e.mask) &&
                  k in before && before[k] == e.before && k in after && after[k] == e.after)
            && ((k in previous <==> k in latest) && !(k in previous && Compare(previous[k], latest[k]).changed) ==>
                  k !in mask && k !in before && k !in after)
  {
    var masks := RecordMasks(previous, latest);
    assert DiffSpec(previous, latest).mask.value.values == masks;
    if k in previous && k !in latest {
      assert KeyOp(previous, latest, k) == Some(MaskValue(REMOVE, None));
      assert k in previous.Keys + latest.Keys;
      assert k in masks;
    } else if k !in previous && k in latest {
      assert KeyOp(previous, latest, k) == Some(MaskValue(ADD, None));
      assert k in previous.Keys + latest.Keys;
      assert k in masks;
    } else if k in previous && k in latest {
      var e := Compare(previous[k], latest[k]);
      assert KeyOp(previous, latest, k) == if e.changed then Some(MaskValue(UPDATE, e.mask)) else None;
      assert k in previous.Keys + latest.Keys;
    }
  }

  // ---------------------------------------------------------------------
  // compareValues, branch by branch
  // ---------------------------------------------------------------------

  /** A nil or scalar previous value is changed exactly when it differs from
      the latest value, and then the result is (prev, latest, nil mask): a
      scalar UPDATE never carries a nested mask. */
  lemma CompareLeafValue(prev: Value, latest: Value)
    requires !IsComposite(prev)
    ensures Compare(prev, latest).changed <==> prev != latest
    ensures Compare(prev, latest).changed ==> Compare(prev, latest) == Delta(true, prev, latest, None)
    ensures Compare(prev, latest).mask.None?
  {
  }

  /** A record, slice or dictionary compared with a value of another kind
      (nil included) is reported unchanged, with nil before, after and mask. */
  lemma CompareKindMismatch(prev: Value, latest: Value)
    requires IsComposite(prev) && !SameComposite(prev, latest)
    ensures Compare(prev, latest) == Unchanged
  {
  }

  /** The record branch: the result is changed exactly when some key gets an
      op; a missing key gets REMOVE, a new key ADD, a differing key UPDATE,
      and every key of either side appears in before and after, unchanged
      keys with their own values. */
  lemma CompareRecordsKeys(p: map<int, Value>, l: map<int, Value>)
    ensures var d := CompareRecords(p, l);
            && (d.changed ==> exists k :: KeyOp(p, l, k).Some?)
            && ((exists k :: KeyOp(p, l, k).Some?) ==> d.changed)
            && d.mask.Some?
            && (forall k :: k in d.mask.value.values <==> KeyOp(p, l, k).Some?)
            && (forall k :: k in d.before.fields <==> k in p || k in l)
            && (forall k :: k in d.after.fields <==> k in p || k in l)
  {
    var masks := RecordMasks(p, l);
    if forall k :: KeyOp(p, l, k).None? {
      forall k ensures k !in masks {
        assert KeyOp(p, l, k).None?;
      }
      MapsEqual(masks, map[]);
    } else {
      var k :| KeyOp(p, l, k).Some?;
      assert k in p.Keys + l.Keys;
      assert k in masks;
      assert masks != map[];
    }
  }

  /** The record branch on one key: what the op is, and what before and after hold there. */
  lemma CompareRecordsKey(p: map<int, Value>, l: map<int, Value>, k: int)
    requires k in p || k in l
    ensures var d := CompareRecords(p, l);
            var mask := d.mask.value.values;
            && k in d.before.fields && k in d.after.fields
            && (k in p && k !in l ==>
                  k in mask && mask[k].op == REMOVE && d.before.fields[k] == p[k] && d.after.fields[k] == Nil)
            && (k !in p && k in l ==>
                  k in mask && mask[k].op == ADD && d.before.fields[k] == Nil && d.after.fields[k] == l[k])
            && (k in p && k in l && Compare(p[k], l[k]).changed ==>
                  k in mask && mask[k] == MaskValue(UPDATE, Compare(p[k], l[k]).mask) &&
                  d.before.fields[k] == Compare(p[k], l[k]).before && d.after.fields[k] == Compare(p[k], l[k]).after)
            && (k in p && k in l && !Compare(p[k], l[k]).changed ==>
                  k !in mask && d.before.fields[k] == p[k] && d.after.fields[k] == l[k])
  {
    assert k in p.Keys + l.Keys;
    if k in p && k !in l {
      assert KeyOp(p, l, k) == Some(MaskValue(REMOVE, None));
      assert KeyBefore(p, l, k) == p[k] && KeyAfter(p, l, k) == Nil;
    } else if k !in p && k in l {
      assert KeyOp(p, l, k) == Some(MaskValue(ADD, None));
      assert KeyBefore(p, l, k) == Nil && KeyAfter(p, l, k) == l[k];
    } else {
      var e := Compare(p[k], l[k]);
      assert KeyOp(p, l, k) == if e.changed then Some(MaskValue(UPDATE, e.mask)) else None;
      assert KeyBefore(p, l, k) == if e.changed then e.before else p[k];
      assert KeyAfter(p, l, k) == if e.changed then e.after else l[k];
    }
  }

  /** The slice branch at position `i` of a slice of leaves, each side read
      as nil past its end: before and after have the longer length; a
      position where the two sides differ gets UPDATE without a nested mask
      and holds the two elements, and a position where they agree gets no
      mask entry and holds nil on both sides. */
  lemma CompareSlicesOfLeaves(p: map<int, Value>, l: map<int, Value>, i: int)
    requires LeafValued(p)
    ensures var n := Max(|p|, |l|);
            && (i in SliceBefore(p, l) <==> 0 <= i < n)
            && (i in SliceAfter(p, l) <==> 0 <= i < n)
            && (0 <= i < n && SliceAt(p, i) != SliceAt(l, i) ==>
                  SliceBefore(p, l)[i] == SliceAt(p, i) && SliceAfter(p, l)[i] == SliceAt(l, i))
            && (0 <= i < n && SliceAt(p, i) == SliceAt(l, i) ==>
                  SliceBefore(p, l)[i] == Nil && SliceAfter(p, l)[i] == Nil)
            && (i in SliceMasks(p, l) <==> 0 <= i < n && SliceAt(p, i) != SliceAt(l, i))
            && (i in SliceMasks(p, l) ==> SliceMasks(p, l)[i] == MaskValue(UPDATE, None))
  {
    var e := SliceElem(p, l, i);
    assert e == CompareLeaf(SliceAt(p, i), SliceAt(l, i)) by {
      if i < |p| && i in p {
        assert !IsComposite(p[i]);
        assert e == Compare(p[i], SliceAt(l, i));
        assert Compare(p[i], SliceAt(l, i)) == CompareLeaf(p[i], SliceAt(l, i));
      } else {
        assert e == CompareLeaf(Nil, SliceAt(l, i));
      }
    }
    var n := Max(|p|, |l|);
    assert i in SliceMasks(p, l) <==> 0 <= i < n && e.changed;
    assert i in SliceBefore(p, l) <==> 0 <= i < n;
    assert i in SliceAfter(p, l) <==> 0 <= i < n;
  }

  /** The slice branch, whatever its elements: every position below the
      longer length is compared, reading nil past either end; before and
      after hold exactly those positions, each with its comparison's before
      and after; a position gets a mask entry exactly when its comparison
      changed, UPDATE with the comparison's nested mask. */
  lemma CompareSlicesPositions(p: map<int, Value>, l: map<int, Value>, i: int)
    ensures var d := CompareSlices(p, l);
            var n := Max(|p|, |l|);
            var e := Compare(SliceAt(p, i), SliceAt(l, i));
            && (i in d.before.items <==> 0 <= i < n)
            && (i in d.after.items <==> 0 <= i < n)
            && (0 <= i < n ==> d.before.items[i] == e.before && d.after.items[i] == e.after)
            && (i in d.mask.value.values <==> 0 <= i < n && e.changed)
            && (i in d.mask.value.values ==> d.mask.value.values[i] == MaskValue(UPDATE, e.mask))
  {
    assert SliceElem(p, l, i) == Compare(SliceAt(p, i), SliceAt(l, i)) by {
      if !(i < |p| && i in p) {
        assert SliceAt(p, i) == Nil;
      }
    }
  }

  /** A slice that grows: each appended non-nil element gets UPDATE with no
      nested mask (never ADD), with nil before and the element after. */
  lemma SliceGrowth(p: map<int, Value>, l: map<int, Value>, i: int)
    requires |p| <= i < |l| && i in l && l[i] != Nil
    ensures var d := CompareSlices(p, l);
            && i in d.mask.value.values && d.mask.value.values[i] == MaskValue(UPDATE, None)
            && i in d.before.items && d.before.items[i] == Nil
            && i in d.after.items && d.after.items[i] == l[i]
  {
    assert SliceElem(p, l, i) == CompareLeaf(Nil, l[i]);
  }

  /** A slice that shrinks keeps its length: each trailing position stays in
      before and after. A trailing leaf gets UPDATE with nil after; a trailing
      composite is compared with nil, so it gets no mask entry and nil on both
      sides. */
  lemma SliceShrink(p: map<int, Value>, l: map<int, Value>, i: int)
    requires |l| <= i < |p| && i in p
    ensures var d := CompareSlices(p, l);
            var mask := d.mask.value.values;
            && i in d.before.items && i in d.after.items
            && (!IsComposite(p[i]) && p[i] != Nil ==>
                  i in mask && mask[i] == MaskValue(UPDATE, None) && d.before.items[i] == p[i] && d.after.items[i] == Nil)
            && (IsComposite(p[i]) ==> i !in mask && d.before.items[i] == Nil && d.after.items[i] == Nil)
  {
    assert SliceElem(p, l, i) == Compare(p[i], Nil);
  }

  /** The dictionary branch: a changed key gets a mask entry only when its
      element comparison produced a nested mask, so a changed scalar value,
      an added key and a removed key get none, though the dictionary is
      reported changed. */
  lemma DictMaskEntries(p: map<int, Value>, l: map<int, Value>, k: int)
    ensures var d := CompareDicts(p, l);
            && (k in d.mask.value.values <==> (k in p || k in l) && DictElem(p, l, k).changed && DictElem(p, l, k).mask.Some?)
            && (k in d.mask.value.values ==> d.mask.value.values[k] == MaskValue(UPDATE, DictElem(p, l, k).mask))
            && ((k in p || k in l) && !IsComposite(Lookup(p, k)) && Lookup(p, k) != Lookup(l, k) ==>
                  d.changed && k !in d.mask.value.values)
  {
    if (k in p || k in l) && !IsComposite(Lookup(p, k)) && Lookup(p, k) != Lookup(l, k) {
      assert k in p.Keys + l.Keys;
      assert DictElem(p, l, k) == CompareLeaf(Lookup(p, k), Lookup(l, k));
      assert k in DictChanged(p, l);
    }
  }

  // ---------------------------------------------------------------------
  // The before/after bookkeeping of the dictionary branch
  // ---------------------------------------------------------------------

  /** One `[2]any` key/value pair of a dictionary's pair list. */
  datatype Pair = Pair(key: int, value: Value)

  /** The before/after pair lists of the dictionary branch as the Go code
      builds them, ranging over the key set in the order `keys`: the pair of
      each side holding the key is appended, and on a change the LAST pair of
      each list is overwritten with the element's before or after, whichever
      key that pair belongs to. None when that overwrite indexes position -1
      of an empty list, which panics. */
  function DictSidesAsWritten(p: map<int, Value>, l: map<int, Value>, keys: seq<int>,
                              before: seq<Pair>, after: seq<Pair>): Option<(seq<Pair>, seq<Pair>)>
    decreases |keys|
  {
    if keys == [] then Some((before, after))
    else
      var key := keys[0];
      var b := if key in p then before + [Pair(key, p[key])] else before;
      var a := if key in l then after + [Pair(key, l[key])] else after;
      var e := DictElem(p, l, key);
      if !e.changed then DictSidesAsWritten(p, l, keys[1..], b, a)
      else if |b| == 0 || |a| == 0 then None
      else DictSidesAsWritten(p, l, keys[1..], b[|b| - 1 := Pair(key, e.before)], a[|a| - 1 := Pair(key, e.after)])
  }

  /** Whenever the first key visited is present only in the latest
      dictionary (with a non-nil value), the Go code indexes position -1 of
      the still empty before list; {} against {7: 1} is one such input. */
  lemma DictSidesAsWrittenPanics(p: map<int, Value>, l: map<int, Value>, keys: seq<int>)
    requires |keys| > 0 && keys[0] !in p && keys[0] in l && l[keys[0]] != Nil
    ensures DictSidesAsWritten(p, l, keys, [], []) == None
  {
    assert DictElem(p, l, keys[0]) == CompareLeaf(Nil, l[keys[0]]);
  }

  /** Removing key 2 from {1: 1, 2: 2}, visiting key 1 first, overwrites the
      after pair of key 1 with (2, nil): key 1 disappears from after although
      it is unchanged, and the removed key 2 appears in it. */
  lemma DictSidesAsWrittenMisplaces()
    ensures DictSidesAsWritten(map[1 := Scalar(1), 2 := Scalar(2)], map[1 := Scalar(1)], [1, 2], [], [])
         == Some(([Pair(1, Scalar(1)), Pair(2, Scalar(2))], [Pair(2, Nil)]))
  {
    var p := map[1 := Scalar(1), 2 := Scalar(2)];
    var l := map[1 := Scalar(1)];
    assert !DictElem(p, l, 1).changed;
    assert DictElem(p, l, 2) == Delta(true, Scalar(2), Nil, None);
    assert [1, 2][1..] == [2];
    var b1: seq<Pair> := [Pair(1, Scalar(1))];
    assert [] + [Pair(1, p[1])] == b1;
    assert 1 in p && 1 in l;
    assert b1 + [Pair(2, p[2])] == [Pair(1, Scalar(1)), Pair(2, Scalar(2))];
    assert [2][1..] == [] && 2 !in l;
    assert [Pair(1, Scalar(1)), Pair(2, Scalar(2))][1 := Pair(2, Scalar(2))] == [Pair(1, Scalar(1)), Pair(2, Scalar(2))];
    assert b1[0 := Pair(2, Nil)] == [Pair(2, Nil)];
    assert DictSidesAsWritten(p, l, [1, 2], [], [])
        == DictSidesAsWritten(p, l, [2], [Pair(1, Scalar(1))], [Pair(1, Scalar(1))]);
    assert DictSidesAsWritten(p, l, [2], [Pair(1, Scalar(1))], [Pair(1, Scalar(1))])
        == DictSidesAsWritten(p, l, [], [Pair(1, Scalar(1)), Pair(2, Scalar(2))], [Pair(2, Nil)]);
  }

  /** The corrected bookkeeping (DictBefore, DictAfter): before holds exactly
      the previous keys and after exactly the latest keys, each changed key
      with the element's before or after; for a dictionary of leaves they are
      the previous and latest dictionaries themselves. */
  lemma DictSidesCorrected(p: map<int, Value>, l: map<int, Value>)
    ensures forall k :: k in DictBefore(p, l) <==> k in p
    ensures forall k :: k in DictAfter(p, l) <==> k in l
    ensures forall k :: k in p && DictElem(p, l, k).changed ==> DictBefore(p, l)[k] == DictElem(p, l, k).before
    ensures forall k :: k in l && DictElem(p, l, k).changed ==> DictAfter(p, l)[k] == DictElem(p, l, k).after
    ensures LeafValued(p) && LeafValued(l) ==> DictBefore(p, l) == p && DictAfter(p, l) == l
  {
    if LeafValued(p) && LeafValued(l) {
      forall k | k in p ensures DictBefore(p, l)[k] == p[k] {
        assert !IsComposite(p[k]);
        assert DictElem(p, l, k) == CompareLeaf(p[k], Lookup(l, k));
      }
      MapsEqual(DictBefore(p, l), p);
      forall k | k in l ensures DictAfter(p, l)[k] == l[k] {
        assert Lookup(l, k) == l[k];
        if k in p {
          assert !IsComposite(p[k]);
          assert DictElem(p, l, k) == CompareLeaf(p[k], l[k]);
        } else {
          assert DictElem(p, l, k) == CompareLeaf(Nil, l[k]);
        }
      }
      MapsEqual(DictAfter(p, l), l);
    }
  }
}
