/**
 * The mask-tree Diff engine: `Diff` compares two records field by field and
 * `compareValues` dispatches on the kind of the previous value (record,
 * slice, dictionary, or a leaf).
 *
 * The specification functions (`Compare`, `CompareRecords`, `CompareSlices`,
 * `CompareDicts`, `DiffSpec`) define the result key by key, independently of
 * the order in which Go ranges over a map; the methods (`CompareValues`,
 * `Diff`, ...) fill their maps in loops that pick the next key arbitrarily,
 * as Go's map iteration does, and are proved to compute the specification.
 */
module MaskDiff {
  import opened Tree

  /** The four results of compareValues: changed, nestedBefore, nestedAfter, nestedMask. */
  datatype Delta = Delta(changed: bool, before: Value, after: Value, mask: Option<UpdateMask>)

  /** The result of compareValues when it reports no change: (false, nil, nil, nil). */
  const Unchanged := Delta(false, Nil, Nil, None)

  /** The three results of Diff; a None stands for a nil map or a nil mask. */
  datatype DiffResult = DiffResult(
    before: Option<map<int, Value>>,
    after: Option<map<int, Value>>,
    mask: Option<UpdateMask>)

  // ---------------------------------------------------------------------
  // Specification
  // ---------------------------------------------------------------------

  /** The default branch of compareValues: a nil, scalar or pair-list previous value. */
  function CompareLeaf(prev: Value, latest: Value): Delta
  {
    if prev != latest then Delta(true, prev, latest, None) else Unchanged
  }

  /** compareValues: dispatch on the kind of `prev`; a composite meets a
      value of another kind only by falling out of the switch. */
  function Compare(prev: Value, latest: Value): Delta
    decreases prev, 3
  {
    match prev
    case Record(p) => if latest.Record? then CompareRecords(p, latest.fields) else Unchanged
    case Slice(p) => if latest.Slice? then CompareSlices(p, latest.items) else Unchanged
    case Dict(p) => if latest.Dict? then CompareDicts(p, latest.entries) else Unchanged
    case _ => CompareLeaf(prev, latest)
  }

  /** The mask entry a record key receives, if any (shared by Diff and the record branch). */
  function KeyOp(p: map<int, Value>, l: map<int, Value>, k: int): Option<MaskValue>
    decreases Record(p), 0
  {
    if k in p && k !in l then Some(MaskValue(REMOVE, None))
    else if k !in p && k in l then Some(MaskValue(ADD, None))
    else if k in p && k in l then
      var e := Compare(p[k], l[k]);
      if e.changed then Some(MaskValue(UPDATE, e.mask)) else None
    else None
  }

  /** The before side of a record key: the removed value, nil for an added
      key, the element's before when changed, the old value otherwise. */
  function KeyBefore(p: map<int, Value>, l: map<int, Value>, k: int): Value
    decreases Record(p), 0
  {
    if k !in p then Nil
    else if k !in l then p[k]
    else
      var e := Compare(p[k], l[k]);
      if e.changed then e.before else p[k]
  }

  /** The after side of a record key. */
  function KeyAfter(p: map<int, Value>, l: map<int, Value>, k: int): Value
    decreases Record(p), 0
  {
    if k !in l then Nil
    else if k !in p then l[k]
    else
      var e := Compare(p[k], l[k]);
      if e.changed then e.after else l[k]
  }

  /** The mask entries of a record comparison: one per key that received an op. */
  function RecordMasks(p: map<int, Value>, l: map<int, Value>): map<int, MaskValue>
    decreases Record(p), 1
  {
    map k | k in p.Keys + l.Keys && KeyOp(p, l, k).Some? :: KeyOp(p, l, k).value
  }

  /** The before side of a record comparison: every key of either side. */
  function RecordBefore(p: map<int, Value>, l: map<int, Value>): map<int, Value>
    decreases Record(p), 1
  {
    map k | k in p.Keys + l.Keys :: KeyBefore(p, l, k)
  }

  /** The after side of a record comparison: every key of either side. */
  function RecordAfter(p: map<int, Value>, l: map<int, Value>): map<int, Value>
    decreases Record(p), 1
  {
    map k | k in p.Keys + l.Keys :: KeyAfter(p, l, k)
  }

  /** The record branch of compareValues. */
  function CompareRecords(p: map<int, Value>, l: map<int, Value>): Delta
    decreases Record(p), 2
  {
    var masks := RecordMasks(p, l);
    Delta(masks != map[], Record(RecordBefore(p, l)), Record(RecordAfter(p, l)), Some(UpdateMask(masks)))
  }

  /** Go's `v[i]` on a slice of length |m|, read as nil past its end or at a
      missing position: the value a side contributes at position `i`. */
  function SliceAt(m: map<int, Value>, i: int): Value
  {
    if i < |m| then Lookup(m, i) else Nil
  }

  /** The comparison of position `i` in the slice branch; past the end of a
      side, or at a missing position, that side reads as nil. The previous
      side is matched on its entry so that the recursion is on a part of `p`. */
  function SliceElem(p: map<int, Value>, l: map<int, Value>, i: int): Delta
    decreases Slice(p), 0
  {
    var latestElem := SliceAt(l, i);
    if i < |p| && i in p then Compare(p[i], latestElem) else CompareLeaf(Nil, latestElem)
  }

  /** The mask entries of a slice comparison: UPDATE at every differing position. */
  function SliceMasks(p: map<int, Value>, l: map<int, Value>): map<int, MaskValue>
    decreases Slice(p), 1
  {
    map i | 0 <= i < Max(|p|, |l|) && SliceElem(p, l, i).changed :: MaskValue(UPDATE, SliceElem(p, l, i).mask)
  }

  /** The before side of a slice comparison: every position below the longer length. */
  function SliceBefore(p: map<int, Value>, l: map<int, Value>): map<int, Value>
    decreases Slice(p), 1
  {
    map i | 0 <= i < Max(|p|, |l|) :: SliceElem(p, l, i).before
  }

  /** The after side of a slice comparison: every position below the longer length. */
  function SliceAfter(p: map<int, Value>, l: map<int, Value>): map<int, Value>
    decreases Slice(p), 1
  {
    map i | 0 <= i < Max(|p|, |l|) :: SliceElem(p, l, i).after
  }

  /** The slice branch of compareValues. */
  function CompareSlices(p: map<int, Value>, l: map<int, Value>): Delta
    decreases Slice(p), 2
  {
    var masks := SliceMasks(p, l);
    Delta(masks != map[], Slice(SliceBefore(p, l)), Slice(SliceAfter(p, l)), Some(UpdateMask(masks)))
  }

  /** The comparison of key `k` in the dictionary branch; a missing side reads as nil. */
  function DictElem(p: map<int, Value>, l: map<int, Value>, k: int): Delta
    decreases Dict(p), 0
  {
    if k in p then Compare(p[k], Lookup(l, k)) else CompareLeaf(Nil, Lookup(l, k))
  }

  /** The dictionary keys whose comparison reports a change. */
  function DictChanged(p: map<int, Value>, l: map<int, Value>): set<int>
    decreases Dict(p), 1
  {
    set k | k in p.Keys + l.Keys && DictElem(p, l, k).changed
  }

  /** The mask entries of a dictionary comparison: only changed keys whose
      element comparison produced a nested mask get an entry. */
  function DictMasks(p: map<int, Value>, l: map<int, Value>): map<int, MaskValue>
    decreases Dict(p), 1
  {
    map k | k in p.Keys + l.Keys && DictElem(p, l, k).changed && DictElem(p, l, k).mask.Some?
      :: MaskValue(UPDATE, DictElem(p, l, k).mask)
  }

  /** The before side of a dictionary: every previous pair, with the element's
      before in place of the value when that key changed. */
  function DictBefore(p: map<int, Value>, l: map<int, Value>): map<int, Value>
    decreases Dict(p), 1
  {
    map k | k in p :: if DictElem(p, l, k).changed then DictElem(p, l, k).before else p[k]
  }

  /** The after side of a dictionary: every latest pair, with the element's
      after in place of the value when that key changed. */
  function DictAfter(p: map<int, Value>, l: map<int, Value>): map<int, Value>
    decreases Dict(p), 1
  {
    map k | k in l :: if DictElem(p, l, k).changed then DictElem(p, l, k).after else l[k]
  }

  /** The dictionary branch of compareValues. Its before and after sides are
      built as unnamed pair lists, not as LinearizedMap values. */
  function CompareDicts(p: map<int, Value>, l: map<int, Value>): Delta
    decreases Dict(p), 2
  {
    Delta(DictChanged(p, l) != {},
          Pairs(DictBefore(p, l)),
          Pairs(DictAfter(p, l)),
          Some(UpdateMask(DictMasks(p, l))))
  }

  /** The before map of Diff: the keys that received an op. */
  function TopBefore(previous: map<int, Value>, latest: map<int, Value>): map<int, Value>
  {
    map k | k in RecordMasks(previous, latest) :: KeyBefore(previous, latest, k)
  }

  /** The after map of Diff: the keys that received an op. */
  function TopAfter(previous: map<int, Value>, latest: map<int, Value>): map<int, Value>
  {
    map k | k in RecordMasks(previous, latest) :: KeyAfter(previous, latest, k)
  }

  /** Diff: before and after hold exactly the keys that received an op; all
      three results are nil when no key did. */
  function DiffSpec(previous: map<int, Value>, latest: map<int, Value>): DiffResult
  {
    var masks := RecordMasks(previous, latest);
    if masks == map[] then DiffResult(None, None, None)
    else DiffResult(Some(TopBefore(previous, latest)), Some(TopAfter(previous, latest)), Some(UpdateMask(masks)))
  }

  // ---------------------------------------------------------------------
  // Implementation
  // ---------------------------------------------------------------------


  /** compareValues. */
  method CompareValues(prevValue: Value, latestValue: Value)
    returns (changed: bool, nestedBefore: Value, nestedAfter: Value, nestedMask: Option<UpdateMask>)
    decreases prevValue, 3
    ensures Delta(changed, nestedBefore, nestedAfter, nestedMask) == Compare(prevValue, latestValue)
  {
    // the result when the switch finds nothing to compare
    changed, nestedBefore, nestedAfter, nestedMask := false, Nil, Nil, None;
    match prevValue
    case Record(prev) =>
      if latestValue.Record? {
        changed, nestedBefore, nestedAfter, nestedMask := CompareRecordValues(prev, latestValue.fields);
      }
    case Slice(prev) =>
      if latestValue.Slice? {
        changed, nestedBefore, nestedAfter, nestedMask := CompareSliceValues(prev, latestValue.items);
      }
    case Dict(prev) =>
      if latestValue.Dict? {
        changed, nestedBefore, nestedAfter, nestedMask := CompareDictValues(prev, latestValue.entries);
      }
    case _ =>
      if prevValue != latestValue {
        changed, nestedBefore, nestedAfter, nestedMask := true, prevValue, latestValue, None;
      }
  }

  /** The record branch of compareValues: two ranges, over the previous and the latest fields. */
  method CompareRecordValues(prev: map<int, Value>, latest: map<int, Value>)
    returns (changed: bool, nestedBefore: Value, nestedAfter: Value, nestedMask: Option<UpdateMask>)
    decreases Record(prev), 2
    ensures Delta(changed, nestedBefore, nestedAfter, nestedMask) == CompareRecords(prev, latest)
  {
    var before: map<int, Value> := map[];
    var after: map<int, Value> := map[];
    var masks: map<int, MaskValue> := map[];
    changed := false;
    ghost var done: set<int> := {};
    OnNothing(prev, latest);
    var todo := prev.Keys;
    while todo != {}
      invariant todo <= prev.Keys
      invariant forall k :: k in done <==> k in prev && k !in todo
      invariant masks == MasksOn(prev, latest, done)
      invariant before == BeforeOn(prev, latest, done) && after == AfterOn(prev, latest, done)
      invariant changed <==> masks != map[]
      decreases todo
    {
      HasKey(todo);
      var key :| key in todo;
      OnStep(prev, latest, done, key);
      KeyCases(prev, latest, key);
      var prevVal := prev[key];
      if key !in latest {
        before := before[key := prevVal];
        after := after[key := Nil];
        masks := masks[key := MaskValue(REMOVE, None)];
        assert key in masks;
        changed := true;
      } else {
        var latestVal := latest[key];
        var elemChanged, elemBefore, elemAfter, elemMask := CompareValues(prevVal, latestVal);
        if elemChanged {
          before := before[key := elemBefore];
          after := after[key := elemAfter];
          changed := true;
          masks := masks[key := MaskValue(UPDATE, elemMask)];
          assert key in masks;
        } else {
          before := before[key := prevVal];
          after := after[key := latestVal];
        }
      }
      done := done + {key};
      todo := todo - {key};
    }
    todo := latest.Keys;
    while todo != {}
      invariant todo <= latest.Keys
      invariant forall k :: k in done <==> k in prev || (k in latest && k !in todo)
      invariant masks == MasksOn(prev, latest, done)
      invariant before == BeforeOn(prev, latest, done) && after == AfterOn(prev, latest, done)
      invariant changed <==> masks != map[]
      decreases todo
    {
      HasKey(todo);
      var key :| key in todo;
      if key !in prev {
        OnStep(prev, latest, done, key);
        KeyCases(prev, latest, key);
        before := before[key := Nil];
        after := after[key := latest[key]];
        masks := masks[key := MaskValue(ADD, None)];
        assert key in masks;
        changed := true;
        done := done + {key};
      }
      todo := todo - {key};
    }
    OnEverything(prev, latest, done);
    nestedBefore, nestedAfter, nestedMask := Record(before), Record(after), Some(UpdateMask(masks));
  }

  /** The mask entries of the record keys in `done`. */
  function MasksOn(p: map<int, Value>, l: map<int, Value>, done: set<int>): map<int, MaskValue>
  {
    map k | k in done && KeyOp(p, l, k).Some? :: KeyOp(p, l, k).value
  }

  /** The before sides of the record keys in `done`. */
  function BeforeOn(p: map<int, Value>, l: map<int, Value>, done: set<int>): map<int, Value>
  {
    map k | k in done :: KeyBefore(p, l, k)
  }

  /** The after sides of the record keys in `done`. */
  function AfterOn(p: map<int, Value>, l: map<int, Value>, done: set<int>): map<int, Value>
  {
    map k | k in done :: KeyAfter(p, l, k)
  }

  /** No key visited yet. */
  lemma OnNothing(p: map<int, Value>, l: map<int, Value>)
    ensures MasksOn(p, l, {}) == map[] && BeforeOn(p, l, {}) == map[] && AfterOn(p, l, {}) == map[]
  {
    MapsEqual(MasksOn(p, l, {}), map[]);
    MapsEqual(BeforeOn(p, l, {}), map[]);
    MapsEqual(AfterOn(p, l, {}), map[]);
  }

  /** Visiting one more key records its before and after sides and, when it
      receives an op, its mask entry. */
  lemma OnStep(p: map<int, Value>, l: map<int, Value>, done: set<int>, key: int)
    ensures MasksOn(p, l, done + {key}) ==
      if KeyOp(p, l, key).Some? then MasksOn(p, l, done)[key := KeyOp(p, l, key).value] else MasksOn(p, l, done)
    ensures BeforeOn(p, l, done + {key}) == BeforeOn(p, l, done)[key := KeyBefore(p, l, key)]
    ensures AfterOn(p, l, done + {key}) == AfterOn(p, l, done)[key := KeyAfter(p, l, key)]
  {
    MasksStep(p, l, done, key);
    MapsEqual(BeforeOn(p, l, done + {key}), BeforeOn(p, l, done)[key := KeyBefore(p, l, key)]);
    MapsEqual(AfterOn(p, l, done + {key}), AfterOn(p, l, done)[key := KeyAfter(p, l, key)]);
  }

  /** The mask half of OnStep. */
  lemma MasksStep(p: map<int, Value>, l: map<int, Value>, done: set<int>, key: int)
    ensures MasksOn(p, l, done + {key}) ==
      if KeyOp(p, l, key).Some? then MasksOn(p, l, done)[key := KeyOp(p, l, key).value] else MasksOn(p, l, done)
  {
    var m := MasksOn(p, l, done);
    MapsEqual(MasksOn(p, l, done + {key}), if KeyOp(p, l, key).Some? then m[key := KeyOp(p, l, key).value] else m);
  }

  /** Every key of both records visited: the record branch's results. */
  lemma OnEverything(p: map<int, Value>, l: map<int, Value>, done: set<int>)
    requires forall k :: k in done <==> k in p || k in l
    ensures MasksOn(p, l, done) == RecordMasks(p, l)
    ensures BeforeOn(p, l, done) == RecordBefore(p, l)
    ensures AfterOn(p, l, done) == RecordAfter(p, l)
  {
    SetsEqual(done, p.Keys + l.Keys);
    MapsEqual(MasksOn(p, l, done), RecordMasks(p, l));
    MapsEqual(BeforeOn(p, l, done), RecordBefore(p, l));
    MapsEqual(AfterOn(p, l, done), RecordAfter(p, l));
  }

  /** What one record key receives: a removed key REMOVE, its old value and
      nil; an added key ADD, nil and its new value; a key on both sides an
      UPDATE with the element's mask when compareValues reports a change, and
      otherwise no op and its two values. */
  lemma KeyCases(p: map<int, Value>, l: map<int, Value>, k: int)
    ensures k in p && k !in l ==>
      KeyOp(p, l, k) == Some(MaskValue(REMOVE, None)) && KeyBefore(p, l, k) == p[k] && KeyAfter(p, l, k) == Nil
    ensures k !in p && k in l ==>
      KeyOp(p, l, k) == Some(MaskValue(ADD, None)) && KeyBefore(p, l, k) == Nil && KeyAfter(p, l, k) == l[k]
    ensures k in p && k in l ==>
      var e := Compare(p[k], l[k]);
      && KeyOp(p, l, k) == (if e.changed then Some(MaskValue(UPDATE, e.mask)) else None)
      && KeyBefore(p, l, k) == (if e.changed then e.before else p[k])
      && KeyAfter(p, l, k) == (if e.changed then e.after else l[k])
  {
  }

  /** The slice branch of compareValues: one pass over every position below the longer length. */
  method CompareSliceValues(prev: map<int, Value>, latest: map<int, Value>)
    returns (changed: bool, nestedBefore: Value, nestedAfter: Value, nestedMask: Option<UpdateMask>)
    decreases Slice(prev), 2
    ensures Delta(changed, nestedBefore, nestedAfter, nestedMask) == CompareSlices(prev, latest)
  {
    var maxLen := Max(|prev|, |latest|);
    var mergedBefore: map<int, Value> := map[];
    var mergedAfter: map<int, Value> := map[];
    var masks: map<int, MaskValue> := map[];
    changed := false;
    SliceUpTo(prev, latest, 0);
    var i := 0;
    while i < maxLen
      invariant 0 <= i <= maxLen
      invariant masks == SliceMasksUpTo(prev, latest, i)
      invariant mergedBefore == SliceBeforeUpTo(prev, latest, i) && mergedAfter == SliceAfterUpTo(prev, latest, i)
      invariant changed <==> masks != map[]
    {
      SliceStep(prev, latest, i);
      var elem := CompareSliceElem(prev, latest, i);
      mergedBefore := mergedBefore[i := elem.before];
      mergedAfter := mergedAfter[i := elem.after];
      if elem.changed {
        changed := true;
        masks := masks[i := MaskValue(UPDATE, elem.mask)];
        assert i in masks;
      }
      i := i + 1;
    }
    SliceUpTo(prev, latest, maxLen);
    nestedBefore, nestedAfter, nestedMask := Slice(mergedBefore), Slice(mergedAfter), Some(UpdateMask(masks));
  }

  /** One position of the slice loop: the element of `prev` (nil past its end)
      compared with the element of `latest` (nil past its end). */
  method CompareSliceElem(prev: map<int, Value>, latest: map<int, Value>, i: int) returns (elem: Delta)
    decreases Slice(prev), 1
    ensures elem == SliceElem(prev, latest, i)
  {
    var latestElem := SliceAt(latest, i);
    if i < |prev| && i in prev {
      var elemChanged, elemBefore, elemAfter, elemMask := CompareValues(prev[i], latestElem);
      elem := Delta(elemChanged, elemBefore, elemAfter, elemMask);
    } else {
      // the previous element is nil: compareValues takes its default branch
      elem := CompareLeaf(Nil, latestElem);
    }
  }

  /** The mask entries of the slice positions below `n`. */
  function SliceMasksUpTo(p: map<int, Value>, l: map<int, Value>, n: int): map<int, MaskValue>
  {
    map i | 0 <= i < n && SliceElem(p, l, i).changed :: MaskValue(UPDATE, SliceElem(p, l, i).mask)
  }

  /** The before sides of the slice positions below `n`. */
  function SliceBeforeUpTo(p: map<int, Value>, l: map<int, Value>, n: int): map<int, Value>
  {
    map i | 0 <= i < n :: SliceElem(p, l, i).before
  }

  /** The after sides of the slice positions below `n`. */
  function SliceAfterUpTo(p: map<int, Value>, l: map<int, Value>, n: int): map<int, Value>
  {
    map i | 0 <= i < n :: SliceElem(p, l, i).after
  }

  /** No position visited, and every position visited. */
  lemma SliceUpTo(p: map<int, Value>, l: map<int, Value>, n: int)
    requires n == 0 || n == Max(|p|, |l|)
    ensures n == 0 ==>
      SliceMasksUpTo(p, l, n) == map[] && SliceBeforeUpTo(p, l, n) == map[] && SliceAfterUpTo(p, l, n) == map[]
    ensures n == Max(|p|, |l|) ==>
      && SliceMasksUpTo(p, l, n) == SliceMasks(p, l)
      && SliceBeforeUpTo(p, l, n) == SliceBefore(p, l)
      && SliceAfterUpTo(p, l, n) == SliceAfter(p, l)
  {
    if n == 0 {
      MapsEqual(SliceMasksUpTo(p, l, n), map[]);
      MapsEqual(SliceBeforeUpTo(p, l, n), map[]);
      MapsEqual(SliceAfterUpTo(p, l, n), map[]);
    }
    if n == Max(|p|, |l|) {
      MapsEqual(SliceMasksUpTo(p, l, n), SliceMasks(p, l));
      MapsEqual(SliceBeforeUpTo(p, l, n), SliceBefore(p, l));
      MapsEqual(SliceAfterUpTo(p, l, n), SliceAfter(p, l));
    }
  }

  /** Visiting position `i` records its sides and, when it changed, its mask entry. */
  lemma SliceStep(p: map<int, Value>, l: map<int, Value>, i: int)
    requires 0 <= i
    ensures var e := SliceElem(p, l, i);
      && SliceMasksUpTo(p, l, i + 1) ==
           (if e.changed then SliceMasksUpTo(p, l, i)[i := MaskValue(UPDATE, e.mask)] else SliceMasksUpTo(p, l, i))
      && SliceBeforeUpTo(p, l, i + 1) == SliceBeforeUpTo(p, l, i)[i := e.before]
      && SliceAfterUpTo(p, l, i + 1) == SliceAfterUpTo(p, l, i)[i := e.after]
  {
    var e := SliceElem(p, l, i);
    var m := SliceMasksUpTo(p, l, i);
    MapsEqual(SliceMasksUpTo(p, l, i + 1), if e.changed then m[i := MaskValue(UPDATE, e.mask)] else m);
    MapsEqual(SliceBeforeUpTo(p, l, i + 1), SliceBeforeUpTo(p, l, i)[i := e.before]);
    MapsEqual(SliceAfterUpTo(p, l, i + 1), SliceAfterUpTo(p, l, i)[i := e.after]);
  }

  /** The dictionary branch of compareValues: one pass over the union of both key sets. */
  method CompareDictValues(prev: map<int, Value>, latest: map<int, Value>)
    returns (changed: bool, nestedBefore: Value, nestedAfter: Value, nestedMask: Option<UpdateMask>)
    decreases Dict(prev), 2
    ensures Delta(changed, nestedBefore, nestedAfter, nestedMask) == CompareDicts(prev, latest)
  {
    // the set of keys of both sides
    var keySet := prev.Keys + latest.Keys;
    var mergedBefore: map<int, Value> := map[];
    var mergedAfter: map<int, Value> := map[];
    var masks: map<int, MaskValue> := map[];
    changed := false;
    ghost var done: set<int> := {};
    DictNothing(prev, latest);
    var todo := keySet;
    while todo != {}
      invariant todo <= keySet
      invariant forall k :: k in done <==> k in keySet && k !in todo
      invariant mergedBefore == DictBeforeOn(prev, latest, done) && mergedAfter == DictAfterOn(prev, latest, done)
      invariant masks == DictMasksOn(prev, latest, done)
      invariant changed ==> DictChanged(prev, latest) != {}
      invariant !changed ==> forall k :: k in done ==> k !in DictChanged(prev, latest)
      decreases todo
    {
      HasKey(todo);
      var key :| key in todo;
      DictStep(prev, latest, done, key);
      var elem := CompareDictElem(prev, latest, key);
      if key in prev {
        mergedBefore := mergedBefore[key := if elem.changed then elem.before else prev[key]];
      }
      if key in latest {
        mergedAfter := mergedAfter[key := if elem.changed then elem.after else latest[key]];
      }
      if elem.changed {
        assert key in DictChanged(prev, latest);
        changed := true;
        if elem.mask.Some? {
          masks := masks[key := MaskValue(UPDATE, elem.mask)];
        }
      }
      todo := todo - {key};
      done := done + {key};
    }
    DictEverything(prev, latest, done);
    if !changed && DictChanged(prev, latest) != {} {
      HasKey(DictChanged(prev, latest));
      assert false;
    }
    nestedBefore, nestedAfter, nestedMask := Pairs(mergedBefore), Pairs(mergedAfter), Some(UpdateMask(masks));
  }

  /** One key of the dictionary loop: the previous value (nil when the key is
      new) compared with the latest value (nil when the key is gone). */
  method CompareDictElem(prev: map<int, Value>, latest: map<int, Value>, key: int) returns (elem: Delta)
    decreases Dict(prev), 1
    ensures elem == DictElem(prev, latest, key)
  {
    var latestVal := Lookup(latest, key);
    if key in prev {
      var elemChanged, elemBefore, elemAfter, elemMask := CompareValues(prev[key], latestVal);
      elem := Delta(elemChanged, elemBefore, elemAfter, elemMask);
    } else {
      // no previous pair: compareValues(nil, latestVal) takes its default branch
      elem := CompareLeaf(Nil, latestVal);
    }
  }

  /** The before side of the dictionary keys in `done`. */
  function DictBeforeOn(p: map<int, Value>, l: map<int, Value>, done: set<int>): map<int, Value>
  {
    map k | k in done && k in p :: if DictElem(p, l, k).changed then DictElem(p, l, k).before else p[k]
  }

  /** The after side of the dictionary keys in `done`. */
  function DictAfterOn(p: map<int, Value>, l: map<int, Value>, done: set<int>): map<int, Value>
  {
    map k | k in done && k in l :: if DictElem(p, l, k).changed then DictElem(p, l, k).after else l[k]
  }

  /** The mask entries of the dictionary keys in `done`. */
  function DictMasksOn(p: map<int, Value>, l: map<int, Value>, done: set<int>): map<int, MaskValue>
  {
    map k | k in done && DictElem(p, l, k).changed && DictElem(p, l, k).mask.Some?
      :: MaskValue(UPDATE, DictElem(p, l, k).mask)
  }

  /** No dictionary key visited. */
  lemma DictNothing(p: map<int, Value>, l: map<int, Value>)
    ensures DictBeforeOn(p, l, {}) == map[] && DictAfterOn(p, l, {}) == map[] && DictMasksOn(p, l, {}) == map[]
  {
    MapsEqual(DictBeforeOn(p, l, {}), map[]);
    MapsEqual(DictAfterOn(p, l, {}), map[]);
    MapsEqual(DictMasksOn(p, l, {}), map[]);
  }

  /** Visiting one more dictionary key. */
  lemma DictStep(p: map<int, Value>, l: map<int, Value>, done: set<int>, key: int)
    ensures var e := DictElem(p, l, key);
      && DictBeforeOn(p, l, done + {key}) ==
           (if key in p then DictBeforeOn(p, l, done)[key := if e.changed then e.before else p[key]]
            else DictBeforeOn(p, l, done))
      && DictAfterOn(p, l, done + {key}) ==
           (if key in l then DictAfterOn(p, l, done)[key := if e.changed then e.after else l[key]]
            else DictAfterOn(p, l, done))
      && DictMasksOn(p, l, done + {key}) ==
           (if e.changed && e.mask.Some? then DictMasksOn(p, l, done)[key := MaskValue(UPDATE, e.mask)]
            else DictMasksOn(p, l, done))
  {
    var e := DictElem(p, l, key);
    var b, a, m := DictBeforeOn(p, l, done), DictAfterOn(p, l, done), DictMasksOn(p, l, done);
    MapsEqual(DictBeforeOn(p, l, done + {key}), if key in p then b[key := if e.changed then e.before else p[key]] else b);
    MapsEqual(DictAfterOn(p, l, done + {key}), if key in l then a[key := if e.changed then e.after else l[key]] else a);
    MapsEqual(DictMasksOn(p, l, done + {key}), if e.changed && e.mask.Some? then m[key := MaskValue(UPDATE, e.mask)] else m);
  }

  /** Every key of both dictionaries visited: the dictionary branch's results. */
  lemma DictEverything(p: map<int, Value>, l: map<int, Value>, done: set<int>)
    requires forall k :: k in done <==> k in p.Keys + l.Keys
    ensures DictBeforeOn(p, l, done) == DictBefore(p, l)
    ensures DictAfterOn(p, l, done) == DictAfter(p, l)
    ensures DictMasksOn(p, l, done) == DictMasks(p, l)
  {
    MapsEqual(DictBeforeOn(p, l, done), DictBefore(p, l));
    MapsEqual(DictAfterOn(p, l, done), DictAfter(p, l));
    MapsEqual(DictMasksOn(p, l, done), DictMasks(p, l));
  }

  /** Diff: removed and changed keys from a range over `previous`, added
      keys from a range over `latest`; nil results when no key changed. */
  method Diff(previous: map<int, Value>, latest: map<int, Value>)
    returns (before: Option<map<int, Value>>, after: Option<map<int, Value>>, mask: Option<UpdateMask>)
    ensures DiffResult(before, after, mask) == DiffSpec(previous, latest)
  {
    var b: map<int, Value> := map[];
    var a: map<int, Value> := map[];
    var masks: map<int, MaskValue> := map[];
    ghost var done: set<int> := {};
    OnNothing(previous, latest);
    TopNothing(previous, latest);
    var todo := previous.Keys;
    while todo != {}
      invariant todo <= previous.Keys
      invariant forall k :: k in done <==> k in previous && k !in todo
      invariant masks == MasksOn(previous, latest, done)
      invariant b == TopBeforeOn(previous, latest, done) && a == TopAfterOn(previous, latest, done)
      decreases todo
    {
      HasKey(todo);
      var key :| key in todo;
      MasksStep(previous, latest, done, key);
      TopStep(previous, latest, done, key);
      KeyCases(previous, latest, key);
      var prevValue := previous[key];
      if key !in latest {
        b := b[key := prevValue];
        a := a[key := Nil];
        masks := masks[key := MaskValue(REMOVE, None)];
      } else {
        var changed, nestedBefore, nestedAfter, nestedMask := CompareValues(prevValue, latest[key]);
        if changed {
          b := b[key := nestedBefore];
          a := a[key := nestedAfter];
          masks := masks[key := MaskValue(UPDATE, nestedMask)];
        }
      }
      done := done + {key};
      todo := todo - {key};
    }
    todo := latest.Keys;
    while todo != {}
      invariant todo <= latest.Keys
      invariant forall k :: k in done <==> k in previous || (k in latest && k !in todo)
      invariant masks == MasksOn(previous, latest, done)
      invariant b == TopBeforeOn(previous, latest, done) && a == TopAfterOn(previous, latest, done)
      decreases todo
    {
      HasKey(todo);
      var key :| key in todo;
      if key !in previous {
        MasksStep(previous, latest, done, key);
        TopStep(previous, latest, done, key);
        KeyCases(previous, latest, key);
        b := b[key := Nil];
        a := a[key := latest[key]];
        masks := masks[key := MaskValue(ADD, None)];
        done := done + {key};
      }
      todo := todo - {key};
    }
    OnEverything(previous, latest, done);
    TopEverything(previous, latest, done);
    if |masks| > 0 {
      return Some(b), Some(a), Some(UpdateMask(masks));
    }
    return None, None, None;
  }

  /** Diff's before map over the keys in `done`: those that received an op. */
  function TopBeforeOn(p: map<int, Value>, l: map<int, Value>, done: set<int>): map<int, Value>
  {
    map k | k in done && KeyOp(p, l, k).Some? :: KeyBefore(p, l, k)
  }

  /** Diff's after map over the keys in `done`. */
  function TopAfterOn(p: map<int, Value>, l: map<int, Value>, done: set<int>): map<int, Value>
  {
    map k | k in done && KeyOp(p, l, k).Some? :: KeyAfter(p, l, k)
  }

  /** No key visited yet. */
  lemma TopNothing(p: map<int, Value>, l: map<int, Value>)
    ensures TopBeforeOn(p, l, {}) == map[] && TopAfterOn(p, l, {}) == map[]
  {
    MapsEqual(TopBeforeOn(p, l, {}), map[]);
    MapsEqual(TopAfterOn(p, l, {}), map[]);
  }

  /** Visiting one more key records its sides when it receives an op. */
  lemma TopStep(p: map<int, Value>, l: map<int, Value>, done: set<int>, key: int)
    ensures TopBeforeOn(p, l, done + {key}) ==
      if KeyOp(p, l, key).Some? then TopBeforeOn(p, l, done)[key := KeyBefore(p, l, key)] else TopBeforeOn(p, l, done)
    ensures TopAfterOn(p, l, done + {key}) ==
      if KeyOp(p, l, key).Some? then TopAfterOn(p, l, done)[key := KeyAfter(p, l, key)] else TopAfterOn(p, l, done)
  {
    var b, a := TopBeforeOn(p, l, done), TopAfterOn(p, l, done);
    MapsEqual(TopBeforeOn(p, l, done + {key}), if KeyOp(p, l, key).Some? then b[key := KeyBefore(p, l, key)] else b);
    MapsEqual(TopAfterOn(p, l, done + {key}), if KeyOp(p, l, key).Some? then a[key := KeyAfter(p, l, key)] else a);
  }

  /** Every key of both records visited: Diff's before and after maps. */
  lemma TopEverything(p: map<int, Value>, l: map<int, Value>, done: set<int>)
    requires forall k :: k in done <==> k in p || k in l
    ensures TopBeforeOn(p, l, done) == TopBefore(p, l) && TopAfterOn(p, l, done) == TopAfter(p, l)
  {
    SetsEqual(done, p.Keys + l.Keys);
    MapsEqual(TopBeforeOn(p, l, done), TopBefore(p, l));
    MapsEqual(TopAfterOn(p, l, done), TopAfter(p, l));
  }
}
