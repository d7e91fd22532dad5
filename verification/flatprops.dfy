/**
 * Properties of the flat-list engine of linearize.go: what Diff reports for
 * removed, added and changed keys, that comparing a value with itself reports
 * nothing, how DiffArray treats a shrinking or growing array, what Merge keeps,
 * and what the flat mask loses.
 */
module FlatProperties {
  import Tree
  import opened FlatDiff

  // ---------------------------------------------------------------------
  // Comparing a value with itself
  // ---------------------------------------------------------------------

  /** compareValues reports no change between a value and itself. */
  lemma {:induction false} CompareSelf(v: Value)
    ensures Compare(v, v) == Unchanged
    decreases v, 2
  {
    if v.Keyed? {
      DiffKeyedSelf(v.kind, v.entries);
    } else if v.Array? {
      DiffArraySelf(v.items);
    }
  }

  /** Diff of a record or dictionary with itself reports nothing. */
  lemma {:induction false} DiffKeyedSelf(kind: Kind, p: map<int, Value>)
    ensures DiffKeyedSpec(kind, p, p) == KeyedDiff(map[], map[], multiset{})
    decreases Keyed(kind, p), 1
  {
    forall k | k in p.Keys + p.Keys
      ensures KeyMask(kind, p, p, k) == multiset{} && !Reported(kind, p, p, k)
    {
      CompareSelf(p[k]);
    }
    MaskSumEmpty(kind, p, p, p.Keys + p.Keys);
    var d := DiffKeyedSpec(kind, p, p);
    Tree.MapsEqual(d.before, map[]);
    Tree.MapsEqual(d.after, map[]);
  }

  /** Keys that contribute no mask entries sum to no mask entries. */
  lemma {:induction false} MaskSumEmpty(kind: Kind, p: map<int, Value>, l: map<int, Value>, keys: set<int>)
    requires forall k :: k in keys ==> KeyMask(kind, p, l, k) == multiset{}
    ensures MaskSum(kind, p, l, keys) == multiset{}
    decreases keys
  {
    if keys != {} {
      MaskSumEmpty(kind, p, l, keys - {Pick(keys)});
    }
  }

  /** DiffArray of an array with itself reports nothing. */
  lemma {:induction false} DiffArraySelf(p: seq<Value>)
    ensures DiffArraySpec(p, p) == ArrayDiff([], [], multiset{})
    decreases Array(p), 1
  {
    ArrayPrefixSelf(p, |p|);
  }

  /** Every prefix of DiffArray of an array with itself is empty. */
  lemma {:induction false} ArrayPrefixSelf(p: seq<Value>, n: nat)
    requires n <= |p|
    ensures ArrayPrefix(p, p, n) == ArrayDiff([], [], multiset{})
    decreases Array(p), 0, n
  {
    if n > 0 {
      ArrayPrefixSelf(p, n - 1);
      CompareSelf(p[n - 1]);
      ArrayPrefixStep(p, p, n - 1);
    }
  }

  // ---------------------------------------------------------------------
  // compareValues
  // ---------------------------------------------------------------------

  /** A reported change is a real difference between values of one type, it
      always brings mask entries, and an unreported one returns nothing. */
  lemma CompareChanged(a: Value, b: Value)
    ensures Compare(a, b).changed ==> SameType(a, b) && a != b
    ensures Compare(a, b).changed <==> |Compare(a, b).mask| > 0
    ensures !Compare(a, b).changed ==> Compare(a, b) == Unchanged
  {
    if a == b {
      CompareSelf(a);
    }
  }

  /** Leaves: values of different types (nil against a scalar among them) are
      unchanged; equal-typed leaves change when they differ, and the change
      carries both values and the single position 0. */
  lemma CompareLeaves(a: Value, b: Value)
    requires !a.Keyed? && !a.Array? && !b.Keyed? && !b.Array?
    ensures Compare(a, b).changed <==> a.Scalar? && b.Scalar? && a != b
    ensures Compare(a, b).changed ==> Compare(a, b) == Delta(true, a, b, multiset{0})
  {
  }

  /** A nested record, dictionary or array is changed exactly when its own
      diff has mask entries, and those entries are passed up as they are:
      the parent's position is not added. */
  lemma CompareNested(a: Value, b: Value)
    requires SameType(a, b) && (a.Keyed? || a.Array?)
    ensures a.Keyed? ==>
      var d := DiffKeyedSpec(a.kind, a.entries, b.entries);
      && (Compare(a, b).changed <==> |d.mask| > 0)
      && (Compare(a, b).changed ==> Compare(a, b) == Delta(true, Keyed(a.kind, d.before), Keyed(a.kind, d.after), d.mask))
    ensures a.Array? ==>
      var d := DiffArraySpec(a.items, b.items);
      && (Compare(a, b).changed <==> |d.mask| > 0)
      && (Compare(a, b).changed ==> Compare(a, b) == Delta(true, Array(d.before), Array(d.after), d.mask))
  {
  }

  // ---------------------------------------------------------------------
  // Diff and DiffMap
  // ---------------------------------------------------------------------

  /** What Diff reports for each key: a removed key is recorded with its old
      value, nil and its own position; an added key with nil, its new value and
      its own position; a key on both sides is recorded exactly when
      compareValues reports a change, and its entries are in the mask; a key
      on neither side is not recorded. */
  lemma DiffKey(kind: Kind, p: map<int, Value>, l: map<int, Value>, k: int)
    ensures var d := DiffKeyedSpec(kind, p, l);
      && (k in d.before <==> k in d.after)
      && (k in p && k !in l ==> k in d.before && d.before[k] == p[k] && d.after[k] == Nil && k in d.mask)
      && (k !in p && k in l ==> k in d.before && d.before[k] == Nil && d.after[k] == l[k] && k in d.mask)
      && (k in p && k in l ==>
            var c := Compare(p[k], l[k]);
            && (k in d.before <==> c.changed)
            && (c.changed ==> d.before[k] == c.before && d.after[k] == c.after)
            && c.mask <= d.mask)
      && (k !in p && k !in l ==> k !in d.before)
  {
    if k in p.Keys + l.Keys {
      MaskSumPick(kind, p, l, p.Keys + l.Keys, k);
      KeyCases(kind, p, l, k);
    }
  }

  /** The flat mask loses the path: a scalar that changes under key 1 is
      reported by the single position 0, and key 1 is not in the mask. */
  lemma FlatMaskLosesPath()
    ensures DiffKeyedSpec(ObjectKind, map[1 := Scalar(1)], map[1 := Scalar(2)])
         == KeyedDiff(map[1 := Scalar(1)], map[1 := Scalar(2)], multiset{0})
  {
    var p, l := map[1 := Scalar(1)], map[1 := Scalar(2)];
    Tree.SetsEqual(p.Keys + l.Keys, {1});
    assert Pick({1}) == 1;
    Tree.SetsEqual({1} - {1}, {});
    assert Compare(p[1], l[1]) == Delta(true, Scalar(1), Scalar(2), multiset{0});
    assert KeyMask(ObjectKind, p, l, 1) == multiset{0};
    var d := DiffKeyedSpec(ObjectKind, p, l);
    assert Reported(ObjectKind, p, l, 1);
    Tree.MapsEqual(d.before, p);
    Tree.MapsEqual(d.after, l);
  }

  // ---------------------------------------------------------------------
  // DiffArray
  // ---------------------------------------------------------------------

  /** An array that shrinks: the dropped elements come last in before, each
      facing nil in after. An array that grows: the new elements come last in
      after, with nothing added to before. */
  lemma ArrayEnds(p: seq<Value>, l: seq<Value>)
    ensures |l| <= |p| ==>
      var c, d := ArrayPrefix(p, l, |l|), DiffArraySpec(p, l);
      d.before == c.before + p[|l|..] && d.after == c.after + seq(|p| - |l|, _ => Nil)
    ensures |p| <= |l| ==>
      var c, d := ArrayPrefix(p, l, |p|), DiffArraySpec(p, l);
      d.before == c.before && d.after == c.after + l[|p|..]
  {
    if |l| <= |p| {
      ArrayShrinkBefore(p, l, |p|);
      ArrayShrinkAfter(p, l, |p|);
    } else {
      ArrayGrowTail(p, l, |l|);
    }
  }

  /** The shrinking steps of DiffArray, from index |l| up to `n`: the
      dropped elements extend before. */
  lemma {:induction false} ArrayShrinkBefore(p: seq<Value>, l: seq<Value>, n: nat)
    requires |l| <= n <= |p|
    ensures ArrayPrefix(p, l, n).before == ArrayPrefix(p, l, |l|).before + p[|l|..n]
  {
    if n > |l| {
      ArrayShrinkBefore(p, l, n - 1);
      ArrayStepRemoved(p, l, n - 1);
      AppendSlice(ArrayPrefix(p, l, |l|).before, p, |l|, n, ArrayPrefix(p, l, n - 1).before);
    }
  }

  /** The shrinking steps of DiffArray, from index |l| up to `n`: each
      extends after by a nil. */
  lemma {:induction false} ArrayShrinkAfter(p: seq<Value>, l: seq<Value>, n: nat)
    requires |l| <= n <= |p|
    ensures ArrayPrefix(p, l, n).after == ArrayPrefix(p, l, |l|).after + seq(n - |l|, _ => Nil)
  {
    if n > |l| {
      ArrayShrinkAfter(p, l, n - 1);
      ArrayStepRemoved(p, l, n - 1);
      AppendNil(ArrayPrefix(p, l, |l|).after, n - |l|, ArrayPrefix(p, l, n - 1).after);
    }
  }

  /** The growing steps of DiffArray, from index |p| up to `n`. */
  lemma {:induction false} ArrayGrowTail(p: seq<Value>, l: seq<Value>, n: nat)
    requires |p| <= n <= |l|
    ensures var c, d := ArrayPrefix(p, l, |p|), ArrayPrefix(p, l, n);
      d.before == c.before && d.after == c.after + l[|p|..n]
  {
    if n > |p| {
      ArrayGrowTail(p, l, n - 1);
      ArrayStepAdded(p, l, n - 1);
      var c, d := ArrayPrefix(p, l, |p|), ArrayPrefix(p, l, n - 1);
      AppendSlice(c.after, l, |p|, n, d.after);
    }
  }

  /** Extending a slice by its next element. */
  lemma AppendSlice(c: seq<Value>, s: seq<Value>, a: nat, n: nat, x: seq<Value>)
    requires a < n <= |s| && x == c + s[a..n - 1]
    ensures x + [s[n - 1]] == c + s[a..n]
  {
    assert s[a..n] == s[a..n - 1] + [s[n - 1]];
  }

  /** Extending a run of nils by one. */
  lemma AppendNil(c: seq<Value>, n: nat, x: seq<Value>)
    requires 0 < n && x == c + seq(n - 1, _ => Nil)
    ensures x + [Nil] == c + seq(n, _ => Nil)
  {
    assert seq(n, _ => Nil) == seq(n - 1, _ => Nil) + [Nil];
  }

  /** A step of DiffArray at an index past the end of `l`. */
  lemma ArrayStepRemoved(p: seq<Value>, l: seq<Value>, i: nat)
    requires |l| <= i < |p|
    ensures var d := ArrayPrefix(p, l, i);
      ArrayPrefix(p, l, i + 1) == ArrayDiff(d.before + [p[i]], d.after + [Nil], d.mask + multiset{i})
  {
  }

  /** A step of DiffArray at an index past the end of `p`. */
  lemma ArrayStepAdded(p: seq<Value>, l: seq<Value>, i: nat)
    requires |p| <= i < |l|
    ensures var d := ArrayPrefix(p, l, i);
      ArrayPrefix(p, l, i + 1) == ArrayDiff(d.before, d.after + [l[i]], d.mask + multiset{i})
  {
  }

  /** Every index of one array that the other lacks is in DiffArray's mask. */
  lemma ArrayEndsMasked(p: seq<Value>, l: seq<Value>, i: int)
    requires |l| <= i < |p| || |p| <= i < |l|
    ensures i in DiffArraySpec(p, l).mask
  {
    ArrayMaskGrows(p, l, i + 1, Tree.Max(|p|, |l|));
    if |l| <= i < |p| {
      ArrayStepRemoved(p, l, i);
    } else {
      ArrayStepAdded(p, l, i);
    }
  }

  /** DiffArray's mask only gains entries from step to step. */
  lemma {:induction false} ArrayMaskGrows(p: seq<Value>, l: seq<Value>, m: nat, n: nat)
    requires m <= n <= Tree.Max(|p|, |l|)
    ensures ArrayPrefix(p, l, m).mask <= ArrayPrefix(p, l, n).mask
    decreases n - m
  {
    if m < n {
      ArrayMaskGrows(p, l, m + 1, n);
      ArrayStepMask(p, l, m);
    }
  }

  /** One step of DiffArray keeps the mask entries it had. */
  lemma ArrayStepMask(p: seq<Value>, l: seq<Value>, m: nat)
    requires m < Tree.Max(|p|, |l|)
    ensures ArrayPrefix(p, l, m).mask <= ArrayPrefix(p, l, m + 1).mask
  {
    ArrayPrefixStep(p, l, m);
  }

  /** Before and after are compacted: an unchanged element leaves no slot, so
      a change at index 1 lands at index 0, and the mask holds position 0 of
      the leaf, not the index. */
  lemma ArrayPositionsShift()
    ensures DiffArraySpec([Scalar(1), Scalar(2)], [Scalar(1), Scalar(3)])
         == ArrayDiff([Scalar(2)], [Scalar(3)], multiset{0})
  {
    var p, l := [Scalar(1), Scalar(2)], [Scalar(1), Scalar(3)];
    ArrayPrefixStep(p, l, 0);
    ArrayPrefixStep(p, l, 1);
    assert Compare(p[0], l[0]) == Unchanged;
    assert Compare(p[1], l[1]) == Delta(true, Scalar(2), Scalar(3), multiset{0});
  }

  // ---------------------------------------------------------------------
  // Merge
  // ---------------------------------------------------------------------

  /** Merge deletes nothing: its keys are the masked keys and those of both
      records. Latest's value wins for every key it has, masked or not; a
      masked key that latest lacks becomes nil; the other keys of previous
      keep their value. */
  lemma MergeKeys(updateMask: seq<int>, previous: map<int, Value>, latest: map<int, Value>)
    ensures var m := MergeSpec(updateMask, previous, latest);
      && (forall k :: k in m <==> k in updateMask || k in latest || k in previous)
      && (forall k :: k in latest ==> m[k] == latest[k])
      && (forall k :: k in updateMask && k !in latest ==> m[k] == Nil)
      && (forall k :: k in previous && k !in latest && k !in updateMask ==> m[k] == previous[k])
  {
  }

  /** Diff then Merge: merging Diff's mask with `previous` and `latest` keeps
      every key of `latest` with its value, and turns every removed key into
      a key holding nil instead of deleting it. */
  lemma FlatDiffThenMerge(kind: Kind, previous: map<int, Value>, latest: map<int, Value>, mask: seq<int>)
    requires multiset(mask) == DiffKeyedSpec(kind, previous, latest).mask
    ensures var m := MergeSpec(mask, previous, latest);
      && (forall k :: k in latest ==> k in m && m[k] == latest[k])
      && (forall k :: k in previous && k !in latest ==> k in m && m[k] == Nil)
  {
    forall k | k in previous && k !in latest ensures k in mask {
      DiffKey(kind, previous, latest, k);
      assert k in multiset(mask);
    }
  }

  /** The flat mask of a changed scalar names position 0, so Diff then Merge
      adds a key 0 holding nil that neither record has. */
  lemma FlatMergeAddsZero()
    ensures MergeSpec([0], map[1 := Scalar(1)], map[1 := Scalar(2)]) == map[0 := Nil, 1 := Scalar(2)]
  {
    var m := MergeSpec([0], map[1 := Scalar(1)], map[1 := Scalar(2)]);
    Tree.MapsEqual(m, map[0 := Nil, 1 := Scalar(2)]);
  }
}
