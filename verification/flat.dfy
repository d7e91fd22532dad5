/**
 * The older flat-list engine of linearize.go: `Diff`, `DiffArray` and
 * `DiffMap` compare two trees and return before and after values with a flat
 * list of `Single(position)` mask entries; `Merge` builds a fresh record from
 * such a list.
 *
 * Go ranges over a map in no fixed order, so the order of the mask list
 * depends on it; the specification gives the mask as a multiset and the
 * methods, which pick each next key arbitrarily, return a sequence whose
 * multiset it is.
 */
module FlatDiff {
  import Tree

  /** The two Go map types of this engine: LinearizedObject (a record) and
      LinearizedMap (a dictionary). They are compared alike and differ only
      in their dynamic type. */
  datatype Kind = ObjectKind | MapKind

  /**
   * A linearized value of this engine.
   *  - `Nil` is Go's nil; `Scalar` is a leaf compared by equality.
   *  - `Keyed(kind, entries)` is a LinearizedObject or a LinearizedMap; keys
   *    are integers.
   *  - `Array` is a LinearizedArray.
   */
  datatype Value =
    | Nil
    | Scalar(v: int)
    | Keyed(kind: Kind, entries: map<int, Value>)
    | Array(items: seq<Value>)

  /** `reflect.TypeOf(a) == reflect.TypeOf(b)`. */
  predicate SameType(a: Value, b: Value)
  {
    (a.Nil? && b.Nil?) || (a.Scalar? && b.Scalar?) || (a.Array? && b.Array?) ||
    (a.Keyed? && b.Keyed? && a.kind == b.kind)
  }

  /** Go's `m[k]`: nil when the key is missing. */
  function Lookup(m: map<int, Value>, k: int): Value
  {
    if k in m then m[k] else Nil
  }

  /** The four results of compareValues; the mask as a multiset of positions. */
  datatype Delta = Delta(changed: bool, before: Value, after: Value, mask: multiset<int>)

  /** compareValues' `false, nil, nil, nil`. */
  const Unchanged := Delta(false, Nil, Nil, multiset{})

  /** The results of Diff and DiffMap. */
  datatype KeyedDiff = KeyedDiff(before: map<int, Value>, after: map<int, Value>, mask: multiset<int>)

  /** The results of DiffArray. */
  datatype ArrayDiff = ArrayDiff(before: seq<Value>, after: seq<Value>, mask: multiset<int>)

  // ---------------------------------------------------------------------
  // Specification
  // ---------------------------------------------------------------------

  /** Some element of a non-empty key set. */
  ghost function Pick(s: set<int>): (k: int)
    requires s != {}
    ensures k in s
  {
    Tree.HasKey(s);
    var k :| k in s; k
  }

  /** compareValues: values of different dynamic types count as unchanged;
      a composite is changed exactly when its sub-diff has mask entries,
      which it passes up as they are; a leaf is changed when it differs and
      then contributes the single position 0. */
  ghost function Compare(prev: Value, latest: Value): Delta
    decreases prev, 3
  {
    if !SameType(prev, latest) then Unchanged
    else match prev
      case Keyed(kind, p) =>
        var d := DiffKeyedSpec(kind, p, latest.entries);
        if |d.mask| > 0 then Delta(true, Keyed(kind, d.before), Keyed(kind, d.after), d.mask) else Unchanged
      case Array(p) =>
        var d := DiffArraySpec(p, latest.items);
        if |d.mask| > 0 then Delta(true, Array(d.before), Array(d.after), d.mask) else Unchanged
      case _ =>
        if prev != latest then Delta(true, prev, latest, multiset{0}) else Unchanged
  }

  /** True when key `k` is reported by Diff: removed, added, or changed. */
  ghost predicate Reported(kind: Kind, p: map<int, Value>, l: map<int, Value>, k: int)
    decreases Keyed(kind, p), 0
  {
    (k in p && k !in l) || (k !in p && k in l) || (k in p && k in l && Compare(p[k], l[k]).changed)
  }

  /** The before value Diff records for a reported key. */
  ghost function KeyBefore(kind: Kind, p: map<int, Value>, l: map<int, Value>, k: int): Value
    decreases Keyed(kind, p), 0
  {
    if k !in p then Nil
    else if k !in l then p[k]
    else Compare(p[k], l[k]).before
  }

  /** The after value Diff records for a reported key. */
  ghost function KeyAfter(kind: Kind, p: map<int, Value>, l: map<int, Value>, k: int): Value
    decreases Keyed(kind, p), 0
  {
    if k !in l then Nil
    else if k !in p then l[k]
    else Compare(p[k], l[k]).after
  }

  /** The mask entries key `k` contributes: its own position when it is
      removed or added, the element's entries when it is in both. */
  ghost function KeyMask(kind: Kind, p: map<int, Value>, l: map<int, Value>, k: int): multiset<int>
    decreases Keyed(kind, p), 0
  {
    if (k in p) != (k in l) then multiset{k}
    else if k in p then Compare(p[k], l[k]).mask
    else multiset{}
  }

  /** The mask entries the keys of `keys` contribute, in any order. */
  ghost function MaskSum(kind: Kind, p: map<int, Value>, l: map<int, Value>, keys: set<int>): multiset<int>
    decreases Keyed(kind, p), 1, keys
  {
    if keys == {} then multiset{}
    else
      var k := Pick(keys);
      KeyMask(kind, p, l, k) + MaskSum(kind, p, l, keys - {k})
  }

  /** Diff and DiffMap: the reported keys with their before and after values,
      and the mask entries of every key. */
  ghost function DiffKeyedSpec(kind: Kind, p: map<int, Value>, l: map<int, Value>): KeyedDiff
    decreases Keyed(kind, p), 2
  {
    KeyedDiff(
      map k | k in p.Keys + l.Keys && Reported(kind, p, l, k) :: KeyBefore(kind, p, l, k),
      map k | k in p.Keys + l.Keys && Reported(kind, p, l, k) :: KeyAfter(kind, p, l, k),
      MaskSum(kind, p, l, p.Keys + l.Keys))
  }

  /** DiffArray after its first `n` steps, counting the steps of both loops
      by index. An index of `p` past the end of `l` appends the old element,
      nil and its index; an index of both whose elements differ appends
      compareValues' before, after and mask entries, and one whose elements
      agree nothing; an index of `l` past the end of `p` appends the new
      element to after and its index to the mask. */
  ghost function ArrayPrefix(p: seq<Value>, l: seq<Value>, n: nat): ArrayDiff
    requires n <= Tree.Max(|p|, |l|)
    decreases Array(p), 1, n
  {
    if n == 0 then ArrayDiff([], [], multiset{})
    else
      var d := ArrayPrefix(p, l, n - 1);
      var i := n - 1;
      if |p| <= i then ArrayDiff(d.before, d.after + [l[i]], d.mask + multiset{i})
      else if |l| <= i then ArrayDiff(d.before + [p[i]], d.after + [Nil], d.mask + multiset{i})
      else
        var e := Compare(p[i], l[i]);
        if e.changed then ArrayDiff(d.before + [e.before], d.after + [e.after], d.mask + e.mask) else d
  }

  /** DiffArray: every index of either array, in order. */
  ghost function DiffArraySpec(p: seq<Value>, l: seq<Value>): ArrayDiff
    decreases Array(p), 2
  {
    ArrayPrefix(p, l, Tree.Max(|p|, |l|))
  }

  /** Merge: masked keys take latest's value (nil when latest lacks the key),
      then the other keys of latest, then the other keys of previous. */
  function MergeSpec(updateMask: seq<int>, previous: map<int, Value>, latest: map<int, Value>): map<int, Value>
  {
    map k | k in (set i | i in updateMask) + latest.Keys + previous.Keys
      :: if k in updateMask then Lookup(latest, k) else if k in latest then latest[k] else previous[k]
  }

  /** Summing the mask entries of a key set may start with any of its keys. */
  lemma {:induction false} MaskSumPick(kind: Kind, p: map<int, Value>, l: map<int, Value>, keys: set<int>, k: int)
    requires k in keys
    ensures MaskSum(kind, p, l, keys) == KeyMask(kind, p, l, k) + MaskSum(kind, p, l, keys - {k})
    decreases keys
  {
    var j := Pick(keys);
    if j != k {
      MaskSumPick(kind, p, l, keys - {j}, k);
      MaskSumPick(kind, p, l, keys - {k}, j);
      Tree.SetsEqual(keys - {j} - {k}, keys - {k} - {j});
    }
  }

  // ---------------------------------------------------------------------
  // The Go functions
  // ---------------------------------------------------------------------

  /** compareValues. */
  method CompareValues(prevValue: Value, latestValue: Value)
    returns (changed: bool, nestedBefore: Value, nestedAfter: Value, nestedMask: seq<int>)
    ensures Delta(changed, nestedBefore, nestedAfter, multiset(nestedMask)) == Compare(prevValue, latestValue)
    decreases prevValue, 3
  {
    if !SameType(prevValue, latestValue) {
      return false, Nil, Nil, [];
    }
    if prevValue.Keyed? {
      var before, after, mask;
      if prevValue.kind == ObjectKind {
        before, after, mask := Diff(ObjectKind, prevValue.entries, latestValue.entries);
      } else {
        before, after, mask := DiffMap(prevValue.entries, latestValue.entries);
      }
      if |mask| > 0 {
        return true, Keyed(prevValue.kind, before), Keyed(prevValue.kind, after), mask;
      }
    } else if prevValue.Array? {
      var before, after, mask := DiffArray(prevValue.items, latestValue.items);
      if |mask| > 0 {
        return true, Array(before), Array(after), mask;
      }
    } else if prevValue != latestValue {
      return true, prevValue, latestValue, [0];
    }
    return false, Nil, Nil, [];
  }

  /** Diff over objects. DiffMap has the same body, so it calls this method
      with MapKind. Keys are visited in an arbitrary order. */
  method Diff(kind: Kind, previous: map<int, Value>, latest: map<int, Value>)
    returns (before: map<int, Value>, after: map<int, Value>, mask: seq<int>)
    ensures KeyedDiff(before, after, multiset(mask)) == DiffKeyedSpec(kind, previous, latest)
    decreases Keyed(kind, previous), 1
  {
    before, after, mask := map[], map[], [];
    ghost var done: set<int> := {};
    PartialDiffEmpty(kind, previous, latest);
    var todo := previous.Keys;
    while todo != {}
      invariant todo <= previous.Keys
      invariant forall k :: k in done <==> k in previous && k !in todo
      invariant KeyedDiff(before, after, multiset(mask)) == PartialDiff(kind, previous, latest, done)
      decreases todo
    {
      Tree.HasKey(todo);
      var key :| key in todo;
      PartialDiffStep(kind, previous, latest, done, key);
      KeyCases(kind, previous, latest, key);
      var prevValue := previous[key];
      if key !in latest {
        before := before[key := prevValue];
        after := after[key := Nil];
        mask := mask + [key];
      } else {
        var changed, nestedBefore, nestedAfter, nestedMask := CompareValues(prevValue, latest[key]);
        if changed {
          before := before[key := nestedBefore];
          after := after[key := nestedAfter];
          mask := mask + nestedMask;
        }
      }
      done := done + {key};
      todo := todo - {key};
    }
    todo := latest.Keys;
    while todo != {}
      invariant todo <= latest.Keys
      invariant forall k :: k in done <==> k in previous || (k in latest && k !in todo)
      invariant KeyedDiff(before, after, multiset(mask)) == PartialDiff(kind, previous, latest, done)
      decreases todo
    {
      Tree.HasKey(todo);
      var key :| key in todo;
      if key !in previous {
        PartialDiffStep(kind, previous, latest, done, key);
        KeyCases(kind, previous, latest, key);
        before := before[key := Nil];
        after := after[key := latest[key]];
        mask := mask + [key];
        done := done + {key};
      }
      todo := todo - {key};
    }
    Tree.SetsEqual(done, previous.Keys + latest.Keys);
  }

  /** DiffMap: Diff's rules over a dictionary whose keys are integers. */
  method DiffMap(previous: map<int, Value>, latest: map<int, Value>)
    returns (before: map<int, Value>, after: map<int, Value>, mask: seq<int>)
    ensures KeyedDiff(before, after, multiset(mask)) == DiffKeyedSpec(MapKind, previous, latest)
    decreases Keyed(MapKind, previous), 2
  {
    before, after, mask := Diff(MapKind, previous, latest);
  }

  /** Diff's result over the keys `done` it has visited so far. */
  ghost function PartialDiff(kind: Kind, p: map<int, Value>, l: map<int, Value>, done: set<int>): KeyedDiff
  {
    KeyedDiff(
      map k | k in done && Reported(kind, p, l, k) :: KeyBefore(kind, p, l, k),
      map k | k in done && Reported(kind, p, l, k) :: KeyAfter(kind, p, l, k),
      MaskSum(kind, p, l, done))
  }

  /** Diff starts with empty results. */
  lemma PartialDiffEmpty(kind: Kind, p: map<int, Value>, l: map<int, Value>)
    ensures PartialDiff(kind, p, l, {}) == KeyedDiff(map[], map[], multiset{})
  {
    var d := PartialDiff(kind, p, l, {});
    Tree.MapsEqual(d.before, map[]);
    Tree.MapsEqual(d.after, map[]);
  }

  /** Visiting one more key adds the key's mask entries and, when the key is
      reported, its before and after values. */
  lemma PartialDiffStep(kind: Kind, p: map<int, Value>, l: map<int, Value>, done: set<int>, key: int)
    requires key !in done
    ensures var d, e := PartialDiff(kind, p, l, done), PartialDiff(kind, p, l, done + {key});
      && e.mask == d.mask + KeyMask(kind, p, l, key)
      && e.before == (if Reported(kind, p, l, key) then d.before[key := KeyBefore(kind, p, l, key)] else d.before)
      && e.after == (if Reported(kind, p, l, key) then d.after[key := KeyAfter(kind, p, l, key)] else d.after)
  {
    MaskSumPick(kind, p, l, done + {key}, key);
    Tree.SetsEqual(done + {key} - {key}, done);
    PartialBeforeStep(kind, p, l, done, key);
    PartialAfterStep(kind, p, l, done, key);
  }

  /** The before half of PartialDiffStep. */
  lemma PartialBeforeStep(kind: Kind, p: map<int, Value>, l: map<int, Value>, done: set<int>, key: int)
    requires key !in done
    ensures var d, e := PartialDiff(kind, p, l, done).before, PartialDiff(kind, p, l, done + {key}).before;
      e == if Reported(kind, p, l, key) then d[key := KeyBefore(kind, p, l, key)] else d
  {
    var d, e := PartialDiff(kind, p, l, done).before, PartialDiff(kind, p, l, done + {key}).before;
    Tree.MapsEqual(e, if Reported(kind, p, l, key) then d[key := KeyBefore(kind, p, l, key)] else d);
  }

  /** The after half of PartialDiffStep. */
  lemma PartialAfterStep(kind: Kind, p: map<int, Value>, l: map<int, Value>, done: set<int>, key: int)
    requires key !in done
    ensures var d, e := PartialDiff(kind, p, l, done).after, PartialDiff(kind, p, l, done + {key}).after;
      e == if Reported(kind, p, l, key) then d[key := KeyAfter(kind, p, l, key)] else d
  {
    var d, e := PartialDiff(kind, p, l, done).after, PartialDiff(kind, p, l, done + {key}).after;
    Tree.MapsEqual(e, if Reported(kind, p, l, key) then d[key := KeyAfter(kind, p, l, key)] else d);
  }

  /** What Diff records for one key: a removed key its old value, nil and
      its position; an added key nil, its new value and its position; a key on
      both sides compareValues' results, reported when they differ. */
  lemma KeyCases(kind: Kind, p: map<int, Value>, l: map<int, Value>, k: int)
    ensures k in p && k !in l ==>
      Reported(kind, p, l, k) && KeyBefore(kind, p, l, k) == p[k] && KeyAfter(kind, p, l, k) == Nil &&
      KeyMask(kind, p, l, k) == multiset{k}
    ensures k !in p && k in l ==>
      Reported(kind, p, l, k) && KeyBefore(kind, p, l, k) == Nil && KeyAfter(kind, p, l, k) == l[k] &&
      KeyMask(kind, p, l, k) == multiset{k}
    ensures k in p && k in l ==>
      var c := Compare(p[k], l[k]);
      Reported(kind, p, l, k) == c.changed && KeyBefore(kind, p, l, k) == c.before &&
      KeyAfter(kind, p, l, k) == c.after && KeyMask(kind, p, l, k) == c.mask
  {
  }

  /** DiffArray. */
  method DiffArray(previous: seq<Value>, latest: seq<Value>)
    returns (before: seq<Value>, after: seq<Value>, mask: seq<int>)
    ensures ArrayDiff(before, after, multiset(mask)) == DiffArraySpec(previous, latest)
    decreases Array(previous), 2
  {
    before, after, mask := [], [], [];
    for i := 0 to |previous|
      invariant i <= Tree.Max(|previous|, |latest|)
      invariant ArrayDiff(before, after, multiset(mask)) == ArrayPrefix(previous, latest, i)
    {
      ArrayPrefixStep(previous, latest, i);
      if i >= |latest| {
        before := before + [previous[i]];
        after := after + [Nil];
        mask := mask + [i];
      } else {
        var changed, nestedBefore, nestedAfter, nestedMask := CompareValues(previous[i], latest[i]);
        if changed {
          before := before + [nestedBefore];
          after := after + [nestedAfter];
          mask := mask + nestedMask;
        }
      }
    }
    var i := |previous|;
    while i < |latest|
      invariant |previous| <= i <= Tree.Max(|previous|, |latest|)
      invariant ArrayDiff(before, after, multiset(mask)) == ArrayPrefix(previous, latest, i)
    {
      ArrayPrefixStep(previous, latest, i);
      after := after + [latest[i]];
      mask := mask + [i];
      i := i + 1;
    }
  }

  /** One step of DiffArray. */
  lemma ArrayPrefixStep(p: seq<Value>, l: seq<Value>, i: nat)
    requires i < Tree.Max(|p|, |l|)
    ensures var d, e := ArrayPrefix(p, l, i), ArrayPrefix(p, l, i + 1);
      && (|p| <= i ==> e == ArrayDiff(d.before, d.after + [l[i]], d.mask + multiset{i}))
      && (i < |p| && |l| <= i ==> e == ArrayDiff(d.before + [p[i]], d.after + [Nil], d.mask + multiset{i}))
      && (i < |p| && i < |l| ==>
            var c := Compare(p[i], l[i]);
            e == if c.changed then ArrayDiff(d.before + [c.before], d.after + [c.after], d.mask + c.mask) else d)
  {
  }

  /** Merge: a fresh record; the inputs are values and stay as they were. */
  method Merge(updateMask: seq<int>, previous: map<int, Value>, latest: map<int, Value>)
    returns (merged: map<int, Value>)
    ensures merged == MergeSpec(updateMask, previous, latest)
  {
    merged := map[];
    for j := 0 to |updateMask|
      invariant forall k :: k in merged <==> k in updateMask[..j]
      invariant forall k :: k in merged ==> merged[k] == Lookup(latest, k)
    {
      merged := merged[updateMask[j] := Lookup(latest, updateMask[j])];
    }
    assert updateMask[..|updateMask|] == updateMask;
    var todo := latest.Keys;
    while todo != {}
      invariant todo <= latest.Keys
      invariant forall k :: k in merged <==> k in updateMask || k in latest.Keys - todo
      invariant forall k :: k in merged ==> merged[k] == (if k in updateMask then Lookup(latest, k) else latest[k])
      decreases todo
    {
      Tree.HasKey(todo);
      var key :| key in todo;
      if key !in merged {
        merged := merged[key := latest[key]];
      }
      todo := todo - {key};
    }
    todo := previous.Keys;
    while todo != {}
      invariant todo <= previous.Keys
      invariant forall k :: k in merged <==> k in updateMask || k in latest || k in previous.Keys - todo
      invariant forall k :: k in merged ==>
        merged[k] == (if k in updateMask then Lookup(latest, k) else if k in latest then latest[k] else previous[k])
      decreases todo
    {
      Tree.HasKey(todo);
      var key :| key in todo;
      if key !in merged {
        merged := merged[key := previous[key]];
      }
      todo := todo - {key};
    }
    Tree.MapsEqual(merged, MergeSpec(updateMask, previous, latest));
  }
}
