/**
 * The generic linearized tree shared by the mask-tree Diff and Merge
 * engines, and the hierarchical update mask they exchange.
 */
module Tree {

  datatype Option<+T> = None | Some(value: T)

  /**
   * A linearized value.
   *  - `Nil` is Go's nil: an absent value.
   *  - `Scalar` is an opaque leaf compared by equality only.
   *  - `Record` maps field numbers to values (LinearizedObject).
   *  - `Slice` is a repeated field, indexed by position (LinearizedSlice).
   *    The merge engine looks positions up and deletes them like map keys,
   *    so positions are the keys of a map; a well-formed slice of length n
   *    holds exactly the positions 0 .. n-1.
   *  - `Dict` is a map field, indexed by its integer key (LinearizedMap).
   *  - `Pairs` is the unnamed `[][2]any` that compareValues builds for the
   *    before and after sides of a dictionary. It has the layout of a
   *    LinearizedMap but not its type, so a type switch or assertion on
   *    LinearizedMap does not accept it. Linearized messages never hold one;
   *    it only appears in what Diff returns.
   */
  datatype Value =
    | Nil
    | Scalar(v: int)
    | Record(fields: map<int, Value>)
    | Slice(items: map<int, Value>)
    | Dict(entries: map<int, Value>)
    | Pairs(entries: map<int, Value>)

  /** True of the three composite kinds. */
  predicate IsComposite(v: Value)
  {
    v.Record? || v.Slice? || v.Dict?
  }

  /** True when `a` and `b` are composites of the same kind. */
  predicate SameComposite(a: Value, b: Value)
  {
    (a.Record? && b.Record?) || (a.Slice? && b.Slice?) || (a.Dict? && b.Dict?)
  }

  /** The operation recorded at one position of an update mask. */
  datatype Op = ADD | UPDATE | REMOVE

  /** An update mask: the operation at each changed key or position. */
  datatype UpdateMask = UpdateMask(values: map<int, MaskValue>)

  /** One mask entry; `masks` is the optional nested mask (a nil pointer when None). */
  datatype MaskValue = MaskValue(op: Op, masks: Option<UpdateMask>)

  /** Go's `m[k]` on a map of `any`: nil when the key is missing. */
  function Lookup(m: map<int, Value>, k: int): Value
  {
    if k in m then m[k] else Nil
  }

  /** Go's `v, ok := m[k]`, with the comma-ok flag folded into an Option. */
  function Get(m: map<int, Value>, k: int): Option<Value>
  {
    if k in m then Some(m[k]) else None
  }

  /** The map that holds `slot` at `k` (or nothing there when None) and agrees with `m` elsewhere. */
  function Put(m: map<int, Value>, k: int, slot: Option<Value>): map<int, Value>
  {
    match slot
    case Some(v) => m[k := v]
    case None => m - {k}
  }

  function Max(a: int, b: int): int
  {
    if a > b then a else b
  }

  /** Two maps with the same keys and the same value at every key are equal. */
  lemma MapsEqual<V>(m: map<int, V>, n: map<int, V>)
    requires forall k :: k in m <==> k in n
    requires forall k :: k in m ==> m[k] == n[k]
    ensures m == n
  {
    forall k ensures k in m <==> k in n {}
    forall k | k in m ensures m[k] == n[k] {}
  }

  /** A non-empty key set has a key to pick next. */
  lemma HasKey(s: set<int>)
    requires s != {}
    ensures exists k :: k in s
  {
    if forall k :: k !in s {
      assert false;
    }
  }

  /** Two sets with the same elements are equal. */
  lemma SetsEqual(a: set<int>, b: set<int>)
    requires forall x :: x in a <==> x in b
    ensures a == b
  {
    forall x ensures x in a <==> x in b {}
  }
}
