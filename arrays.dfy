// Arrow arrays as sequence-backed values. A builder's state is modelled by the array
// its `finish` would produce, so one datatype serves for both.

module Arrays {
  import opened Base
  import opened Schema

  /** An Arrow array (or the state of the builder that produces it).
    * - a leaf array holds one optional value per row;
    * - a variable-size list holds `|validity| + 1` offsets into its child `values`;
    * - a fixed-size list holds `size` child elements per row;
    * - a struct holds one column per field and a lazily created validity bitmap;
    * - a union holds one type id per row, offsets when it is dense, and one child per
    *   declared type id (the union's data type lists `ids` and `members`). */
  datatype Array =
    | LeafArray(dataType: DataType, slots: seq<Option<Value>>)
    | ListArray(item: Field, large: bool, offsets: seq<nat>, validity: seq<bool>, values: Array)
    | FixedSizeListArray(item: Field, size: nat, validity: seq<bool>, values: Array)
    | StructArray(fields: seq<Field>, columns: seq<Array>, nulls: Option<seq<bool>>)
    | UnionArray(ids: seq<int>, members: seq<Field>, typeIds: seq<int>, valueOffsets: Option<seq<int>>, children: seq<Array>)

  /** The number of rows (`ArrayBuilder::len`). A struct builder reports its first
    * column's length; a union builder the number of type ids. */
  function Len(a: Array): nat
  {
    match a
    case LeafArray(_, slots) => |slots|
    case ListArray(_, _, _, validity, _) => |validity|
    case FixedSizeListArray(_, _, validity, _) => |validity|
    case StructArray(_, columns, _) => if |columns| == 0 then 0 else Len(columns[0])
    case UnionArray(_, _, typeIds, _, _) => |typeIds|
  }

  /** `Array::data_type`. */
  function ArrayDataType(a: Array): DataType
  {
    match a
    case LeafArray(dt, _) => dt
    case ListArray(item, large, _, _, _) => if large then LargeList(item) else List(item)
    case FixedSizeListArray(item, size, _, _) => FixedSizeList(item, size)
    case StructArray(fields, _, _) => Struct(fields)
    case UnionArray(ids, members, _, offsets, _) => Union(ids, members, if offsets.Some? then Dense else Sparse)
  }

  /** The data types stored in a leaf builder. */
  predicate IsLeafType(dt: DataType)
  {
    !(dt.List? || dt.LargeList? || dt.FixedSizeList? || dt.Struct? || dt.Union?)
  }

  /** A well-formed array: every child's data type is the one its parent declares for
    * it, every struct has one column per field (at least one) and every union one
    * child per member (at least one): the derive macros refuse declarations without
    * kept fields or variants. */
  predicate Shaped(a: Array)
  {
    match a
    case LeafArray(dt, _) => IsLeafType(dt)
    case ListArray(item, _, _, _, values) => Shaped(values) && ArrayDataType(values) == item.dataType
    case FixedSizeListArray(item, _, _, values) => Shaped(values) && ArrayDataType(values) == item.dataType
    case StructArray(fields, columns, _) =>
      |columns| >= 1 && |columns| == |fields| &&
      forall i :: 0 <= i < |columns| ==> Shaped(columns[i]) && ArrayDataType(columns[i]) == fields[i].dataType
    case UnionArray(ids, members, _, _, children) =>
      |children| >= 1 && |children| == |members| == |ids| &&
      forall i :: 0 <= i < |children| ==> Shaped(children[i]) && ArrayDataType(children[i]) == members[i].dataType
  }

  /** The consistency arrow-rs checks when it builds an array (`ListArray::try_new`,
    * `FixedSizeListArray::try_new`, `StructArray::try_new`, `UnionArray::try_new`):
    * - list offsets are one more than the rows, non-decreasing, and end at the
    *   child's length;
    * - a fixed-size list's child holds exactly `size` elements per row;
    * - every struct column, and the bitmap if any, has one entry per row;
    * - union type ids name a child; a dense offset indexes into the child its type
    *   id names; in a sparse union every child has one element per row. */
  predicate Aligned(a: Array)
  {
    match a
    case LeafArray(_, _) => true
    case ListArray(_, _, offsets, validity, values) =>
      Aligned(values) && |offsets| == |validity| + 1 &&
      (forall r, s :: 0 <= r <= s < |offsets| ==> offsets[r] <= offsets[s]) &&
      offsets[|validity|] == Len(values)
    case FixedSizeListArray(_, size, validity, values) =>
      Aligned(values) && Len(values) == size * |validity|
    case StructArray(_, columns, nulls) =>
      (forall i :: 0 <= i < |columns| ==> Aligned(columns[i]) && Len(columns[i]) == Len(a)) &&
      (nulls.Some? ==> |nulls.value| == Len(a))
    case UnionArray(_, _, typeIds, offsets, children) =>
      (forall i :: 0 <= i < |children| ==> Aligned(children[i])) &&
      (forall r :: 0 <= r < |typeIds| ==> 0 <= typeIds[r] < |children|) &&
      match offsets
      case Some(offs) =>
        |offs| == |typeIds| &&
        forall r :: 0 <= r < |typeIds| ==> 0 <= offs[r] < Len(children[typeIds[r]])
      case None =>
        forall i :: 0 <= i < |children| ==> Len(children[i]) == |typeIds|
  }

  /** The length and offset checks `finish` makes when it turns a builder into an array,
    * panicking when one fails: `ListArray::new` needs the last offset within the child,
    * `FixedSizeListBuilder::finish` asserts `size` child elements per row,
    * `StructArray::new` needs every column and the bitmap as long as the first column,
    * and `UnionArray::try_new(..).unwrap()` needs the type ids and offsets to index
    * into the children and, in a sparse union, every child as long as the type ids.
    * It differs from `Aligned` only in letting a list's child run past the last offset,
    * which a list item that failed part-way leaves behind. arrow-rs also refuses nulls
    * in a child whose field is non-nullable; that check is not part of this predicate. */
  predicate Finishable(a: Array)
  {
    match a
    case LeafArray(_, _) => true
    case ListArray(_, _, offsets, validity, values) =>
      Finishable(values) && |offsets| == |validity| + 1 &&
      (forall r, s :: 0 <= r <= s < |offsets| ==> offsets[r] <= offsets[s]) &&
      offsets[|validity|] <= Len(values)
    case FixedSizeListArray(_, size, validity, values) =>
      Finishable(values) && Len(values) == size * |validity|
    case StructArray(_, columns, nulls) =>
      (forall i :: 0 <= i < |columns| ==> Finishable(columns[i]) && Len(columns[i]) == Len(a)) &&
      (nulls.Some? ==> |nulls.value| == Len(a))
    case UnionArray(_, _, typeIds, offsets, children) =>
      (forall i :: 0 <= i < |children| ==> Finishable(children[i])) &&
      (forall r :: 0 <= r < |typeIds| ==> 0 <= typeIds[r] < |children|) &&
      match offsets
      case Some(offs) =>
        |offs| == |typeIds| &&
        forall r :: 0 <= r < |typeIds| ==> 0 <= offs[r] < Len(children[typeIds[r]])
      case None =>
        forall i :: 0 <= i < |children| ==> Len(children[i]) == |typeIds|
  }

  /** An aligned builder always passes the length and offset checks. */
  lemma {:induction false} AlignedFinishable(a: Array)
    requires Aligned(a)
    ensures Finishable(a)
    decreases a
  {
    match a
    case LeafArray(_, _) =>
    case ListArray(_, _, _, _, values) => AlignedFinishable(values);
    case FixedSizeListArray(_, _, _, values) => AlignedFinishable(values);
    case StructArray(_, columns, _) =>
      forall i | 0 <= i < |columns|
        ensures Finishable(columns[i])
      {
        AlignedFinishable(columns[i]);
      }
    case UnionArray(_, _, _, _, children) =>
      forall i | 0 <= i < |children|
        ensures Finishable(children[i])
      {
        AlignedFinishable(children[i]);
      }
  }

  /** `finish()`: the array the builder holds, or a panic when it fails the length and
    * offset checks of `Finishable`. */
  function Finish(a: Array): (r: Outcome<Array>)
    ensures r.Done? <==> Finishable(a)
    ensures r.Done? ==> r.value == a
    ensures Aligned(a) ==> r == Done(a)
  {
    if Aligned(a) then AlignedFinishable(a); Done(a)
    else if Finishable(a) then Done(a) else Panic
  }

  /** How a struct bitmap evolves: a missing bitmap stays missing or is created with
    * every earlier row valid; an existing one only grows. */
  predicate NullsPrefix(n1: Option<seq<bool>>, n2: Option<seq<bool>>, len: nat)
  {
    match (n1, n2)
    case (None, None) => true
    case (Some(x), Some(y)) => x <= y
    case (None, Some(y)) => len <= |y| && forall r :: 0 <= r < len ==> y[r]
    case (Some(_), None) => false
  }

  /** `b` is a later state of the builder whose state was `a`: every buffer of `a` is a
    * prefix of the corresponding buffer of `b`. Builders only ever append. */
  predicate Prefix(a: Array, b: Array)
  {
    match (a, b)
    case (LeafArray(d1, s1), LeafArray(d2, s2)) => d1 == d2 && s1 <= s2
    case (ListArray(i1, l1, o1, v1, c1), ListArray(i2, l2, o2, v2, c2)) =>
      i1 == i2 && l1 == l2 && o1 <= o2 && v1 <= v2 && Prefix(c1, c2)
    case (FixedSizeListArray(i1, n1, v1, c1), FixedSizeListArray(i2, n2, v2, c2)) =>
      i1 == i2 && n1 == n2 && v1 <= v2 && Prefix(c1, c2)
    case (StructArray(f1, cs1, n1), StructArray(f2, cs2, n2)) =>
      f1 == f2 && |cs1| == |cs2| &&
      (forall i :: 0 <= i < |cs1| ==> Prefix(cs1[i], cs2[i])) &&
      NullsPrefix(n1, n2, Len(a))
    case (UnionArray(d1, m1, t1, o1, c1), UnionArray(d2, m2, t2, o2, c2)) =>
      d1 == d2 && m1 == m2 && t1 <= t2 && |c1| == |c2| &&
      (forall i :: 0 <= i < |c1| ==> Prefix(c1[i], c2[i])) &&
      (match (o1, o2)
       case (Some(x), Some(y)) => x <= y
       case (None, None) => true
       case _ => false)
    case _ => false
  }

  /** A later state has at least as many rows. */
  lemma {:induction false} PrefixLen(a: Array, b: Array)
    requires Prefix(a, b)
    ensures Len(a) <= Len(b)
    decreases a
  {
    match (a, b)
    case (StructArray(_, cs1, _), StructArray(_, cs2, _)) =>
      if |cs1| > 0 {
        PrefixLen(cs1[0], cs2[0]);
      }
    case _ =>
  }

  lemma {:induction false} PrefixRefl(a: Array)
    ensures Prefix(a, a)
    decreases a
  {
    match a
    case ListArray(_, _, _, _, values) => PrefixRefl(values);
    case FixedSizeListArray(_, _, _, values) => PrefixRefl(values);
    case StructArray(_, columns, nulls) =>
      forall i | 0 <= i < |columns| {
        PrefixRefl(columns[i]);
      }
    case UnionArray(_, _, _, _, children) =>
      forall i | 0 <= i < |children| {
        PrefixRefl(children[i]);
      }
    case LeafArray(_, _) =>
  }

  /** Successive builder states compose. */
  lemma {:induction false} PrefixTrans(a: Array, b: Array, c: Array)
    requires Prefix(a, b) && Prefix(b, c)
    ensures Prefix(a, c)
    decreases a
  {
    match (a, b, c)
    case (ListArray(_, _, _, _, v1), ListArray(_, _, _, _, v2), ListArray(_, _, _, _, v3)) =>
      PrefixTrans(v1, v2, v3);
    case (FixedSizeListArray(_, _, _, v1), FixedSizeListArray(_, _, _, v2), FixedSizeListArray(_, _, _, v3)) =>
      PrefixTrans(v1, v2, v3);
    case (StructArray(_, cs1, n1), StructArray(_, cs2, n2), StructArray(_, cs3, n3)) =>
      forall i | 0 <= i < |cs1| {
        PrefixTrans(cs1[i], cs2[i], cs3[i]);
      }
      PrefixLen(a, b);
    case (UnionArray(_, _, _, _, c1), UnionArray(_, _, _, _, c2), UnionArray(_, _, _, _, c3)) =>
      forall i | 0 <= i < |c1| {
        PrefixTrans(c1[i], c2[i], c3[i]);
      }
    case _ =>
  }

  /** A struct array whose columns each grew by one row, and whose bitmap, if any, by
    * one bit, stays aligned. */
  lemma StructGrowAligned(a: Array, cols: seq<Array>, nulls: Option<seq<bool>>)
    requires a.StructArray? && Aligned(a) && |cols| == |a.columns|
    requires forall j :: 0 <= j < |cols| ==> Aligned(cols[j]) && Len(cols[j]) == Len(a) + 1
    requires nulls.Some? ==> |cols| > 0 && |nulls.value| == Len(a) + 1
    ensures Aligned(a.(columns := cols, nulls := nulls))
  {
  }

  /** A dense union array whose child `i` grew, with one more type id `i` whose offset
    * is the grown child's last row, stays aligned. */
  lemma DenseGrowAligned(a: Array, i: nat, g: Array)
    requires a.UnionArray? && Aligned(a) && a.valueOffsets.Some? && i < |a.children|
    requires Aligned(g) && Len(a.children[i]) < Len(g)
    ensures Aligned(a.(typeIds := a.typeIds + [i], valueOffsets := Some(a.valueOffsets.value + [Len(g) - 1]),
                       children := a.children[i := g]))
  {
    var b := a.(typeIds := a.typeIds + [i], valueOffsets := Some(a.valueOffsets.value + [Len(g) - 1]),
                children := a.children[i := g]);
    forall r | 0 <= r < |b.typeIds|
      ensures 0 <= b.valueOffsets.value[r] < Len(b.children[b.typeIds[r]])
    {
      if r < |a.typeIds| {
        assert b.typeIds[r] == a.typeIds[r] && b.valueOffsets.value[r] == a.valueOffsets.value[r];
      }
    }
  }

  /** A sparse union array with one more type id `i`, whose children all grew by one
    * row, stays aligned. */
  lemma SparseGrowAligned(a: Array, i: nat, cs: seq<Array>)
    requires a.UnionArray? && Aligned(a) && a.valueOffsets.None? && i < |a.children|
    requires |cs| == |a.children|
    requires forall j :: 0 <= j < |cs| ==> Aligned(cs[j]) && Len(cs[j]) == |a.typeIds| + 1
    ensures Aligned(a.(typeIds := a.typeIds + [i], children := cs))
  {
  }

  /** A variable-size list array with one more valid row, ending where its grown child
    * ends, stays aligned. */
  lemma ListGrowAligned(a: Array, g: Array)
    requires a.ListArray? && Aligned(a) && Aligned(g) && Len(a.values) <= Len(g)
    ensures Aligned(ListArray(a.item, a.large, a.offsets + [Len(g)], a.validity + [true], g))
  {
    var offsets := a.offsets + [Len(g)];
    forall x, y | 0 <= x <= y < |offsets|
      ensures offsets[x] <= offsets[y]
    {
      if y == |a.offsets| && x < y {
        assert a.offsets[x] <= a.offsets[|a.validity|];
      }
    }
  }

  /** A fixed-size list array with one more valid row, whose child grew by `size` rows,
    * stays aligned. */
  lemma FixedGrowAligned(a: Array, g: Array)
    requires a.FixedSizeListArray? && Aligned(a) && Aligned(g) && Len(g) == Len(a.values) + a.size
    ensures Aligned(FixedSizeListArray(a.item, a.size, a.validity + [true], g))
  {
    assert a.size * (|a.validity| + 1) == a.size * |a.validity| + a.size;
  }
}
