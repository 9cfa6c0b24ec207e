// `PushNull`: append one null row to a builder (push_null.rs), including the
// generated struct and union builders' impls (derive_struct.rs, derive_enum.rs).

module PushNulls {
  import opened Base
  import opened Schema
  import opened Arrays

  /** The bitmap `init_validity` creates once a builder of `len` rows (the null just
    * pushed included) first sees a null: `len - 1` valid bits, then one null bit. */
  function InitValidity(len: nat): (bits: seq<bool>)
    requires len >= 1
    ensures |bits| == len
    ensures forall k :: 0 <= k < len - 1 ==> bits[k]
    ensures !bits[len - 1]
  {
    seq(len - 1, _ => true) + [false]
  }

  /** Append one null row.
    * - a leaf, string, binary, list or large-list builder appends one null row and
    *   pushes nothing into a list's values;
    * - a fixed-size list pushes `size` nulls into its values, then one null row;
    * - a struct pushes one null into every column, then appends `false` to its bitmap,
    *   or creates the bitmap with `init_validity` if there was none;
    * - a dense union appends type id 0, the offset `len(child 0)` and a null to child 0;
    *   a sparse union appends type id 0 and a null to every child. */
  function PushNull(a: Array): (r: Array)
    requires Shaped(a)
    ensures Shaped(r)
    ensures Len(r) == Len(a) + 1
    ensures ArrayDataType(r) == ArrayDataType(a)
    decreases ArrayDataType(a), 0
  {
    match a
    case LeafArray(dt, slots) => LeafArray(dt, slots + [None])
    case ListArray(item, large, offsets, validity, values) =>
      ListArray(item, large, offsets + [Len(values)], validity + [false], values)
    case FixedSizeListArray(item, size, validity, values) =>
      FixedSizeListArray(item, size, validity + [false], PushNullN(values, size))
    case StructArray(fields, columns, nulls) =>
      var columns' := seq(|columns|, i requires 0 <= i < |columns| =>
        assert ArrayDataType(columns[i]) == fields[i].dataType < fields[i];
        PushNull(columns[i]));
      var nulls' := match nulls
        case Some(bits) => Some(bits + [false])
        case None => Some(InitValidity(Len(columns'[0])));
      StructArray(fields, columns', nulls')
    case UnionArray(ids, members, typeIds, offsets, children) =>
      match offsets
      case Some(offs) =>
        assert ArrayDataType(children[0]) == members[0].dataType < members[0];
        UnionArray(ids, members, typeIds + [0], Some(offs + [Len(children[0])]),
                   children[0 := PushNull(children[0])])
      case None =>
        UnionArray(ids, members, typeIds + [0], None,
                   seq(|children|, i requires 0 <= i < |children| =>
                     assert ArrayDataType(children[i]) == members[i].dataType < members[i];
                     PushNull(children[i])))
  }

  /** `n` successive `push_null` calls. */
  function PushNullN(a: Array, n: nat): (r: Array)
    requires Shaped(a)
    ensures Shaped(r)
    ensures Len(r) == Len(a) + n
    ensures ArrayDataType(r) == ArrayDataType(a)
    decreases ArrayDataType(a), 1, n
  {
    if n == 0 then a else PushNull(PushNullN(a, n - 1))
  }

  lemma MulSucc(size: nat, n: nat)
    ensures size * n + size == size * (n + 1)
  {
  }

  /** `push_null` only appends to a builder. */
  lemma {:induction false} PushNullPrefix(a: Array)
    requires Shaped(a)
    ensures Prefix(a, PushNull(a))
    decreases ArrayDataType(a), 1
  {
    var r := PushNull(a);
    match a
    case LeafArray(_, _) =>
    case ListArray(_, _, _, _, values) =>
      PrefixRefl(values);
    case FixedSizeListArray(item, size, validity, values) =>
      PushNullNPrefix(values, size);
    case StructArray(fields, columns, _) =>
      forall i | 0 <= i < |columns|
        ensures Prefix(columns[i], r.columns[i])
      {
        assert ArrayDataType(columns[i]) == fields[i].dataType < fields[i];
        PushNullPrefix(columns[i]);
      }
    case UnionArray(_, members, _, offsets, children) =>
      forall i | 0 <= i < |children|
        ensures Prefix(children[i], r.children[i])
      {
        assert ArrayDataType(children[i]) == members[i].dataType < members[i];
        if offsets.None? || i == 0 {
          PushNullPrefix(children[i]);
        } else {
          PrefixRefl(children[i]);
        }
      }
  }

  lemma {:induction false} PushNullNPrefix(a: Array, n: nat)
    requires Shaped(a)
    ensures Prefix(a, PushNullN(a, n))
    decreases ArrayDataType(a), 2, n
  {
    if n == 0 {
      PrefixRefl(a);
    } else {
      PushNullNPrefix(a, n - 1);
      PushNullPrefix(PushNullN(a, n - 1));
      PrefixTrans(a, PushNullN(a, n - 1), PushNullN(a, n));
    }
  }

  /** `push_null` keeps a builder aligned and only appends to it. */
  lemma {:induction false} PushNullAligned(a: Array)
    requires Shaped(a) && Aligned(a)
    ensures Aligned(PushNull(a)) && Prefix(a, PushNull(a))
    decreases ArrayDataType(a), 1
  {
    match a
    case LeafArray(_, _) =>
    case ListArray(_, _, _, _, values) =>
      PrefixRefl(values);
    case FixedSizeListArray(item, size, validity, values) =>
      PushNullNAligned(values, size);
      MulSucc(size, |validity|);
    case StructArray(_, _, _) =>
      StructPushNullAligned(a);
    case UnionArray(_, _, _, _, _) =>
      UnionPushNullAligned(a);
  }

  lemma {:induction false} StructPushNullAligned(a: Array)
    requires a.StructArray? && Shaped(a) && Aligned(a)
    ensures Aligned(PushNull(a)) && Prefix(a, PushNull(a))
    decreases ArrayDataType(a), 0
  {
    var r := PushNull(a);
    var columns := a.columns;
    forall i | 0 <= i < |columns|
      ensures Aligned(r.columns[i]) && Prefix(columns[i], r.columns[i])
      ensures Len(r.columns[i]) == Len(r)
    {
      assert ArrayDataType(columns[i]) == a.fields[i].dataType < a.fields[i];
      PushNullAligned(columns[i]);
    }
  }

  lemma {:induction false} UnionPushNullAligned(a: Array)
    requires a.UnionArray? && Shaped(a) && Aligned(a)
    ensures Aligned(PushNull(a)) && Prefix(a, PushNull(a))
    decreases ArrayDataType(a), 0
  {
    var r := PushNull(a);
    var children := a.children;
    forall i | 0 <= i < |children|
      ensures Aligned(r.children[i]) && Prefix(children[i], r.children[i])
    {
      assert ArrayDataType(children[i]) == a.members[i].dataType < a.members[i];
      if a.valueOffsets.None? || i == 0 {
        PushNullAligned(children[i]);
      } else {
        PrefixRefl(children[i]);
      }
    }
  }

  lemma {:induction false} PushNullNAligned(a: Array, n: nat)
    requires Shaped(a) && Aligned(a)
    ensures Aligned(PushNullN(a, n)) && Prefix(a, PushNullN(a, n))
    decreases ArrayDataType(a), 2, n
  {
    if n == 0 {
      PrefixRefl(a);
    } else {
      PushNullNAligned(a, n - 1);
      PushNullAligned(PushNullN(a, n - 1));
      PrefixTrans(a, PushNullN(a, n - 1), PushNullN(a, n));
    }
  }

}

// The builders whose `push_null` is a step-by-step update.
module NullBuilders {
  import opened Base
  import opened Schema
  import opened Arrays
  import PushNulls

  /** `BooleanBufferBuilder`, the builder of a validity bitmap. */
  class BooleanBufferBuilder {
    var bits: seq<bool>

    constructor ()
      ensures bits == []
    {
      bits := [];
    }

    /** `append(v)`. */
    method Append(v: bool)
      modifies this
      ensures bits == old(bits) + [v]
    {
      bits := bits + [v];
    }

    /** `PushNull` for a bitmap appends a single `false` bit. */
    method PushNull()
      modifies this
      ensures bits == old(bits) + [false]
    {
      Append(false);
    }
  }

  /** `FixedSizeListBuilder<T>` with its values builder. */
  class FixedSizeListBuilder {
    const item: Field
    const size: nat
    var validity: seq<bool>
    var values: Array

    constructor (item: Field, size: nat, values: Array)
      ensures this.item == item && this.size == size
      ensures this.values == values && validity == []
    {
      this.item := item;
      this.size := size;
      this.values := values;
      validity := [];
    }

    function State(): Array
      reads this
    {
      FixedSizeListArray(item, size, validity, values)
    }

    /** The values builder holds elements of the declared item type. */
    predicate Valid()
      reads this
    {
      Shaped(State())
    }

    /** Push `value_length` nulls into the values builder, then one invalid row. */
    method PushNull()
      requires Valid()
      modifies this
      ensures Valid()
      ensures State() == PushNulls.PushNull(old(State()))
      ensures Len(values) == Len(old(values)) + size
    {
      var i := 0;
      while i < size
        invariant 0 <= i <= size
        invariant validity == old(validity)
        invariant ArrayDataType(values) == item.dataType
        invariant Shaped(values) && values == PushNulls.PushNullN(old(values), i)
      {
        values := PushNulls.PushNull(values);
        i := i + 1;
      }
      validity := validity + [false];
    }
  }
}
