// `ArrowDeserialize` (deserialize/mod.rs) together with the iterators the derive macros
// generate (derive_struct.rs, derive_enum.rs): reading row `r` of an array back as a
// Rust value, and `try_into_collection`.

module Deserializer {
  import opened Base
  import opened Schema
  import opened Arrays
  import opened Serializer

  /** An array that can be read as `t`: an accepted type, an array of its data type,
    * and the consistency every arrow-rs array has. */
  predicate Readable(t: RType, a: Array)
  {
    WellFormed(t) && Fits(t, a) && Aligned(a)
  }

  // ---------------------------------------------------------------------------
  // Outcomes of reading
  // ---------------------------------------------------------------------------

  /** `arrow_deserialize_internal`: `T::arrow_deserialize(v).unwrap()`, which panics on a
    * null; `Option<T>` overrides it with `T::arrow_deserialize(v)`, so there a null reads
    * as `None`. */
  function Internal(t: RType, o: Outcome<Option<Value>>): (r: Outcome<Value>)
    ensures r.Done? <==> o.Done? && (o.value.Some? || t.TOption?)
    ensures r.Done? ==> r.value == (if o.value.Some? then o.value.value else VNone)
  {
    match o
    case Panic => Panic
    case Done(None) => if t.TOption? then Done(VNone) else Panic
    case Done(Some(y)) => Done(y)
  }

  /** Collecting per-element outcomes in order: the first panic aborts the collection. */
  function Gather(outs: seq<Outcome<Value>>): (r: Outcome<seq<Value>>)
    ensures r.Done? <==> forall i :: 0 <= i < |outs| ==> outs[i].Done?
    ensures r.Done? ==> |r.value| == |outs| && forall i :: 0 <= i < |outs| ==> r.value[i] == outs[i].value
  {
    if |outs| == 0 then Done([])
    else
      match (outs[0], Gather(outs[1..]))
      case (Done(x), Done(xs)) => Done([x] + xs)
      case _ => Panic
  }

  /** `Option<T>::arrow_deserialize`: `T`'s reading, with a present value wrapped in
    * `Some`; a null stays `None`. */
  function WrapSome(o: Outcome<Option<Value>>): (r: Outcome<Option<Value>>)
    ensures r.Done? <==> o.Done?
    ensures r.Done? ==> (r.value.Some? <==> o.value.Some?)
    ensures r.Done? && r.value.Some? ==> r.value.value == VSome(o.value.value)
  {
    match o
    case Done(Some(x)) => Done(Some(VSome(x)))
    case _ => o
  }

  /** A transparent struct's reading: its member's, mapped into the struct. */
  function WrapStruct(o: Outcome<Option<Value>>): (r: Outcome<Option<Value>>)
    ensures r.Done? <==> o.Done?
    ensures r.Done? ==> (r.value.Some? <==> o.value.Some?)
    ensures r.Done? && r.value.Some? ==> r.value.value == VStruct([o.value.value])
  {
    match o
    case Done(Some(x)) => Done(Some(VStruct([x])))
    case _ => o
  }

  /** A payload variant's reading: the payload's, mapped into variant `tag`. */
  function WrapCase(tag: nat, o: Outcome<Option<Value>>): (r: Outcome<Option<Value>>)
    ensures r.Done? <==> o.Done?
    ensures r.Done? ==> (r.value.Some? <==> o.value.Some?)
    ensures r.Done? && r.value.Some? ==> r.value.value == VCase(tag, o.value.value)
  {
    match o
    case Done(Some(x)) => Done(Some(VCase(tag, x)))
    case _ => o
  }

  // ---------------------------------------------------------------------------
  // Struct values from their kept fields
  // ---------------------------------------------------------------------------

  /** The position of field `j` among the kept fields. */
  function Rank(fs: seq<DeriveField>, j: nat): nat
    requires j <= |fs|
  {
    |KeptUpTo(fs, j)|
  }

  lemma {:induction false} KeptUpToPrefix(fs: seq<DeriveField>, m: nat, n: nat)
    requires m <= n <= |fs|
    ensures KeptUpTo(fs, m) <= KeptUpTo(fs, n)
    decreases n
  {
    if m < n {
      KeptUpToPrefix(fs, m, n - 1);
      var p := KeptUpTo(fs, n - 1);
      assert KeptUpTo(fs, n) == p + (if fs[n - 1].skip then [] else [n - 1]);
    }
  }

  /** A kept field sits at its rank among the kept fields, and the rank of the `m`-th
    * kept field is `m`. */
  lemma RanksOfKept(fs: seq<DeriveField>)
    ensures forall j :: 0 <= j < |fs| && !fs[j].skip ==> Rank(fs, j) < |Kept(fs)| && Kept(fs)[Rank(fs, j)] == j
    ensures forall m :: 0 <= m < |Kept(fs)| ==> Rank(fs, Kept(fs)[m]) == m
  {
    var ks := Kept(fs);
    forall j | 0 <= j < |fs| && !fs[j].skip
      ensures Rank(fs, j) < |ks| && ks[Rank(fs, j)] == j
    {
      KeptUpToPrefix(fs, j + 1, |fs|);
      assert KeptUpTo(fs, j + 1) == KeptUpTo(fs, j) + [j];
      assert KeptUpTo(fs, j + 1)[Rank(fs, j)] == j;
    }
    forall m | 0 <= m < |ks|
      ensures Rank(fs, ks[m]) == m
    {
      var p := Rank(fs, ks[m]);
      assert ks[p] == ks[m];
    }
  }

  /** The struct value the generated iterator builds from its kept fields' values;
    * skipped fields take `Default::default()`. */
  function Assemble(t: RType, kept: seq<Value>): (r: Value)
    requires t.TStruct? && WellFormed(t) && |kept| == |Kept(t.fields)|
    ensures r.VStruct? && |r.members| == |t.fields|
    ensures forall m :: 0 <= m < |kept| ==> r.members[Kept(t.fields)[m]] == kept[m]
    ensures forall j :: 0 <= j < |t.fields| && t.fields[j].skip ==>
      r.members[j] == DefaultOf(t.fields[j].fieldType).value
  {
    var fs := t.fields;
    RanksOfKept(fs);
    VStruct(seq(|fs|, j requires 0 <= j < |fs| =>
      if fs[j].skip then DefaultOf(fs[j].fieldType).value else kept[Rank(fs, j)]))
  }

  // ---------------------------------------------------------------------------
  // Reading one row
  // ---------------------------------------------------------------------------

  /** `T::arrow_deserialize(iter.next())` at row `r` of an array of type `t`: `Done(None)`
    * for a null, `Done(Some(v))` for a value, `Panic` where the generated code unwraps a
    * null. Enums are read with the corrected `UnionRow`. */
  function Row(t: RType, a: Array, r: nat): (o: Outcome<Option<Value>>)
    requires Readable(t, a) && r < Len(a)
    ensures o.Done? && o.value.Some? ==> OuterForm(t, o.value.value)
    decreases t, 1
  {
    match t
    case TLeaf(_) => Done(a.slots[r])
    case TOption(u) => WrapSome(Row(u, a, r))
    case TList(_, _) => ListRow(t, a, r)
    case TStruct(_, fs, tr) =>
      if tr && |fs| == 1 then
        TransparentField(t);
        WrapStruct(Row(fs[0].fieldType, a, r))
      else StructRow(t, a, r)
    case TEnum(_, _, _) => UnionRow(t, a, r)
  }

  /** The form a present reading of `t` takes: `Some` of an `Option`, a list of a
    * list type, a struct with every declared field, a variant the enum declares. */
  predicate OuterForm(t: RType, v: Value)
  {
    match t
    case TLeaf(_) => true
    case TOption(_) => v.VSome?
    case TList(_, _) => v.VList?
    case TStruct(_, fs, _) => v.VStruct? && |v.members| == |fs|
    case TEnum(_, vs, _) => (v.VUnit? || v.VCase?) && v.tag < |vs|
  }

  lemma RowBound(size: nat, r: nat, n: nat)
    requires r < n
    ensures r * size + size <= size * n
  {
    assert r * size + size == (r + 1) * size;
  }

  /** The first child row of row `r` of a fixed-size list: its `size` child rows end
    * within the `size` rows of every row. */
  function FixedRowStart(a: Array, r: nat): (lo: nat)
    requires a.FixedSizeListArray? && r < |a.validity|
    ensures lo == r * a.size && lo + a.size <= a.size * |a.validity|
  {
    RowBound(a.size, r, |a.validity|);
    r * a.size
  }

  /** A list row: `None` for a null row, otherwise the elements of the row's slice of
    * the child array, in order (`arrow_deserialize_vec_helper`). */
  function ListRow(t: RType, a: Array, r: nat): (o: Outcome<Option<Value>>)
    requires t.TList? && Readable(t, a) && r < Len(a)
    ensures a.ListArray? || a.FixedSizeListArray?
    ensures o == Done(None) <==> !a.validity[r]
    ensures o.Done? && o.value.Some? ==>
      o.value.value.VList? &&
      |o.value.value.items| == (if a.ListArray? then a.offsets[r + 1] - a.offsets[r] else a.size)
    decreases t, 0, 1
  {
    ListValuesFit(t, a);
    match a
    case ListArray(_, _, offsets, validity, values) =>
      if !validity[r] then Done(None)
      else
        assert offsets[r] <= offsets[r + 1] <= offsets[|validity|];
        ListSlice(t, values, offsets[r], offsets[r + 1])
    case FixedSizeListArray(_, size, validity, values) =>
      if !validity[r] then Done(None)
      else ListSlice(t, values, FixedRowStart(a, r), FixedRowStart(a, r) + size)
  }

  /** A row of a variable-size list is null or the slice its two offsets delimit. */
  lemma ListArrayRowSlice(t: RType, a: Array, r: nat)
    requires t.TList? && a.ListArray? && Readable(t, a) && r < Len(a)
    ensures Readable(t.elem, a.values) && r + 1 < |a.offsets|
    ensures a.offsets[r] <= a.offsets[r + 1] <= Len(a.values)
    ensures ListRow(t, a, r) ==
      if a.validity[r] then ListSlice(t, a.values, a.offsets[r], a.offsets[r + 1]) else Done(None)
  {
    ListValuesFit(t, a);
    assert a.offsets[r] <= a.offsets[r + 1] <= a.offsets[|a.validity|];
  }

  /** A row of a fixed-size list is null or the `size` child rows from `r * size` on. */
  lemma FixedListRowSlice(t: RType, a: Array, r: nat)
    requires t.TList? && a.FixedSizeListArray? && Readable(t, a) && r < Len(a)
    ensures Readable(t.elem, a.values) && FixedRowStart(a, r) + a.size <= Len(a.values)
    ensures ListRow(t, a, r) ==
      if a.validity[r] then ListSlice(t, a.values, FixedRowStart(a, r), FixedRowStart(a, r) + a.size)
      else Done(None)
  {
    ListValuesFit(t, a);
  }

  /** The elements `lo..hi` of a list's child array. A `ScalarBuffer` takes the child's
    * raw values, where a null slot holds 0; the other lists read each element with
    * `arrow_deserialize_internal`. */
  function ListSlice(t: RType, values: Array, lo: nat, hi: nat): (o: Outcome<Option<Value>>)
    requires t.TList? && WellFormed(t) && Readable(t.elem, values) && lo <= hi <= Len(values)
    ensures o.Done? ==> o.value.Some? && o.value.value.VList? && |o.value.value.items| == hi - lo
    decreases t, 0, 0
  {
    if t.kind.KScalarBuffer? then
      match values
      case LeafArray(_, slots) =>
        Done(Some(VList(seq(hi - lo, j requires 0 <= j < hi - lo =>
          match slots[lo + j]
          case Some(x) => x
          case None => VInt(0)))))
      case _ => Panic
    else
      match Gather(SliceOuts(t.elem, values, lo, hi))
      case Done(xs) => Done(Some(VList(xs)))
      case Panic => Panic
  }

  /** Elements `lo..hi` of a child array, each read with `arrow_deserialize_internal`. */
  function SliceOuts(u: RType, values: Array, lo: nat, hi: nat): (outs: seq<Outcome<Value>>)
    requires Readable(u, values) && lo <= hi <= Len(values)
    ensures |outs| == hi - lo
    ensures forall j :: 0 <= j < hi - lo ==> outs[j] == Internal(u, Row(u, values, lo + j))
    decreases u, 3
  {
    seq(hi - lo, j requires 0 <= j < hi - lo => Internal(u, Row(u, values, lo + j)))
  }

  /** Whether row `r` of the struct is valid: no bitmap, or its bit set. */
  predicate ValidRow(a: Array, r: nat)
    requires a.StructArray? && (a.nulls.Some? ==> r < |a.nulls.value|)
  {
    a.nulls.None? || a.nulls.value[r]
  }

  /** A derived struct's iterator at row `r`:
    * - a valid row reads every kept column's row `r` with `arrow_deserialize_internal`
    *   and builds the struct, skipped fields taking their defaults;
    * - a null row still advances every column's iterator (`consume_next`) and is
    *   `None`, unless advancing some column's iterator panics. */
  function StructRow(t: RType, a: Array, r: nat): (o: Outcome<Option<Value>>)
    requires t.TStruct? && !IsTransparent(t) && Readable(t, a) && r < Len(a)
    ensures a.StructArray? && (a.nulls.Some? ==> r < |a.nulls.value|)
    ensures o.Done? && o.value.None? <==> !ValidRow(a, r) && ColumnsSkip(t, a, r)
    ensures o.Done? && o.value.Some? ==>
      ValidRow(a, r) && o.value.value.VStruct? && |o.value.value.members| == |t.fields|
    decreases t, 0, 1
  {
    StructColumnsFit(t, a);
    var ks := Kept(t.fields);
    if ValidRow(a, r) then
      match Gather(ColumnOuts(t, a, r))
      case Done(xs) => Done(Some(Assemble(t, xs)))
      case Panic => Panic
    else if ColumnsSkip(t, a, r) then Done(None)
    else Panic
  }

  /** Whether advancing every kept column's iterator past row `r` completes
    * (`consume_next`). */
  predicate ColumnsSkip(t: RType, a: Array, r: nat)
    requires t.TStruct? && !IsTransparent(t) && Readable(t, a) && r < Len(a)
    decreases t, 0, 0
  {
    StructColumnsFit(t, a);
    forall m :: 0 <= m < |Kept(t.fields)| ==> ItemOk(KeptType(t, m), a.columns[m], r)
  }

  /** Every kept column of a readable struct array is readable and as long as the array. */
  lemma StructColumnsReadable(t: RType, a: Array)
    requires t.TStruct? && !IsTransparent(t) && Readable(t, a)
    ensures a.StructArray? && |a.columns| == |Kept(t.fields)|
    ensures forall m :: 0 <= m < |a.columns| ==>
      Readable(KeptType(t, m), a.columns[m]) && Len(a.columns[m]) == Len(a)
  {
    StructColumnsFit(t, a);
    forall m | 0 <= m < |a.columns|
      ensures Readable(KeptType(t, m), a.columns[m])
    {
      KeptWellFormed(t, m);
    }
  }

  /** Whether each kept column's iterator can step past row `r`. */
  function ColumnSkips(t: RType, a: Array, r: nat): (oks: seq<bool>)
    requires t.TStruct? && !IsTransparent(t) && Readable(t, a) && r < Len(a)
    ensures a.StructArray? && |oks| == |Kept(t.fields)| == |a.columns|
    ensures forall m :: 0 <= m < |oks| ==>
      Readable(KeptType(t, m), a.columns[m]) && r < Len(a.columns[m]) &&
      oks[m] == ItemOk(KeptType(t, m), a.columns[m], r)
    ensures ColumnsSkip(t, a, r) <==> forall m :: 0 <= m < |oks| ==> oks[m]
    decreases t, 0, 1
  {
    StructColumnsReadable(t, a);
    seq(|a.columns|, m requires 0 <= m < |a.columns| => ItemOk(KeptType(t, m), a.columns[m], r))
  }

  /** Row `r` of every kept column, read with `arrow_deserialize_internal`. */
  function ColumnOuts(t: RType, a: Array, r: nat): (outs: seq<Outcome<Value>>)
    requires t.TStruct? && !IsTransparent(t) && Readable(t, a) && r < Len(a)
    ensures |outs| == |Kept(t.fields)| == |a.columns|
    ensures forall m :: 0 <= m < |outs| ==>
      Readable(KeptType(t, m), a.columns[m]) && r < Len(a.columns[m]) &&
      outs[m] == Internal(KeptType(t, m), Row(KeptType(t, m), a.columns[m], r))
    decreases t, 0, 0
  {
    StructColumnsFit(t, a);
    var ks := Kept(t.fields);
    seq(|ks|, m requires 0 <= m < |ks| =>
      KeptWellFormed(t, m);
      Internal(KeptType(t, m), Row(KeptType(t, m), a.columns[m], r)))
  }

  /** The type id of union row `r`. */
  function TypeAt(a: Array, r: nat): (tid: nat)
    requires a.UnionArray? && Aligned(a) && r < |a.typeIds|
    ensures tid < |a.children|
  {
    a.typeIds[r]
  }

  /** `value_offset(r)`: the dense offset, or `r` itself in a sparse union. */
  function OffsetAt(a: Array, r: nat): (off: nat)
    requires a.UnionArray? && Aligned(a) && r < |a.typeIds|
    ensures off < Len(a.children[TypeAt(a, r)])
  {
    match a.valueOffsets
    case Some(offs) => offs[r]
    case None => r
  }

  /** The corrected reading of enum row `r` (see `UnionRowAsWritten` for the derived
    * iterator as generated), used by `Row` and so by `try_into_collection` here. It
    * reads the variant the row's type id names from that child at `value_offset(r)`:
    * - a payload variant is the payload's reading, mapped into the variant;
    * - a unit variant reads its Boolean placeholder: the variant for `true`, `None` for
    *   the null a `push_null` left there. */
  function UnionRow(t: RType, a: Array, r: nat): (o: Outcome<Option<Value>>)
    requires t.TEnum? && Readable(t, a) && r < Len(a)
    ensures a.UnionArray? && TypeAt(a, r) < |t.variants|
    ensures o.Done? && o.value.Some? ==>
      (o.value.value.VUnit? || o.value.value.VCase?) && o.value.value.tag == TypeAt(a, r) &&
      (o.value.value.VUnit? <==> t.variants[TypeAt(a, r)].isUnit)
    ensures t.variants[TypeAt(a, r)].isUnit ==> o.Done?
    decreases t, 0
  {
    var tid := TypeAt(a, r);
    UnionChildFits(t, a, tid);
    assert t.variants[tid] in t.variants;
    var vt := t.variants[tid];
    var payload := Row(vt.fieldType, a.children[tid], OffsetAt(a, r));
    if vt.isUnit then
      (match payload
       case Done(None) => Done(None)
       case _ => Done(Some(VUnit(tid))))
    else WrapCase(tid, payload)
  }

  /** The enum iterator as the derive macro writes it: a unit variant is rebuilt from the
    * type id alone, whatever its placeholder holds. */
  function UnionRowAsWritten(t: RType, a: Array, r: nat): (o: Outcome<Option<Value>>)
    requires t.TEnum? && Readable(t, a) && r < Len(a)
    ensures a.UnionArray? && TypeAt(a, r) < |t.variants|
    ensures o.Done? && o.value.Some? ==>
      (o.value.value.VUnit? || o.value.value.VCase?) && o.value.value.tag == TypeAt(a, r) &&
      (o.value.value.VUnit? <==> t.variants[TypeAt(a, r)].isUnit)
    ensures t.variants[TypeAt(a, r)].isUnit ==> o == Done(Some(VUnit(TypeAt(a, r))))
  {
    var tid := TypeAt(a, r);
    UnionChildFits(t, a, tid);
    assert t.variants[tid] in t.variants;
    var vt := t.variants[tid];
    if vt.isUnit then Done(Some(VUnit(tid)))
    else WrapCase(tid, Row(vt.fieldType, a.children[tid], OffsetAt(a, r)))
  }

  /** Whether advancing the iterator of an array of type `t` past row `r` completes:
    * leaf and list iterators only hand out the raw slot or slice, while a struct's or
    * an enum's iterator reads the row and can panic. `Option<T>` and a transparent
    * struct use their member's iterator. */
  predicate ItemOk(t: RType, a: Array, r: nat)
    requires Readable(t, a) && r < Len(a)
    decreases t, 2
  {
    match t
    case TLeaf(_) => true
    case TList(_, _) => true
    case TOption(u) => ItemOk(u, a, r)
    case TStruct(_, fs, tr) =>
      if tr && |fs| == 1 then
        TransparentField(t);
        ItemOk(fs[0].fieldType, a, r)
      else Row(t, a, r).Done?
    case TEnum(_, _, _) => Row(t, a, r).Done?
  }

  /** A row that reads without panicking can also be skipped without panicking. */
  lemma {:induction false} RowDoneItemOk(t: RType, a: Array, r: nat)
    requires Readable(t, a) && r < Len(a) && Row(t, a, r).Done?
    ensures ItemOk(t, a, r)
  {
    match t
    case TLeaf(_) =>
    case TList(_, _) =>
    case TOption(u) =>
      RowDoneItemOk(u, a, r);
    case TStruct(_, fs, tr) =>
      if tr && |fs| == 1 {
        TransparentField(t);
        RowDoneItemOk(fs[0].fieldType, a, r);
      }
    case TEnum(_, _, _) =>
  }

  // ---------------------------------------------------------------------------
  // try_into_collection
  // ---------------------------------------------------------------------------

  const DataTypeMismatch: string := "Data type mismatch"

  /** The elements of rows `0..n`, each read with `arrow_deserialize_internal`. */
  function Rows(t: RType, a: Array, n: nat): (r: Outcome<seq<Value>>)
    requires Readable(t, a) && n <= Len(a)
    ensures r.Done? ==> forall i :: 0 <= i < n ==> Internal(t, Row(t, a, i)).Done?
    ensures (forall i :: 0 <= i < n ==> Internal(t, Row(t, a, i)).Done?) ==> r.Done?
    ensures r.Done? ==> |r.value| == n && forall i :: 0 <= i < n ==> Internal(t, Row(t, a, i)) == Done(r.value[i])
  {
    var outs := seq(n, i requires 0 <= i < n => Internal(t, Row(t, a, i)));
    assert forall i :: 0 <= i < n ==> outs[i] == Internal(t, Row(t, a, i));
    assert (forall i :: 0 <= i < n ==> Internal(t, Row(t, a, i)).Done?) ==>
      forall i :: 0 <= i < n ==> outs[i].Done?;
    Gather(outs)
  }

  /** `try_into_collection`: compare the declared data type with the array's, then
    * collect one element per row, in row order. */
  function TryIntoCollection(t: RType, a: Array): (r: Outcome<Result<seq<Value>>>)
    requires WellFormed(t) && Shaped(a) && Aligned(a)
    ensures ArrayDataType(a) != DataTypeOf(t) ==> r == Done(Failure(DataTypeMismatch))
    ensures ArrayDataType(a) == DataTypeOf(t) && r.Done? ==>
      forall i :: 0 <= i < Len(a) ==> Internal(t, Row(t, a, i)).Done?
    ensures ArrayDataType(a) == DataTypeOf(t) ==>
      (forall i :: 0 <= i < Len(a) ==> Internal(t, Row(t, a, i)).Done?) ==> r.Done?
    ensures r.Done? && r.value.Success? ==>
      ArrayDataType(a) == DataTypeOf(t) && |r.value.value| == Len(a) &&
      forall i :: 0 <= i < Len(a) ==> Internal(t, Row(t, a, i)) == Done(r.value.value[i])
  {
    if ArrayDataType(a) != DataTypeOf(t) then Done(Failure(DataTypeMismatch))
    else
      match Rows(t, a, Len(a))
      case Done(xs) => Done(Success(xs))
      case Panic => Panic
  }

  // ---------------------------------------------------------------------------
  // BufferBinaryArrayIter
  // ---------------------------------------------------------------------------

  /** The iterator over a binary array that hands out its slots by index. */
  class BufferBinaryArrayIter {
    var index: nat
    const slots: seq<Option<Value>>

    /** `iter_from_array_ref`: start at index 0. */
    constructor (slots: seq<Option<Value>>)
      ensures index == 0 && this.slots == slots
    {
      index := 0;
      this.slots := slots;
    }

    /** `next`: the slot at the index, which then advances; `None` once past the end,
      * without moving. */
    method Next() returns (item: Option<Option<Value>>)
      modifies this
      ensures old(index) >= |slots| ==> item == None && index == old(index)
      ensures old(index) < |slots| ==> item == Some(slots[old(index)]) && index == old(index) + 1
    {
      if index >= |slots| {
        return None;
      } else if slots[index].Some? {
        var value := slots[index].value;
        index := index + 1;
        return Some(Some(value));
      } else {
        index := index + 1;
        return Some(None);
      }
    }

    /** Collecting the iterator: the slots from the index on, in order. */
    method Collect() returns (items: seq<Option<Value>>)
      modifies this
      ensures old(index) <= |slots| ==> items == slots[old(index)..]
      ensures old(index) > |slots| ==> items == []
      ensures index == if old(index) <= |slots| then |slots| else old(index)
    {
      items := [];
      var next := Next();
      while next.Some?
        invariant next.Some? ==>
          old(index) < index <= |slots| && next.value == slots[index - 1] &&
          items == slots[old(index)..index - 1]
        invariant next.None? && old(index) <= |slots| ==> index == |slots| && items == slots[old(index)..]
        invariant next.None? && old(index) > |slots| ==> index == old(index) && items == []
        decreases |slots| - index + (if next.Some? then 1 else 0)
      {
        items := items + [next.value];
        next := Next();
      }
    }
  }
}
