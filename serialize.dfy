// `ArrowSerialize` (serialize/mod.rs) together with the `try_push` of the builders the
// derive macros generate (derive_struct.rs, derive_enum.rs): writing one Rust value
// into the builder of its type.

module Serializer {
  import opened Base
  import opened Schema
  import opened Arrays
  import opened PushNulls

  /** A builder of type `t`: well formed and of `t`'s data type. */
  predicate Fits(t: RType, a: Array)
  {
    Shaped(a) && ArrayDataType(a) == DataTypeOf(t)
  }

  /** The builder after a push and what the push returned. A failed push may still
    * have grown part of the builder: pushes are not atomic. */
  datatype Pushed = Pushed(builder: Array, status: Status)

  /** The columns of a struct builder after its fields were pushed. */
  datatype PushedColumns = PushedColumns(columns: seq<Array>, status: Status)

  /** arrow-rs's error for a fixed-size binary value of the wrong length. */
  const FixedSizeBinaryLengthError: string :=
    "Byte slice does not have the same length as FixedSizeBinaryBuilder value lengths"

  // ---------------------------------------------------------------------------
  // Schema facts the builders rely on
  // ---------------------------------------------------------------------------

  /** Column `j` of a struct builder has the type of the `j`-th kept field. */
  lemma StructColumnFits(t: RType, a: Array, j: nat)
    requires t.TStruct? && !IsTransparent(t) && Fits(t, a) && j < |Kept(t.fields)|
    ensures |a.columns| == |Kept(t.fields)| && Fits(KeptType(t, j), a.columns[j])
  {
    StructDataType(t, j);
  }

  /** Every column of a struct builder has the type of its kept field. */
  lemma StructColumnsFit(t: RType, a: Array)
    requires t.TStruct? && !IsTransparent(t) && Fits(t, a)
    ensures |a.columns| == |Kept(t.fields)|
    ensures forall j :: 0 <= j < |a.columns| ==> Fits(KeptType(t, j), a.columns[j])
  {
    StructFieldTypes(t);
    forall j | 0 <= j < |a.columns|
      ensures Fits(KeptType(t, j), a.columns[j])
    {
      StructColumnFits(t, a, j);
    }
  }

  /** Child `i` of a union builder has the type of variant `i`. */
  lemma UnionChildFits(t: RType, a: Array, i: nat)
    requires t.TEnum? && Fits(t, a) && i < |t.variants|
    ensures |a.children| == |t.variants| && Fits(t.variants[i].fieldType, a.children[i])
    ensures a.valueOffsets.Some? <==> t.dense
  {
    assert DataTypeOf(t).members[i] == FieldOf(t.variants[i].fieldType, t.variants[i].ident);
  }

  /** The child of a list builder has the element type. */
  lemma ListValuesFit(t: RType, a: Array)
    requires t.TList? && Fits(t, a)
    ensures (a.ListArray? || a.FixedSizeListArray?) && Fits(t.elem, a.values)
    ensures a.ListArray? <==> !t.kind.KFixedSizeVec? && !t.kind.KArray?
    ensures a.FixedSizeListArray? ==> a.size == t.kind.size
  {
    assert DataTypeOf(t).item == FieldOf(t.elem, DefaultFieldName);
  }

  // ---------------------------------------------------------------------------
  // new_array
  // ---------------------------------------------------------------------------

  /** `new_array()`: an empty builder of `t`'s data type. A list builder starts with
    * the single offset 0; a struct builder has no bitmap; a dense union builder has
    * an empty offsets vector and a sparse one none. */
  function NewArray(t: RType): (a: Array)
    requires WellFormed(t)
    ensures Fits(t, a) && Aligned(a) && Len(a) == 0
    decreases t, 1
  {
    match t
    case TLeaf(l) => LeafArray(LeafDataType(l), [])
    case TOption(u) => NewArray(u)
    case TList(k, u) =>
      if k.KFixedSizeVec? || k.KArray? then
        FixedSizeListArray(FieldOf(u, DefaultFieldName), k.size, [], NewArray(u))
      else
        ListArray(FieldOf(u, DefaultFieldName), k.KLargeVec?, [0], [], NewArray(u))
    case TStruct(_, fs, tr) =>
      if tr && |fs| == 1 then TransparentField(t); NewArray(fs[0].fieldType)
      else
        StructFieldTypes(t);
        StructArray(DataTypeOf(t).fields, NewColumns(t), None)
    case TEnum(_, vs, dense) =>
      UnionMemberTypes(t);
      UnionArray(IdRange(|vs|), DataTypeOf(t).members, [], if dense then Some([]) else None, NewChildren(t))
  }

  /** The empty column builders of a struct, one per kept field. */
  function NewColumns(t: RType): (cs: seq<Array>)
    requires t.TStruct? && WellFormed(t)
    ensures |cs| == |Kept(t.fields)|
    ensures forall j :: 0 <= j < |cs| ==> Fits(KeptType(t, j), cs[j]) && Aligned(cs[j]) && Len(cs[j]) == 0
    decreases t, 0
  {
    var ks := Kept(t.fields);
    seq(|ks|, j requires 0 <= j < |ks| =>
      KeptWellFormed(t, j);
      NewArray(KeptType(t, j)))
  }

  /** The empty child builders of a union, one per variant. */
  function NewChildren(t: RType): (cs: seq<Array>)
    requires t.TEnum? && WellFormed(t)
    ensures |cs| == |t.variants|
    ensures forall i :: 0 <= i < |cs| ==>
      Fits(t.variants[i].fieldType, cs[i]) && Aligned(cs[i]) && Len(cs[i]) == 0
    decreases t, 0
  {
    var vs := t.variants;
    seq(|vs|, i requires 0 <= i < |vs| =>
      assert vs[i] in vs;
      NewArray(vs[i].fieldType))
  }

  // ---------------------------------------------------------------------------
  // arrow_serialize
  // ---------------------------------------------------------------------------

  /** `<T as ArrowSerialize>::arrow_serialize(v, a)`:
    * - a scalar leaf appends `Some(v)`; a fixed-size binary of the wrong length is
    *   refused with arrow-rs's error and nothing is appended;
    * - `None` is one `push_null`; `Some(x)` serializes `x` into the same builder;
    * - a list serializes its elements in order into the shared child and then
    *   appends one valid row (a variable-size list also appends the child's new
    *   length as offset); an element's error is returned before the row is appended;
    * - a transparent struct delegates to its field; other structs and enums use the
    *   generated `try_push(Some(v))`. */
  function Serialize(t: RType, v: Value, a: Array): (r: Pushed)
    requires WellFormed(t) && Fits(t, a) && HasType(v, t)
    ensures Fits(t, r.builder)
    ensures r.status.Ok? ==> Len(r.builder) == Len(a) + 1
    decreases t, 2
  {
    match t
    case TLeaf(l) =>
      if l.LFixedBinary? && |v.bytes| != l.size then Pushed(a, Err(FixedSizeBinaryLengthError))
      else Pushed(a.(slots := a.slots + [Some(v)]), Ok)
    case TOption(u) =>
      if v.VNone? then Pushed(PushNull(a), Ok) else Serialize(u, v.inner, a)
    case TList(k, u) =>
      ListValuesFit(t, a);
      var e := SerializeElems(u, v.items, 0, a.values);
      if e.status.Err? then Pushed(a.(values := e.builder), e.status)
      else
        (match a
         case ListArray(item, large, offsets, validity, _) =>
           Pushed(ListArray(item, large, offsets + [Len(e.builder)], validity + [true], e.builder), Ok)
         case FixedSizeListArray(item, size, validity, _) =>
           Pushed(FixedSizeListArray(item, size, validity + [true], e.builder), Ok))
    case TStruct(_, fs, tr) =>
      if tr && |fs| == 1 then TransparentField(t); Serialize(fs[0].fieldType, v.members[0], a)
      else StructPush(t, Some(v), a)
    case TEnum(_, _, _) =>
      UnionPush(t, Some(v), a)
  }

  /** The `for i in v.iter() { arrow_serialize(i, values)? }` loop of the list
    * serializers, from element `i` on. */
  function SerializeElems(u: RType, xs: seq<Value>, i: nat, b: Array): (r: Pushed)
    requires WellFormed(u) && Fits(u, b) && i <= |xs|
    requires forall j :: 0 <= j < |xs| ==> HasType(xs[j], u)
    ensures Fits(u, r.builder)
    ensures r.status.Ok? ==> Len(r.builder) == Len(b) + |xs| - i
    decreases u, 3, |xs| - i
  {
    if i == |xs| then Pushed(b, Ok)
    else
      var e := Serialize(u, xs[i], b);
      if e.status.Err? then e else SerializeElems(u, xs, i + 1, e.builder)
  }

  /** The generated `Mutable{Name}Array::try_push` of a (non-transparent) struct:
    * - `None` is one `push_null`;
    * - `Some(v)` serializes every kept field, in declaration order, into its own
    *   column and returns the first error at once; on success it appends `true` to the
    *   bitmap only if the bitmap already exists. */
  function StructPush(t: RType, item: Option<Value>, a: Array): (r: Pushed)
    requires t.TStruct? && !IsTransparent(t) && WellFormed(t) && Fits(t, a)
    requires item.Some? ==> HasType(item.value, t)
    ensures Fits(t, r.builder)
    ensures r.status.Ok? ==> Len(r.builder) == Len(a) + 1
    decreases t, 1
  {
    match item
    case None => Pushed(PushNull(a), Ok)
    case Some(v) =>
      StructColumnsFit(t, a);
      var e := SerializeFields(t, v, 0, a.columns);
      if e.status.Err? then Pushed(a.(columns := e.columns), e.status)
      else
        var nulls := match a.nulls
          case Some(bits) => Some(bits + [true])
          case None => None;
        Pushed(a.(columns := e.columns, nulls := nulls), Ok)
  }

  /** The kept fields `j >= i` of `v`, each serialized into its column. */
  function SerializeFields(t: RType, v: Value, i: nat, cols: seq<Array>): (r: PushedColumns)
    requires t.TStruct? && !IsTransparent(t) && WellFormed(t) && HasType(v, t)
    requires |cols| == |Kept(t.fields)| && i <= |cols|
    requires forall j :: 0 <= j < |cols| ==> Fits(KeptType(t, j), cols[j])
    ensures |r.columns| == |cols|
    ensures forall j :: 0 <= j < |cols| ==> Fits(KeptType(t, j), r.columns[j])
    ensures forall j :: 0 <= j < i ==> r.columns[j] == cols[j]
    ensures r.status.Ok? ==> forall j :: i <= j < |cols| ==> Len(r.columns[j]) == Len(cols[j]) + 1
    decreases t, 0, |cols| - i
  {
    if i == |cols| then PushedColumns(cols, Ok)
    else
      var ks := Kept(t.fields);
      KeptWellFormed(t, i);
      var e := Serialize(KeptType(t, i), v.members[ks[i]], cols[i]);
      if e.status.Err? then PushedColumns(cols[i := e.builder], e.status)
      else SerializeFields(t, v, i + 1, cols[i := e.builder])
  }

  /** The placeholder a unit variant serializes into its Boolean child. */
  function Payload(v: Value): Value
    requires v.VUnit? || v.VCase?
  {
    if v.VUnit? then VBool(true) else v.payload
  }

  /** The generated `Mutable{Name}Array::try_push` of an enum:
    * - `None` is one `push_null`;
    * - `Some(v)` of variant `i` serializes its payload (`true` for a unit variant) into
    *   child `i` and returns its error at once; then a dense union appends type id `i`
    *   and the offset `len(child i) - 1`, while a sparse union pushes a null into every
    *   other child and appends type id `i`. */
  function UnionPush(t: RType, item: Option<Value>, a: Array): (r: Pushed)
    requires t.TEnum? && WellFormed(t) && Fits(t, a)
    requires item.Some? ==> HasType(item.value, t)
    ensures Fits(t, r.builder)
    ensures r.status.Ok? ==> Len(r.builder) == Len(a) + 1
    decreases t, 1
  {
    match item
    case None => Pushed(PushNull(a), Ok)
    case Some(v) =>
      var i := v.tag;
      UnionChildFits(t, a, i);
      var e := Serialize(t.variants[i].fieldType, Payload(v), a.children[i]);
      if e.status.Err? then Pushed(a.(children := a.children[i := e.builder]), e.status)
      else if t.dense then
        Pushed(a.(typeIds := a.typeIds + [i],
                  valueOffsets := Some(a.valueOffsets.value + [Len(e.builder) - 1]),
                  children := a.children[i := e.builder]), Ok)
      else
        Pushed(a.(typeIds := a.typeIds + [i], children := SparseChildren(t, a, i, e.builder)), Ok)
  }

  /** A sparse push of variant `i`: child `i` becomes `grown` and every other child
    * gets one null. */
  function SparseChildren(t: RType, a: Array, i: nat, grown: Array): (cs: seq<Array>)
    requires t.TEnum? && Fits(t, a) && i < |a.children|
    ensures |cs| == |a.children| && cs[i] == grown
    ensures forall j :: 0 <= j < |cs| && j != i ==> cs[j] == PushNull(a.children[j])
  {
    seq(|a.children|, j requires 0 <= j < |a.children| =>
      if j == i then grown else PushNull(a.children[j]))
  }

  // ---------------------------------------------------------------------------
  // Which values a push accepts
  // ---------------------------------------------------------------------------

  /** Every fixed-size binary reached while serializing `v` has the declared width. */
  predicate Widths(t: RType, v: Value)
    requires HasType(v, t)
  {
    match t
    case TLeaf(l) => l.LFixedBinary? ==> |v.bytes| == l.size
    case TOption(u) => v.VSome? ==> Widths(u, v.inner)
    case TList(_, u) => forall j :: 0 <= j < |v.items| ==> Widths(u, v.items[j])
    case TStruct(_, fs, tr) =>
      if tr && |fs| == 1 then Widths(fs[0].fieldType, v.members[0])
      else forall j :: 0 <= j < |fs| && !fs[j].skip ==> Widths(fs[j].fieldType, v.members[j])
    case TEnum(_, vs, _) => v.VCase? ==> Widths(vs[v.tag].fieldType, v.payload)
  }

  /** Every fixed-size binary and every `FixedSizeVec` reached while serializing `v`
    * has the declared length (a `[T; N]` always has). */
  predicate Exact(t: RType, v: Value)
    requires HasType(v, t)
  {
    match t
    case TLeaf(l) => l.LFixedBinary? ==> |v.bytes| == l.size
    case TOption(u) => v.VSome? ==> Exact(u, v.inner)
    case TList(k, u) =>
      (k.KFixedSizeVec? ==> |v.items| == k.size) &&
      forall j :: 0 <= j < |v.items| ==> Exact(u, v.items[j])
    case TStruct(_, fs, tr) =>
      if tr && |fs| == 1 then Exact(fs[0].fieldType, v.members[0])
      else forall j :: 0 <= j < |fs| && !fs[j].skip ==> Exact(fs[j].fieldType, v.members[j])
    case TEnum(_, vs, _) => v.VCase? ==> Exact(vs[v.tag].fieldType, v.payload)
  }

  lemma {:induction false} ExactWidths(t: RType, v: Value)
    requires HasType(v, t) && Exact(t, v)
    ensures Widths(t, v)
  {
    match t
    case TLeaf(_) =>
    case TOption(u) =>
      if v.VSome? {
        ExactWidths(u, v.inner);
      }
    case TList(_, u) =>
      forall j | 0 <= j < |v.items| {
        ExactWidths(u, v.items[j]);
      }
    case TStruct(_, fs, tr) =>
      if tr && |fs| == 1 {
        ExactWidths(fs[0].fieldType, v.members[0]);
      } else {
        forall j | 0 <= j < |fs| && !fs[j].skip {
          ExactWidths(fs[j].fieldType, v.members[j]);
        }
      }
    case TEnum(_, vs, _) =>
      if v.VCase? {
        ExactWidths(vs[v.tag].fieldType, v.payload);
      }
  }

  // ---------------------------------------------------------------------------
  // When a push fails
  // ---------------------------------------------------------------------------

  /** A push succeeds exactly when every fixed-size binary it reaches has the declared
    * width; the only error is arrow-rs's length error. */
  lemma {:induction false} SerializeOk(t: RType, v: Value, a: Array)
    requires WellFormed(t) && Fits(t, a) && HasType(v, t)
    ensures Serialize(t, v, a).status.Ok? <==> Widths(t, v)
    ensures Serialize(t, v, a).status.Err? ==> Serialize(t, v, a).status == Err(FixedSizeBinaryLengthError)
    decreases t, 2
  {
    match t
    case TLeaf(_) =>
    case TOption(u) =>
      if v.VSome? {
        SerializeOk(u, v.inner, a);
      }
    case TList(_, u) =>
      ListValuesFit(t, a);
      ElemsOk(u, v.items, 0, a.values);
    case TStruct(_, fs, tr) =>
      if tr && |fs| == 1 {
        TransparentField(t);
        SerializeOk(fs[0].fieldType, v.members[0], a);
      } else {
        StructPushOk(t, v, a);
      }
    case TEnum(_, _, _) =>
      UnionPushOk(t, v, a);
  }

  lemma {:induction false} ElemsOk(u: RType, xs: seq<Value>, i: nat, b: Array)
    requires WellFormed(u) && Fits(u, b) && i <= |xs|
    requires forall j :: 0 <= j < |xs| ==> HasType(xs[j], u)
    ensures SerializeElems(u, xs, i, b).status.Ok? <==> forall j :: i <= j < |xs| ==> Widths(u, xs[j])
    ensures SerializeElems(u, xs, i, b).status.Err? ==>
      SerializeElems(u, xs, i, b).status == Err(FixedSizeBinaryLengthError)
    decreases u, 3, |xs| - i
  {
    if i < |xs| {
      SerializeOk(u, xs[i], b);
      var e := Serialize(u, xs[i], b);
      if e.status.Ok? {
        ElemsOk(u, xs, i + 1, e.builder);
      }
    }
  }

  lemma {:induction false} StructPushOk(t: RType, v: Value, a: Array)
    requires t.TStruct? && !IsTransparent(t) && WellFormed(t) && Fits(t, a) && HasType(v, t)
    ensures StructPush(t, Some(v), a).status.Ok? <==> Widths(t, v)
    ensures StructPush(t, Some(v), a).status.Err? ==>
      StructPush(t, Some(v), a).status == Err(FixedSizeBinaryLengthError)
    decreases t, 1
  {
    StructColumnsFit(t, a);
    FieldsOk(t, v, 0, a.columns);
    KeptWidths(t, v);
  }

  /** A struct has the declared widths exactly when each kept field has them. */
  lemma KeptWidths(t: RType, v: Value)
    requires t.TStruct? && !IsTransparent(t) && WellFormed(t) && HasType(v, t)
    ensures Widths(t, v) <==>
      forall m :: 0 <= m < |Kept(t.fields)| ==> Widths(KeptType(t, m), v.members[Kept(t.fields)[m]])
  {
    var fs, ks := t.fields, Kept(t.fields);
    if forall m :: 0 <= m < |ks| ==> Widths(KeptType(t, m), v.members[ks[m]]) {
      forall j | 0 <= j < |fs| && !fs[j].skip
        ensures Widths(fs[j].fieldType, v.members[j])
      {
        var m :| 0 <= m < |ks| && ks[m] == j;
      }
    }
  }

  lemma {:induction false} FieldsOk(t: RType, v: Value, i: nat, cols: seq<Array>)
    requires t.TStruct? && !IsTransparent(t) && WellFormed(t) && HasType(v, t)
    requires |cols| == |Kept(t.fields)| && i <= |cols|
    requires forall j :: 0 <= j < |cols| ==> Fits(KeptType(t, j), cols[j])
    ensures SerializeFields(t, v, i, cols).status.Ok? <==>
      forall j :: i <= j < |cols| ==> Widths(KeptType(t, j), v.members[Kept(t.fields)[j]])
    ensures SerializeFields(t, v, i, cols).status.Err? ==>
      SerializeFields(t, v, i, cols).status == Err(FixedSizeBinaryLengthError)
    decreases t, 0, |cols| - i
  {
    if i < |cols| {
      var ks := Kept(t.fields);
      KeptWellFormed(t, i);
      SerializeOk(KeptType(t, i), v.members[ks[i]], cols[i]);
      var e := Serialize(KeptType(t, i), v.members[ks[i]], cols[i]);
      if e.status.Ok? {
        var next := cols[i := e.builder];
        ColumnsFitUpdate(t, cols, i, e.builder);
        FieldsOk(t, v, i + 1, next);
        assert SerializeFields(t, v, i, cols) == SerializeFields(t, v, i + 1, next);
      }
    }
  }

  /** After a successful push of the fields `i..`, column `j >= i` is field `j`
    * serialized into its old column. */
  lemma {:induction false} FieldsColumn(t: RType, v: Value, i: nat, cols: seq<Array>, j: nat)
    requires t.TStruct? && !IsTransparent(t) && WellFormed(t) && HasType(v, t)
    requires |cols| == |Kept(t.fields)| && i <= j < |cols|
    requires forall k :: 0 <= k < |cols| ==> Fits(KeptType(t, k), cols[k])
    requires SerializeFields(t, v, i, cols).status.Ok?
    ensures WellFormed(KeptType(t, j))
    ensures SerializeFields(t, v, i, cols).columns[j] ==
      Serialize(KeptType(t, j), v.members[Kept(t.fields)[j]], cols[j]).builder
    decreases |cols| - i
  {
    var ks := Kept(t.fields);
    KeptWellFormed(t, i);
    KeptWellFormed(t, j);
    var e := Serialize(KeptType(t, i), v.members[ks[i]], cols[i]);
    var next := cols[i := e.builder];
    assert e.status.Ok?;
    assert SerializeFields(t, v, i, cols) == SerializeFields(t, v, i + 1, next);
    ColumnsFitUpdate(t, cols, i, e.builder);
    if j > i {
      FieldsColumn(t, v, i + 1, next, j);
      assert next[j] == cols[j];
    }
  }

  /** Replacing one column by a builder of the same type keeps every column fitting. */
  /** One step of `SerializeFields`: field `i` into its column, then the rest unless
    * it failed. */
  lemma FieldsStep(t: RType, v: Value, i: nat, cols: seq<Array>)
    requires t.TStruct? && !IsTransparent(t) && WellFormed(t) && HasType(v, t)
    requires |cols| == |Kept(t.fields)| && i < |cols|
    requires forall j :: 0 <= j < |cols| ==> Fits(KeptType(t, j), cols[j])
    ensures WellFormed(KeptType(t, i)) && v.VStruct? && Kept(t.fields)[i] < |v.members|
    ensures HasType(v.members[Kept(t.fields)[i]], KeptType(t, i))
    ensures var e := Serialize(KeptType(t, i), v.members[Kept(t.fields)[i]], cols[i]);
      (forall j :: 0 <= j < |cols| ==> Fits(KeptType(t, j), cols[i := e.builder][j])) &&
      SerializeFields(t, v, i, cols) ==
        if e.status.Err? then PushedColumns(cols[i := e.builder], e.status)
        else SerializeFields(t, v, i + 1, cols[i := e.builder])
  {
    KeptWellFormed(t, i);
    KeptMember(t, v, i);
    var e := Serialize(KeptType(t, i), v.members[Kept(t.fields)[i]], cols[i]);
    ColumnsFitUpdate(t, cols, i, e.builder);
  }

  lemma ColumnsFitUpdate(t: RType, cols: seq<Array>, i: nat, b: Array)
    requires t.TStruct? && |cols| == |Kept(t.fields)| && i < |cols|
    requires forall j :: 0 <= j < |cols| ==> Fits(KeptType(t, j), cols[j])
    requires Fits(KeptType(t, i), b)
    ensures forall j :: 0 <= j < |cols| ==> Fits(KeptType(t, j), cols[i := b][j])
  {
  }

  lemma {:induction false} UnionPushOk(t: RType, v: Value, a: Array)
    requires t.TEnum? && WellFormed(t) && Fits(t, a) && HasType(v, t)
    ensures UnionPush(t, Some(v), a).status.Ok? <==> Widths(t, v)
    ensures UnionPush(t, Some(v), a).status.Err? ==>
      UnionPush(t, Some(v), a).status == Err(FixedSizeBinaryLengthError)
    decreases t, 1
  {
    var i := v.tag;
    UnionChildFits(t, a, i);
    assert t.variants[i] in t.variants;
    SerializeOk(t.variants[i].fieldType, Payload(v), a.children[i]);
  }

  // ---------------------------------------------------------------------------
  // Pushes only append, and keep a builder aligned
  // ---------------------------------------------------------------------------

  /** A push, successful or not, only appends to the builder. */
  lemma {:induction false} SerializePrefix(t: RType, v: Value, a: Array)
    requires WellFormed(t) && Fits(t, a) && HasType(v, t)
    ensures Prefix(a, Serialize(t, v, a).builder)
    decreases t, 2
  {
    match t
    case TLeaf(_) =>
    case TOption(u) =>
      if v.VNone? {
        PushNullPrefix(a);
      } else {
        SerializePrefix(u, v.inner, a);
      }
    case TList(_, _) =>
      ListPushPrefix(t, v, a);
    case TStruct(_, fs, tr) =>
      if tr && |fs| == 1 {
        TransparentField(t);
        SerializePrefix(fs[0].fieldType, v.members[0], a);
      } else {
        StructPushPrefix(t, v, a);
      }
    case TEnum(_, _, _) =>
      UnionPushPrefix(t, v, a);
  }

  lemma {:induction false} ListPushPrefix(t: RType, v: Value, a: Array)
    requires t.TList? && WellFormed(t) && Fits(t, a) && HasType(v, t)
    ensures Prefix(a, Serialize(t, v, a).builder)
    decreases t, 1
  {
    ListValuesFit(t, a);
    ElemsPrefix(t.elem, v.items, 0, a.values);
  }

  lemma {:induction false} StructPushPrefix(t: RType, v: Value, a: Array)
    requires t.TStruct? && !IsTransparent(t) && WellFormed(t) && Fits(t, a) && HasType(v, t)
    ensures Prefix(a, StructPush(t, Some(v), a).builder)
    decreases t, 1
  {
    StructColumnsFit(t, a);
    FieldsPrefix(t, v, 0, a.columns);
    PrefixLen(a.columns[0], StructPush(t, Some(v), a).builder.columns[0]);
  }

  lemma {:induction false} ElemsPrefix(u: RType, xs: seq<Value>, i: nat, b: Array)
    requires WellFormed(u) && Fits(u, b) && i <= |xs|
    requires forall j :: 0 <= j < |xs| ==> HasType(xs[j], u)
    ensures Prefix(b, SerializeElems(u, xs, i, b).builder)
    decreases u, 3, |xs| - i
  {
    if i == |xs| {
      PrefixRefl(b);
    } else {
      SerializePrefix(u, xs[i], b);
      var e := Serialize(u, xs[i], b);
      if e.status.Ok? {
        ElemsPrefix(u, xs, i + 1, e.builder);
        PrefixTrans(b, e.builder, SerializeElems(u, xs, i + 1, e.builder).builder);
      }
    }
  }

  lemma {:induction false} FieldsPrefix(t: RType, v: Value, i: nat, cols: seq<Array>)
    requires t.TStruct? && !IsTransparent(t) && WellFormed(t) && HasType(v, t)
    requires |cols| == |Kept(t.fields)| && i <= |cols|
    requires forall j :: 0 <= j < |cols| ==> Fits(KeptType(t, j), cols[j])
    ensures forall j :: 0 <= j < |cols| ==> Prefix(cols[j], SerializeFields(t, v, i, cols).columns[j])
    decreases t, 0, |cols| - i, 1
  {
    if i == |cols| {
      forall j | 0 <= j < |cols| {
        PrefixRefl(cols[j]);
      }
    } else {
      FieldsPrefixStep(t, v, i, cols);
    }
  }

  /** Pushing field `i` extends column `i`, and the fields after it extend theirs. */
  lemma {:induction false} FieldsPrefixStep(t: RType, v: Value, i: nat, cols: seq<Array>)
    requires t.TStruct? && !IsTransparent(t) && WellFormed(t) && HasType(v, t)
    requires |cols| == |Kept(t.fields)| && i < |cols|
    requires forall j :: 0 <= j < |cols| ==> Fits(KeptType(t, j), cols[j])
    ensures forall j :: 0 <= j < |cols| ==> Prefix(cols[j], SerializeFields(t, v, i, cols).columns[j])
    decreases t, 0, |cols| - i, 0
  {
    var r := SerializeFields(t, v, i, cols);
    var ks := Kept(t.fields);
    KeptWellFormed(t, i);
    SerializePrefix(KeptType(t, i), v.members[ks[i]], cols[i]);
    var e := Serialize(KeptType(t, i), v.members[ks[i]], cols[i]);
    var cols' := cols[i := e.builder];
    ColumnsFitUpdate(t, cols, i, e.builder);
    if e.status.Ok? {
      assert r == SerializeFields(t, v, i + 1, cols');
      FieldsPrefix(t, v, i + 1, cols');
      forall j | 0 <= j < |cols|
        ensures Prefix(cols[j], r.columns[j])
      {
        if j == i {
          PrefixTrans(cols[j], cols'[j], r.columns[j]);
        } else {
          assert cols'[j] == cols[j];
        }
      }
    } else {
      assert r.columns == cols';
      forall j | 0 <= j < |cols| && j != i {
        PrefixRefl(cols[j]);
      }
    }
  }

  lemma {:induction false} UnionPushPrefix(t: RType, v: Value, a: Array)
    requires t.TEnum? && WellFormed(t) && Fits(t, a) && HasType(v, t)
    ensures Prefix(a, UnionPush(t, Some(v), a).builder)
    decreases t, 1
  {
    var i := v.tag;
    UnionChildFits(t, a, i);
    assert t.variants[i] in t.variants;
    SerializePrefix(t.variants[i].fieldType, Payload(v), a.children[i]);
    var r := UnionPush(t, Some(v), a);
    var e := Serialize(t.variants[i].fieldType, Payload(v), a.children[i]);
    if e.status.Err? || t.dense {
      assert r.builder.children == a.children[i := e.builder];
    } else {
      assert r.builder.children == SparseChildren(t, a, i, e.builder);
    }
    forall j | 0 <= j < |a.children|
      ensures Prefix(a.children[j], r.builder.children[j])
    {
      if j != i {
        if e.status.Ok? && !t.dense {
          UnionChildFits(t, a, j);
          PushNullPrefix(a.children[j]);
        } else {
          PrefixRefl(a.children[j]);
        }
      }
    }
  }

  /** A successful push of a value whose fixed-size lists have their declared length
    * keeps the builder aligned. */
  lemma {:induction false} SerializeAligned(t: RType, v: Value, a: Array)
    requires WellFormed(t) && Fits(t, a) && HasType(v, t) && Aligned(a) && Exact(t, v)
    requires Serialize(t, v, a).status.Ok?
    ensures Aligned(Serialize(t, v, a).builder)
    decreases t, 2
  {
    match t
    case TLeaf(_) =>
    case TOption(u) =>
      if v.VNone? {
        PushNullAligned(a);
      } else {
        SerializeAligned(u, v.inner, a);
      }
    case TList(_, u) =>
      ListPushAligned(t, v, a);
    case TStruct(_, fs, tr) =>
      if tr && |fs| == 1 {
        TransparentField(t);
        SerializeAligned(fs[0].fieldType, v.members[0], a);
      } else {
        StructPushAligned(t, v, a);
      }
    case TEnum(_, _, _) =>
      UnionPushAligned(t, v, a);
  }

  lemma {:induction false} ListPushAligned(t: RType, v: Value, a: Array)
    requires t.TList? && WellFormed(t) && Fits(t, a) && HasType(v, t) && Aligned(a) && Exact(t, v)
    requires Serialize(t, v, a).status.Ok?
    ensures Aligned(Serialize(t, v, a).builder)
    decreases t, 1
  {
    ListValuesFit(t, a);
    var u := t.elem;
    var e := SerializeElems(u, v.items, 0, a.values);
    ElemsAligned(u, v.items, 0, a.values);
    ElemsPrefix(u, v.items, 0, a.values);
    PrefixLen(a.values, e.builder);
    var b := Serialize(t, v, a).builder;
    if a.ListArray? {
      ListGrowAligned(a, e.builder);
      assert b == ListArray(a.item, a.large, a.offsets + [Len(e.builder)], a.validity + [true], e.builder);
    } else {
      FixedGrowAligned(a, e.builder);
      assert b == FixedSizeListArray(a.item, a.size, a.validity + [true], e.builder);
    }
  }

  lemma {:induction false} ElemsAligned(u: RType, xs: seq<Value>, i: nat, b: Array)
    requires WellFormed(u) && Fits(u, b) && i <= |xs| && Aligned(b)
    requires forall j :: 0 <= j < |xs| ==> HasType(xs[j], u) && Exact(u, xs[j])
    requires SerializeElems(u, xs, i, b).status.Ok?
    ensures Aligned(SerializeElems(u, xs, i, b).builder)
    decreases u, 3, |xs| - i
  {
    if i < |xs| {
      SerializeAligned(u, xs[i], b);
      ElemsAligned(u, xs, i + 1, Serialize(u, xs[i], b).builder);
    }
  }

  lemma {:induction false} StructPushAligned(t: RType, v: Value, a: Array)
    requires t.TStruct? && !IsTransparent(t) && WellFormed(t) && Fits(t, a) && HasType(v, t)
    requires Aligned(a) && Exact(t, v) && StructPush(t, Some(v), a).status.Ok?
    ensures Aligned(StructPush(t, Some(v), a).builder)
    decreases t, 1, 1
  {
    var b := StructPush(t, Some(v), a).builder;
    StructPushColumns(t, v, a);
    StructPushNulls(t, v, a);
    assert b == a.(columns := b.columns, nulls := b.nulls);
    StructGrowAligned(a, b.columns, b.nulls);
  }

  /** A successful struct push leaves every column aligned and one row longer. */
  lemma StructPushColumns(t: RType, v: Value, a: Array)
    requires t.TStruct? && !IsTransparent(t) && WellFormed(t) && Fits(t, a) && HasType(v, t)
    requires Aligned(a) && Exact(t, v) && StructPush(t, Some(v), a).status.Ok?
    ensures a.StructArray? && |StructPush(t, Some(v), a).builder.columns| == |a.columns|
    ensures forall j :: 0 <= j < |a.columns| ==>
      Aligned(StructPush(t, Some(v), a).builder.columns[j]) &&
      Len(StructPush(t, Some(v), a).builder.columns[j]) == Len(a) + 1
    decreases t, 1, 0
  {
    StructColumnsFit(t, a);
    KeptExact(t, v);
    FieldsAligned(t, v, 0, a.columns);
    var b := StructPush(t, Some(v), a).builder;
    assert b.columns == SerializeFields(t, v, 0, a.columns).columns;
    forall j | 0 <= j < |a.columns|
      ensures Aligned(b.columns[j]) && Len(b.columns[j]) == Len(a) + 1
    {
      assert Len(a.columns[j]) == Len(a);
    }
  }

  /** A successful struct push grows an existing bitmap by one bit, in step with the
    * columns. */
  lemma StructPushNulls(t: RType, v: Value, a: Array)
    requires t.TStruct? && !IsTransparent(t) && WellFormed(t) && Fits(t, a) && HasType(v, t)
    requires Aligned(a) && StructPush(t, Some(v), a).status.Ok?
    ensures a.StructArray? && StructPush(t, Some(v), a).builder.nulls.Some? ==>
      |a.columns| > 0 && |StructPush(t, Some(v), a).builder.nulls.value| == Len(a) + 1
  {
    StructColumnsFit(t, a);
  }

  /** Each kept field of a struct whose fixed-size parts have their declared lengths has
    * them too. */
  lemma KeptExact(t: RType, v: Value)
    requires t.TStruct? && !IsTransparent(t) && WellFormed(t) && HasType(v, t) && Exact(t, v)
    ensures forall m :: 0 <= m < |Kept(t.fields)| ==> Exact(KeptType(t, m), v.members[Kept(t.fields)[m]])
  {
    var ks := Kept(t.fields);
    forall m | 0 <= m < |ks|
      ensures Exact(KeptType(t, m), v.members[ks[m]])
    {
    }
  }

  lemma {:induction false} FieldsAligned(t: RType, v: Value, i: nat, cols: seq<Array>)
    requires t.TStruct? && !IsTransparent(t) && WellFormed(t) && HasType(v, t)
    requires |cols| == |Kept(t.fields)| && i <= |cols|
    requires forall j :: 0 <= j < |cols| ==> Fits(KeptType(t, j), cols[j]) && Aligned(cols[j])
    requires forall j :: i <= j < |cols| ==> Exact(KeptType(t, j), v.members[Kept(t.fields)[j]])
    requires SerializeFields(t, v, i, cols).status.Ok?
    ensures forall j :: 0 <= j < |cols| ==> Aligned(SerializeFields(t, v, i, cols).columns[j])
    decreases t, 0, |cols| - i
  {
    if i < |cols| {
      var ks := Kept(t.fields);
      KeptWellFormed(t, i);
      var e := Serialize(KeptType(t, i), v.members[ks[i]], cols[i]);
      assert e.status.Ok?;
      SerializeAligned(KeptType(t, i), v.members[ks[i]], cols[i]);
      var cols' := cols[i := e.builder];
      forall j | 0 <= j < |cols'|
        ensures Fits(KeptType(t, j), cols'[j]) && Aligned(cols'[j])
      {
        if j != i {
          assert cols'[j] == cols[j];
        }
      }
      assert SerializeFields(t, v, i, cols) == SerializeFields(t, v, i + 1, cols');
      FieldsAligned(t, v, i + 1, cols');
    }
  }

  lemma {:induction false} UnionPushAligned(t: RType, v: Value, a: Array)
    requires t.TEnum? && WellFormed(t) && Fits(t, a) && HasType(v, t)
    requires Aligned(a) && Exact(t, v) && UnionPush(t, Some(v), a).status.Ok?
    ensures Aligned(UnionPush(t, Some(v), a).builder)
    decreases t, 1, 1
  {
    var i := v.tag;
    UnionChildFits(t, a, i);
    assert t.variants[i] in t.variants;
    var vt := t.variants[i].fieldType;
    SerializeAligned(vt, Payload(v), a.children[i]);
    if t.dense {
      DensePushAligned(t, v, a);
    } else {
      SparsePushAligned(t, v, a);
    }
  }

  lemma DensePushAligned(t: RType, v: Value, a: Array)
    requires t.TEnum? && t.dense && WellFormed(t) && Fits(t, a) && HasType(v, t)
    requires Aligned(a) && UnionPush(t, Some(v), a).status.Ok?
    requires v.tag < |t.variants| && t.variants[v.tag] in t.variants
    requires Aligned(Serialize(t.variants[v.tag].fieldType, Payload(v), a.children[v.tag]).builder)
    ensures Aligned(UnionPush(t, Some(v), a).builder)
    decreases t, 1, 0
  {
    var i := v.tag;
    UnionChildFits(t, a, i);
    var e := Serialize(t.variants[i].fieldType, Payload(v), a.children[i]);
    DenseGrowAligned(a, i, e.builder);
  }

  lemma SparsePushAligned(t: RType, v: Value, a: Array)
    requires t.TEnum? && !t.dense && WellFormed(t) && Fits(t, a) && HasType(v, t)
    requires Aligned(a) && UnionPush(t, Some(v), a).status.Ok?
    requires v.tag < |t.variants| && t.variants[v.tag] in t.variants
    requires Aligned(Serialize(t.variants[v.tag].fieldType, Payload(v), a.children[v.tag]).builder)
    ensures Aligned(UnionPush(t, Some(v), a).builder)
    decreases t, 1, 0
  {
    var i := v.tag;
    UnionChildFits(t, a, i);
    var e := Serialize(t.variants[i].fieldType, Payload(v), a.children[i]);
    var cs := SparseChildren(t, a, i, e.builder);
    forall j | 0 <= j < |cs|
      ensures Aligned(cs[j]) && Len(cs[j]) == |a.typeIds| + 1
    {
      if j != i {
        UnionChildFits(t, a, j);
        PushNullAligned(a.children[j]);
      }
    }
    SparseGrowAligned(a, i, cs);
  }

  // ---------------------------------------------------------------------------
  // Serializing a collection
  // ---------------------------------------------------------------------------

  /** `arrow_serialize_extend_internal`: serialize the items, in iteration order, into
    * the builder and return the first error at once. */
  method ExtendInternal(t: RType, items: seq<Value>, a: Array) returns (r: Pushed)
    requires WellFormed(t) && Fits(t, a)
    requires forall j :: 0 <= j < |items| ==> HasType(items[j], t)
    ensures r == SerializeElems(t, items, 0, a)
  {
    var builder := a;
    var i := 0;
    while i < |items|
      invariant 0 <= i <= |items|
      invariant Fits(t, builder)
      invariant SerializeElems(t, items, i, builder) == SerializeElems(t, items, 0, a)
    {
      var e := Serialize(t, items[i], builder);
      if e.status.Err? {
        return e;
      }
      builder := e.builder;
      i := i + 1;
    }
    return Pushed(builder, Ok);
  }

  /** What `arrow_serialize_to_mutable_array` returns: a fresh builder extended with
    * every item. It fails exactly when some fixed-size binary has the wrong length;
    * on success it holds one row per item, and when every `FixedSizeVec` also has its
    * declared length the builder is aligned. */
  function MutableArrayOf(t: RType, items: seq<Value>): (r: Result<Array>)
    requires WellFormed(t) && forall j :: 0 <= j < |items| ==> HasType(items[j], t)
    ensures r.Success? <==> forall j {:trigger Widths(t, items[j])} :: 0 <= j < |items| ==> Widths(t, items[j])
    ensures r.Failure? ==> r.message == FixedSizeBinaryLengthError
    ensures r.Success? ==> Fits(t, r.value) && Len(r.value) == |items|
    ensures (forall j {:trigger Exact(t, items[j])} :: 0 <= j < |items| ==> Exact(t, items[j])) ==>
      r.Success? && Aligned(r.value)
  {
    var a := NewArray(t);
    var e := SerializeElems(t, items, 0, a);
    ElemsOk(t, items, 0, a);
    ElemsExact(t, items, a);
    match e.status
    case Ok => Success(e.builder)
    case Err(m) => Failure(m)
  }

  lemma ElemsExact(t: RType, items: seq<Value>, a: Array)
    requires WellFormed(t) && Fits(t, a) && Aligned(a)
    requires forall j :: 0 <= j < |items| ==> HasType(items[j], t)
    ensures (forall j :: 0 <= j < |items| ==> Exact(t, items[j])) ==>
      SerializeElems(t, items, 0, a).status.Ok? && Aligned(SerializeElems(t, items, 0, a).builder)
  {
    if forall j :: 0 <= j < |items| ==> Exact(t, items[j]) {
      forall j | 0 <= j < |items| {
        ExactWidths(t, items[j]);
      }
      ElemsOk(t, items, 0, a);
      ElemsAligned(t, items, 0, a);
    }
  }

  /** `arrow_serialize_to_mutable_array`: `new_array`, then the extend loop. */
  method SerializeToMutableArray(t: RType, items: seq<Value>) returns (r: Result<Array>)
    requires WellFormed(t) && forall j :: 0 <= j < |items| ==> HasType(items[j], t)
    ensures r == MutableArrayOf(t, items)
  {
    var builder := NewArray(t);
    var e := ExtendInternal(t, items, builder);
    if e.status.Err? {
      return Failure(e.status.message);
    }
    return Success(e.builder);
  }

  // ---------------------------------------------------------------------------
  // Record batches
  // ---------------------------------------------------------------------------

  /** A record batch: its schema's fields and one column per field. */
  datatype RecordBatch = RecordBatch(schema: seq<Field>, columns: seq<Array>)

  const SingleArrayError := "RecordBatch must contain a single Array"
  const StructTypeError := "Array in RecordBatch must be of type arrow::datatypes::PhysicalType::Struct"
  const RecordBatchItem := "record_batch_item"

  /** Whether `null_count() > 0`. A union array has no validity of its own. */
  predicate HasNulls(a: Array)
  {
    match a
    case LeafArray(_, slots) => exists k :: 0 <= k < |slots| && slots[k].None?
    case ListArray(_, _, _, validity, _) => exists k :: 0 <= k < |validity| && !validity[k]
    case FixedSizeListArray(_, _, validity, _) => exists k :: 0 <= k < |validity| && !validity[k]
    case StructArray(_, _, nulls) =>
      nulls.Some? && exists k :: 0 <= k < |nulls.value| && !nulls.value[k]
    case UnionArray(_, _, _, _, _) => false
  }

  /** `try_into_arrow` into an `ArrayRef`: `arrow_serialize_to_mutable_array(..)?`
    * followed by `finish()`, which panics when the builder fails the length and offset
    * checks of `Finishable`. */
  function TryIntoArrow(t: RType, items: seq<Value>): (r: Outcome<Result<Array>>)
    requires WellFormed(t) && forall j :: 0 <= j < |items| ==> HasType(items[j], t)
    ensures r.Panic? <==> MutableArrayOf(t, items).Success? && !Finishable(MutableArrayOf(t, items).value)
    ensures r.Done? ==> r.value == MutableArrayOf(t, items)
    ensures (forall j {:trigger Exact(t, items[j])} :: 0 <= j < |items| ==> Exact(t, items[j])) ==>
      r.Done? && r.value.Success? && Aligned(r.value.value) && Len(r.value.value) == |items|
  {
    match MutableArrayOf(t, items)
    case Success(a) =>
      (match Arrays.Finish(a)
       case Done(f) => Done(Success(f))
       case Panic => Panic)
    case Failure(m) => Done(Failure(m))
  }

  /** The `RecordBatch` form of `try_into_arrow`: the finished array as one column named
    * `record_batch_item`, nullable when the column holds a null. */
  function IntoRecordBatch(t: RType, items: seq<Value>): (r: Outcome<Result<RecordBatch>>)
    requires WellFormed(t) && forall j :: 0 <= j < |items| ==> HasType(items[j], t)
    ensures r.Panic? <==> TryIntoArrow(t, items).Panic?
    ensures r.Done? ==> (r.value.Success? <==> MutableArrayOf(t, items).Success?)
    ensures r.Done? && r.value.Success? ==>
      |r.value.value.schema| == 1 && r.value.value.columns == [MutableArrayOf(t, items).value]
    ensures r.Done? && r.value.Success? ==>
      r.value.value.schema[0].name == RecordBatchItem && r.value.value.schema[0].dataType == DataTypeOf(t)
  {
    match TryIntoArrow(t, items)
    case Done(Success(a)) => Done(Success(RecordBatch([Field(RecordBatchItem, ArrayDataType(a), HasNulls(a))], [a])))
    case Done(Failure(m)) => Done(Failure(m))
    case Panic => Panic
  }

  /** A fixed-size list item of the wrong length is written without complaint, and
    * `finish` then panics: `[1, 2, 3]` as a `FixedSizeVec<i32, 2>`. */
  lemma WrongLengthFixedSizeVecPanics()
    ensures var t := TList(KFixedSizeVec(2), TLeaf(LInt(I32)));
      WellFormed(t) && HasType(VList([VInt(1), VInt(2), VInt(3)]), t) &&
      MutableArrayOf(t, [VList([VInt(1), VInt(2), VInt(3)])]).Success? &&
      TryIntoArrow(t, [VList([VInt(1), VInt(2), VInt(3)])]).Panic?
  {
  }

  /** `RecordBatch::from(&StructArray)`: the struct's fields become the schema and its
    * columns the batch's columns; arrow-rs panics when the struct array has a null row. */
  function FromStructArray(a: Array): (r: Outcome<RecordBatch>)
    requires a.StructArray?
    ensures r.Done? <==> !HasNulls(a)
    ensures r.Done? ==> r.value.schema == a.fields && r.value.columns == a.columns
  {
    if HasNulls(a) then Panic else Done(RecordBatch(a.fields, a.columns))
  }

  /** `FlattenRecordBatch::flatten`. */
  function Flatten(b: RecordBatch): (r: Outcome<Result<RecordBatch>>)
    ensures |b.columns| != 1 ==> r == Done(Failure(SingleArrayError))
    ensures |b.columns| == 1 && !ArrayDataType(b.columns[0]).Struct? ==> r == Done(Failure(StructTypeError))
    ensures r.Done? && r.value.Success? ==>
      |b.columns| == 1 && b.columns[0].StructArray? &&
      r.value.value == RecordBatch(b.columns[0].fields, b.columns[0].columns)
  {
    if |b.columns| != 1 then Done(Failure(SingleArrayError))
    else if !ArrayDataType(b.columns[0]).Struct? then Done(Failure(StructTypeError))
    else
      match b.columns[0]
      case StructArray(_, _, _) =>
        (match FromStructArray(b.columns[0])
         case Done(batch) => Done(Success(batch))
         case Panic => Panic)
      case _ => Done(Failure(StructTypeError))
  }

  /** Serializing only non-null structs never creates a struct bitmap. */
  lemma {:induction false} StructRowsKeepNoBitmap(t: RType, items: seq<Value>, i: nat, b: Array)
    requires t.TStruct? && !IsTransparent(t) && WellFormed(t) && Fits(t, b) && i <= |items|
    requires forall j :: 0 <= j < |items| ==> HasType(items[j], t)
    requires b.nulls.None?
    ensures SerializeElems(t, items, i, b).builder.nulls.None?
    decreases |items| - i
  {
    if i < |items| {
      var e := Serialize(t, items[i], b);
      assert e == StructPush(t, Some(items[i]), b);
      if e.status.Ok? {
        StructRowsKeepNoBitmap(t, items, i + 1, e.builder);
      }
    }
  }

  /** Flattening the record batch of a collection of (non-transparent) derived structs
    * gives one column per kept field, named and typed as the struct's schema says,
    * each with one row per item. */
  lemma FlattenStructBatch(t: RType, items: seq<Value>)
    requires t.TStruct? && !IsTransparent(t) && WellFormed(t)
    requires forall j :: 0 <= j < |items| ==> HasType(items[j], t) && Exact(t, items[j])
    ensures IntoRecordBatch(t, items).Done? && IntoRecordBatch(t, items).value.Success?
    ensures Flatten(IntoRecordBatch(t, items).value.value) ==
      Done(Success(RecordBatch(DataTypeOf(t).fields, MutableArrayOf(t, items).value.columns)))
    ensures var cols := MutableArrayOf(t, items).value.columns;
      |cols| == |Kept(t.fields)| &&
      forall j :: 0 <= j < |cols| ==>
        ArrayDataType(cols[j]) == DataTypeOf(KeptType(t, j)) && Len(cols[j]) == |items|
  {
    var a := NewArray(t);
    StructRowsKeepNoBitmap(t, items, 0, a);
    var c := MutableArrayOf(t, items).value;
    assert c == SerializeElems(t, items, 0, a).builder;
    assert Aligned(c) && Len(c) == |items|;
    assert c.StructArray? && c.nulls.None?;
    assert !HasNulls(c);
    assert IntoRecordBatch(t, items).value.value == RecordBatch([Field(RecordBatchItem, ArrayDataType(c), false)], [c]);
    assert ArrayDataType(c) == DataTypeOf(t);
    StructColumnsFit(t, c);
  }
}
