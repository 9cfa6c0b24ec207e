// The type side of arrow_convert: Arrow data types and fields, the Rust-side type
// descriptors the derive macros work from, Rust values, and the schema a type maps to
// (`ArrowField::data_type` for built-in types, derived structs and derived enums).

module Schema {
  import opened Base

  // ---------------------------------------------------------------------------
  // Arrow data types
  // ---------------------------------------------------------------------------

  datatype IntKind = I8 | I16 | I32 | I64 | U8 | U16 | U32 | U64

  datatype UnionMode = Dense | Sparse

  datatype DataType =
    | Boolean
    | Int(kind: IntKind)
    | Utf8
    | LargeUtf8
    | Binary
    | LargeBinary
    | FixedSizeBinary(width: nat)
    | Decimal128(precision: nat, scale: int)
    | List(item: Field)
    | LargeList(item: Field)
    | FixedSizeList(item: Field, size: nat)
    | Struct(fields: seq<Field>)
    | Union(ids: seq<int>, members: seq<Field>, mode: UnionMode)

  datatype Field = Field(name: string, dataType: DataType, nullable: bool)

  // ---------------------------------------------------------------------------
  // Rust-side types
  // ---------------------------------------------------------------------------

  /** The leaf types: each is stored in one arrow-rs leaf builder. */
  datatype Leaf =
    | LBool                         // bool
    | LInt(kind: IntKind)           // u8 .. i64
    | LI128(precision: nat, scale: int)   // I128<PRECISION, SCALE>
    | LUtf8                         // String, &str
    | LLargeUtf8                    // LargeString
    | LBinary                       // Vec<u8>
    | LLargeBinary                  // LargeBinary
    | LBuffer                       // Buffer, ScalarBuffer<u8>
    | LFixedBinary(size: nat)       // FixedSizeBinary<SIZE>, [u8; SIZE]

  /** The list-shaped types. */
  datatype ListKind =
    | KVec                 // Vec<T>
    | KLargeVec            // LargeVec<T>
    | KScalarBuffer        // ScalarBuffer<T> for a native numeric T
    | KFixedSizeVec(size: nat)   // FixedSizeVec<T, SIZE>
    | KArray(size: nat)    // [T; SIZE]

  /** A Rust type as the serializers and deserializers see it. Derived structs and
    * enums carry the field and variant lists that `input.rs` produces. */
  datatype RType =
    | TLeaf(leaf: Leaf)
    | TOption(inner: RType)
    | TList(kind: ListKind, elem: RType)
    | TStruct(name: string, fields: seq<DeriveField>, transparent: bool)
    | TEnum(name: string, variants: seq<DeriveVariant>, dense: bool)

  /** One struct field after attribute processing: its identifier (None for a tuple
    * field; a raw identifier keeps its `r#` prefix), its type after any `type`
    * override, its `name` override and its `skip` flag. */
  datatype DeriveField = DeriveField(ident: Option<string>, fieldType: RType, fieldName: Option<string>, skip: bool)

  /** One enum variant: its identifier, its payload type (`bool` for a unit variant,
    * or the `type` override) and whether it is a unit variant. */
  datatype DeriveVariant = DeriveVariant(ident: string, fieldType: RType, isUnit: bool)

  newtype byte = x: int | 0 <= x < 256

  /** Rust values. A struct value holds every declared field, skipped ones included;
    * an enum value holds its variant's declaration index. */
  datatype Value =
    | VBool(b: bool)
    | VInt(i: int)
    | VStr(s: string)
    | VBytes(bytes: seq<byte>)
    | VNone
    | VSome(inner: Value)
    | VList(items: seq<Value>)
    | VStruct(members: seq<Value>)
    | VUnit(tag: nat)
    | VCase(tag: nat, payload: Value)

  // ---------------------------------------------------------------------------
  // Integer ranges
  // ---------------------------------------------------------------------------

  function Pow2(n: nat): (r: int)
    ensures r >= 1
  {
    if n == 0 then 1 else 2 * Pow2(n - 1)
  }

  predicate InRange(k: IntKind, i: int)
  {
    match k
    case I8 => -Pow2(7) <= i < Pow2(7)
    case I16 => -Pow2(15) <= i < Pow2(15)
    case I32 => -Pow2(31) <= i < Pow2(31)
    case I64 => -Pow2(63) <= i < Pow2(63)
    case U8 => 0 <= i < Pow2(8)
    case U16 => 0 <= i < Pow2(16)
    case U32 => 0 <= i < Pow2(32)
    case U64 => 0 <= i < Pow2(64)
  }

  predicate InI128(i: int)
  {
    -Pow2(127) <= i < Pow2(127)
  }

  // ---------------------------------------------------------------------------
  // Kept fields (the partition on `skip` in derive_struct.rs)
  // ---------------------------------------------------------------------------

  /** Positions among the first `m` fields that are not skipped, in declaration order. */
  function KeptUpTo(fs: seq<DeriveField>, m: nat): (ks: seq<nat>)
    requires m <= |fs|
    ensures forall i :: 0 <= i < |ks| ==> ks[i] < m && !fs[ks[i]].skip
    ensures forall i, j :: 0 <= i < j < |ks| ==> ks[i] < ks[j]
    ensures forall p :: 0 <= p < m && !fs[p].skip ==> p in ks
  {
    if m == 0 then []
    else KeptUpTo(fs, m - 1) + (if fs[m - 1].skip then [] else [m - 1])
  }

  /** The kept fields' positions: exactly the non-skipped fields, in declaration order. */
  function Kept(fs: seq<DeriveField>): (ks: seq<nat>)
    ensures forall i :: 0 <= i < |ks| ==> ks[i] < |fs| && !fs[ks[i]].skip
    ensures forall i, j :: 0 <= i < j < |ks| ==> ks[i] < ks[j]
    ensures forall p :: 0 <= p < |fs| && !fs[p].skip ==> p in ks
  {
    KeptUpTo(fs, |fs|)
  }

  // ---------------------------------------------------------------------------
  // Column names (Common::from in derive_struct.rs)
  // ---------------------------------------------------------------------------

  /** `DEFAULT_FIELD_NAME`, the name of a list's item field. */
  const DefaultFieldName: string := "item"

  function DigitChar(d: nat): char
    requires d < 10
  {
    "0123456789"[d]
  }

  /** The decimal rendering of a natural number, as `format!("{id}")` writes it. */
  function NatToString(n: nat): (s: string)
    ensures |s| >= 1
    ensures forall i :: 0 <= i < |s| ==> '0' <= s[i] <= '9'
  {
    if n < 10 then [DigitChar(n)] else NatToString(n / 10) + [DigitChar(n % 10)]
  }

  /** `format_ident!("{}", ident)`: a raw identifier loses its `r#` prefix. */
  function StripRaw(ident: string): string
  {
    if |ident| >= 2 && ident[..2] == "r#" then ident[2..] else ident
  }

  /** The column name of the kept field `f` at kept position `i`. */
  function ColumnName(f: DeriveField, i: nat): string
  {
    match (f.fieldName, f.ident)
    case (Some(name), _) => name
    case (None, Some(ident)) => StripRaw(ident)
    case (None, None) => "field_" + NatToString(i)
  }

  // ---------------------------------------------------------------------------
  // Data types of Rust types (ArrowField::data_type / ArrowField::field)
  // ---------------------------------------------------------------------------

  function LeafDataType(l: Leaf): DataType
  {
    match l
    case LBool => Boolean
    case LInt(k) => Int(k)
    case LI128(p, s) => Decimal128(p, s)
    case LUtf8 => Utf8
    case LLargeUtf8 => LargeUtf8
    case LBinary => Binary
    case LLargeBinary => LargeBinary
    case LBuffer => Binary
    case LFixedBinary(n) => FixedSizeBinary(n)
  }

  /** A one-field struct marked `transparent`: it takes its member's type and builders. */
  predicate IsTransparent(t: RType)
  {
    t.TStruct? && t.transparent && |t.fields| == 1
  }

  function IdRange(n: nat): (ids: seq<int>)
    ensures |ids| == n && forall i :: 0 <= i < n ==> ids[i] == i
  {
    seq(n, i => i)
  }

  function ModeOf(dense: bool): UnionMode
  {
    if dense then Dense else Sparse
  }

  /** `<T as ArrowField>::field(name)`: only an `Option` is nullable. */
  function FieldOf(t: RType, name: string): Field
    decreases t, 1
  {
    Field(name, DataTypeOf(t), t.TOption?)
  }

  function DataTypeOf(t: RType): DataType
    decreases t, 0
  {
    match t
    case TLeaf(l) => LeafDataType(l)
    case TOption(u) => DataTypeOf(u)
    case TList(k, u) =>
      (match k
       case KVec => List(FieldOf(u, DefaultFieldName))
       case KScalarBuffer => List(FieldOf(u, DefaultFieldName))
       case KLargeVec => LargeList(FieldOf(u, DefaultFieldName))
       case KFixedSizeVec(n) => FixedSizeList(FieldOf(u, DefaultFieldName), n)
       case KArray(n) => FixedSizeList(FieldOf(u, DefaultFieldName), n))
    case TStruct(_, fs, tr) =>
      if tr && |fs| == 1 then DataTypeOf(fs[0].fieldType)
      else
        var ks := Kept(fs);
        Struct(seq(|ks|, i requires 0 <= i < |ks| => FieldOf(fs[ks[i]].fieldType, ColumnName(fs[ks[i]], i))))
    case TEnum(_, vs, dense) =>
      Union(IdRange(|vs|), seq(|vs|, i requires 0 <= i < |vs| => FieldOf(vs[i].fieldType, vs[i].ident)), ModeOf(dense))
  }

  /** The type of the `j`-th kept field of a struct. */
  function KeptType(t: RType, j: nat): (u: RType)
    requires t.TStruct? && j < |Kept(t.fields)|
    ensures u < t
  {
    assert t.fields[Kept(t.fields)[j]] in t.fields;
    t.fields[Kept(t.fields)[j]].fieldType
  }

  /** Kept fields of an accepted struct are themselves accepted types. */
  lemma KeptWellFormed(t: RType, j: nat)
    requires t.TStruct? && WellFormed(t) && j < |Kept(t.fields)|
    ensures WellFormed(KeptType(t, j))
  {
  }

  /** The member of a struct value behind its `j`-th kept field has that field's type. */
  lemma KeptMember(t: RType, v: Value, j: nat)
    requires t.TStruct? && HasType(v, t) && j < |Kept(t.fields)|
    ensures v.VStruct? && Kept(t.fields)[j] < |v.members|
    ensures HasType(v.members[Kept(t.fields)[j]], KeptType(t, j))
  {
  }

  /** The only field of an accepted transparent struct is kept, and the struct takes
    * its data type. */
  lemma TransparentField(t: RType)
    requires WellFormed(t) && IsTransparent(t)
    ensures !t.fields[0].skip && WellFormed(t.fields[0].fieldType)
    ensures t.fields[0].fieldType < t && DataTypeOf(t) == DataTypeOf(t.fields[0].fieldType)
  {
    var fs := t.fields;
    var ks := Kept(fs);
    assert |ks| >= 1;
    assert ks[0] < |fs| == 1 && !fs[ks[0]].skip;
    assert ks[0] == 0;
    assert fs[0] in fs;
  }

  /** The data type of a struct that is not transparent: one field per kept field. */
  lemma StructDataType(t: RType, j: nat)
    requires t.TStruct? && !IsTransparent(t) && j < |Kept(t.fields)|
    ensures DataTypeOf(t).Struct? && |DataTypeOf(t).fields| == |Kept(t.fields)|
    ensures DataTypeOf(t).fields[j] == FieldOf(KeptType(t, j), ColumnName(t.fields[Kept(t.fields)[j]], j))
  {
  }

  /** Every column of a struct that is not transparent has its kept field's type. */
  lemma StructFieldTypes(t: RType)
    requires t.TStruct? && !IsTransparent(t)
    ensures DataTypeOf(t).Struct? && |DataTypeOf(t).fields| == |Kept(t.fields)|
    ensures forall j :: 0 <= j < |Kept(t.fields)| ==>
      DataTypeOf(t).fields[j].dataType == DataTypeOf(KeptType(t, j))
  {
    forall j | 0 <= j < |Kept(t.fields)|
      ensures DataTypeOf(t).fields[j].dataType == DataTypeOf(KeptType(t, j))
    {
      StructDataType(t, j);
    }
  }

  /** Union type ids are `0..n` in declaration order and child `i` is variant `i`'s
    * field, named after the variant. */
  lemma UnionMemberTypes(t: RType)
    requires t.TEnum?
    ensures DataTypeOf(t).Union? && DataTypeOf(t).ids == IdRange(|t.variants|)
    ensures DataTypeOf(t).mode == ModeOf(t.dense)
    ensures |DataTypeOf(t).members| == |t.variants|
    ensures forall i :: 0 <= i < |t.variants| ==>
      DataTypeOf(t).members[i] == FieldOf(t.variants[i].fieldType, t.variants[i].ident)
  {
  }

  /** The struct's schema: one field per kept field (`arrow_schema`). */
  function StructFields(t: RType): seq<Field>
    requires t.TStruct? && !IsTransparent(t)
  {
    DataTypeOf(t).fields
  }

  /** The union's child fields, one per variant. */
  function VariantFields(t: RType): seq<Field>
    requires t.TEnum?
  {
    DataTypeOf(t).members
  }

  // ---------------------------------------------------------------------------
  // Value typing, well-formed declarations, defaults
  // ---------------------------------------------------------------------------

  /** The Rust type system's guarantee that `v` is a value of type `t`. A
    * `FixedSizeVec` or `FixedSizeBinary` holds a `Vec`, whose length is not typed. */
  predicate HasType(v: Value, t: RType)
  {
    match t
    case TLeaf(l) =>
      (match l
       case LBool => v.VBool?
       case LInt(k) => v.VInt? && InRange(k, v.i)
       case LI128(_, _) => v.VInt? && InI128(v.i)
       case LUtf8 => v.VStr?
       case LLargeUtf8 => v.VStr?
       case LBinary => v.VBytes?
       case LLargeBinary => v.VBytes?
       case LBuffer => v.VBytes?
       case LFixedBinary(_) => v.VBytes?)
    case TOption(u) => v.VNone? || (v.VSome? && HasType(v.inner, u))
    case TList(k, u) =>
      v.VList? && (k.KArray? ==> |v.items| == k.size) &&
      forall i :: 0 <= i < |v.items| ==> HasType(v.items[i], u)
    case TStruct(_, fs, _) =>
      v.VStruct? && |v.members| == |fs| &&
      forall j :: 0 <= j < |fs| ==> HasType(v.members[j], fs[j].fieldType)
    case TEnum(_, vs, _) =>
      (v.VUnit? && v.tag < |vs| && vs[v.tag].isUnit) ||
      (v.VCase? && v.tag < |vs| && !vs[v.tag].isUnit && HasType(v.payload, vs[v.tag].fieldType))
  }

  /** `Default::default()` of a type, where Rust has one (derived structs are assumed
    * to derive `Default`; enums have none). */
  function DefaultOf(t: RType): Option<Value>
  {
    match t
    case TLeaf(l) =>
      (match l
       case LBool => Some(VBool(false))
       case LInt(_) => Some(VInt(0))
       case LI128(_, _) => Some(VInt(0))
       case LUtf8 => Some(VStr(""))
       case LLargeUtf8 => Some(VStr(""))
       case _ => Some(VBytes([])))
    case TOption(_) => Some(VNone)
    case TList(k, u) =>
      if k.KArray? then
        (match DefaultOf(u)
         case Some(d) => Some(VList(seq(k.size, _ => d)))
         case None => None)
      else Some(VList([]))
    case TStruct(_, fs, _) =>
      if forall j :: 0 <= j < |fs| ==> DefaultOf(fs[j].fieldType).Some? then
        Some(VStruct(seq(|fs|, j requires 0 <= j < |fs| => DefaultOf(fs[j].fieldType).value)))
      else None
    case TEnum(_, _, _) => None
  }

  /** `ArrowEnableVecForType`: `u8` is not list-enabled (a `Vec<u8>` is binary). */
  predicate VecEnabled(u: RType)
  {
    match u
    case TLeaf(l) => l != LInt(U8)
    case TOption(w) => VecEnabled(w)
    case _ => true
  }

  /** The declarations this model covers: those the derive macros and the Rust type
    * checker accept when `ArrowField`, `ArrowSerialize` and `ArrowDeserialize` are all
    * derived. A skipped field therefore needs a name: the tuple constructor that
    * `ArrowDeserialize` generates has no place for a skipped member. */
  predicate WellFormed(t: RType)
  {
    match t
    case TLeaf(_) => true
    case TOption(u) => WellFormed(u)
    case TList(k, u) =>
      WellFormed(u) && VecEnabled(u) &&
      (k.KScalarBuffer? ==> u.TLeaf? && u.leaf.LInt?)
    case TStruct(_, fs, tr) =>
      |Kept(fs)| >= 1 && (tr ==> |fs| <= 1) &&
      (forall j :: 0 <= j < |fs| && !fs[j].skip ==> WellFormed(fs[j].fieldType)) &&
      (forall j :: 0 <= j < |fs| && fs[j].skip ==> fs[j].ident.Some? && DefaultOf(fs[j].fieldType).Some?)
    case TEnum(_, vs, _) =>
      1 <= |vs| <= 127 &&
      forall i :: 0 <= i < |vs| ==>
        WellFormed(vs[i].fieldType) && (vs[i].isUnit ==> vs[i].fieldType == TLeaf(LBool))
  }
}
