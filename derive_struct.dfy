// The code `#[derive(ArrowField, ArrowSerialize, ArrowDeserialize)]` generates for a
// struct (derive_struct.rs): the column names, the builder `Mutable{Name}Array` and
// the iterator `{Name}ArrayIterator`.

module DeriveStruct {
  import opened Base
  import opened Schema
  import opened Arrays
  import PushNulls
  import NullBuilders
  import opened Serializer
  import opened Deserializer

  // ---------------------------------------------------------------------------
  // Columns (Common::from)
  // ---------------------------------------------------------------------------

  /** The struct's columns are its kept fields, in declaration order, each named by its
    * `name` attribute, else by its identifier without a `r#` prefix, else `field_{i}`
    * with `i` its position among the kept fields, and typed by the field's type. */
  lemma ColumnsOfStruct(t: RType)
    requires t.TStruct? && !IsTransparent(t) && WellFormed(t)
    ensures |StructFields(t)| == |Kept(t.fields)| >= 1
    ensures forall m :: 0 <= m < |Kept(t.fields)| ==>
      var f := t.fields[Kept(t.fields)[m]];
      !f.skip &&
      StructFields(t)[m].dataType == DataTypeOf(f.fieldType) &&
      StructFields(t)[m].nullable == f.fieldType.TOption? &&
      (f.fieldName.Some? ==> StructFields(t)[m].name == f.fieldName.value) &&
      (f.fieldName.None? && f.ident.Some? ==> StructFields(t)[m].name == StripRaw(f.ident.value)) &&
      (f.fieldName.None? && f.ident.None? ==> StructFields(t)[m].name == "field_" + NatToString(m))
    ensures forall m, n :: 0 <= m < n < |Kept(t.fields)| ==> Kept(t.fields)[m] < Kept(t.fields)[n]
  {
    forall m | 0 <= m < |Kept(t.fields)|
      ensures StructFields(t)[m] == FieldOf(KeptType(t, m), ColumnName(t.fields[Kept(t.fields)[m]], m))
    {
      StructDataType(t, m);
    }
  }

  /** A raw identifier's `r#` is not part of its column name; other identifiers are
    * used as they are. */
  lemma StripRawPrefix(ident: string)
    ensures StripRaw("r#" + ident) == ident
    ensures |ident| < 2 || ident[..2] != "r#" ==> StripRaw(ident) == ident
  {
    assert ("r#" + ident)[..2] == "r#";
    assert ("r#" + ident)[2..] == ident;
  }

  /** A struct whose fields are all skipped is refused. */
  lemma AllSkippedRefused(t: RType)
    requires t.TStruct? && forall j :: 0 <= j < |t.fields| ==> t.fields[j].skip
    ensures Kept(t.fields) == [] && !WellFormed(t)
  {
    NoneKeptUpTo(t.fields, |t.fields|);
  }

  lemma {:induction false} NoneKeptUpTo(fs: seq<DeriveField>, m: nat)
    requires m <= |fs| && forall j :: 0 <= j < |fs| ==> fs[j].skip
    ensures KeptUpTo(fs, m) == []
  {
    if m > 0 {
      NoneKeptUpTo(fs, m - 1);
    }
  }

  // ---------------------------------------------------------------------------
  // Mutable{Name}Array
  // ---------------------------------------------------------------------------

  /** The generated builder: one child builder per kept field and a validity bitmap
    * that exists only once a null was pushed. */
  class MutableStructArray {
    const t: RType
    const fields: seq<Field>
    var columns: seq<Array>
    var validity: Option<seq<bool>>

    /** The struct array this builder would finish into. */
    function State(): Array
      reads this
    {
      StructArray(fields, columns, validity)
    }

    /** A builder of the derived struct `t`: its columns have the kept fields' types. */
    predicate Valid()
      reads this
    {
      t.TStruct? && !IsTransparent(t) && WellFormed(t) && fields == StructFields(t) && Fits(t, State())
    }

    /** `new`: an empty child builder per kept field, no bitmap. */
    constructor (t: RType)
      requires t.TStruct? && !IsTransparent(t) && WellFormed(t)
      ensures Valid() && this.t == t
      ensures State() == NewArray(t) && Aligned(State())
    {
      this.t := t;
      fields := StructFields(t);
      columns := NewColumns(t);
      validity := None;
      new;
      StructFieldTypes(t);
    }

    /** `len`: the first column's length, which every column and the bitmap share in an
      * aligned builder. */
    method Len() returns (n: nat)
      requires Valid()
      ensures n == Arrays.Len(State())
      ensures Aligned(State()) ==> forall m :: 0 <= m < |columns| ==> Arrays.Len(columns[m]) == n
      ensures Aligned(State()) && validity.Some? ==> |validity.value| == n
    {
      n := Arrays.Len(columns[0]);
    }

    /** `init_validity`: the bitmap of a builder that has just seen its first null,
      * `len - 1` valid bits then one null bit. */
    method InitValidity()
      requires Valid() && Arrays.Len(State()) >= 1
      modifies this
      ensures columns == old(columns)
      ensures validity == Some(PushNulls.InitValidity(Arrays.Len(State())))
    {
      var length := Arrays.Len(columns[0]);
      var bits := new NullBuilders.BooleanBufferBuilder();
      var i := 0;
      while i < length - 1
        invariant 0 <= i <= length - 1
        invariant columns == old(columns)
        invariant bits.bits == seq(i, _ => true)
      {
        bits.Append(true);
        i := i + 1;
      }
      bits.Append(false);
      validity := Some(bits.bits);
    }

    /** `push_null`: one null into every column, then `false` into the bitmap, creating
      * it if there was none. */
    method PushNull()
      requires Valid()
      modifies this
      ensures State() == PushNulls.PushNull(old(State()))
      ensures Valid()
      ensures Arrays.Len(State()) == old(Arrays.Len(State())) + 1
      ensures old(Aligned(State())) ==> Aligned(State())
    {
      ghost var a := State();
      StructColumnsFit(t, a);
      var i := 0;
      while i < |columns|
        invariant 0 <= i <= |columns| == |a.columns|
        invariant validity == a.nulls
        invariant forall j :: 0 <= j < |columns| ==> Shaped(a.columns[j])
        invariant forall j :: 0 <= j < |columns| ==>
          columns[j] == if j < i then PushNulls.PushNull(a.columns[j]) else a.columns[j]
      {
        columns := columns[i := PushNulls.PushNull(columns[i])];
        i := i + 1;
      }
      PushNullFacts(t, a);
      assert columns == PushNulls.PushNull(a).columns;
      FitsIgnoresNulls(t, PushNulls.PushNull(a), validity);
      if validity.Some? {
        validity := Some(validity.value + [false]);
      } else {
        InitValidity();
      }
    }

    /** `try_push`:
      * - `None` is one `push_null`;
      * - `Some(v)` serializes every kept field into its column, in field order, and
      *   returns the first error at once, leaving the bitmap untouched and the earlier
      *   columns grown; otherwise it appends `true` to the bitmap if there is one. */
    method TryPush(item: Option<Value>) returns (status: Status)
      requires Valid() && (item.Some? ==> HasType(item.value, t))
      modifies this
      ensures Valid()
      ensures State() == StructPush(t, item, old(State())).builder
      ensures status == StructPush(t, item, old(State())).status
      ensures status.Err? ==> validity == old(validity)
      ensures status.Ok? ==> Arrays.Len(State()) == old(Arrays.Len(State())) + 1
      ensures old(Aligned(State())) && status.Ok? && (item.Some? ==> Exact(t, item.value)) ==>
        Aligned(State())
    {
      ghost var a := State();
      match item
      case None =>
        PushNull();
        status := Ok;
      case Some(v) =>
        StructColumnsFit(t, a);
        status := PushFields(v);
        if status.Ok? && validity.Some? {
          validity := Some(validity.value + [true]);
        }
        StructPushByFields(t, v, a, columns, status);
        if status.Ok? && Aligned(a) && Exact(t, v) {
          StructPushAligned(t, v, a);
        }
    }

    /** The `arrow_serialize(i.field, &mut self.field)?` sequence of `try_push`: each
      * kept field into its column, in order, up to the first error. */
    method PushFields(v: Value) returns (status: Status)
      requires t.TStruct? && !IsTransparent(t) && WellFormed(t) && HasType(v, t)
      requires |columns| == |Kept(t.fields)|
      requires forall j :: 0 <= j < |columns| ==> Fits(KeptType(t, j), columns[j])
      modifies this`columns
      ensures SerializeFields(t, v, 0, old(columns)) == PushedColumns(columns, status)
    {
      var ks := Kept(t.fields);
      var i := 0;
      while i < |columns|
        invariant 0 <= i <= |columns| == |ks|
        invariant forall j :: 0 <= j < |columns| ==> Fits(KeptType(t, j), columns[j])
        invariant SerializeFields(t, v, i, columns) == SerializeFields(t, v, 0, old(columns))
      {
        FieldsStep(t, v, i, columns);
        var e := Serialize(KeptType(t, i), v.members[ks[i]], columns[i]);
        columns := columns[i := e.builder];
        if e.status.Err? {
          return e.status;
        }
        i := i + 1;
      }
      status := Ok;
    }

    /** `try_extend`: push the items in order, stopping at the first error. */
    method TryExtend(items: seq<Option<Value>>) returns (status: Status)
      requires Valid() && forall k :: 0 <= k < |items| && items[k].Some? ==> HasType(items[k].value, t)
      modifies this
      ensures Valid()
      ensures ExtendAll(t, items, 0, old(State())) == Pushed(State(), status)
    {
      ghost var a := State();
      var k := 0;
      status := Ok;
      while k < |items|
        invariant 0 <= k <= |items| && Valid() && status == Ok
        invariant ExtendAll(t, items, k, State()) == ExtendAll(t, items, 0, a)
      {
        ghost var before := State();
        status := TryPush(items[k]);
        if status.Err? {
          assert ExtendAll(t, items, k, before) == Pushed(State(), status);
          return;
        }
        k := k + 1;
      }
    }

    /** `finish`: the struct array, with the child builders and the bitmap reset.
      * `StructArray::new`, or a column's own `finish`, panics on a builder that a
      * failed push left uneven; an aligned builder always passes these length and offset
      * checks (the null check on non-nullable children is not modelled). */
    method Finish() returns (r: Outcome<Array>)
      requires Valid()
      modifies this
      ensures r == Arrays.Finish(old(State()))
      ensures Aligned(old(State())) ==> r == Done(old(State()))
      ensures Valid() && State() == NewArray(t)
    {
      r := Arrays.Finish(State());
      columns := NewColumns(t);
      validity := None;
      StructFieldTypes(t);
    }

    /** `finish_cloned`: the struct array, leaving the builder as it is; it panics
      * where `finish` does. */
    method FinishCloned() returns (r: Outcome<Array>)
      requires Valid()
      ensures r == Arrays.Finish(State())
      ensures r.Done? ==> Fits(t, r.value) && ArrayDataType(r.value) == DataTypeOf(t)
      ensures Aligned(State()) ==> r == Done(State())
    {
      r := Arrays.Finish(StructArray(fields, columns, validity));
    }
  }

  /** `try_extend` from item `k` on: each item pushed in turn, the first error ending
    * it. */
  function ExtendAll(t: RType, items: seq<Option<Value>>, k: nat, a: Array): (r: Pushed)
    requires t.TStruct? && !IsTransparent(t) && WellFormed(t) && Fits(t, a) && k <= |items|
    requires forall j :: 0 <= j < |items| && items[j].Some? ==> HasType(items[j].value, t)
    ensures Fits(t, r.builder) && Prefix(a, r.builder)
    ensures r.status.Ok? ==> Len(r.builder) == Len(a) + |items| - k
    decreases |items| - k
  {
    if k == |items| then
      PrefixRefl(a);
      Pushed(a, Ok)
    else
      var e := StructPush(t, items[k], a);
      StructPushPrefix(t, items[k], a);
      if e.status.Err? then e
      else
        var r := ExtendAll(t, items, k + 1, e.builder);
        PrefixTrans(a, e.builder, r.builder);
        r
  }

  /** A struct push is its fields' pushes, followed on success by a valid bit if there
    * is a bitmap. */
  lemma StructPushByFields(t: RType, v: Value, a: Array, cols: seq<Array>, status: Status)
    requires t.TStruct? && !IsTransparent(t) && WellFormed(t) && Fits(t, a) && HasType(v, t)
    requires |a.columns| == |Kept(t.fields)|
    requires forall j :: 0 <= j < |a.columns| ==> Fits(KeptType(t, j), a.columns[j])
    requires SerializeFields(t, v, 0, a.columns) == PushedColumns(cols, status)
    ensures StructPush(t, Some(v), a) ==
      Pushed(a.(columns := cols, nulls := if status.Ok? && a.nulls.Some? then Some(a.nulls.value + [true]) else a.nulls), status)
  {
  }

  /** A null keeps a struct builder of its type, adds one row, and keeps it aligned. */
  lemma PushNullFacts(t: RType, a: Array)
    requires t.TStruct? && !IsTransparent(t) && Fits(t, a)
    ensures Fits(t, PushNulls.PushNull(a)) && Len(PushNulls.PushNull(a)) == Len(a) + 1
    ensures Aligned(a) ==> Aligned(PushNulls.PushNull(a))
  {
    if Aligned(a) {
      PushNulls.PushNullAligned(a);
    }
  }

  /** Whether a struct builder has its type does not depend on its bitmap. */
  lemma FitsIgnoresNulls(t: RType, a: Array, nulls: Option<seq<bool>>)
    requires a.StructArray? && Fits(t, a)
    ensures Fits(t, a.(nulls := nulls)) && Len(a.(nulls := nulls)) == Len(a)
  {
  }

  /** A struct push, of a value or a null, only appends. */
  lemma StructPushPrefix(t: RType, item: Option<Value>, a: Array)
    requires t.TStruct? && !IsTransparent(t) && WellFormed(t) && Fits(t, a)
    requires item.Some? ==> HasType(item.value, t)
    ensures Prefix(a, StructPush(t, item, a).builder)
  {
    match item
    case None =>
      PushNulls.PushNullPrefix(a);
    case Some(v) =>
      assert StructPush(t, item, a) == Serialize(t, v, a);
      SerializePrefix(t, v, a);
  }

  /** A struct `{ a: i32, b: FixedSizeBinary<2> }`. */
  function PairStruct(): (t: RType)
    ensures t.TStruct? && !IsTransparent(t) && WellFormed(t)
  {
    TStruct("S", [DeriveField(Some("a"), TLeaf(LInt(I32)), None, false),
                  DeriveField(Some("b"), TLeaf(LFixedBinary(2)), None, false)], false)
  }

  /** Both fields of the pair struct are kept, as columns 0 and 1. */
  lemma PairKept()
    ensures Kept(PairStruct().fields) == [0, 1]
    ensures KeptType(PairStruct(), 0) == TLeaf(LInt(I32)) && KeptType(PairStruct(), 1) == TLeaf(LFixedBinary(2))
  {
    PairKeptPositions();
  }

  lemma PairKeptPositions()
    ensures Kept(PairStruct().fields) == [0, 1]
  {
    var fs := PairStruct().fields;
    assert KeptUpTo(fs, 1) == [0];
  }

  /** A push whose second field has the wrong width fails after writing the first
    * column, and `finish` on that builder then panics on the uneven columns. */
  lemma FailedPushThenFinishPanics()
    ensures var v := VStruct([VInt(1), VBytes([0, 0, 0])]);
      HasType(v, PairStruct()) &&
      StructPush(PairStruct(), Some(v), NewArray(PairStruct())).status.Err? &&
      Arrays.Finish(StructPush(PairStruct(), Some(v), NewArray(PairStruct())).builder).Panic?
  {
    var t := PairStruct();
    var v := VStruct([VInt(1), VBytes([0, 0, 0])]);
    PairFieldsFail();
    var b := StructPush(t, Some(v), NewArray(t)).builder;
    assert b.columns == SerializeFields(t, v, 0, NewArray(t).columns).columns;
    assert !Finishable(b);
  }

  /** The first column takes `1`, then the second refuses three bytes. */
  lemma PairFieldsFail()
    ensures HasType(VStruct([VInt(1), VBytes([0, 0, 0])]), PairStruct())
    ensures var e := SerializeFields(PairStruct(), VStruct([VInt(1), VBytes([0, 0, 0])]), 0, NewArray(PairStruct()).columns);
      e.status.Err? && Arrays.Len(e.columns[0]) == 1 && Arrays.Len(e.columns[1]) == 0
  {
    PairFirstStep();
    PairSecondStep();
  }

  /** The empty columns of the pair struct. */
  lemma PairColumns()
    ensures NewArray(PairStruct()).columns == [NewArray(TLeaf(LInt(I32))), NewArray(TLeaf(LFixedBinary(2)))]
  {
    var t := PairStruct();
    PairKept();
    assert NewArray(t).columns == NewColumns(t);
  }

  /** The first field is pushed into its column, and serializing goes on. */
  lemma PairFirstStep()
    ensures var t := PairStruct();
      var v := VStruct([VInt(1), VBytes([0, 0, 0])]);
      var cols := NewArray(t).columns;
      HasType(v, t) && |cols| == 2 &&
      var e0 := Serialize(KeptType(t, 0), v.members[Kept(t.fields)[0]], cols[0]);
      e0.status.Ok? && Arrays.Len(e0.builder) == 1 &&
      SerializeFields(t, v, 0, cols) == SerializeFields(t, v, 1, cols[0 := e0.builder])
  {
    PairKept();
    PairColumns();
    PairColumnPushes();
  }

  /** The second field is refused and serializing stops with an unchanged column. */
  lemma PairSecondStep()
    ensures var t := PairStruct();
      var v := VStruct([VInt(1), VBytes([0, 0, 0])]);
      var cols := NewArray(t).columns;
      HasType(v, t) && |cols| == 2 &&
      var b0 := Serialize(KeptType(t, 0), v.members[Kept(t.fields)[0]], cols[0]).builder;
      var e := SerializeFields(t, v, 1, cols[0 := b0]);
      e.status.Err? && e.columns[0] == b0 && Arrays.Len(e.columns[1]) == 0
  {
    PairKept();
    PairColumns();
    PairColumnPushes();
  }

  /** Each column on its own: `1` is pushed, three bytes are refused and leave the
    * column empty. */
  lemma PairColumnPushes()
    ensures var e := Serialize(TLeaf(LInt(I32)), VInt(1), NewArray(TLeaf(LInt(I32))));
      e.status.Ok? && Arrays.Len(e.builder) == 1
    ensures var e := Serialize(TLeaf(LFixedBinary(2)), VBytes([0, 0, 0]), NewArray(TLeaf(LFixedBinary(2))));
      e.status.Err? && Arrays.Len(e.builder) == 0
  {
  }

  // ---------------------------------------------------------------------------
  // {Name}ArrayIterator
  // ---------------------------------------------------------------------------

  /** The items of row `r` in every column, each read by its column's iterator. */
  method ReadColumns(t: RType, a: Array, r: nat) returns (outs: seq<Outcome<Value>>)
    requires t.TStruct? && !IsTransparent(t) && Readable(t, a) && r < Arrays.Len(a)
    ensures outs == ColumnOuts(t, a, r)
  {
    ghost var want := ColumnOuts(t, a, r);
    outs := [];
    var m := 0;
    while m < |a.columns|
      invariant 0 <= m <= |want| == |a.columns|
      invariant outs == want[..m]
    {
      outs := outs + [Internal(KeptType(t, m), Row(KeptType(t, m), a.columns[m], r))];
      m := m + 1;
      assert outs == want[..m];
    }
    assert want[..m] == want;
  }

  /** The items of row `r` in every column, as each column iterator's `next` yields
    * them and `consume_next` discards them: whether none of them panics. */
  method SkipColumns(t: RType, a: Array, r: nat) returns (ok: bool)
    requires t.TStruct? && !IsTransparent(t) && Readable(t, a) && r < Arrays.Len(a)
    ensures ok <==> ColumnsSkip(t, a, r)
  {
    ghost var want := ColumnSkips(t, a, r);
    ok := true;
    var m := 0;
    while m < |a.columns|
      invariant 0 <= m <= |want|
      invariant ok <==> forall j :: 0 <= j < m ==> want[j]
    {
      ok := ok && ItemOk(KeptType(t, m), a.columns[m], r);
      m := m + 1;
    }
  }

  /** The generated iterator: one iterator per column and, when the array has a
    * bitmap, an iterator over its bits. */
  class StructArrayIterator {
    const t: RType
    const arr: Array
    const hasValidity: bool
    var cursors: seq<nat>
    var validityPos: nat

    predicate Valid()
      reads this
    {
      t.TStruct? && !IsTransparent(t) && Readable(t, arr) && arr.StructArray? &&
      |cursors| == |arr.columns| >= 1 && hasValidity == arr.nulls.Some?
    }

    /** Every column iterator is at the same row. */
    predicate Together()
      reads this
      requires Valid()
    {
      forall m :: 0 <= m < |cursors| ==> cursors[m] == cursors[0]
    }

    /** The column iterators and, if there is a bitmap, the bit iterator are all at the
      * same row: the iterator advances all of them once per row, null rows included. */
    predicate Lockstep()
      reads this
      requires Valid()
    {
      Together() && (hasValidity ==> validityPos == cursors[0]) && (!hasValidity ==> validityPos == 0)
    }

    /** The row the iterator is at. */
    function Position(): nat
      reads this
      requires Valid()
    {
      cursors[0]
    }

    /** `iter_from_array_ref`: every column iterator and the bit iterator at row 0. */
    constructor (t: RType, arr: Array)
      requires t.TStruct? && !IsTransparent(t) && Readable(t, arr)
      ensures Valid() && Lockstep() && Position() == 0
      ensures this.t == t && this.arr == arr
    {
      this.t := t;
      this.arr := arr;
      StructFieldTypes(t);
      hasValidity := arr.nulls.Some?;
      cursors := seq(|arr.columns|, _ => 0);
      validityPos := 0;
    }

    /** `return_next`: advance every column iterator and build the struct from their
      * items with `arrow_deserialize_internal`; `None` once the columns are exhausted. */
    method ReturnNext() returns (o: Outcome<Option<Value>>)
      requires Valid() && Together()
      modifies this
      ensures Valid() && Together() && validityPos == old(validityPos)
      ensures old(Position()) >= Arrays.Len(arr) ==> o == Done(None) && cursors == old(cursors)
      ensures old(Position()) < Arrays.Len(arr) ==> Position() == old(Position()) + 1
      ensures old(Position()) < Arrays.Len(arr) && ValidRow(arr, old(Position())) ==>
        o == StructRow(t, arr, old(Position()))
    {
      var r := cursors[0];
      if r >= Arrays.Len(arr) {
        return Done(None);
      }
      var outs := AdvanceColumns();
      match Gather(outs)
      case Done(xs) =>
        o := Done(Some(Assemble(t, xs)));
      case Panic =>
        o := Panic;
    }

    /** The column reads of `return_next`: advance every column iterator once and read
      * its item with `arrow_deserialize_internal`. */
    method AdvanceColumns() returns (outs: seq<Outcome<Value>>)
      requires Valid() && Together() && Position() < Arrays.Len(arr)
      modifies this
      ensures Valid() && Together() && validityPos == old(validityPos)
      ensures Position() == old(Position()) + 1
      ensures outs == ColumnOuts(t, arr, old(Position()))
    {
      var r := cursors[0];
      outs := ReadColumns(t, arr, r);
      cursors := seq(|cursors|, _ => r + 1);
    }

    /** `consume_next`: advance every column iterator past a null row, discarding the
      * items; a struct or enum column's iterator reads its row and may panic. */
    method ConsumeNext() returns (ok: bool)
      requires Valid() && Together() && Position() < Arrays.Len(arr)
      modifies this
      ensures Valid() && Together() && validityPos == old(validityPos)
      ensures Position() == old(Position()) + 1
      ensures ok <==> ColumnsSkip(t, arr, old(Position()))
    {
      var r := cursors[0];
      ok := SkipColumns(t, arr, r);
      cursors := seq(|cursors|, _ => r + 1);
    }

    /** `next`: with no bitmap every row is valid; with one, a valid row is built from
      * the columns and a null row is skipped in every column and yields `None`. After
      * the last row it yields nothing and stays put. */
    method Next() returns (item: Outcome<Option<Option<Value>>>)
      requires Valid() && Lockstep()
      modifies this
      ensures Valid() && Lockstep()
      ensures item == NextItem(t, arr, old(Position()))
      ensures old(Position()) < Arrays.Len(arr) ==> Position() == old(Position()) + 1
      ensures old(Position()) >= Arrays.Len(arr) ==> Position() == old(Position())
    {
      if !hasValidity {
        var o := ReturnNext();
        item := match o
          case Panic => Panic
          case Done(None) => Done(None)
          case Done(Some(s)) => Done(Some(Some(s)));
      } else {
        var bits := arr.nulls.value;
        assert |bits| == Arrays.Len(arr);
        if validityPos >= |bits| {
          return Done(None);
        }
        var bit := bits[validityPos];
        validityPos := validityPos + 1;
        if bit {
          var o := ReturnNext();
          item := match o
            case Panic => Panic
            case Done(x) => Done(Some(x));
        } else {
          var ok := ConsumeNext();
          item := if ok then Done(Some(None)) else Panic;
        }
      }
    }
  }

  /** What `next` yields at row `r`: the row's reading, or nothing after the last row. */
  function NextItem(t: RType, a: Array, r: nat): (item: Outcome<Option<Option<Value>>>)
    requires t.TStruct? && !IsTransparent(t) && Readable(t, a)
    ensures r >= Len(a) <==> item == Done(None)
    ensures r < Len(a) ==> (item.Panic? <==> Row(t, a, r).Panic?)
    ensures r < Len(a) && item.Done? ==> item.value == Some(Row(t, a, r).value)
  {
    if r >= Len(a) then Done(None)
    else
      match StructRow(t, a, r)
      case Panic => Panic
      case Done(x) => Done(Some(x))
  }
}
