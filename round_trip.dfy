// What reading gives back after writing: rows already written never change, a null
// pushed reads back as `None`, and a value pushed reads back as `Expect` says, which
// is the value itself for canonical values.

module RoundTrip {
  import opened Base
  import opened Schema
  import opened Arrays
  import opened PushNulls
  import opened Serializer
  import opened Deserializer

  // ---------------------------------------------------------------------------
  // The reading a value gets back
  // ---------------------------------------------------------------------------

  /** What reading back the row that serializing `v` as `t` appended gives, defined on
    * the value alone: a leaf is itself, `None` is a null, a list is its elements, a
    * struct its kept fields with defaults for the skipped ones, a unit variant itself
    * and a payload variant its payload's reading. */
  function Expect(t: RType, v: Value): (o: Outcome<Option<Value>>)
    requires WellFormed(t) && HasType(v, t)
    decreases t, 1
  {
    match t
    case TLeaf(_) => Done(Some(v))
    case TOption(u) => if v.VNone? then Done(None) else WrapSome(Expect(u, v.inner))
    case TList(k, u) =>
      if k.KScalarBuffer? then Done(Some(v))
      else
        (match Gather(ExpectElems(u, v.items))
         case Done(xs) => Done(Some(VList(xs)))
         case Panic => Panic)
    case TStruct(_, fs, tr) =>
      if tr && |fs| == 1 then
        TransparentField(t);
        WrapStruct(Expect(fs[0].fieldType, v.members[0]))
      else
        (match Gather(ExpectFields(t, v))
         case Done(xs) => Done(Some(Assemble(t, xs)))
         case Panic => Panic)
    case TEnum(_, vs, _) =>
      if v.VUnit? then Done(Some(v))
      else
        assert vs[v.tag] in vs;
        WrapCase(v.tag, Expect(vs[v.tag].fieldType, v.payload))
  }

  function ExpectElems(u: RType, xs: seq<Value>): (outs: seq<Outcome<Value>>)
    requires WellFormed(u) && forall j :: 0 <= j < |xs| ==> HasType(xs[j], u)
    ensures |outs| == |xs|
    ensures forall j :: 0 <= j < |xs| ==> outs[j] == Internal(u, Expect(u, xs[j]))
    decreases u, 2
  {
    seq(|xs|, j requires 0 <= j < |xs| => Internal(u, Expect(u, xs[j])))
  }

  function ExpectFields(t: RType, v: Value): (outs: seq<Outcome<Value>>)
    requires t.TStruct? && !IsTransparent(t) && WellFormed(t) && HasType(v, t)
    ensures |outs| == |Kept(t.fields)|
    ensures forall m :: 0 <= m < |outs| ==>
      WellFormed(KeptType(t, m)) && HasType(v.members[Kept(t.fields)[m]], KeptType(t, m)) &&
      outs[m] == Internal(KeptType(t, m), Expect(KeptType(t, m), v.members[Kept(t.fields)[m]]))
    decreases t, 0
  {
    var ks := Kept(t.fields);
    seq(|ks|, m requires 0 <= m < |ks| =>
      KeptWellFormed(t, m);
      Internal(KeptType(t, m), Expect(KeptType(t, m), v.members[ks[m]])))
  }

  // ---------------------------------------------------------------------------
  // Rows already written do not change
  // ---------------------------------------------------------------------------

  /** Appending to a builder leaves every row it already had, and whether skipping
    * that row panics, as it was. */
  lemma {:induction false} RowStable(t: RType, a: Array, b: Array, r: nat)
    requires Readable(t, a) && Readable(t, b) && Prefix(a, b) && r < Len(a)
    ensures r < Len(b)
    ensures Row(t, a, r) == Row(t, b, r) && ItemOk(t, a, r) == ItemOk(t, b, r)
    decreases t, 2
  {
    PrefixLen(a, b);
    match t
    case TLeaf(_) =>
    case TOption(u) =>
      RowStable(u, a, b, r);
    case TList(_, _) =>
      ListRowStable(t, a, b, r);
    case TStruct(_, fs, tr) =>
      if tr && |fs| == 1 {
        TransparentField(t);
        RowStable(fs[0].fieldType, a, b, r);
      } else {
        StructRowStable(t, a, b, r);
      }
    case TEnum(_, _, _) =>
      UnionRowStable(t, a, b, r);
  }

  lemma {:induction false} ListRowStable(t: RType, a: Array, b: Array, r: nat)
    requires t.TList? && Readable(t, a) && Readable(t, b) && Prefix(a, b) && r < Len(a) <= Len(b)
    ensures ListRow(t, a, r) == ListRow(t, b, r)
    decreases t, 1
  {
    ListValuesFit(t, a);
    if a.ListArray? {
      ListArrayRowStable(t, a, b, r);
    } else {
      FixedListRowStable(t, a, b, r);
    }
  }

  lemma {:induction false} ListArrayRowStable(t: RType, a: Array, b: Array, r: nat)
    requires t.TList? && a.ListArray? && Readable(t, a) && Readable(t, b) && Prefix(a, b)
    requires r < Len(a) <= Len(b)
    ensures ListRow(t, a, r) == ListRow(t, b, r)
    decreases t, 0, 1
  {
    assert b.ListArray? && a.validity <= b.validity && a.offsets <= b.offsets;
    ListArrayRowSlice(t, a, r);
    ListArrayRowSlice(t, b, r);
    assert a.validity[r] == b.validity[r];
    if a.validity[r] {
      assert a.offsets[r] == b.offsets[r] && a.offsets[r + 1] == b.offsets[r + 1];
      SliceStable(t, a.values, b.values, a.offsets[r], a.offsets[r + 1]);
    }
  }

  lemma {:induction false} FixedListRowStable(t: RType, a: Array, b: Array, r: nat)
    requires t.TList? && a.FixedSizeListArray? && Readable(t, a) && Readable(t, b) && Prefix(a, b)
    requires r < Len(a) <= Len(b)
    ensures ListRow(t, a, r) == ListRow(t, b, r)
    decreases t, 0, 1
  {
    FixedListRowSlice(t, a, r);
    FixedListRowSlice(t, b, r);
    assert b.size == a.size && a.validity[r] == b.validity[r] && Prefix(a.values, b.values);
    if a.validity[r] {
      assert FixedRowStart(a, r) == FixedRowStart(b, r);
      SliceStable(t, a.values, b.values, FixedRowStart(a, r), FixedRowStart(a, r) + a.size);
    }
  }

  lemma {:induction false} SliceStable(t: RType, va: Array, vb: Array, lo: nat, hi: nat)
    requires t.TList? && WellFormed(t) && Readable(t.elem, va) && Readable(t.elem, vb)
    requires Prefix(va, vb) && lo <= hi <= Len(va)
    ensures hi <= Len(vb) && ListSlice(t, va, lo, hi) == ListSlice(t, vb, lo, hi)
    decreases t, 0, 0
  {
    PrefixLen(va, vb);
    var u := t.elem;
    if t.kind.KScalarBuffer? {
      if va.LeafArray? {
        assert va.slots <= vb.slots;
        var x := ListSlice(t, va, lo, hi).value.value.items;
        var y := ListSlice(t, vb, lo, hi).value.value.items;
        assert forall k :: lo <= k < hi ==> va.slots[k] == vb.slots[k];
        assert x == y;
      }
    } else {
      forall j | 0 <= j < hi - lo
        ensures SliceOuts(u, va, lo, hi)[j] == SliceOuts(u, vb, lo, hi)[j]
      {
        RowStable(u, va, vb, lo + j);
      }
      assert SliceOuts(u, va, lo, hi) == SliceOuts(u, vb, lo, hi);
    }
  }

  lemma {:induction false} StructRowStable(t: RType, a: Array, b: Array, r: nat)
    requires t.TStruct? && !IsTransparent(t) && Readable(t, a) && Readable(t, b)
    requires Prefix(a, b) && r < Len(a) <= Len(b)
    ensures StructRow(t, a, r) == StructRow(t, b, r)
    decreases t, 1
  {
    StructColumnsFit(t, a);
    StructColumnsFit(t, b);
    var ks := Kept(t.fields);
    assert ValidRow(a, r) == ValidRow(b, r);
    forall m | 0 <= m < |ks|
      ensures Row(KeptType(t, m), a.columns[m], r) == Row(KeptType(t, m), b.columns[m], r)
      ensures ItemOk(KeptType(t, m), a.columns[m], r) == ItemOk(KeptType(t, m), b.columns[m], r)
    {
      KeptWellFormed(t, m);
      RowStable(KeptType(t, m), a.columns[m], b.columns[m], r);
    }
    assert ColumnOuts(t, a, r) == ColumnOuts(t, b, r);
  }

  lemma {:induction false} UnionRowStable(t: RType, a: Array, b: Array, r: nat)
    requires t.TEnum? && Readable(t, a) && Readable(t, b) && Prefix(a, b) && r < Len(a) <= Len(b)
    ensures UnionRow(t, a, r) == UnionRow(t, b, r)
    decreases t, 1
  {
    var tid := TypeAt(a, r);
    assert tid == TypeAt(b, r);
    assert OffsetAt(a, r) == OffsetAt(b, r);
    UnionChildFits(t, a, tid);
    UnionChildFits(t, b, tid);
    assert t.variants[tid] in t.variants;
    RowStable(t.variants[tid].fieldType, a.children[tid], b.children[tid], OffsetAt(a, r));
  }

  // ---------------------------------------------------------------------------
  // A pushed null reads back as None
  // ---------------------------------------------------------------------------

  /** The row `push_null` appends reads back as `None`, for every type: a struct's null
    * row skips a null in every column, and an enum's null row reads variant 0's null. */
  lemma {:induction false} PushNullRow(t: RType, a: Array)
    requires Readable(t, a)
    ensures Readable(t, PushNull(a))
    ensures Row(t, PushNull(a), Len(a)) == Done(None)
    decreases t, 1
  {
    PushNullAligned(a);
    var b := PushNull(a);
    match t
    case TLeaf(_) =>
    case TOption(u) =>
      PushNullRow(u, a);
    case TList(_, _) =>
      ListValuesFit(t, a);
    case TStruct(_, fs, tr) =>
      if tr && |fs| == 1 {
        TransparentField(t);
        PushNullRow(fs[0].fieldType, a);
      } else {
        StructPushNullRow(t, a);
      }
    case TEnum(_, _, _) =>
      UnionPushNullRow(t, a);
  }

  lemma {:induction false} StructPushNullRow(t: RType, a: Array)
    requires t.TStruct? && !IsTransparent(t) && Readable(t, a) && Readable(t, PushNull(a))
    ensures StructRow(t, PushNull(a), Len(a)) == Done(None)
    decreases t, 0
  {
    var b := PushNull(a);
    StructColumnsFit(t, a);
    StructColumnsFit(t, b);
    var ks := Kept(t.fields);
    assert !ValidRow(b, Len(a));
    forall m | 0 <= m < |ks|
      ensures ItemOk(KeptType(t, m), b.columns[m], Len(a))
    {
      KeptWellFormed(t, m);
      assert ArrayDataType(a.columns[m]) == a.fields[m].dataType < a.fields[m];
      assert b.columns[m] == PushNull(a.columns[m]);
      PushNullRow(KeptType(t, m), a.columns[m]);
      RowDoneItemOk(KeptType(t, m), b.columns[m], Len(a));
    }
  }

  lemma {:induction false} UnionPushNullRow(t: RType, a: Array)
    requires t.TEnum? && Readable(t, a) && Readable(t, PushNull(a))
    ensures UnionRow(t, PushNull(a), Len(a)) == Done(None)
    decreases t, 0
  {
    var b := PushNull(a);
    UnionChildFits(t, a, 0);
    assert TypeAt(b, Len(a)) == 0;
    assert OffsetAt(b, Len(a)) == Len(a.children[0]);
    assert b.children[0] == PushNull(a.children[0]);
    assert t.variants[0] in t.variants;
    PushNullRow(t.variants[0].fieldType, a.children[0]);
  }

  // ---------------------------------------------------------------------------
  // A pushed value reads back as Expect says
  // ---------------------------------------------------------------------------

  /** Serializing a value whose fixed-size parts have their declared lengths appends
    * one row, keeps the builder readable, and that row reads back as `Expect`. */
  lemma {:induction false} SerializeRow(t: RType, v: Value, a: Array)
    requires Readable(t, a) && HasType(v, t) && Exact(t, v)
    ensures Serialize(t, v, a).status.Ok?
    ensures Readable(t, Serialize(t, v, a).builder) && Prefix(a, Serialize(t, v, a).builder)
    ensures Len(Serialize(t, v, a).builder) == Len(a) + 1
    ensures Row(t, Serialize(t, v, a).builder, Len(a)) == Expect(t, v)
    decreases t, 2
  {
    ExactWidths(t, v);
    SerializeOk(t, v, a);
    SerializeAligned(t, v, a);
    SerializePrefix(t, v, a);
    match t
    case TLeaf(_) =>
    case TOption(u) =>
      if v.VNone? {
        PushNullRow(t, a);
      } else {
        SerializeRow(u, v.inner, a);
      }
    case TList(_, _) =>
      ListSerializeRow(t, v, a);
    case TStruct(_, fs, tr) =>
      if tr && |fs| == 1 {
        TransparentField(t);
        SerializeRow(fs[0].fieldType, v.members[0], a);
      } else {
        StructSerializeRow(t, v, a);
      }
    case TEnum(_, _, _) =>
      UnionSerializeRow(t, v, a);
  }

  /** Serializing the elements `i..` is serializing element `i` and then the
    * elements `i+1..` into the builder that produced. */
  lemma ElemsStep(u: RType, xs: seq<Value>, i: nat, b: Array)
    requires Readable(u, b) && i < |xs|
    requires forall j :: 0 <= j < |xs| ==> HasType(xs[j], u) && Exact(u, xs[j])
    ensures Serialize(u, xs[i], b).status.Ok?
    ensures Readable(u, Serialize(u, xs[i], b).builder)
    ensures Len(Serialize(u, xs[i], b).builder) == Len(b) + 1
    ensures SerializeElems(u, xs, i, b) == SerializeElems(u, xs, i + 1, Serialize(u, xs[i], b).builder)
  {
    ExactWidths(u, xs[i]);
    SerializeOk(u, xs[i], b);
    SerializeAligned(u, xs[i], b);
  }

  /** The elements `i..` serialized one after the other leave a readable builder that
    * grew by one row per element. */
  lemma {:induction false} ElemsReadable(u: RType, xs: seq<Value>, i: nat, b: Array)
    requires Readable(u, b) && i <= |xs|
    requires forall j :: 0 <= j < |xs| ==> HasType(xs[j], u) && Exact(u, xs[j])
    ensures SerializeElems(u, xs, i, b).status.Ok?
    ensures Readable(u, SerializeElems(u, xs, i, b).builder)
    ensures Len(SerializeElems(u, xs, i, b).builder) == Len(b) + |xs| - i
    decreases |xs| - i
  {
    if i < |xs| {
      ElemsStep(u, xs, i, b);
      ElemsReadable(u, xs, i + 1, Serialize(u, xs[i], b).builder);
    }
  }

  /** Element `i`, serialized first, keeps its row `Len(b)` however many elements
    * follow it. */
  lemma ElemsFirstRow(u: RType, xs: seq<Value>, i: nat, b: Array)
    requires Readable(u, b) && i < |xs|
    requires forall j :: 0 <= j < |xs| ==> HasType(xs[j], u) && Exact(u, xs[j])
    requires Readable(u, SerializeElems(u, xs, i, b).builder)
    ensures Len(b) < Len(SerializeElems(u, xs, i, b).builder)
    ensures Row(u, SerializeElems(u, xs, i, b).builder, Len(b)) == Expect(u, xs[i])
    decreases u, 3, 0
  {
    SerializeRow(u, xs[i], b);
    ElemsStep(u, xs, i, b);
    var e := Serialize(u, xs[i], b).builder;
    ElemsPrefix(u, xs, i + 1, e);
    RowStable(u, e, SerializeElems(u, xs, i + 1, e).builder, Len(b));
  }

  /** Element `j` serialized after the elements `i..j-1` lands at row `Len(b) + j - i`
    * of the child and reads back as `Expect` says. */
  lemma {:induction false} ElemsRow(u: RType, xs: seq<Value>, i: nat, b: Array, j: nat)
    requires Readable(u, b) && i <= j < |xs|
    requires forall k :: 0 <= k < |xs| ==> HasType(xs[k], u) && Exact(u, xs[k])
    requires Readable(u, SerializeElems(u, xs, i, b).builder)
    ensures Len(b) + j - i < Len(SerializeElems(u, xs, i, b).builder)
    ensures Row(u, SerializeElems(u, xs, i, b).builder, Len(b) + j - i) == Expect(u, xs[j])
    decreases u, 3, |xs| - i, 1
  {
    if j == i {
      ElemsFirstRow(u, xs, i, b);
    } else {
      ElemsLaterRow(u, xs, i, b, j);
    }
  }

  /** The same for an element after the first: it lands one row further in the builder
    * the first element grew. */
  lemma {:induction false} ElemsLaterRow(u: RType, xs: seq<Value>, i: nat, b: Array, j: nat)
    requires Readable(u, b) && i < j < |xs|
    requires forall k :: 0 <= k < |xs| ==> HasType(xs[k], u) && Exact(u, xs[k])
    requires Readable(u, SerializeElems(u, xs, i, b).builder)
    ensures Len(b) + j - i < Len(SerializeElems(u, xs, i, b).builder)
    ensures Row(u, SerializeElems(u, xs, i, b).builder, Len(b) + j - i) == Expect(u, xs[j])
    decreases u, 3, |xs| - i, 0
  {
    ElemsStep(u, xs, i, b);
    var e := Serialize(u, xs[i], b).builder;
    ElemsRow(u, xs, i + 1, e, j);
  }

  /** Rows `lo..lo + |xs|` of `f` read back as `Expect` says of `xs`, one row per
    * element. */
  predicate RowsRead(u: RType, f: Array, lo: nat, xs: seq<Value>)
    requires Readable(u, f) && lo + |xs| <= Len(f) && forall j :: 0 <= j < |xs| ==> HasType(xs[j], u)
  {
    forall j :: 0 <= j < |xs| ==> Row(u, f, lo + j) == Expect(u, xs[j])
  }

  /** The elements `i..` serialized one after the other land at consecutive rows of the
    * child, each reading back as `Expect` says. */
  lemma ElemsRows(u: RType, xs: seq<Value>, b: Array)
    requires Readable(u, b)
    requires forall j :: 0 <= j < |xs| ==> HasType(xs[j], u) && Exact(u, xs[j])
    ensures SerializeElems(u, xs, 0, b).status.Ok?
    ensures Readable(u, SerializeElems(u, xs, 0, b).builder)
    ensures Len(SerializeElems(u, xs, 0, b).builder) == Len(b) + |xs|
    ensures RowsRead(u, SerializeElems(u, xs, 0, b).builder, Len(b), xs)
    decreases u, 4
  {
    ElemsReadable(u, xs, 0, b);
    forall j | 0 <= j < |xs|
      ensures Row(u, SerializeElems(u, xs, 0, b).builder, Len(b) + j) == Expect(u, xs[j])
    {
      ElemsRow(u, xs, 0, b, j);
    }
  }

  lemma {:induction false} ListSerializeRow(t: RType, v: Value, a: Array)
    requires t.TList? && Readable(t, a) && HasType(v, t) && Exact(t, v)
    requires Serialize(t, v, a).status.Ok? && Readable(t, Serialize(t, v, a).builder)
    ensures Row(t, Serialize(t, v, a).builder, Len(a)) == Expect(t, v)
    decreases t, 1
  {
    ListValuesFit(t, a);
    var u := t.elem;
    var xs := v.items;
    assert v == VList(xs);
    ElemsRows(u, xs, a.values);
    var f := SerializeElems(u, xs, 0, a.values).builder;
    var b := Serialize(t, v, a).builder;
    ListPushShape(t, v, a);
    assert b.values == f;
    ListPushedRow(t, a, b, xs);
  }

  /** The row a list push appended reads back as the list of what its elements' rows
    * read back as. */
  lemma {:induction false} ListPushedRow(t: RType, a: Array, b: Array, xs: seq<Value>)
    requires t.TList? && Readable(t, a) && Readable(t, b) && HasType(VList(xs), t)
    requires a.ListArray? ==>
      b == ListArray(a.item, a.large, a.offsets + [Len(b.values)], a.validity + [true], b.values)
    requires a.FixedSizeListArray? ==>
      b == FixedSizeListArray(a.item, a.size, a.validity + [true], b.values) && |xs| == a.size
    requires (a.ListArray? || a.FixedSizeListArray?) && Readable(t.elem, b.values)
    requires Len(b.values) == Len(a.values) + |xs|
    requires RowsRead(t.elem, b.values, Len(a.values), xs)
    ensures Len(a) < Len(b) && Row(t, b, Len(a)) == Expect(t, VList(xs))
  {
    var lo := Len(a.values);
    if a.ListArray? {
      ListArrayRowOfPush(t, a, b);
      assert ListRow(t, b, Len(a)) == ListSlice(t, b.values, lo, lo + |xs|);
    } else {
      FixedListRowOfPush(t, a, b);
      assert ListRow(t, b, Len(a)) == ListSlice(t, b.values, lo, lo + |xs|);
    }
    SliceReadsElems(t, xs, b.values, lo);
    assert Row(t, b, Len(a)) == ListRow(t, b, Len(a));
  }

  /** The list builder after a successful push: the elements went to the child, and
    * the row is valid and ends at the child's new length. */
  lemma {:induction false} ListPushShape(t: RType, v: Value, a: Array)
    requires t.TList? && WellFormed(t) && Fits(t, a) && HasType(v, t)
    requires (a.ListArray? || a.FixedSizeListArray?) && Fits(t.elem, a.values)
    requires Serialize(t, v, a).status.Ok?
    ensures Serialize(t, v, a).builder ==
      var f := SerializeElems(t.elem, v.items, 0, a.values).builder;
      if a.ListArray? then ListArray(a.item, a.large, a.offsets + [Len(f)], a.validity + [true], f)
      else FixedSizeListArray(a.item, a.size, a.validity + [true], f)
  {
    ListValuesFit(t, a);
  }

  /** The row a push appended to a variable-size list is the slice from the child's old
    * length to its new one. */
  lemma {:induction false} ListArrayRowOfPush(t: RType, a: Array, b: Array)
    requires t.TList? && a.ListArray? && b.ListArray? && Readable(t, a) && Readable(t, b)
    requires b.validity == a.validity + [true] && b.offsets == a.offsets + [Len(b.values)]
    ensures Len(a) < Len(b) && Len(a.values) <= Len(b.values) && Readable(t.elem, b.values)
    ensures ListRow(t, b, Len(a)) == ListSlice(t, b.values, Len(a.values), Len(b.values))
  {
    ListValuesFit(t, b);
    assert b.offsets[Len(a)] == a.offsets[|a.validity|] == Len(a.values);
    assert b.offsets[Len(a) + 1] == Len(b.values);
  }

  /** The row a push appended to a fixed-size list is the last `size` elements of the
    * child. */
  lemma {:induction false} FixedListRowOfPush(t: RType, a: Array, b: Array)
    requires t.TList? && a.FixedSizeListArray? && b.FixedSizeListArray? && Readable(t, a) && Readable(t, b)
    requires b.validity == a.validity + [true] && b.size == a.size
    ensures Len(a) < Len(b) && Len(a.values) + a.size == Len(b.values) && Readable(t.elem, b.values)
    ensures ListRow(t, b, Len(a)) == ListSlice(t, b.values, Len(a.values), Len(a.values) + a.size)
  {
    ListValuesFit(t, b);
    assert Len(a.values) == a.size * Len(a);
    assert Len(b.values) == a.size * (Len(a) + 1) == a.size * Len(a) + a.size;
    assert Len(a) * a.size == a.size * Len(a);
  }

  /** The slice holding freshly serialized elements reads back as the list `Expect`
    * gives. */
  lemma {:induction false} SliceReadsElems(t: RType, xs: seq<Value>, f: Array, lo: nat)
    requires t.TList? && WellFormed(t) && Readable(t.elem, f) && lo + |xs| <= Len(f)
    requires HasType(VList(xs), t)
    requires RowsRead(t.elem, f, lo, xs)
    ensures ListSlice(t, f, lo, lo + |xs|) == Expect(t, VList(xs))
  {
    var u := t.elem;
    if t.kind.KScalarBuffer? {
      var items := ListSlice(t, f, lo, lo + |xs|).value.value.items;
      forall j | 0 <= j < |xs|
        ensures items[j] == xs[j]
      {
        assert Row(u, f, lo + j) == Done(Some(xs[j]));
      }
      assert items == xs;
    } else {
      assert SliceOuts(u, f, lo, lo + |xs|) == ExpectElems(u, xs);
    }
  }

  lemma {:induction false} StructSerializeRow(t: RType, v: Value, a: Array)
    requires t.TStruct? && !IsTransparent(t) && Readable(t, a) && HasType(v, t) && Exact(t, v)
    requires Serialize(t, v, a).status.Ok? && Readable(t, Serialize(t, v, a).builder)
    requires Len(Serialize(t, v, a).builder) == Len(a) + 1
    ensures Row(t, Serialize(t, v, a).builder, Len(a)) == Expect(t, v)
    decreases t, 1
  {
    var b := Serialize(t, v, a).builder;
    assert b == StructPush(t, Some(v), a).builder;
    StructColumnsFit(t, a);
    var ks := Kept(t.fields);
    var e := SerializeFields(t, v, 0, a.columns);
    assert b.columns == e.columns;
    assert ValidRow(b, Len(a));
    forall m | 0 <= m < |ks|
      ensures Row(KeptType(t, m), b.columns[m], Len(a)) ==
        Expect(KeptType(t, m), v.members[ks[m]])
    {
      KeptWellFormed(t, m);
      assert Exact(KeptType(t, m), v.members[ks[m]]);
      FieldsColumn(t, v, 0, a.columns, m);
      SerializeRow(KeptType(t, m), v.members[ks[m]], a.columns[m]);
    }
    assert ColumnOuts(t, b, Len(a)) == ExpectFields(t, v);
  }

  lemma {:induction false} UnionSerializeRow(t: RType, v: Value, a: Array)
    requires t.TEnum? && Readable(t, a) && HasType(v, t) && Exact(t, v)
    requires Serialize(t, v, a).status.Ok? && Readable(t, Serialize(t, v, a).builder)
    requires Len(Serialize(t, v, a).builder) == Len(a) + 1
    ensures Row(t, Serialize(t, v, a).builder, Len(a)) == Expect(t, v)
    decreases t, 1
  {
    var b := Serialize(t, v, a).builder;
    var i := v.tag;
    UnionChildFits(t, a, i);
    assert t.variants[i] in t.variants;
    var vt := t.variants[i].fieldType;
    SerializeRow(vt, Payload(v), a.children[i]);
    var e := Serialize(vt, Payload(v), a.children[i]).builder;
    assert TypeAt(b, Len(a)) == i;
    assert b.children[i] == e;
    assert OffsetAt(b, Len(a)) == Len(a.children[i]);
  }

  // ---------------------------------------------------------------------------
  // Collections
  // ---------------------------------------------------------------------------

  /** Serializing a collection with `try_into_arrow`, which then finishes without panic,
    * and reading it back with `try_into_collection` passes the data type gate and
    * gives, row by row, what `Expect` says of each item. */
  lemma CollectionRoundTrip(t: RType, items: seq<Value>)
    requires WellFormed(t)
    requires forall j :: 0 <= j < |items| ==> HasType(items[j], t) && Exact(t, items[j])
    ensures TryIntoArrow(t, items).Done? && TryIntoArrow(t, items).value.Success?
    ensures TryIntoCollection(t, TryIntoArrow(t, items).value.value) ==
      match Gather(ExpectElems(t, items))
      case Done(xs) => Done(Success(xs))
      case Panic => Panic
  {
    CollectionRows(t, items);
    RowsExpected(t, MutableArrayOf(t, items).value, items);
  }

  /** The rows of the array `try_into_arrow` builds are what `Expect` says of the items. */
  lemma CollectionRows(t: RType, items: seq<Value>)
    requires WellFormed(t)
    requires forall j :: 0 <= j < |items| ==> HasType(items[j], t) && Exact(t, items[j])
    ensures MutableArrayOf(t, items).Success?
    ensures Readable(t, MutableArrayOf(t, items).value) && Len(MutableArrayOf(t, items).value) == |items|
    ensures forall j :: 0 <= j < |items| ==> Row(t, MutableArrayOf(t, items).value, j) == Expect(t, items[j])
  {
    var a := NewArray(t);
    ElemsRows(t, items, a);
    var f := SerializeElems(t, items, 0, a).builder;
    assert MutableArrayOf(t, items) == Success(f);
    forall j | 0 <= j < |items|
      ensures Row(t, f, j) == Expect(t, items[j])
    {
      assert Len(a) + j == j;
    }
  }

  /** Reading every row of an array whose rows are what `Expect` says of `items`. */
  lemma RowsExpected(t: RType, f: Array, items: seq<Value>)
    requires Readable(t, f) && Len(f) == |items|
    requires forall j :: 0 <= j < |items| ==> HasType(items[j], t) && Row(t, f, j) == Expect(t, items[j])
    ensures Rows(t, f, Len(f)) == Gather(ExpectElems(t, items))
  {
    var rows := seq(|items|, i requires 0 <= i < |items| => Internal(t, Row(t, f, i)));
    assert rows == ExpectElems(t, items);
  }

  // ---------------------------------------------------------------------------
  // Canonical values read back as themselves
  // ---------------------------------------------------------------------------

  /** `v` is not null at the top, through any number of `Option`s: `Some(None)` is. */
  predicate NonNull(t: RType, v: Value)
    requires HasType(v, t)
  {
    match t
    case TOption(u) => v.VSome? && NonNull(u, v.inner)
    case _ => true
  }

  /** The values reading gives back unchanged: no `Some(None)` (a nested null reads as
    * `None`), no null payload in an enum variant or a transparent struct (either reads
    * as a null of the enclosing type), and skipped struct fields already at their
    * defaults. */
  predicate Canonical(t: RType, v: Value)
    requires WellFormed(t) && HasType(v, t)
    decreases t
  {
    match t
    case TLeaf(_) => true
    case TOption(u) => v.VNone? || (NonNull(u, v.inner) && Canonical(u, v.inner))
    case TList(k, u) => k.KScalarBuffer? || forall j :: 0 <= j < |v.items| ==> Canonical(u, v.items[j])
    case TStruct(_, fs, tr) =>
      if tr && |fs| == 1 then
        TransparentField(t);
        NonNull(fs[0].fieldType, v.members[0]) && Canonical(fs[0].fieldType, v.members[0])
      else forall j :: 0 <= j < |fs| ==>
        if fs[j].skip then v.members[j] == DefaultOf(fs[j].fieldType).value
        else Canonical(fs[j].fieldType, v.members[j])
    case TEnum(_, vs, _) =>
      v.VCase? ==> NonNull(vs[v.tag].fieldType, v.payload) && Canonical(vs[v.tag].fieldType, v.payload)
  }

  /** A canonical value reads back as itself (`arrow_deserialize_internal`), and a
    * non-null one is `Some` of itself. */
  lemma {:induction false} ExpectCanonical(t: RType, v: Value)
    requires WellFormed(t) && HasType(v, t) && Canonical(t, v)
    ensures Internal(t, Expect(t, v)) == Done(v)
    ensures NonNull(t, v) ==> Expect(t, v) == Done(Some(v))
    decreases t, 1
  {
    match t
    case TLeaf(_) =>
    case TOption(u) =>
      if v.VSome? {
        ExpectCanonical(u, v.inner);
      }
    case TList(k, u) =>
      if !k.KScalarBuffer? {
        ListExpectCanonical(t, v);
      }
    case TStruct(_, fs, tr) =>
      if tr && |fs| == 1 {
        TransparentField(t);
        ExpectCanonical(fs[0].fieldType, v.members[0]);
        assert v == VStruct([v.members[0]]);
      } else {
        StructExpectCanonical(t, v);
      }
    case TEnum(_, vs, _) =>
      if v.VCase? {
        assert vs[v.tag] in vs;
        ExpectCanonical(vs[v.tag].fieldType, v.payload);
      }
  }

  lemma {:induction false} ListExpectCanonical(t: RType, v: Value)
    requires t.TList? && !t.kind.KScalarBuffer? && WellFormed(t) && HasType(v, t) && Canonical(t, v)
    ensures Expect(t, v) == Done(Some(v))
    decreases t, 0
  {
    var u := t.elem;
    var outs := ExpectElems(u, v.items);
    forall j | 0 <= j < |v.items|
      ensures outs[j] == Done(v.items[j])
    {
      ExpectCanonical(u, v.items[j]);
    }
    assert Gather(outs).value == v.items;
  }

  lemma {:induction false} StructExpectCanonical(t: RType, v: Value)
    requires t.TStruct? && !IsTransparent(t) && WellFormed(t) && HasType(v, t) && Canonical(t, v)
    ensures Expect(t, v) == Done(Some(v))
    decreases t, 0
  {
    var fs := t.fields;
    var ks := Kept(fs);
    var outs := ExpectFields(t, v);
    forall m | 0 <= m < |ks|
      ensures outs[m] == Done(v.members[ks[m]])
    {
      KeptWellFormed(t, m);
      assert ks[m] < |fs| && !fs[ks[m]].skip;
      ExpectCanonical(KeptType(t, m), v.members[ks[m]]);
    }
    var xs := Gather(outs).value;
    var w := Assemble(t, xs);
    RanksOfKept(fs);
    forall j | 0 <= j < |fs|
      ensures w.members[j] == v.members[j]
    {
      if !fs[j].skip {
        assert ks[Rank(fs, j)] == j;
      }
    }
    assert w.members == v.members;
  }
  /** A collection of canonical values survives `try_into_arrow` followed by
    * `try_into_collection` unchanged. */
  lemma CanonicalCollectionRoundTrip(t: RType, items: seq<Value>)
    requires WellFormed(t)
    requires forall j :: 0 <= j < |items| ==>
      HasType(items[j], t) && Exact(t, items[j]) && Canonical(t, items[j])
    ensures TryIntoArrow(t, items).Done? && TryIntoArrow(t, items).value.Success?
    ensures TryIntoCollection(t, TryIntoArrow(t, items).value.value) == Done(Success(items))
  {
    CollectionRoundTrip(t, items);
    forall j | 0 <= j < |items|
      ensures Internal(t, Expect(t, items[j])) == Done(items[j])
    {
      ExpectCanonical(t, items[j]);
    }
    assert Gather(ExpectElems(t, items)).value == items;
  }

  // ---------------------------------------------------------------------------
  // A null enum whose first variant is a unit variant
  // ---------------------------------------------------------------------------

  /** A dense enum with a single unit variant `A`. */
  function UnitEnum(): (t: RType)
    ensures WellFormed(t) && t.TEnum? && t.variants[0].isUnit
  {
    TEnum("E", [DeriveVariant("A", TLeaf(LBool), true)], true)
  }

  /** `push_null` on an enum records variant 0 and a null placeholder in its child. The
    * iterator as written rebuilds a unit variant from the type id alone, so that null
    * reads back as `Some(A)`; reading the placeholder gives back the `None` that was
    * pushed. */
  lemma NullUnitVariantReadsAsVariant()
    ensures Readable(UnitEnum(), PushNull(NewArray(UnitEnum())))
    ensures Len(PushNull(NewArray(UnitEnum()))) == 1
    ensures UnionRowAsWritten(UnitEnum(), PushNull(NewArray(UnitEnum())), 0) == Done(Some(VUnit(0)))
    ensures UnionRow(UnitEnum(), PushNull(NewArray(UnitEnum())), 0) == Done(None)
  {
    var t := UnitEnum();
    var a := NewArray(t);
    PushNullAligned(a);
    PushNullRow(t, a);
  }
}
