// The code `#[derive(ArrowField, ArrowSerialize, ArrowDeserialize)]` generates for an
// enum (derive_enum.rs): the union's type ids and child fields, the builder
// `Mutable{Name}Array` and the iterator `{Name}ArrayIterator`.

module DeriveEnum {
  import opened Base
  import opened Schema
  import opened Arrays
  import PushNulls
  import opened Serializer
  import opened Deserializer

  // ---------------------------------------------------------------------------
  // The union type (Common::from, expand_field)
  // ---------------------------------------------------------------------------

  /** The enum's union has type ids `0..n` and one child field per variant, in
    * declaration order, named after the variant and typed by its payload (`bool` for a
    * unit variant); the union mode is the declared one. */
  lemma UnionOfEnum(t: RType)
    requires t.TEnum? && WellFormed(t)
    ensures 1 <= |VariantFields(t)| == |t.variants| <= 127
    ensures DataTypeOf(t) == Union(IdRange(|t.variants|), VariantFields(t), ModeOf(t.dense))
    ensures forall i :: 0 <= i < |t.variants| ==>
      DataTypeOf(t).ids[i] == i &&
      VariantFields(t)[i].name == t.variants[i].ident &&
      VariantFields(t)[i].dataType == DataTypeOf(t.variants[i].fieldType) &&
      (t.variants[i].isUnit ==> VariantFields(t)[i].dataType == Boolean)
  {
    UnionMemberTypes(t);
  }

  /** An enum without variants is refused. */
  lemma NoVariantsRefused(t: RType)
    requires t.TEnum? && |t.variants| == 0
    ensures !WellFormed(t)
  {
  }

  // ---------------------------------------------------------------------------
  // Mutable{Name}Array
  // ---------------------------------------------------------------------------

  /** The generated builder: one child builder per variant, the type ids and, in a
    * dense union, the offsets. */
  class MutableUnionArray {
    const t: RType
    const ids: seq<int>
    const members: seq<Field>
    const dense: bool
    var typeIds: seq<int>
    var offsets: seq<int>
    var children: seq<Array>

    /** The union array this builder would finish into. */
    function State(): Array
      reads this
    {
      UnionArray(ids, members, typeIds, if dense then Some(offsets) else None, children)
    }

    /** A builder of the derived enum `t`: its children have the variants' types; a
      * sparse builder has no offsets. */
    predicate Valid()
      reads this
    {
      t.TEnum? && WellFormed(t) && dense == t.dense && (!dense ==> offsets == []) && Fits(t, State())
    }

    /** `new`: an empty child builder per variant, no type ids, no offsets. */
    constructor (t: RType)
      requires t.TEnum? && WellFormed(t)
      ensures Valid() && this.t == t
      ensures State() == NewArray(t) && Aligned(State())
    {
      this.t := t;
      ids := IdRange(|t.variants|);
      members := VariantFields(t);
      dense := t.dense;
      typeIds := [];
      offsets := [];
      children := NewChildren(t);
      new;
      UnionMemberTypes(t);
    }

    /** `len`: the number of type ids pushed; in an aligned sparse builder every child
      * has that many rows too. */
    method Len() returns (n: nat)
      requires Valid()
      ensures n == Arrays.Len(State())
      ensures Aligned(State()) && !dense ==> forall i :: 0 <= i < |children| ==> Arrays.Len(children[i]) == n
      ensures Aligned(State()) && dense ==> |offsets| == n
    {
      n := |typeIds|;
    }

    /** `push_null`: type id 0, and
      * - dense: the offset `len(child 0)`, then one null into child 0;
      * - sparse: one null into every child. */
    method PushNull()
      requires Valid()
      modifies this
      ensures State() == PushNulls.PushNull(old(State()))
      ensures Valid()
      ensures Arrays.Len(State()) == old(Arrays.Len(State())) + 1
      ensures old(Aligned(State())) ==> Aligned(State())
    {
      ghost var a := State();
      PushNullFacts(t, a);
      UnionChildFits(t, a, 0);
      typeIds := typeIds + [0];
      if dense {
        offsets := offsets + [Arrays.Len(children[0])];
        children := children[0 := PushNulls.PushNull(children[0])];
      } else {
        var j := 0;
        while j < |children|
          invariant 0 <= j <= |children| == |a.children|
          invariant typeIds == a.typeIds + [0] && offsets == []
          invariant forall k :: 0 <= k < |children| ==>
            Shaped(a.children[k]) && children[k] == if k < j then PushNulls.PushNull(a.children[k]) else a.children[k]
        {
          UnionChildFits(t, a, j);
          children := children[j := PushNulls.PushNull(children[j])];
          j := j + 1;
        }
      }
      assert State() == PushNulls.PushNull(a);
    }

    /** `try_push`:
      * - `None` is one `push_null`;
      * - `Some(v)` of variant `i` serializes the payload, or `true` for a unit variant,
      *   into child `i` and returns its error at once; then a dense builder appends `i`
      *   and the offset `len(child i) - 1` of the element just appended, and a sparse
      *   one pushes a null into every other child and appends `i`. */
    method TryPush(item: Option<Value>) returns (status: Status)
      requires Valid() && (item.Some? ==> HasType(item.value, t))
      modifies this
      ensures Valid()
      ensures State() == UnionPush(t, item, old(State())).builder
      ensures status == UnionPush(t, item, old(State())).status
      ensures status.Err? ==> typeIds == old(typeIds) && offsets == old(offsets)
      ensures status.Ok? ==> Arrays.Len(State()) == old(Arrays.Len(State())) + 1
      ensures old(Aligned(State())) && status.Ok? && (item.Some? ==> Exact(t, item.value)) ==>
        Aligned(State())
    {
      ghost var a := State();
      match item
      case None =>
        PushNull();
        status := Ok;
      case Some(v) =>
        status := PushValue(v);
        if status.Ok? && Aligned(a) && Exact(t, v) {
          UnionPushAligned(t, v, a);
        }
    }

    /** `try_push(Some(v))`: the variant's payload into its child, then the type id and,
      * dense, the offset; sparse, a null into every other child. */
    method PushValue(v: Value) returns (status: Status)
      requires Valid() && HasType(v, t)
      modifies this
      ensures Pushed(State(), status) == UnionPush(t, Some(v), old(State()))
      ensures Valid()
    {
      ghost var a := State();
      var i := v.tag;
      UnionChildFits(t, a, i);
      assert t.variants[i] in t.variants;
      var e := Serialize(t.variants[i].fieldType, Payload(v), children[i]);
      children := children[i := e.builder];
      if e.status.Err? {
        return e.status;
      }
      if dense {
        typeIds := typeIds + [i];
        offsets := offsets + [Arrays.Len(children[i]) - 1];
      } else {
        PadOthers(i, a);
        typeIds := typeIds + [i];
      }
      status := Ok;
    }

    /** The sparse arm's `push_null` into every child but the pushed variant's. */
    method PadOthers(i: nat, ghost a: Array)
      requires t.TEnum? && a.UnionArray? && Fits(t, a) && i < |a.children| == |children|
      requires children == a.children[i := children[i]]
      modifies this
      ensures typeIds == old(typeIds) && offsets == old(offsets)
      ensures children == SparseChildren(t, a, i, old(children)[i])
    {
      var j := 0;
      while j < |children|
        invariant 0 <= j <= |children| == |a.children|
        invariant typeIds == old(typeIds) && offsets == old(offsets)
        invariant children[i] == old(children)[i]
        invariant forall k :: 0 <= k < |children| && k != i ==>
          Shaped(a.children[k]) && children[k] == if k < j then PushNulls.PushNull(a.children[k]) else a.children[k]
      {
        UnionChildFits(t, a, j);
        if j != i {
          children := children[j := PushNulls.PushNull(children[j])];
        }
        j := j + 1;
      }
    }

    /** `try_extend`: push the items in order, stopping at the first error. */
    method TryExtend(items: seq<Option<Value>>) returns (status: Status)
      requires Valid() && forall k :: 0 <= k < |items| && items[k].Some? ==> HasType(items[k].value, t)
      modifies this
      ensures Valid()
      ensures ExtendAll(t, items, 0, old(State())) == Pushed(State(), status)
    {
      ghost var a := State();
      var k := 0;
      status := Ok;
      while k < |items|
        invariant 0 <= k <= |items| && Valid() && status == Ok
        invariant ExtendAll(t, items, k, State()) == ExtendAll(t, items, 0, a)
      {
        ghost var before := State();
        status := TryPush(items[k]);
        if status.Err? {
          assert ExtendAll(t, items, k, before) == Pushed(State(), status);
          return;
        }
        k := k + 1;
      }
    }

    /** `finish`: the union array, with the child builders, type ids and offsets
      * reset. `UnionArray::try_new(..).unwrap()`, or a child's own `finish`, panics on
      * a builder that a failed push left uneven; an aligned builder always passes these
      * length and offset checks (the null check on non-nullable children is not modelled). */
    method Finish() returns (r: Outcome<Array>)
      requires Valid()
      modifies this
      ensures r == Arrays.Finish(old(State()))
      ensures Aligned(old(State())) ==> r == Done(old(State()))
      ensures Valid() && State() == NewArray(t)
    {
      r := Arrays.Finish(State());
      typeIds := [];
      offsets := [];
      children := NewChildren(t);
      UnionMemberTypes(t);
    }

    /** `finish_cloned`: the union array, leaving the builder as it is; it panics where
      * `finish` does. */
    method FinishCloned() returns (r: Outcome<Array>)
      requires Valid()
      ensures r == Arrays.Finish(State())
      ensures r.Done? ==> Fits(t, r.value)
      ensures Aligned(State()) ==> r == Done(State())
    {
      r := Arrays.Finish(UnionArray(ids, members, typeIds, if dense then Some(offsets) else None, children));
    }
  }

  /** A null keeps a union builder of its type, adds one row, and keeps it aligned. */
  lemma PushNullFacts(t: RType, a: Array)
    requires t.TEnum? && Fits(t, a)
    ensures Fits(t, PushNulls.PushNull(a)) && Len(PushNulls.PushNull(a)) == Len(a) + 1
    ensures Aligned(a) ==> Aligned(PushNulls.PushNull(a))
  {
    if Aligned(a) {
      PushNulls.PushNullAligned(a);
    }
  }

  /** `try_extend` from item `k` on: each item pushed in turn, the first error ending
    * it. */
  function ExtendAll(t: RType, items: seq<Option<Value>>, k: nat, a: Array): (r: Pushed)
    requires t.TEnum? && WellFormed(t) && Fits(t, a) && k <= |items|
    requires forall j :: 0 <= j < |items| && items[j].Some? ==> HasType(items[j].value, t)
    ensures Fits(t, r.builder) && Prefix(a, r.builder)
    ensures r.status.Ok? ==> Len(r.builder) == Len(a) + |items| - k
    decreases |items| - k
  {
    if k == |items| then
      PrefixRefl(a);
      Pushed(a, Ok)
    else
      var e := UnionPush(t, items[k], a);
      UnionPushPrefixAny(t, items[k], a);
      if e.status.Err? then e
      else
        var r := ExtendAll(t, items, k + 1, e.builder);
        PrefixTrans(a, e.builder, r.builder);
        r
  }

  /** A union push, of a value or a null, only appends. */
  lemma UnionPushPrefixAny(t: RType, item: Option<Value>, a: Array)
    requires t.TEnum? && WellFormed(t) && Fits(t, a)
    requires item.Some? ==> HasType(item.value, t)
    ensures Prefix(a, UnionPush(t, item, a).builder)
  {
    match item
    case None =>
      PushNulls.PushNullPrefix(a);
    case Some(v) =>
      UnionPushPrefix(t, v, a);
  }

  // ---------------------------------------------------------------------------
  // {Name}ArrayIterator
  // ---------------------------------------------------------------------------

  /** The generated iterator: the union array and a range of row indices. */
  class UnionArrayIterator {
    const t: RType
    const arr: Array
    var index: nat

    predicate Valid()
      reads this
    {
      t.TEnum? && Readable(t, arr)
    }

    /** `iter_from_array_ref`: the rows `0..len`. */
    constructor (t: RType, arr: Array)
      requires t.TEnum? && Readable(t, arr)
      ensures Valid() && this.t == t && this.arr == arr && index == 0
    {
      this.t := t;
      this.arr := arr;
      index := 0;
    }

    /** `next`: the row's type id and value offset select the child element; a payload
      * variant deserializes it, a unit variant is rebuilt from the type id. After the
      * last row it yields nothing and stays put. */
    method Next() returns (item: Outcome<Option<Option<Value>>>)
      requires Valid()
      modifies this
      ensures old(index) < Arrays.Len(arr) ==>
        index == old(index) + 1 && item == Lift(UnionRowAsWritten(t, arr, old(index)))
      ensures old(index) >= Arrays.Len(arr) ==> index == old(index) && item == Done(None)
    {
      if index >= Arrays.Len(arr) {
        return Done(None);
      }
      var r := index;
      index := index + 1;
      var tid := TypeAt(arr, r);
      var off := OffsetAt(arr, r);
      UnionChildFits(t, arr, tid);
      var vt := t.variants[tid];
      if vt.isUnit {
        item := Done(Some(Some(VUnit(tid))));
      } else {
        assert vt in t.variants;
        var payload := Row(vt.fieldType, arr.children[tid], off);
        item := Lift(WrapCase(tid, payload));
      }
    }
  }

  /** An iterator item: a row's reading, or its panic. */
  function Lift(o: Outcome<Option<Value>>): (item: Outcome<Option<Option<Value>>>)
    ensures item.Panic? <==> o.Panic?
    ensures item.Done? ==> item.value == Some(o.value)
  {
    match o
    case Panic => Panic
    case Done(x) => Done(Some(x))
  }

  /** Row `r` is a unit variant whose Boolean placeholder is null, as only `push_null`
    * leaves it (in variant 0). */
  predicate NullUnitRow(t: RType, a: Array, r: nat)
    requires t.TEnum? && Readable(t, a) && r < Len(a)
  {
    var tid := TypeAt(a, r);
    UnionChildFits(t, a, tid);
    t.variants[tid].isUnit && Row(t.variants[tid].fieldType, a.children[tid], OffsetAt(a, r)) == Done(None)
  }

  /** The iterator as written and the corrected reading differ exactly on the rows whose
    * unit-variant placeholder is null: there the corrected one reads a null enum. */
  lemma AsWrittenDiffersOnNullUnit(t: RType, a: Array, r: nat)
    requires t.TEnum? && Readable(t, a) && r < Len(a)
    ensures UnionRowAsWritten(t, a, r) != UnionRow(t, a, r) <==> NullUnitRow(t, a, r)
    ensures NullUnitRow(t, a, r) ==> UnionRow(t, a, r) == Done(None)
  {
  }
}
