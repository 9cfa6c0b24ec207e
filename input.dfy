// How the derive macros read their input (input.rs): the `#[arrow_field(...)]`
// attributes of a container and of a field or variant, the shape of each variant, and
// the names of the generated types. The syntax tree is abstracted to what these
// decisions look at; a Rust type is kept as its source text.

module Input {
  import opened Base

  // ---------------------------------------------------------------------------
  // Attributes
  // ---------------------------------------------------------------------------

  /** A literal after `=`: a string, or anything else. */
  datatype Lit = LitStr(s: string) | LitOther

  /** One item of an attribute's list: a path, with an optional `= literal`. */
  datatype Nested = Nested(path: string, value: Option<Lit>)

  /** An outer attribute: its path and, when it has the form `#[path(...)]`, its list. */
  datatype Attribute = Attribute(path: string, list: Option<seq<Nested>>)

  const ArrowField := "arrow_field"

  /** Container attributes are read by `ContainerAttrs::from_ast`, field and variant
    * attributes by `FieldAttrs::from_ast`. */
  datatype Site = ContainerSite | FieldSite

  /** The mutable locals of the two readers: `is_dense` and `is_transparent` for a
    * container, `field_type`, `field_name` and `skip` for a field. Each assignment
    * overwrites one of them, so the same record also describes what a run of items
    * assigns. */
  datatype Settings = Settings(
    isDense: Option<bool>, transparent: bool,
    fieldType: Option<string>, fieldName: Option<string>, skip: bool)

  const Unset := Settings(None, false, None, None, false)

  /** `later` applied on top of `earlier`: what `later` assigns wins. */
  function Then(earlier: Settings, later: Settings): (r: Settings)
    ensures later == Unset ==> r == earlier
    ensures earlier == Unset ==> r == later
  {
    Settings(
      if later.isDense.Some? then later.isDense else earlier.isDense,
      earlier.transparent || later.transparent,
      if later.fieldType.Some? then later.fieldType else earlier.fieldType,
      if later.fieldName.Some? then later.fieldName else earlier.fieldName,
      earlier.skip || later.skip)
  }

  lemma ThenAssociative(a: Settings, b: Settings, c: Settings)
    ensures Then(Then(a, b), c) == Then(a, Then(b, c))
  {
  }

  /** Assigning the same thing twice is assigning it once. */
  lemma ThenIdempotent(s: Settings, e: Settings)
    ensures Then(Then(s, e), e) == Then(s, e)
  {
  }

  /** What one list item assigns, and whether parsing goes on after it. */
  datatype ItemStep = ItemStep(assigns: Settings, ok: bool)

  /** One item of a list:
    * - container: `transparent` sets the flag; `type = "dense"` or `type = "sparse"`
    *   sets the mode; `type` without a string literal or with another string, and any
    *   other path, is an error;
    * - field: `skip` sets the flag; `type = "..."` replaces the type and `name = "..."`
    *   the column name; a missing or non-string literal, and any other path, is an
    *   error.
    * A flag written with a value (`skip = ...`) is set, and then parsing fails at the
    * value nobody consumed. */
  function Item(site: Site, n: Nested): ItemStep
  {
    match site
    case ContainerSite =>
      if n.path == "transparent" then ItemStep(Unset.(transparent := true), n.value.None?)
      else if n.path == "type" then
        (match n.value
         case Some(LitStr(m)) =>
           if m == "dense" then ItemStep(Unset.(isDense := Some(true)), true)
           else if m == "sparse" then ItemStep(Unset.(isDense := Some(false)), true)
           else ItemStep(Unset, false)
         case _ => ItemStep(Unset, false))
      else ItemStep(Unset, false)
    case FieldSite =>
      if n.path == "skip" then ItemStep(Unset.(skip := true), n.value.None?)
      else if n.path == "type" then
        (match n.value
         case Some(LitStr(ty)) => ItemStep(Unset.(fieldType := Some(ty)), true)
         case _ => ItemStep(Unset, false))
      else if n.path == "name" then
        (match n.value
         case Some(LitStr(name)) => ItemStep(Unset.(fieldName := Some(name)), true)
         case _ => ItemStep(Unset, false))
      else ItemStep(Unset, false)
  }

  /** One pass of `list.parse_nested_meta` from item `i` on, starting from `s`: each
    * item's assignments in order, stopping after the first item that fails. */
  function Pass(site: Site, items: seq<Nested>, i: nat, s: Settings): Settings
    requires i <= |items|
    decreases |items| - i
  {
    if i == |items| then s
    else
      var step := Item(site, items[i]);
      if step.ok then Pass(site, items, i + 1, Then(s, step.assigns))
      else Then(s, step.assigns)
  }

  /** A pass is the same assignments whatever it starts from. */
  lemma {:induction false} PassIsThen(site: Site, items: seq<Nested>, i: nat, s: Settings)
    requires i <= |items|
    ensures Pass(site, items, i, s) == Then(s, Pass(site, items, i, Unset))
    decreases |items| - i
  {
    if i < |items| {
      var step := Item(site, items[i]);
      if step.ok {
        PassIsThen(site, items, i + 1, Then(s, step.assigns));
        PassIsThen(site, items, i + 1, step.assigns);
        ThenAssociative(s, step.assigns, Pass(site, items, i + 1, Unset));
      }
    }
  }

  /** Running a pass a second time changes nothing. */
  lemma PassIdempotent(site: Site, items: seq<Nested>, s: Settings)
    ensures Pass(site, items, 0, Pass(site, items, 0, s)) == Pass(site, items, 0, s)
  {
    var e := Pass(site, items, 0, Unset);
    PassIsThen(site, items, 0, s);
    PassIsThen(site, items, 0, Pass(site, items, 0, s));
    ThenIdempotent(s, e);
  }

  /** Items after one that fails have no effect. */
  lemma {:induction false} PassStopsAtError(site: Site, items: seq<Nested>, rest: seq<Nested>, i: nat, s: Settings)
    requires i <= |items| && exists j :: i <= j < |items| && !Item(site, items[j]).ok
    ensures Pass(site, items + rest, i, s) == Pass(site, items, i, s)
    decreases |items| - i
  {
    var step := Item(site, items[i]);
    assert (items + rest)[i] == items[i];
    if step.ok {
      PassStopsAtError(site, items, rest, i + 1, Then(s, step.assigns));
    }
  }

  /** Whether `#[path(...)]` is one of ours and has a list to read. */
  predicate IsArrowFieldList(a: Attribute)
  {
    a.path == ArrowField && a.list.Some?
  }

  /** The settings after reading `attrs` in order: each `#[arrow_field(...)]` list is
    * passed over once, its error discarded. */
  function ReadAttrs(site: Site, attrs: seq<Attribute>): Settings
  {
    if attrs == [] then Unset
    else
      var s := ReadAttrs(site, attrs[..|attrs| - 1]);
      var a := attrs[|attrs| - 1];
      if IsArrowFieldList(a) then Pass(site, a.list.value, 0, s) else s
  }

  /** `ContainerAttrs::from_ast` and `FieldAttrs::from_ast`: for every `arrow_field`
    * attribute, `attr.parse_nested_meta` calls its closure for the list's first item,
    * and the closure runs `list.parse_nested_meta` over the whole list; the outer
    * parse then moves on to the next item only when the item has no value and the
    * pass succeeded, running the whole pass again. An error ends the attribute and is
    * discarded (`let _ =` for a container, `unwrap_or_default` for a field). A
    * path-only attribute fails before any closure runs. */
  method FromAst(site: Site, attrs: seq<Attribute>) returns (s: Settings)
    ensures s == ReadAttrs(site, attrs)
  {
    s := Unset;
    for k := 0 to |attrs|
      invariant s == ReadAttrs(site, attrs[..k])
    {
      assert attrs[..k + 1][..k] == attrs[..k];
      var a := attrs[k];
      if IsArrowFieldList(a) {
        var items := a.list.value;
        ghost var before := s;
        var outer := 0;
        while outer < |items|
          invariant outer <= |items|
          invariant s == if outer == 0 then before else Pass(site, items, 0, before)
          decreases |items| - outer
        {
          var ok;
          PassIdempotent(site, items, before);
          s, ok := RunPass(site, items, s);
          if !ok || items[outer].value.Some? {
            break;
          }
          outer := outer + 1;
        }
      }
    }
    assert attrs[..|attrs|] == attrs;
  }

  /** `list.parse_nested_meta`: the items in order until one fails. */
  method RunPass(site: Site, items: seq<Nested>, s0: Settings) returns (s: Settings, ok: bool)
    ensures s == Pass(site, items, 0, s0)
    ensures ok <==> forall j :: 0 <= j < |items| ==> Item(site, items[j]).ok
  {
    s := s0;
    var i := 0;
    while i < |items|
      invariant i <= |items|
      invariant Pass(site, items, i, s) == Pass(site, items, 0, s0)
      invariant forall j :: 0 <= j < i ==> Item(site, items[j]).ok
    {
      var step := Item(site, items[i]);
      s := Then(s, step.assigns);
      if !step.ok {
        return s, false;
      }
      i := i + 1;
    }
    ok := true;
  }

  // ---------------------------------------------------------------------------
  // What the attribute readers promise
  // ---------------------------------------------------------------------------

  function ModeAttr(mode: string): Attribute
  {
    Attribute(ArrowField, Some([Nested("type", Some(LitStr(mode)))]))
  }

  /** `type = "dense"` selects a dense union and `type = "sparse"` a sparse one, whatever
    * came before; any other mode string changes nothing. */
  lemma ModeSelection(attrs: seq<Attribute>, mode: string)
    ensures ReadAttrs(ContainerSite, attrs + [ModeAttr(mode)]).isDense ==
      if mode == "dense" then Some(true)
      else if mode == "sparse" then Some(false)
      else ReadAttrs(ContainerSite, attrs).isDense
    ensures mode != "dense" && mode != "sparse" ==>
      ReadAttrs(ContainerSite, attrs + [ModeAttr(mode)]) == ReadAttrs(ContainerSite, attrs)
  {
    var items := [Nested("type", Some(LitStr(mode)))];
    assert (attrs + [ModeAttr(mode)])[..|attrs|] == attrs;
    var s := ReadAttrs(ContainerSite, attrs);
    var step := Item(ContainerSite, items[0]);
    assert Pass(ContainerSite, items, 1, Then(s, step.assigns)) == Then(s, step.assigns);
  }

  /** A field's `type = "..."` replaces its type and `name = "..."` its column name,
    * whatever came before. */
  lemma FieldOverrides(attrs: seq<Attribute>, key: string, text: string)
    requires key == "type" || key == "name"
    ensures var s := ReadAttrs(FieldSite, attrs + [Attribute(ArrowField, Some([Nested(key, Some(LitStr(text)))]))]);
      (key == "type" ==> s.fieldType == Some(text)) && (key == "name" ==> s.fieldName == Some(text))
  {
    var items := [Nested(key, Some(LitStr(text)))];
    var a := Attribute(ArrowField, Some(items));
    assert (attrs + [a])[..|attrs|] == attrs;
    var s := ReadAttrs(FieldSite, attrs);
    var step := Item(FieldSite, items[0]);
    assert Pass(FieldSite, items, 1, Then(s, step.assigns)) == Then(s, step.assigns);
  }

  /** Container settings only come from container items, field settings only from
    * field items. */
  lemma {:induction false} SettingsOfSite(site: Site, attrs: seq<Attribute>)
    ensures site == ContainerSite ==>
      var s := ReadAttrs(site, attrs); s.fieldType == None && s.fieldName == None && !s.skip
    ensures site == FieldSite ==>
      var s := ReadAttrs(site, attrs); s.isDense == None && !s.transparent
  {
    if attrs != [] {
      SettingsOfSite(site, attrs[..|attrs| - 1]);
      var a := attrs[|attrs| - 1];
      if IsArrowFieldList(a) {
        PassOfSite(site, a.list.value, 0, ReadAttrs(site, attrs[..|attrs| - 1]));
      }
    }
  }

  lemma {:induction false} PassOfSite(site: Site, items: seq<Nested>, i: nat, s: Settings)
    requires i <= |items|
    requires site == ContainerSite ==> s.fieldType == None && s.fieldName == None && !s.skip
    requires site == FieldSite ==> s.isDense == None && !s.transparent
    ensures var r := Pass(site, items, i, s);
      (site == ContainerSite ==> r.fieldType == None && r.fieldName == None && !r.skip) &&
      (site == FieldSite ==> r.isDense == None && !r.transparent)
    decreases |items| - i
  {
    if i < |items| {
      var step := Item(site, items[i]);
      if step.ok {
        PassOfSite(site, items, i + 1, Then(s, step.assigns));
      }
    }
  }

  // ---------------------------------------------------------------------------
  // DeriveStruct, DeriveEnum, DeriveField, DeriveVariant
  // ---------------------------------------------------------------------------

  /** A macro expansion: its result, a compile error raised by `abort!`, or a panic
    * (`unimplemented!`, an out-of-range index). */
  datatype Expansion<T> = Expanded(value: T) | Aborted(message: string) | Panicked

  /** A field of the input: its identifier (none in a tuple struct), its declared type
    * and its attributes. */
  datatype SynField = SynField(ident: Option<string>, ty: string, attrs: seq<Attribute>)

  /** A variant's fields. */
  datatype SynFields = Named(named: seq<SynField>) | Unnamed(unnamed: seq<SynField>) | Unit

  datatype SynVariant = SynVariant(ident: string, fields: SynFields, attrs: seq<Attribute>)

  /** What the derive reads from a field. */
  datatype FieldDecl = FieldDecl(ident: Option<string>, fieldType: string, fieldName: Option<string>, skip: bool)

  /** What the derive reads from a variant. */
  datatype VariantDecl = VariantDecl(ident: string, fieldType: string, isUnit: bool)

  datatype StructDecl = StructDecl(name: string, fields: seq<FieldDecl>, isTransparent: bool)

  datatype EnumDecl = EnumDecl(name: string, variants: seq<VariantDecl>, isDense: bool)

  /** `DeriveField::from_ast`: the `type` attribute, else the declared type; the `name`
    * attribute; the `skip` flag. */
  function FieldFromAst(f: SynField): (d: FieldDecl)
    ensures d.ident == f.ident
    ensures ReadAttrs(FieldSite, f.attrs).fieldType == None ==> d.fieldType == f.ty
    ensures ReadAttrs(FieldSite, f.attrs).fieldType.Some? ==> d.fieldType == ReadAttrs(FieldSite, f.attrs).fieldType.value
    ensures d.fieldName == ReadAttrs(FieldSite, f.attrs).fieldName && d.skip == ReadAttrs(FieldSite, f.attrs).skip
  {
    var s := ReadAttrs(FieldSite, f.attrs);
    FieldDecl(f.ident, if s.fieldType.Some? then s.fieldType.value else f.ty, s.fieldName, s.skip)
  }

  /** `DeriveVariant::from_ast`:
    * - a unit variant is a unit with payload type `bool`;
    * - a variant with one unnamed field carries that field's type;
    * - named fields, or more than one unnamed field, are unimplemented, and `V()`
    *   indexes an empty field list;
    * a `type` attribute replaces the payload type. */
  function VariantFromAst(v: SynVariant): (r: Expansion<VariantDecl>)
    ensures r.Panicked? <==> v.fields.Named? || (v.fields.Unnamed? && |v.fields.unnamed| != 1)
    ensures r.Expanded? ==> r.value.ident == v.ident && (r.value.isUnit <==> v.fields.Unit?)
    ensures r.Expanded? && ReadAttrs(FieldSite, v.attrs).fieldType == None ==>
      r.value.fieldType == if v.fields.Unit? then "bool" else v.fields.unnamed[0].ty
    ensures r.Expanded? && ReadAttrs(FieldSite, v.attrs).fieldType.Some? ==>
      r.value.fieldType == ReadAttrs(FieldSite, v.attrs).fieldType.value
  {
    var s := ReadAttrs(FieldSite, v.attrs);
    var shape: Expansion<(bool, string)> :=
      match v.fields
      case Named(_) => Panicked
      case Unnamed(fs) => if |fs| != 1 then Panicked else Expanded((false, fs[0].ty))
      case Unit => Expanded((true, "bool"));
    match shape
    case Expanded((isUnit, ty)) =>
      Expanded(VariantDecl(v.ident, if s.fieldType.Some? then s.fieldType.value else ty, isUnit))
    case _ => Panicked
  }

  /** `DeriveStruct::from_ast`: `transparent` on a struct with more than one field is a
    * compile error; every field is read. */
  function StructFromAst(name: string, attrs: seq<Attribute>, fields: seq<SynField>): (r: Expansion<StructDecl>)
    ensures r.Aborted? <==> ReadAttrs(ContainerSite, attrs).transparent && |fields| > 1
    ensures r.Aborted? ==> r.message == "'transparent' is only supported on length-1 structs!"
    ensures !r.Panicked?
    ensures r.Expanded? ==>
      r.value.name == name && |r.value.fields| == |fields| &&
      (forall j :: 0 <= j < |fields| ==> r.value.fields[j] == FieldFromAst(fields[j])) &&
      (r.value.isTransparent <==> ReadAttrs(ContainerSite, attrs).transparent) &&
      (r.value.isTransparent ==> |fields| <= 1)
  {
    var c := ReadAttrs(ContainerSite, attrs);
    if c.transparent && |fields| > 1 then Aborted("'transparent' is only supported on length-1 structs!")
    else Expanded(StructDecl(name, seq(|fields|, j requires 0 <= j < |fields| => FieldFromAst(fields[j])), c.transparent))
  }

  /** The variants read in order; the first that panics ends the expansion. */
  function VariantsFromAst(vs: seq<SynVariant>): (r: Expansion<seq<VariantDecl>>)
    ensures r.Panicked? <==> exists j :: 0 <= j < |vs| && VariantFromAst(vs[j]).Panicked?
    ensures !r.Aborted?
    ensures r.Expanded? ==>
      |r.value| == |vs| && forall j :: 0 <= j < |vs| ==> VariantFromAst(vs[j]) == Expanded(r.value[j])
  {
    if vs == [] then Expanded([])
    else
      var first := VariantFromAst(vs[0]);
      var rest := VariantsFromAst(vs[1..]);
      assert forall j :: 1 <= j < |vs| ==> vs[j] == vs[1..][j - 1];
      if !first.Expanded? then Panicked
      else if !rest.Expanded? then
        var j :| 0 <= j < |vs| - 1 && VariantFromAst(vs[1..][j]).Panicked?;
        assert VariantFromAst(vs[j + 1]).Panicked?;
        Panicked
      else Expanded([first.value] + rest.value)
  }

  /** `DeriveEnum::from_ast`: the variants are read first, then a missing mode is a
    * compile error. */
  function EnumFromAst(name: string, attrs: seq<Attribute>, variants: seq<SynVariant>): (r: Expansion<EnumDecl>)
    ensures r.Panicked? <==> VariantsFromAst(variants).Panicked?
    ensures r.Aborted? <==> !r.Panicked? && ReadAttrs(ContainerSite, attrs).isDense == None
    ensures r.Aborted? ==> r.message == "Missing mode attribute for enum"
    ensures r.Expanded? ==>
      r.value.name == name &&
      Some(r.value.isDense) == ReadAttrs(ContainerSite, attrs).isDense &&
      VariantsFromAst(variants) == Expanded(r.value.variants)
  {
    var c := ReadAttrs(ContainerSite, attrs);
    match VariantsFromAst(variants)
    case Expanded(ds) =>
      if c.isDense.None? then Aborted("Missing mode attribute for enum")
      else Expanded(EnumDecl(name, ds, c.isDense.value))
    case _ => Panicked
  }

  /** An enum whose only mode attribute names neither mode does not expand. */
  lemma BadModeAborts(name: string, mode: string, variants: seq<SynVariant>)
    requires mode != "dense" && mode != "sparse"
    requires forall j :: 0 <= j < |variants| ==> VariantFromAst(variants[j]).Expanded?
    ensures EnumFromAst(name, [ModeAttr(mode)], variants) == Aborted("Missing mode attribute for enum")
  {
    ModeSelection([], mode);
    assert [] + [ModeAttr(mode)] == [ModeAttr(mode)];
  }

  // ---------------------------------------------------------------------------
  // Generated names
  // ---------------------------------------------------------------------------

  function MutableArrayName(name: string): (r: string)
    ensures |r| == |name| + 12
  {
    "Mutable" + name + "Array"
  }

  function ArrayName(name: string): (r: string)
    ensures |r| == |name| + 5
  {
    name + "Array"
  }

  function IteratorName(name: string): (r: string)
    ensures |r| == |name| + 13
  {
    name + "ArrayIterator"
  }

  /** The three generated names of a type are distinct, and each names one type only. */
  lemma GeneratedNames(a: string, b: string)
    ensures MutableArrayName(a) != ArrayName(a) && ArrayName(a) != IteratorName(a)
    ensures MutableArrayName(a) != IteratorName(a)
    ensures MutableArrayName(a) == MutableArrayName(b) ==> a == b
    ensures ArrayName(a) == ArrayName(b) ==> a == b
    ensures IteratorName(a) == IteratorName(b) ==> a == b
  {
    if MutableArrayName(a) == MutableArrayName(b) {
      assert a == MutableArrayName(a)[7..|a| + 7];
      assert b == MutableArrayName(b)[7..|b| + 7];
    }
    if ArrayName(a) == ArrayName(b) {
      assert a == ArrayName(a)[..|a|];
      assert b == ArrayName(b)[..|b|];
    }
    if IteratorName(a) == IteratorName(b) {
      assert a == IteratorName(a)[..|a|];
      assert b == IteratorName(b)[..|b|];
    }
  }
}
