# arrow-convert in Dafny

A model of the core of arrow-convert, the Rust library that converts between Rust
values and Apache Arrow arrays, with proofs about that model. The model covers:

- the runtime library's serialize path: `ArrowSerialize::new_array` and
  `arrow_serialize` for every built-in type; the blanket `Option<T>`, `Vec<T>`,
  `LargeVec<T>`, `ScalarBuffer<T>`, `FixedSizeVec<T, N>` and `[T; N]` impls;
  `arrow_serialize_to_mutable_array`, `try_into_arrow` into an array or a record
  batch, and `FlattenRecordBatch::flatten`;
- the `PushNull` impls of every builder;
- the deserialize path: `arrow_deserialize`, `arrow_deserialize_internal`, the
  list, struct and union iterators, `BufferBinaryArrayIter` and `try_into_collection`;
- the code the derive macros generate for structs and enums: the mutable array
  builders with `try_push`, `push_null`, `try_extend`, `len`, `finish` and
  `finish_cloned`; the typed array iterators; the `ArrowField::data_type` of the
  derived type;
- the macro front end: attribute reading (`ContainerAttrs`, `FieldAttrs`),
  `DeriveStruct`, `DeriveEnum`, `DeriveField` and `DeriveVariant` construction with
  their abort and panic paths, and the generated type names;
- the `rename_all` case rules of `case.rs`;
- the `rust_decimal::Decimal` feature.

Every derived struct or enum, and every built-in type, is described by a type
descriptor `Schema.RType`. One interpreter over that descriptor plays the role of
the generated code. A builder's state is the `Arrays.Array` value it would finish
into, so `finish` returns that state. The classes `DeriveStruct.MutableStructArray`
and `DeriveEnum.MutableUnionArray` hold the builder's fields and are proved against
the pure functions `Serializer.StructPush` and `Serializer.UnionPush`. The iterator
classes `DeriveStruct.StructArrayIterator` and `DeriveEnum.UnionArrayIterator` are
proved against the row readers of `Deserializer`.

The main results:

- Serializing succeeds exactly when every fixed-size binary value has its declared
  width (`Serializer.SerializeOk`).
- Rows already written never change (the `Prefix` lemmas).
- The builders keep the arrays' offsets and lengths consistent (the `Aligned`
  lemmas).
- A pushed null reads back as a null (`RoundTrip.PushNullRow`). For an enum this
  holds with the corrected union reader only; the generated one reads a null as
  variant 0 when that is a unit variant (see Findings).
- Deserializing what `try_into_arrow` produced gives back, row by row, the reading
  `RoundTrip.Expect` predicts (`RoundTrip.CollectionRoundTrip`). That reading is the
  original collection for canonical values (`RoundTrip.CanonicalCollectionRoundTrip`).
  Both read enums with the corrected union reader (see Findings and Left out).

Files, in dependency order:

- `base.dfy`: Option, Outcome (a panic or a value), Status, Result.
- `schema.dfy`: Arrow data types and fields, `RType`, Rust values, `data_type()`.
- `arrays.dfy`: the Arrow arrays, and the `Prefix` and `Aligned` relations.
- `push_null.dfy`: `PushNull` for every builder.
- `serialize.dfy`: `new_array`, `arrow_serialize`, collection and record-batch
  conversion, and `flatten`.
- `deserialize.dfy`: reading rows back, `try_into_collection`, and
  `BufferBinaryArrayIter`.
- `round_trip.dfy`: the round-trip theorems.
- `derive_struct.dfy`: the generated struct builder and iterator.
- `derive_enum.dfy`: the generated union builder and iterator.
- `input.dfy`: attribute reading and the declarations the macros work from.
- `case.dfy`: the case rules.
- `rust_decimal.dfy`: the decimal feature.

The code of `Option<T>::arrow_deserialize` is `T::arrow_deserialize(v).map(Some)`.
Reading a null into an `Option<T>` therefore gives `None`, and only a present value
gives `Some`. The model follows the code, not a reading in which the outer `Option`
is always `Some`.

## Model

| member | source | states |
|---|---|---|
| Schema.TransparentField | arrow_convert_derive/src/derive_struct.rs:132-139 | a transparent one-field struct has exactly its field's data type, and that field is not skipped |
| Schema.StructDataType | arrow_convert_derive/src/derive_struct.rs:116-143 | a derived struct's data type is `Struct` with one child per kept field; child j is the field of the j-th kept field's type under that field's column name |
| Schema.StructFieldTypes | arrow_convert_derive/src/derive_struct.rs:116-143 | child j of a derived struct's data type has the data type of the j-th kept field |
| Schema.UnionMemberTypes | arrow_convert_derive/src/derive_enum.rs:89-105 | a derived enum's data type is a `Union` with ids 0..n, the enum's mode, and member i the field of variant i's type named after variant i |
| Schema.Kept | arrow_convert_derive/src/derive_struct.rs:24 | the kept fields are exactly the fields not marked `skip`, in declaration order |
| Serializer.NewArray | arrow_convert/src/serialize/mod.rs:20-28 | `new_array` gives an empty builder of the type's shape whose offsets and children are consistent |
| Serializer.NewColumns | arrow_convert_derive/src/derive_struct.rs:189-195 | a new struct builder has one empty, consistent column builder per kept field |
| Serializer.NewChildren | arrow_convert_derive/src/derive_enum.rs:248-255 | a new union builder has one empty, consistent child builder per variant |
| Serializer.Serialize | arrow_convert/src/serialize/mod.rs:31-398 | `arrow_serialize` keeps the builder's shape and, when it succeeds, appends exactly one row |
| Serializer.SerializeElems | arrow_convert/src/serialize/mod.rs:321-328 | serializing a list's items stops at the first error; on success the values builder grows by the number of items |
| Serializer.StructPush | arrow_convert_derive/src/derive_struct.rs:217-237 | `try_push` on a struct builder keeps its shape and, on success, appends one row |
| Serializer.SerializeFields | arrow_convert_derive/src/derive_struct.rs:221-229 | the kept fields are serialized into their columns in order; columns before the first error are untouched, and on success each column grows by one row holding that field's serialization |
| Serializer.UnionPush | arrow_convert_derive/src/derive_enum.rs:152-231 | `try_push` on a union builder keeps its shape and, on success, appends one row; in a sparse union every child other than the chosen variant's gets one null, so all children keep the union's length |
| Serializer.SerializeOk | arrow_convert/src/serialize/mod.rs:255-281 | serializing fails iff some fixed-size binary value inside has the wrong width, and then the error is the fixed-size-binary length error |
| Serializer.ElemsOk | arrow_convert/src/serialize/mod.rs:321-328 | serializing a list's items succeeds iff each item has the right widths |
| Serializer.StructPushOk | arrow_convert_derive/src/derive_struct.rs:217-237 | pushing a struct value succeeds iff its fields have the right widths; the only error is the length error |
| Serializer.FieldsOk | arrow_convert_derive/src/derive_struct.rs:221-229 | serializing the kept fields succeeds iff each field has the right widths |
| Serializer.UnionPushOk | arrow_convert_derive/src/derive_enum.rs:152-231 | pushing an enum value succeeds iff its payload has the right widths |
| Serializer.SerializePrefix | arrow_convert/src/serialize/mod.rs:31-398 | `arrow_serialize` never changes rows already in the builder, even when it fails part-way |
| Serializer.ElemsPrefix | arrow_convert/src/serialize/mod.rs:321-328 | serializing list items never changes existing rows of the values builder |
| Serializer.FieldsPrefix | arrow_convert_derive/src/derive_struct.rs:221-229 | serializing struct fields never changes existing rows of any column |
| Serializer.UnionPushPrefix | arrow_convert_derive/src/derive_enum.rs:152-231 | pushing an enum value never changes existing rows of the union or its children |
| Serializer.SerializeAligned | arrow_convert/src/serialize/mod.rs:31-398 | a successful push of a well-formed value keeps the builder's offsets, validity and children consistent with its length |
| Serializer.ListPushAligned | arrow_convert/src/serialize/mod.rs:308-398 | a successful list push keeps list offsets and validity consistent with the values builder |
| Serializer.ElemsAligned | arrow_convert/src/serialize/mod.rs:321-328 | serializing well-formed list items keeps the values builder consistent |
| Serializer.StructPushAligned | arrow_convert_derive/src/derive_struct.rs:217-237 | a successful struct push keeps every column the same length as the struct and the validity bitmap in step |
| Serializer.FieldsAligned | arrow_convert_derive/src/derive_struct.rs:221-229 | serializing well-formed fields keeps every column consistent |
| Serializer.UnionPushAligned | arrow_convert_derive/src/derive_enum.rs:152-231 | a successful enum push keeps type ids, dense offsets and sparse child lengths consistent |
| Serializer.ExtendInternal | arrow_convert/src/serialize/mod.rs:401-415 | the loop serializing a collection into a builder equals serializing its items one after another, stopping at the first error |
| Serializer.MutableArrayOf | arrow_convert/src/serialize/mod.rs:418-429 | building an array from a collection succeeds iff every item has the right widths, the only error is the length error, and the result has one row per item (consistent when items are well-formed) |
| Serializer.ElemsExact | arrow_convert/src/serialize/mod.rs:401-415 | serializing well-formed items always succeeds and yields a consistent array |
| Serializer.SerializeToMutableArray | arrow_convert/src/serialize/mod.rs:418-429 | `arrow_serialize_to_mutable_array` starts from `new_array` and extends it with the collection |
| Arrays.Finish | arrow_convert_derive/src/derive_struct.rs:286-302 | a builder's `finish` returns the array it holds iff the length and offset checks of `StructArray::new`, `UnionArray::try_new`, `FixedSizeListBuilder::finish` and `ListArray::new` pass (`Finishable`), panics otherwise, and always passes those checks on an aligned builder |
| Arrays.AlignedFinishable | arrow_convert_derive/src/derive_enum.rs:348-367 | a consistent builder passes the length and offset checks `finish` makes |
| Serializer.TryIntoArrow | arrow_convert/src/serialize/mod.rs:487-492 | `try_into_arrow` fails with the builder's error, panics iff the built array fails the length and offset checks of `finish`, and otherwise returns it; on well-formed items it always passes them, with one row per item |
| Serializer.WrongLengthFixedSizeVecPanics | arrow_convert/src/serialize/mod.rs:367-374 | a `FixedSizeVec<i32, 2>` holding three items is serialized without error, but `try_into_arrow` then panics in `finish` |
| Serializer.IntoRecordBatch | arrow_convert/src/serialize/mod.rs:502-524 | `try_into_arrow` into a record batch panics iff finishing the array does; otherwise it succeeds iff building the array does, giving one column `record_batch_item` of the type's data type |
| Serializer.FromStructArray | arrow_convert/src/serialize/mod.rs:458-459 | a struct array becomes a record batch of its children and fields, and panics if it has a null row |
| Serializer.Flatten | arrow_convert/src/serialize/mod.rs:439-462 | `flatten` rejects a batch without exactly one column and a column that is not a struct, each with its own error, and otherwise gives that struct's fields and children |
| Serializer.StructRowsKeepNoBitmap | arrow_convert_derive/src/derive_struct.rs:217-237 | pushing only values into a struct builder never creates a validity bitmap |
| Serializer.FlattenStructBatch | arrow_convert/src/serialize/mod.rs:439-462 | flattening the record batch of a collection of derived structs gives one column per kept field, each holding that field of every item |
| PushNulls.InitValidity | arrow_convert_derive/src/derive_struct.rs:197-203 | the bitmap created on the first null has the builder's length, marks every earlier row valid and the last row null |
| PushNulls.PushNull | arrow_convert/src/serialize/push_null.rs:11-85 | `push_null` adds exactly one row and keeps the data type and shape |
| PushNulls.PushNullN | arrow_convert/src/serialize/push_null.rs:16-24 | pushing n nulls adds n rows |
| PushNulls.PushNullPrefix | arrow_convert/src/serialize/push_null.rs:11-85 | `push_null` never changes existing rows |
| PushNulls.PushNullNPrefix | arrow_convert/src/serialize/push_null.rs:16-24 | the nulls a fixed-size list pushes into its values never change existing values |
| PushNulls.PushNullAligned | arrow_convert/src/serialize/push_null.rs:11-85 | `push_null` keeps every builder consistent |
| PushNulls.StructPushNullAligned | arrow_convert_derive/src/derive_struct.rs:256-276 | a struct null pushes one null into every column and extends or creates the bitmap, keeping them consistent |
| PushNulls.UnionPushNullAligned | arrow_convert_derive/src/derive_enum.rs:308-323 | a union null pushes type id 0 and a null into variant 0 (dense) or every child (sparse), keeping them consistent |
| PushNulls.PushNullNAligned | arrow_convert/src/serialize/push_null.rs:16-24 | pushing n nulls keeps a builder consistent and its existing rows unchanged |
| NullBuilders.BooleanBufferBuilder.Append | arrow_convert_derive/src/derive_struct.rs:227-230 | appending a validity bit adds it at the end |
| NullBuilders.BooleanBufferBuilder.PushNull | arrow_convert/src/serialize/push_null.rs:81-85 | `push_null` on a bit builder appends `false` |
| NullBuilders.FixedSizeListBuilder.PushNull | arrow_convert/src/serialize/push_null.rs:16-24 | a fixed-size list null pushes `size` nulls into the values and one invalid slot, matching `PushNulls.PushNull` |
| Deserializer.Row | arrow_convert/src/deserialize/mod.rs:112-135 | `T::arrow_deserialize` of row r: a present reading has the form of the type (`Some` for an `Option`, whose null stays `None`; a list; a struct with every declared field, a transparent struct wrapping its one field; a declared variant); enums are read with the corrected `UnionRow`; what a serialized row reads as is `RoundTrip.SerializeRow`, and that the reading never changes is `RoundTrip.RowStable` |
| Deserializer.ListRow | arrow_convert/src/deserialize/mod.rs:338-350 | a list row is `None` iff its validity bit is clear, and otherwise a list with one item per slot between its two offsets, or `size` items in a fixed-size list |
| Deserializer.StructRow | arrow_convert_derive/src/derive_struct.rs:469-503 | a struct row is `None` iff its validity bit is clear and every column's iterator steps past it (`consume_next`); a present reading comes from a valid row and holds every declared field |
| Deserializer.UnionRow | arrow_convert_derive/src/derive_enum.rs:447-470 | the corrected enum reading: a present reading is the variant the row's type id names, unit or payload as declared; a unit variant never panics, and the null `push_null` leaves reads as `None` (`RoundTrip.UnionPushNullRow`) |
| Deserializer.UnionRowAsWritten | arrow_convert_derive/src/derive_enum.rs:447-470 | the generated enum reading: a present reading is the variant the row's type id names, and a unit variant's row is always that variant whatever its placeholder holds (`DeriveEnum.AsWrittenDiffersOnNullUnit`) |
| Deserializer.Internal | arrow_convert/src/deserialize/mod.rs:56-60 | `arrow_deserialize_internal` panics on a null unless the type is an `Option`, where a null becomes `None` |
| Deserializer.Assemble | arrow_convert_derive/src/derive_struct.rs:452-466 | a struct is built from its kept fields' readings in order, with `Default::default()` for the skipped fields |
| Deserializer.ListSlice | arrow_convert/src/deserialize/mod.rs:338-350 | a list row read successfully gives a list with one item per slot of its slice, each item being `arrow_deserialize_internal` of that slot |
| Deserializer.ColumnOuts | arrow_convert_derive/src/derive_struct.rs:452-466 | each kept field is read from its own column at the same row with `arrow_deserialize_internal` |
| Deserializer.Rows | arrow_convert/src/deserialize/mod.rs:466-476 | reading the first n rows succeeds iff no row panics, and then row i is `arrow_deserialize_internal` of that row |
| Deserializer.TryIntoCollection | arrow_convert/src/deserialize/mod.rs:509-530 | `try_into_collection` fails with "Data type mismatch" iff the array's data type differs, otherwise panics iff a row panics, and collects every row in order |
| Deserializer.BufferBinaryArrayIter.Next | arrow_convert/src/deserialize/mod.rs:233-246 | the iterator yields the slot at its index and advances, and past the end yields nothing and stays put |
| Deserializer.BufferBinaryArrayIter.Collect | arrow_convert/src/deserialize/mod.rs:230-247 | draining the iterator yields every remaining slot in order |
| RoundTrip.RowStable | arrow_convert/src/deserialize/mod.rs:466-476 | reading row r of an array gives the same result on any array that extends it |
| RoundTrip.ListRowStable | arrow_convert/src/deserialize/mod.rs:338-350 | reading a list row is unchanged by later pushes |
| RoundTrip.SliceStable | arrow_convert/src/deserialize/mod.rs:338-350 | reading a slice of list values is unchanged by later pushes |
| RoundTrip.StructRowStable | arrow_convert_derive/src/derive_struct.rs:493-505 | reading a struct row is unchanged by later pushes |
| RoundTrip.UnionRowStable | arrow_convert_derive/src/derive_enum.rs:524-535 | reading a union row is unchanged by later pushes |
| RoundTrip.PushNullRow | arrow_convert/src/serialize/mod.rs:65-73 | a null pushed into any builder reads back as `None` |
| RoundTrip.StructPushNullRow | arrow_convert_derive/src/derive_struct.rs:256-276 | a null pushed into a struct builder reads back as `None` |
| RoundTrip.UnionPushNullRow | arrow_convert_derive/src/derive_enum.rs:308-323 | a null pushed into a union builder reads back as `None` (with the corrected reader) |
| RoundTrip.SerializeRow | arrow_convert/src/serialize/mod.rs:31-398 | serializing a well-formed value succeeds, appends one row without touching earlier ones, and that row reads back as `Expect` |
| RoundTrip.ElemsRows | arrow_convert/src/serialize/mod.rs:321-328 | after serializing list items, each new row of the values builder reads back as its item's `Expect` |
| RoundTrip.ListSerializeRow | arrow_convert/src/serialize/mod.rs:308-329 | a pushed list row reads back as the `Expect` of the list |
| RoundTrip.ListPushedRow | arrow_convert/src/deserialize/mod.rs:338-350 | a list row whose slice holds the items' readings reads as the list's `Expect` |
| RoundTrip.ListPushShape | arrow_convert/src/serialize/mod.rs:321-328 | a successful list push appends the new end offset and a valid slot after serializing the items into the values |
| RoundTrip.ListArrayRowOfPush | arrow_convert/src/deserialize/mod.rs:390-398 | the new last row of a list array reads the slice between the old and new value lengths |
| RoundTrip.FixedListRowOfPush | arrow_convert/src/deserialize/mod.rs:400-408 | the new last row of a fixed-size list reads the `size` values after the old ones |
| RoundTrip.SliceReadsElems | arrow_convert/src/deserialize/mod.rs:338-350 | a slice whose rows read as the items' readings reads as the list's `Expect` |
| RoundTrip.StructSerializeRow | arrow_convert_derive/src/derive_struct.rs:217-237 | a pushed struct row reads back as the struct's `Expect` |
| RoundTrip.UnionSerializeRow | arrow_convert_derive/src/derive_enum.rs:152-231 | a pushed enum row reads back as the enum's `Expect` |
| RoundTrip.CollectionRoundTrip | arrow_convert/src/deserialize/mod.rs:509-530 | `try_into_collection` of `try_into_arrow` of well-formed items gives each item's `Expect` reading, or panics exactly when one of those readings panics |
| RoundTrip.ExpectCanonical | arrow_convert/src/deserialize/mod.rs:112-133 | a canonical value reads back as itself, and a non-null one as `Some` of itself |
| RoundTrip.ListExpectCanonical | arrow_convert/src/deserialize/mod.rs:377-388 | a canonical list reads back as itself |
| RoundTrip.StructExpectCanonical | arrow_convert_derive/src/derive_struct.rs:452-466 | a canonical struct reads back as itself |
| RoundTrip.CanonicalCollectionRoundTrip | arrow_convert/src/deserialize/mod.rs:509-530 | serializing then deserializing a collection of well-formed canonical items gives back the same collection |
| RoundTrip.NullUnitVariantReadsAsVariant | arrow_convert_derive/src/derive_enum.rs:452-458 | a null pushed into a union whose variant 0 is a unit variant reads back as that variant in the generated iterator, but as `None` in the corrected reader |
| DeriveStruct.ColumnsOfStruct | arrow_convert_derive/src/derive_struct.rs:83-93 | a struct's columns are its kept fields in order; column m is nullable iff the field is an `Option` and is named by the `name` override, else the identifier without `r#`, else `field_m` |
| DeriveStruct.StripRawPrefix | arrow_convert_derive/src/derive_struct.rs:89 | a raw identifier's column name drops its `r#` prefix, and any other identifier is kept as written |
| DeriveStruct.AllSkippedRefused | arrow_convert_derive/src/derive_struct.rs:24-30 | a struct whose fields are all skipped keeps no field and is refused |
| DeriveStruct.MutableStructArray.constructor | arrow_convert_derive/src/derive_struct.rs:189-195 | `new` starts at the empty struct array, with no bitmap |
| DeriveStruct.MutableStructArray.Len | arrow_convert_derive/src/derive_struct.rs:282-284 | `len` is the first column's length, which is every column's length |
| DeriveStruct.MutableStructArray.InitValidity | arrow_convert_derive/src/derive_struct.rs:197-203 | `init_validity` creates the bitmap with all rows valid but the last |
| DeriveStruct.MutableStructArray.PushNull | arrow_convert_derive/src/derive_struct.rs:256-276 | `push_null` moves the builder to `PushNulls.PushNull` of its old state and keeps it consistent |
| DeriveStruct.MutableStructArray.TryPush | arrow_convert_derive/src/derive_struct.rs:217-237 | `try_push` moves the builder to `StructPush` of its old state; a failed push leaves the bitmap untouched |
| DeriveStruct.MutableStructArray.PushFields | arrow_convert_derive/src/derive_struct.rs:221-229 | serializing the fields in order updates the columns as `SerializeFields` says |
| DeriveStruct.MutableStructArray.TryExtend | arrow_convert_derive/src/derive_struct.rs:239-244 | `try_extend` pushes the items in order and stops at the first error |
| DeriveStruct.MutableStructArray.Finish | arrow_convert_derive/src/derive_struct.rs:286-302 | `finish` panics iff the builder fails the length and offset checks (a failed push left it uneven), otherwise returns the built array; an aligned builder always passes them; it leaves an empty builder |
| DeriveStruct.MutableStructArray.FinishCloned | arrow_convert_derive/src/derive_struct.rs:304-320 | `finish_cloned` panics where `finish` does (length and offset checks), otherwise returns the built array, of the struct's data type; it changes nothing |
| DeriveStruct.ExtendAll | arrow_convert_derive/src/derive_struct.rs:239-244 | extending never changes existing rows and, on success, adds one row per item |
| DeriveStruct.StructPushByFields | arrow_convert_derive/src/derive_struct.rs:217-237 | a struct push is the fields' serialization plus a valid bit when a bitmap exists |
| DeriveStruct.PushNullFacts | arrow_convert_derive/src/derive_struct.rs:256-276 | a struct null adds one row and keeps the builder consistent |
| DeriveStruct.StructPushPrefix | arrow_convert_derive/src/derive_struct.rs:217-237 | `try_push` never changes existing rows, whether it succeeds or not |
| DeriveStruct.FailedPushThenFinishPanics | arrow_convert_derive/src/derive_struct.rs:217-237 | a struct push that fails on its second column leaves the first column one row longer, and `finish` then panics |
| DeriveStruct.StructArrayIterator.constructor | arrow_convert_derive/src/derive_struct.rs:410-427 | the iterator starts at row 0 with every column iterator in step |
| DeriveStruct.StructArrayIterator.ReturnNext | arrow_convert_derive/src/derive_struct.rs:469-480 | `return_next` advances every column and, on a valid row, yields the struct row's reading |
| DeriveStruct.ReadColumns | arrow_convert_derive/src/derive_struct.rs:472-476 | reading row `r` from every kept column gives, column by column, `arrow_deserialize_internal` of that column's row (`ColumnOuts`) |
| DeriveStruct.StructArrayIterator.AdvanceColumns | arrow_convert_derive/src/derive_struct.rs:472-476 | advancing the column iterators yields each kept column's reading of the current row |
| DeriveStruct.SkipColumns | arrow_convert_derive/src/derive_struct.rs:482-484 | calling `next` on every column iterator for a null row succeeds exactly when no column's item panics (`ColumnsSkip`) |
| DeriveStruct.StructArrayIterator.ConsumeNext | arrow_convert_derive/src/derive_struct.rs:482-485 | `consume_next` advances every column by one row and reports whether any column's item panicked |
| DeriveStruct.StructArrayIterator.Next | arrow_convert_derive/src/derive_struct.rs:491-503 | `next` yields `NextItem` of the current row and advances one row, and past the end yields nothing |
| DeriveStruct.NextItem | arrow_convert_derive/src/derive_struct.rs:491-503 | the iterator ends exactly past the last row, panics exactly when the row reading panics, and otherwise yields that reading |
| DeriveEnum.UnionOfEnum | arrow_convert_derive/src/derive_enum.rs:75-105 | an enum has 1 to 127 variants and its data type is the union of its variants' fields with ids 0..n; a unit variant is stored as `bool` |
| DeriveEnum.NoVariantsRefused | arrow_convert_derive/src/derive_enum.rs:36-38 | an enum without variants is refused |
| DeriveEnum.MutableUnionArray.constructor | arrow_convert_derive/src/derive_enum.rs:248-255 | `new` starts at the empty union array |
| DeriveEnum.MutableUnionArray.Len | arrow_convert_derive/src/derive_enum.rs:344-346 | `len` is the number of type ids, which equals the dense offsets' count or every sparse child's length |
| DeriveEnum.MutableUnionArray.PushNull | arrow_convert_derive/src/derive_enum.rs:308-323 | `push_null` moves the builder to `PushNulls.PushNull` of its old state and keeps it consistent |
| DeriveEnum.MutableUnionArray.TryPush | arrow_convert_derive/src/derive_enum.rs:280-296 | `try_push` moves the builder to `UnionPush` of its old state; a failed push leaves type ids and offsets untouched |
| DeriveEnum.MutableUnionArray.PushValue | arrow_convert_derive/src/derive_enum.rs:152-231 | the match arm for a value moves the builder to `UnionPush` of its old state |
| DeriveEnum.MutableUnionArray.PadOthers | arrow_convert_derive/src/derive_enum.rs:185-200 | the sparse arm pushes one null into every child other than the chosen one |
| DeriveEnum.MutableUnionArray.TryExtend | arrow_convert_derive/src/derive_enum.rs:298-304 | `try_extend` pushes the items in order and stops at the first error |
| DeriveEnum.MutableUnionArray.Finish | arrow_convert_derive/src/derive_enum.rs:348-367 | `finish` panics iff the builder fails the length and offset checks (a failed push left it uneven), otherwise returns the built union; an aligned builder always passes them; it leaves an empty builder |
| DeriveEnum.MutableUnionArray.FinishCloned | arrow_convert_derive/src/derive_enum.rs:369-388 | `finish_cloned` panics where `finish` does (length and offset checks), otherwise returns the built union; it changes nothing |
| DeriveEnum.PushNullFacts | arrow_convert_derive/src/derive_enum.rs:308-323 | a union null adds one row and keeps the builder consistent |
| DeriveEnum.ExtendAll | arrow_convert_derive/src/derive_enum.rs:298-304 | extending never changes existing rows and, on success, adds one row per item |
| DeriveEnum.UnionPushPrefixAny | arrow_convert_derive/src/derive_enum.rs:280-296 | `try_push` never changes existing rows |
| DeriveEnum.UnionArrayIterator.Next | arrow_convert_derive/src/derive_enum.rs:524-535 | `next` yields the generated reading of the current row and advances (a panicking reading stays a panic), and past the end yields nothing |
| DeriveEnum.AsWrittenDiffersOnNullUnit | arrow_convert_derive/src/derive_enum.rs:452-458 | the generated reader and the corrected one differ exactly on a null row of a unit variant, where the corrected one gives `None` |
| Input.Then | arrow_convert_derive/src/input.rs:84-130 | a later attribute overrides an earlier one, and an empty attribute changes nothing |
| Input.ThenAssociative | arrow_convert_derive/src/input.rs:84-130 | combining attribute settings is associative |
| Input.ThenIdempotent | arrow_convert_derive/src/input.rs:84-130 | applying the same settings twice is the same as once |
| Input.PassIsThen | arrow_convert_derive/src/input.rs:132-176 | reading a nested list over earlier settings is the earlier settings overridden by what the list sets |
| Input.PassIdempotent | arrow_convert_derive/src/input.rs:84-130 | reading the same nested list twice gives the same settings as once |
| Input.PassStopsAtError | arrow_convert_derive/src/input.rs:132-176 | an unexpected item stops reading, so nothing after it is read |
| Input.FromAst | arrow_convert_derive/src/input.rs:84-130 | reading a container's or field's attributes yields `ReadAttrs` of them |
| Input.RunPass | arrow_convert_derive/src/input.rs:150-170 | one pass over a nested list yields its settings and reports whether every item was accepted |
| Input.ModeSelection | arrow_convert_derive/src/input.rs:96-113 | `type = "dense"` and `type = "sparse"` in `#[arrow_field(...)]` select the mode whatever came before; any other value is rejected and changes nothing |
| Input.FieldOverrides | arrow_convert_derive/src/input.rs:150-165 | a final `type` or `name` item sets the field's type or name override |
| Input.SettingsOfSite | arrow_convert_derive/src/input.rs:84-176 | container attributes never set field settings, and field attributes never set container settings |
| Input.PassOfSite | arrow_convert_derive/src/input.rs:132-176 | a pass at one site never sets the other site's settings |
| Input.FieldFromAst | arrow_convert_derive/src/input.rs:215-226 | a field keeps its identifier and takes the `type` override if any, else its declared type, together with its `name` and `skip` settings |
| Input.VariantFromAst | arrow_convert_derive/src/input.rs:228-252 | a named variant or one with other than one unnamed field panics; a unit variant has type `bool` and the unit flag; a `type` override replaces the type |
| Input.StructFromAst | arrow_convert_derive/src/input.rs:178-198 | a struct aborts with "'transparent' is only supported on length-1 structs!" iff it is transparent with more than one field, and otherwise keeps its name and fields |
| Input.VariantsFromAst | arrow_convert_derive/src/input.rs:200-213 | the variants are read in order, and reading panics iff one variant panics |
| Input.EnumFromAst | arrow_convert_derive/src/input.rs:200-213 | an enum panics iff a variant does, otherwise aborts with "Missing mode attribute for enum" iff no mode is set, and otherwise takes that mode |
| Input.BadModeAborts | arrow_convert_derive/src/input.rs:200-213 | an enum whose only mode attribute has an unknown value aborts for a missing mode |
| Input.MutableArrayName | arrow_convert_derive/src/input.rs:71-73 | the builder is named `Mutable<Name>Array` |
| Input.ArrayName | arrow_convert_derive/src/input.rs:75-77 | the array type is named `<Name>Array` |
| Input.IteratorName | arrow_convert_derive/src/input.rs:79-81 | the iterator is named `<Name>ArrayIterator` |
| Input.GeneratedNames | arrow_convert_derive/src/input.rs:71-81 | the three generated names of one type differ from each other, and each determines the type's name |
| Case.SplitIntoWords | arrow_convert_derive/src/case.rs:58-96 | the loop splits a name into separator-free words whose concatenation is the name without `_` and `-` |
| Case.FeedFacts | arrow_convert_derive/src/case.rs:63-88 | one step of the split keeps the current word and every pushed word non-empty and separator-free |
| Case.FeedConcat | arrow_convert_derive/src/case.rs:63-88 | one step of the split loses only separators |
| Case.SplitAllWords | arrow_convert_derive/src/case.rs:58-96 | every word produced is non-empty and contains no separator |
| Case.SplitConcat | arrow_convert_derive/src/case.rs:58-96 | the words produced concatenate to the input without separators |
| Case.SplitWordsFacts | arrow_convert_derive/src/case.rs:58-96 | `split_into_words` yields separator-free words that concatenate to the name without separators |
| Case.SplitPlain | arrow_convert_derive/src/case.rs:86-87 | lowercase, separator-free text just extends the current word |
| Case.SplitJoin | arrow_convert_derive/src/case.rs:58-96 | splitting lowercase words joined by a separator gives back those words |
| Case.FromStr | arrow_convert_derive/src/case.rs:16-28 | `from_str` only accepts a rule's own name |
| Case.FromStrExactly | arrow_convert_derive/src/case.rs:16-28 | `from_str(s)` is `Some(r)` exactly when `s` is r's name, so each of the eight names selects one rule |
| Case.Apply | arrow_convert_derive/src/case.rs:31-54 | `apply` gives the rule's rendering of the split words |
| Case.CamelArm | arrow_convert_derive/src/case.rs:36-46 | the camelCase loop lower-cases the first word and capitalizes the rest |
| Case.LowerUpperDropSeps | arrow_convert_derive/src/case.rs:34-35 | lowercase and UPPERCASE are the name without separators, lower- or upper-cased |
| Case.CamelIsPascalButFirst | arrow_convert_derive/src/case.rs:36-47 | camelCase is the lower-cased first word followed by the PascalCase of the rest |
| Case.LoweredJoinSplits | arrow_convert_derive/src/case.rs:49-51 | splitting a snake_case or kebab-case rendering gives back its lower-cased words |
| Case.SnakeKebabIdempotent | arrow_convert_derive/src/case.rs:49-51 | snake_case and kebab-case are idempotent |
| Case.SnakeKebabNoUpper | arrow_convert_derive/src/case.rs:49-51 | snake_case and kebab-case output has no uppercase letter |
| Case.CamelNotIdempotent | arrow_convert_derive/src/case.rs:36-46 | camelCase is not idempotent: "a_b_c" becomes "aBC" and that becomes "aBc" |
| Case.ContinueAcronym | arrow_convert_derive/src/case.rs:68-85 | an uppercase letter not followed by a lowercase one continues an all-uppercase word |
| Case.SplitAcronymLast | arrow_convert_derive/src/case.rs:131 | "parseXML" splits into "parse" and "XML" |
| Case.SplitAcronymFirst | arrow_convert_derive/src/case.rs:130 | "XMLParser" splits into "XML" and "Parser": an acronym ends before the capital that starts the next word |
| Case.SplitCamelName | arrow_convert_derive/src/case.rs:120 | "myFieldName" splits into "my", "Field" and "Name" |
| Case.SplitPascalName | arrow_convert_derive/src/case.rs:125 | "MyFieldName" splits into "My", "Field" and "Name" |
| Case.CamelPascalSample | arrow_convert_derive/src/case.rs:137 | camelCase turns "MyFieldName" into "myFieldName" |
| Case.UpperSnakeSample | arrow_convert_derive/src/case.rs:168 | UPPERCASE turns "my_field_name" into "MYFIELDNAME" |
| Case.SplitSnakeName | arrow_convert_derive/src/case.rs:115 | "my_field_name" splits into "my", "field" and "name" |
| Case.CapitalizeCharacterized | arrow_convert_derive/src/case.rs:98-107 | `capitalize` gives exactly the string of the same length and letters whose first character is not lower-case and whose other characters are not upper-case |
| RustDecimal.TruncDiv | arrow_convert/src/features/rust_decimal.rs:51 | Rust's integer division rounds toward zero, so the quotient keeps the dividend's sign |
| RustDecimal.DecimalToScaledI128 | arrow_convert/src/features/rust_decimal.rs:44-55 | the rescaled mantissa is returned when it fits i128 and panics otherwise |
| RustDecimal.RescaledValue | arrow_convert/src/features/rust_decimal.rs:44-55 | a decimal with scale at most 10 is rescaled exactly to the same value at scale 10; a larger scale is truncated toward zero and stays below 2^96 |
| RustDecimal.SerializeAsWritten | arrow_convert/src/features/rust_decimal.rs:29-32 | serializing appends the rescaled mantissa, and panics iff it does not fit i128 |
| RustDecimal.Deserialize | arrow_convert/src/features/rust_decimal.rs:38-40 | a null reads as `None`; a stored integer reads as that mantissa at scale 10, and panics iff its magnitude is at least 2^96 |
| RustDecimal.MaxDecimalOverflows | arrow_convert/src/features/rust_decimal.rs:54 | `Decimal::MAX` at scale 0 overflows i128 when rescaled |
| RustDecimal.LargeWholeDecimalUnreadable | arrow_convert/src/features/rust_decimal.rs:38-40 | 10^20 at scale 0 is stored as 10^30, which cannot be read back |
| RustDecimal.TrySerialize | arrow_convert/src/features/rust_decimal.rs:44-55 | the corrected serializer succeeds iff the rescaled mantissa can be read back, and then appends it |
| RustDecimal.CheckedRoundTrip | arrow_convert/src/features/rust_decimal.rs:29-40 | whatever the corrected serializer accepts reads back without panic: equal in value for scale at most 10, truncated toward zero beyond |
| RustDecimal.SmallDecimalsAccepted | arrow_convert/src/features/rust_decimal.rs:44-55 | a decimal with scale at most 10 reads back iff its mantissa times 10^(10 - scale) lies strictly between -2^96 and 2^96, and then it is stored as that product; a mantissa of magnitude at most 2^62 always qualifies |
| RustDecimal.StoredFitsColumnType | arrow_convert/src/features/rust_decimal.rs:15-17 | the column type is `Decimal128(38, 10)`, every value the checked serializer stores has fewer than 38 digits, and it reads back at scale 10 |

## Left out

- The chrono, floating-point, glam, uuid and tinystr features, `iterable.rs` and the top-level `src/deserialize.rs` are not part of this model; they add leaf types of the same shape.
- Floating-point leaves (`f16`, `f32`, `f64`) and the date and timestamp leaves are left out; the integer and string leaves stand for all fixed-width and variable-width leaves.
- Proc-macro token generation itself is not modelled: the generated code is modelled by what it does, through `RType`. `syn` parsing is abstracted: an attribute item is a path with an optional literal; nested lists deeper than one level and `syn::parse_str` failures on a `type` override are not modelled, and a type override stays as text.
- The precedence between `rename_all` and other serde attributes is not modelled; only the case rules themselves are.
- Case.Lowered: Rust's `to_lowercase` and `to_uppercase` are modelled on ASCII letters only; other letters are left unchanged.
- The `i32` list offsets and `i8` union type ids are unbounded integers in the model; overflowing them (more than 2^31 values, more than 127 variants beyond what `DeriveEnum.UnionOfEnum` requires) is not modelled.
- The internals of arrow-rs builders and arrays are modelled by their observable contents; of the validation `finish` performs (`StructArray::new`, `UnionArray::try_new`, `FixedSizeListBuilder::finish`, `ListArray::new`), `Arrays.Finishable` models the length and offset checks, and `finish` panics on a builder that a failed push left uneven and that does not satisfy it; the stronger `Aligned` invariant is proved for successful pushes of well-formed values and for `push_null`, and implies `Finishable`. arrow-rs's refusal of nulls in a child whose field is non-nullable is not modelled (see the lines below). The exact wording of arrow-rs's error messages is not modelled.
- Arrays.Finish: models only the length and offset checks of `finish`, not the refusal of nulls in a non-nullable child field; on `#[arrow_field(transparent)] struct W(Option<i32>)`, whose field is declared non-nullable, `vec![vec![W(None)]].try_into_arrow()` panics in arrow-rs (the list child holds a null), and so do a struct field `w: W` and an enum payload `Vec<W>` holding `W(None)`, where the model finishes.
- Arrays.AlignedFinishable: models only the length and offset checks of `finish`, not the refusal of nulls in a non-nullable child field; on `#[arrow_field(transparent)] struct W(Option<i32>)`, whose field is declared non-nullable, `vec![vec![W(None)]].try_into_arrow()` panics in arrow-rs (the list child holds a null), and so do a struct field `w: W` and an enum payload `Vec<W>` holding `W(None)`, where the model finishes.
- Serializer.TryIntoArrow: models only the length and offset checks of `finish`, not the refusal of nulls in a non-nullable child field; on `#[arrow_field(transparent)] struct W(Option<i32>)`, whose field is declared non-nullable, `vec![vec![W(None)]].try_into_arrow()` panics in arrow-rs (the list child holds a null), and so do a struct field `w: W` and an enum payload `Vec<W>` holding `W(None)`, where the model finishes.
- Serializer.IntoRecordBatch: models only the length and offset checks of `finish`, not the refusal of nulls in a non-nullable child field; on `#[arrow_field(transparent)] struct W(Option<i32>)`, whose field is declared non-nullable, `vec![vec![W(None)]].try_into_arrow()` panics in arrow-rs (the list child holds a null), and so do a struct field `w: W` and an enum payload `Vec<W>` holding `W(None)`, where the model finishes.
- DeriveStruct.MutableStructArray.Finish: models only the length and offset checks of `finish`, not the refusal of nulls in a non-nullable child field; on `#[arrow_field(transparent)] struct W(Option<i32>)`, whose field is declared non-nullable, `vec![vec![W(None)]].try_into_arrow()` panics in arrow-rs (the list child holds a null), and so do a struct field `w: W` and an enum payload `Vec<W>` holding `W(None)`, where the model finishes.
- DeriveStruct.MutableStructArray.FinishCloned: models only the length and offset checks of `finish`, not the refusal of nulls in a non-nullable child field; on `#[arrow_field(transparent)] struct W(Option<i32>)`, whose field is declared non-nullable, `vec![vec![W(None)]].try_into_arrow()` panics in arrow-rs (the list child holds a null), and so do a struct field `w: W` and an enum payload `Vec<W>` holding `W(None)`, where the model finishes.
- DeriveEnum.MutableUnionArray.Finish: models only the length and offset checks of `finish`, not the refusal of nulls in a non-nullable child field; on `#[arrow_field(transparent)] struct W(Option<i32>)`, whose field is declared non-nullable, `vec![vec![W(None)]].try_into_arrow()` panics in arrow-rs (the list child holds a null), and so do a struct field `w: W` and an enum payload `Vec<W>` holding `W(None)`, where the model finishes.
- DeriveEnum.MutableUnionArray.FinishCloned: models only the length and offset checks of `finish`, not the refusal of nulls in a non-nullable child field; on `#[arrow_field(transparent)] struct W(Option<i32>)`, whose field is declared non-nullable, `vec![vec![W(None)]].try_into_arrow()` panics in arrow-rs (the list child holds a null), and so do a struct field `w: W` and an enum payload `Vec<W>` holding `W(None)`, where the model finishes.
- Schema.WellFormed: a skipped field of a tuple struct is excluded. The source accepts one when `ArrowDeserialize` is not derived; the generated code then numbers members by kept position, so `#[derive(ArrowField, ArrowSerialize)] struct T(#[arrow_field(skip)] i32, i32)` serializes member 0, the skipped one, into column `field_0`. The model does not cover that case.
- Deserializer.Rows: reads enums with the corrected `Deserializer.UnionRow`, so a `None` of an enum whose variant 0 is a unit variant reads back as `None` here, whereas the generated iterator gives variant 0 (Findings, first row).
- Deserializer.TryIntoCollection: reads enums with the corrected `Deserializer.UnionRow`, so a `None` of an enum whose variant 0 is a unit variant reads back as `None` here, whereas the generated iterator gives variant 0 (Findings, first row).
- RoundTrip.PushNullRow: reads enums with the corrected `Deserializer.UnionRow`, so a `None` of an enum whose variant 0 is a unit variant reads back as `None` here, whereas the generated iterator gives variant 0 (Findings, first row).
- RoundTrip.SerializeRow: reads enums with the corrected `Deserializer.UnionRow`, so a `None` of an enum whose variant 0 is a unit variant reads back as `None` here, whereas the generated iterator gives variant 0 (Findings, first row).
- RoundTrip.ElemsRows: reads enums with the corrected `Deserializer.UnionRow`, so a `None` of an enum whose variant 0 is a unit variant reads back as `None` here, whereas the generated iterator gives variant 0 (Findings, first row).
- RoundTrip.ListSerializeRow: reads enums with the corrected `Deserializer.UnionRow`, so a `None` of an enum whose variant 0 is a unit variant reads back as `None` here, whereas the generated iterator gives variant 0 (Findings, first row).
- RoundTrip.StructSerializeRow: reads enums with the corrected `Deserializer.UnionRow`, so a `None` of an enum whose variant 0 is a unit variant reads back as `None` here, whereas the generated iterator gives variant 0 (Findings, first row).
- RoundTrip.UnionSerializeRow: reads enums with the corrected `Deserializer.UnionRow`, so a `None` of an enum whose variant 0 is a unit variant reads back as `None` here, whereas the generated iterator gives variant 0 (Findings, first row).
- RoundTrip.CollectionRoundTrip: reads enums with the corrected `Deserializer.UnionRow`, so a `None` of an enum whose variant 0 is a unit variant reads back as `None` here, whereas the generated iterator gives variant 0 (Findings, first row).
- RoundTrip.CanonicalCollectionRoundTrip: reads enums with the corrected `Deserializer.UnionRow`, so a `None` of an enum whose variant 0 is a unit variant reads back as `None` here, whereas the generated iterator gives variant 0 (Findings, first row).
- DeriveEnum.UnionArrayIterator.Next: the "Invalid type" and "Invalid offset" panics are unreachable on arrays satisfying `Aligned`, so the iterator is proved only on such arrays.
- Reading a list row reads its slice with the element type's own reader; that slicing commutes with iteration is taken as arrow-rs behaviour.
- RoundTrip.ExpectCanonical: a transparent struct over an `Option` holding `None`, and an enum payload of `None`, panic on read-back, as in the source; `Canonical` excludes them.
- Input.VariantFromAst: a `type` override on a unit variant gives a non-`bool` type, which `Schema.WellFormed` excludes from the rest of the model.
- RustDecimal.DecimalToScaledI128: i128 overflow is modelled as a panic, as in a build with overflow checks; a release build wraps instead.
- I/O, allocation, `shrink_to_fit`, `reserve`, `as_any` and the `Default` impls have no observable effect in the model and are left out.

## Findings

| source | as written | input that shows it | evidently intended | confidence | as-written member | corrected member |
|---|---|---|---|---|---|---|
| arrow_convert_derive/src/derive_enum.rs:452-458 | a unit variant's row is read as that variant without checking the child's validity, and `push_null` stores a null as type id 0 | `Option<E>::None` pushed into an array of an enum whose first variant is a unit variant | the row reads back as `None` | not executed | Deserializer.UnionRowAsWritten, shown by RoundTrip.NullUnitVariantReadsAsVariant | Deserializer.UnionRow, with RoundTrip.UnionPushNullRow |
| arrow_convert/src/features/rust_decimal.rs:54 | the mantissa is multiplied by 10^(10 - scale) in i128 without a check | `Decimal::MAX` (mantissa 2^96 - 1, scale 0) | an error rather than an overflow panic | not executed | RustDecimal.DecimalToScaledI128, shown by RustDecimal.MaxDecimalOverflows | RustDecimal.TrySerialize, with RustDecimal.CheckedRoundTrip |
| arrow_convert/src/features/rust_decimal.rs:38-40 | a stored i128 of magnitude 2^96 or more is passed to `from_i128_with_scale`, which panics | 10^20 at scale 0, stored as 10^30 | only values that read back are written | not executed (relies on rust_decimal's 96-bit mantissa bound) | RustDecimal.SerializeAsWritten, shown by RustDecimal.LargeWholeDecimalUnreadable | RustDecimal.TrySerialize, with RustDecimal.CheckedRoundTrip |
