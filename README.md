# frclib-core: fixed-layout structures, the value union and the time source

This project models the core of `frclib-core`, a Rust library for FRC
robot code, and proves properties of that model. The core is the
fixed-layout structure serialisation subsystem and the code around it:

- **Field-type table** (`StructureFieldTypes`): each primitive schema name
  has a base size, a repeat count and a total size.
- **Descriptor registry** (`FrcStructDescDB`): `add`, `add_ref`,
  `contains` and `get` over the published descriptors, plus the static
  submission a derived struct makes.
- **Schema flattener** (`parse_schema`, `parse_schema_toplevel`): schema
  text is lexed into the `Token` grammar, split on `;` and flattened into
  `(dotted name, offset, field type)` triples. Nested declarations
  recurse into registered sub-structures.
- **Primitive codec** (`prims.rs`): the integers, `bool` and `char` are
  big-endian through the `bytes` crate, and `[T; N]` packs its elements in
  order.
- **Derive** (`#[derive(FrcStructure)]`): the accepted inputs, `SIZE`,
  `TYPE`, the schema text, field-by-field `pack`/`unpack` and the
  descriptor submission.
- **Integer units** (`unit_structure!` int64/uint64 arms, with the integer
  `From` impls and the unit-unit and primitive-unit operators): little-endian, and a short read decodes the
  zero buffer.
- **Value union** (`FrcValue`): type tags, emptiness, default values, and
  the struct / struct-array boundary.
- **Integer and boolean casts** between Rust values and `FrcValue`,
  including the vector forms.
- **`Instant` arithmetic**: checked, saturating and panicking forms.
- **Time-source state machine**: pausing, the freeze that `uptime` and
  `system_time` cause, and `set_time_implementation`.

Files and modules:

- `wrappers.dfy` (`Wrappers`): `Option` and `Result`.
- `bytes.dfy` (`Bytes`): big- and little-endian byte images of naturals,
  and two's complement.
- `field_types.dfy` (`FieldTypes`): `StructureFieldTypes`.
- `registry.dfy` (`Registry`): the descriptor registry. It is a class over
  a sequence of descriptors, newest first, the order `inventory` iterates
  in.
- `schema.dfy` (`Schema`): the lexer, the declaration splitter and the
  flattener. The flattener has two forms:
  - a function, which is the specification;
  - methods that keep the source's mutable `cursor` and its early exit,
    proved equal to the function.
- `schema_examples.dfy` (`SchemaExamples`): what the flattener produces
  for one and two declarations, for a registered sub-structure, and for
  two levels of nesting.
- `buffers.dfy` (`Buffers`): the output buffer (`BufMut`, `Vec<u8>`) and
  the input cursor (`Buf`, `io::Cursor`).
- `prims.rs` is modelled by `prims.dfy` (`Prims`).
- `structures.dfy` (`Structures`): the `FrcStructure` contract for every
  implementing type, as a `Layout` with its byte image. `Pack`/`Unpack` are
  the imperative codecs, proved against `Encode`/`Decode`.
- `derive.dfy` (`Derive`): the derive macro, and what the parser makes of
  the schema it publishes.
- `units.dfy` (`Units`): the int64/uint64 unit arms.
- `values.dfy` (`Values`): `src/value/mod.rs`.
- `casts.dfy` (`Casts`): the integer and boolean impls of
  `src/value/trait_impls.rs`.
- `instants.dfy` (`Instants`): `src/time/instant.rs`.
- `time_source.dfy` (`TimeSource`): `src/time/mod.rs`.

Byte order and schema text, as the code has them:

- The structure codec of `prims.rs` is big-endian: it goes through the
  `bytes` crate's `put_*`/`get_*`. Only the unit arms are little-endian.
- A nested-struct declaration contributes `"Type name"` through the default
  `format_field`. It does not inline the sub-structure's schema.
- The derived schema puts no separator between fields, and that is the
  text `Structures.Description` publishes (see Findings for what the parser
  makes of it, and for the corrected text).
- Two members are stated of the corrected `[T; 0]` read (see Findings):
  `Structures.Unpack` and `Structures.RoundTrip`. The as-written read is
  `Structures.UnpackArrayAsWritten`.

## Model

| member | source | states |
|---|---|---|
| FieldTypes.FromType | src/structure/mod.rs:155-171 | exactly the fourteen primitive names are recognised; the count is kept; the base size is the name's width; each name gives the kind of that name, with `float`/`float32` giving Float32 and `double`/`float64` giving Float64 |
| FieldTypes.BaseSize | src/structure/mod.rs:117-132 | `base_size()` of every field kind is 1, 2, 4 or 8 |
| FieldTypes.CanonicalNameRoundTrip | src/structure/mod.rs:155-171 | every field kind has a name that `from_type` reads back to that kind with its count |
| FieldTypes.SizeIsBaseTimesCount | src/structure/mod.rs:117-153 | of `size()` (`FieldTypes.Size`, `base_size() * count()`): base sizes are 1, 2, 4 or 8; the size is a whole multiple of the base size, `count` times it; size is zero exactly when the count is |
| Registry.ContainsIn | src/structure/mod.rs:53-58 | `contains(t)` holds iff some published descriptor has `type_str == t` |
| Registry.GetIn | src/structure/mod.rs:60-64 | `get(t)` returns a published descriptor named `t`, the newest-first first match; None only when none is named `t` |
| Registry.ContainsIffGet | src/structure/mod.rs:53-64 | `contains(t)` holds iff `get(t)` is Some |
| Registry.AddKeepsNamesUnique | src/structure/mod.rs:27-30 | adding keeps at most one descriptor per name and grows the registry by at most one |
| Registry.AddIdempotent | src/structure/mod.rs:27-37 | adding the same descriptor twice is the same as adding it once |
| Registry.AddThenGet | src/structure/mod.rs:27-64 | first writer wins: an already-present name is unaffected; a new name is then found; other names and existing entries are unaffected |
| Registry.DescDB.constructor | src/structure/mod.rs:19 | the registry starts empty |
| Registry.DescDB.Contains | src/structure/mod.rs:53-58 | true iff some published descriptor has the name |
| Registry.DescDB.Get | src/structure/mod.rs:60-64 | a result is a published descriptor with that name, and there is one iff `Contains` |
| Registry.DescDB.Add | src/structure/mod.rs:27-37 | the registry becomes `Added(old, d)`: unchanged when the name is present, `d` prepended otherwise; names stay unique |
| Registry.DescDB.AddRef | src/structure/mod.rs:41-50 | the same effect as `Add` for a descriptor passed by reference |
| Registry.DescDB.Submit | frclib-structure-macros/src/lib.rs:130 | the static submission prepends unconditionally, and `get` then finds the submitted descriptor |
| Schema.IdentRunIsMaximal | src/structure/mod.rs:213-214 | an identifier token is the longest run of identifier characters |
| Schema.DigitRunIsMaximal | src/structure/mod.rs:210-211 | an integer token is the longest run of digits |
| Schema.LexWord | src/structure/mod.rs:190-214 | a word followed by a non-identifier character lexes to one token (a type name for the fourteen primitive names, else an identifier), then the rest |
| Schema.LexSkip | src/structure/mod.rs:189 | whitespace produces no token |
| Schema.LexPunct | src/structure/mod.rs:216-229 | each punctuation character lexes to its own token |
| Schema.BlankLexesToNothing | src/structure/mod.rs:189 | text made only of skipped whitespace lexes to no tokens at all |
| Schema.KeptTokens | src/structure/mod.rs:256-261 | only identifiers, integers, type names and semicolons survive the filter |
| Schema.SplitDeclarations | src/structure/mod.rs:263 | the split yields at least one group and no group contains a semicolon |
| Schema.SplitThenJoin | src/structure/mod.rs:263 | joining the groups back with semicolons gives the token list back |
| Schema.HasLexErrorAppend | src/structure/mod.rs:247-251 | a concatenation has a lexing error iff one of its parts has |
| Schema.LexErrorYieldsNoFields | src/structure/mod.rs:245-251 | any lexing error makes `parse_schema` return the empty list, whatever the prefix and offset |
| Schema.ParseSchemaToplevel | src/structure/mod.rs:232-237 | with no prefix and offset 0, a schema that does not lex describes no fields |
| Schema.BlankSchemaHasNoFields | src/structure/mod.rs:232-263 | `parse_schema_toplevel` is `parse_schema` with prefix `""` and offset 0, and a blank schema gives the empty list |
| Schema.DeclarationCases | src/structure/mod.rs:264-298 | malformed groups and unknown first identifiers emit nothing and advance nothing; a primitive emits `(prefix+ident, cursor, type)` with the trailing count or 1 and advances by its size; a registered struct expands at the cursor under `ident.` and advances by its size |
| Schema.SchemaOffsetsAtLeast | src/structure/mod.rs:253-294 | every emitted offset is at least the `offset` argument |
| Schema.SchemaFuelMonotone | src/structure/mod.rs:274-283 | a result found with some recursion depth is the same with any larger depth |
| Schema.NestedExpansionIgnoresPrefix | src/structure/mod.rs:278 | a nested declaration's expansion does not depend on the outer prefix |
| Schema.SplitDeclarationThenSemicolon | src/structure/mod.rs:263 | a semicolon-free group followed by `;` is split off as one declaration |
| Schema.FindLexError | src/structure/mod.rs:247-251 | the early-exit scan finds a lexing error iff there is one |
| Schema.ParseSchemaWithCursor | src/structure/mod.rs:240-300 | the loop with its mutable cursor returns exactly the flattened fields of the specification |
| Schema.ParseDeclarationsWithCursor | src/structure/mod.rs:253-300 | the loop over declarations with the running cursor equals the specification's fold |
| Schema.DeclarationsStep | src/structure/mod.rs:263-300 | the flattened declarations from `i` on are declaration `i`'s entries followed by those of the rest, parsed from the cursor advanced by declaration `i` |
| Schema.DeclarationsLoopStep | src/structure/mod.rs:253-300 | one turn of the loop keeps its invariant: the entries so far followed by the rest parsed at the running cursor give the whole result |
| Schema.ParseDeclarationWithCursor | src/structure/mod.rs:264-298 | one declaration's entries and cursor advance equal the specification's |
| SchemaExamples.PrimitiveDeclaration | src/structure/mod.rs:285-294 | `type ident` emits one entry `(prefix+ident, cursor, type)` and advances by the type's size |
| SchemaExamples.StructDeclaration | src/structure/mod.rs:274-283 | `Sub ident` with `Sub` registered expands to the sub-schema parsed under `ident.` and advances by the descriptor's size |
| SchemaExamples.TwoPrimitiveFields | src/structure/mod.rs:240-300 | `t1 x;t2 y` gives `x` at the offset and `y` right after `x`'s size |
| SchemaExamples.RegisteredStructField | src/structure/mod.rs:274-283 | a schema that is one registered-struct declaration flattens to the nested fields |
| SchemaExamples.NestedPrefixDropsOuterName | src/structure/mod.rs:278 | two levels down, the entries carry only the innermost field's prefix |
| Buffers.ByteSink.Put | src/structure/prims.rs:44-47 | appending writes the bytes after the existing ones and leaves those untouched |
| Buffers.ByteCursor.Take | src/structure/prims.rs:49-52 | reading takes the next `n` bytes and advances by `n` |
| Buffers.ByteCursor.ReadExact | src/units/macros/components.rs:542-543 | a full read returns the next bytes; a short read leaves the buffer zero and moves to the end |
| Buffers.Zeros | src/units/macros/components.rs:542 | the zero-initialised buffer |
| Prims.Width | src/structure/prims.rs:39-197 | every primitive's SIZE is 1, 2, 4 or 8 |
| Prims.TypeStr | src/structure/prims.rs:9-184 | every primitive's TYPE is one of the fourteen schema names, never the `float`/`double` aliases, and the name's table width is the primitive's SIZE |
| Prims.IntEncodingBigEndian | src/structure/prims.rs:39-165 | integers pack most significant byte first: the first byte is the top byte of the two's-complement pattern and the last byte its low byte |
| Prims.Encode | src/structure/prims.rs:44-197 | a packed primitive takes exactly SIZE bytes |
| Prims.Decode | src/structure/prims.rs:49-197 | unpacking SIZE bytes gives a value of the type |
| Prims.RoundTrip | src/structure/prims.rs:39-165 | `unpack(pack(v)) == v` for every integer, bool, and char below 256 |
| Prims.EncodeOfDecode | src/structure/prims.rs:39-165 | for the integer types, every SIZE-byte string is the big-endian image of the value it unpacks to |
| Prims.BoolBytes | src/structure/prims.rs:172-180 | bool packs as 1 or 0, and any nonzero byte unpacks to true |
| Prims.CharLowByte | src/structure/prims.rs:188-196 | char packs only its low byte, so it round-trips exactly for code points below 256 |
| Prims.Pack | src/structure/prims.rs:44-192 | appends exactly the value's image and leaves the existing bytes alone |
| Prims.Unpack | src/structure/prims.rs:49-196 | consumes exactly SIZE bytes and returns the value they encode |
| Structures.Description | frclib-structure-macros/src/lib.rs:71-130 | the published descriptor is `(SCHEMA, TYPE, SIZE)` of the type, whose SCHEMA for a derived struct is the fields' `format_field` strings with nothing between them |
| Structures.ArraySize | src/structure/prims.rs:204 | `[T; N]::SIZE` (`Structures.Size` of an array) is `T::SIZE * N` |
| Structures.TypeName | src/structure/prims.rs:9-203 | a primitive's or unit's TYPE is one of the schema's primitive names, and that name's table width is its SIZE |
| Structures.FormatField | src/structure/mod.rs:87-89 | `format_field(name)` starts with `TYPE name`, and is exactly that except for arrays, whose override (`src/structure/prims.rs:228-230`) is `TYPE name[N]` with the element's `TYPE` and N's decimal numeral |
| Structures.NatToStringIsDecimal | src/structure/prims.rs:228-230 | the `N` written between the brackets is a numeral of digits only, without a leading zero, whose decimal value is N |
| Structures.SchemaTextAsWritten | frclib-structure-macros/src/lib.rs:71-82 | empty for primitives, units and arrays (`empty_schema_supplier!`); for a derived struct, one character per field shorter than the `;`-closed text, the separators it leaves out |
| Structures.FieldsSchemaTextAsWritten | frclib-structure-macros/src/lib.rs:71-82 | the concatenated `format_field` strings are one `;` per field shorter than the separated declarations |
| Structures.Encode | src/structure/mod.rs:81 | `pack` writes exactly SIZE bytes for every implementing type |
| Structures.EncodeArray | src/value/mod.rs:291-301 | `n` structures take `n * SIZE` bytes |
| Structures.Decode | src/structure/mod.rs:83 | unpacking SIZE bytes gives a value of the type |
| Structures.DecodeArray | src/value/mod.rs:305-331 | decoding `n` chunks gives `n` values of the type |
| Structures.RoundTrip | frclib-structure-macros/src/lib.rs:97-114 | corrected for `[T; 0]`: `unpack(pack(v)) == v` for every primitive, unit, array and derived struct whose chars fit in a byte |
| Structures.ArrayRoundTrip | src/value/mod.rs:291-331 | a sequence of structures packed back to back decodes to the same sequence |
| Structures.FieldsRoundTrip | frclib-structure-macros/src/lib.rs:97-114 | corrected for `[T; 0]`: the fields packed in declaration order unpack to the same fields |
| Structures.FieldBytes | frclib-structure-macros/src/lib.rs:97-104 | field `i` of a packed struct occupies exactly the bytes from the size of the fields before it to the size of the fields up to it, and they are that field's own image |
| Structures.Pack | src/structure/mod.rs:81 | appends exactly the value's image to the buffer |
| Structures.PackArray | src/structure/prims.rs:208-212 | `[T; N]` packs its elements in index order |
| Structures.PackFields | frclib-structure-macros/src/lib.rs:97-104 | the derived `pack` writes each field in declaration order on the same buffer |
| Structures.Unpack | src/structure/mod.rs:83 | corrected for `[T; 0]`: consumes exactly SIZE bytes and returns the value they encode |
| Structures.UnpackArray | src/structure/prims.rs:215-226 | corrected `[T; N]::unpack`: N sequential reads, element i from the i-th chunk, consuming exactly `N * T::SIZE` bytes |
| Structures.UnpackFields | frclib-structure-macros/src/lib.rs:107-114 | corrected for `[T; 0]`: the derived `unpack` reads each field in declaration order, consuming exactly SIZE bytes |
| Structures.AsWrittenReadLength | src/structure/prims.rs:215-226 | `[T; N]::unpack` as written reads `N * T::SIZE` bytes when N ≥ 1 and one `T::SIZE` when N = 0 |
| Structures.ZeroLengthArrayOverReads | src/structure/prims.rs:215-226 | for `[T; 0]` with `T::SIZE > 0`, the read as written is longer than the type's SIZE of 0 |
| Structures.UnpackArrayAsWritten | src/structure/prims.rs:215-226 | the loop as written, with its first-element flag, gives the right elements and consumes the as-written length |
| Derive.ImplFrcStruct | frclib-structure-macros/src/lib.rs:40-130 | only named-field structs are accepted, with the two abort messages otherwise; SIZE is the sum of the field sizes; TYPE is the identifier; the descriptor carries the fields' `format_field` strings concatenated with no separator |
| Derive.TypeNamesAreSchemaPrimitives | src/structure/prims.rs:39-197 | every primitive's TYPE is a schema type name whose base size is its SIZE |
| Derive.TypeNameIsSchemaPrimitive | src/structure/mod.rs:155-171 | a scalar field's TYPE is recognised by `from_type` with the scalar's SIZE |
| Derive.FieldTypeOf | src/structure/mod.rs:155-171 | the field type the parser assigns a scalar field has count 1 and the scalar's SIZE |
| Derive.Flatten | src/structure/mod.rs:285-294 | the flattened form of `n` scalar fields has `n` entries |
| Derive.FlattenOffsets | src/structure/mod.rs:285-294 | entry i is `(prefix + name_i, offset + size of the fields before i, field type)` |
| Derive.ArrayLengthLexes | src/structure/prims.rs:228-230 | the length an array field writes between its brackets lexes back to an integer token holding that length |
| Derive.ScalarFormatField | src/structure/mod.rs:87-89 | the default `format_field(name)` is `"TYPE name"` |
| Derive.SeparatedSchemaLexes | src/structure/mod.rs:245-246 | the `;`-closed declarations of scalar fields lex to type name, identifier and semicolon per field |
| Derive.SeparatedSchemaSplits | src/structure/mod.rs:247-263 | those tokens have no lexing error and split into one declaration per field |
| Derive.SeparatedDeclarationsParse | src/structure/mod.rs:264-300 | those declarations flatten to one entry per field at consecutive offsets |
| Derive.DerivedSchemaParses | frclib-structure-macros/src/lib.rs:71-82 | corrected: the schema of a struct of scalar fields, with each declaration closed by `;`, flattens to one entry per field at the field's offset |
| Derive.ConcatenatedSchemaMisparses | frclib-structure-macros/src/lib.rs:72 | as written: for two scalar fields, the first name and the second type run together into one identifier, so the schema flattens to a single entry of the first field's type under that joined name, while the struct has two fields |
| Derive.BoolThenInt32Misparses | frclib-structure-macros/src/lib.rs:72 | as written: `struct Pair { a: bool, b: i32 }` publishes `bool aint32 b`, which flattens to one `bool` named `aint32`; `b` is lost |
| Units.FromNarrow | src/units/macros/components.rs:85-131 | `From<i64/i32/i16/i8/u32/u16/u8>` keeps the number exactly |
| Units.FromU64 | src/units/macros/components.rs:109-113 | `From<u64>` is the wrapping `as i64` cast: the same number below 2^63, and the number minus 2^64 above |
| Units.IntoI64 | src/units/macros/components.rs:139-143 | `From<Unit> for i64` returns the inner value |
| Units.NarrowConversionsExact | src/units/macros/components.rs:91-131 | every narrower signed or unsigned integer fits and round-trips through the unit |
| Units.FromU64KeepsBits | src/units/macros/components.rs:109-113 | the `u64` cast keeps the 64-bit pattern |
| Units.Add | src/units/macros/components.rs:201-211 | unit + unit is the sum wrapped to 64 bits |
| Units.Sub | src/units/macros/components.rs:243-253 | the difference wrapped to 64 bits |
| Units.Mul | src/units/macros/components.rs:285-295 | the product wrapped to 64 bits |
| Units.Div | src/units/macros/components.rs:327-337 | the quotient truncated toward zero |
| Units.Rem | src/units/macros/components.rs:369-376 | the remainder that goes with the truncated quotient |
| Units.TruncDivRem | src/units/macros/components.rs:327-376 | truncated division: `a == b*q + r`, the remainder is smaller than the divisor in magnitude, and `r` has the sign of `a` |
| Units.PrimAdd | src/units/macros/components.rs:225-232 | `prim + unit` is the unit sum of the two inner values |
| Units.PrimSub | src/units/macros/components.rs:267-283 | `prim - unit` is the unit difference with the primitive on the left |
| Units.PrimSubAntiCommutes | src/units/macros/components.rs:243-283 | `prim - unit` and `unit - prim` add up to zero under wrapping |
| Units.PrimMul | src/units/macros/components.rs:309-325 | `prim * unit` is the same product as `unit * prim` |
| Units.PrimDiv | src/units/macros/components.rs:351-367 | `prim / unit` is the quotient of the primitive by the inner value, truncated toward zero: what `/` on two units gives, leaving a remainder smaller than the divisor with the primitive's sign |
| Units.OperatorsExact | src/units/macros/components.rs:201-295 | when the exact result fits in i64, `+ - *` give it exactly |
| Units.PrimPlusUnitExample | src/units/macros/components.rs:225-232 | `1 + Unit(-1) == Unit(0)` |
| Units.AddAssign | src/units/macros/components.rs:385-393 | `+=` gives the value `+` gives |
| Units.SubAssign | src/units/macros/components.rs:395-403 | `-=` gives the value `-` gives |
| Units.MulAssign | src/units/macros/components.rs:405-413 | `*=` gives the value `*` gives |
| Units.DivAssign | src/units/macros/components.rs:415-423 | `/=` gives the value `/` gives |
| Units.RemAssign | src/units/macros/components.rs:378-383 | `%=` gives the value `%` gives |
| Units.UFromNarrow | src/units/macros/components.rs:152-174 | `From<u64/u32/u16/u8>` for an unsigned unit keeps the number exactly |
| Units.IntoU64 | src/units/macros/components.rs:182-186 | `From<Unit> for u64` returns the inner value |
| Units.UNarrowConversionsExact | src/units/macros/components.rs:152-186 | every `u64`, `u32`, `u16` and `u8` fits and round-trips through an unsigned unit |
| Units.UAdd | src/units/macros/components.rs:201-211 | unsigned unit sum wrapped to 64 bits |
| Units.USub | src/units/macros/components.rs:243-253 | unsigned difference wrapped to 64 bits, `2^64 + a - b` when `a < b` |
| Units.UMul | src/units/macros/components.rs:285-295 | unsigned product wrapped to 64 bits |
| Units.UDiv | src/units/macros/components.rs:327-337 | the floor quotient |
| Units.URem | src/units/macros/components.rs:369-376 | the remainder below the divisor that completes the quotient |
| Units.UPrimAdd | src/units/macros/components.rs:225-241 | unsigned `prim + unit` is the same sum as `unit + prim` |
| Units.UPrimSub | src/units/macros/components.rs:267-283 | unsigned `prim - unit` is the wrapped difference with the primitive on the left |
| Units.UPrimSubAntiCommutes | src/units/macros/components.rs:243-283 | unsigned `prim - unit` and `unit - prim` add up to zero modulo 2^64 |
| Units.UPrimMul | src/units/macros/components.rs:309-325 | unsigned `prim * unit` is the same product as `unit * prim` |
| Units.UPrimDiv | src/units/macros/components.rs:351-367 | unsigned `prim / unit` is the floor quotient of the primitive by the inner value |
| Units.EncodeInt | src/units/macros/components.rs:537-539 | an int64 unit packs to 8 bytes |
| Units.DecodeInt | src/units/macros/components.rs:541-545 | 8 bytes unpack to an int64 value whose image is those same 8 bytes |
| Units.IntRoundTrip | src/units/macros/components.rs:531-546 | int64 unit `unpack(pack(x)) == x` |
| Units.UIntRoundTrip | src/units/macros/components.rs:548-563 | uint64 unit `unpack(pack(x)) == x` |
| Units.IntEncodingLittleEndian | src/units/macros/components.rs:538 | the first byte written is the least significant one |
| Units.ZeroBufferIsZero | src/units/macros/components.rs:542-544 | the zero buffer a short read leaves decodes to 0 for both units |
| Units.PackInt | src/units/macros/components.rs:537-539 | appends the 8 little-endian bytes |
| Units.UnpackInt | src/units/macros/components.rs:541-545 | a full read decodes the next 8 bytes; a short read gives 0 and ends the cursor |
| Units.PackUInt | src/units/macros/components.rs:554-556 | appends the 8 little-endian bytes |
| Units.UnpackUInt | src/units/macros/components.rs:558-562 | a full read decodes the next 8 bytes; a short read gives 0 |
| Units.IntUnitType | src/units/macros/components.rs:533 | the int64 unit's TYPE is read by `from_type` as an 8-byte signed field |
| Units.UIntUnitType | src/units/macros/components.rs:550 | the uint64 unit's TYPE is read by `from_type` as an 8-byte unsigned field |
| Units.EncodeUInt | src/units/macros/components.rs:554-556 | a uint64 unit packs to 8 bytes, least significant first |
| Units.DecodeUInt | src/units/macros/components.rs:558-562 | 8 bytes unpack to a u64 whose image is those same 8 bytes |
| Values.Empty | src/value/mod.rs:190-192 | the empty value has type Void, is empty and is not an array |
| Values.GetType | src/value/mod.rs:170-187 | the tag is an array tag exactly for the six collection variants, and Void, Raw and Struct exactly for those variants |
| Values.IsEmpty | src/value/mod.rs:195-208 | Void is empty; a sequence-holding value is empty iff it holds nothing; scalars never are |
| Values.IsArray | src/value/mod.rs:211-221 | true exactly for the collection tags; Raw is not an array |
| Values.DefaultValue | src/value/mod.rs:234-249 | None exactly for Void, Struct and StructArray |
| Values.DefaultValueHasType | src/value/mod.rs:234-249 | a default value has the requested tag; it is empty iff it holds a sequence, and an array iff the tag is a collection tag |
| Values.DefaultValueOfItsType | src/value/mod.rs:170-249 | the default value's own tag asks for the same default again |
| Values.StructValue | src/value/mod.rs:254-262 | `from_struct` stores the type's descriptor, a count of one and SIZE packed bytes |
| Values.FromStruct | src/value/mod.rs:254-262 | packs into a fresh buffer and builds that value |
| Values.TryIntoStruct | src/value/mod.rs:266-288 | Ok iff a Struct with exactly SIZE bytes; a wrong length is Deserialization and another variant is Type |
| Values.StructRoundTrip | src/value/mod.rs:254-288 | corrected for `[T; 0]`: `try_into_struct(from_struct(x)) == Ok(x)` |
| Values.TryIntoStructIgnoresDescriptor | src/value/mod.rs:266-288 | the stored descriptor and count do not affect the result |
| Values.StructArrayValue | src/value/mod.rs:291-301 | stores the descriptor, the number of structures and `n * SIZE` bytes |
| Values.FromStructArray | src/value/mod.rs:291-301 | the packing loop builds exactly that value |
| Values.IntoStructArray | src/value/mod.rs:305-331 | Ok iff a StructArray whose length is a multiple of SIZE, giving `len / SIZE` values; otherwise Deserialization, or Type for another variant |
| Values.TryIntoStructArray | src/value/mod.rs:305-331 | corrected for `[T; 0]`: the cursor loop returns exactly that result |
| Values.StructArrayRoundTrip | src/value/mod.rs:291-331 | corrected for `[T; 0]`: `try_into_struct_array(from_struct_array(xs)) == Ok(xs)` |
| Values.TimestampOrder | src/value/mod.rs:358-375 | after and before are strict and converse; equal timestamps are neither; the value forms agree with the timestamp forms |
| Values.AfterTransitive | src/value/mod.rs:358-375 | being later is transitive |
| Values.IsAfterTimestamp | src/value/mod.rs:358-360 | being later than `ts` means a different timestamp, and `ts` below the largest u64 |
| Values.IsAfterOther | src/value/mod.rs:363-365 | being later than `other` is being later than its timestamp |
| Values.IsBeforeTimestamp | src/value/mod.rs:368-370 | being earlier than `ts` means `ts` above 0 and not being later than `ts` |
| Values.IsBeforeOther | src/value/mod.rs:373-375 | `a` is earlier than `b` exactly when `b` is later than `a` |
| Casts.WideningFits | src/value/trait_impls.rs:21-61 | every integer type other than u64 fits in i64 |
| Casts.FromInt | src/value/trait_impls.rs:16-61 | the widening `From` impls give Int with the same number |
| Casts.TryFromU64 | src/value/trait_impls.rs:36-46 | Int iff the value is at most `i64::MAX`, else `InvalidCastFrom(u64, Int, Overflow)` |
| Casts.FromBool | src/value/trait_impls.rs:62-66 | a bool converts to a value that converts back to it |
| Casts.TryIntoInt | src/value/trait_impls.rs:286-498 | Ok iff Int and in the target's range, with the same number; below the minimum is Underflow, above the maximum Overflow, a non-Int Type |
| Casts.TryIntoBool | src/value/trait_impls.rs:500-512 | Ok exactly for Boolean, with its value; Type otherwise |
| Casts.IntRoundTrip | src/value/trait_impls.rs:300-328 | a narrower integer comes back unchanged |
| Casts.U64RoundTrip | src/value/trait_impls.rs:390-408 | a u64 that converts in comes back unchanged |
| Casts.WidestTargets | src/value/trait_impls.rs:286-408 | `→ i64` succeeds exactly for Int; `→ u64` fails exactly for a non-Int or a negative Int, with Underflow |
| Casts.FromIntVec | src/value/trait_impls.rs:92-178 | the widening vector impls (every integer type but `u64` and `u8`) give an IntArray of the same numbers in order |
| Casts.FromByteSlice | src/value/trait_impls.rs:225-229 | a slice of `u8` becomes a Raw value holding the same bytes, which is not an array |
| Casts.ByteSliceDoesNotComeBack | src/value/trait_impls.rs:812-844 | converting that Raw value to `Vec<u8>` is always the Type error naming Raw |
| Casts.TryFromU64Vec | src/value/trait_impls.rs:132-145 | IntArray of the same numbers iff all fit in i64, else the u64 Overflow error |
| Casts.FirstOutOfRange | src/value/trait_impls.rs:613-631 | finds the first element that does not fit, with all before it fitting; none iff all fit |
| Casts.IntsInto | src/value/trait_impls.rs:594-844 | Ok exactly for an IntArray whose elements all fit, returning them unchanged; any other variant is a Type error, a misfit an Overflow or Underflow, both naming the value's tag and the vector type |
| Casts.FirstOutOfRangeAt | src/value/trait_impls.rs:613-631 | the element the scan stops at is the first misfit |
| Casts.TryIntoIntVec | src/value/trait_impls.rs:594-844 | the loop with early exit returns the elements or the first misfit's error |
| Casts.IntsIntoMeaning | src/value/trait_impls.rs:608-844 | Ok iff every element fits, returning them all; on failure some first misfit gives Underflow iff it is below the minimum |
| Casts.IntVecRoundTrip | src/value/trait_impls.rs:102-131 | a vector of a narrower type other than `u8` comes back unchanged |
| Casts.U64VecRoundTrip | src/value/trait_impls.rs:710-742 | a u64 vector that converts in comes back unchanged |
| Instants.FromMicros | src/time/mod.rs:32 | the duration of `us` microseconds |
| Instants.CheckedDurationSince | src/time/instant.rs:45-51 | None iff `earlier` is later; otherwise `earlier + r == self` |
| Instants.DurationSince | src/time/instant.rs:18-20 | the difference when `earlier` is not later, zero otherwise |
| Instants.SaturatingDurationSince | src/time/instant.rs:56-58 | the difference when `earlier` is not later, zero otherwise |
| Instants.Difference | src/time/instant.rs:83-89 | `Instant - Instant` is the saturating difference, zero iff `self` is not later |
| Instants.CheckedAdd | src/time/instant.rs:31-33 | None iff the sum exceeds the largest Duration, else the sum |
| Instants.CheckedSub | src/time/instant.rs:38-40 | None iff `d` exceeds the time since the start, else the difference |
| Instants.Plus | src/time/instant.rs:61-67 | `+` agrees with `checked_add` where it does not panic |
| Instants.Minus | src/time/instant.rs:75-81 | `-` agrees with `checked_sub` where it does not panic |
| Instants.AddAssign | src/time/instant.rs:69-73 | `+=` gives what `+` gives |
| Instants.SubAssign | src/time/instant.rs:91-95 | `-=` gives what `-` gives |
| Instants.SinceFormsAgree | src/time/instant.rs:18-58 | `duration_since` and `saturating_duration_since` agree, and equal the checked form when it exists |
| Instants.AddSubRoundTrip | src/time/instant.rs:31-89 | `(i + d) - d == i`, and `(i + d)` is `d` after `i` |
| Instants.SinceOneWay | src/time/instant.rs:45-51 | of two different instants exactly one is a checked duration after the other |
| TimeSource.PauseOutcome | src/time/mod.rs:53-66 | Ok iff the flag changes and pausing is implemented; AlreadyPaused / NotPaused when the state is already `p`; PauseNotImplemented otherwise |
| TimeSource.SecondRequestRefused | src/time/mod.rs:54-59 | asking twice for the same state is refused the second time, never as not implemented |
| TimeSource.TimeState.constructor | src/time/mod.rs:17-24 | the initial statics: not paused, pausing implemented, not frozen, the default source |
| TimeSource.TimeState.IsPaused | src/time/mod.rs:70-72 | `is_paused()` reads the pause flag, the state most recently requested, whether or not the request succeeded |
| TimeSource.TimeState.PauseImplemented | src/time/mod.rs:76-78 | `pause_implemented()` holds exactly when the installed pause hook is not the no-op one |
| TimeSource.TimeState.TryPause | src/time/mod.rs:53-66 | the flag reads `p` afterwards even on failure; the result is `PauseOutcome`; the hook is called only on Ok; nothing else changes |
| TimeSource.TimeState.Uptime | src/time/mod.rs:30-33 | freezes the source and returns the reading as a duration; nothing else changes |
| TimeSource.TimeState.SystemTime | src/time/mod.rs:83-90 | freezes the source; the time iff the validity check passes |
| TimeSource.TimeState.SetTimeImplementation | src/time/mod.rs:115-133 | fails iff already frozen, changing nothing else; always frozen afterwards; on success installs the source, and `pause_implemented()` is whether a pause hook was supplied |

## Left out

- Floating point: the f32/f64 primitives are 4- and 8-byte opaque bit patterns in `Prims`, and the value union keeps float payloads as bit patterns. The f64 unit arm, the `f32`/`f64`/`Vec<f32>`/`Vec<f64>` casts and every float operator are not modelled.
- The string, `Box<str>`, `Vec<bool>` and `Vec<String>` casts, `From<FrcTimestampedValue>`, and the JSON and MessagePack conversions (`src/value/trait_impls.rs:67-90,514-592,846-1132`) are not modelled; they are thin mappings onto code outside this model.
- `Display` and `Hash` impls, `FrcEntry`, the unit `Neg` impl, and the serde and `num` trait impls of the units are not modelled.
- `From<&Unit>` for both integer unit arms copies the unit. Units are Dafny values, so a reference to a unit and the unit itself are the same thing, and the copy needs no member of its own.
- The `logos` engine is modelled by its token classes: maximal munch, type-name priority over identifiers, and `name=value` enum variants with an `i8` value. It is not modelled as a regular-expression engine.
- Schema.ParseSchema: recursion through the registry can loop on a self-referencing schema, so the flattener takes a `fuel` depth. `None` means the depth ran out, which the source does not have.
- Derive.DerivedSchemaParses: proved for structs whose fields are primitives, units or scalars. Nested structs and arrays in a derived schema are not covered by that lemma.
- Values.IntoStructArray: excludes a structure of SIZE 0 on the struct-array path, where the source divides by zero and panics. Its elements are decoded by the corrected `[T; 0]` read, as for `Structures.Unpack` below.
- Structures.Unpack: reads a `[T; 0]` field as 0 bytes, the corrected behaviour. The source reads `T::SIZE` bytes there, so a derived struct with a `[T; 0]` field before other fields reads past its SIZE, and panics on a buffer of exactly SIZE bytes. `Structures.UnpackArrayAsWritten` models that read on its own.
- Structures.Unpack: requires at least SIZE bytes. The source panics on a shorter buffer, except in the unit arms, which read a short buffer as 0 (that case is `Units.UnpackInt`/`Units.UnpackUInt` on their own). The callers `try_into_struct` and `try_into_struct_array` check the length first (`src/value/mod.rs:271,310`).
- Structures.RoundTrip: holds of the corrected `[T; 0]` read; with the source's read, a layout holding `[T; 0]` before other fields does not round-trip.
- Values.TryIntoStruct: decodes with the corrected `[T; 0]` read, as `Structures.Unpack` does.
- Prims.Unpack: requires SIZE bytes to remain. The `bytes` crate's `get_*` panics when fewer remain; the visible callers check the length first (`src/value/mod.rs:271,310`).
- Buffers.ByteCursor.Take: requires `n` bytes to remain, for the same reason: the `bytes` crate panics on an underrun.
- The derived `Into<FrcValue>` (`frclib-structure-macros/src/lib.rs:132-141`) builds `FrcValue::Struct` with two arguments, which does not match the variant's single field. It is modelled by `Values.FromStruct`, which builds the value as `from_struct` does.
- The registry's `inventory` linked list, `Box::leak` and `unsafe` publication are not modelled; it is a sequence of descriptors, newest first.
- Clocks and the hooks are foreign functions. `Uptime` takes the uptime reading as a parameter, and `SystemTime` takes the validity result and the current time. A pause-hook call is recorded in `pauseCalls` rather than performed. `Instant::now`, `elapsed` and `src/time/default.rs` are not modelled.
- TimeSource.TimeState.SetTimeImplementation: the source panics when already frozen; the model returns `Err(AlreadyFrozen(old, new))` after the same swap of the frozen flag.
- The atomics, the `static mut` globals and their lack of synchronisation are modelled as one object with sequential methods, so interleavings are not captured.
- Instants: a `Duration` is its total number of nanoseconds, a one-to-one image of `(u64 seconds, nanoseconds below 10^9)`.
- Instants.Plus, Instants.Minus, Instants.AddAssign, Instants.SubAssign: where `Duration`'s `+`/`-` panics (a sum past the largest `Duration`, a difference below zero), these require the case away instead of modelling the panic; `CheckedAdd`/`CheckedSub` model those cases as `None`.
- Units: `+`, `-` and `*` wrap as in release builds, where debug builds panic on overflow. `/` and `%` require a nonzero divisor and not `i64::MIN / -1`, where the source panics in every build.

## Findings

| source | as written | input that shows it | evidently intended | confidence | as-written member | corrected member |
|---|---|---|---|---|---|---|
| frclib-structure-macros/src/lib.rs:72 | the derived schema is the fields' `format_field` strings with nothing between them | `struct Pair { a: bool, b: i32 }` publishes `bool aint32 b`, which lexes as one three-token declaration and flattens to a single `bool` named `aint32`; `b` is lost | each field's declaration closed by `;`, so `parse_schema` sees one declaration per field | not executed | Derive.BoolThenInt32Misparses | Derive.DerivedSchemaParses |
| src/structure/prims.rs:215-226 | `[T; N]::unpack` builds `[T::unpack(buffer); N]` before the loop, which evaluates one `T::unpack` even when N = 0 | `[u8; 0]` declares SIZE 0 but its `unpack` consumes one byte | `[T; 0]::unpack` reads nothing, so exactly SIZE bytes are consumed | not executed | Structures.ZeroLengthArrayOverReads | Structures.UnpackArray |
