/**
  The `FrcStructure` contract (`src/structure/mod.rs`) for every type that
  implements it: the primitives of `src/structure/prims.rs`, the integer
  units of `src/units/macros/components.rs`, fixed-size arrays `[T; N]`,
  and structs whose impl is derived by `frclib-structure-macros`.

  A type is described by its `Layout`; `Size`, `TypeName`,
  `SchemaTextAsWritten` and `FormatField` are its associated constants and
  default method, and `Encode`/`Decode` are the byte images `pack` writes
  and `unpack` reads.
  `Pack` and `Unpack` are the imperative codecs, proved against them.
*/
module Structures {
  import opened Bytes
  import opened Buffers
  import opened Prims
  import Units
  import Registry
  import FieldTypes
  import Schema

  datatype Layout =
    | Primitive(p: Prim)
    | IntUnit
    | UIntUnit
    | Array(elem: Layout, n: nat)
    | Struct(name: string, fields: seq<FieldDecl>)

  /** A named field of a derived struct, in declaration order. */
  datatype FieldDecl = FieldDecl(name: string, layout: Layout)

  datatype Value =
    | ScalarV(x: Scalar)
    | IntUnitV(iu: Units.IntUnit)
    | UIntUnitV(uu: Units.UIntUnit)
    | ArrayV(elems: seq<Value>)
    | StructV(vals: seq<Value>)

  // ---------------------------------------------------------------------
  // Associated constants

  /** `SIZE`: `T::SIZE * N` for arrays and `0 + f1::SIZE + f2::SIZE + ...` for derived structs. */
  function Size(l: Layout): nat
  {
    match l
    case Primitive(p) => Width(p)
    case IntUnit => Units.UnitSize
    case UIntUnit => Units.UnitSize
    case Array(elem, n) => Times(Size(elem), n)
    case Struct(_, fields) => FieldsSize(fields)
  }

  /** `[T; N]::SIZE` is `T::SIZE * N`. */
  lemma ArraySize(elem: Layout, n: nat)
    ensures Size(Array(elem, n)) == Size(elem) * n
  {
    TimesIsProduct(Size(elem), n);
  }

  /** `k * n`, written as `n` repeated additions of `k`: the room `n` items of `k` bytes take. */
  function Times(k: nat, n: nat): nat
  {
    if n == 0 then 0 else k + Times(k, n - 1)
  }

  lemma {:induction false} TimesIsProduct(k: nat, n: nat)
    ensures Times(k, n) == k * n
  {
    if n > 0 {
      TimesIsProduct(k, n - 1);
      assert k * n == k + k * (n - 1);
    }
  }

  /** The derived size sum, accumulated left to right over the fields. */
  function FieldsSize(fields: seq<FieldDecl>): nat
  {
    if fields == [] then 0 else FieldsSize(fields[..|fields| - 1]) + Size(fields[|fields| - 1].layout)
  }

  /** `TYPE`: an array has its element's type name, and a derived struct its own identifier. */
  function TypeName(l: Layout): (name: string)
    ensures l.Primitive? || l.IntUnit? || l.UIntUnit? ==>
              FieldTypes.IsPrimitiveName(name) && FieldTypes.NamedWidth(name) == Size(l)
  {
    match l
    case Primitive(p) => TypeStr(p)
    case IntUnit => Units.IntUnitType()
    case UIntUnit => Units.UIntUnitType()
    case Array(elem, _) => TypeName(elem)
    case Struct(name, _) => name
  }

  /** Decimal digits of `n`, as `format!("{}", n)` writes a `usize`. */
  function NatToString(n: nat): (s: string)
    ensures |s| >= 1
  {
    if n < 10 then [DigitChar(n)] else NatToString(n / 10) + [DigitChar(n % 10)]
  }

  function DigitChar(d: nat): char
    requires d < 10
  {
    ('0' as int + d) as char
  }

  /**
    `NatToString(n)` is the decimal numeral of `n`: digits only, without a
    leading zero, denoting `n` as the schema lexer reads numbers.
  */
  lemma {:induction false} NatToStringIsDecimal(n: nat)
    ensures forall i :: 0 <= i < |NatToString(n)| ==> Schema.IsDigit(NatToString(n)[i])
    ensures Schema.DecimalValue(NatToString(n)) == n
    ensures NatToString(n)[0] != '0' || n == 0
  {
    if n >= 10 {
      NatToStringIsDecimal(n / 10);
      var s := NatToString(n);
      assert s[..|s| - 1] == NatToString(n / 10);
      assert s[0] == NatToString(n / 10)[0];
    }
  }

  /**
    `format_field(name)`: the default `"TYPE name"`, overridden by arrays
    as `"TYPE name[N]"`.
  */
  function FormatField(l: Layout, name: string): (text: string)
    ensures |text| >= |TypeName(l)| + 1 + |name|
    ensures text[..|TypeName(l)| + 1 + |name|] == TypeName(l) + " " + name
    ensures !l.Array? ==> |text| == |TypeName(l)| + 1 + |name|
    ensures l.Array? ==> |text| >= |TypeName(l)| + |name| + 4 && text[|TypeName(l)| + 1 + |name|] == '['
                         && text[|text| - 1] == ']'
    ensures l.Array? ==> text == TypeName(l.elem) + " " + name + "[" + NatToString(l.n) + "]"
  {
    match l
    case Array(elem, n) => TypeName(elem) + " " + name + "[" + NatToString(n) + "]"
    case _ => TypeName(l) + " " + name
  }

  /**
    The schema text a derived struct should publish so that `parse_schema`
    can tell its fields apart: empty for primitives, units and arrays; for
    a derived struct, its fields' declarations, each closed by a `;`. The
    derive as written leaves the separator out (`SchemaTextAsWritten`,
    which is what `Description` publishes).
  */
  function SchemaText(l: Layout): string
  {
    match l
    case Struct(_, fields) => FieldsSchemaText(fields)
    case _ => ""
  }

  function FieldsSchemaText(fields: seq<FieldDecl>): string
  {
    if fields == [] then ""
    else FormatField(fields[0].layout, fields[0].name) + ";" + FieldsSchemaText(fields[1..])
  }

  /**
    `SCHEMA_SUPPLIER()` as written: empty for primitives, units and arrays;
    for a derived struct, the fields' `format_field` strings one after
    another, with nothing between them.
  */
  function SchemaTextAsWritten(l: Layout): (text: string)
    ensures !l.Struct? ==> text == ""
    ensures l.Struct? ==> |text| + |l.fields| == |SchemaText(l)|
  {
    match l
    case Struct(_, fields) => FieldsSchemaTextAsWritten(fields)
    case _ => ""
  }

  /** One `;` fewer per field than the separated text. */
  function FieldsSchemaTextAsWritten(fields: seq<FieldDecl>): (text: string)
    ensures |text| + |fields| == |FieldsSchemaText(fields)|
  {
    if fields == [] then ""
    else FormatField(fields[0].layout, fields[0].name) + FieldsSchemaTextAsWritten(fields[1..])
  }

  /** `DESCRIPTION`: the descriptor built from the three associated constants, with the schema as the derive writes it. */
  function Description(l: Layout): (d: Registry.StructDesc)
    ensures d.typeStr == TypeName(l) && d.size == Size(l) && d.schema == SchemaTextAsWritten(l)
  {
    Registry.StructDesc(SchemaTextAsWritten(l), TypeName(l), Size(l))
  }

  // ---------------------------------------------------------------------
  // Values and their byte images

  /** `v` is a value of the type laid out by `l`. */
  predicate WellTyped(l: Layout, v: Value)
  {
    match l
    case Primitive(p) => v.ScalarV? && HasType(p, v.x)
    case IntUnit => v.IntUnitV? && Units.ValidInt(v.iu)
    case UIntUnit => v.UIntUnitV? && Units.ValidUInt(v.uu)
    case Array(elem, n) =>
      v.ArrayV? && |v.elems| == n && forall i {:trigger WellTyped(elem, v.elems[i])} :: 0 <= i < n ==> WellTyped(elem, v.elems[i])
    case Struct(_, fields) =>
      v.StructV? && |v.vals| == |fields| &&
      forall i {:trigger WellTyped(fields[i].layout, v.vals[i])} :: 0 <= i < |fields| ==> WellTyped(fields[i].layout, v.vals[i])
  }

  /** No `char` anywhere in `l` is given a code point it cannot carry in one byte. */
  predicate CharsFit(l: Layout, v: Value)
  {
    match l
    case Primitive(p) => p == Char && v.ScalarV? && v.x.Character? ==> (v.x.c as int) < 256
    case Array(elem, n) =>
      v.ArrayV? ==> forall i :: 0 <= i < |v.elems| ==> CharsFit(elem, v.elems[i])
    case Struct(_, fields) =>
      v.StructV? ==> forall i :: 0 <= i < |v.vals| && i < |fields| ==> CharsFit(fields[i].layout, v.vals[i])
    case _ => true
  }

  /** The bytes `pack` appends: elements and fields one after another, in order. */
  function Encode(l: Layout, v: Value): (r: seq<byte>)
    requires WellTyped(l, v)
    ensures |r| == Size(l)
    decreases l, 0
  {
    match l
    case Primitive(p) => Prims.Encode(p, v.x)
    case IntUnit => Units.EncodeInt(v.iu)
    case UIntUnit => Units.EncodeUInt(v.uu)
    case Array(elem, n) => EncodeArray(elem, v.elems)
    case Struct(_, fields) => EncodeFields(fields, v.vals)
  }

  function EncodeArray(elem: Layout, vs: seq<Value>): (r: seq<byte>)
    requires forall i {:trigger WellTyped(elem, vs[i])} :: 0 <= i < |vs| ==> WellTyped(elem, vs[i])
    ensures |r| == Times(Size(elem), |vs|)
    decreases elem, 1, |vs|
  {
    if vs == [] then []
    else EncodeArray(elem, vs[..|vs| - 1]) + Encode(elem, vs[|vs| - 1])
  }

  function EncodeFields(fields: seq<FieldDecl>, vs: seq<Value>): (r: seq<byte>)
    requires |vs| == |fields|
    requires forall i {:trigger WellTyped(fields[i].layout, vs[i])} :: 0 <= i < |fields| ==> WellTyped(fields[i].layout, vs[i])
    ensures |r| == FieldsSize(fields)
    decreases fields
  {
    if fields == [] then []
    else EncodeFields(fields[..|fields| - 1], vs[..|vs| - 1])
         + Encode(fields[|fields| - 1].layout, vs[|vs| - 1])
  }

  /** The value `unpack` reads from exactly `Size(l)` bytes. */
  function Decode(l: Layout, s: seq<byte>): (v: Value)
    requires |s| == Size(l)
    ensures WellTyped(l, v)
    decreases l, 0
  {
    match l
    case Primitive(p) => ScalarV(Prims.Decode(p, s))
    case IntUnit => IntUnitV(Units.DecodeInt(s))
    case UIntUnit => UIntUnitV(Units.DecodeUInt(s))
    case Array(elem, n) => ArrayV(DecodeArray(elem, n, s))
    case Struct(_, fields) => StructV(DecodeFields(fields, s))
  }

  /** Element `i` comes from the `i`-th chunk of `Size(elem)` bytes. */
  function DecodeArray(elem: Layout, n: nat, s: seq<byte>): (vs: seq<Value>)
    requires |s| == Times(Size(elem), n)
    ensures |vs| == n
    ensures forall i {:trigger WellTyped(elem, vs[i])} :: 0 <= i < n ==> WellTyped(elem, vs[i])
    decreases elem, 1, n
  {
    if n == 0 then []
    else
      var front := Times(Size(elem), n - 1);
      DecodeArray(elem, n - 1, s[..front]) + [Decode(elem, s[front..])]
  }

  function DecodeFields(fields: seq<FieldDecl>, s: seq<byte>): (vs: seq<Value>)
    requires |s| == FieldsSize(fields)
    ensures |vs| == |fields|
    ensures forall i {:trigger WellTyped(fields[i].layout, vs[i])} :: 0 <= i < |fields| ==> WellTyped(fields[i].layout, vs[i])
    decreases fields
  {
    if fields == [] then []
    else
      var front := FieldsSize(fields[..|fields| - 1]);
      DecodeFields(fields[..|fields| - 1], s[..front]) + [Decode(fields[|fields| - 1].layout, s[front..])]
  }

  // ---------------------------------------------------------------------
  // Round trip

  /** `unpack(pack(v)) == v` for every value whose `char`s fit in a byte. */
  lemma {:induction false} RoundTrip(l: Layout, v: Value)
    requires WellTyped(l, v) && CharsFit(l, v)
    ensures Decode(l, Encode(l, v)) == v
    decreases l, 0
  {
    match l
    case Primitive(p) => Prims.RoundTrip(p, v.x);
    case IntUnit => Units.IntRoundTrip(v.iu);
    case UIntUnit => Units.UIntRoundTrip(v.uu);
    case Array(elem, n) => ArrayRoundTrip(elem, v.elems);
    case Struct(_, fields) => FieldsRoundTrip(fields, v.vals);
  }

  lemma {:induction false} ArrayRoundTrip(elem: Layout, vs: seq<Value>)
    requires forall i :: 0 <= i < |vs| ==> WellTyped(elem, vs[i]) && CharsFit(elem, vs[i])
    ensures DecodeArray(elem, |vs|, EncodeArray(elem, vs)) == vs
    decreases elem, 1, |vs|
  {
    if vs != [] {
      var n := |vs|;
      var front, x := vs[..n - 1], vs[n - 1];
      assert forall i :: 0 <= i < |front| ==> front[i] == vs[i];
      assert vs == front + [x];
      var e := EncodeArray(elem, front);
      var last := Encode(elem, x);
      DecodeArraySnoc(elem, n, e, last);
      ArrayRoundTrip(elem, front);
      RoundTrip(elem, x);
    }
  }

  /** Decoding `n` chunks is decoding the first `n - 1`, then the last. */
  lemma DecodeArraySnoc(elem: Layout, n: nat, e: seq<byte>, last: seq<byte>)
    requires n >= 1 && |e| == Times(Size(elem), n - 1) && |last| == Size(elem)
    ensures |e + last| == Times(Size(elem), n)
    ensures DecodeArray(elem, n, e + last) == DecodeArray(elem, n - 1, e) + [Decode(elem, last)]
  {
    var s := e + last;
    assert s[..|e|] == e && s[|e|..] == last;
  }

  lemma {:induction false} FieldsRoundTrip(fields: seq<FieldDecl>, vs: seq<Value>)
    requires |vs| == |fields|
    requires forall i :: 0 <= i < |fields| ==> WellTyped(fields[i].layout, vs[i]) && CharsFit(fields[i].layout, vs[i])
    ensures DecodeFields(fields, EncodeFields(fields, vs)) == vs
    decreases fields
  {
    if fields != [] {
      var n := |fields|;
      var front, fvs := fields[..n - 1], vs[..n - 1];
      FrontFieldsTyped(fields, vs, front, fvs);
      FieldsRoundTrip(front, fvs);
      RoundTrip(fields[n - 1].layout, vs[n - 1]);
      FieldsRoundTripStep(fields, vs, front, fvs);
    }
  }

  /** The round trip of all the fields follows from those of the front fields and of the last one. */
  lemma FieldsRoundTripStep(fields: seq<FieldDecl>, vs: seq<Value>, front: seq<FieldDecl>, fvs: seq<Value>)
    requires |vs| == |fields| > 0 && front == fields[..|fields| - 1] && fvs == vs[..|vs| - 1]
    requires forall i {:trigger WellTyped(fields[i].layout, vs[i])} :: 0 <= i < |fields| ==> WellTyped(fields[i].layout, vs[i])
    requires forall i {:trigger WellTyped(front[i].layout, fvs[i])} :: 0 <= i < |front| ==> WellTyped(front[i].layout, fvs[i])
    requires DecodeFields(front, EncodeFields(front, fvs)) == fvs
    requires Decode(fields[|fields| - 1].layout, Encode(fields[|fields| - 1].layout, vs[|vs| - 1])) == vs[|vs| - 1]
    ensures DecodeFields(fields, EncodeFields(fields, vs)) == vs
  {
    var n := |fields|;
    var e := EncodeFields(front, fvs);
    var last := Encode(fields[n - 1].layout, vs[n - 1]);
    assert EncodeFields(fields, vs) == e + last;
    DecodeFieldsSnoc(fields, e, last);
    assert fvs + [vs[n - 1]] == vs;
  }

  /** The typing of all fields carries over to the fields before the last. */
  lemma FrontFieldsTyped(fields: seq<FieldDecl>, vs: seq<Value>, front: seq<FieldDecl>, fvs: seq<Value>)
    requires |vs| == |fields| > 0 && front == fields[..|fields| - 1] && fvs == vs[..|vs| - 1]
    requires forall i :: 0 <= i < |fields| ==> WellTyped(fields[i].layout, vs[i]) && CharsFit(fields[i].layout, vs[i])
    ensures forall i :: 0 <= i < |front| ==> WellTyped(front[i].layout, fvs[i]) && CharsFit(front[i].layout, fvs[i])
    ensures WellTyped(fields[|fields| - 1].layout, vs[|vs| - 1]) && CharsFit(fields[|fields| - 1].layout, vs[|vs| - 1])
  {
  }

  /** Decoding the bytes of all fields but the last, then the last field's own bytes. */
  lemma DecodeFieldsSnoc(fields: seq<FieldDecl>, e: seq<byte>, last: seq<byte>)
    requires fields != [] && |e| == FieldsSize(fields[..|fields| - 1]) && |last| == Size(fields[|fields| - 1].layout)
    ensures |e + last| == FieldsSize(fields)
    ensures DecodeFields(fields, e + last)
         == DecodeFields(fields[..|fields| - 1], e) + [Decode(fields[|fields| - 1].layout, last)]
  {
    var s := e + last;
    assert s[..|e|] == e && s[|e|..] == last;
  }

  /**
    Field `i` of a packed struct occupies the bytes from the size of the
    fields before it to the size of the fields up to and including it.
  */
  lemma {:induction false} FieldBytes(fields: seq<FieldDecl>, vs: seq<Value>, i: nat)
    requires |vs| == |fields| && i < |fields|
    requires forall j {:trigger WellTyped(fields[j].layout, vs[j])} :: 0 <= j < |fields| ==> WellTyped(fields[j].layout, vs[j])
    ensures FieldsSize(fields[..i]) <= FieldsSize(fields[..i + 1]) <= FieldsSize(fields)
    ensures EncodeFields(fields, vs)[FieldsSize(fields[..i])..FieldsSize(fields[..i + 1])]
         == Encode(fields[i].layout, vs[i])
    decreases |fields|
  {
    var n := |fields|;
    var front, fvs := fields[..n - 1], vs[..n - 1];
    var e, last := EncodeFields(front, fvs), Encode(fields[n - 1].layout, vs[n - 1]);
    assert EncodeFields(fields, vs) == e + last;
    assert fields[..i + 1][..i] == fields[..i];
    FieldsSizePrefix(fields, i + 1);
    if i == n - 1 {
      assert fields[..i] == front && fields[..i + 1] == fields;
      AppendSlices(e, last, |e|, |e| + |last|);
    } else {
      assert fields[..i] == front[..i] && fields[..i + 1] == front[..i + 1];
      FieldBytes(front, fvs, i);
      AppendSlices(e, last, FieldsSize(front[..i]), FieldsSize(front[..i + 1]));
    }
  }

  /** A slice of `e + t` inside `e` is that slice of `e`; the slice just after `e` is `t`. */
  lemma AppendSlices<X>(e: seq<X>, t: seq<X>, lo: nat, hi: nat)
    requires lo <= hi <= |e| || (lo == |e| && hi == |e| + |t|)
    ensures hi <= |e| ==> (e + t)[lo..hi] == e[lo..hi]
    ensures lo == |e| && hi == |e| + |t| ==> (e + t)[lo..hi] == t
  {
  }

  /** A prefix of the fields never takes more room than all of them. */
  lemma {:induction false} FieldsSizePrefix(fields: seq<FieldDecl>, i: nat)
    requires i <= |fields|
    ensures FieldsSize(fields[..i]) <= FieldsSize(fields)
    decreases |fields|
  {
    if i < |fields| {
      var front := fields[..|fields| - 1];
      assert fields[..i] == front[..i];
      FieldsSizePrefix(front, i);
    } else {
      assert fields[..i] == fields;
    }
  }

  /** The derived size sum read right to left: the first field, then the rest. */
  lemma {:induction false} FieldsSizeCons(fields: seq<FieldDecl>)
    requires fields != []
    ensures FieldsSize(fields) == Size(fields[0].layout) + FieldsSize(fields[1..])
    decreases |fields|
  {
    var n := |fields|;
    if n > 1 {
      var front := fields[..n - 1];
      assert front[1..] == fields[1..][..n - 2] && front[0] == fields[0];
      FieldsSizeCons(front);
      assert fields[1..][|fields[1..]| - 1] == fields[n - 1];
    } else {
      assert fields[1..] == [] && fields[..0] == [];
    }
  }

  // ---------------------------------------------------------------------
  // The imperative codecs

  /** `pack`: appends `Encode(l, v)` to the buffer and leaves what was there. */
  method Pack(l: Layout, v: Value, buffer: ByteSink)
    requires WellTyped(l, v)
    modifies buffer
    ensures buffer.bytes == old(buffer.bytes) + Encode(l, v)
    decreases l, 0
  {
    match l
    case Primitive(p) => Prims.Pack(p, v.x, buffer);
    case IntUnit => Units.PackInt(v.iu, buffer);
    case UIntUnit => Units.PackUInt(v.uu, buffer);
    case Array(elem, n) => PackArray(elem, v.elems, buffer);
    case Struct(_, fields) => PackFields(fields, v.vals, buffer);
  }

  /** `[T; N]::pack`: each element in index order. */
  method PackArray(elem: Layout, vs: seq<Value>, buffer: ByteSink)
    requires forall i {:trigger WellTyped(elem, vs[i])} :: 0 <= i < |vs| ==> WellTyped(elem, vs[i])
    modifies buffer
    ensures buffer.bytes == old(buffer.bytes) + EncodeArray(elem, vs)
    decreases elem, 2
  {
    ghost var before := buffer.bytes;
    for i := 0 to |vs|
      invariant buffer.bytes == before + EncodeArray(elem, vs[..i])
    {
      PackElement(elem, vs, i, buffer, before);
    }
    assert vs[..|vs|] == vs;
  }

  /** One pass of the loop: element `i` is packed after the first `i`. */
  method PackElement(elem: Layout, vs: seq<Value>, i: nat, buffer: ByteSink, ghost before: seq<byte>)
    requires i < |vs| && forall j {:trigger WellTyped(elem, vs[j])} :: 0 <= j < |vs| ==> WellTyped(elem, vs[j])
    requires buffer.bytes == before + EncodeArray(elem, vs[..i])
    modifies buffer
    ensures buffer.bytes == before + EncodeArray(elem, vs[..i + 1])
    decreases elem, 1
  {
    assert vs[..i + 1][..i] == vs[..i];
    Pack(elem, vs[i], buffer);
  }

  /** The derived `pack`: each field's `pack` on the same buffer, in declaration order. */
  method PackFields(fields: seq<FieldDecl>, vs: seq<Value>, buffer: ByteSink)
    requires |vs| == |fields|
    requires forall i {:trigger WellTyped(fields[i].layout, vs[i])} :: 0 <= i < |fields| ==> WellTyped(fields[i].layout, vs[i])
    modifies buffer
    ensures buffer.bytes == old(buffer.bytes) + EncodeFields(fields, vs)
    decreases fields, 1
  {
    for i := 0 to |fields|
      invariant buffer.bytes == old(buffer.bytes) + EncodeFields(fields[..i], vs[..i])
    {
      assert fields[..i + 1][..i] == fields[..i] && vs[..i + 1][..i] == vs[..i];
      Pack(fields[i].layout, vs[i], buffer);
    }
    assert fields[..|fields|] == fields && vs[..|vs|] == vs;
  }

  /**
    `unpack`, with `[T; N]` read by the corrected `UnpackArray`: consumes
    exactly `Size(l)` bytes and returns what they decode to.
  */
  method Unpack(l: Layout, buffer: ByteCursor) returns (v: Value)
    requires buffer.Valid() && Size(l) <= buffer.Remaining()
    modifies buffer
    ensures buffer.Valid() && buffer.pos == old(buffer.pos) + Size(l)
    ensures v == Decode(l, buffer.data[old(buffer.pos)..buffer.pos])
    decreases l, 0
  {
    match l
    case Primitive(p) =>
      var x := Prims.Unpack(p, buffer);
      v := ScalarV(x);
    case IntUnit =>
      var u := Units.UnpackInt(buffer);
      v := IntUnitV(u);
    case UIntUnit =>
      var u := Units.UnpackUInt(buffer);
      v := UIntUnitV(u);
    case Array(elem, n) =>
      var vs := UnpackArray(elem, n, buffer);
      v := ArrayV(vs);
    case Struct(_, fields) =>
      var vs := UnpackFields(fields, buffer);
      v := StructV(vs);
  }

  /**
    `[T; N]::unpack` with the zero-length case handled: no element, no
    input consumed. For `N >= 1` it is the source's code.
  */
  method UnpackArray(elem: Layout, n: nat, buffer: ByteCursor) returns (vs: seq<Value>)
    requires buffer.Valid() && Times(Size(elem), n) <= buffer.Remaining()
    modifies buffer
    ensures buffer.Valid() && buffer.pos == old(buffer.pos) + Times(Size(elem), n)
    ensures vs == DecodeArray(elem, n, buffer.data[old(buffer.pos)..buffer.pos])
    decreases elem, 4
  {
    if n == 0 {
      return [];
    }
    vs := UnpackArrayAsWritten(elem, n, buffer);
  }

  /**
    How many bytes `[T; N]::unpack` as written consumes: one `T::unpack`
    per element, but at least one even when there is no element.
  */
  function AsWrittenReadLength(elem: Layout, n: nat): (r: nat)
    ensures n >= 1 ==> r == Size(Array(elem, n))
    ensures n == 0 ==> r == Size(elem)
  {
    if n == 0 then Size(elem) else Times(Size(elem), n)
  }

  /**
    The zero-length array reads past its own (empty) image whenever its
    element type has a size: `[u32; 0]` declares `SIZE == 0` yet its
    `unpack` takes four bytes, while `UnpackArray` takes none.
  */
  lemma ZeroLengthArrayOverReads(elem: Layout)
    requires Size(elem) > 0
    ensures Size(Array(elem, 0)) == 0 < AsWrittenReadLength(elem, 0)
  {
  }

  /**
    `[T; N]::unpack` as written: the array is first filled with one
    `T::unpack` result (the repeat operand is evaluated even when `N` is 0),
    then every element after the first is overwritten by a further
    `T::unpack`.
  */
  method UnpackArrayAsWritten(elem: Layout, n: nat, buffer: ByteCursor) returns (vs: seq<Value>)
    requires buffer.Valid() && AsWrittenReadLength(elem, n) <= buffer.Remaining()
    modifies buffer
    ensures buffer.Valid() && buffer.pos == old(buffer.pos) + AsWrittenReadLength(elem, n)
    ensures vs == DecodeArray(elem, n, buffer.data[old(buffer.pos)..old(buffer.pos) + Times(Size(elem), n)])
    decreases elem, 3
  {
    ghost var start := buffer.pos;
    var first := Unpack(elem, buffer);
    var arr := seq(n, _ => first);
    if n == 0 {
      vs := arr;
    } else {
      ArrayFirstChunk(elem, buffer.data, start);
      assert arr[..1] == [first];
      vs := OverwriteAfterFirst(elem, arr, buffer, start);
    }
  }

  /**
    The loop of `[T; N]::unpack`: every element but the first (which the
    `is_first` flag skips) is replaced by a fresh `T::unpack`, in index order.
  */
  method OverwriteAfterFirst(elem: Layout, arr: seq<Value>, buffer: ByteCursor, ghost start: nat)
    returns (vs: seq<Value>)
    requires |arr| >= 1 && start + Times(Size(elem), |arr|) <= |buffer.data|
    requires buffer.Valid() && buffer.pos == start + Times(Size(elem), 1)
    requires arr[..1] == DecodeArray(elem, 1, buffer.data[start..buffer.pos])
    modifies buffer
    ensures buffer.Valid() && buffer.pos == start + Times(Size(elem), |arr|)
    ensures vs == DecodeArray(elem, |arr|, buffer.data[start..buffer.pos])
    decreases elem, 2
  {
    var n := |arr|;
    vs := arr;
    TimesMonotone(Size(elem), 1, n);
    for i := 1 to n
      invariant |vs| == n && buffer.pos == start + Times(Size(elem), i)
      invariant buffer.pos <= |buffer.data|
      invariant vs[..i] == DecodeArray(elem, i, buffer.data[start..buffer.pos])
    {
      vs := UnpackElement(elem, vs, i, buffer, start);
    }
    assert vs[..n] == vs;
  }

  /** One pass of the loop: element `i` is overwritten by the next `T::unpack`. */
  method UnpackElement(elem: Layout, vs: seq<Value>, i: nat, buffer: ByteCursor, ghost start: nat)
    returns (vs': seq<Value>)
    requires i < |vs| && start + Times(Size(elem), |vs|) <= |buffer.data|
    requires buffer.pos == start + Times(Size(elem), i) && buffer.pos <= |buffer.data|
    requires vs[..i] == DecodeArray(elem, i, buffer.data[start..buffer.pos])
    modifies buffer
    ensures |vs'| == |vs| && buffer.pos == start + Times(Size(elem), i + 1)
    ensures buffer.pos <= |buffer.data|
    ensures vs'[..i + 1] == DecodeArray(elem, i + 1, buffer.data[start..buffer.pos])
    decreases elem, 1
  {
    TimesMonotone(Size(elem), i + 1, |vs|);
    ghost var prev, mid := vs[..i], buffer.pos;
    var x := Unpack(elem, buffer);
    ArrayNextChunk(elem, buffer.data, start, i, mid, prev, x);
    vs' := vs[i := x];
    assert vs'[..i + 1] == prev + [x];
  }

  /** The first chunk of a buffer decodes to a one-element array. */
  lemma ArrayFirstChunk(elem: Layout, data: seq<byte>, start: nat)
    requires start + Size(elem) <= |data|
    ensures Times(Size(elem), 1) == Size(elem)
    ensures DecodeArray(elem, 1, data[start..start + Size(elem)]) == [Decode(elem, data[start..start + Size(elem)])]
  {
    var s := data[start..start + Size(elem)];
    assert s[..0] == [] && s[0..] == s;
  }

  /** The chunk after `i` decoded elements extends the array by one. */
  lemma ArrayNextChunk(elem: Layout, data: seq<byte>, start: nat, i: nat, mid: nat, prev: seq<Value>, x: Value)
    requires mid == start + Times(Size(elem), i) && mid + Size(elem) <= |data|
    requires prev == DecodeArray(elem, i, data[start..mid])
    requires x == Decode(elem, data[mid..mid + Size(elem)])
    ensures mid + Size(elem) == start + Times(Size(elem), i + 1)
    ensures prev + [x] == DecodeArray(elem, i + 1, data[start..mid + Size(elem)])
  {
    assert data[start..mid + Size(elem)] == data[start..mid] + data[mid..mid + Size(elem)];
    DecodeArraySnoc(elem, i + 1, data[start..mid], data[mid..mid + Size(elem)]);
  }

  /** More items never take less room. */
  lemma {:induction false} TimesMonotone(k: nat, i: nat, n: nat)
    requires i <= n
    ensures Times(k, i) <= Times(k, n)
    decreases n
  {
    if i < n {
      TimesMonotone(k, i, n - 1);
    }
  }

  /** The fields up to `i` take the room of those before it and of field `i`. */
  lemma FieldsSizeStep(fields: seq<FieldDecl>, i: nat)
    requires i < |fields|
    ensures FieldsSize(fields[..i + 1]) == FieldsSize(fields[..i]) + Size(fields[i].layout)
  {
    assert fields[..i + 1][..i] == fields[..i];
  }

  /** One turn of the derived `unpack`: the next field's bytes extend the decoded fields by one. */
  lemma UnpackFieldsStep(fields: seq<FieldDecl>, i: nat, data: seq<byte>, start: nat, here: nat,
                         vs: seq<Value>, x: Value)
    requires i < |fields| && start <= here && here + Size(fields[i].layout) <= |data|
    requires here == start + FieldsSize(fields[..i])
    requires vs == DecodeFields(fields[..i], data[start..here])
    requires x == Decode(fields[i].layout, data[here..here + Size(fields[i].layout)])
    ensures here + Size(fields[i].layout) == start + FieldsSize(fields[..i + 1])
    ensures vs + [x] == DecodeFields(fields[..i + 1], data[start..here + Size(fields[i].layout)])
  {
    var pos := here + Size(fields[i].layout);
    var upto := fields[..i + 1];
    assert upto[..|upto| - 1] == fields[..i] && upto[|upto| - 1] == fields[i];
    FieldsSizeStep(fields, i);
    assert data[start..pos] == data[start..here] + data[here..pos];
    DecodeFieldsSnoc(upto, data[start..here], data[here..pos]);
  }

  /** The derived `unpack`: each field's `unpack` in declaration order. */
  method UnpackFields(fields: seq<FieldDecl>, buffer: ByteCursor) returns (vs: seq<Value>)
    requires buffer.Valid() && FieldsSize(fields) <= buffer.Remaining()
    modifies buffer
    ensures buffer.Valid() && buffer.pos == old(buffer.pos) + FieldsSize(fields)
    ensures vs == DecodeFields(fields, buffer.data[old(buffer.pos)..buffer.pos])
    decreases fields, 1
  {
    ghost var start := buffer.pos;
    vs := [];
    for i := 0 to |fields|
      invariant buffer.Valid()
      invariant buffer.pos == start + FieldsSize(fields[..i])
      invariant vs == DecodeFields(fields[..i], buffer.data[start..buffer.pos])
    {
      FieldsSizePrefix(fields, i + 1);
      FieldsSizeStep(fields, i);
      ghost var here := buffer.pos;
      var x := Unpack(fields[i].layout, buffer);
      UnpackFieldsStep(fields, i, buffer.data, start, here, vs, x);
      vs := vs + [x];
    }
    assert fields[..|fields|] == fields;
  }
}
