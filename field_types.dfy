/**
  `StructureFieldTypes`: the primitive field kinds a schema can name, each
  carrying its repeat count (1 for a scalar, N for a fixed array).
*/
module FieldTypes {
  import opened Wrappers

  datatype FieldType =
    | Bool(count: nat)
    | Char(count: nat)
    | Int8(count: nat)
    | Int16(count: nat)
    | Int32(count: nat)
    | Int64(count: nat)
    | UInt8(count: nat)
    | UInt16(count: nat)
    | UInt32(count: nat)
    | UInt64(count: nat)
    | Float32(count: nat)
    | Float64(count: nat)

  /** Width in bytes of one element of the field. */
  function BaseSize(t: FieldType): (n: nat)
    ensures n in {1, 2, 4, 8}
  {
    match t
    case Bool(_) => 1
    case Char(_) => 1
    case Int8(_) => 1
    case Int16(_) => 2
    case Int32(_) => 4
    case Int64(_) => 8
    case UInt8(_) => 1
    case UInt16(_) => 2
    case UInt32(_) => 4
    case UInt64(_) => 8
    case Float32(_) => 4
    case Float64(_) => 8
  }

  /** Bytes the field occupies in a packed struct. */
  function Size(t: FieldType): nat
  {
    BaseSize(t) * t.count
  }

  /** The fourteen primitive names a schema may use. */
  predicate IsPrimitiveName(name: string)
  {
    name in {"bool", "char", "int8", "int16", "int32", "int64", "uint8", "uint16",
             "uint32", "uint64", "float", "float32", "double", "float64"}
  }

  /** The field kind a primitive name denotes, with the given repeat count. */
  function FromType(name: string, count: nat): (r: Option<FieldType>)
    ensures r.Some? <==> IsPrimitiveName(name)
    ensures r.Some? ==> r.value.count == count && BaseSize(r.value) == NamedWidth(name)
    ensures name in {"float", "float32"} ==> r == Some(Float32(count))
    ensures name in {"double", "float64"} ==> r == Some(Float64(count))
    ensures r.Some? ==> CanonicalName(r.value) == if name == "float" then "float32"
                                                  else if name == "double" then "float64" else name
  {
    match name
    case "bool" => Some(Bool(count))
    case "char" => Some(Char(count))
    case "int8" => Some(Int8(count))
    case "int16" => Some(Int16(count))
    case "int32" => Some(Int32(count))
    case "int64" => Some(Int64(count))
    case "uint8" => Some(UInt8(count))
    case "uint16" => Some(UInt16(count))
    case "uint32" => Some(UInt32(count))
    case "uint64" => Some(UInt64(count))
    case "float" => Some(Float32(count))
    case "float32" => Some(Float32(count))
    case "double" => Some(Float64(count))
    case "float64" => Some(Float64(count))
    case _ => None
  }

  /** The name a field kind is written with; the two aliases are not used. */
  function CanonicalName(t: FieldType): string
  {
    match t
    case Bool(_) => "bool"
    case Char(_) => "char"
    case Int8(_) => "int8"
    case Int16(_) => "int16"
    case Int32(_) => "int32"
    case Int64(_) => "int64"
    case UInt8(_) => "uint8"
    case UInt16(_) => "uint16"
    case UInt32(_) => "uint32"
    case UInt64(_) => "uint64"
    case Float32(_) => "float32"
    case Float64(_) => "float64"
  }

  /** Every field kind is named by its canonical name: `from_type` reads it back with its count. */
  lemma CanonicalNameRoundTrip(t: FieldType)
    ensures IsPrimitiveName(CanonicalName(t))
    ensures FromType(CanonicalName(t), t.count) == Some(t)
  {
  }

  /** The byte width named by a primitive name, as the source's table gives it. */
  function NamedWidth(name: string): nat
  {
    if name in {"bool", "char", "int8", "uint8"} then 1
    else if name in {"int16", "uint16"} then 2
    else if name in {"int32", "uint32", "float", "float32"} then 4
    else 8
  }

  /** Every width is 1, 2, 4 or 8, so a field's size is a multiple of its count. */
  lemma SizeIsBaseTimesCount(t: FieldType)
    ensures BaseSize(t) in {1, 2, 4, 8}
    ensures Size(t) % BaseSize(t) == 0 && Size(t) / BaseSize(t) == t.count
    ensures t.count == 1 ==> Size(t) == BaseSize(t)
    ensures t.count == 0 <==> Size(t) == 0
  {
  }
}
