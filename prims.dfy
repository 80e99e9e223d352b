/**
  The `FrcStructure` implementations for the primitive types in
  `src/structure/prims.rs`: their `TYPE` names, their `SIZE`s and their
  byte encodings. Every `pack`/`unpack` goes through the `bytes` crate's
  `put_*`/`get_*` accessors, which are big-endian. Floats are carried as
  opaque bit patterns of their width.
*/
module Prims {
  import opened Bytes
  import opened Buffers
  import FieldTypes

  datatype Prim = I8 | I16 | I32 | I64 | U8 | U16 | U32 | U64 | Bool | Char | F32 | F64

  /** `SIZE`: the number of bytes `pack` writes. */
  function Width(p: Prim): (w: nat)
    ensures w in {1, 2, 4, 8}
  {
    match p
    case I8 => 1
    case I16 => 2
    case I32 => 4
    case I64 => 8
    case U8 => 1
    case U16 => 2
    case U32 => 4
    case U64 => 8
    case Bool => 1
    case Char => 1
    case F32 => 4
    case F64 => 8
  }

  /** `TYPE`: the name the schema language knows the primitive by, one whose table width is the primitive's `SIZE`. */
  function TypeStr(p: Prim): (name: string)
    ensures FieldTypes.IsPrimitiveName(name)
    ensures FieldTypes.NamedWidth(name) == Width(p)
    ensures name !in {"float", "double"}
  {
    match p
    case I8 => "int8"
    case I16 => "int16"
    case I32 => "int32"
    case I64 => "int64"
    case U8 => "uint8"
    case U16 => "uint16"
    case U32 => "uint32"
    case U64 => "uint64"
    case Bool => "bool"
    case Char => "char"
    case F32 => "float32"
    case F64 => "float64"
  }

  predicate IsSignedInt(p: Prim) { p in {I8, I16, I32, I64} }

  predicate IsUnsignedInt(p: Prim) { p in {U8, U16, U32, U64} }

  predicate IsFloat(p: Prim) { p in {F32, F64} }

  /** A value of one of the primitive types. */
  datatype Scalar = Int(i: int) | Boolean(b: bool) | Character(c: char) | FloatBits(bits: nat)

  /** `x` is a value of the Rust type `p`: integers within their width's range. */
  predicate HasType(p: Prim, x: Scalar)
  {
    if IsSignedInt(p) then x.Int? && InSigned(x.i, Width(p))
    else if IsUnsignedInt(p) then x.Int? && InUnsigned(x.i, Width(p))
    else if p == Bool then x.Boolean?
    else if p == Char then x.Character?
    else x.FloatBits? && x.bits < Pow256(Width(p))
  }

  /**
    What `pack` writes: integers and float bit patterns as `Width(p)`
    big-endian bytes (signed ones in two's complement), `bool` as one byte 1
    or 0, and `char` as its code point truncated to the low byte (`as u8`).
  */
  function Encode(p: Prim, x: Scalar): (r: seq<byte>)
    requires HasType(p, x)
    ensures |r| == Width(p)
  {
    if IsSignedInt(p) then BeBytes(ToUnsigned(x.i, Width(p)), Width(p))
    else if IsUnsignedInt(p) then BeBytes(x.i, Width(p))
    else if p == Bool then [if x.b then 1 else 0]
    else if p == Char then [(x.c as int) % 256]
    else BeBytes(x.bits, Width(p))
  }

  /**
    What `unpack` reads from exactly `Width(p)` bytes: any nonzero byte is
    `true`, and a `char` byte is taken as the code point of that value.
  */
  function Decode(p: Prim, s: seq<byte>): (x: Scalar)
    requires |s| == Width(p)
    ensures HasType(p, x)
  {
    BeValueBound(s);
    if IsSignedInt(p) then Int(FromUnsigned(BeValue(s), Width(p)))
    else if IsUnsignedInt(p) then Int(BeValue(s))
    else if p == Bool then Boolean(s[0] != 0)
    else if p == Char then Character(s[0] as char)
    else FloatBits(BeValue(s))
  }

  /** `unpack(pack(v)) == v` for every integer, bool and float bit pattern, and for `char`s below 256. */
  lemma RoundTrip(p: Prim, x: Scalar)
    requires HasType(p, x)
    requires p == Char ==> (x.c as int) < 256
    ensures Decode(p, Encode(p, x)) == x
  {
    if IsSignedInt(p) {
      BeRoundTrip(ToUnsigned(x.i, Width(p)), Width(p));
      SignedRoundTrip(x.i, Width(p));
    } else if IsUnsignedInt(p) || IsFloat(p) {
      var v := if IsUnsignedInt(p) then x.i else x.bits;
      BeRoundTrip(v, Width(p));
    }
  }

  /** Every integer or float byte pattern is the encoding of the value it decodes to. */
  lemma EncodeOfDecode(p: Prim, s: seq<byte>)
    requires |s| == Width(p) && p != Bool && p != Char
    ensures Encode(p, Decode(p, s)) == s
  {
    BeBytesOfValue(s);
    if IsSignedInt(p) {
      UnsignedRoundTrip(BeValue(s), Width(p));
    }
  }

  /**
    The integers are written most significant byte first: the first byte
    is the top base-256 digit of the (two's-complement) bit pattern and the
    last byte its lowest digit. For `i32`, the first byte is bits 24-31.
  */
  lemma IntEncodingBigEndian(p: Prim, x: Scalar)
    requires (IsSignedInt(p) || IsUnsignedInt(p)) && HasType(p, x)
    ensures Encode(p, x)[0] == BitPattern(p, x) / Pow256(Width(p) - 1)
    ensures Encode(p, x)[Width(p) - 1] == BitPattern(p, x) % 256
    ensures p == I32 ==> Encode(p, x)[0] == BitPattern(p, x) / 0x100_0000
  {
    BeByteOrder(BitPattern(p, x), Width(p));
  }

  /** The `Width(p)`-byte unsigned pattern of an integer: two's complement for the signed types. */
  function BitPattern(p: Prim, x: Scalar): (u: nat)
    requires (IsSignedInt(p) || IsUnsignedInt(p)) && HasType(p, x)
    ensures u < Pow256(Width(p))
  {
    if IsSignedInt(p) then ToUnsigned(x.i, Width(p)) else x.i
  }

  /** `bool` is written as 1 or 0, and any nonzero byte reads back as `true`. */
  lemma BoolBytes(b: bool, v: byte)
    ensures Encode(Bool, Boolean(b)) == [if b then 1 else 0]
    ensures Decode(Bool, [v]) == Boolean(v != 0)
  {
  }

  /**
    `char` keeps only the low byte of its code point: it round-trips exactly
    when the code point is below 256, and otherwise reads back as the
    character of the low byte.
  */
  lemma CharLowByte(c: char)
    ensures Encode(Char, Character(c)) == [(c as int) % 256]
    ensures Decode(Char, Encode(Char, Character(c))) == Character(((c as int) % 256) as char)
    ensures Decode(Char, Encode(Char, Character(c))) == Character(c) <==> (c as int) < 256
  {
    var low := ((c as int) % 256) as char;
    if (c as int) >= 256 {
      assert (low as int) < 256;
      assert low != c;
    }
  }

  /** `put_*`: appends the encoding; earlier bytes are left as they were. */
  method Pack(p: Prim, x: Scalar, buffer: ByteSink)
    requires HasType(p, x)
    modifies buffer
    ensures buffer.bytes == old(buffer.bytes) + Encode(p, x)
  {
    buffer.Put(Encode(p, x));
  }

  /** `get_*`: consumes exactly `Width(p)` bytes (the `bytes` crate panics on fewer). */
  method Unpack(p: Prim, buffer: ByteCursor) returns (x: Scalar)
    requires buffer.Valid() && Width(p) <= buffer.Remaining()
    modifies buffer
    ensures buffer.Valid() && buffer.pos == old(buffer.pos) + Width(p)
    ensures x == Decode(p, buffer.data[old(buffer.pos)..buffer.pos])
  {
    var s := buffer.Take(Width(p));
    x := Decode(p, s);
  }
}
