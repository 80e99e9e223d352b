/**
  The integer arms of the unit macros in `src/units/macros/components.rs`:
  a unit is a newtype around an `i64` (or a `u64`), with conversions from
  the narrower integers, wrapping arithmetic operators, and a little-endian
  8-byte struct codec that tolerates short input.
*/
module Units {
  import opened Bytes
  import opened Buffers
  import FieldTypes

  const TwoTo64: int := 0x1_0000_0000_0000_0000
  const I64Min: int := -0x8000_0000_0000_0000
  const I64Max: int := 0x7FFF_FFFF_FFFF_FFFF
  const U64Max: int := 0xFFFF_FFFF_FFFF_FFFF

  predicate IsI64(v: int) { I64Min <= v <= I64Max }

  predicate IsU64(v: int) { 0 <= v <= U64Max }

  /** The range of an `n`-byte signed integer. */
  predicate IsSignedOfWidth(v: int, n: nat)
    requires n >= 1
  {
    InSigned(v, n)
  }

  /** A unit over `i64`, such as `Millisecond(i64)`. */
  datatype IntUnit = IntUnit(value: int)

  /** A unit over `u64`. */
  datatype UIntUnit = UIntUnit(value: nat)

  predicate ValidInt(u: IntUnit) { IsI64(u.value) }

  predicate ValidUInt(u: UIntUnit) { IsU64(u.value) }

  lemma I64Bounds()
    ensures Half(8) == I64Max + 1 && Pow256(8) == TwoTo64
  {
  }

  // ---------------------------------------------------------------------
  // Conversions

  /** `From<i64/i32/i16/i8>` and `From<u32/u16/u8>`: exact widenings. */
  function FromNarrow(v: int): (u: IntUnit)
    requires IsI64(v)
    ensures ValidInt(u) && u.value == v
  {
    IntUnit(v)
  }

  /** `From<u64>`: the `as i64` cast, which reinterprets the bit pattern. */
  function FromU64(v: int): (u: IntUnit)
    requires IsU64(v)
    ensures ValidInt(u)
    ensures v <= I64Max ==> u.value == v
    ensures v > I64Max ==> u.value == v - TwoTo64
  {
    I64Bounds();
    IntUnit(FromUnsigned(v, 8))
  }

  /** `From<Unit> for i64`. */
  function IntoI64(u: IntUnit): (v: int)
    ensures v == u.value
  {
    u.value
  }

  /** Every `i32`, `i16`, `i8`, `u32`, `u16` and `u8` converts to a unit holding the same number. */
  lemma NarrowConversionsExact(v: int, n: nat)
    requires n in {1, 2, 4}
    requires InSigned(v, n) || InUnsigned(v, n)
    ensures IsI64(v) && FromNarrow(v).value == v && IntoI64(FromNarrow(v)) == v
  {
    assert Pow256(n) <= Pow256(4);
    I64Bounds();
  }

  /** The `u64` cast is a bijection onto `i64`: the same 64-bit pattern read back as unsigned. */
  lemma FromU64KeepsBits(v: int)
    requires IsU64(v)
    ensures ToUnsigned(FromU64(v).value, 8) == v
  {
    I64Bounds();
    UnsignedRoundTrip(v, 8);
  }

  // ---------------------------------------------------------------------
  // Operators (release-mode wrapping arithmetic)

  /** Two's-complement wrap-around of a mathematical result into `i64`. */
  function WrapI64(x: int): (r: int)
    ensures IsI64(r)
    ensures (r - x) % TwoTo64 == 0
    ensures IsI64(x) ==> r == x
  {
    var m := x % TwoTo64;
    if m <= I64Max then m else m - TwoTo64
  }

  /** Wrap-around of a mathematical result into `u64`. */
  function WrapU64(x: int): (r: nat)
    ensures IsU64(r)
    ensures (r - x) % TwoTo64 == 0
    ensures IsU64(x) ==> r == x
  {
    x % TwoTo64
  }

  /** Division rounding toward zero, as Rust's `/` does. */
  function TruncDiv(a: int, b: int): (q: int)
    requires b != 0
  {
    var m := Abs(a) / Abs(b);
    if (a < 0) == (b < 0) then m else -m
  }

  function Abs(x: int): nat
  {
    if x < 0 then -x else x
  }

  /** Remainder with the sign of the dividend, as Rust's `%` does. */
  function TruncRem(a: int, b: int): (r: int)
    requires b != 0
  {
    a - b * TruncDiv(a, b)
  }

  /** The pair Rust's `/` and `%` compute: quotient toward zero, remainder smaller than the divisor with the dividend's sign. */
  lemma TruncDivRem(a: int, b: int)
    requires b != 0
    ensures a == b * TruncDiv(a, b) + TruncRem(a, b)
    ensures Abs(TruncRem(a, b)) < Abs(b)
    ensures TruncRem(a, b) == 0 || (TruncRem(a, b) < 0 <==> a < 0)
  {
    var m := Abs(a) / Abs(b);
    EuclidNat(Abs(a), Abs(b));
    SignedProduct(b, if (a < 0) == (b < 0) then m else -m);
    SignedProduct(b, m);
    assert TruncDiv(a, b) == if (a < 0) == (b < 0) then m else -m;
    assert b * TruncDiv(a, b) == if a < 0 then -(Abs(b) * m) else Abs(b) * m;
  }

  /** Euclidean division of naturals: quotient and remainder below the divisor. */
  lemma EuclidNat(x: nat, y: nat)
    requires y > 0
    ensures x == y * (x / y) + x % y && 0 <= x % y < y && 0 <= x / y
  {
  }

  /** A product's sign comes from its first factor's sign. */
  lemma SignedProduct(b: int, m: int)
    ensures b * m == if b < 0 then -(Abs(b) * m) else Abs(b) * m
    ensures b * -m == -(b * m)
  {
  }

  function Add(a: IntUnit, b: IntUnit): (r: IntUnit)
    ensures ValidInt(r) && (r.value - (a.value + b.value)) % TwoTo64 == 0
  {
    IntUnit(WrapI64(a.value + b.value))
  }

  function Sub(a: IntUnit, b: IntUnit): (r: IntUnit)
    ensures ValidInt(r) && (r.value - (a.value - b.value)) % TwoTo64 == 0
  {
    IntUnit(WrapI64(a.value - b.value))
  }

  function Mul(a: IntUnit, b: IntUnit): (r: IntUnit)
    ensures ValidInt(r) && (r.value - a.value * b.value) % TwoTo64 == 0
  {
    IntUnit(WrapI64(a.value * b.value))
  }

  /** `/`: Rust panics on a zero divisor and on `i64::MIN / -1`, in every build. */
  function Div(a: IntUnit, b: IntUnit): (r: IntUnit)
    requires ValidInt(a) && ValidInt(b)
    requires b.value != 0 && !(a.value == I64Min && b.value == -1)
    ensures ValidInt(r)
    ensures r.value == TruncDiv(a.value, b.value)
  {
    TruncDivFits(a.value, b.value);
    IntUnit(TruncDiv(a.value, b.value))
  }

  /** The truncated quotient of two `i64`s fits in `i64` unless it is `i64::MIN / -1`. */
  lemma TruncDivFits(a: int, b: int)
    requires IsI64(a) && IsI64(b) && b != 0 && !(a == I64Min && b == -1)
    ensures IsI64(TruncDiv(a, b))
  {
    var m := Abs(a) / Abs(b);
    QuotientMagnitude(Abs(a), Abs(b));
    SignedQuotientFits(a, b, m);
    assert TruncDiv(a, b) == if (a < 0) == (b < 0) then m else -m;
  }

  /**
    A quotient magnitude no larger than the dividend's, at most half of it
    for a divisor of magnitude two or more, fits in `i64` with either sign,
    except for `i64::MIN / -1`.
  */
  lemma SignedQuotientFits(a: int, b: int, m: int)
    requires IsI64(a) && IsI64(b) && b != 0 && !(a == I64Min && b == -1)
    requires 0 <= m <= Abs(a)
    requires Abs(b) >= 2 ==> 2 * m <= Abs(a)
    requires Abs(b) == 1 ==> m == Abs(a)
    ensures IsI64(if (a < 0) == (b < 0) then m else -m)
  {
  }

  lemma QuotientMagnitude(ma: nat, mb: nat)
    requires mb >= 1
    ensures 0 <= ma / mb <= ma
    ensures mb == 1 ==> ma / mb == ma
    ensures mb >= 2 ==> 2 * (ma / mb) <= ma
  {
    if mb >= 2 {
      assert mb * (ma / mb) <= ma;
      assert 2 * (ma / mb) <= mb * (ma / mb);
    }
  }

  /** `%`: the remainder of the truncating division, with the same panics. */
  function Rem(a: IntUnit, b: IntUnit): (r: IntUnit)
    requires ValidInt(a) && ValidInt(b)
    requires b.value != 0 && !(a.value == I64Min && b.value == -1)
    ensures ValidInt(r)
    ensures a.value == b.value * TruncDiv(a.value, b.value) + r.value
  {
    TruncDivRem(a.value, b.value);
    IntUnit(TruncRem(a.value, b.value))
  }

  /** `prim + unit`: adds the primitive to the unit's inner value, the same as `unit + prim`. */
  function PrimAdd(p: int, u: IntUnit): (r: IntUnit)
    requires IsI64(p)
    ensures r == Add(u, FromNarrow(p))
  {
    IntUnit(WrapI64(p + u.value))
  }

  /** `prim - unit`: the primitive minus the unit's inner value, wrapped. */
  function PrimSub(p: int, u: IntUnit): (r: IntUnit)
    requires IsI64(p)
    ensures r == Sub(FromNarrow(p), u)
  {
    IntUnit(WrapI64(p - u.value))
  }

  /** `prim - unit` is the wrapped negation of `unit - prim`: the two add up to zero. */
  lemma PrimSubAntiCommutes(p: int, u: IntUnit)
    requires IsI64(p)
    ensures Add(PrimSub(p, u), Sub(u, FromNarrow(p))) == IntUnit(0)
  {
    var x, y := PrimSub(p, u).value, Sub(u, FromNarrow(p)).value;
    MultiplesAdd(x - (p - u.value), y - (u.value - p));
    assert (x + y) % TwoTo64 == 0;
  }

  /** The sum of two multiples of 2^64 is one. */
  lemma MultiplesAdd(a: int, b: int)
    requires a % TwoTo64 == 0 && b % TwoTo64 == 0
    ensures (a + b) % TwoTo64 == 0
  {
    var k, l := a / TwoTo64, b / TwoTo64;
    assert a == TwoTo64 * k && b == TwoTo64 * l;
    assert a + b == TwoTo64 * (k + l);
  }

  /** `prim * unit`: the same product as `unit * prim`. */
  function PrimMul(p: int, u: IntUnit): (r: IntUnit)
    requires IsI64(p)
    ensures r == Mul(u, FromNarrow(p))
  {
    IntUnit(WrapI64(p * u.value))
  }

  /**
    `prim / unit`: the primitive divided by the unit's inner value, truncated
    toward zero, with the panics of `/`.
  */
  function PrimDiv(p: int, u: IntUnit): (r: IntUnit)
    requires IsI64(p) && ValidInt(u)
    requires u.value != 0 && !(p == I64Min && u.value == -1)
    ensures r == Div(FromNarrow(p), u)
    ensures Abs(p - u.value * r.value) < Abs(u.value)
    ensures p - u.value * r.value == 0 || (p - u.value * r.value < 0 <==> p < 0)
  {
    TruncDivFits(p, u.value);
    TruncDivRem(p, u.value);
    IntUnit(TruncDiv(p, u.value))
  }

  /** When nothing overflows, the operators compute the mathematical result. */
  lemma OperatorsExact(a: IntUnit, b: IntUnit)
    ensures IsI64(a.value + b.value) ==> Add(a, b).value == a.value + b.value
    ensures IsI64(a.value - b.value) ==> Sub(a, b).value == a.value - b.value
    ensures IsI64(a.value * b.value) ==> Mul(a, b).value == a.value * b.value
  {
  }

  /** `1i64 + Millisecond(-1) == Millisecond(0)`. */
  lemma PrimPlusUnitExample()
    ensures PrimAdd(1, IntUnit(-1)) == IntUnit(0)
  {
  }

  /** `a += b` and the other compound assignments store the binary operator's result. */
  method AddAssign(a: IntUnit, b: IntUnit) returns (a': IntUnit)
    ensures a' == Add(a, b)
  {
    a' := IntUnit(WrapI64(a.value + b.value));
  }

  method SubAssign(a: IntUnit, b: IntUnit) returns (a': IntUnit)
    ensures a' == Sub(a, b)
  {
    a' := IntUnit(WrapI64(a.value - b.value));
  }

  method MulAssign(a: IntUnit, b: IntUnit) returns (a': IntUnit)
    ensures a' == Mul(a, b)
  {
    a' := IntUnit(WrapI64(a.value * b.value));
  }

  method DivAssign(a: IntUnit, b: IntUnit) returns (a': IntUnit)
    requires ValidInt(a) && ValidInt(b)
    requires b.value != 0 && !(a.value == I64Min && b.value == -1)
    ensures a' == Div(a, b)
  {
    a' := IntUnit(TruncDiv(a.value, b.value));
  }

  method RemAssign(a: IntUnit, b: IntUnit) returns (a': IntUnit)
    requires ValidInt(a) && ValidInt(b)
    requires b.value != 0 && !(a.value == I64Min && b.value == -1)
    ensures a' == Rem(a, b)
  {
    a' := IntUnit(a.value - b.value * TruncDiv(a.value, b.value));
  }

  // Unsigned units: the same conversions and operators over u64.

  /** `From<u64/u32/u16/u8>` for an unsigned unit: exact widenings. */
  function UFromNarrow(v: int): (u: UIntUnit)
    requires IsU64(v)
    ensures ValidUInt(u) && u.value == v
  {
    UIntUnit(v)
  }

  /** `From<Unit> for u64`. */
  function IntoU64(u: UIntUnit): (v: nat)
    ensures v == u.value
  {
    u.value
  }

  /** Every `u64`, `u32`, `u16` and `u8` converts to an unsigned unit holding the same number, and back. */
  lemma UNarrowConversionsExact(v: int, n: nat)
    requires n in {1, 2, 4, 8}
    requires InUnsigned(v, n)
    ensures IsU64(v) && UFromNarrow(v).value == v && IntoU64(UFromNarrow(v)) == v
  {
    I64Bounds();
    assert Pow256(n) <= Pow256(8);
  }


  function UAdd(a: UIntUnit, b: UIntUnit): (r: UIntUnit)
    ensures ValidUInt(r) && (r.value - (a.value + b.value)) % TwoTo64 == 0
  {
    UIntUnit(WrapU64(a.value + b.value))
  }

  /** Subtraction below zero wraps around to the top of the `u64` range. */
  function USub(a: UIntUnit, b: UIntUnit): (r: UIntUnit)
    ensures ValidUInt(r) && (r.value - (a.value - b.value)) % TwoTo64 == 0
    ensures ValidUInt(a) && ValidUInt(b) && a.value < b.value ==> r.value == TwoTo64 + a.value - b.value
  {
    UIntUnit(WrapU64(a.value - b.value))
  }

  function UMul(a: UIntUnit, b: UIntUnit): (r: UIntUnit)
    ensures ValidUInt(r) && (r.value - a.value * b.value) % TwoTo64 == 0
  {
    UIntUnit(WrapU64(a.value * b.value))
  }

  function UDiv(a: UIntUnit, b: UIntUnit): (r: UIntUnit)
    requires ValidUInt(a) && b.value != 0
    ensures ValidUInt(r) && r.value * b.value <= a.value < (r.value + 1) * b.value
  {
    UIntUnit(a.value / b.value)
  }

  function URem(a: UIntUnit, b: UIntUnit): (r: UIntUnit)
    requires ValidUInt(a) && b.value != 0
    ensures ValidUInt(r) && r.value < b.value && a.value == UDiv(a, b).value * b.value + r.value
  {
    UIntUnit(a.value % b.value)
  }

  /** `prim + unit` on an unsigned unit: the same sum as `unit + prim`. */
  function UPrimAdd(p: int, u: UIntUnit): (r: UIntUnit)
    requires IsU64(p)
    ensures r == UAdd(u, UFromNarrow(p))
  {
    UIntUnit(WrapU64(p + u.value))
  }

  /** `prim - unit` on an unsigned unit: the primitive minus the inner value, wrapped. */
  function UPrimSub(p: int, u: UIntUnit): (r: UIntUnit)
    requires IsU64(p)
    ensures r == USub(UFromNarrow(p), u)
  {
    UIntUnit(WrapU64(p - u.value))
  }

  /** Unsigned `prim - unit` and `unit - prim` add up to zero modulo 2^64. */
  lemma UPrimSubAntiCommutes(p: int, u: UIntUnit)
    requires IsU64(p)
    ensures UAdd(UPrimSub(p, u), USub(u, UFromNarrow(p))) == UIntUnit(0)
  {
    var x, y := UPrimSub(p, u).value, USub(u, UFromNarrow(p)).value;
    MultiplesAdd(x - (p - u.value), y - (u.value - p));
    assert (x + y) % TwoTo64 == 0;
  }

  /** `prim * unit` on an unsigned unit: the same product as `unit * prim`. */
  function UPrimMul(p: int, u: UIntUnit): (r: UIntUnit)
    requires IsU64(p)
    ensures r == UMul(u, UFromNarrow(p))
  {
    UIntUnit(WrapU64(p * u.value))
  }

  /** `prim / unit` on an unsigned unit: the floor quotient, panicking on a zero divisor. */
  function UPrimDiv(p: int, u: UIntUnit): (r: UIntUnit)
    requires IsU64(p) && u.value != 0
    ensures r == UDiv(UFromNarrow(p), u)
    ensures r.value * u.value <= p < (r.value + 1) * u.value
  {
    UIntUnit(p / u.value)
  }

  // ---------------------------------------------------------------------
  // The struct codec (`unit_structure!`, int64 and uint64 arms)

  const UnitSize: nat := 8

  /** `TYPE` of a signed unit: the schema name of an 8-byte signed field. */
  function IntUnitType(): (name: string)
    ensures FieldTypes.FromType(name, 1).Some? && FieldTypes.FromType(name, 1).value == FieldTypes.Int64(1)
    ensures FieldTypes.NamedWidth(name) == UnitSize
  {
    "int64"
  }

  /** `TYPE` of an unsigned unit: the schema name of an 8-byte unsigned field. */
  function UIntUnitType(): (name: string)
    ensures FieldTypes.FromType(name, 1).Some? && FieldTypes.FromType(name, 1).value == FieldTypes.UInt64(1)
    ensures FieldTypes.NamedWidth(name) == UnitSize
  {
    "uint64"
  }

  /** `i64::to_le_bytes`. */
  function EncodeInt(u: IntUnit): (r: seq<byte>)
    requires ValidInt(u)
    ensures |r| == UnitSize
  {
    I64Bounds();
    LeBytes(ToUnsigned(u.value, 8), 8)
  }

  /** `i64::from_le_bytes` on the 8-byte buffer. */
  function DecodeInt(s: seq<byte>): (u: IntUnit)
    requires |s| == UnitSize
    ensures ValidInt(u)
    ensures EncodeInt(u) == s
  {
    LeBytesOfValue(s);
    I64Bounds();
    UnsignedRoundTrip(LeValue(s), 8);
    IntUnit(FromUnsigned(LeValue(s), 8))
  }

  /** `u64::to_le_bytes`: the least significant byte first. */
  function EncodeUInt(u: UIntUnit): (r: seq<byte>)
    requires ValidUInt(u)
    ensures |r| == UnitSize
    ensures r[0] == u.value % 256
  {
    LeBytes(u.value, 8)
  }

  /** `u64::from_le_bytes` on the 8-byte buffer; every buffer is the image of the value it decodes to. */
  function DecodeUInt(s: seq<byte>): (u: UIntUnit)
    requires |s| == UnitSize
    ensures ValidUInt(u)
    ensures EncodeUInt(u) == s
  {
    LeBytesOfValue(s);
    UIntUnit(LeValue(s))
  }

  lemma IntRoundTrip(u: IntUnit)
    requires ValidInt(u)
    ensures DecodeInt(EncodeInt(u)) == u
  {
    I64Bounds();
    LeRoundTrip(ToUnsigned(u.value, 8), 8);
    SignedRoundTrip(u.value, 8);
  }

  lemma UIntRoundTrip(u: UIntUnit)
    requires ValidUInt(u)
    ensures DecodeUInt(EncodeUInt(u)) == u
  {
    LeRoundTrip(u.value, 8);
  }

  /** The codec is little-endian: the first byte written is the least significant. */
  lemma IntEncodingLittleEndian(u: IntUnit)
    requires ValidInt(u)
    ensures EncodeInt(u)[0] == ToUnsigned(u.value, 8) % 256
  {
  }

  /** The zero-filled buffer a failed read leaves behind decodes to zero. */
  lemma ZeroBufferIsZero()
    ensures DecodeInt(Zeros(UnitSize)) == IntUnit(0)
    ensures DecodeUInt(Zeros(UnitSize)) == UIntUnit(0)
  {
    var z := Zeros(UnitSize);
    assert LeValue(z) == 0 by {
      LeValueOfZeros(z);
    }
  }

  lemma {:induction false} LeValueOfZeros(s: seq<byte>)
    requires forall i :: 0 <= i < |s| ==> s[i] == 0
    ensures LeValue(s) == 0
  {
    if s != [] {
      LeValueOfZeros(s[1..]);
    }
  }

  /** `pack`: appends the 8 little-endian bytes. */
  method PackInt(u: IntUnit, buffer: ByteSink)
    requires ValidInt(u)
    modifies buffer
    ensures buffer.bytes == old(buffer.bytes) + EncodeInt(u)
  {
    buffer.Put(EncodeInt(u));
  }

  /**
    `unpack`: reads 8 bytes with `read_exact` and ignores its error, so on
    short input the value is decoded from the untouched zero buffer (that
    is, it is 0) and the cursor ends at the end of the input.
  */
  method UnpackInt(buffer: ByteCursor) returns (u: IntUnit)
    requires buffer.Valid()
    modifies buffer
    ensures buffer.Valid()
    ensures UnitSize <= old(buffer.Remaining()) ==>
              u == DecodeInt(buffer.data[old(buffer.pos)..old(buffer.pos) + UnitSize])
              && buffer.pos == old(buffer.pos) + UnitSize
    ensures UnitSize > old(buffer.Remaining()) ==> u == IntUnit(0) && buffer.pos == |buffer.data|
  {
    var _, valueBuffer := buffer.ReadExact(UnitSize);
    u := DecodeInt(valueBuffer);
    ZeroBufferIsZero();
  }

  method PackUInt(u: UIntUnit, buffer: ByteSink)
    requires ValidUInt(u)
    modifies buffer
    ensures buffer.bytes == old(buffer.bytes) + EncodeUInt(u)
  {
    buffer.Put(EncodeUInt(u));
  }

  method UnpackUInt(buffer: ByteCursor) returns (u: UIntUnit)
    requires buffer.Valid()
    modifies buffer
    ensures buffer.Valid()
    ensures UnitSize <= old(buffer.Remaining()) ==>
              u == DecodeUInt(buffer.data[old(buffer.pos)..old(buffer.pos) + UnitSize])
              && buffer.pos == old(buffer.pos) + UnitSize
    ensures UnitSize > old(buffer.Remaining()) ==> u == UIntUnit(0) && buffer.pos == |buffer.data|
  {
    var _, valueBuffer := buffer.ReadExact(UnitSize);
    u := DecodeUInt(valueBuffer);
    ZeroBufferIsZero();
  }
}
