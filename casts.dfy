/**
  The integer and boolean conversions between Rust values and the value
  union. Every integer travels as an `Int` holding an `i64`: the narrower
  integer types widen into it exactly, `u64` only when it fits, and the
  way back checks the target's range and reports which side it fell off.
*/
module Casts {
  import opened Wrappers
  import opened Values
  import opened Bytes

  datatype IntType = I8 | I16 | I32 | I64 | U8 | U16 | U32 | U64

  function Min(t: IntType): int
  {
    match t
    case I8 => -0x80
    case I16 => -0x8000
    case I32 => -0x8000_0000
    case I64 => -0x8000_0000_0000_0000
    case _ => 0
  }

  function Max(t: IntType): int
  {
    match t
    case I8 => 0x7F
    case I16 => 0x7FFF
    case I32 => 0x7FFF_FFFF
    case I64 => 0x7FFF_FFFF_FFFF_FFFF
    case U8 => 0xFF
    case U16 => 0xFFFF
    case U32 => 0xFFFF_FFFF
    case U64 => 0xFFFF_FFFF_FFFF_FFFF
  }

  /** `x` is a value of the Rust type `t`. */
  predicate InRange(t: IntType, x: int)
  {
    Min(t) <= x <= Max(t)
  }

  /** The type's name as the error messages spell it. */
  function RustName(t: IntType): string
  {
    match t
    case I8 => "i8"
    case I16 => "i16"
    case I32 => "i32"
    case I64 => "i64"
    case U8 => "u8"
    case U16 => "u16"
    case U32 => "u32"
    case U64 => "u64"
  }

  /** The name of the vector type as the error messages spell it. */
  function VecName(t: IntType): string
  {
    "Vec<" + RustName(t) + ">"
  }

  /** The reason given for an integer that does not fit: decided by its sign alone. */
  function SignReason(x: int): CastErrorReason
  {
    if x < 0 then Underflow else Overflow
  }

  /** Every integer type other than `u64` lies inside `i64`. */
  lemma WideningFits(t: IntType, x: int)
    requires t != U64 && InRange(t, x)
    ensures InRange(I64, x)
  {
  }

  /** Elements that all fit in `i64` make a sequence of `i64`. */
  lemma AllFitI64(t: IntType, xs: seq<int>)
    requires t != U64 || forall i :: 0 <= i < |xs| ==> xs[i] <= Max(I64)
    requires forall i :: 0 <= i < |xs| ==> InRange(t, xs[i])
    ensures forall i :: 0 <= i < |xs| ==> -0x8000_0000_0000_0000 <= xs[i] <= 0x7FFF_FFFF_FFFF_FFFF
  {
    forall i | 0 <= i < |xs|
      ensures -0x8000_0000_0000_0000 <= xs[i] <= 0x7FFF_FFFF_FFFF_FFFF
    {
      if t != U64 {
        WideningFits(t, xs[i]);
      }
    }
  }

  // ---------------------------------------------------------------------
  // Rust integer → value

  /** `From<i64/i32/i16/i8/u32/u16/u8> for FrcValue`: an `Int` with the same number. */
  function FromInt(t: IntType, x: int): (r: FrcValue)
    requires t != U64 && InRange(t, x)
    ensures r.Int? && r.i == x
  {
    WideningFits(t, x);
    FrcValue.Int(x)
  }

  /** `TryFrom<u64> for FrcValue`: an `Int` when the value fits in `i64`, an overflow otherwise. */
  function TryFromU64(x: int): (r: Result<FrcValue, CastError>)
    requires InRange(U64, x)
    ensures r.Ok? <==> InRange(I64, x)
    ensures r.Ok? ==> r.value.Int? && r.value.i == x
    ensures r.Err? ==> r.error == InvalidCastFrom("u64", FrcType.Int, Overflow)
  {
    if x <= Max(I64) then Ok(FrcValue.Int(x))
    else Err(InvalidCastFrom("u64", FrcType.Int, Overflow))
  }

  /** `From<bool> for FrcValue`. */
  function FromBool(b: bool): (r: FrcValue)
    ensures TryIntoBool(r) == Ok(b)
  {
    FrcValue.Boolean(b)
  }

  // ---------------------------------------------------------------------
  // Value → Rust integer

  /**
    `TryFrom<FrcValue> for i64/i32/.../u8`: an `Int` in the target's range
    converts exactly. An `Int` outside it is an underflow when negative and
    an overflow otherwise, which is the same as falling below the minimum
    or above the maximum; any other variant is a type error. For `i64`
    every `Int` fits, and for `u64` only a negative one can fail.
  */
  function TryIntoInt(v: FrcValue, t: IntType): (r: Result<int, CastError>)
    ensures r.Ok? <==> v.Int? && InRange(t, v.i)
    ensures r.Ok? ==> r.value == v.i
    ensures !v.Int? ==> r == Err(InvalidCastTo(GetType(v), RustName(t), Type))
    ensures v.Int? && v.i < Min(t) ==> r == Err(InvalidCastTo(FrcType.Int, RustName(t), Underflow))
    ensures v.Int? && v.i > Max(t) ==> r == Err(InvalidCastTo(FrcType.Int, RustName(t), Overflow))
  {
    match v
    case Int(x) =>
      if t == I64 then Ok(x)
      else if t == U64 then
        if x >= 0 then Ok(x) else Err(InvalidCastTo(GetType(v), "u64", Underflow))
      else if InRange(t, x) then Ok(x)
      else Err(InvalidCastTo(GetType(v), RustName(t), SignReason(x)))
    case _ => Err(InvalidCastTo(GetType(v), RustName(t), Type))
  }

  /** `TryFrom<FrcValue> for bool`: only a `Boolean` converts. */
  function TryIntoBool(v: FrcValue): (r: Result<bool, CastError>)
    ensures r.Ok? <==> v.Boolean?
    ensures r.Ok? ==> r.value == v.b
    ensures r.Err? ==> r.error == InvalidCastTo(GetType(v), "bool", Type)
  {
    match v
    case Boolean(b) => Ok(b)
    case _ => Err(InvalidCastTo(GetType(v), "bool", Type))
  }

  /** Every integer of a type other than `u64` comes back unchanged through the value union. */
  lemma IntRoundTrip(t: IntType, x: int)
    requires t != U64 && InRange(t, x)
    ensures TryIntoInt(FromInt(t, x), t) == Ok(x)
  {
  }

  /** A `u64` that converts into a value comes back unchanged. */
  lemma U64RoundTrip(x: int)
    requires InRange(U64, x) && TryFromU64(x).Ok?
    ensures TryIntoInt(TryFromU64(x).value, U64) == Ok(x)
  {
  }

  /** `→ i64` succeeds exactly for `Int`; `→ u64` fails exactly for a non-`Int` or a negative `Int`. */
  lemma WidestTargets(v: FrcValue)
    ensures TryIntoInt(v, I64).Ok? <==> v.Int?
    ensures TryIntoInt(v, U64).Err? <==> !v.Int? || v.i < 0
    ensures v.Int? && v.i < 0 ==> TryIntoInt(v, U64).error.reason == Underflow
  {
  }

  // ---------------------------------------------------------------------
  // Vectors

  /**
    `From<Vec<i64/i32/i16/i8/u32/u16>> for FrcValue`: an `IntArray` of the
    same numbers, in order. There is no such impl for `u8`; a slice of
    bytes becomes `Raw` instead (`FromByteSlice`).
  */
  function FromIntVec(t: IntType, xs: seq<int>): (r: FrcValue)
    requires t != U64 && t != U8 && forall i :: 0 <= i < |xs| ==> InRange(t, xs[i])
    ensures r.IntArray? && r.ints == xs
  {
    AllFitI64(t, xs);
    var ints: seq<I64> := xs;
    FrcValue.IntArray(ints)
  }

  /** `From<Box<[u8]>> for FrcValue`: the bytes as a `Raw` value, not as an `IntArray`. */
  function FromByteSlice(bs: seq<byte>): (r: FrcValue)
    ensures r.Raw? && r.raw == bs
    ensures GetType(r) == FrcType.Raw && !IsArray(r)
  {
    FrcValue.Raw(bs)
  }

  /**
    `TryFrom<Vec<u64>> for FrcValue`: an `IntArray` of the same numbers
    when every one fits in `i64`; otherwise the overflow of the first one
    that does not, which is the same error whichever it is.
  */
  function TryFromU64Vec(xs: seq<int>): (r: Result<FrcValue, CastError>)
    requires forall i :: 0 <= i < |xs| ==> InRange(U64, xs[i])
    ensures r.Ok? <==> forall i :: 0 <= i < |xs| ==> InRange(I64, xs[i])
    ensures r.Ok? ==> r.value.IntArray? && r.value.ints == xs
    ensures r.Err? ==> r.error == InvalidCastFrom("u64", FrcType.Int, Overflow)
  {
    if forall i :: 0 <= i < |xs| ==> xs[i] <= Max(I64) then
      AllFitI64(U64, xs);
      var ints: seq<I64> := xs;
      Ok(FrcValue.IntArray(ints))
    else Err(InvalidCastFrom("u64", FrcType.Int, Overflow))
  }

  /** The position of the first element outside `t`'s range, if there is one. */
  function FirstOutOfRange(t: IntType, xs: seq<int>): (r: Option<nat>)
    ensures r.None? <==> forall i :: 0 <= i < |xs| ==> InRange(t, xs[i])
    ensures r.Some? ==> r.value < |xs| && !InRange(t, xs[r.value])
    ensures r.Some? ==> forall i :: 0 <= i < r.value ==> InRange(t, xs[i])
  {
    if xs == [] then None
    else if !InRange(t, xs[0]) then Some(0)
    else
      match FirstOutOfRange(t, xs[1..])
      case None => None
      case Some(k) => Some(k + 1)
  }

  /**
    What the `TryFrom<FrcValue> for Vec<int>` conversions return: the
    elements of an `IntArray` when all are in range, otherwise the error
    for the first one that is not, with the reason its sign gives; any
    other variant is a type error.
  */
  function IntsInto(v: FrcValue, t: IntType): (r: Result<seq<int>, CastError>)
    ensures r.Ok? <==> v.IntArray? && forall i :: 0 <= i < |v.ints| ==> InRange(t, v.ints[i])
    ensures r.Ok? ==> r.value == v.ints
    ensures r.Err? ==> r.error.InvalidCastTo? && r.error.fromType == GetType(v) && r.error.toName == VecName(t)
    ensures !v.IntArray? ==> r.Err? && r.error.reason == Type
    ensures v.IntArray? && r.Err? ==> r.error.reason in {Overflow, Underflow}
  {
    match v
    case IntArray(xs) =>
      (match FirstOutOfRange(t, xs)
       case None => Ok(xs)
       case Some(k) => Err(InvalidCastTo(FrcType.IntArray, VecName(t), SignReason(xs[k]))))
    case _ => Err(InvalidCastTo(GetType(v), VecName(t), Type))
  }

  /**
    `TryFrom<FrcValue> for Vec<i64/i32/.../u8>`: `Vec<i64>` takes the
    elements as they are; the narrower targets convert element by element
    and stop at the first that does not fit.
  */
  method TryIntoIntVec(v: FrcValue, t: IntType) returns (r: Result<seq<int>, CastError>)
    ensures r == IntsInto(v, t)
  {
    match v
    case IntArray(xs) =>
      if t == I64 {
        return Ok(xs);
      }
      var retVec: seq<int> := [];
      for i := 0 to |xs|
        invariant retVec == xs[..i]
        invariant forall j :: 0 <= j < i ==> InRange(t, xs[j])
      {
        var x := xs[i];
        if !InRange(t, x) {
          FirstOutOfRangeAt(t, xs, i);
          return Err(InvalidCastTo(GetType(v), VecName(t), SignReason(x)));
        }
        retVec := retVec + [x];
      }
      assert xs[..|xs|] == xs;
      r := Ok(retVec);
    case _ =>
      r := Err(InvalidCastTo(GetType(v), VecName(t), Type));
  }

  /** The first element out of range is the one the scan stops at. */
  lemma {:induction false} FirstOutOfRangeAt(t: IntType, xs: seq<int>, i: nat)
    requires i < |xs| && !InRange(t, xs[i])
    requires forall j :: 0 <= j < i ==> InRange(t, xs[j])
    ensures FirstOutOfRange(t, xs) == Some(i)
  {
    if i > 0 {
      assert InRange(t, xs[0]);
      FirstOutOfRangeAt(t, xs[1..], i - 1);
    }
  }

  /**
    The vector conversion succeeds exactly when every element fits, and
    then returns them all in order; when it fails, the reason is the one
    the first misfit's sign gives: underflow below the minimum, overflow
    above the maximum.
  */
  lemma IntsIntoMeaning(xs: seq<I64>, t: IntType)
    ensures IntsInto(FrcValue.IntArray(xs), t).Ok? <==> forall i :: 0 <= i < |xs| ==> InRange(t, xs[i])
    ensures IntsInto(FrcValue.IntArray(xs), t).Ok? ==> IntsInto(FrcValue.IntArray(xs), t).value == xs
    ensures IntsInto(FrcValue.IntArray(xs), t).Err? ==>
      exists k :: 0 <= k < |xs| && !InRange(t, xs[k]) && (forall i :: 0 <= i < k ==> InRange(t, xs[i])) &&
        IntsInto(FrcValue.IntArray(xs), t).error ==
          InvalidCastTo(FrcType.IntArray, VecName(t), if xs[k] < Min(t) then Underflow else Overflow)
  {
    var f := FirstOutOfRange(t, xs);
    if f.Some? {
      var k := f.value;
      assert xs[k] < 0 <==> xs[k] < Min(t);
    }
  }

  /** A vector of a type other than `u64` and `u8` comes back unchanged through the value union. */
  lemma {:induction false} IntVecRoundTrip(t: IntType, xs: seq<int>)
    requires t != U64 && t != U8 && forall i :: 0 <= i < |xs| ==> InRange(t, xs[i])
    ensures IntsInto(FromIntVec(t, xs), t) == Ok(xs)
  {
    var r := FromIntVec(t, xs);
    assert r.ints == xs;
  }

  /**
    Bytes do not come back: a slice of `u8` goes in as `Raw`, and the
    conversion to `Vec<u8>` accepts only an `IntArray`, so it reports a
    type error naming `Raw`, whatever the bytes.
  */
  lemma ByteSliceDoesNotComeBack(bs: seq<byte>)
    ensures IntsInto(FromByteSlice(bs), U8) == Err(InvalidCastTo(FrcType.Raw, "Vec<u8>", Type))
  {
    assert VecName(U8) == "Vec<" + "u8" + ">" == "Vec<u8>";
  }

  /** A vector of `u64` that converts into a value comes back unchanged. */
  lemma {:induction false} U64VecRoundTrip(xs: seq<int>)
    requires forall i :: 0 <= i < |xs| ==> InRange(U64, xs[i])
    requires TryFromU64Vec(xs).Ok?
    ensures IntsInto(TryFromU64Vec(xs).value, U64) == Ok(xs)
  {
  }
}
