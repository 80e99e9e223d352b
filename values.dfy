/**
  The value union that carries data through the FRC data pipes: one
  variant per wire type, a type tag for each, and the boundary between
  values and `FrcStructure` types (a struct value stores the packed bytes
  of one structure, a struct array the bytes of several, back to back).

  Floating-point payloads are kept as their IEEE-754 bit patterns; no
  arithmetic is done on them here.
*/
module Values {
  import opened Wrappers
  import opened Bytes
  import opened Buffers
  import Structures
  import Registry

  /** Rust's `i64`. */
  type I64 = x: int | -0x8000_0000_0000_0000 <= x <= 0x7FFF_FFFF_FFFF_FFFF

  /** Rust's `u64`, the width of a timestamp. */
  type U64 = x: int | 0 <= x <= 0xFFFF_FFFF_FFFF_FFFF

  /** The type tag of a value: one per variant, in the variant's own name. */
  datatype FrcType =
    | Void | Raw | Boolean | Int | Double | Float | String
    | BooleanArray | IntArray | FloatArray | DoubleArray | StringArray
    | Struct | StructArray

  /** The packed bytes of one or more structures and the descriptor of their type. */
  datatype StructureBytes = StructureBytes(desc: Registry.StructDesc, count: nat, data: seq<byte>)

  datatype FrcValue =
    | Void
    | Raw(raw: seq<byte>)
    | Boolean(b: bool)
    | Int(i: I64)
    | Double(dbits: nat)
    | Float(fbits: nat)
    | String(s: string)
    | BooleanArray(bools: seq<bool>)
    | IntArray(ints: seq<I64>)
    | FloatArray(floats: seq<nat>)
    | DoubleArray(doubles: seq<nat>)
    | StringArray(strings: seq<string>)
    | Struct(sb: StructureBytes)
    | StructArray(sb: StructureBytes)

  datatype CastErrorReason = Type | Overflow | Underflow | Deserialization

  /**
    The cast error: a value of one tag could not become the named Rust type
    (`InvalidCastTo`), or a Rust value of the named type could not become a
    value of the given tag (`InvalidCastFrom`).
  */
  datatype CastError =
    | InvalidCastTo(fromType: FrcType, toName: string, reason: CastErrorReason)
    | InvalidCastFrom(fromName: string, toType: FrcType, reason: CastErrorReason)
    | UnrepresentableCast

  // ---------------------------------------------------------------------
  // Tags and emptiness

  /** `get_type`: the tag of the variant `v` is built with. */
  function GetType(v: FrcValue): (t: FrcType)
    ensures IsArrayType(t) <==> v.BooleanArray? || v.IntArray? || v.FloatArray? || v.DoubleArray?
                                || v.StringArray? || v.StructArray?
    ensures t == FrcType.Void <==> v.Void?
    ensures t == FrcType.Raw <==> v.Raw?
    ensures t == FrcType.Struct <==> v.Struct?
  {
    match v
    case Void => FrcType.Void
    case Boolean(_) => FrcType.Boolean
    case Int(_) => FrcType.Int
    case Double(_) => FrcType.Double
    case Float(_) => FrcType.Float
    case String(_) => FrcType.String
    case BooleanArray(_) => FrcType.BooleanArray
    case IntArray(_) => FrcType.IntArray
    case FloatArray(_) => FrcType.FloatArray
    case DoubleArray(_) => FrcType.DoubleArray
    case StringArray(_) => FrcType.StringArray
    case Raw(_) => FrcType.Raw
    case Struct(_) => FrcType.Struct
    case StructArray(_) => FrcType.StructArray
  }

  /** The tags of the collection types; `Raw` is not one of them. */
  predicate IsArrayType(t: FrcType)
  {
    t in {FrcType.BooleanArray, FrcType.IntArray, FrcType.FloatArray,
          FrcType.DoubleArray, FrcType.StringArray, FrcType.StructArray}
  }

  /**
    How many items a value holds, for the variants that hold a sequence:
    characters, elements, bytes (for both struct variants, the packed
    bytes). Single values have no length.
  */
  function Length(v: FrcValue): Option<nat>
  {
    match v
    case Raw(r) => Some(|r|)
    case String(s) => Some(|s|)
    case BooleanArray(a) => Some(|a|)
    case IntArray(a) => Some(|a|)
    case FloatArray(a) => Some(|a|)
    case DoubleArray(a) => Some(|a|)
    case StringArray(a) => Some(|a|)
    case Struct(sb) => Some(|sb.data|)
    case StructArray(sb) => Some(|sb.data|)
    case _ => None
  }

  /** `empty`: the value that stands for nothing. */
  function Empty(): (v: FrcValue)
    ensures GetType(v) == FrcType.Void && IsEmpty(v) && !IsArray(v)
  {
    FrcValue.Void
  }

  /** `is_empty`: `Void` is empty; a sequence-holding value when it holds nothing; a single value never. */
  function IsEmpty(v: FrcValue): (b: bool)
    ensures b <==> v.Void? || Length(v) == Some(0)
  {
    match v
    case Void => true
    case String(s) => |s| == 0
    case BooleanArray(a) => |a| == 0
    case IntArray(a) => |a| == 0
    case DoubleArray(a) => |a| == 0
    case FloatArray(a) => |a| == 0
    case StringArray(a) => |a| == 0
    case Raw(r) => |r| == 0
    case Struct(sb) => |sb.data| == 0
    case StructArray(sb) => |sb.data| == 0
    case _ => false
  }

  /** `is_array`: true exactly for the values whose tag is a collection tag. */
  function IsArray(v: FrcValue): (b: bool)
    ensures b <==> IsArrayType(GetType(v))
    ensures v.Raw? ==> !b
  {
    v.BooleanArray? || v.IntArray? || v.DoubleArray? || v.FloatArray?
    || v.StringArray? || v.StructArray?
  }

  /** `default_value`: a zero or empty value of the given type, or nothing for `Void` and the struct types. */
  function DefaultValue(t: FrcType): (r: Option<FrcValue>)
    ensures r.None? <==> t in {FrcType.Void, FrcType.Struct, FrcType.StructArray}
  {
    match t
    case Boolean => Some(FrcValue.Boolean(false))
    case Int => Some(FrcValue.Int(0))
    case Double => Some(FrcValue.Double(0))
    case Float => Some(FrcValue.Float(0))
    case String => Some(FrcValue.String(""))
    case BooleanArray => Some(FrcValue.BooleanArray([]))
    case IntArray => Some(FrcValue.IntArray([]))
    case FloatArray => Some(FrcValue.FloatArray([]))
    case DoubleArray => Some(FrcValue.DoubleArray([]))
    case StringArray => Some(FrcValue.StringArray([]))
    case Raw => Some(FrcValue.Raw([]))
    case _ => None
  }

  /**
    A default value has the type it was asked for; it is empty exactly
    when that type holds a sequence, and is an array exactly when the type
    is a collection type.
  */
  lemma DefaultValueHasType(t: FrcType)
    requires DefaultValue(t).Some?
    ensures GetType(DefaultValue(t).value) == t
    ensures IsEmpty(DefaultValue(t).value) <==> Length(DefaultValue(t).value).Some?
    ensures IsArray(DefaultValue(t).value) <==> IsArrayType(t)
  {
  }

  /** The tag of a default value asks for the same default value again. */
  lemma DefaultValueOfItsType(v: FrcValue)
    requires DefaultValue(GetType(v)).Some?
    ensures DefaultValue(GetType(DefaultValue(GetType(v)).value)) == DefaultValue(GetType(v))
  {
    DefaultValueHasType(GetType(v));
  }

  // ---------------------------------------------------------------------
  // Structures in and out

  /** What `from_struct` builds: the type's descriptor, a count of one, and the packed bytes. */
  function StructValue(l: Structures.Layout, x: Structures.Value): (r: FrcValue)
    requires Structures.WellTyped(l, x)
    ensures r.Struct? && r.sb.count == 1 && |r.sb.data| == Structures.Size(l)
    ensures r.sb.desc == Structures.Description(l)
  {
    FrcValue.Struct(StructureBytes(Structures.Description(l), 1, Structures.Encode(l, x)))
  }

  /** `from_struct`: packs `x` into a fresh buffer and wraps it with the type's descriptor. */
  method FromStruct(l: Structures.Layout, x: Structures.Value) returns (r: FrcValue)
    requires Structures.WellTyped(l, x)
    ensures r == StructValue(l, x)
  {
    var buffer := new ByteSink();
    Structures.Pack(l, x, buffer);
    r := FrcValue.Struct(StructureBytes(Structures.Description(l), 1, buffer.bytes));
  }

  /**
    `try_into_struct`: a struct value whose data is exactly `SIZE` bytes
    unpacks to a structure; a struct value of another length is a
    deserialization error and any other variant a type error. Neither the
    stored descriptor nor the count is consulted.
  */
  function TryIntoStruct(v: FrcValue, l: Structures.Layout): (r: Result<Structures.Value, CastError>)
    ensures r.Ok? <==> v.Struct? && |v.sb.data| == Structures.Size(l)
    ensures r.Ok? ==> Structures.WellTyped(l, r.value)
    ensures r.Err? ==> r.error == InvalidCastTo(GetType(v), Structures.TypeName(l),
                                                if v.Struct? then Deserialization else Type)
  {
    match v
    case Struct(sb) =>
      if |sb.data| == Structures.Size(l) then Ok(Structures.Decode(l, sb.data))
      else Err(InvalidCastTo(FrcType.Struct, Structures.TypeName(l), Deserialization))
    case _ => Err(InvalidCastTo(GetType(v), Structures.TypeName(l), Type))
  }

  /** `try_into_struct(from_struct(x)) == Ok(x)` whenever `x`'s `char`s fit in a byte. */
  lemma StructRoundTrip(l: Structures.Layout, x: Structures.Value)
    requires Structures.WellTyped(l, x) && Structures.CharsFit(l, x)
    ensures TryIntoStruct(StructValue(l, x), l) == Ok(x)
  {
    Structures.RoundTrip(l, x);
  }

  /** Only the packed bytes matter to `try_into_struct`: any descriptor and count give the same result. */
  lemma TryIntoStructIgnoresDescriptor(l: Structures.Layout, a: StructureBytes, b: StructureBytes)
    requires a.data == b.data
    ensures TryIntoStruct(FrcValue.Struct(a), l) == TryIntoStruct(FrcValue.Struct(b), l)
  {
  }

  /** What `from_struct_array` builds: the descriptor, the number of structures, and their packed bytes in order. */
  function StructArrayValue(l: Structures.Layout, xs: seq<Structures.Value>): (r: FrcValue)
    requires forall i {:trigger Structures.WellTyped(l, xs[i])} :: 0 <= i < |xs| ==> Structures.WellTyped(l, xs[i])
    ensures r.StructArray? && r.sb.count == |xs| && |r.sb.data| == Structures.Times(Structures.Size(l), |xs|)
    ensures r.sb.desc == Structures.Description(l)
  {
    FrcValue.StructArray(StructureBytes(Structures.Description(l), |xs|, Structures.EncodeArray(l, xs)))
  }

  /** `from_struct_array`: packs every structure into one buffer, in order. */
  method FromStructArray(l: Structures.Layout, xs: seq<Structures.Value>) returns (r: FrcValue)
    requires forall i {:trigger Structures.WellTyped(l, xs[i])} :: 0 <= i < |xs| ==> Structures.WellTyped(l, xs[i])
    ensures r == StructArrayValue(l, xs)
  {
    var buffer := new ByteSink();
    for i := 0 to |xs|
      invariant buffer.bytes == Structures.EncodeArray(l, xs[..i])
    {
      PackNext(l, xs, i, buffer);
    }
    assert xs[..|xs|] == xs;
    r := FrcValue.StructArray(StructureBytes(Structures.Description(l), |xs|, buffer.bytes));
  }

  /** One pass of `from_struct_array`'s loop: structure `i` is packed after the first `i`. */
  method PackNext(l: Structures.Layout, xs: seq<Structures.Value>, i: nat, buffer: ByteSink)
    requires i < |xs| && forall j {:trigger Structures.WellTyped(l, xs[j])} :: 0 <= j < |xs| ==> Structures.WellTyped(l, xs[j])
    requires buffer.bytes == Structures.EncodeArray(l, xs[..i])
    modifies buffer
    ensures buffer.bytes == Structures.EncodeArray(l, xs[..i + 1])
  {
    assert xs[..i + 1][..i] == xs[..i];
    Structures.Pack(l, xs[i], buffer);
  }

  /** `n` is a whole number of `k`-byte chunks. */
  lemma ChunkCount(k: nat, n: nat)
    requires k > 0 && n % k == 0
    ensures Structures.Times(k, n / k) == n
  {
    Structures.TimesIsProduct(k, n / k);
  }

  /**
    What `try_into_struct_array` returns: for struct-array data that is a
    whole number of `SIZE`-byte chunks, one structure per chunk, in order;
    otherwise a deserialization error, and a type error for any other
    variant. The stored count and descriptor are not consulted. A `SIZE`
    of zero makes the source divide by zero, so it is excluded.
  */
  function IntoStructArray(v: FrcValue, l: Structures.Layout): (r: Result<seq<Structures.Value>, CastError>)
    requires v.StructArray? ==> Structures.Size(l) > 0
    ensures r.Ok? <==> v.StructArray? && |v.sb.data| % Structures.Size(l) == 0
    ensures r.Ok? ==> |r.value| == |v.sb.data| / Structures.Size(l)
    ensures r.Err? ==> r.error == InvalidCastTo(GetType(v), Structures.TypeName(l),
                                                if v.StructArray? then Deserialization else Type)
  {
    match v
    case StructArray(sb) =>
      var k := Structures.Size(l);
      if |sb.data| % k == 0 then
        ChunkCount(k, |sb.data|);
        Ok(Structures.DecodeArray(l, |sb.data| / k, sb.data))
      else Err(InvalidCastTo(FrcType.StructArray, Structures.TypeName(l), Deserialization))
    case _ => Err(InvalidCastTo(GetType(v), Structures.TypeName(l), Type))
  }

  /** `try_into_struct_array`: unpacks structures from the front of the data until none is left. */
  method TryIntoStructArray(v: FrcValue, l: Structures.Layout) returns (r: Result<seq<Structures.Value>, CastError>)
    requires v.StructArray? ==> Structures.Size(l) > 0
    ensures r == IntoStructArray(v, l)
  {
    var frcType := GetType(v);
    match v
    case StructArray(sb) =>
      var data := sb.data;
      var k := Structures.Size(l);
      if |data| % k == 0 {
        var cursor := new ByteCursor(data);
        var values: seq<Structures.Value> := [];
        while cursor.pos < |data|
          invariant cursor.Valid() && cursor.data == data
          invariant cursor.pos == Structures.Times(k, |values|)
          invariant values == Structures.DecodeArray(l, |values|, data[..cursor.pos])
          decreases |data| - cursor.pos
        {
          values := UnpackNext(l, values, cursor);
        }
        assert data[..cursor.pos] == data;
        IntoStructArrayOfWholeChunks(v, l, |values|);
        r := Ok(values);
      } else {
        r := Err(InvalidCastTo(frcType, Structures.TypeName(l), Deserialization));
      }
    case _ =>
      r := Err(InvalidCastTo(frcType, Structures.TypeName(l), Type));
  }

  /** One pass of `try_into_struct_array`'s loop: the next chunk becomes the next structure. */
  method UnpackNext(l: Structures.Layout, values: seq<Structures.Value>, cursor: ByteCursor)
    returns (values': seq<Structures.Value>)
    requires Structures.Size(l) > 0 && cursor.Valid() && cursor.pos < |cursor.data|
    requires |cursor.data| % Structures.Size(l) == 0
    requires cursor.pos == Structures.Times(Structures.Size(l), |values|)
    requires values == Structures.DecodeArray(l, |values|, cursor.data[..cursor.pos])
    modifies cursor
    ensures cursor.Valid() && cursor.pos == Structures.Times(Structures.Size(l), |values'|)
    ensures cursor.pos > old(cursor.pos)
    ensures values' == Structures.DecodeArray(l, |values'|, cursor.data[..cursor.pos])
  {
    ghost var mid := cursor.pos;
    ChunkFits(Structures.Size(l), |values|, |cursor.data|);
    var x := Structures.Unpack(l, cursor);
    Structures.ArrayNextChunk(l, cursor.data, 0, |values|, mid, values, x);
    assert cursor.data[0..mid] == cursor.data[..mid];
    assert cursor.data[0..cursor.pos] == cursor.data[..cursor.pos];
    values' := values + [x];
  }

  /** Before the end of a whole number of chunks, a whole chunk is left. */
  lemma ChunkFits(k: nat, m: nat, n: nat)
    requires k > 0 && n % k == 0 && Structures.Times(k, m) < n
    ensures Structures.Times(k, m) + k <= n
  {
    ChunkCount(k, n);
    TimesGap(k, n / k, m);
    TimesGap(k, m, n / k);
  }

  /** A larger count of chunks takes at least one more chunk of room. */
  lemma {:induction false} TimesGap(k: nat, a: nat, b: nat)
    ensures a < b ==> Structures.Times(k, a) + k <= Structures.Times(k, b)
    decreases b
  {
    if a + 1 < b {
      TimesGap(k, a, b - 1);
    }
  }

  /** `q` whole chunks of `k` bytes and `r < k` bytes more: `q` is the quotient and `r` the remainder. */
  lemma DivOfTimes(k: nat, q: nat, r: nat)
    requires k > 0 && r < k
    ensures (Structures.Times(k, q) + r) / k == q && (Structures.Times(k, q) + r) % k == r
  {
    var n := Structures.Times(k, q) + r;
    Structures.TimesIsProduct(k, n / k);
    assert n == Structures.Times(k, n / k) + n % k;
    TimesGap(k, q, n / k);
    TimesGap(k, n / k, q);
  }

  /**
    `try_into_struct_array(from_struct_array(xs)) == Ok(xs)` for a type of
    nonzero size whose `char`s fit in a byte.
  */
  lemma StructArrayRoundTrip(l: Structures.Layout, xs: seq<Structures.Value>)
    requires Structures.Size(l) > 0
    requires forall i :: 0 <= i < |xs| ==> Structures.WellTyped(l, xs[i]) && Structures.CharsFit(l, xs[i])
    ensures IntoStructArray(StructArrayValue(l, xs), l) == Ok(xs)
  {
    var v := StructArrayValue(l, xs);
    IntoStructArrayOfWholeChunks(v, l, |xs|);
    Structures.ArrayRoundTrip(l, xs);
  }

  /** Data of exactly `n` structures' worth of bytes decodes as `n` chunks. */
  lemma IntoStructArrayOfWholeChunks(v: FrcValue, l: Structures.Layout, n: nat)
    requires v.StructArray? && Structures.Size(l) > 0
    requires |v.sb.data| == Structures.Times(Structures.Size(l), n)
    ensures IntoStructArray(v, l) == Ok(Structures.DecodeArray(l, n, v.sb.data))
  {
    DivOfTimes(Structures.Size(l), n, 0);
  }

  // ---------------------------------------------------------------------
  // Timestamped values

  /** A value with the time (in microseconds) it was taken at. */
  datatype TimestampedValue = TimestampedValue(timestamp: U64, value: FrcValue)

  /** `is_after_timestamp`: strictly later than `ts`. */
  function IsAfterTimestamp(tv: TimestampedValue, ts: U64): (b: bool)
    ensures b ==> tv.timestamp != ts && ts < 0xFFFF_FFFF_FFFF_FFFF
  {
    tv.timestamp > ts
  }

  /** `is_after_other`: strictly later than `other`. */
  function IsAfterOther(tv: TimestampedValue, other: TimestampedValue): (b: bool)
    ensures b == IsAfterTimestamp(tv, other.timestamp)
  {
    tv.timestamp > other.timestamp
  }

  /** `is_before_timestamp`: strictly earlier than `ts`. */
  function IsBeforeTimestamp(tv: TimestampedValue, ts: U64): (b: bool)
    ensures b ==> ts > 0 && !IsAfterTimestamp(tv, ts)
  {
    tv.timestamp < ts
  }

  /** `is_before_other`: strictly earlier than `other`. */
  function IsBeforeOther(tv: TimestampedValue, other: TimestampedValue): (b: bool)
    ensures b == IsAfterOther(other, tv)
  {
    tv.timestamp < other.timestamp
  }

  /**
    The comparisons are a strict order: after is before with the sides
    swapped, nothing is both, equal timestamps are neither, unequal ones
    are one or the other, and comparing against a value is comparing
    against its timestamp.
  */
  lemma TimestampOrder(a: TimestampedValue, b: TimestampedValue)
    ensures IsAfterOther(a, b) <==> IsBeforeOther(b, a)
    ensures !(IsAfterOther(a, b) && IsBeforeOther(a, b))
    ensures a.timestamp == b.timestamp <==> !IsAfterOther(a, b) && !IsBeforeOther(a, b)
    ensures IsAfterOther(a, b) == IsAfterTimestamp(a, b.timestamp)
    ensures IsBeforeOther(a, b) == IsBeforeTimestamp(a, b.timestamp)
  {
  }

  /** Being later is transitive. */
  lemma AfterTransitive(a: TimestampedValue, b: TimestampedValue, c: TimestampedValue)
    requires IsAfterOther(a, b) && IsAfterOther(b, c)
    ensures IsAfterOther(a, c)
  {
  }
}
