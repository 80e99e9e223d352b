/**
  Bytes and fixed-width integer encodings.

  The struct codec writes integers in two byte orders: the `bytes` crate's
  `put_*`/`get_*` calls used by the primitive impls are big-endian, while the
  integer unit codec uses `to_le_bytes`/`from_le_bytes`. Signed values travel
  as their two's-complement bit pattern.
*/
module Bytes {

  type byte = x: int | 0 <= x < 256

  /** 256^n, the number of distinct n-byte patterns. */
  function Pow256(n: nat): (r: nat)
    ensures r >= 1
  {
    if n == 0 then 1 else 256 * Pow256(n - 1)
  }

  /** Half of Pow256(n): the bound of the signed n-byte range. */
  function Half(n: nat): (r: nat)
    requires n >= 1
    ensures r >= 1 && Pow256(n) == 2 * r
  {
    128 * Pow256(n - 1)
  }

  predicate InUnsigned(v: int, n: nat) { 0 <= v < Pow256(n) }

  predicate InSigned(v: int, n: nat)
    requires n >= 1
  {
    -(Half(n) as int) <= v < Half(n)
  }

  lemma DivBound(v: nat, n: nat)
    requires n >= 1 && v < Pow256(n)
    ensures v / 256 < Pow256(n - 1)
  {
  }

  // ---------------------------------------------------------------------
  // Big-endian (most significant byte first)

  function BeBytes(v: nat, n: nat): (r: seq<byte>)
    requires v < Pow256(n)
    ensures |r| == n
  {
    if n == 0 then [] else
      DivBound(v, n);
      BeBytes(v / 256, n - 1) + [v % 256]
  }

  function BeValue(s: seq<byte>): (r: nat)
  {
    if s == [] then 0 else BeValue(s[..|s| - 1]) * 256 + s[|s| - 1]
  }

  lemma {:induction false} BeValueBound(s: seq<byte>)
    ensures BeValue(s) < Pow256(|s|)
  {
    if s != [] {
      BeValueBound(s[..|s| - 1]);
      assert BeValue(s[..|s| - 1]) <= Pow256(|s| - 1) - 1;
    }
  }

  /** Decoding a big-endian encoding gives the value back. */
  lemma {:induction false} BeRoundTrip(v: nat, n: nat)
    requires v < Pow256(n)
    ensures BeValue(BeBytes(v, n)) == v
  {
    if n > 0 {
      DivBound(v, n);
      var hi := BeBytes(v / 256, n - 1);
      assert BeBytes(v, n)[..n - 1] == hi;
      BeRoundTrip(v / 256, n - 1);
    }
  }

  /**
    The byte order of the big-endian encoding: the first byte is the most
    significant (the value's top digit in base 256) and the last byte the
    least significant.
  */
  lemma {:induction false} BeByteOrder(v: nat, n: nat)
    requires n >= 1 && v < Pow256(n)
    ensures BeBytes(v, n)[0] == v / Pow256(n - 1)
    ensures BeBytes(v, n)[n - 1] == v % 256
  {
    if n > 1 {
      DivBound(v, n);
      BeByteOrder(v / 256, n - 1);
      DivDiv(v, 256, Pow256(n - 2));
    }
  }

  /** Dividing by `a`, then by `b`, is dividing by `a * b`. */
  lemma DivDiv(v: nat, a: nat, b: nat)
    requires a > 0 && b > 0
    ensures (v / a) / b == v / (a * b)
  {
    var p := v / a;
    var q := p / b;
    EuclidStep(v, a);
    EuclidStep(p, b);
    var r := NestedRemainder(v, a, b, p, q, v % a, p % b);
    UniqueQuotient(v, a * b, q, r);
  }

  lemma EuclidStep(v: nat, a: nat)
    requires a > 0
    ensures v == a * (v / a) + v % a && 0 <= v % a < a && 0 <= v / a
  {
  }

  /** Two steps of division with remainder combine into one by the product. */
  lemma NestedRemainder(v: nat, a: nat, b: nat, p: nat, q: nat, r1: nat, r2: nat) returns (r: nat)
    requires a > 0 && b > 0
    requires v == a * p + r1 && r1 < a
    requires p == b * q + r2 && r2 < b
    ensures v == (a * b) * q + r && r < a * b
  {
    r := a * r2 + r1;
    Distribute(a, b * q, r2);
    assert a * (b * q) == (a * b) * q;
    MulMono(a, r2 + 1, b);
    Distribute(a, r2, 1);
  }

  lemma Distribute(a: nat, x: nat, y: nat)
    ensures a * (x + y) == a * x + a * y
  {
  }

  lemma MulMono(m: nat, x: nat, y: nat)
    requires x <= y
    ensures m * x <= m * y
  {
    Distribute(m, x, y - x);
  }

  /** The quotient is the unique `q` with `v == m * q + r` and `0 <= r < m`. */
  lemma UniqueQuotient(v: nat, m: nat, q: nat, r: nat)
    requires m > 0 && v == m * q + r && r < m
    ensures v / m == q
  {
    var q', r' := v / m, v % m;
    assert v == m * q' + r' && r' < m;
    if q' < q {
      MulMono(m, q' + 1, q);
      Distribute(m, q', 1);
    } else if q' > q {
      MulMono(m, q + 1, q');
      Distribute(m, q, 1);
    }
  }

  /** Encoding the value of n bytes gives the same n bytes back. */
  lemma {:induction false} BeBytesOfValue(s: seq<byte>)
    ensures BeValue(s) < Pow256(|s|) && BeBytes(BeValue(s), |s|) == s
  {
    BeValueBound(s);
    if s != [] {
      var init := s[..|s| - 1];
      BeBytesOfValue(init);
      assert s == init + [s[|s| - 1]];
    }
  }

  // ---------------------------------------------------------------------
  // Little-endian (least significant byte first)

  function LeBytes(v: nat, n: nat): (r: seq<byte>)
    requires v < Pow256(n)
    ensures |r| == n
  {
    if n == 0 then [] else
      DivBound(v, n);
      [v % 256] + LeBytes(v / 256, n - 1)
  }

  function LeValue(s: seq<byte>): (r: nat)
  {
    if s == [] then 0 else s[0] + 256 * LeValue(s[1..])
  }

  lemma {:induction false} LeValueBound(s: seq<byte>)
    ensures LeValue(s) < Pow256(|s|)
  {
    if s != [] {
      LeValueBound(s[1..]);
      assert LeValue(s[1..]) <= Pow256(|s| - 1) - 1;
    }
  }

  lemma {:induction false} LeRoundTrip(v: nat, n: nat)
    requires v < Pow256(n)
    ensures LeValue(LeBytes(v, n)) == v
  {
    if n > 0 {
      DivBound(v, n);
      var r := LeBytes(v, n);
      assert r[1..] == LeBytes(v / 256, n - 1);
      LeRoundTrip(v / 256, n - 1);
    }
  }

  lemma {:induction false} LeBytesOfValue(s: seq<byte>)
    ensures LeValue(s) < Pow256(|s|) && LeBytes(LeValue(s), |s|) == s
  {
    LeValueBound(s);
    if s != [] {
      LeBytesOfValue(s[1..]);
      LeValueBound(s[1..]);
      assert s == [s[0]] + s[1..];
    }
  }

  // ---------------------------------------------------------------------
  // Two's complement

  /** The n-byte two's-complement bit pattern of a signed value. */
  function ToUnsigned(v: int, n: nat): (u: nat)
    requires n >= 1 && InSigned(v, n)
    ensures u < Pow256(n)
    ensures (u < Half(n)) == (v >= 0)
  {
    if v < 0 then v + Pow256(n) else v
  }

  /** The signed value an n-byte two's-complement bit pattern stands for. */
  function FromUnsigned(u: nat, n: nat): (v: int)
    requires n >= 1 && u < Pow256(n)
    ensures InSigned(v, n)
  {
    if u < Half(n) then u else u - Pow256(n)
  }

  lemma SignedRoundTrip(v: int, n: nat)
    requires n >= 1 && InSigned(v, n)
    ensures FromUnsigned(ToUnsigned(v, n), n) == v
  {
  }

  lemma UnsignedRoundTrip(u: nat, n: nat)
    requires n >= 1 && u < Pow256(n)
    ensures ToUnsigned(FromUnsigned(u, n), n) == u
  {
  }
}
