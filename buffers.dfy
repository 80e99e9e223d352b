/**
  The two byte buffers the codecs work on: a growable output buffer (the
  `bytes` crate's `BufMut`, and `Vec<u8>` in the unit codecs) and a read
  cursor over a fixed input (the `bytes` crate's `Buf`, and
  `std::io::Cursor<&[u8]>` in the unit codecs).
*/
module Buffers {
  import opened Bytes

  /** An output buffer that only ever grows at its end. */
  class ByteSink {
    var bytes: seq<byte>

    constructor ()
      ensures bytes == []
    {
      bytes := [];
    }

    /** Appends `s`; what was written before is left as it was. */
    method Put(s: seq<byte>)
      modifies this
      ensures bytes == old(bytes) + s
      ensures |bytes| == |old(bytes)| + |s|
      ensures bytes[..|old(bytes)|] == old(bytes)
    {
      bytes := bytes + s;
    }
  }

  /** `n` zero bytes: the initial contents of a `[0u8; n]` buffer. */
  function Zeros(n: nat): (r: seq<byte>)
    ensures |r| == n
    ensures forall i :: 0 <= i < n ==> r[i] == 0
  {
    if n == 0 then [] else Zeros(n - 1) + [0]
  }

  /** A read position over a fixed input. */
  class ByteCursor {
    const data: seq<byte>
    var pos: nat

    ghost predicate Valid()
      reads this
    {
      pos <= |data|
    }

    function Remaining(): (r: nat)
      reads this
      requires Valid()
      ensures r + pos == |data|
    {
      |data| - pos
    }

    constructor (input: seq<byte>)
      ensures Valid() && data == input && pos == 0
    {
      data := input;
      pos := 0;
    }

    /**
      `Buf::copy_to_slice` as the `get_*` accessors use it: the next `n`
      bytes. The `bytes` crate panics when fewer remain, so callers must
      guarantee enough input.
    */
    method Take(n: nat) returns (s: seq<byte>)
      requires Valid() && n <= Remaining()
      modifies this
      ensures Valid()
      ensures s == data[old(pos)..old(pos) + n]
      ensures pos == old(pos) + n
    {
      s := data[pos..pos + n];
      pos := pos + n;
    }

    /**
      `std::io::Read::read_exact` on a cursor over a byte slice, into a
      zero-initialised buffer of `n` bytes. With enough input it fills the
      buffer and advances by `n`; otherwise it reports failure, leaves the
      buffer untouched (all zero) and moves the cursor to the end.
    */
    method ReadExact(n: nat) returns (ok: bool, buffer: seq<byte>)
      requires Valid()
      modifies this
      ensures Valid()
      ensures ok <==> n <= old(Remaining())
      ensures ok ==> buffer == data[old(pos)..old(pos) + n] && pos == old(pos) + n
      ensures !ok ==> buffer == Zeros(n) && pos == |data|
    {
      if n <= |data| - pos {
        buffer := data[pos..pos + n];
        pos := pos + n;
        ok := true;
      } else {
        buffer := Zeros(n);
        pos := |data|;
        ok := false;
      }
    }
  }
}
