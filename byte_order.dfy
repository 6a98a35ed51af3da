/** Fixed-width unsigned integers written as bytes. The source exposes the
    header's memory image, so its bytes are in the host's native order; the
    order is a parameter here rather than a hidden platform property. */
module ByteOrder {

  datatype Endian = LittleEndian | BigEndian

  /** The bytes of a `u16`, in the given order. */
  function U16Bytes(x: bv16, e: Endian): (r: seq<bv8>)
    ensures |r| == 2
  {
    var le := [(x & 0xFF) as bv8, (x >> 8) as bv8];
    if e.LittleEndian? then le else [le[1], le[0]]
  }

  /** Reads a `u16` back from two bytes; the inverse of `U16Bytes`. */
  function U16FromBytes(b: seq<bv8>, e: Endian): (x: bv16)
    requires |b| == 2
    ensures U16Bytes(x, e) == b
  {
    var (lo, hi) := if e.LittleEndian? then (b[0], b[1]) else (b[1], b[0]);
    ((hi as bv16) << 8) | (lo as bv16)
  }

  /** The bytes of a `u32`, in the given order. */
  function U32Bytes(x: bv32, e: Endian): (r: seq<bv8>)
    ensures |r| == 4
  {
    var le := [(x & 0xFF) as bv8, ((x >> 8) & 0xFF) as bv8, ((x >> 16) & 0xFF) as bv8, (x >> 24) as bv8];
    if e.LittleEndian? then le else [le[3], le[2], le[1], le[0]]
  }

  /** Reads a `u32` back from four bytes; the inverse of `U32Bytes`. */
  function U32FromBytes(b: seq<bv8>, e: Endian): (x: bv32)
    requires |b| == 4
    ensures U32Bytes(x, e) == b
  {
    var le := if e.LittleEndian? then b else [b[3], b[2], b[1], b[0]];
    ((le[3] as bv32) << 24) | ((le[2] as bv32) << 16) | ((le[1] as bv32) << 8) | (le[0] as bv32)
  }

  /** Two `u16` values with the same bytes are equal. */
  lemma U16BytesInjective(x: bv16, y: bv16, e: Endian)
    requires U16Bytes(x, e) == U16Bytes(y, e)
    ensures x == y
  {
    var b := U16Bytes(x, e);
    var (lo, hi) := if e.LittleEndian? then (b[0], b[1]) else (b[1], b[0]);
    assert x & 0xFF == lo as bv16 == y & 0xFF;
    assert x & 0xFF00 == (hi as bv16) << 8 == y & 0xFF00;
  }

  /** Two `u32` values with the same bytes are equal. */
  lemma U32BytesInjective(x: bv32, y: bv32, e: Endian)
    requires U32Bytes(x, e) == U32Bytes(y, e)
    ensures x == y
  {
    var b := U32Bytes(x, e);
    var le := if e.LittleEndian? then b else [b[3], b[2], b[1], b[0]];
    assert x & 0xFF == le[0] as bv32 == y & 0xFF;
    assert x & 0xFF00 == (le[1] as bv32) << 8 == y & 0xFF00;
    assert x & 0xFF_0000 == (le[2] as bv32) << 16 == y & 0xFF_0000;
    assert x & 0xFF00_0000 == (le[3] as bv32) << 24 == y & 0xFF00_0000;
  }

  /** Writing then reading a `u16` gives it back. */
  lemma U16RoundTrip(x: bv16, e: Endian)
    ensures U16FromBytes(U16Bytes(x, e), e) == x
  {
    U16BytesInjective(U16FromBytes(U16Bytes(x, e), e), x, e);
  }

  /** Writing then reading a `u32` gives it back. */
  lemma U32RoundTrip(x: bv32, e: Endian)
    ensures U32FromBytes(U32Bytes(x, e), e) == x
  {
    U32BytesInjective(U32FromBytes(U32Bytes(x, e), e), x, e);
  }
}
