/**
 * Bytes and the little-endian integer layouts that encoding/binary writes:
 * binary.Write of a uint16 or uint32 with binary.LittleEndian, and the
 * Uint16/Uint32 readers that Decode uses on slices of the buffer.
 */
module Bytes {

  newtype byte = x: int | 0 <= x < 256

  const TwoTo16: int := 0x1_0000
  const TwoTo32: int := 0x1_0000_0000

  /**
   * The uint32 conversions of the encoder. For an int (a length) Go keeps
   * the value modulo 2^32. For a float64 (a position) the result is the
   * value itself when it lies in [0, 2^32) and is left to the
   * implementation otherwise; this model takes the value modulo 2^32 there
   * too, and nothing proved depends on it, since the round trip (Fits)
   * only covers positions in range.
   */
  function Trunc32(x: int): (r: nat)
    ensures r < TwoTo32
    ensures 0 <= x < TwoTo32 ==> r == x
  {
    x % TwoTo32
  }

  /** Go's conversion of an integer to uint16: the value modulo 2^16. */
  function Trunc16(x: int): (r: nat)
    ensures r < TwoTo16
    ensures 0 <= x < TwoTo16 ==> r == x
  {
    x % TwoTo16
  }

  /** The two bytes of a uint16, least significant first. */
  function U16(x: nat): (b: seq<byte>)
    requires x < TwoTo16
    ensures |b| == 2
  {
    [(x % 256) as byte, (x / 256) as byte]
  }

  /** The four bytes of a uint32, least significant first. */
  function U32(x: nat): (b: seq<byte>)
    requires x < TwoTo32
    ensures |b| == 4
  {
    [(x % 256) as byte, (x / 256 % 256) as byte, (x / 0x1_0000 % 256) as byte, (x / 0x100_0000) as byte]
  }

  /** binary.LittleEndian.Uint16 of the first two bytes of b. */
  function ReadU16(b: seq<byte>): (x: nat)
    requires |b| >= 2
    ensures x < TwoTo16
  {
    b[0] as int + 256 * b[1] as int
  }

  /** binary.LittleEndian.Uint32 of the first four bytes of b. */
  function ReadU32(b: seq<byte>): (x: nat)
    requires |b| >= 4
    ensures x < TwoTo32
  {
    b[0] as int + 256 * b[1] as int + 0x1_0000 * b[2] as int + 0x100_0000 * b[3] as int
  }

  /** Reading back a written uint16 gives the value, whatever follows it. */
  lemma ReadU16Written(x: nat, rest: seq<byte>)
    requires x < TwoTo16
    ensures ReadU16(U16(x) + rest) == x
  {
    assert (U16(x) + rest)[..2] == U16(x);
  }

  /** Reading back a written uint32 gives the value, whatever follows it. */
  lemma ReadU32Written(x: nat, rest: seq<byte>)
    requires x < TwoTo32
    ensures ReadU32(U32(x) + rest) == x
  {
    var b := U32(x) + rest;
    assert b[0] == U32(x)[0] && b[1] == U32(x)[1] && b[2] == U32(x)[2] && b[3] == U32(x)[3];
    var q1 := x / 256;
    var q2 := q1 / 256;
    var q3 := q2 / 256;
    assert x / 0x1_0000 == q2 && x / 0x100_0000 == q3;
    assert x == x % 256 + 256 * (q1 % 256) + 0x1_0000 * (q2 % 256) + 0x100_0000 * q3;
  }
}
