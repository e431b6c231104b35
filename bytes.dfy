/** Bytes and the 32-bit integers that the BMP headers store, laid out the
    way `memcpy` copies them on a little-endian machine. */
module Bytes {

  /** An `unsigned char`. */
  type Byte = b: int | 0 <= b < 256

  const MAX_INT32: int := 0x7FFF_FFFF
  const MIN_INT32: int := -0x8000_0000
  const TWO_32: int := 0x1_0000_0000

  /** A value of C++ `int` (32-bit two's complement). */
  predicate IsInt32(v: int) {
    MIN_INT32 <= v <= MAX_INT32
  }

  /** A value of C++ `unsigned int`. */
  predicate IsUint32(v: int) {
    0 <= v < TWO_32
  }

  /** `static_cast<unsigned char>` of a non-negative `int`: keep the low byte. */
  function ToByte(v: nat): (b: Byte)
    ensures v < 256 ==> b == v
    ensures (v - b) % 256 == 0
  {
    v % 256
  }

  /** The four bytes of an `unsigned int`, least significant first: their
      positional value in base 256 is v. */
  function EncodeU32(v: int): (s: seq<Byte>)
    requires IsUint32(v)
    ensures |s| == 4
    ensures s[0] as int + 0x100 * (s[1] as int) + 0x1_0000 * (s[2] as int) + 0x100_0000 * (s[3] as int) == v
  {
    DivByteTwice(v);
    DivByteTwice(v / 0x100);
    assert v == v % 256 + 0x100 * (v / 0x100);
    assert v / 0x100 == v / 0x100 % 256 + 0x100 * (v / 0x1_0000);
    assert v / 0x1_0000 == v / 0x1_0000 % 256 + 0x100 * (v / 0x100_0000);
    [v % 256, v / 0x100 % 256, v / 0x1_0000 % 256, v / 0x100_0000]
  }

  /** The `unsigned int` that four little-endian bytes hold. */
  function DecodeU32(s: seq<Byte>): (v: int)
    requires |s| == 4
    ensures IsUint32(v)
  {
    var b0: int, b1: int, b2: int, b3: int := s[0], s[1], s[2], s[3];
    b0 + 0x100 * b1 + 0x1_0000 * b2 + 0x100_0000 * b3
  }

  /** The bit pattern of an `int`, read as `unsigned int`. */
  function ToUnsigned(v: int): (u: int)
    requires IsInt32(v)
    ensures IsUint32(u) && (u - v) % TWO_32 == 0
  {
    if v < 0 then v + TWO_32 else v
  }

  /** The `int` whose bit pattern is the `unsigned int` u. */
  function ToSigned(u: int): (v: int)
    requires IsUint32(u)
    ensures IsInt32(v) && (u - v) % TWO_32 == 0
  {
    if u <= MAX_INT32 then u else u - TWO_32
  }

  /** The four bytes `memcpy` copies out of an `int`. */
  function EncodeI32(v: int): (s: seq<Byte>)
    requires IsInt32(v)
    ensures |s| == 4
    ensures s[3] >= 0x80 <==> v < 0
  {
    EncodeU32(ToUnsigned(v))
  }

  /** The `int` that `memcpy` assembles from four bytes. */
  function DecodeI32(s: seq<Byte>): (v: int)
    requires |s| == 4
    ensures IsInt32(v)
    ensures v < 0 <==> s[3] >= 0x80
  {
    ToSigned(DecodeU32(s))
  }

  /** Decoding undoes encoding for every `unsigned int`. */
  lemma DecodeEncodeU32(v: int)
    requires IsUint32(v)
    ensures DecodeU32(EncodeU32(v)) == v
  {
  }

  /** Encoding undoes decoding for every four bytes: the two are a bijection. */
  lemma EncodeDecodeU32(s: seq<Byte>)
    requires |s| == 4
    ensures EncodeU32(DecodeU32(s)) == s
  {
    var b0: int, b1: int, b2: int, b3: int := s[0], s[1], s[2], s[3];
    var v := DecodeU32(s);
    var q1 := b1 + 0x100 * b2 + 0x1_0000 * b3;
    var q2 := b2 + 0x100 * b3;
    DivModByte(v, q1, b0);
    DivModByte(q1, q2, b1);
    DivModByte(q2, b3, b2);
    DivByteTwice(v);
    DivByteTwice(v / 0x100);
    assert v / 0x1_0000 == q2;
    assert v / 0x100_0000 == v / 0x100 / 0x1_0000 == q1 / 0x1_0000 == b3;
  }

  /** Signed decoding undoes signed encoding for every `int`. */
  lemma DecodeEncodeI32(v: int)
    requires IsInt32(v)
    ensures DecodeI32(EncodeI32(v)) == v
  {
    DecodeEncodeU32(ToUnsigned(v));
  }

  /** Signed encoding undoes signed decoding for every four bytes. */
  lemma EncodeDecodeI32(s: seq<Byte>)
    requires |s| == 4
    ensures EncodeI32(DecodeI32(s)) == s
  {
    EncodeDecodeU32(s);
  }

  /** A non-negative `int` has the same bytes as the `unsigned int` of that value. */
  lemma EncodeI32NonNegative(v: int)
    requires 0 <= v <= MAX_INT32
    ensures EncodeI32(v) == EncodeU32(v)
  {
  }

  lemma DivModByte(v: int, q: int, r: int)
    requires 0 <= r < 0x100 && v == r + 0x100 * q
    ensures v / 0x100 == q && v % 0x100 == r
  {
  }

  lemma DivByteTwice(v: int)
    requires 0 <= v
    ensures v / 0x100 / 0x100 == v / 0x1_0000
    ensures v / 0x100 / 0x1_0000 == v / 0x100_0000
  {
  }
}
