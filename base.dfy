/** Basic types shared by the Huffman codec model: the signed `char` of the
    plain text, the unsigned byte of the archive, the fixed 4-byte encoding of
    a header frequency, and the outcome of reading a stream. */
module Base {

  /** A C++ `char` on the source's platform: signed, so that the ordering of a
      `std::map<char, int>` runs from -128 up to 127. */
  type Char = x: int | -128 <= x < 128

  /** One byte of the archive stream (`uint8_t`), as its unsigned value. */
  type Byte = x: int | 0 <= x < 256

  datatype Option<T> = None | Some(value: T)

  /** Ways a read can go wrong. `EndOfInput` is the `std::ifstream::failure`
      raised when the archive ends before the decoder has what it needs;
      `NegativeTotal` is a header whose frequencies add up to less than zero. */
  datatype Error = EndOfInput | NegativeTotal

  datatype Result<T> = Ok(value: T) | Err(error: Error)

  /** The byte that `out.write(&ch, 1)` puts in the stream: the two's
      complement bit pattern of the character. */
  function CharToByte(c: Char): (b: Byte)
    ensures c >= 0 ==> b == c
    ensures c < 0 ==> b == c + 256
  {
    c % 256
  }

  /** The character that `in.read(&ch, 1)` takes from a byte. */
  function ByteToChar(b: Byte): (c: Char)
    ensures CharToByte(c) == b
  {
    if b < 128 then b else b - 256
  }

  lemma CharByteRoundTrip(c: Char)
    ensures ByteToChar(CharToByte(c)) == c
  {
  }

  const TwoTo31: int := 0x8000_0000
  const TwoTo32: int := 0x1_0000_0000

  /** A value a 32-bit signed `int` can hold. */
  predicate IsInt32(v: int) {
    -TwoTo31 <= v < TwoTo31
  }

  /** The four bytes of a 32-bit `int`, least significant first.  The source
      writes the native representation; this model fixes little-endian. */
  function EncodeInt32(v: int): (r: seq<Byte>)
    ensures |r| == 4
    ensures IsInt32(v) ==> DecodeInt32(r) == v
  {
    var u := v % TwoTo32;
    var q1 := u / 256;
    var q2 := q1 / 256;
    var q3 := q2 / 256;
    Int32Digits(v, u, q1, q2, q3);
    var r := [ToByte(u % 256), ToByte(q1 % 256), ToByte(q2 % 256), ToByte(q3)];
    DecodeDigits(r, u % 256, q1 % 256, q2 % 256, q3);
    r
  }

  function ToByte(x: int): (b: Byte)
    requires 0 <= x < 256
    ensures Val(b) == x
  {
    x
  }

  /** The unsigned value of a byte. */
  function Val(b: Byte): (n: nat)
    ensures n < 256
  {
    b
  }

  lemma DecodeDigits(r: seq<Byte>, d0: int, d1: int, d2: int, d3: int)
    requires |r| == 4
    requires Val(r[0]) == d0 && Val(r[1]) == d1 && Val(r[2]) == d2 && Val(r[3]) == d3
    ensures DecodeInt32(r) == (var u := d0 + 256 * d1 + 65536 * d2 + 16777216 * d3;
                               if u < TwoTo31 then u else u - TwoTo32)
  {
  }

  /** The base-256 digits of `v % 2^32` put back together give `v` whenever
      `v` is a 32-bit value. */
  lemma Int32Digits(v: int, u: int, q1: int, q2: int, q3: int)
    requires u == v % TwoTo32 && q1 == u / 256 && q2 == q1 / 256 && q3 == q2 / 256
    ensures 0 <= q3 < 256
    ensures u == u % 256 + 256 * (q1 % 256) + 65536 * (q2 % 256) + 16777216 * q3
    ensures IsInt32(v) ==> (if u < TwoTo31 then u else u - TwoTo32) == v
  {
    assert u == 256 * q1 + u % 256;
    assert q1 == 256 * q2 + q1 % 256;
    assert q2 == 256 * q3 + q2 % 256;
  }

  /** The `int` that `in.read((char *)&tmp, 4)` assembles from four bytes. */
  function DecodeInt32(b: seq<Byte>): (v: int)
    requires |b| == 4
    ensures IsInt32(v)
  {
    var u := Val(b[0]) + 256 * Val(b[1]) + 65536 * Val(b[2]) + 16777216 * Val(b[3]);
    if u < TwoTo31 then u else u - TwoTo32
  }
}
