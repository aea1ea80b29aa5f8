/**
 * The binary stream helpers of the geometry file utilities: each writer
 * appends the bytes of one fixed-width value in the machine's byte order
 * (little-endian here), a string is its `size_t` length followed by its
 * bytes, and a vector is its components in order. Each reader consumes
 * what its writer produced; a stream that ends early fails.
 *
 * A `float` is carried as its 32-bit pattern: the model never looks at
 * its value, only at where its four bytes go.
 */
module BinaryIo {
  import opened Wrappers
  import opened FixedWidth

  /** The bit pattern of a 32-bit `float`. */
  type F32 = U32

  datatype Vector2i = Vector2i(x: I32, y: I32)

  datatype Vector2f = Vector2f(x: F32, y: F32)

  datatype Vector3f = Vector3f(x: F32, y: F32, z: F32)

  /** A read ran past the end of the stream. */
  datatype ReadError = ShortRead

  /** A successful read: the value and the bytes after it. */
  type Read<T> = Result<(T, seq<Byte>), ReadError>

  function Pow256(w: nat): (p: nat)
    ensures p > 0
  {
    if w == 0 then 1 else 256 * Pow256(w - 1)
  }

  /** The `w` bytes of `v`, least significant first. */
  function LittleEndian(v: nat, w: nat): (r: seq<Byte>)
    requires v < Pow256(w)
    ensures |r| == w
  {
    if w == 0 then [] else [v % 256] + LittleEndian(v / 256, w - 1)
  }

  /** The value of bytes stored least significant first. */
  function FromLittleEndian(bs: seq<Byte>): (v: nat)
    ensures v < Pow256(|bs|)
  {
    if |bs| == 0 then 0 else bs[0] + 256 * FromLittleEndian(bs[1..])
  }

  /** Decoding undoes encoding... */
  lemma {:induction false} DecodeEncode(v: nat, w: nat)
    requires v < Pow256(w)
    ensures FromLittleEndian(LittleEndian(v, w)) == v
  {
    if w > 0 {
      DecodeEncode(v / 256, w - 1);
      assert LittleEndian(v, w)[1..] == LittleEndian(v / 256, w - 1);
    }
  }

  /** ... and encoding undoes decoding: a width-`w` value and its `w` bytes correspond one to one. */
  lemma {:induction false} EncodeDecode(bs: seq<Byte>)
    ensures LittleEndian(FromLittleEndian(bs), |bs|) == bs
  {
    if |bs| > 0 {
      var v := FromLittleEndian(bs);
      EncodeDecode(bs[1..]);
      assert v % 256 == bs[0] && v / 256 == FromLittleEndian(bs[1..]);
      assert bs == [bs[0]] + bs[1..];
    }
  }

  /** `file.read` of a `w`-byte value. */
  function ReadUnsigned(bs: seq<Byte>, w: nat): (r: Read<nat>)
    ensures r.Failure? <==> |bs| < w
    ensures r.Success? ==> r.value.0 < Pow256(w) && LittleEndian(r.value.0, w) == bs[..w] && r.value.1 == bs[w..]
  {
    if |bs| < w then Failure(ShortRead)
    else
      var v := FromLittleEndian(bs[..w]);
      EncodeDecode(bs[..w]);
      Success((v, bs[w..]))
  }

  /** Reading `w` bytes back after writing them gives the value and leaves what followed. */
  lemma ReadUnsignedWritten(v: nat, w: nat, rest: seq<Byte>)
    requires v < Pow256(w)
    ensures ReadUnsigned(LittleEndian(v, w) + rest, w) == Success((v, rest))
  {
    var bs := LittleEndian(v, w) + rest;
    assert bs[..w] == LittleEndian(v, w) && bs[w..] == rest;
    DecodeEncode(v, w);
  }

  lemma Widths()
    ensures Pow256(2) == 0x1_0000 && Pow256(4) == 0x1_0000_0000 && Pow256(8) == 0x1_0000_0000_0000_0000
  {
    assert Pow256(4) == 0x1_0000 * Pow256(2);
    assert Pow256(8) == 0x1_0000_0000 * Pow256(4);
  }

  // ------------------------------------------------------------------
  // Fixed-width values

  /** `write_unsigned_short`. */
  function WriteUnsignedShort(v: U16): (r: seq<Byte>)
    ensures |r| == 2
  {
    Widths();
    LittleEndian(v, 2)
  }

  /** `read_unsigned_short`. */
  function ReadUnsignedShort(bs: seq<Byte>): (r: Read<U16>)
    ensures r.Failure? <==> |bs| < 2
    ensures r.Success? ==> bs == WriteUnsignedShort(r.value.0) + r.value.1
  {
    Widths();
    var (v, rest) :- ReadUnsigned(bs, 2);
    assert bs == bs[..2] + bs[2..];
    Success((v, rest))
  }

  lemma UnsignedShortRoundTrip(v: U16, rest: seq<Byte>)
    ensures ReadUnsignedShort(WriteUnsignedShort(v) + rest) == Success((v, rest))
  {
    Widths();
    ReadUnsignedWritten(v, 2, rest);
  }

  /** `write_unsigned_int`. */
  function WriteUnsignedInt(v: U32): (r: seq<Byte>)
    ensures |r| == 4
  {
    Widths();
    LittleEndian(v, 4)
  }

  /** `read_unsigned_int`. */
  function ReadUnsignedInt(bs: seq<Byte>): (r: Read<U32>)
    ensures r.Failure? <==> |bs| < 4
    ensures r.Success? ==> bs == WriteUnsignedInt(r.value.0) + r.value.1
  {
    Widths();
    var (v, rest) :- ReadUnsigned(bs, 4);
    assert bs == bs[..4] + bs[4..];
    Success((v, rest))
  }

  lemma UnsignedIntRoundTrip(v: U32, rest: seq<Byte>)
    ensures ReadUnsignedInt(WriteUnsignedInt(v) + rest) == Success((v, rest))
  {
    Widths();
    ReadUnsignedWritten(v, 4, rest);
  }

  /** `write_size_t`, on a machine whose `size_t` is 64 bits wide. */
  function WriteSizeT(v: U64): (r: seq<Byte>)
    ensures |r| == 8
  {
    Widths();
    LittleEndian(v, 8)
  }

  /** `read_size_t`. */
  function ReadSizeT(bs: seq<Byte>): (r: Read<U64>)
    ensures r.Failure? <==> |bs| < 8
    ensures r.Success? ==> bs == WriteSizeT(r.value.0) + r.value.1
  {
    Widths();
    var (v, rest) :- ReadUnsigned(bs, 8);
    assert bs == bs[..8] + bs[8..];
    Success((v, rest))
  }

  lemma SizeTRoundTrip(v: U64, rest: seq<Byte>)
    ensures ReadSizeT(WriteSizeT(v) + rest) == Success((v, rest))
  {
    Widths();
    ReadUnsignedWritten(v, 8, rest);
  }

  /** The 32-bit two's complement pattern of an `int`. */
  function IntBits(v: I32): (u: U32)
    ensures v >= 0 ==> u == v
    ensures v < 0 ==> u >= 0x8000_0000
  {
    if v < 0 then v + 0x1_0000_0000 else v
  }

  /** The `int` a 32-bit pattern stands for. */
  function BitsInt(u: U32): (v: I32)
    ensures IntBits(v) == u
  {
    if u >= 0x8000_0000 then u - 0x1_0000_0000 else u
  }

  /** `write_int`: the value's two's complement bytes. */
  function WriteInt(v: I32): (r: seq<Byte>)
    ensures |r| == 4
  {
    WriteUnsignedInt(IntBits(v))
  }

  /** `read_int`. */
  function ReadInt(bs: seq<Byte>): (r: Read<I32>)
    ensures r.Failure? <==> |bs| < 4
    ensures r.Success? ==> bs == WriteInt(r.value.0) + r.value.1
  {
    var (u, rest) :- ReadUnsignedInt(bs);
    Success((BitsInt(u), rest))
  }

  lemma IntRoundTrip(v: I32, rest: seq<Byte>)
    ensures ReadInt(WriteInt(v) + rest) == Success((v, rest))
  {
    UnsignedIntRoundTrip(IntBits(v), rest);
  }

  /** `write_float`: the four bytes of the value's bit pattern. */
  function WriteFloat(v: F32): (r: seq<Byte>)
    ensures |r| == 4
  {
    WriteUnsignedInt(v)
  }

  /** `read_float`. */
  function ReadFloat(bs: seq<Byte>): (r: Read<F32>)
    ensures r.Failure? <==> |bs| < 4
    ensures r.Success? ==> bs == WriteFloat(r.value.0) + r.value.1
  {
    ReadUnsignedInt(bs)
  }

  lemma FloatRoundTrip(v: F32, rest: seq<Byte>)
    ensures ReadFloat(WriteFloat(v) + rest) == Success((v, rest))
  {
    UnsignedIntRoundTrip(v, rest);
  }

  // ------------------------------------------------------------------
  // Vectors

  /** `write_vector_2i`: x, then y. */
  function WriteVector2i(v: Vector2i): (r: seq<Byte>)
    ensures |r| == 8
  {
    WriteInt(v.x) + WriteInt(v.y)
  }

  /** `read_vector_2i`. */
  function ReadVector2i(bs: seq<Byte>): (r: Read<Vector2i>)
    ensures r.Failure? <==> |bs| < 8
  {
    var (x, bs1) :- ReadInt(bs);
    var (y, bs2) :- ReadInt(bs1);
    Success((Vector2i(x, y), bs2))
  }

  /** The components come back in the order they were written. */
  lemma Vector2iRoundTrip(v: Vector2i, rest: seq<Byte>)
    ensures ReadVector2i(WriteVector2i(v) + rest) == Success((v, rest))
  {
    assert WriteVector2i(v) + rest == WriteInt(v.x) + (WriteInt(v.y) + rest);
    IntRoundTrip(v.x, WriteInt(v.y) + rest);
    IntRoundTrip(v.y, rest);
  }

  /** `write_vector_2f`: x, then y. */
  function WriteVector2f(v: Vector2f): (r: seq<Byte>)
    ensures |r| == 8
  {
    WriteFloat(v.x) + WriteFloat(v.y)
  }

  /** `read_vector_2f`. */
  function ReadVector2f(bs: seq<Byte>): (r: Read<Vector2f>)
    ensures r.Failure? <==> |bs| < 8
  {
    var (x, bs1) :- ReadFloat(bs);
    var (y, bs2) :- ReadFloat(bs1);
    Success((Vector2f(x, y), bs2))
  }

  lemma Vector2fRoundTrip(v: Vector2f, rest: seq<Byte>)
    ensures ReadVector2f(WriteVector2f(v) + rest) == Success((v, rest))
  {
    assert WriteVector2f(v) + rest == WriteFloat(v.x) + (WriteFloat(v.y) + rest);
    FloatRoundTrip(v.x, WriteFloat(v.y) + rest);
    FloatRoundTrip(v.y, rest);
  }

  /** `write_vector_3f`: x, y, then z. */
  function WriteVector3f(v: Vector3f): (r: seq<Byte>)
    ensures |r| == 12
  {
    WriteFloat(v.x) + WriteFloat(v.y) + WriteFloat(v.z)
  }

  /** `read_vector_3f`. */
  function ReadVector3f(bs: seq<Byte>): (r: Read<Vector3f>)
    ensures r.Failure? <==> |bs| < 12
  {
    var (x, bs1) :- ReadFloat(bs);
    var (y, bs2) :- ReadFloat(bs1);
    var (z, bs3) :- ReadFloat(bs2);
    Success((Vector3f(x, y, z), bs3))
  }

  lemma Vector3fRoundTrip(v: Vector3f, rest: seq<Byte>)
    ensures ReadVector3f(WriteVector3f(v) + rest) == Success((v, rest))
  {
    assert WriteVector3f(v) + rest == WriteFloat(v.x) + (WriteFloat(v.y) + (WriteFloat(v.z) + rest));
    FloatRoundTrip(v.x, WriteFloat(v.y) + (WriteFloat(v.z) + rest));
    FloatRoundTrip(v.y, WriteFloat(v.z) + rest);
    FloatRoundTrip(v.z, rest);
  }

  // ------------------------------------------------------------------
  // Strings

  /** `write_string`: the length as a `size_t`, then the bytes. */
  function WriteString(s: seq<Byte>): (r: seq<Byte>)
    requires |s| < 0x1_0000_0000_0000_0000
    ensures |r| == 8 + |s| && r[8..] == s
  {
    WriteSizeT(|s|) + s
  }

  /** `read_string`: a length, then that many bytes. */
  function ReadString(bs: seq<Byte>): (r: Read<seq<Byte>>)
    ensures r.Failure? <==> |bs| < 8 || |bs| < 8 + FromLittleEndian(bs[..8])
    ensures r.Success? ==> |r.value.0| < 0x1_0000_0000_0000_0000 && bs == WriteString(r.value.0) + r.value.1
  {
    var (size, rest) :- ReadSizeT(bs);
    assert size == FromLittleEndian(bs[..8]) by {
      Widths();
      DecodeEncode(size, 8);
    }
    if |rest| < size then Failure(ShortRead)
    else
      assert rest == rest[..size] + rest[size..];
      Success((rest[..size], rest[size..]))
  }

  /** Reading a written string gives the string back and leaves what followed. */
  lemma StringRoundTrip(s: seq<Byte>, rest: seq<Byte>)
    requires |s| < 0x1_0000_0000_0000_0000
    ensures ReadString(WriteString(s) + rest) == Success((s, rest))
  {
    assert WriteString(s) + rest == WriteSizeT(|s|) + (s + rest);
    SizeTRoundTrip(|s|, s + rest);
    assert (s + rest)[..|s|] == s && (s + rest)[|s|..] == rest;
  }
}
