/** The byte layout used by Hadoop's `ByteWritable` and `IntWritable`: one byte, and a 32-bit
    integer as four big-endian bytes, in two's complement, written to a `java.io.DataOutput`
    and read back from a `java.io.DataInput`. The streams are modelled as byte sequences. */
module BinaryIO {
  import opened Wrappers
  import opened KotlinText

  /** One unsigned octet on the wire. */
  type UInt8 = x: int | 0 <= x < 0x100

  /** `DataOutput.writeByte(v)`: the low eight bits of `v`. */
  function ByteOf(v: int): UInt8 {
    v % 0x100
  }

  /** `DataInput.readByte()`: an octet read as a signed byte. */
  function SignedByte(b: UInt8): Int8 {
    if b > BYTE_MAX then b - 0x100 else b
  }

  lemma ByteRoundTrip(v: Int8, b: UInt8)
    ensures SignedByte(ByteOf(v)) == v
    ensures ByteOf(SignedByte(b)) == b
  {
  }

  /** `DataOutput.writeInt(v)`: the two's complement of `v`, most significant byte first. */
  function IntBytes(v: Int32): (bs: seq<UInt8>)
    ensures |bs| == 4
  {
    var u := v % TWO_32;
    var a := u / 0x100;
    var c := a / 0x100;
    [c / 0x100, c % 0x100, a % 0x100, u % 0x100]
  }

  /** `DataInput.readInt()`: four big-endian bytes read as a signed 32-bit integer. */
  function IntOfBytes(bs: seq<UInt8>): Int32
    requires |bs| == 4
  {
    var u: int := ((bs[0] as int * 0x100 + bs[1]) * 0x100 + bs[2]) * 0x100 + bs[3];
    if u > INT_MAX then u - TWO_32 else u
  }

  lemma IntRoundTrip(v: Int32)
    ensures IntOfBytes(IntBytes(v)) == v
  {
    var u := v % TWO_32;
    var a := u / 0x100;
    var c := a / 0x100;
    var bs := IntBytes(v);
    assert bs[0] as int * 0x100 + bs[1] == c;
    assert c * 0x100 + bs[2] == a;
    assert a * 0x100 + bs[3] == u;
    assert v < 0 ==> u == v + TWO_32;
  }

  lemma IntBytesRoundTrip(bs: seq<UInt8>)
    requires |bs| == 4
    ensures IntBytes(IntOfBytes(bs)) == bs
  {
    var c: int := bs[0] as int * 0x100 + bs[1];
    var a: int := c * 0x100 + bs[2];
    var u: int := a * 0x100 + bs[3];
    var v := IntOfBytes(bs);
    assert v % TWO_32 == u;
    assert u / 0x100 == a && u % 0x100 == bs[3];
    assert a / 0x100 == c && a % 0x100 == bs[2];
    assert c / 0x100 == bs[0] && c % 0x100 == bs[1];
  }

  /** A `java.io.DataOutput`: the bytes written so far. */
  class DataOutput {
    var bytes: seq<UInt8>

    constructor ()
      ensures bytes == []
    {
      bytes := [];
    }

    method WriteByte(v: int)
      modifies this
      ensures bytes == old(bytes) + [ByteOf(v)]
    {
      bytes := bytes + [ByteOf(v)];
    }

    method WriteInt(v: Int32)
      modifies this
      ensures bytes == old(bytes) + IntBytes(v)
    {
      bytes := bytes + IntBytes(v);
    }
  }

  /** A `java.io.DataInput`: the bytes not read yet. A read past the end is an `EOFException`,
      returned here as `None`; `readInt` has then consumed whatever was left. */
  class DataInput {
    var rest: seq<UInt8>

    constructor (bytes: seq<UInt8>)
      ensures rest == bytes
    {
      rest := bytes;
    }

    method ReadByte() returns (r: Option<Int8>)
      modifies this
      ensures old(rest) == [] ==> r == None && rest == []
      ensures old(rest) != [] ==> r == Some(SignedByte(old(rest)[0])) && rest == old(rest)[1..]
    {
      if rest == [] {
        r := None;
      } else {
        r := Some(SignedByte(rest[0]));
        rest := rest[1..];
      }
    }

    method ReadInt() returns (r: Option<Int32>)
      modifies this
      ensures |old(rest)| < 4 ==> r == None && rest == []
      ensures |old(rest)| >= 4 ==> r == Some(IntOfBytes(old(rest)[..4])) && rest == old(rest)[4..]
    {
      if |rest| < 4 {
        r := None;
        rest := [];
      } else {
        r := Some(IntOfBytes(rest[..4]));
        rest := rest[4..];
      }
    }
  }
}
