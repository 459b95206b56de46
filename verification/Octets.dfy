/** Octets, text and the fixed-width integers of the wire format. */
module Octets {

  /** One octet. Go strings and buffers are both sequences of these. */
  type byte = x: int | 0 <= x < 256

  /** Presentation text: a Go string, byte by byte. */
  type Text = seq<byte>

  type uint16 = x: int | 0 <= x < 0x1_0000
  type uint32 = x: int | 0 <= x < 0x1_0000_0000

  const DOT: byte := 46
  const BACKSLASH: byte := 92

  /** Big-endian encoding of a 16-bit value. */
  function PutU16(v: uint16): (o: seq<byte>)
    ensures |o| == 2
  {
    [v / 256, v % 256]
  }

  /** Big-endian value of the two octets at `off`. */
  function GetU16(msg: seq<byte>, off: nat): (v: uint16)
    requires off + 2 <= |msg|
  {
    msg[off] as int * 256 + msg[off + 1]
  }

  function PutU32(v: uint32): (o: seq<byte>)
    ensures |o| == 4
  {
    PutU16(v / 0x1_0000) + PutU16(v % 0x1_0000)
  }

  function GetU32(msg: seq<byte>, off: nat): (v: uint32)
    requires off + 4 <= |msg|
  {
    GetU16(msg, off) as int * 0x1_0000 + GetU16(msg, off + 2)
  }

  lemma U16RoundTrip(v: uint16, a: seq<byte>, b: seq<byte>)
    ensures GetU16(a + PutU16(v) + b, |a|) == v
  {
    var m := a + PutU16(v) + b;
    assert m[|a|] == v / 256 && m[|a| + 1] == v % 256;
  }

  lemma U32RoundTrip(v: uint32, a: seq<byte>, b: seq<byte>)
    ensures GetU32(a + PutU32(v) + b, |a|) == v
  {
    var hi, lo := v / 0x1_0000, v % 0x1_0000;
    assert a + PutU32(v) + b == a + PutU16(hi) + (PutU16(lo) + b);
    U16RoundTrip(hi, a, PutU16(lo) + b);
    assert a + PutU32(v) + b == (a + PutU16(hi)) + PutU16(lo) + b;
    U16RoundTrip(lo, a + PutU16(hi), b);
  }
}
