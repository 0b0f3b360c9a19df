/** Octets and big-endian integers, as every wire format here writes them. */
module Bytes {

  type Byte = b: int | 0 <= b < 256
  type uint16 = n: int | 0 <= n < 0x1_0000
  type uint32 = n: int | 0 <= n < 0x1_0000_0000

  function U16(v: uint16): (b: seq<Byte>)
    ensures |b| == 2
  {
    [v / 256, v % 256]
  }

  function U32(v: uint32): (b: seq<Byte>)
    ensures |b| == 4
  {
    U16(v / 0x1_0000) + U16(v % 0x1_0000)
  }

  function Val16(p: seq<Byte>): uint16
    requires |p| >= 2
  {
    p[0] as int * 256 + p[1] as int
  }

  function Val32(p: seq<Byte>): uint32
    requires |p| >= 4
  {
    Val16(p) as int * 0x1_0000 + Val16(p[2..]) as int
  }

  lemma ReadU16(v: uint16, rest: seq<Byte>)
    ensures Val16(U16(v) + rest) == v && (U16(v) + rest)[2..] == rest
  {
  }

  lemma ReadU32(v: uint32, rest: seq<Byte>)
    ensures Val32(U32(v) + rest) == v && (U32(v) + rest)[4..] == rest
  {
    var hi, lo := v / 0x1_0000, v % 0x1_0000;
    assert U32(v) + rest == U16(hi) + (U16(lo) + rest);
    ReadU16(hi, U16(lo) + rest);
    ReadU16(lo, rest);
  }

  /** Most significant octet first. */
  lemma BigEndian(v: uint32)
    ensures var b := U32(v);
            ((b[0] as int * 256 + b[1] as int) * 256 + b[2] as int) * 256 + b[3] as int == v
    ensures v < 0x1_0000 ==> U16(v)[0] as int * 256 + U16(v)[1] as int == v
  {
  }

  lemma Val32OfU32(v: uint32)
    ensures Val32(U32(v)) == v
  {
    ReadU32(v, []);
    assert U32(v) + [] == U32(v);
  }
}
