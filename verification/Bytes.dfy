/** Bytes and big-endian integers. */
module Bytes {

  type Byte = b: int | 0 <= b < 256

  /** An ASCII string as bytes. */
  function Ascii(s: string): (bs: seq<Byte>)
    ensures |bs| == |s|
  {
    seq(|s|, i requires 0 <= i < |s| => if s[i] < 128 as char then s[i] as int else 0x3F)
  }

  /** `i16::from_be_bytes`. */
  function ReadI16(b0: Byte, b1: Byte): int {
    Signed(b0 * 256 + b1, 0x1_0000)
  }

  function ReadU16(b0: Byte, b1: Byte): int {
    b0 * 256 + b1
  }

  /** `i32::from_be_bytes`. */
  function ReadI32(b0: Byte, b1: Byte, b2: Byte, b3: Byte): int {
    Signed(((b0 * 256 + b1) * 256 + b2) * 256 + b3, 0x1_0000_0000)
  }

  /** Two's complement in `modulus` values. */
  function Signed(u: int, modulus: int): int {
    if 2 * u < modulus then u else u - modulus
  }

  /** The big-endian bytes of an `i16`. */
  function BeI16(v: int): (bs: seq<Byte>)
    requires -0x8000 <= v < 0x8000
    ensures |bs| == 2 && ReadI16(bs[0], bs[1]) == v
  {
    var u := if v < 0 then v + 0x1_0000 else v;
    [u / 256, u % 256]
  }

  /** The big-endian bytes of an `i32`. */
  function BeI32(v: int): (bs: seq<Byte>)
    requires -0x8000_0000 <= v < 0x8000_0000
    ensures |bs| == 4 && ReadI32(bs[0], bs[1], bs[2], bs[3]) == v
  {
    var u := if v < 0 then v + 0x1_0000_0000 else v;
    var q1 := u / 256;
    var q2 := q1 / 256;
    [q2 / 256, q2 % 256, q1 % 256, u % 256]
  }
}

/** A growable byte buffer, the `&mut Vec<u8>` the writers append to. */
module Buffers {
  import opened Bytes

  class ByteBuffer {
    var bytes: seq<Byte>

    constructor ()
      ensures bytes == []
    {
      bytes := [];
    }

    method Push(b: Byte)
      modifies this
      ensures bytes == old(bytes) + [b]
    {
      bytes := bytes + [b];
    }

    method Extend(more: seq<Byte>)
      modifies this
      ensures bytes == old(bytes) + more
    {
      bytes := bytes + more;
    }

    method Clear()
      modifies this
      ensures bytes == []
    {
      bytes := [];
    }
  }
}
