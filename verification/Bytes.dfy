/** Bytes, and 32-bit words stored in them. */
module Bytes {
  type byte = x: int | 0 <= x < 256

  const MAX_WORD := 0xffff_ffff

  // a 32-bit word, the least significant byte first
  function Pack(x: nat): (s: seq<byte>)
    ensures |s| == 4
  {
    [x % 256, x / 256 % 256, x / 65536 % 256, x / 16777216 % 256]
  }

  function Unpack(s: seq<byte>): nat
    requires |s| == 4
  {
    s[0] as int + 256 * s[1] as int + 65536 * s[2] as int + 16777216 * s[3] as int
  }

  lemma NextByte(x: nat, p: nat)
    requires p == 256 || p == 65536
    ensures x / p == 256 * (x / (256 * p)) + x / p % 256
  {
    assert x / p / 256 == x / (256 * p);
  }

  lemma UnpackPack(x: nat)
    requires x <= MAX_WORD
    ensures Unpack(Pack(x)) == x
  {
    NextByte(x, 256);
    NextByte(x, 65536);
    assert x / 16777216 < 256;
  }

  /** The four bytes of a word stand in the order of their weights, the least first. */
  lemma ByteOrder(s: seq<byte>)
    requires |s| == 4
    ensures Pack(s[0] as int + 0x100 * s[1] as int + 0x1_0000 * s[2] as int + 0x100_0000 * s[3] as int) == s
    ensures Unpack(s) <= MAX_WORD
  {
    var a, b, c, d: int := s[0], s[1], s[2], s[3];
    var x := a + 0x100 * b + 0x1_0000 * c + 0x100_0000 * d;
    assert x / 256 == b + 0x100 * c + 0x1_0000 * d;
    assert x / 65536 == c + 0x100 * d;
    assert x / 16777216 == d;
  }

  // data written over s at off
  function Overlay<T>(s: seq<T>, off: nat, data: seq<T>): (r: seq<T>)
    requires off + |data| <= |s|
    ensures |r| == |s|
    ensures forall k :: 0 <= k < |s| ==> r[k] == if off <= k < off + |data| then data[k - off] else s[k]
  {
    s[..off] + data + s[off + |data|..]
  }
}
