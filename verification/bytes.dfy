/**
 * Bytes and fixed-width unsigned integers as they appear on the wire.
 * Multi-byte fields are written in network (big-endian) byte order.
 */
module Bytes {

  type byte = x: int | 0 <= x < 0x100
  type u16 = x: int | 0 <= x < 0x1_0000
  type u32 = x: int | 0 <= x < 0x1_0000_0000

  /** `n` zero bytes, what `memset(buf, 0, n)` leaves behind. */
  function Zeros(n: nat): (z: seq<byte>)
    ensures |z| == n
    ensures forall i :: 0 <= i < n ==> z[i] == 0
  {
    seq(n, _ => 0)
  }

  predicate AllZero(b: seq<byte>)
  {
    forall i :: 0 <= i < |b| ==> b[i] == 0
  }

  /** Network-order encoding of a 16-bit value. */
  function Be16(v: u16): (b: seq<byte>)
    ensures |b| == 2
  {
    [v / 0x100, v % 0x100]
  }

  /** The 16-bit value stored in network order at `b[off..off+2]`. */
  function ReadBe16(b: seq<byte>, off: nat): u16
    requires off + 2 <= |b|
  {
    var hi: int := b[off];
    hi * 0x100 + b[off + 1]
  }

  /** Network-order encoding of a 32-bit value. */
  function Be32(v: u32): (b: seq<byte>)
    ensures |b| == 4
  {
    Be16(v / 0x1_0000) + Be16(v % 0x1_0000)
  }

  /** The 32-bit value stored in network order at `b[off..off+4]`. */
  function ReadBe32(b: seq<byte>, off: nat): u32
    requires off + 4 <= |b|
  {
    var hi: int := ReadBe16(b, off);
    hi * 0x1_0000 + ReadBe16(b, off + 2)
  }

  lemma Be16RoundTrip(v: u16)
    ensures ReadBe16(Be16(v), 0) == v
  {
  }

  lemma ReadBe16RoundTrip(b: seq<byte>, off: nat)
    requires off + 2 <= |b|
    ensures Be16(ReadBe16(b, off)) == b[off..off + 2]
  {
  }

  lemma Be32RoundTrip(v: u32)
    ensures ReadBe32(Be32(v), 0) == v
  {
  }

  lemma ReadBe32RoundTrip(b: seq<byte>, off: nat)
    requires off + 4 <= |b|
    ensures Be32(ReadBe32(b, off)) == b[off..off + 4]
  {
    var hi := ReadBe16(b, off);
    var lo := ReadBe16(b, off + 2);
    assert ReadBe32(b, off) / 0x1_0000 == hi;
    assert ReadBe32(b, off) % 0x1_0000 == lo;
  }

  /** `d` with `v` written over `d[off..off+|v|]` and every other byte kept. */
  function Splice(d: seq<byte>, off: nat, v: seq<byte>): (r: seq<byte>)
    requires off + |v| <= |d|
    ensures |r| == |d|
    ensures r[off..off + |v|] == v
    ensures forall i :: off <= i < off + |v| ==> r[i] == v[i - off]
    ensures forall i :: 0 <= i < |d| && !(off <= i < off + |v|) ==> r[i] == d[i]
  {
    d[..off] + v + d[off + |v|..]
  }

  /** A write that stays inside the first part of a concatenation leaves the second part alone. */
  lemma SpliceAppend(a: seq<byte>, o: seq<byte>, off: nat, v: seq<byte>)
    requires off + |v| <= |a|
    ensures Splice(a + o, off, v) == Splice(a, off, v) + o
  {
  }
}
