/**
 * The three records the datagram is made of, each with its wire encoding:
 * the fixed IPv4 header and the type-length-value option of RFC 791,
 * section 3.1, and the ICMP Echo header of RFC 792.
 */
module Wire {
  import opened Wrappers
  import opened Bytes

  type nibble = x: int | 0 <= x < 0x10

  /** Size of the fixed IPv4 header, `sizeof(struct ip)`. */
  const IP_HEADER_SIZE: nat := 20

  /** Size of the ICMP Echo header, `sizeof(struct icmphdr)`. */
  const ICMP_HEADER_SIZE: nat := 8

  // ---------------------------------------------------------------------
  // IPv4 header
  // ---------------------------------------------------------------------

  /** The fields of `struct ip`; `fragment` holds the flags and the fragment offset. */
  datatype IpHeader = IpHeader(
    version: nibble,
    ihl: nibble,
    tos: byte,
    totalLength: u16,
    id: u16,
    fragment: u16,
    ttl: byte,
    protocol: byte,
    checksum: u16,
    src: u32,
    dst: u32)

  /** Wire offset of the header checksum field. */
  const IP_CHECKSUM_OFFSET: nat := 10

  function EncodeIpHeader(h: IpHeader): (b: seq<byte>)
    ensures |b| == IP_HEADER_SIZE
  {
    [h.version * 0x10 + h.ihl, h.tos]
    + Be16(h.totalLength) + Be16(h.id) + Be16(h.fragment)
    + [h.ttl, h.protocol] + Be16(h.checksum)
    + Be32(h.src) + Be32(h.dst)
  }

  /** The header in the first IP_HEADER_SIZE bytes of `b`. */
  function DecodeIpHeader(b: seq<byte>): IpHeader
    requires |b| >= IP_HEADER_SIZE
  {
    IpHeader(
      b[0] / 0x10, b[0] % 0x10, b[1],
      ReadBe16(b, 2), ReadBe16(b, 4), ReadBe16(b, 6),
      b[8], b[9], ReadBe16(b, IP_CHECKSUM_OFFSET),
      ReadBe32(b, 12), ReadBe32(b, 16))
  }

  lemma IpHeaderRoundTrip(h: IpHeader)
    ensures DecodeIpHeader(EncodeIpHeader(h)) == h
  {
    var b := EncodeIpHeader(h);
    Be16RoundTrip(h.totalLength);
    Be16RoundTrip(h.id);
    Be16RoundTrip(h.fragment);
    Be16RoundTrip(h.checksum);
    var front := [h.version * 0x10 + h.ihl, h.tos]
      + Be16(h.totalLength) + Be16(h.id) + Be16(h.fragment)
      + [h.ttl, h.protocol] + Be16(h.checksum);
    assert b == front + Be32(h.src) + Be32(h.dst);
    assert b[2..4] == Be16(h.totalLength);
    assert b[4..6] == Be16(h.id);
    assert b[6..8] == Be16(h.fragment);
    assert b[10..12] == Be16(h.checksum);
    assert b[12..16] == Be32(h.src);
    assert b[16..20] == Be32(h.dst);
    Be32RoundTrip(h.src);
    Be32RoundTrip(h.dst);
    ReadAt16(b, 2);
    ReadAt16(b, 4);
    ReadAt16(b, 6);
    ReadAt16(b, 10);
    ReadAt32(b, 12);
    ReadAt32(b, 16);
  }

  lemma IpHeaderBytesRoundTrip(b: seq<byte>)
    requires |b| == IP_HEADER_SIZE
    ensures EncodeIpHeader(DecodeIpHeader(b)) == b
  {
    var h := DecodeIpHeader(b);
    ReadBe16RoundTrip(b, 2);
    ReadBe16RoundTrip(b, 4);
    ReadBe16RoundTrip(b, 6);
    ReadBe16RoundTrip(b, 10);
    ReadBe32RoundTrip(b, 12);
    ReadBe32RoundTrip(b, 16);
    assert b == b[..2] + b[2..4] + b[4..6] + b[6..8] + b[8..10] + b[10..12] + b[12..16] + b[16..20];
  }

  /** Setting the checksum field of a header rewrites only its two checksum bytes. */
  lemma IpChecksumField(h: IpHeader, c: u16)
    ensures EncodeIpHeader(h.(checksum := c)) == Splice(EncodeIpHeader(h), IP_CHECKSUM_OFFSET, Be16(c))
  {
  }

  /** Setting the destination of a header rewrites only its last four bytes. */
  lemma IpDstField(h: IpHeader, v: u32)
    ensures EncodeIpHeader(h.(dst := v)) == Splice(EncodeIpHeader(h), 16, Be32(v))
  {
  }

  /** Decoding looks at the first IP_HEADER_SIZE bytes only. */
  lemma DecodeIpHeaderPrefix(b: seq<byte>)
    requires |b| >= IP_HEADER_SIZE
    ensures DecodeIpHeader(b) == DecodeIpHeader(b[..IP_HEADER_SIZE])
  {
  }

  /** Reading a field through a slice reads the same bytes. */
  lemma ReadAt16(b: seq<byte>, off: nat)
    requires off + 2 <= |b|
    ensures ReadBe16(b, off) == ReadBe16(b[off..off + 2], 0)
  {
  }

  lemma ReadAt32(b: seq<byte>, off: nat)
    requires off + 4 <= |b|
    ensures ReadBe32(b, off) == ReadBe32(b[off..off + 4], 0)
  {
  }

  // ---------------------------------------------------------------------
  // IP option (type, length, data)
  // ---------------------------------------------------------------------

  type optionClass = x: int | 0 <= x < 4
  type optionNumber = x: int | 0 <= x < 0x20

  /** An option: the type octet's copied flag, class and number, then its data. */
  datatype IpOption = IpOption(copied: bool, optionClass: optionClass, number: optionNumber, data: seq<byte>)

  /** The data fits beside the two octets of type and length in a one-octet length. */
  predicate ValidOption(o: IpOption)
  {
    |o.data| <= 0xFF - 2
  }

  /** The option-type octet: copied flag in bit 7, class in bits 6-5, number in bits 4-0. */
  function OptionType(o: IpOption): byte
  {
    (if o.copied then 0x80 else 0) + o.optionClass * 0x20 + o.number
  }

  function EncodeOption(o: IpOption): (b: seq<byte>)
    requires ValidOption(o)
    ensures |b| == 2 + |o.data|
  {
    [OptionType(o), 2 + |o.data|] + o.data
  }

  /** The option at the start of `b`, if its length octet is consistent with `b`. */
  function DecodeOption(b: seq<byte>): Option<IpOption>
  {
    if |b| < 2 || b[1] < 2 || b[1] > |b| then None
    else Some(IpOption(b[0] >= 0x80, (b[0] / 0x20) % 4, b[0] % 0x20, b[2..b[1]]))
  }

  lemma OptionRoundTrip(o: IpOption)
    requires ValidOption(o)
    ensures DecodeOption(EncodeOption(o)) == Some(o)
  {
    var b := EncodeOption(o);
    assert b[2..b[1]] == o.data;
  }

  /** A decoded option re-encodes to exactly the bytes its length octet covers. */
  lemma OptionBytesRoundTrip(b: seq<byte>)
    requires DecodeOption(b).Some?
    ensures ValidOption(DecodeOption(b).value)
    ensures EncodeOption(DecodeOption(b).value) == b[..b[1]]
  {
  }

  // ---------------------------------------------------------------------
  // ICMP Echo header
  // ---------------------------------------------------------------------

  /** The fields of `struct icmphdr` used for an Echo message. */
  datatype IcmpEcho = IcmpEcho(icmpType: byte, code: byte, checksum: u16, id: u16, sequence: u16)

  /** Offset of the checksum within the ICMP header. */
  const ICMP_CHECKSUM_OFFSET: nat := 2

  function EncodeEcho(e: IcmpEcho): (b: seq<byte>)
    ensures |b| == ICMP_HEADER_SIZE
  {
    [e.icmpType, e.code] + Be16(e.checksum) + Be16(e.id) + Be16(e.sequence)
  }

  function DecodeEcho(b: seq<byte>): IcmpEcho
    requires |b| >= ICMP_HEADER_SIZE
  {
    IcmpEcho(b[0], b[1], ReadBe16(b, ICMP_CHECKSUM_OFFSET), ReadBe16(b, 4), ReadBe16(b, 6))
  }

  lemma EchoRoundTrip(e: IcmpEcho)
    ensures DecodeEcho(EncodeEcho(e)) == e
  {
    Be16RoundTrip(e.checksum);
    Be16RoundTrip(e.id);
    Be16RoundTrip(e.sequence);
  }

  lemma EchoBytesRoundTrip(b: seq<byte>)
    requires |b| == ICMP_HEADER_SIZE
    ensures EncodeEcho(DecodeEcho(b)) == b
  {
    ReadBe16RoundTrip(b, 2);
    ReadBe16RoundTrip(b, 4);
    ReadBe16RoundTrip(b, 6);
    assert b == b[..2] + b[2..4] + b[4..6] + b[6..8];
  }

  /** Setting the checksum field of an Echo header rewrites only its two checksum bytes. */
  lemma EchoChecksumField(e: IcmpEcho, c: u16)
    ensures EncodeEcho(e.(checksum := c)) == Splice(EncodeEcho(e), ICMP_CHECKSUM_OFFSET, Be16(c))
  {
  }
}
