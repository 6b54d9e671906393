/**
 * What the datagram built by `main` satisfies: the option encoding, the
 * header-length and total-length fields agreeing with the layout, the fixed
 * field values, and two checksums a receiver accepts.
 */
module DatagramProperties {
  import opened Wrappers
  import opened Bytes
  import opened Checksum
  import opened Wire
  import opened Datagram

  /** The type octet `25|0x80` is the copied flag, class 0 and option number 25. */
  lemma OptionTypeOctet(s: nat)
    requires 2 <= s <= 0xFF
    ensures OPTION_TYPE == 0x99
    ensures OPTION_TYPE == OptionType(BloomOption(s))
  {
  }

  /**
   * For any size from 2 to 255 the option encoder yields exactly `s` bytes:
   * the type octet with its copied bit set, the length `s`, and zero data;
   * and these bytes decode back to the Bloom filter option.
   */
  lemma BloomOptionEncoding(s: nat)
    requires 2 <= s <= 0xFF
    ensures |EncodeOption(BloomOption(s))| == s
    ensures EncodeOption(BloomOption(s))[0] == OPTION_TYPE >= 0x80
    ensures EncodeOption(BloomOption(s))[1] == s
    ensures AllZero(EncodeOption(BloomOption(s))[2..])
    ensures DecodeOption(EncodeOption(BloomOption(s))) == Some(BloomOption(s))
  {
    var b := EncodeOption(BloomOption(s));
    assert b[2..] == Zeros(s - 2);
    OptionRoundTrip(BloomOption(s));
  }

  /**
   * The 4-bit header-length field counts the header exactly when the
   * option size is valid, and for no other size that leaves room for the
   * option's type and length octets.
   */
  lemma HeaderLengthExact(s: nat)
    requires 2 <= s
    ensures 4 * HeaderLengthField(s) == IP_HEADER_SIZE + s <==> ValidOptionSize(s)
  {
  }

  /**
   * Sizes the field cannot express: 42 bytes are described as 60, and 44
   * bytes wrap the field to 0.
   */
  lemma HeaderLengthOverflow()
    ensures HeaderLengthField(42) == 15 && 4 * HeaderLengthField(42) != IP_HEADER_SIZE + 42
    ensures HeaderLengthField(44) == 0
  {
  }

  /** Lines 123-146 leave the option in place and the ICMP region zero. */
  lemma UnchecksummedLayout(s: nat, src: u32, dst: u32)
    requires ValidOptionSize(s)
    ensures Unchecksummed(s, src, dst)[IP_HEADER_SIZE..IcmpOffset(s)] == EncodeOption(BloomOption(s))
    ensures AllZero(Unchecksummed(s, src, dst)[IcmpOffset(s)..])
    ensures ReadBe16(Unchecksummed(s, src, dst), IP_CHECKSUM_OFFSET) == 0
  {
    var d := Unchecksummed(s, src, dst);
    var d1 := PutOption(ZeroFill(s), s);
    assert d == PutIpFields(d1, s, src, dst);
    assert d[IP_HEADER_SIZE..IcmpOffset(s)] == d1[IP_HEADER_SIZE..IcmpOffset(s)];
    ReadAt16(d, IP_CHECKSUM_OFFSET);
    ReadAt16(EncodeIpHeader(IpFields(s, src, dst)), IP_CHECKSUM_OFFSET);
  }

  /**
   * The IP checksum stage: over `ip_len >> 1` words it yields the checksum of
   * the header and option alone, because every byte after them is zero;
   * written into the header, it makes the header and option checksum to 0.
   */
  lemma IpChecksumStage(d: seq<byte>, s: nat)
    requires ValidOptionSize(s) && |d| == DatagramSize(s)
    requires ReadBe16(d, 2) == |d|
    requires ReadBe16(d, IP_CHECKSUM_OFFSET) == 0
    requires AllZero(d[IcmpOffset(s)..])
    ensures IpChecksumOf(d) == Csum(Words(d[..IcmpOffset(s)]))
    ensures Csum(Words(PutIpChecksum(d)[..IcmpOffset(s)])) == 0
  {
    var I := IcmpOffset(s);
    assert d[..2 * (ReadBe16(d, 2) / 2)] == d;
    assert d == d[..I] + d[I..];
    WordsAppend(d[..I], d[I..]);
    WordsOfZeros(d[I..]);
    CsumIgnoresTrailingZeros(Words(d[..I]), Words(d[I..]));
    var c := IpChecksumOf(d);
    var r := PutIpChecksum(d);
    assert r[..I] == Splice(d[..I], IP_CHECKSUM_OFFSET, Be16(c));
    WordsSplice(d[..I], IP_CHECKSUM_OFFSET, c);
    CsumVerifies(Words(d[..I]), IP_CHECKSUM_OFFSET / 2);
  }

  /** The ICMP checksum stage: the Echo header with its checksum written checksums to 0. */
  lemma IcmpChecksumStage(d: seq<byte>, s: nat)
    requires ValidOptionSize(s) && |d| == DatagramSize(s)
    requires ReadBe16(d, IcmpOffset(s) + ICMP_CHECKSUM_OFFSET) == 0
    ensures Csum(Words(PutIcmpChecksum(d, s)[IcmpOffset(s)..])) == 0
  {
    var I := IcmpOffset(s);
    var c := IcmpChecksumOf(d, s);
    var r := PutIcmpChecksum(d, s);
    assert r[I..] == Splice(d[I..], ICMP_CHECKSUM_OFFSET, Be16(c));
    WordsSplice(d[I..], ICMP_CHECKSUM_OFFSET, c);
    CsumVerifies(Words(d[I..]), ICMP_CHECKSUM_OFFSET / 2);
  }

  /** After line 149, header and option checksum to 0. */
  lemma IpPartVerifies(s: nat, src: u32, dst: u32)
    requires ValidOptionSize(s)
    ensures Csum(Words(BuildIpPart(s, src, dst)[..IcmpOffset(s)])) == 0
  {
    UnchecksummedLayout(s, src, dst);
    IpChecksumStage(Unchecksummed(s, src, dst), s);
  }

  /** The IP part after line 149: the header with its checksum, then the option. */
  lemma IpPartLayout(s: nat, src: u32, dst: u32)
    requires ValidOptionSize(s)
    ensures BuildIpPart(s, src, dst)[..IP_HEADER_SIZE]
            == EncodeIpHeader(IpFields(s, src, dst).(checksum := HeaderChecksum(s, src, dst)))
    ensures BuildIpPart(s, src, dst)[IP_HEADER_SIZE..IcmpOffset(s)] == EncodeOption(BloomOption(s))
  {
    var d := Unchecksummed(s, src, dst);
    var r := BuildIpPart(s, src, dst);
    var c := HeaderChecksum(s, src, dst);
    UnchecksummedLayout(s, src, dst);
    IpChecksumField(IpFields(s, src, dst), c);
    assert r[..IP_HEADER_SIZE] == Splice(d[..IP_HEADER_SIZE], IP_CHECKSUM_OFFSET, Be16(c));
    assert r[IP_HEADER_SIZE..IcmpOffset(s)] == d[IP_HEADER_SIZE..IcmpOffset(s)];
  }

  /**
   * The header of the finished datagram: version 4, a header length that
   * ends exactly where the ICMP header starts, a total length equal to the
   * buffer size, the fixed TOS, id, offset, TTL and protocol, the given
   * addresses, and the checksum computed at line 149.
   */
  lemma BuildIpHeader(s: nat, src: u32, dst: u32)
    requires ValidOptionSize(s)
    ensures DecodeIpHeader(Build(s, src, dst)).version == 4
    ensures DecodeIpHeader(Build(s, src, dst)).ihl == 5 + s / 4
    ensures 4 * DecodeIpHeader(Build(s, src, dst)).ihl == IcmpOffset(s)
    ensures DecodeIpHeader(Build(s, src, dst)).totalLength == |Build(s, src, dst)| == IcmpOffset(s) + ICMP_HEADER_SIZE
    ensures DecodeIpHeader(Build(s, src, dst)).tos == 0
    ensures DecodeIpHeader(Build(s, src, dst)).id == 0
    ensures DecodeIpHeader(Build(s, src, dst)).fragment == 0
    ensures DecodeIpHeader(Build(s, src, dst)).ttl == 127
    ensures DecodeIpHeader(Build(s, src, dst)).protocol == 1
    ensures DecodeIpHeader(Build(s, src, dst)).checksum == HeaderChecksum(s, src, dst)
    ensures DecodeIpHeader(Build(s, src, dst)).src == src
    ensures DecodeIpHeader(Build(s, src, dst)).dst == dst
  {
    var d := Build(s, src, dst);
    IpPartLayout(s, src, dst);
    assert d[..IP_HEADER_SIZE] == BuildIpPart(s, src, dst)[..IP_HEADER_SIZE];
    DecodeIpHeaderPrefix(d);
    IpHeaderRoundTrip(IpFields(s, src, dst).(checksum := HeaderChecksum(s, src, dst)));
  }

  /** Bytes [20, 20+s) of the finished datagram are the option: 0x99, `s`, then zeros. */
  lemma BuildOption(s: nat, src: u32, dst: u32)
    requires ValidOptionSize(s)
    ensures Build(s, src, dst)[IP_HEADER_SIZE] == 0x99
    ensures Build(s, src, dst)[IP_HEADER_SIZE + 1] == s
    ensures AllZero(Build(s, src, dst)[IP_HEADER_SIZE + 2..IcmpOffset(s)])
    ensures DecodeOption(Build(s, src, dst)[IP_HEADER_SIZE..IcmpOffset(s)]) == Some(BloomOption(s))
  {
    var d := Build(s, src, dst);
    IpPartLayout(s, src, dst);
    BloomOptionEncoding(s);
    OptionTypeOctet(s);
    assert d[IP_HEADER_SIZE..IcmpOffset(s)] == BuildIpPart(s, src, dst)[IP_HEADER_SIZE..IcmpOffset(s)];
    assert d[IP_HEADER_SIZE + 2..IcmpOffset(s)] == EncodeOption(BloomOption(s))[2..];
  }

  /** A region that checksums to 0 still does in any buffer that starts with the same bytes. */
  lemma VerifiedPrefix(a: seq<byte>, b: seq<byte>, n: nat)
    requires n <= |a| && n <= |b|
    requires a[..n] == b[..n]
    requires Csum(Words(b[..n])) == 0
    ensures Csum(Words(a[..n])) == 0
  {
  }

  /** Header and option of the finished datagram checksum to 0. */
  lemma HeaderRegionVerifies(s: nat, src: u32, dst: u32)
    requires ValidOptionSize(s)
    ensures Csum(Words(Build(s, src, dst)[..IcmpOffset(s)])) == 0
  {
    IpPartVerifies(s, src, dst);
    VerifiedPrefix(Build(s, src, dst), BuildIpPart(s, src, dst), IcmpOffset(s));
  }

  /**
   * A receiver summing the `4 * ihl` header bytes of the finished datagram
   * gets 0: the header-length field covers exactly header and option.
   */
  lemma IpChecksumValid(s: nat, src: u32, dst: u32)
    requires ValidOptionSize(s)
    ensures 4 * DecodeIpHeader(Build(s, src, dst)).ihl == IcmpOffset(s)
    ensures Csum(Words(Build(s, src, dst)[..4 * DecodeIpHeader(Build(s, src, dst)).ihl])) == 0
  {
    BuildIpHeader(s, src, dst);
    HeaderRegionVerifies(s, src, dst);
  }

  /** The checksum of the Echo header fields in network byte order. */
  lemma EchoChecksumValue()
    ensures Csum(Words(EncodeEcho(ECHO_FIELDS))) == 0xF7CC
  {
    var ws := Words(EncodeEcho(ECHO_FIELDS));
    assert ws == [0x0800, 0, 0x0012, 0x0021];
    assert Sum([0x0021]) == 0x0021;
    assert Sum([0x0012, 0x0021]) == 0x0033;
    assert Sum([0, 0x0012, 0x0021]) == 0x0033;
    assert Sum(ws) == 0x0833;
    AccumulateExact(0, ws);
  }

  /** The eight bytes of the Echo header in network byte order, as a big-endian host sends them. */
  lemma FinalEchoBytes()
    ensures EncodeEcho(FinalEcho()) == [8, 0, 0xF7, 0xCC, 0, 18, 0, 33]
  {
    EchoChecksumValue();
  }

  /**
   * A little-endian host sends other Echo bytes: `id` and `sequence` appear
   * byte-swapped and the checksum is 0xFFC4 stored low byte first. A
   * receiver summing them in network order still gets 0.
   */
  lemma HostOrderEchoBytes()
    ensures HostOrderEcho() == [8, 0, 0xC4, 0xFF, 18, 0, 33, 0]
    ensures HostOrderEcho() != EncodeEcho(FinalEcho())
    ensures Csum(Words(HostOrderEcho())) == 0
  {
    var e := HostOrderEcho();
    FinalEchoBytes();
    var ws := Words(e);
    assert ws == [0x0800, 0xC4FF, 0x1200, 0x2100];
    assert OnesSum([0x2100]) == 0x2100;
    assert OnesSum([0x1200, 0x2100]) == 0x3300;
    assert OnesSum([0xC4FF, 0x1200, 0x2100]) == 0xF7FF;
    assert OnesSum(ws) == 0xFFFF;
  }

  /**
   * The ICMP header of the finished datagram: Echo request (type 8, code 0),
   * id 18, sequence 33, and a checksum of 0xF7CC whatever the addresses;
   * a receiver summing its eight bytes gets 0.
   */
  lemma BuildEcho(s: nat, src: u32, dst: u32)
    requires ValidOptionSize(s)
    ensures DecodeEcho(Build(s, src, dst)[IcmpOffset(s)..]) == IcmpEcho(8, 0, 0xF7CC, 18, 33)
    ensures Csum(Words(Build(s, src, dst)[IcmpOffset(s)..])) == 0
  {
    EchoChecksumValue();
    EchoRoundTrip(FinalEcho());
    var e := EncodeEcho(ECHO_FIELDS);
    assert e[2] == 0 && e[3] == 0;
    var ws := Words(e);
    CsumVerifies(ws, 1);
    EchoChecksumField(ECHO_FIELDS, 0xF7CC);
    WordsSplice(e, ICMP_CHECKSUM_OFFSET, 0xF7CC);
  }

  /** Changing the addresses leaves the ICMP header, checksum included, byte for byte the same. */
  lemma IcmpIndependentOfAddresses(s: nat, src: u32, dst: u32, src': u32, dst': u32)
    requires ValidOptionSize(s)
    ensures Build(s, src, dst)[IcmpOffset(s)..] == Build(s, src', dst')[IcmpOffset(s)..]
    ensures ReadBe16(Build(s, src, dst), IcmpOffset(s) + ICMP_CHECKSUM_OFFSET)
            == ReadBe16(Build(s, src', dst'), IcmpOffset(s) + ICMP_CHECKSUM_OFFSET)
  {
    SameTailSameField(Build(s, src, dst), Build(s, src', dst'), IcmpOffset(s), IcmpOffset(s) + ICMP_CHECKSUM_OFFSET);
  }

  lemma SameTailSameField(a: seq<byte>, b: seq<byte>, n: nat, off: nat)
    requires n <= off && off + 2 <= |a| == |b|
    requires a[n..] == b[n..]
    ensures ReadBe16(a, off) == ReadBe16(b, off)
  {
    assert a[off] == a[n..][off - n] && a[off + 1] == a[n..][off + 1 - n];
    assert b[off] == b[n..][off - n] && b[off + 1] == b[n..][off + 1 - n];
  }

  /** The bytes the IP checksum covers: the header with a zero checksum, then the option. */
  function HeaderRegion(s: nat, src: u32, dst: u32): (b: seq<byte>)
    requires ValidOptionSize(s)
    ensures |b| == IcmpOffset(s)
  {
    EncodeIpHeader(IpFields(s, src, dst)) + EncodeOption(BloomOption(s))
  }

  /** Before line 149 the buffer starts with the header region. */
  lemma UnchecksummedRegion(s: nat, src: u32, dst: u32)
    requires ValidOptionSize(s)
    ensures Unchecksummed(s, src, dst)[..IcmpOffset(s)] == HeaderRegion(s, src, dst)
  {
    var u := Unchecksummed(s, src, dst);
    UnchecksummedLayout(s, src, dst);
    assert u[..IcmpOffset(s)] == u[..IP_HEADER_SIZE] + u[IP_HEADER_SIZE..IcmpOffset(s)];
  }

  /** The header region for destination `dst` is the one for destination 0 with `dst` written at offset 16. */
  lemma RegionWithDst(s: nat, src: u32, dst: u32)
    requires ValidOptionSize(s)
    ensures HeaderRegion(s, src, dst) == Splice(HeaderRegion(s, src, 0), 16, Be32(dst))
  {
    var h0 := IpFields(s, src, 0);
    assert IpFields(s, src, dst) == h0.(dst := dst);
    IpDstField(h0, dst);
    SpliceAppend(EncodeIpHeader(h0), EncodeOption(BloomOption(s)), 16, Be32(dst));
  }

  /** The destination adds its two 16-bit halves to the sum of the header words. */
  lemma RegionSumWithDst(s: nat, src: u32, dst: u32)
    requires ValidOptionSize(s)
    ensures Sum(Words(HeaderRegion(s, src, dst)))
            == Sum(Words(HeaderRegion(s, src, 0))) + dst / 0x1_0000 + dst % 0x1_0000
  {
    var base := Words(HeaderRegion(s, src, 0));
    RegionWithDst(s, src, dst);
    WordsSplice32(HeaderRegion(s, src, 0), 16, dst);
    assert HeaderRegion(s, src, 0)[16..20] == Be32(0);
    assert base[8] == 0 && base[9] == 0;
    SumUpdate(base, 8, dst / 0x1_0000);
    SumUpdate(base[8 := dst / 0x1_0000], 9, dst % 0x1_0000);
  }

  /** The header words never sum to zero: the first one carries version and header length. */
  lemma RegionSumNonZero(s: nat, src: u32, dst: u32)
    requires ValidOptionSize(s)
    ensures Sum(Words(HeaderRegion(s, src, dst))) > 0
  {
    var ws := Words(HeaderRegion(s, src, dst));
    assert HeaderRegion(s, src, dst)[0] >= 0x40;
    assert ws[0] > 0;
  }

  lemma ResidueShift(k: int, a: int, b: int)
    ensures (k + a) % ONES_MODULUS == (k + b) % ONES_MODULUS <==> a % ONES_MODULUS == b % ONES_MODULUS
  {
    if (k + a) % ONES_MODULUS == (k + b) % ONES_MODULUS {
      ModAdd(k + a, -k, k + b, -k);
    }
    if a % ONES_MODULUS == b % ONES_MODULUS {
      ModAdd(k, a, k, b);
    }
  }

  /** The two 16-bit halves of a 32-bit value sum to it modulo 0xFFFF. */
  lemma HalvesResidue(v: u32)
    ensures (v / 0x1_0000 + v % 0x1_0000) % ONES_MODULUS == v % ONES_MODULUS
  {
    ModShift(v / 0x1_0000 + v % 0x1_0000, v / 0x1_0000);
  }

  /** Two runs whose sums differ only in one term have equal checksums exactly when the terms agree modulo 0xFFFF. */
  lemma CsumCompare(ws: seq<u16>, ws': seq<u16>, k: nat, a: nat, b: nat)
    requires |ws| <= MAX_WORDS && |ws'| <= MAX_WORDS
    requires Sum(ws) == k + a && Sum(ws') == k + b
    requires Sum(ws) > 0 && Sum(ws') > 0
    ensures Csum(ws) == Csum(ws') <==> a % ONES_MODULUS == b % ONES_MODULUS
  {
    CsumResidue(ws);
    CsumResidue(ws');
    ResidueShift(k, a, b);
    if Sum(ws) % ONES_MODULUS == Sum(ws') % ONES_MODULUS {
      ResidueDetermines(0xFFFF - Csum(ws), 0xFFFF - Csum(ws'));
    }
  }

  /** Two runs whose sums differ only in the halves of one 32-bit value have equal checksums exactly when the values agree modulo 0xFFFF. */
  lemma CsumTracksHalves(ws: seq<u16>, ws': seq<u16>, k: nat, v: u32, v': u32)
    requires |ws| <= MAX_WORDS && |ws'| <= MAX_WORDS
    requires Sum(ws) == k + v / 0x1_0000 + v % 0x1_0000 && Sum(ws') == k + v' / 0x1_0000 + v' % 0x1_0000
    requires Sum(ws) > 0 && Sum(ws') > 0
    ensures Csum(ws) == Csum(ws') <==> v % ONES_MODULUS == v' % ONES_MODULUS
  {
    CsumCompare(ws, ws', k, v / 0x1_0000 + v % 0x1_0000, v' / 0x1_0000 + v' % 0x1_0000);
    HalvesResidue(v);
    HalvesResidue(v');
  }

  /** Line 149 computes the checksum of the header region. */
  lemma HeaderChecksumIsRegionChecksum(s: nat, src: u32, dst: u32)
    requires ValidOptionSize(s)
    ensures HeaderChecksum(s, src, dst) == Csum(Words(HeaderRegion(s, src, dst)))
  {
    UnchecksummedLayout(s, src, dst);
    IpChecksumStage(Unchecksummed(s, src, dst), s);
    UnchecksummedRegion(s, src, dst);
  }

  /** Two header regions that differ only in the destination checksum alike exactly when the destinations agree modulo 0xFFFF. */
  lemma RegionChecksumTracksDestination(s: nat, src: u32, dst: u32, dst': u32)
    requires ValidOptionSize(s)
    ensures Csum(Words(HeaderRegion(s, src, dst))) == Csum(Words(HeaderRegion(s, src, dst')))
            <==> dst % ONES_MODULUS == dst' % ONES_MODULUS
  {
    RegionSumWithDst(s, src, dst);
    RegionSumWithDst(s, src, dst');
    RegionSumNonZero(s, src, dst);
    RegionSumNonZero(s, src, dst');
    CsumTracksHalves(Words(HeaderRegion(s, src, dst)), Words(HeaderRegion(s, src, dst')), Sum(Words(HeaderRegion(s, src, 0))), dst, dst');
  }

  /**
   * Changing only the destination changes the IP header checksum exactly
   * when the two addresses differ modulo 0xFFFF, the only coincidences
   * one's-complement arithmetic allows.
   */
  lemma IpChecksumTracksDestination(s: nat, src: u32, dst: u32, dst': u32)
    requires ValidOptionSize(s)
    ensures HeaderChecksum(s, src, dst) == HeaderChecksum(s, src, dst')
            <==> dst % ONES_MODULUS == dst' % ONES_MODULUS
  {
    HeaderChecksumIsRegionChecksum(s, src, dst);
    HeaderChecksumIsRegionChecksum(s, src, dst');
    RegionChecksumTracksDestination(s, src, dst, dst');
  }

  /**
   * The network-order image of the header with the 40-byte option: a 68-byte
   * datagram whose first byte is 0x4F (version 4, header length 15), with
   * total length 68, TTL 127 and protocol 1.
   */
  lemma ProgramHeader(src: u32, dst: u32)
    ensures ValidOptionSize(OPTION_SIZE)
    ensures |Build(OPTION_SIZE, src, dst)| == 68
    ensures Build(OPTION_SIZE, src, dst)[0] == 0x4F
    ensures ReadBe16(Build(OPTION_SIZE, src, dst), 2) == 68
    ensures Build(OPTION_SIZE, src, dst)[8] == 127 && Build(OPTION_SIZE, src, dst)[9] == 1
  {
    BuildIpHeader(OPTION_SIZE, src, dst);
  }

  /**
   * With the 40-byte option, line 149 sums `ip_len >> 1` = 34 words, and
   * gets what the 60 header bytes alone give; the header then verifies.
   */
  lemma ProgramIpChecksum(src: u32, dst: u32)
    ensures ValidOptionSize(OPTION_SIZE)
    ensures ReadBe16(Unchecksummed(OPTION_SIZE, src, dst), 2) / 2 == 34
    ensures HeaderChecksum(OPTION_SIZE, src, dst) == Csum(Words(Unchecksummed(OPTION_SIZE, src, dst)[..60]))
    ensures Csum(Words(Build(OPTION_SIZE, src, dst)[..60])) == 0
  {
    UnchecksummedLayout(OPTION_SIZE, src, dst);
    IpChecksumStage(Unchecksummed(OPTION_SIZE, src, dst), OPTION_SIZE);
    HeaderRegionVerifies(OPTION_SIZE, src, dst);
  }

  /**
   * With the 40-byte option, bytes [20, 60) are 0x99, 40 and 38 zeros, and
   * bytes [60, 68) are the Echo header 8, 0, 0xF7, 0xCC, 0, 18, 0, 33,
   * which verifies.
   */
  lemma ProgramOptionAndEcho(src: u32, dst: u32)
    ensures ValidOptionSize(OPTION_SIZE)
    ensures Build(OPTION_SIZE, src, dst)[20] == 0x99 && Build(OPTION_SIZE, src, dst)[21] == 40
    ensures AllZero(Build(OPTION_SIZE, src, dst)[22..60])
    ensures Build(OPTION_SIZE, src, dst)[60..] == [8, 0, 0xF7, 0xCC, 0, 18, 0, 33]
    ensures Csum(Words(Build(OPTION_SIZE, src, dst)[60..])) == 0
  {
    BuildOption(OPTION_SIZE, src, dst);
    BuildEcho(OPTION_SIZE, src, dst);
    FinalEchoBytes();
  }
}
