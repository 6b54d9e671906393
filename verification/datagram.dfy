/**
 * The datagram `main` assembles in one buffer before sending it through the
 * raw socket (ping-rat.c:120-161): an IPv4 header, the path-marking option
 * (a zeroed Bloom filter bitmap that routers fill in), and an ICMP Echo
 * request header, with both checksums. The option size is a parameter `s`;
 * the program fixes it at OPTION_SIZE.
 *
 * The buffer is built in the stages of the C code, each a pure update of
 * fixed offsets: zero-fill, option, IP fields, IP checksum, ICMP fields,
 * ICMP checksum.
 */
module Datagram {
  import opened Wrappers
  import opened Bytes
  import opened Checksum
  import opened Wire

  /** The size of the option field the program is compiled with. */
  const OPTION_SIZE: nat := 40

  /** Option number of the Bloom filter option. */
  const BLOOM_OPTION_NUMBER: optionNumber := 25

  /** The option-type octet as the program writes it: `25|0x80`, number 25 with the copied flag. */
  const OPTION_TYPE: byte := ((25 as bv8) | 0x80) as int

  const IP_VERSION: nibble := 4
  /** Header length, in 32-bit words, of a header without options. */
  const MIN_IHL: nat := 5
  const TTL: byte := 127
  const IPPROTO_ICMP: byte := 1
  const ICMP_ECHO: byte := 8
  const ECHO_ID: u16 := 18
  const ECHO_SEQUENCE: u16 := 33

  /**
   * Option sizes the header arithmetic is written for: `5 + s/4` must count
   * the header exactly and fit the 4-bit header-length field.
   */
  predicate ValidOptionSize(s: int)
  {
    s % 4 == 0 && 2 <= s <= 40
  }

  /** `N`: IP header, ICMP header and option. */
  function DatagramSize(s: nat): (n: nat)
    ensures s % 2 == 0 ==> n % 2 == 0
  {
    IP_HEADER_SIZE + ICMP_HEADER_SIZE + s
  }

  /** Where the ICMP header starts: right after the option. */
  function IcmpOffset(s: nat): (n: nat)
    ensures s % 2 == 0 ==> n % 2 == 0
  {
    IP_HEADER_SIZE + s
  }

  /** The Bloom filter option of total size `s`: copied, class 0, number 25, data all zero. */
  function BloomOption(s: nat): IpOption
    requires 2 <= s <= 0xFF
  {
    IpOption(true, 0, BLOOM_OPTION_NUMBER, Zeros(s - 2))
  }

  /**
   * What the bit-field store `ip_hl = 5 + s/4` leaves in the 4-bit field:
   * the value modulo 16.
   */
  function HeaderLengthField(s: nat): (ihl: nibble)
    ensures ValidOptionSize(s) ==> ihl == MIN_IHL + s / 4
  {
    (MIN_IHL + s / 4) % 0x10
  }

  /** The IP header fields `main` fills in, with the checksum still zero. */
  function IpFields(s: nat, src: u32, dst: u32): IpHeader
    requires ValidOptionSize(s)
  {
    IpHeader(IP_VERSION, HeaderLengthField(s), 0, DatagramSize(s), 0, 0, TTL, IPPROTO_ICMP, 0, src, dst)
  }

  /** The ICMP Echo fields `main` fills in, with the checksum still zero. */
  const ECHO_FIELDS: IcmpEcho := IcmpEcho(ICMP_ECHO, 0, 0, ECHO_ID, ECHO_SEQUENCE)

  // ---------------------------------------------------------------------
  // Stages
  // ---------------------------------------------------------------------

  /** `memset(datagram, 0, N)`. */
  function ZeroFill(s: nat): (d: seq<byte>)
    ensures |d| == DatagramSize(s)
    ensures AllZero(d)
  {
    Zeros(DatagramSize(s))
  }

  /** The option written right after the fixed IP header. */
  function PutOption(d: seq<byte>, s: nat): (r: seq<byte>)
    requires ValidOptionSize(s) && |d| == DatagramSize(s)
    ensures |r| == |d|
    ensures r[IP_HEADER_SIZE] == OPTION_TYPE
    ensures r[IP_HEADER_SIZE + 1] == s
    ensures forall i :: IP_HEADER_SIZE + 2 <= i < IcmpOffset(s) ==> r[i] == 0
    ensures forall i :: 0 <= i < |d| && !(IP_HEADER_SIZE <= i < IcmpOffset(s)) ==> r[i] == d[i]
  {
    Splice(d, IP_HEADER_SIZE, EncodeOption(BloomOption(s)))
  }

  /** The IP header fields written over the first IP_HEADER_SIZE bytes. */
  function PutIpFields(d: seq<byte>, s: nat, src: u32, dst: u32): (r: seq<byte>)
    requires ValidOptionSize(s) && |d| == DatagramSize(s)
    ensures |r| == |d|
    ensures r[..IP_HEADER_SIZE] == EncodeIpHeader(IpFields(s, src, dst))
    ensures forall i :: IP_HEADER_SIZE <= i < |d| ==> r[i] == d[i]
  {
    Splice(d, 0, EncodeIpHeader(IpFields(s, src, dst)))
  }

  /** The checksum the program computes for the IP header: `ip_len >> 1` words from the start. */
  function IpChecksumOf(d: seq<byte>): (r: u16)
    requires |d| >= IP_HEADER_SIZE
    requires ReadBe16(d, 2) / 2 * 2 <= |d|
    ensures r == 0xFFFF - OnesSum(Words(d[..ReadBe16(d, 2) / 2 * 2]))
  {
    var nwords := ReadBe16(d, 2) / 2;
    Csum(Words(d[..2 * nwords]))
  }

  /** `ip_sum = csum(iph, ip_len >> 1)`. */
  function PutIpChecksum(d: seq<byte>): (r: seq<byte>)
    requires |d| >= IP_HEADER_SIZE
    requires ReadBe16(d, 2) / 2 * 2 <= |d|
    ensures |r| == |d|
    ensures ReadBe16(r, IP_CHECKSUM_OFFSET) == IpChecksumOf(d)
    ensures forall i :: 0 <= i < |d| && !(IP_CHECKSUM_OFFSET <= i < IP_CHECKSUM_OFFSET + 2) ==> r[i] == d[i]
  {
    Be16RoundTrip(IpChecksumOf(d));
    Splice(d, IP_CHECKSUM_OFFSET, Be16(IpChecksumOf(d)))
  }

  /** The ICMP Echo fields written right after the option. */
  function PutIcmpFields(d: seq<byte>, s: nat): (r: seq<byte>)
    requires ValidOptionSize(s) && |d| == DatagramSize(s)
    ensures |r| == |d|
    ensures r[IcmpOffset(s)..] == EncodeEcho(ECHO_FIELDS)
    ensures r[..IcmpOffset(s)] == d[..IcmpOffset(s)]
  {
    Splice(d, IcmpOffset(s), EncodeEcho(ECHO_FIELDS))
  }

  /** The checksum the program computes for the ICMP header: its eight bytes alone. */
  function IcmpChecksumOf(d: seq<byte>, s: nat): (r: u16)
    requires ValidOptionSize(s) && |d| == DatagramSize(s)
    ensures r == 0xFFFF - OnesSum(Words(d[IcmpOffset(s)..]))
  {
    Csum(Words(d[IcmpOffset(s)..]))
  }

  /** `checksum = csum(icmph, 8 >> 1)`. */
  function PutIcmpChecksum(d: seq<byte>, s: nat): (r: seq<byte>)
    requires ValidOptionSize(s) && |d| == DatagramSize(s)
    ensures |r| == |d|
    ensures ReadBe16(r, IcmpOffset(s) + ICMP_CHECKSUM_OFFSET) == IcmpChecksumOf(d, s)
    ensures r[..IcmpOffset(s)] == d[..IcmpOffset(s)]
    ensures forall i :: IcmpOffset(s) <= i < |d| && i != IcmpOffset(s) + 2 && i != IcmpOffset(s) + 3 ==> r[i] == d[i]
  {
    Be16RoundTrip(IcmpChecksumOf(d, s));
    Splice(d, IcmpOffset(s) + ICMP_CHECKSUM_OFFSET, Be16(IcmpChecksumOf(d, s)))
  }

  /** The buffer after the IP fields are written and before the IP checksum is computed. */
  function Unchecksummed(s: nat, src: u32, dst: u32): (d: seq<byte>)
    requires ValidOptionSize(s)
    ensures |d| == DatagramSize(s)
    ensures d[..IP_HEADER_SIZE] == EncodeIpHeader(IpFields(s, src, dst))
    ensures ReadBe16(d, 2) == |d|
  {
    var d := PutIpFields(PutOption(ZeroFill(s), s), s, src, dst);
    assert ReadBe16(d, 2) == DatagramSize(s) by {
      ReadAt16(d, 2);
      ReadAt16(EncodeIpHeader(IpFields(s, src, dst)), 2);
      Be16RoundTrip(DatagramSize(s));
    }
    d
  }

  /** The IP part (header and option) with its checksum, before the ICMP header is written. */
  function BuildIpPart(s: nat, src: u32, dst: u32): (d: seq<byte>)
    requires ValidOptionSize(s)
    ensures |d| == DatagramSize(s)
    ensures ReadBe16(d, IP_CHECKSUM_OFFSET) == HeaderChecksum(s, src, dst)
    ensures d[..IP_CHECKSUM_OFFSET] == Unchecksummed(s, src, dst)[..IP_CHECKSUM_OFFSET]
    ensures d[IP_CHECKSUM_OFFSET + 2..] == Unchecksummed(s, src, dst)[IP_CHECKSUM_OFFSET + 2..]
  {
    PutIpChecksum(Unchecksummed(s, src, dst))
  }

  /**
   * The IP header checksum `main` computes for these addresses: the checksum
   * of every word of the buffer, never 0xFFFF because the first word carries
   * the version.
   */
  function HeaderChecksum(s: nat, src: u32, dst: u32): (r: u16)
    requires ValidOptionSize(s)
    ensures r == 0xFFFF - OnesSum(Words(Unchecksummed(s, src, dst)))
    ensures r != 0xFFFF
  {
    var d := Unchecksummed(s, src, dst);
    assert d[0] == d[..IP_HEADER_SIZE][0];
    WholeBufferChecksum(d);
    IpChecksumOf(d)
  }

  /**
   * When the total-length field names the whole even-length buffer, line 149
   * checksums every word of it; a non-zero first byte keeps the sum non-zero.
   */
  lemma WholeBufferChecksum(d: seq<byte>)
    requires |d| >= IP_HEADER_SIZE && |d| % 2 == 0 && ReadBe16(d, 2) == |d|
    requires d[0] > 0
    ensures IpChecksumOf(d) == 0xFFFF - OnesSum(Words(d))
    ensures IpChecksumOf(d) != 0xFFFF
  {
    assert d[..ReadBe16(d, 2) / 2 * 2] == d;
    assert Words(d)[0] > 0;
    OnesSumResidue(Words(d));
  }

  /** The Echo header fields with their checksum, as a big-endian host computes it. */
  function FinalEcho(): IcmpEcho
  {
    ECHO_FIELDS.(checksum := Csum(Words(EncodeEcho(ECHO_FIELDS))))
  }

  /** On a little-endian host `csum` over the Echo header returns 0xFFC4. */
  lemma HostOrderChecksum()
    ensures Csum(HostWords([ICMP_ECHO, 0, 0, 0] + Le16(ECHO_ID) + Le16(ECHO_SEQUENCE))) == 0xFFC4
  {
    var u: seq<byte> := [8, 0, 0, 0, 18, 0, 33, 0];
    assert [ICMP_ECHO, 0, 0, 0] + Le16(ECHO_ID) + Le16(ECHO_SEQUENCE) == u;
    var hs := HostWords(u);
    assert hs == [0x0008, 0, 0x0012, 0x0021];
    assert OnesSum([0x0021]) == 0x0021;
    assert OnesSum([0x0012, 0x0021]) == 0x0033;
    assert OnesSum([0, 0x0012, 0x0021]) == 0x0033;
    assert OnesSum(hs) == 0x003B;
  }

  /**
   * The eight Echo bytes a little-endian host builds: `id` and `sequence`
   * are stored in host order, and `csum` reads host-order words and its
   * result, 0xFFC4, is stored in host order.
   */
  function HostOrderEcho(): (e: seq<byte>)
    ensures |e| == ICMP_HEADER_SIZE
    ensures e == [8, 0, 0xC4, 0xFF, 18, 0, 33, 0]
  {
    var u := [ICMP_ECHO, 0, 0, 0] + Le16(ECHO_ID) + Le16(ECHO_SEQUENCE);
    HostOrderChecksum();
    Splice(u, ICMP_CHECKSUM_OFFSET, Le16(Csum(HostWords(u))))
  }

  /**
   * The whole datagram for source `src` and destination `dst`, in network
   * byte order. Writing the ICMP header leaves the IP part as it was, and
   * the ICMP bytes do not depend on the addresses.
   */
  function Build(s: nat, src: u32, dst: u32): (d: seq<byte>)
    requires ValidOptionSize(s)
    ensures |d| == DatagramSize(s)
    ensures d[..IcmpOffset(s)] == BuildIpPart(s, src, dst)[..IcmpOffset(s)]
    ensures d[IcmpOffset(s)..] == EncodeEcho(FinalEcho())
  {
    var p := BuildIpPart(s, src, dst);
    IcmpStages(p, s);
    PutIcmpChecksum(PutIcmpFields(p, s), s)
  }

  /** Lines 152-161 on any buffer of the right size: the IP part is kept and the ICMP bytes are fixed. */
  lemma IcmpStages(p: seq<byte>, s: nat)
    requires ValidOptionSize(s) && |p| == DatagramSize(s)
    ensures PutIcmpChecksum(PutIcmpFields(p, s), s)[..IcmpOffset(s)] == p[..IcmpOffset(s)]
    ensures PutIcmpChecksum(PutIcmpFields(p, s), s)[IcmpOffset(s)..] == EncodeEcho(FinalEcho())
  {
    var d4 := PutIcmpFields(p, s);
    var d := PutIcmpChecksum(d4, s);
    var I := IcmpOffset(s);
    EchoChecksumField(ECHO_FIELDS, Csum(Words(EncodeEcho(ECHO_FIELDS))));
    assert d[I..] == Splice(d4[I..], ICMP_CHECKSUM_OFFSET, Be16(IcmpChecksumOf(d4, s)));
  }

  datatype BuildError = InvalidOptionSize(size: int)

  /** Build with the option size checked instead of assumed. */
  function BuildChecked(s: int, src: u32, dst: u32): (r: Result<seq<byte>, BuildError>)
    ensures r.Failure? <==> !ValidOptionSize(s)
    ensures r.Failure? ==> r.error == InvalidOptionSize(s)
    ensures r.Success? ==> |r.value| == DatagramSize(s) && r.value == Build(s, src, dst)
  {
    if ValidOptionSize(s) then Success(Build(s, src, dst)) else Failure(InvalidOptionSize(s))
  }
}
