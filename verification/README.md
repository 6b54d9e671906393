# ping-rat packet builder, modelled in Dafny

ping-rat sends one ICMP Echo request whose IPv4 header carries an extra
option: a zeroed generalized Bloom filter that routers on the path mark, so
that the receiver can tell which routers forwarded the packet. This project
models the part of `main` that lays that datagram out in one buffer, and the
`csum` routine that computes its two Internet checksums. It proves that the
layout fields agree with the layout and that both checksums verify.

The datagram is a byte sequence built in the same stages as the C code. It is
the network-order image, the bytes a big-endian host builds. On a
little-endian host some fields and both checksums come out differently (see
"## Left out"); `DatagramProperties.HostOrderEchoBytes` gives that host's
Echo header. The stages are:

1. `memset` of the whole buffer (`Datagram.ZeroFill`);
2. the option after the fixed header: type octet `25|0x80` = 0x99, length,
   zero bitmap (`Datagram.PutOption`);
3. the IPv4 header fields with a zero checksum (`Datagram.PutIpFields`);
4. `ip_sum = csum(iph, ip_len >> 1)` (`Datagram.PutIpChecksum`);
5. the ICMP Echo fields right after the option (`Datagram.PutIcmpFields`);
6. `checksum = csum(icmph, 4)` (`Datagram.PutIcmpChecksum`).

`Datagram.Build` composes the stages. The option size is a parameter `s`
with `s % 4 == 0 && 2 <= s <= 40`. Under those conditions `5 + s/4` counts
the header exactly and fits the 4-bit header-length field. The program's own
size, `OPTION_SIZE` = 40, is instantiated in `DatagramProperties.ProgramHeader`,
`DatagramProperties.ProgramIpChecksum` and `DatagramProperties.ProgramOptionAndEcho`.

Modules:

- `Bytes`: bytes, 16- and 32-bit fields in network order, and `Splice` (a write at a fixed offset).
- `Checksum`: `csum` as written, with its 64-bit `unsigned long` accumulator and its two folds.
  It also holds the one's-complement sum with end-around carry of RFC 1071, section 1, as a
  reference definition, and the lemmas that connect the two.
- `Wire`: the IPv4 header and the type-length-value option of RFC 791, section 3.1, and the
  Echo header of RFC 792, each as a datatype with encoder, decoder and round-trip lemmas.
- `Datagram`: the stages and the builder.
- `DatagramProperties`: the properties of the finished datagram.

Two properties of the code that a reader of `main` may not expect:

- The IP checksum covers `ip_len >> 1` words, which is the whole datagram and not only header plus
  option. `DatagramProperties.IpChecksumStage` proves it equals the checksum over header and option,
  because the ICMP region is still zero when line 149 runs.
- `ip_hl = 5 + OPTION_SIZE/4` counts the header exactly only for a multiple of 4, and the 4-bit
  field holds it only up to a size of 40 (`Datagram.ValidOptionSize`,
  `DatagramProperties.HeaderLengthExact`). The program has no check of its own. Its constant is 40,
  which satisfies both conditions. `Datagram.BuildChecked` adds an explicit check that the program lacks.

## Model

| member | source | states |
|---|---|---|
| Checksum.ComputeCsum | ping-rat.c:44-52 | The `csum` loop returns 0xFFFF when there are no words. For 1 to 65537 words it returns the complement of the one's-complement sum of the words read, and it always equals `Checksum.Csum` of those words |
| Checksum.Accumulate | ping-rat.c:47-48 | The accumulator stays below 2^64: each `sum += *buf++` wraps like a 64-bit `unsigned long` |
| Checksum.FoldAndComplement | ping-rat.c:49-51 | A sum that already fits in 16 bits passes both folds unchanged and is simply complemented |
| Checksum.Csum | ping-rat.c:44-52 | For up to 65537 words, the truncated result of `csum` is the complement of the RFC 1071 one's-complement sum, so two folds are enough |
| Checksum.AccumulateExact | ping-rat.c:47-48 | When the sum cannot reach 2^64, the `unsigned long` accumulator holds the exact sum of the words |
| Checksum.FoldResidue | ping-rat.c:49-51 | For sums below 2^32, the two folds give a 16-bit value congruent to the sum modulo 0xFFFF that is zero only when the sum is zero |
| Checksum.OnesSumResidue | ping-rat.c:47-50 | The end-around-carry sum is congruent to the plain word sum modulo 0xFFFF and is zero exactly when every word is zero |
| Checksum.CsumResidue | ping-rat.c:44-52 | For up to 65537 words, the complement of `csum` is congruent to the word sum and is zero only for a zero sum |
| Checksum.CsumOfZeros | ping-rat.c:46-51 | A run of zero words of any length checksums to 0xFFFF |
| Checksum.CsumIgnoresTrailingZeros | ping-rat.c:46-51 | Appending zero words never changes the checksum, with or without accumulator wrap-around |
| Checksum.CsumVerifies | ping-rat.c:44-52 | After a zeroed checksum word is replaced by the checksum of its region, the region checksums to 0 |
| Checksum.CsumByteOrderIndependent | ping-rat.c:44-52 | Byte-swapping every word byte-swaps the checksum (RFC 1071, section 2(B)) |
| Checksum.HostOrderChecksumBytes | ping-rat.c:149 | For one and the same buffer, a little-endian host reads host-order words and stores the result in host order. The two bytes it stores equal those of the network-order computation |
| Checksum.WordsAppend | ping-rat.c:48 | The words of two even-length buffers placed side by side are the words of each, in order |
| Checksum.WordsSplice | ping-rat.c:144 | Writing a 16-bit field at an even offset changes exactly one word, to that value |
| Wire.IpHeaderRoundTrip | ping-rat.c:133-146 | Decoding an encoded IPv4 header gives back every field |
| Wire.IpHeaderBytesRoundTrip | ping-rat.c:133-146 | Re-encoding a decoded 20-byte header gives back the same bytes |
| Wire.OptionRoundTrip | ping-rat.c:126-130 | Decoding an encoded option gives back its copied flag, class, number and data |
| Wire.OptionBytesRoundTrip | ping-rat.c:126-130 | A decoded option re-encodes to exactly the bytes its length octet covers |
| Wire.EchoRoundTrip | ping-rat.c:154-158 | Decoding an encoded Echo header gives back type, code, checksum, id and sequence |
| Wire.EchoBytesRoundTrip | ping-rat.c:154-158 | Re-encoding a decoded 8-byte Echo header gives back the same bytes |
| Wire.IpChecksumField | ping-rat.c:144-149 | Setting the header checksum changes only bytes 10 and 11 of the header |
| Wire.IpDstField | ping-rat.c:146 | Setting the destination changes only bytes 16 to 19 of the header |
| Datagram.ZeroFill | ping-rat.c:123 | The buffer starts as `N` zero bytes |
| Datagram.PutOption | ping-rat.c:126-130 | Byte 20 becomes 0x99 and byte 21 becomes the size. The rest of the option becomes zero, and no byte outside the option changes |
| Datagram.PutIpFields | ping-rat.c:133-146 | The first 20 bytes become the encoded header fields, and no byte after them changes |
| Datagram.Unchecksummed | ping-rat.c:120-146 | Before line 149 the total-length field reads back as the buffer size |
| Datagram.HeaderLengthField | ping-rat.c:134 | For a valid option size the 4-bit field holds `5 + s/4` unchanged |
| Datagram.IpChecksumOf | ping-rat.c:149 | The IP checksum is the complement of the one's-complement sum of the `ip_len >> 1` words that the total-length field names |
| Datagram.IcmpChecksumOf | ping-rat.c:161 | The ICMP checksum is the complement of the one's-complement sum of the four words of the ICMP header |
| Datagram.PutIpChecksum | ping-rat.c:149 | The checksum of `ip_len >> 1` words lands in bytes 10 and 11, and every other byte is kept |
| Datagram.BuildIpPart | ping-rat.c:120-149 | After line 149 the checksum field holds the line-149 checksum, and every other byte is as before line 149 |
| Datagram.HeaderChecksum | ping-rat.c:149 | The value line 149 computes is the complement of the one's-complement sum of every word of the buffer, and it is never 0xFFFF because the first word carries the version |
| Datagram.WholeBufferChecksum | ping-rat.c:144-149 | When the total-length field names the whole even-length buffer and its first byte is non-zero, line 149 checksums every word and cannot return 0xFFFF |
| Datagram.PutIcmpFields | ping-rat.c:152-158 | The Echo fields fill the bytes from the end of the option to the end of the buffer, and the IP part is kept |
| Datagram.PutIcmpChecksum | ping-rat.c:161 | The checksum of the eight ICMP bytes lands in the ICMP checksum field, and every other byte is kept |
| Datagram.IcmpStages | ping-rat.c:152-161 | On any buffer of the datagram's size, the ICMP stages keep the IP part and leave the network-order Echo bytes after it |
| Datagram.Build | ping-rat.c:120-161 | Writing the ICMP header leaves the IP part as computed. The ICMP bytes are one fixed encoding, whatever the addresses |
| Datagram.BuildChecked | ping-rat.c:38-41 | An entry point the program does not have: an option size the header arithmetic cannot express is rejected with its own error, and any other size yields the datagram of `Build`. The program compiles any `OPTION_SIZE` unchecked |
| DatagramProperties.OptionTypeOctet | ping-rat.c:127 | `25\|0x80` is 0x99, the option-type octet with the copied flag, class 0 and number 25 |
| DatagramProperties.BloomOptionEncoding | ping-rat.c:126-130 | For any size 2 to 255 the option is exactly that many bytes: the type with its high bit set, the size, then zeros. These bytes decode back to the option |
| DatagramProperties.HeaderLengthExact | ping-rat.c:134 | For option sizes of at least 2, four times the 4-bit field equals the header size exactly when the size is a multiple of 4 and at most 40 |
| DatagramProperties.HeaderLengthOverflow | ping-rat.c:134 | With a 42-byte option the field reads 15, which describes 60 bytes instead of 62. With a 44-byte option the field wraps to 0 |
| DatagramProperties.UnchecksummedLayout | ping-rat.c:123-146 | Before line 149 the option is in place, the ICMP region is zero and the checksum field is zero |
| DatagramProperties.IpChecksumStage | ping-rat.c:144-149 | Over `ip_len >> 1` words the checksum equals the one over header and option alone. Once written, the header and option checksum to 0 |
| DatagramProperties.IcmpChecksumStage | ping-rat.c:156-161 | Once written, the eight ICMP bytes checksum to 0 |
| DatagramProperties.IpPartVerifies | ping-rat.c:144-149 | After line 149 the header and option checksum to 0 |
| DatagramProperties.IpPartLayout | ping-rat.c:126-149 | After line 149 the header carries the computed checksum and is followed by the option |
| DatagramProperties.BuildIpHeader | ping-rat.c:133-146 | The finished header has version 4 and header length 5 + s/4, and four times that length is where the ICMP header starts. Total length is the buffer size. TOS, id and offset are 0, TTL is 127, protocol is 1, and it holds the given addresses and the line-149 checksum |
| DatagramProperties.BuildOption | ping-rat.c:126-130 | Bytes [20, 20+s) of the finished datagram are 0x99, s and zeros, and they decode to the Bloom filter option |
| DatagramProperties.HeaderRegionVerifies | ping-rat.c:149-161 | Writing the ICMP header does not disturb the IP checksum: header and option of the finished datagram checksum to 0 |
| DatagramProperties.IpChecksumValid | ping-rat.c:134-149 | A receiver that checksums the `4 * ihl` header bytes of the finished datagram gets 0 |
| DatagramProperties.EchoChecksumValue | ping-rat.c:154-161 | In network byte order the Echo fields 8, 0, 18, 33 checksum to 0xF7CC |
| DatagramProperties.FinalEchoBytes | ping-rat.c:152-161 | The network-order image of the Echo header, as a big-endian host emits it, is the bytes 8, 0, 0xF7, 0xCC, 0, 18, 0, 33 |
| Datagram.HostOrderChecksum | ping-rat.c:154-161 | On a little-endian host `csum` over the Echo header returns 0xFFC4 |
| Datagram.HostOrderEcho | ping-rat.c:152-161 | A little-endian host stores `id`, `sequence` and the checksum in host order and builds the Echo bytes 8, 0, 0xC4, 0xFF, 18, 0, 33, 0 |
| DatagramProperties.HostOrderEchoBytes | ping-rat.c:152-161 | A little-endian host emits the Echo bytes 8, 0, 0xC4, 0xFF, 18, 0, 33, 0. These differ from the network-order image, yet still checksum to 0 |
| DatagramProperties.BuildEcho | ping-rat.c:152-161 | In the network-order image the finished ICMP header is type 8, code 0, checksum 0xF7CC, id 18, sequence 33, and it checksums to 0 |
| DatagramProperties.IcmpIndependentOfAddresses | ping-rat.c:145-161 | Other addresses leave the ICMP bytes and the ICMP checksum unchanged |
| DatagramProperties.UnchecksummedRegion | ping-rat.c:123-146 | Before line 149 the first 20 + s bytes are the encoded header, checksum zero, followed by the encoded option |
| DatagramProperties.RegionWithDst | ping-rat.c:146 | The header region for a destination is the one for destination 0 with the address written at offset 16 |
| DatagramProperties.RegionSumWithDst | ping-rat.c:146-149 | The destination contributes exactly its two 16-bit halves to the word sum of the header region |
| DatagramProperties.RegionSumNonZero | ping-rat.c:133-134 | The header words never sum to zero, because the first word carries version 4 |
| DatagramProperties.HeaderChecksumIsRegionChecksum | ping-rat.c:149 | The checksum line 149 computes over the whole buffer is the checksum of the header region |
| DatagramProperties.RegionChecksumTracksDestination | ping-rat.c:145-149 | Two header regions differing only in the destination have equal checksums exactly when the destinations are congruent modulo 0xFFFF |
| DatagramProperties.IpChecksumTracksDestination | ping-rat.c:145-149 | With the source fixed, two destinations give the same header checksum exactly when they are congruent modulo 0xFFFF |
| DatagramProperties.ProgramHeader | ping-rat.c:38-41 | With the 40-byte option the datagram is 68 bytes. It starts 0x4F (version 4, header length 15), has total length 68, TTL 127 and protocol 1 |
| DatagramProperties.ProgramIpChecksum | ping-rat.c:149 | With the 40-byte option, line 149 sums `ip_len >> 1` = 34 words. The result equals the sum over the 60 header bytes alone, and those 60 bytes then checksum to 0 |
| DatagramProperties.ProgramOptionAndEcho | ping-rat.c:126-161 | With the 40-byte option, bytes 20 to 59 are 0x99, 40 and 38 zeros. In the network-order image bytes 60 to 67 are 8, 0, 0xF7, 0xCC, 0, 18, 0, 33, and they checksum to 0 |

## Left out

- Protocol lookup, raw socket creation, the `EPERM` message and dropping privileges (ping-rat.c:69-86): operating-system calls with no effect on the bytes.
- Argument checking and name resolution (ping-rat.c:89-114): the source and destination are given as 32-bit values in network order.
- `setsockopt(IP_HDRINCL)`, `sendto` and the messages after them (ping-rat.c:164-173): transport I/O.
- Host byte order of `ip_len`, `un.echo.id` and `un.echo.sequence`: the C code stores these in host order. The model writes their values in network order at their wire offsets. The bit-field packing of `ip_v`/`ip_hl` is modelled as its wire byte, `version * 16 + ihl`.
- Host word order inside `csum`: modelled in network order. `Checksum.HostOrderChecksumBytes` shows that, for the same buffer, a little-endian host stores the same checksum bytes. The buffers differ, though, because `ip_len`, `id` and `sequence` are stored in host order.
- The concrete checksums of a little-endian host: the model computes the network-order image, with ICMP checksum 0xF7CC. A little-endian host emits the ICMP checksum 0xFFC4, stored as C4 FF, with `id` and `sequence` byte-swapped. `DatagramProperties.HostOrderEchoBytes` models only that Echo header. The IP header of such a host carries `ip_len` as 0x44 0x00 and therefore a different IP checksum, and the model does not compute that header.
- Option sizes the program accepts without a check of its own: with `OPTION_SIZE` 42 it compiles silently and emits header length 15 over 62 header bytes. With 44 the constant 16 stored into the 4-bit `ip_hl` draws at most a compiler warning, and the field wraps to 0. `DatagramProperties.HeaderLengthOverflow` exhibits this. `Datagram.Build` is stated only for valid sizes, and `Datagram.BuildChecked` rejects the others, which the program does not do.
- `unsigned long` is taken to be 64 bits wide (LP64). `Checksum.Accumulate` wraps at 2^64.
- Checksum.Csum: its one's-complement ensures is stated for at most 65537 words only. With more words the sum can exceed 32 bits, and two folds can then leave a carry that the truncation drops. The program sums at most 34 words.
- Odd byte counts: `csum` reads whole words only. `Checksum.Words` likewise leaves an odd last byte unread, and every region the program sums has even length.
- Signedness of `char` for `option[0]`: the model writes the byte pattern 0x99.
- Determinism: `Datagram.Build` is a pure function of its inputs, so building twice with the same addresses gives identical bytes without any lemma.
