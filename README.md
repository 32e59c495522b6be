# uIP checksum core of the deRFgateway platform, in Dafny

This project models `net/uip_common.c` of the deRFarm7 25X00 deRFgateway
platform port of Contiki's uIP stack. The file holds the 32-bit add used for
TCP sequence numbers (`uip_add32`) and the Internet checksum of RFC 1071:
- the `chksum` loop;
- the plain `uip_chksum`;
- the IPv6 and IPv4 header checksums;
- the upper-layer checksums of ICMPv6, TCP and UDP over both IP versions,
  each with its pseudo-header.

Modules:

- `Octets` (`octets.dfy`): `u8_t` and `u16_t` as subset types, and
  `uip_htons` as a byte swap. It also holds the big-endian reading and
  writing of the four-byte number in `uip_acc32`.
- `Add32` (`add32.dfy`): `uip_add32` as a method on two four-byte arrays.
  `acc32` stands for the global `uip_acc32`. `op32` may be that same array,
  as in the C code.
- `Checksum` (`checksum.dfy`): the `chksum` loop as the method
  `ComputeChksum` over a region of a byte array. It is proved against the
  specification function `Chksum(sum, data) = EndAroundCarry(sum + WordSum(data))`:
  the integer sum of the big-endian words, folded into 16 bits by
  end-around carry. `OnesAdd` is the C step `sum += t; if (sum < t) sum++`.
  `ChksumStep` and `ChksumLastByte` show that one turn of the loop, and the
  odd trailing byte, extend the specification by exactly the bytes consumed.
- `PacketChecksums` (`packet.dfy`): the checksum functions that read the
  global `uip_buf`, taking the buffer as a value of `UIP_CONF_BUFFER_SIZE`
  bytes.
  - `upper_layer_chksum` is shown to equal the finished sum (zero mapped to
    0xffff, otherwise byte-swapped) of the ones'-complement sum of the
    standard pseudo-header (RFC 768 and section 3.1 of RFC 793 for IPv4,
    section 8.1 of RFC 8200 for IPv6) followed by the payload.
  - The C code instead adds "length plus protocol" as one number before the
    addresses; the proof shows the two orders give the same sum.

## Model

| member | source | states |
|---|---|---|
| Octets.Htons | platform/deRFarm7_25X00_deRFgateway_1XXX2/net/uip_common.c:120 | the high byte of the result is the low byte of the input and vice versa |
| Octets.HtonsInvolution | platform/deRFarm7_25X00_deRFgateway_1XXX2/net/uip_common.c:133 | swapping twice gives the value back, so the swapped sum can be swapped back to the sum |
| Octets.HtonsZero | platform/deRFarm7_25X00_deRFgateway_1XXX2/net/uip_common.c:133 | only zero swaps to zero, so a non-zero sum never comes back as zero |
| Octets.BigEndian32OfBytes | platform/deRFarm7_25X00_deRFgateway_1XXX2/net/uip_common.c:53 | writing a 32-bit value as four big-endian bytes and reading it back gives the value |
| Octets.BytesOfBigEndian32 | platform/deRFarm7_25X00_deRFgateway_1XXX2/net/uip_common.c:53 | reading four bytes as a big-endian number and writing it back gives the same bytes |
| Add32.Add32 | platform/deRFarm7_25X00_deRFgateway_1XXX2/net/uip_common.c:58-82 | uip_acc32 ends up holding the big-endian bytes of (op32 + op16) mod 2^32; op32 is untouched unless it is uip_acc32 itself |
| Add32.StoreColumnSums | platform/deRFarm7_25X00_deRFgateway_1XXX2/net/uip_common.c:61-64 | the four opening stores give each column's 8-bit sum, reading op32 correctly even when it is uip_acc32 |
| Add32.ByteSums | platform/deRFarm7_25X00_deRFgateway_1XXX2/net/uip_common.c:61-64 | the column sums fall short of op32 + op16 by exactly 2^16 when the high column overflows and 2^8 when the low one does, which is what the tests `acc[2] < op16 >> 8` and `acc[3] < (op16 & 0xff)` detect |
| Add32.CarryIntoByte1 | platform/deRFarm7_25X00_deRFgateway_1XXX2/net/uip_common.c:66-71 | incrementing byte 1, with a ripple into byte 0 on wrap, adds 2^16 mod 2^32 and keeps bytes 2 and 3 |
| Add32.CarryIntoByte2 | platform/deRFarm7_25X00_deRFgateway_1XXX2/net/uip_common.c:73-81 | incrementing byte 2, with the ripple into bytes 1 and 0 on wrap, adds 2^8 mod 2^32 and keeps byte 3 |
| Add32.RippleFrom1 | platform/deRFarm7_25X00_deRFgateway_1XXX2/net/uip_common.c:67-70 | on byte sequences: the byte-1 increment with ripple is +2^16 mod 2^32 |
| Add32.WrapByte2 | platform/deRFarm7_25X00_deRFgateway_1XXX2/net/uip_common.c:74-76 | byte 2 wrapping from 0xff to 0 followed by a 2^16 carry is a net +2^8 |
| Add32.CarryChain | platform/deRFarm7_25X00_deRFgateway_1XXX2/net/uip_common.c:66-81 | the two carries applied one after the other, each mod 2^32, give the whole sum mod 2^32 |
| Checksum.EndAroundCarry | platform/deRFarm7_25X00_deRFgateway_1XXX2/net/uip_common.c:97-100 | the fold of an integer sum into 16 bits is zero only for zero and never exceeds the sum |
| Checksum.EndAroundCarryCongruent | platform/deRFarm7_25X00_deRFgateway_1XXX2/net/uip_common.c:97-100 | the fold keeps the residue modulo 0xffff, the modulus of ones'-complement arithmetic |
| Checksum.EndAroundCarryAbsorbs | platform/deRFarm7_25X00_deRFgateway_1XXX2/net/uip_common.c:97-100 | folding a partial sum before adding more gives the same result as folding only at the end |
| Checksum.EndAroundCarryComplement | platform/deRFarm7_25X00_deRFgateway_1XXX2/net/uip_common.c:97-100 | adding the complement of the folded sum to the sum folds to 0xffff |
| Checksum.OnesAdd | platform/deRFarm7_25X00_deRFgateway_1XXX2/net/uip_common.c:97-109 | the 16-bit add followed by `if (sum < t) sum++` equals the end-around-carry fold of the exact sum |
| Checksum.ChksumEmpty | platform/deRFarm7_25X00_deRFgateway_1XXX2/net/uip_common.c:91-113 | a run of length zero returns the initial sum unchanged |
| Checksum.ChksumStep | platform/deRFarm7_25X00_deRFgateway_1XXX2/net/uip_common.c:95-102 | one loop turn on the big-endian word of the next two bytes extends the sum of an even prefix by those two bytes |
| Checksum.ChksumLastByte | platform/deRFarm7_25X00_deRFgateway_1XXX2/net/uip_common.c:104-110 | the odd last byte, added as `byte << 8`, extends the sum of an even prefix by that byte |
| Checksum.ComputeChksum | platform/deRFarm7_25X00_deRFgateway_1XXX2/net/uip_common.c:85-114 | the loop over `len` bytes from `start` returns `sum` plus the words of those bytes, folded by end-around carry |
| Checksum.ChksumCompose | platform/deRFarm7_25X00_deRFgateway_1XXX2/net/uip_common.c:160-164 | passing the result of chksum over an even-length run as the initial sum of the next call sums the concatenation |
| Checksum.ChksumPad | platform/deRFarm7_25X00_deRFgateway_1XXX2/net/uip_common.c:104-110 | a trailing zero byte never changes the checksum, so the odd byte counts as the high half of a word with low byte zero |
| Checksum.ChksumZero | platform/deRFarm7_25X00_deRFgateway_1XXX2/net/uip_common.c:85-114 | the result is zero if and only if the initial sum and every byte are zero |
| Checksum.ChksumVerifies | platform/deRFarm7_25X00_deRFgateway_1XXX2/net/uip_common.c:85-114 | storing 0xffff minus the checksum in a zeroed word-aligned field makes the sum over the whole run come out as 0xffff (the receiver's check) |
| PacketChecksums.Finish | platform/deRFarm7_25X00_deRFgateway_1XXX2/net/uip_common.c:182 | the result of `(sum == 0) ? 0xffff : uip_htons(sum)` is never zero, is 0xffff when the sum is zero, and swaps back to the sum when the sum is non-zero |
| PacketChecksums.UipChksum | platform/deRFarm7_25X00_deRFgateway_1XXX2/net/uip_common.c:117-121 | the result swaps back to the ones'-complement sum of the data, and is zero exactly when every byte is zero |
| PacketChecksums.HeaderChksum | platform/deRFarm7_25X00_deRFgateway_1XXX2/net/uip_common.c:125-145 | the IP header checksum is the finished sum of the header bytes behind the link header; it is never zero, and 0xffff for an all-zero header |
| PacketChecksums.UipIpChksum | platform/deRFarm7_25X00_deRFgateway_1XXX2/net/uip_common.c:125-134 | the checksum of the 40-byte IPv6 header, never zero |
| PacketChecksums.Uipv4IpChksum | platform/deRFarm7_25X00_deRFgateway_1XXX2/net/uip_common.c:137-145 | the checksum of the 20-byte IPv4 header, never zero |
| PacketChecksums.PseudoHeaderSumCannotCarry | platform/deRFarm7_25X00_deRFgateway_1XXX2/net/uip_common.c:156-158 | when the payload lies inside uip_buf, the upper-layer length plus the protocol fits 16 bits, as the "cannot carry" comments claim |
| PacketChecksums.UpperLayerChksum | platform/deRFarm7_25X00_deRFgateway_1XXX2/net/uip_common.c:148-183 | version 4 gives the finished sum of the IPv4 pseudo-header and payload; any other version gives that of the IPv6 pseudo-header and payload; never zero |
| PacketChecksums.Ipv4UpperLayerLen | platform/deRFarm7_25X00_deRFgateway_1XXX2/net/uip_common.c:155 | the upper-layer length is the IPv4 total-length field less the 20-byte header, wrapping modulo 2^16 (adding 0x10000) when the field is below 20 |
| PacketChecksums.Ipv6UpperLayerLen | platform/deRFarm7_25X00_deRFgateway_1XXX2/net/uip_common.c:168 | the upper-layer length is the IPv6 payload-length field less the extension-header length, wrapping modulo 2^16 (adding 0x10000) when the field is smaller |
| PacketChecksums.Ipv4UpperLayerSum | platform/deRFarm7_25X00_deRFgateway_1XXX2/net/uip_common.c:154-166 | the IPv4 branch (length plus protocol, then addresses, then payload) equals the ones'-complement sum of the RFC 768 pseudo-header followed by the payload |
| PacketChecksums.Ipv6UpperLayerSum | platform/deRFarm7_25X00_deRFgateway_1XXX2/net/uip_common.c:167-179 | the IPv6 branch equals the ones'-complement sum of the RFC 8200 pseudo-header followed by the payload behind the extension headers |
| PacketChecksums.Ipv4PseudoHeaderSum | platform/deRFarm7_25X00_deRFgateway_1XXX2/net/uip_common.c:158-162 | summing length plus protocol first, then the two IPv4 addresses, then the payload, equals summing the pseudo-header in standard order |
| PacketChecksums.Ipv6PseudoHeaderSum | platform/deRFarm7_25X00_deRFgateway_1XXX2/net/uip_common.c:172-178 | the same reordering for the IPv6 pseudo-header with its 32-bit length and next-header fields |
| PacketChecksums.Ipv4PseudoTailSum | platform/deRFarm7_25X00_deRFgateway_1XXX2/net/uip_common.c:158 | the zero, protocol and 16-bit length bytes of the IPv4 pseudo-header add up to length plus protocol |
| PacketChecksums.Ipv6PseudoTailSum | platform/deRFarm7_25X00_deRFgateway_1XXX2/net/uip_common.c:172 | the 32-bit length, three zero bytes and next header of the IPv6 pseudo-header add up to length plus next header |
| PacketChecksums.PseudoHeaderFirst | platform/deRFarm7_25X00_deRFgateway_1XXX2/net/uip_common.c:158-164 | starting from the sum of the trailing pseudo-header fields and then summing addresses and payload equals summing everything in place |
| PacketChecksums.UipIcmp6Chksum | platform/deRFarm7_25X00_deRFgateway_1XXX2/net/uip_common.c:186-190 | the ICMPv6 checksum over the IPv6 pseudo-header with next header 58, never zero |
| PacketChecksums.UipTcpChksum | platform/deRFarm7_25X00_deRFgateway_1XXX2/net/uip_common.c:194-198 | the TCP checksum over the IPv6 pseudo-header with next header 6, never zero |
| PacketChecksums.UipUdpChksum | platform/deRFarm7_25X00_deRFgateway_1XXX2/net/uip_common.c:203-207 | the UDP checksum over the IPv6 pseudo-header with next header 17, never zero |
| PacketChecksums.Uipv4TcpChksum | platform/deRFarm7_25X00_deRFgateway_1XXX2/net/uip_common.c:212-216 | the TCP checksum over the IPv4 pseudo-header with protocol 6, never zero |
| PacketChecksums.Uipv4UdpChksum | platform/deRFarm7_25X00_deRFgateway_1XXX2/net/uip_common.c:221-225 | the UDP checksum over the IPv4 pseudo-header with protocol 17, never zero |

Constants:
- `LLH_LEN` (14) is `UIP_CONF_LLH_LEN`, at
  platform/deRFarm7_25X00_deRFgateway_1XXX2/contiki-conf.h:151.
- `BUFFER_SIZE` (1514) is `UIP_CONF_BUFFER_SIZE`, at
  platform/deRFarm7_25X00_deRFgateway_1XXX2/contiki-conf.h:155.

## Left out

- `uip_htons` is defined in a header that is not part of this model. It is modelled as the byte swap it performs on this little-endian ARM target.
- `UIP_IPH_LEN` (40), `UIPV4_IPH_LEN` (20) and the protocol numbers `UIP_PROTO_ICMP6` (58), `UIP_PROTO_TCP` (6) and `UIP_PROTO_UDP` (17) come from headers that are not part of this model. The values used are the standard ones.
- The IPv4 header is taken to be 20 bytes, as the C code assumes. Header options (IHL above 5) are not read, and the model does not either.
- The `printf` in `uip_ipchksum` and the `DEBUG_PRINTF` in `uipv4_ipchksum` are I/O and are left out.
- The `volatile` qualifier on `upper_layer_len` has no effect on a single thread and is not modelled.
- The `#if UIP_TCP` / `UIP_UDP` / `UIPV4_*` guards select which wrappers are compiled. All five wrappers are modelled unconditionally.
- PacketChecksums.UpperLayerChksum and its wrappers take `uip_buf` and `uip_ext_len` as parameters instead of reading globals. They require the addressed payload to lie inside `uip_buf`; for a malformed length field the C code reads past the buffer, which the model does not describe.
- Checksum.ComputeChksum requires the region to lie inside the array, for the same reason. Its `len` is an unbounded natural, not a `u16_t`; every length the packet code passes fits 16 bits.
- `uip_chksum` takes a `u16_t *` cast to bytes. The model takes the byte sequence directly, so the alignment of the pointer is not modelled.
- Only `ComputeChksum` performs the loop over an array. The pure checksum functions of `PacketChecksums`, which cannot call a method, use the specification function `Chksum` that the loop is proved to compute.
- platform/deRFarm7_25X00_deRFgateway_1XXX2/net/p-gw/pgw_nd.h declares constants, structures and prototypes only. It has no operations to model.
