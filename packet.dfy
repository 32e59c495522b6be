/**
 * The checksums uIP computes over the global packet buffer uip_buf: the
 * plain uip_chksum, the IPv6 and IPv4 header checksums, and the upper-layer
 * (ICMPv6, TCP, UDP) checksums with their pseudo-headers.
 *
 * uip_buf is a byte sequence of UIP_CONF_BUFFER_SIZE bytes whose first
 * UIP_LLH_LEN bytes hold the Ethernet header; the IP header follows.  The
 * extension-header length uip_ext_len is a parameter.  Every result here is
 * in the byte order uip_htons produces, and none is complemented: callers
 * store the complement.
 */
module PacketChecksums {
  import opened Octets
  import opened Checksum

  /** UIP_CONF_LLH_LEN: the Ethernet header in front of the IP header. */
  const LLH_LEN: nat := 14
  /** UIP_CONF_BUFFER_SIZE: the size of uip_buf. */
  const BUFFER_SIZE: nat := 1514
  /** UIP_IPH_LEN: the fixed IPv6 header. */
  const IPV6_HEADER_LEN: nat := 40
  /** UIPV4_IPH_LEN: the IPv4 header without options. */
  const IPV4_HEADER_LEN: nat := 20

  /** IANA protocol numbers, UIP_PROTO_ICMP6, UIP_PROTO_TCP and UIP_PROTO_UDP. */
  const PROTO_ICMP6: uint8 := 58
  const PROTO_TCP: uint8 := 6
  const PROTO_UDP: uint8 := 17

  /** RFC 1071: the ones'-complement sum of the 16-bit words of `data`. */
  function OnesComplementSum(data: seq<uint8>): uint16
  {
    EndAroundCarry(WordSum(data))
  }

  /**
   * The common ending of the header and upper-layer checksums: a zero sum is
   * reported as 0xffff, any other sum is returned byte-swapped.
   */
  function Finish(sum: uint16): (r: uint16)
    ensures r != 0
    ensures sum == 0 ==> r == 0xffff
    ensures sum != 0 ==> Htons(r) == sum
  {
    HtonsZero(sum);
    HtonsInvolution(sum);
    if sum == 0 then 0xffff else Htons(sum)
  }

  /** uip_chksum: the sum over `data`, byte-swapped, with no zero mapping. */
  function UipChksum(data: seq<uint8>): (r: uint16)
    ensures Htons(r) == OnesComplementSum(data)
    ensures r == 0 <==> forall i :: 0 <= i < |data| ==> data[i] == 0
  {
    var sum := Chksum(0, data);
    HtonsInvolution(sum);
    HtonsZero(sum);
    ChksumZero(0, data);
    Htons(sum)
  }

  /** A header checksum as uip_ipchksum and uipv4_ipchksum define it. */
  function HeaderChksum(buf: seq<uint8>, headerLen: nat): (r: uint16)
    requires LLH_LEN + headerLen <= |buf|
    ensures r != 0
    ensures r == Finish(OnesComplementSum(buf[LLH_LEN..LLH_LEN + headerLen]))
    ensures (forall i :: LLH_LEN <= i < LLH_LEN + headerLen ==> buf[i] == 0) ==> r == 0xffff
  {
    var header := buf[LLH_LEN..LLH_LEN + headerLen];
    ChksumZero(0, header);
    Finish(Chksum(0, header))
  }

  /** uip_ipchksum: the checksum of the 40-byte IPv6 header. */
  function UipIpChksum(buf: seq<uint8>): (r: uint16)
    requires |buf| == BUFFER_SIZE
    ensures r != 0
    ensures r == Finish(OnesComplementSum(buf[LLH_LEN..LLH_LEN + IPV6_HEADER_LEN]))
  {
    HeaderChksum(buf, IPV6_HEADER_LEN)
  }

  /** uipv4_ipchksum: the checksum of the 20-byte IPv4 header. */
  function Uipv4IpChksum(buf: seq<uint8>): (r: uint16)
    requires |buf| == BUFFER_SIZE
    ensures r != 0
    ensures r == Finish(OnesComplementSum(buf[LLH_LEN..LLH_LEN + IPV4_HEADER_LEN]))
  {
    HeaderChksum(buf, IPV4_HEADER_LEN)
  }

  // ---------------------------------------------------------------------
  // Where the fields of the IP headers sit in uip_buf (RFC 791 section 3.1,
  // RFC 8200 section 3).

  /**
   * The IPv4 upper-layer length: total length (header bytes 2-3) minus the
   * 20-byte header, truncated to 16 bits as the u16_t assignment does.
   */
  function Ipv4UpperLayerLen(buf: seq<uint8>): (len: uint16)
    requires LLH_LEN + IPV4_HEADER_LEN <= |buf|
    ensures var total := Word(buf[LLH_LEN + 2], buf[LLH_LEN + 3]);
      if total >= IPV4_HEADER_LEN then len == total - IPV4_HEADER_LEN
      else len == total + 0x1_0000 - IPV4_HEADER_LEN
  {
    (Word(buf[LLH_LEN + 2], buf[LLH_LEN + 3]) - IPV4_HEADER_LEN) % 0x1_0000
  }

  /**
   * The IPv6 upper-layer length: payload length (header bytes 4-5) minus the
   * extension headers, truncated to 16 bits.
   */
  function Ipv6UpperLayerLen(buf: seq<uint8>, extLen: uint8): (len: uint16)
    requires LLH_LEN + IPV6_HEADER_LEN <= |buf|
    ensures var payload := Word(buf[LLH_LEN + 4], buf[LLH_LEN + 5]);
      if payload >= extLen then len == payload - extLen
      else len == payload + 0x1_0000 - extLen
  {
    (Word(buf[LLH_LEN + 4], buf[LLH_LEN + 5]) - extLen) % 0x1_0000
  }

  /** The IPv4 payload named by the header lies inside uip_buf. */
  predicate Ipv4PayloadInBuffer(buf: seq<uint8>)
  {
    LLH_LEN + IPV4_HEADER_LEN <= |buf| &&
    LLH_LEN + IPV4_HEADER_LEN + Ipv4UpperLayerLen(buf) <= |buf|
  }

  /** The IPv6 payload named by the header lies inside uip_buf. */
  predicate Ipv6PayloadInBuffer(buf: seq<uint8>, extLen: uint8)
  {
    LLH_LEN + IPV6_HEADER_LEN <= |buf| &&
    LLH_LEN + IPV6_HEADER_LEN + extLen + Ipv6UpperLayerLen(buf, extLen) <= |buf|
  }

  // ---------------------------------------------------------------------
  // The pseudo-headers as the standards lay them out.

  /**
   * The TCP/UDP pseudo-header of RFC 768 and section 3.1 of RFC 793: source
   * and destination address, a zero byte, the protocol and the 16-bit length.
   */
  function Ipv4PseudoHeader(src: seq<uint8>, dst: seq<uint8>, proto: uint8, len: uint16): seq<uint8>
  {
    src + dst + [0, proto, len / 0x100, len % 0x100]
  }

  /**
   * The upper-layer pseudo-header of section 8.1 of RFC 8200: source and
   * destination address, the 32-bit upper-layer length, three zero bytes and
   * the next-header value.
   */
  function Ipv6PseudoHeader(src: seq<uint8>, dst: seq<uint8>, len: uint16, next: uint8): seq<uint8>
  {
    src + dst + (ToBigEndian32(len) + [0, 0, 0, next])
  }

  /** The IPv4 pseudo-header followed by the upper-layer payload in uip_buf. */
  function Ipv4Segment(buf: seq<uint8>, proto: uint8): seq<uint8>
    requires Ipv4PayloadInBuffer(buf)
  {
    var len := Ipv4UpperLayerLen(buf);
    var ip := LLH_LEN;
    Ipv4PseudoHeader(buf[ip + 12..ip + 16], buf[ip + 16..ip + 20], proto, len)
      + buf[ip + IPV4_HEADER_LEN..ip + IPV4_HEADER_LEN + len]
  }

  /** The IPv6 pseudo-header followed by the upper-layer payload in uip_buf. */
  function Ipv6Segment(buf: seq<uint8>, extLen: uint8, next: uint8): seq<uint8>
    requires Ipv6PayloadInBuffer(buf, extLen)
  {
    var len := Ipv6UpperLayerLen(buf, extLen);
    var ip := LLH_LEN;
    var payload := ip + IPV6_HEADER_LEN + extLen;
    Ipv6PseudoHeader(buf[ip + 8..ip + 24], buf[ip + 24..ip + 40], len, next)
      + buf[payload..payload + len]
  }

  // ---------------------------------------------------------------------
  // upper_layer_chksum and its wrappers.

  /**
   * The "cannot carry" comments of upper_layer_chksum: in a packet that fits
   * uip_buf, the upper-layer length plus the protocol number fits 16 bits.
   */
  lemma PseudoHeaderSumCannotCarry(buf: seq<uint8>, ipVersion: uint8, proto: uint8, extLen: uint8)
    requires |buf| == BUFFER_SIZE
    requires if ipVersion == 4 then Ipv4PayloadInBuffer(buf) else Ipv6PayloadInBuffer(buf, extLen)
    ensures ipVersion == 4 ==> Ipv4UpperLayerLen(buf) + proto < 0x1_0000
    ensures ipVersion != 4 ==> Ipv6UpperLayerLen(buf, extLen) + proto < 0x1_0000
  {
  }

  /**
   * upper_layer_chksum: the pseudo-header and payload sum of the IPv4 or the
   * IPv6 branch, then the zero mapping and byte swap.  Any version other
   * than 4 takes the IPv6 branch.
   */
  function UpperLayerChksum(buf: seq<uint8>, ipVersion: uint8, proto: uint8, extLen: uint8): (r: uint16)
    requires |buf| == BUFFER_SIZE
    requires if ipVersion == 4 then Ipv4PayloadInBuffer(buf) else Ipv6PayloadInBuffer(buf, extLen)
    ensures r != 0
    ensures ipVersion == 4 ==> r == Finish(OnesComplementSum(Ipv4Segment(buf, proto)))
    ensures ipVersion != 4 ==> r == Finish(OnesComplementSum(Ipv6Segment(buf, extLen, proto)))
  {
    var sum := if ipVersion == 4 then Ipv4UpperLayerSum(buf, proto) else Ipv6UpperLayerSum(buf, extLen, proto);
    Finish(sum)
  }

  /**
   * The IPv4 branch of upper_layer_chksum: length plus protocol (which cannot
   * carry), then the source and destination addresses, then the payload.
   * The result is the ones'-complement sum of the RFC 768 pseudo-header
   * followed by the payload.
   */
  function Ipv4UpperLayerSum(buf: seq<uint8>, proto: uint8): (sum: uint16)
    requires |buf| == BUFFER_SIZE && Ipv4PayloadInBuffer(buf)
    ensures sum == OnesComplementSum(Ipv4Segment(buf, proto))
  {
    var ip, len := LLH_LEN, Ipv4UpperLayerLen(buf);
    var addrs := buf[ip + 12..ip + 20];
    var payload := buf[ip + IPV4_HEADER_LEN..ip + IPV4_HEADER_LEN + len];
    var sum := (len + proto) % 0x1_0000;
    var sum := Chksum(sum, addrs);
    var sum := Chksum(sum, payload);
    assert len < BUFFER_SIZE;
    NoTruncation(len + proto);
    assert addrs[..4] == buf[ip + 12..ip + 16] && addrs[4..] == buf[ip + 16..ip + 20];
    Ipv4PseudoHeaderSum(addrs, proto, len, payload);
    assert Ipv4Segment(buf, proto) == Ipv4PseudoHeader(addrs[..4], addrs[4..], proto, len) + payload;
    sum
  }

  /**
   * The IPv6 branch of upper_layer_chksum: length plus next header, then the
   * source and destination addresses, then the payload behind the extension
   * headers.  The result is the ones'-complement sum of the RFC 8200
   * pseudo-header followed by the payload.
   */
  function Ipv6UpperLayerSum(buf: seq<uint8>, extLen: uint8, proto: uint8): (sum: uint16)
    requires |buf| == BUFFER_SIZE && Ipv6PayloadInBuffer(buf, extLen)
    ensures sum == OnesComplementSum(Ipv6Segment(buf, extLen, proto))
  {
    var ip, len := LLH_LEN, Ipv6UpperLayerLen(buf, extLen);
    var start := ip + IPV6_HEADER_LEN + extLen;
    var addrs := buf[ip + 8..ip + 40];
    var payload := buf[start..start + len];
    var sum := (len + proto) % 0x1_0000;
    var sum := Chksum(sum, addrs);
    var sum := Chksum(sum, payload);
    assert len < BUFFER_SIZE;
    NoTruncation(len + proto);
    assert addrs[..16] == buf[ip + 8..ip + 24] && addrs[16..] == buf[ip + 24..ip + 40];
    Ipv6PseudoHeaderSum(addrs, proto, len, payload);
    assert Ipv6Segment(buf, extLen, proto) == Ipv6PseudoHeader(addrs[..16], addrs[16..], len, proto) + payload;
    sum
  }

  /**
   * Summing length plus protocol, then the two IPv4 addresses, then the
   * payload, as upper_layer_chksum does, gives the ones'-complement sum of
   * the RFC 768 pseudo-header followed by the payload.
   */
  lemma Ipv4PseudoHeaderSum(addrs: seq<uint8>, proto: uint8, len: uint16, payload: seq<uint8>)
    requires |addrs| == 8 && len + proto < 0x1_0000
    ensures Chksum(Chksum(len + proto, addrs), payload)
            == OnesComplementSum(Ipv4PseudoHeader(addrs[..4], addrs[4..], proto, len) + payload)
  {
    var tail: seq<uint8> := [0, proto, len / 0x100, len % 0x100];
    Ipv4PseudoTailSum(proto, len);
    PseudoHeaderFirst(len + proto, addrs, tail, payload);
    assert addrs[..4] + addrs[4..] == addrs;
  }

  /** The protocol and length words of the IPv4 pseudo-header add up to both. */
  lemma Ipv4PseudoTailSum(proto: uint8, len: uint16)
    ensures WordSum([0, proto, len / 0x100, len % 0x100]) == proto + len
  {
    WordSumOfFour(0, proto, len / 0x100, len % 0x100);
    WordOfBytes(len);
  }

  /**
   * Summing length plus next header, then the two IPv6 addresses, then the
   * payload gives the ones'-complement sum of the RFC 8200 pseudo-header
   * followed by the payload.
   */
  lemma Ipv6PseudoHeaderSum(addrs: seq<uint8>, next: uint8, len: uint16, payload: seq<uint8>)
    requires |addrs| == 32 && len + next < 0x1_0000
    ensures Chksum(Chksum(len + next, addrs), payload)
            == OnesComplementSum(Ipv6PseudoHeader(addrs[..16], addrs[16..], len, next) + payload)
  {
    var tail := ToBigEndian32(len) + [0, 0, 0, next];
    assert addrs[..16] + addrs[16..] == addrs;
    assert Ipv6PseudoHeader(addrs[..16], addrs[16..], len, next) == addrs + tail;
    Ipv6PseudoTailSum(len, next);
    PseudoHeaderFirst(len + next, addrs, tail, payload);
  }

  /** The length and next-header words of the IPv6 pseudo-header add up to both. */
  lemma Ipv6PseudoTailSum(len: uint16, next: uint8)
    ensures WordSum(ToBigEndian32(len) + [0, 0, 0, next]) == len + next
  {
    ToBigEndian32Short(len);
    WordSumAppend(ToBigEndian32(len), [0, 0, 0, next]);
    WordSumOfFour(0, 0, len / 0x100, len % 0x100);
    WordSumOfFour(0, 0, 0, next);
    WordOfBytes(len);
  }

  /**
   * Starting the sum from the words of the pseudo-header fields that follow
   * the addresses is the same as summing those fields in their place.
   */
  lemma PseudoHeaderFirst(start: uint16, addrs: seq<uint8>, tail: seq<uint8>, payload: seq<uint8>)
    requires |addrs| % 2 == 0 && |tail| % 2 == 0 && WordSum(tail) == start
    ensures Chksum(Chksum(start, addrs), payload) == OnesComplementSum(addrs + tail + payload)
  {
    ChksumCompose(start, addrs, payload);
    WordSumAppend(addrs, payload);
    WordSumSplit(addrs, tail, payload);
    SameFold(start + WordSum(addrs + payload), WordSum(addrs + tail + payload));
  }

  /** A value that fits 16 bits is unchanged by the u16_t truncation. */
  lemma NoTruncation(x: int)
    requires 0 <= x < 0x1_0000
    ensures x % 0x1_0000 == x
  {
  }

  /** Four bytes make two words. */
  lemma WordSumOfFour(a: uint8, b: uint8, c: uint8, d: uint8)
    ensures WordSum([a, b, c, d]) == Word(a, b) + Word(c, d)
  {
    var s := [a, b, c, d];
    assert s[2..] == [c, d];
    assert s[2..][2..] == [];
    assert WordSum(s[2..]) == Word(c, d) + WordSum(s[2..][2..]);
  }

  /** uip_icmp6chksum: the ICMPv6 checksum (RFC 4443 section 2.3). */
  function UipIcmp6Chksum(buf: seq<uint8>, extLen: uint8): (r: uint16)
    requires |buf| == BUFFER_SIZE && Ipv6PayloadInBuffer(buf, extLen)
    ensures r != 0
    ensures r == Finish(OnesComplementSum(Ipv6Segment(buf, extLen, PROTO_ICMP6)))
  {
    UpperLayerChksum(buf, 6, PROTO_ICMP6, extLen)
  }

  /** uip_tcpchksum: the TCP checksum over IPv6. */
  function UipTcpChksum(buf: seq<uint8>, extLen: uint8): (r: uint16)
    requires |buf| == BUFFER_SIZE && Ipv6PayloadInBuffer(buf, extLen)
    ensures r != 0
    ensures r == Finish(OnesComplementSum(Ipv6Segment(buf, extLen, PROTO_TCP)))
  {
    UpperLayerChksum(buf, 6, PROTO_TCP, extLen)
  }

  /** uip_udpchksum: the UDP checksum over IPv6. */
  function UipUdpChksum(buf: seq<uint8>, extLen: uint8): (r: uint16)
    requires |buf| == BUFFER_SIZE && Ipv6PayloadInBuffer(buf, extLen)
    ensures r != 0
    ensures r == Finish(OnesComplementSum(Ipv6Segment(buf, extLen, PROTO_UDP)))
  {
    UpperLayerChksum(buf, 6, PROTO_UDP, extLen)
  }

  /** uipv4_tcpchksum: the TCP checksum over IPv4; uip_ext_len plays no part. */
  function Uipv4TcpChksum(buf: seq<uint8>): (r: uint16)
    requires |buf| == BUFFER_SIZE && Ipv4PayloadInBuffer(buf)
    ensures r != 0
    ensures r == Finish(OnesComplementSum(Ipv4Segment(buf, PROTO_TCP)))
  {
    UpperLayerChksum(buf, 4, PROTO_TCP, 0)
  }

  /** uipv4_udpchksum: the UDP checksum over IPv4. */
  function Uipv4UdpChksum(buf: seq<uint8>): (r: uint16)
    requires |buf| == BUFFER_SIZE && Ipv4PayloadInBuffer(buf)
    ensures r != 0
    ensures r == Finish(OnesComplementSum(Ipv4Segment(buf, PROTO_UDP)))
  {
    UpperLayerChksum(buf, 4, PROTO_UDP, 0)
  }
}
