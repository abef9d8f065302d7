/** Ethernet, IPv4 and UDP frames as the three frame builders write them. */
module Frames {
  import opened Core
  import opened Checksum
  import opened Wire

  const FRAME: nat := 1514
  const HEADERS: nat := 42

  const BROADCAST: bytes := [255, 255, 255, 255, 255, 255]

  /** The 20-byte IPv4 header; `mid` holds identification, flags and fragment offset. */
  function IpHeader(total: nat, mid: bytes, cksum: nat, srcIp: bytes, dstIp: bytes): bytes
    requires total < 65536 && cksum < 65536
  {
    [0x45, 0] + Be16(total) + mid + [64, 17] + Be16(cksum) + srcIp + dstIp
  }

  /** The header with the checksum computed while its field held `f`. */
  function Summed(total: nat, mid: bytes, f: nat, srcIp: bytes, dstIp: bytes): bytes
    requires total < 65536 && f < 65536
  {
    IpHeader(total, mid, ChecksumOf(IpHeader(total, mid, f, srcIp, dstIp)), srcIp, dstIp)
  }

  function UdpHeader(srcPort: nat, dstPort: nat, len: nat, cksum: bytes): bytes
    requires srcPort < 65536 && dstPort < 65536 && len < 65536
  {
    Be16(srcPort) + Be16(dstPort) + Be16(len) + cksum
  }

  function EthHeader(dst: bytes, src: bytes): bytes {
    dst + src + [8, 0]
  }

  /** A header verifies when its checksum field was zero, in one's complement, on entry. */
  lemma {:induction false} HeaderVerifiesIff(total: nat, mid: bytes, f: nat, srcIp: bytes, dstIp: bytes)
    requires total < 65536 && f < 65536 && |mid| == 4 && |srcIp| == 4 && |dstIp| == 4
    ensures ChecksumOf(Summed(total, mid, f, srcIp, dstIp)) == 0 <==> f == 0 || f == 65535
  {
    hide ChecksumOf, Sum16;
    var pre, post := [0x45, 0] + Be16(total) + mid + [64, 17], srcIp + dstIp;
    HeaderSum(pre);
    VerifiesIff(pre, f, post);
    forall c: nat | c < 65536 ensures IpHeader(total, mid, c, srcIp, dstIp) == pre + Be16(c) + post {
    }
  }

  lemma HeaderSum(pre: bytes)
    requires |pre| >= 2 && pre[0] == 0x45
    ensures Sum16(pre) > 0
  {
  }

  method PutEth(dst: bytes, src: bytes, frame: array<byte>)
    requires |dst| == 6 && |src| == 6 && frame.Length == FRAME
    modifies frame
    ensures frame[..14] == EthHeader(dst, src)
    ensures forall i :: 14 <= i < frame.Length ==> frame[i] == old(frame[i])
  {
    Put(frame, 0, dst);
    Put(frame, 6, src);
    Put(frame, 12, [8, 0]);
  }

  /** The IPv4 header with a zero checksum field. */
  method PutIp(total: nat, mid: bytes, srcIp: bytes, dstIp: bytes, frame: array<byte>)
    requires total < 65536 && |mid| == 4 && |srcIp| == 4 && |dstIp| == 4 && frame.Length == FRAME
    modifies frame
    ensures frame[..34] == old(frame[..14]) + IpHeader(total, mid, 0, srcIp, dstIp)
    ensures forall i :: 34 <= i < frame.Length ==> frame[i] == old(frame[i])
  {
    hide Be16;
    ghost var eth := frame[..14];
    Put(frame, 14, [0x45, 0]);
    Put(frame, 16, Be16(total));
    Put(frame, 18, mid);
    Put(frame, 22, [64, 17]);
    Put(frame, 24, Be16(0));
    Put(frame, 26, srcIp);
    Put(frame, 30, dstIp);
    assert frame[..34] == eth + ([0x45, 0] + Be16(total) + mid + [64, 17] + Be16(0) + srcIp + dstIp);
  }

  /** The UDP header and the payload. */
  method PutUdp(srcPort: nat, dstPort: nat, cksum: bytes, payload: bytes, frame: array<byte>)
    requires srcPort < 65536 && dstPort < 65536 && |cksum| == 2 && |payload| <= FRAME - HEADERS && frame.Length == FRAME
    modifies frame
    ensures frame[..42 + |payload|] == old(frame[..34]) + UdpHeader(srcPort, dstPort, 8 + |payload|, cksum) + payload
    ensures forall i :: 42 + |payload| <= i < frame.Length ==> frame[i] == old(frame[i])
  {
    hide Be16;
    ghost var before := frame[..34];
    Put(frame, 34, Be16(srcPort));
    Put(frame, 36, Be16(dstPort));
    Put(frame, 38, Be16(8 + |payload|));
    Put(frame, 40, cksum);
    assert frame[..42] == before + (Be16(srcPort) + Be16(dstPort) + Be16(8 + |payload|) + cksum);
    Put(frame, 42, payload);
  }

  /** The header sum written out in the TFTP frame builder. */
  method InlineChecksum(frame: array<byte>) returns (c: nat)
    requires frame.Length == FRAME
    ensures c == ChecksumOf(frame[14..34])
  {
    hide ChecksumOf, Sum16, Fold;
    ghost var header := frame[14..34];
    var sum: nat, i: nat := 0, 14;
    while i < 34
      invariant 14 <= i <= 34 && i % 2 == 0 && sum + Sum16(frame[i..34]) == Sum16(header)
    {
      SumStep(frame[i..34]);
      assert frame[i..34][2..] == frame[i + 2..34];
      sum := sum + FromBe16(frame[i], frame[i + 1]);
      i := i + 2;
    }
    SumEmpty();
    c := Complement(sum);
    ChecksumDef(header);
  }

  lemma SumStep(s: bytes)
    requires |s| >= 2
    ensures Sum16(s) == FromBe16(s[0], s[1]) + Sum16(s[2..])
  {
  }

  lemma SumEmpty()
    ensures Sum16([]) == 0
  {
  }

  lemma ChecksumDef(s: bytes)
    ensures ChecksumOf(s) == 65535 - Fold(Sum16(s))
  {
  }

  /** A frame: the headers and the payload. */
  function UdpFrame(dst: bytes, src: bytes, ip: bytes, srcPort: nat, dstPort: nat, cksum: bytes, payload: bytes): bytes
    requires srcPort < 65536 && dstPort < 65536 && |payload| <= FRAME - HEADERS
  {
    EthHeader(dst, src) + ip + UdpHeader(srcPort, dstPort, 8 + |payload|, cksum) + payload
  }

  /** Writing the checksum field of a header. */
  lemma PlaceChecksum(eth: bytes, total: nat, mid: bytes, f: nat, c: nat, srcIp: bytes, dstIp: bytes)
    requires |eth| == 14 && total < 65536 && |mid| == 4 && f < 65536 && c < 65536 && |srcIp| == 4 && |dstIp| == 4
    ensures var before := eth + IpHeader(total, mid, f, srcIp, dstIp);
            |before| == 34 && before[14..] == IpHeader(total, mid, f, srcIp, dstIp) &&
            before[..24] + Be16(c) + before[26..] == eth + IpHeader(total, mid, c, srcIp, dstIp)
  {
    hide Be16;
    var pre, post := [0x45, 0] + Be16(total) + mid + [64, 17], srcIp + dstIp;
    assert forall x: nat | x < 65536 :: IpHeader(total, mid, x, srcIp, dstIp) == pre + Be16(x) + post;
    var before := eth + (pre + Be16(f) + post);
    assert before[..24] == eth + pre && before[26..] == post;
  }

  method PutChecksum(ghost eth: bytes, ghost total: nat, ghost mid: bytes, ghost f: nat,
                     ghost srcIp: bytes, ghost dstIp: bytes, c: nat, frame: array<byte>)
    requires |eth| == 14 && total < 65536 && |mid| == 4 && f < 65536 && c < 65536 && |srcIp| == 4 && |dstIp| == 4
    requires frame.Length == FRAME && frame[..34] == eth + IpHeader(total, mid, f, srcIp, dstIp)
    modifies frame
    ensures frame[..34] == eth + IpHeader(total, mid, c, srcIp, dstIp)
    ensures forall i :: 34 <= i < frame.Length ==> frame[i] == old(frame[i])
  {
    hide IpHeader;
    ghost var before := frame[..34];
    PlaceChecksum(eth, total, mid, f, c, srcIp, dstIp);
    frame[24], frame[25] := c / 256, c % 256;
    assert frame[..34] == before[..24] + Be16(c) + before[26..];
  }

  /** The IPv4 header of a frame whose first 34 bytes are known. */
  lemma HeaderOf(frame: bytes, eth: bytes, total: nat, mid: bytes, f: nat, srcIp: bytes, dstIp: bytes)
    requires |eth| == 14 && total < 65536 && |mid| == 4 && f < 65536 && |srcIp| == 4 && |dstIp| == 4
    requires |frame| == FRAME && frame[..34] == eth + IpHeader(total, mid, f, srcIp, dstIp)
    ensures frame[14..34] == IpHeader(total, mid, f, srcIp, dstIp)
  {
    assert frame[14..34] == frame[..34][14..];
  }

  /** TFTP: broadcast, checksum summed inline. A payload that does not fit panics. */
  method BuildUdpFrame(srcMac: bytes, srcIp: bytes, dstIp: bytes, srcPort: nat, dstPort: nat, payload: bytes,
                       frame: array<byte>)
    returns (r: Checked<nat>)
    requires |srcMac| == 6 && |srcIp| == 4 && |dstIp| == 4 && srcPort < 65536 && dstPort < 65536
    requires frame.Length == FRAME
    modifies frame
    ensures r.Panicked? <==> |payload| > FRAME - HEADERS
    ensures r.Returned? ==>
              r.value == HEADERS + |payload| && frame[r.value..] == old(frame[r.value..]) &&
              frame[..r.value] == UdpFrame(BROADCAST, srcMac, Summed(28 + |payload|, [0, 0, 64, 0], 0, srcIp, dstIp),
                                           srcPort, dstPort, [0, 0], payload)
  {
    hide ChecksumOf, EthHeader, Be16, IpHeader, UdpHeader;
    if HEADERS + |payload| > frame.Length {
      return Panicked;
    }
    var total := 28 + |payload|;
    ghost var eth, mid: bytes := EthHeader(BROADCAST, srcMac), [0, 0, 64, 0];
    PutEth(BROADCAST, srcMac, frame);
    PutIp(total, [0, 0, 64, 0], srcIp, dstIp, frame);
    HeaderOf(frame[..], eth, total, mid, 0, srcIp, dstIp);
    var c := InlineChecksum(frame);
    PutChecksum(eth, total, mid, 0, srcIp, dstIp, c, frame);
    PutUdp(srcPort, dstPort, [0, 0], payload, frame);
    return Returned(14 + total);
  }

  /** DNS: unicast to port 53. */
  method BuildDnsFrame(srcMac: bytes, srcIp: bytes, dstMac: bytes, dstIp: bytes, srcPort: nat, query: bytes, queryLen: nat,
                       frame: array<byte>)
    returns (r: Checked<nat>)
    requires |srcMac| == 6 && |dstMac| == 6 && |srcIp| == 4 && |dstIp| == 4 && srcPort < 65536
    requires frame.Length == FRAME
    modifies frame
    ensures r.Panicked? <==> queryLen > FRAME - HEADERS || queryLen > |query|
    ensures r.Returned? ==>
              r.value == HEADERS + queryLen && frame[r.value..] == old(frame[r.value..]) &&
              frame[..r.value] == UdpFrame(dstMac, srcMac, Summed(28 + queryLen, [0, 0, 0, 0], 0, srcIp, dstIp),
                                           srcPort, 53, [0, 0], query[..queryLen])
  {
    hide ChecksumOf, EthHeader, Be16, IpHeader, UdpHeader, Sum16;
    if HEADERS + queryLen > frame.Length || queryLen > |query| {
      return Panicked;
    }
    var total := 28 + queryLen;
    ghost var eth, mid: bytes := EthHeader(dstMac, srcMac), [0, 0, 0, 0];
    PutEth(dstMac, srcMac, frame);
    PutIp(total, [0, 0, 0, 0], srcIp, dstIp, frame);
    HeaderOf(frame[..], eth, total, mid, 0, srcIp, dstIp);
    SmallFits(frame[14..34]);   // so either build mode returns the same
    var c := IpChecksum(frame[14..34], true);
    PutChecksum(eth, total, mid, 0, srcIp, dstIp, c.value, frame);
    PutUdp(srcPort, 53, [0, 0], query[..queryLen], frame);
    return Returned(14 + total);
  }

  /** DHCP: the fields not written (identification, flags and fragment offset, the checksum
      field on entry, the UDP checksum) are what the caller's buffer held. */
  method BuildDhcpFrame(mac: bytes, payload: bytes, len: nat, frame: array<byte>) returns (r: Checked<nat>)
    requires |mac| == 6 && frame.Length == FRAME
    modifies frame
    ensures r.Panicked? <==> len > FRAME - HEADERS || len > |payload|
    ensures r.Returned? ==>
              r.value == HEADERS + len && frame[r.value..] == old(frame[r.value..]) &&
              var f := FromBe16(old(frame[24]), old(frame[25]));
              frame[..r.value] == UdpFrame(BROADCAST, mac, Summed(28 + len, old(frame[18..22]), f, NOWHERE, EVERYWHERE),
                                           68, 67, old(frame[40..42]), payload[..len])
  {
    hide ChecksumOf, EthHeader, Be16, IpHeader, UdpHeader, Sum16, FromBe16;
    if HEADERS + len > frame.Length || len > |payload| {
      return Panicked;
    }
    var total := 28 + len;
    ghost var eth, mid, f := EthHeader(BROADCAST, mac), frame[18..22], FromBe16(frame[24], frame[25]);
    var udpSum := frame[40..42];
    PutEth(BROADCAST, mac, frame);
    assert frame[18..22] == mid;
    PutDhcpIp(total, frame);
    HeaderOf(frame[..], eth, total, mid, f, NOWHERE, EVERYWHERE);
    SmallFits(frame[14..34]);   // so either build mode returns the same
    var c := IpChecksum(frame[14..34], true);
    PutChecksum(eth, total, mid, f, NOWHERE, EVERYWHERE, c.value, frame);
    PutUdp(68, 67, udpSum, payload[..len], frame);
    return Returned(14 + total);
  }

  const NOWHERE: bytes := [0, 0, 0, 0]
  const EVERYWHERE: bytes := [255, 255, 255, 255]

  lemma FieldBytes(a: byte, b: byte)
    ensures Be16(FromBe16(a, b)) == [a, b]
  {
  }

  method PutDhcpIp(total: nat, frame: array<byte>)
    requires total < 65536 && frame.Length == FRAME
    modifies frame
    ensures frame[..34] == old(frame[..14]) +
                           IpHeader(total, old(frame[18..22]), FromBe16(old(frame[24]), old(frame[25])), NOWHERE, EVERYWHERE)
    ensures forall i :: 34 <= i < frame.Length ==> frame[i] == old(frame[i])
  {
    hide Be16, FromBe16;
    ghost var eth, mid, a, b := frame[..14], frame[18..22], frame[24], frame[25];
    FieldBytes(a, b);
    Put(frame, 14, [0x45, 0]);
    Put(frame, 16, Be16(total));
    assert frame[..22] == frame[..18] + mid;
    Put(frame, 22, [64, 17]);
    assert frame[..26] == frame[..24] + [a, b];
    Put(frame, 26, NOWHERE);
    Put(frame, 30, EVERYWHERE);
    assert frame[..34] == eth + ([0x45, 0] + Be16(total) + mid + [64, 17] + Be16(FromBe16(a, b)) + NOWHERE + EVERYWHERE);
  }

  // ----- reading a frame -----

  /** The UDP payload of a received frame, bounded by the UDP length. */
  function UdpPayload(frame: bytes, len: nat): Option<bytes>
    requires len <= |frame|
  {
    if len < HEADERS || frame[12] != 8 || frame[13] != 0 then None
    else
      var udp := 14 + frame[14] % 16 * 4;
      if udp + 8 > len then None
      else
        var end := udp + FromBe16(frame[udp + 4], frame[udp + 5]);
        if udp + 8 > end then None
        else Some(frame[udp + 8..if end <= len then end else len])
  }

  /** Whatever follows a built frame in the buffer (such as a frame check sequence), the
      payload read back is the one put in. */
  lemma {:induction false} PayloadRoundTrip(
      dst: bytes, src: bytes, total: nat, mid: bytes, c: nat, srcIp: bytes, dstIp: bytes,
      srcPort: nat, dstPort: nat, cksum: bytes, payload: bytes, trailer: bytes)
    requires |dst| == 6 && |src| == 6 && total < 65536 && |mid| == 4 && c < 65536 && |srcIp| == 4 && |dstIp| == 4
    requires srcPort < 65536 && dstPort < 65536 && |cksum| == 2 && |payload| <= FRAME - HEADERS
    ensures var ip := IpHeader(total, mid, c, srcIp, dstIp);
            var frame := UdpFrame(dst, src, ip, srcPort, dstPort, cksum, payload) + trailer;
            UdpPayload(frame, |frame|) == Some(payload)
  {
    hide Be16, FromBe16;
    var eth, ip := EthHeader(dst, src), IpHeader(total, mid, c, srcIp, dstIp);
    var udp := UdpHeader(srcPort, dstPort, 8 + |payload|, cksum);
    var len := Be16(8 + |payload|);
    assert udp[4] == len[0] && udp[5] == len[1];
    Be16RoundTrip(8 + |payload|);
    LayersApart(eth, ip, udp, payload, trailer);
  }

  lemma {:induction false} LayersApart(eth: bytes, ip: bytes, udp: bytes, payload: bytes, trailer: bytes)
    requires |eth| == 14 && eth[12..] == [8, 0] && |ip| == 20 && ip[0] == 0x45 && |udp| == 8
    requires FromBe16(udp[4], udp[5]) == 8 + |payload|
    ensures var frame := eth + ip + udp + payload + trailer;
            UdpPayload(frame, |frame|) == Some(payload)
  {
    hide FromBe16;
    var frame := eth + ip + udp + payload + trailer;
    assert eth[12] == eth[12..][0] && eth[13] == eth[12..][1];
    assert frame[14] == ip[0] && frame[38] == udp[4] && frame[39] == udp[5];
    assert frame[42..42 + |payload|] == payload;
  }
}
