/** Packets and frames byte by byte: where each field stands, in which order and with which
    constants. */
module WireLaws {
  import opened Core
  import opened Wire
  import opened Checksum
  import opened Frames
  import Dns
  import opened TftpWire
  import TftpTransfer

  // ----- checksums and frames -----

  /** Words are big-endian; an odd last byte is a high byte. */
  lemma SumMeans(hi: byte, lo: byte, rest: bytes)
    ensures Sum16([]) == 0 && Sum16([hi]) == 256 * hi && Sum16([hi, lo] + rest) == 256 * hi + lo + Sum16(rest)
  {
    assert ([hi, lo] + rest)[2..] == rest;
  }

  /** Ethernet: destination, source, type; IPv4: version, total length, lifetime, protocol, source,
      destination; UDP: source port, destination port, length, then the payload. */
  lemma FrameFields(dst: bytes, src: bytes, mid: bytes, f: nat, srcIp: bytes, dstIp: bytes, srcPort: nat, dstPort: nat,
                    sum: bytes, payload: bytes)
    requires |dst| == 6 && |src| == 6 && |mid| == 4 && f < 65536 && |srcIp| == 4 && |dstIp| == 4 && |sum| == 2
    requires srcPort < 65536 && dstPort < 65536 && |payload| <= FRAME - HEADERS
    ensures var n := |payload|;
            var p := UdpFrame(dst, src, Summed(28 + n, mid, f, srcIp, dstIp), srcPort, dstPort, sum, payload);
            |p| == 42 + n &&
            p[0..6] == dst && p[6..12] == src && p[12..14] == [0x08, 0x00] &&
            p[14..16] == [0x45, 0x00] && p[16..18] == [(28 + n) / 256, (28 + n) % 256] && p[18..22] == mid &&
            p[22] == 64 && p[23] == 17 && p[26..30] == srcIp && p[30..34] == dstIp &&
            p[34..36] == [srcPort / 256, srcPort % 256] && p[36..38] == [dstPort / 256, dstPort % 256] &&
            p[38..40] == [(8 + n) / 256, (8 + n) % 256] && p[40..42] == sum && p[42..] == payload
  {
    hide ChecksumOf;
    var n := |payload|;
    var ip := Summed(28 + n, mid, f, srcIp, dstIp);
    HeaderFields(28 + n, mid, ChecksumOf(IpHeader(28 + n, mid, f, srcIp, dstIp)), srcIp, dstIp);
    hide Summed, IpHeader, UdpHeader, EthHeader, Be16;
    EthLength(dst, src);
    var eth, udp := EthHeader(dst, src), UdpHeader(srcPort, dstPort, 8 + n, sum);
    UdpFields(srcPort, dstPort, 8 + n, sum);
    var p := eth + ip + udp + payload;
    FrameParts(eth, ip, udp, payload);
    EthInFrame(p, dst, src);
    IpInFrame(p, ip);
    UdpInFrame(p, udp);
  }

  lemma EthInFrame(p: bytes, dst: bytes, src: bytes)
    requires |p| >= 14 && |dst| == 6 && |src| == 6 && p[..14] == EthHeader(dst, src)
    ensures p[0..6] == dst && p[6..12] == src && p[12..14] == [0x08, 0x00]
  {
    var eth := EthHeader(dst, src);
    SliceOfSlice(p, 0, 14, 0, 6);
    SliceOfSlice(p, 0, 14, 6, 12);
    SliceOfSlice(p, 0, 14, 12, 14);
    assert eth[0..6] == dst && eth[6..12] == src && eth[12..14] == [8, 0] && p[0..14] == eth;
  }

  lemma IpInFrame(p: bytes, ip: bytes)
    requires |p| >= 34 && |ip| == 20 && p[14..34] == ip
    ensures p[14..16] == ip[0..2] && p[16..18] == ip[2..4] && p[18..22] == ip[4..8]
    ensures p[22] == ip[8] && p[23] == ip[9] && p[26..30] == ip[12..16] && p[30..34] == ip[16..20]
  {
    SliceOfSlice(p, 14, 34, 0, 2);
    SliceOfSlice(p, 14, 34, 2, 4);
    SliceOfSlice(p, 14, 34, 4, 8);
    SliceOfSlice(p, 14, 34, 12, 16);
    SliceOfSlice(p, 14, 34, 16, 20);
  }

  lemma UdpInFrame(p: bytes, udp: bytes)
    requires |p| >= 42 && |udp| == 8 && p[34..42] == udp
    ensures p[34..36] == udp[0..2] && p[36..38] == udp[2..4] && p[38..40] == udp[4..6] && p[40..42] == udp[6..8]
  {
    SliceOfSlice(p, 34, 42, 0, 2);
    SliceOfSlice(p, 34, 42, 2, 4);
    SliceOfSlice(p, 34, 42, 4, 6);
    SliceOfSlice(p, 34, 42, 6, 8);
  }

  lemma EthLength(dst: bytes, src: bytes)
    ensures |EthHeader(dst, src)| == |dst| + |src| + 2
  {}

  lemma FrameParts(eth: bytes, ip: bytes, udp: bytes, payload: bytes)
    requires |eth| == 14 && |ip| == 20 && |udp| == 8
    ensures var p := eth + ip + udp + payload;
            p[..14] == eth && p[14..34] == ip && p[34..42] == udp && p[42..] == payload
  {}

  lemma HeaderFields(total: nat, mid: bytes, cksum: nat, srcIp: bytes, dstIp: bytes)
    requires total < 65536 && cksum < 65536 && |mid| == 4 && |srcIp| == 4 && |dstIp| == 4
    ensures var h := IpHeader(total, mid, cksum, srcIp, dstIp);
            |h| == 20 && h[0..2] == [0x45, 0x00] && h[2..4] == [total / 256, total % 256] && h[4..8] == mid &&
            h[8] == 64 && h[9] == 17 && h[10..12] == [cksum / 256, cksum % 256] && h[12..16] == srcIp && h[16..20] == dstIp
  {}

  lemma UdpFields(srcPort: nat, dstPort: nat, len: nat, sum: bytes)
    requires srcPort < 65536 && dstPort < 65536 && len < 65536 && |sum| == 2
    ensures var h := UdpHeader(srcPort, dstPort, len, sum);
            |h| == 8 && h[0..2] == [srcPort / 256, srcPort % 256] && h[2..4] == [dstPort / 256, dstPort % 256] &&
            h[4..6] == [len / 256, len % 256] && h[6..8] == sum
  {}

  // ----- DNS -----

  /** A query: identifier, recursion desired, one question; then each label behind its length, a
      zero byte, type A and class IN. */
  lemma QueryMeans(id: nat, ls: seq<bytes>)
    requires id < 65536 && Dns.ShortLabels(ls)
    ensures Dns.Query(id, ls) ==
            [id / 256, id % 256, 1, 0, 0, 1, 0, 0, 0, 0, 0, 0] + Dns.Encode(ls) + [0] + [0, 1, 0, 1]
    ensures Dns.Encode([]) == []
    ensures ls != [] ==>
              1 <= |ls[0]| <= 63 && Dns.ShortLabels(ls[1..]) && Dns.Encode(ls) == [|ls[0]|] + ls[0] + Dns.Encode(ls[1..])
  {
    hide Dns.Encode;
    assert Dns.Header(id) == [id / 256, id % 256, 1, 0, 0, 1, 0, 0, 0, 0, 0, 0];
    EncodeParts(ls);
  }

  lemma EncodeParts(ls: seq<bytes>)
    requires Dns.ShortLabels(ls)
    ensures Dns.Encode([]) == []
    ensures ls != [] ==>
              1 <= |ls[0]| <= 63 && Dns.ShortLabels(ls[1..]) && Dns.Encode(ls) == [|ls[0]|] + ls[0] + Dns.Encode(ls[1..])
  {
    if ls != [] {
      assert Dns.ShortLabel(ls[0]);
    }
  }

  /** A query can be built for names of at most 242 bytes with labels of 1 to 63. */
  lemma AcceptedMeans(name: bytes)
    ensures Dns.Accepted(name) <==>
            |name| <= 242 && forall i :: 0 <= i < |Dns.Split(name, 0)| ==> 1 <= |Dns.Split(name, 0)[i]| <= 63
  {
    hide Dns.Split;
    var ls := Dns.Split(name, 0);
    if Dns.Accepted(name) {
      forall i | 0 <= i < |ls| ensures 1 <= |ls[i]| <= 63 {
        assert Dns.ShortLabel(ls[i]);
      }
    }
  }

  /** A name ends behind a zero byte, or behind the two bytes of a pointer; a label is skipped with
      the byte that holds its length. */
  lemma SkipMeans(p: bytes, len: nat, off: nat)
    requires len <= |p|
    ensures Dns.NameEnd(p, len, off) ==
            if off >= len then None
            else if p[off] == 0 then Some(off + 1)
            else if p[off] >= 0xC0 then Some(off + 2)
            else Dns.NameEnd(p, len, off + 1 + p[off])
  {}

  lemma Broadcasts()
    ensures BROADCAST == [0xFF, 0xFF, 0xFF, 0xFF, 0xFF, 0xFF]
    ensures NOWHERE == [0, 0, 0, 0] && EVERYWHERE == [0xFF, 0xFF, 0xFF, 0xFF]
  {}

  /** Names are cut at their dots. */
  lemma SplitMeans(a: bytes, b: bytes)
    requires '.' as int !in a
    ensures Dns.Split(a, 0) == [a] && Dns.Split(a + ['.' as int] + b, 0) == [a] + Dns.Split(b, 0)
  {
    hide Dns.DotFrom;
    DotBehind(a, [], 0);
    assert a + [] == a && a[0..] == a;
    Dns.SplitCases(a, 0);
    var name := a + ['.' as int] + b;
    DotBehind(a, ['.' as int] + b, 0);
    assert name == a + (['.' as int] + b);
    Dns.SplitCases(name, 0);
    assert name[0..|a|] == a;
    SplitShift(name, |a| + 1, 0);
    assert name[|a| + 1..] == b;
  }

  lemma {:induction false} DotBehind(a: bytes, rest: bytes, k: nat)
    requires '.' as int !in a && k <= |a| && (rest == [] || rest[0] == '.' as int)
    ensures Dns.DotFrom(a + rest, k) == |a|
    decreases |a| - k
  {
    if k < |a| {
      assert (a + rest)[k] == a[k] && a[k] in a;
      DotBehind(a, rest, k + 1);
    }
  }

  lemma {:induction false} SplitShift(name: bytes, k: nat, from: nat)
    requires k + from <= |name|
    ensures Dns.Split(name[k..], from) == Dns.Split(name, k + from)
    decreases |name| - k - from
  {
    hide Dns.DotFrom, Dns.Split;
    DotShift(name, k, from);
    var e := Dns.DotFrom(name[k..], from);
    Dns.SplitCases(name[k..], from);
    Dns.SplitCases(name, k + from);
    SliceOfSlice(name, k, |name|, from, e);
    SliceOfSlice(name, k, |name|, from, |name| - k);
    assert name[k..|name|] == name[k..];
    if k + e < |name| {
      SplitShift(name, k, e + 1);
    }
  }

  lemma {:induction false} DotShift(name: bytes, k: nat, from: nat)
    requires k + from <= |name|
    ensures Dns.DotFrom(name[k..], from) + k == Dns.DotFrom(name, k + from)
    decreases |name| - k - from
  {
    if k + from < |name| && name[k + from] != '.' as int {
      DotShift(name, k, from + 1);
    }
  }

  // ----- TFTP -----

  /** The packets: operation code and block number in two bytes each, names ended by zeros. */
  lemma PacketsMean(block: nat, data: bytes, name: bytes, opts: seq<Opt>)
    requires block < 65536
    ensures DataPacket(block, data) == [0, 3, block / 256, block % 256] + data
    ensures AckPacket(block) == [0, 4, block / 256, block % 256]
    ensures RrqPacket(name) == [0, 1] + name + [0] + Ascii("octet") + [0]
    ensures OackPacket(opts) == [0, 6] + OptionBytes(opts)
    ensures OptionBytes([]) == []
    ensures opts != [] ==>
              OptionBytes(opts) == opts[0].key + [0] + opts[0].value + [0] + OptionBytes(opts[1..])
    ensures RrqName(name) == if |name| <= 128 then name else name[..128]
  {
    hide OptionBytes;
    OptionParts(opts);
  }

  lemma OptionParts(opts: seq<Opt>)
    ensures OptionBytes([]) == []
    ensures opts != [] ==> OptionBytes(opts) == opts[0].key + [0] + opts[0].value + [0] + OptionBytes(opts[1..])
  {}

  /** Digits are decimal, most significant first. */
  lemma DigitsMean(s: bytes, d: nat)
    requires d <= 9
    ensures DecimalValue([]) == Some(0)
    ensures DecimalValue(s + [0x30 + d]) == match DecimalValue(s) case None => None case Some(v) => Some(10 * v + d)
  {
    assert (s + [0x30 + d])[..|s|] == s;
  }

  /** `blksize` sets the block size, `tsize` the file size; other options change nothing. */
  lemma OptionsMean(value: bytes, key: bytes, blksize: nat, tsize: nat)
    requires DecimalValue(value).Some? && DecimalValue(value).value < 0x1_0000_0000_0000_0000
    ensures Negotiate(Opt(Ascii("blksize"), value), blksize, tsize) == (DecimalValue(value).value, tsize)
    ensures Negotiate(Opt(Ascii("tsize"), value), blksize, tsize) == (blksize, DecimalValue(value).value)
    ensures key != Ascii("blksize") && key != Ascii("tsize") ==>
              Negotiate(Opt(key, value), blksize, tsize) == (blksize, tsize)
  {
    hide DecimalValue;
    SmallWord(DecimalValue(value).value);
    assert BLKSIZE == Ascii("blksize") && TSIZE == Ascii("tsize");
    assert Ascii("blksize")[0] != Ascii("tsize")[0];
  }

  /** What the client makes of a packet of its server, cut at 2048 bytes: an acknowledgement of
      options sets the block size and is itself acknowledged, data is appended and acknowledged by
      its number, and data shorter than a block, 512 bytes at first, ends the transfer. */
  lemma ReceiveMeans(c: TftpTransfer.Client, server: nat, block: nat, data: bytes)
    requires block < 65536 && |data| + 4 <= 2048
    ensures TftpTransfer.Start([]) == TftpTransfer.Client(512, 0, [], false)
    ensures TftpTransfer.Receive(c, server, TftpTransfer.Datagram(server, [0, 3, block / 256, block % 256] + data)) ==
            (TftpTransfer.Client(c.blksize, c.total + |data|, c.sink + data, |data| < c.blksize),
             [[0, 4, block / 256, block % 256]])
  {
    hide NegotiateAll, OptionsFrom;
    var p: bytes := [0, 3, block / 256, block % 256] + data;
    assert p[..2] == [0, 3] && p[4..] == data && p[2] == block / 256 && p[3] == block % 256;
    assert Be16(OP_DATA) == [0, 3] && Be16(OP_OACK) == [0, 6];
    assert [0, 3][1] != [0, 6][1];
    assert TftpTransfer.OackOf(p).None?;
    assert FromBe16(p[2], p[3]) == block && AckPacket(block) == [0, 4, block / 256, block % 256];
    assert TftpTransfer.Received(TftpTransfer.Datagram(server, p)) == p;
  }
}
