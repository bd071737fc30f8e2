/** `Framing::build`: a frame emitted in place, field by field, into a slice of the UMEM. */
module BuildInPlace {
  import opened Words
  import opened Wrappers
  import opened Machine
  import opened Memory
  import opened Checksums
  import opened FramingModel

  lemma SpliceJoin(m: seq<byte>, at: nat, a: seq<byte>, b: seq<byte>)
    requires at + |a| + |b| <= |m|
    ensures Splice(Splice(m, at, a), at + |a|, b) == Splice(m, at, a + b)
  {
  }

  lemma SpliceInside(m: seq<byte>, at: nat, a: seq<byte>, k: nat, b: seq<byte>)
    requires at + |a| <= |m| && k + |b| <= |a|
    ensures Splice(Splice(m, at, a), at + k, b) == Splice(m, at, a[..k] + b + a[k + |b|..])
  {
  }

  lemma SpliceRead(m: seq<byte>, at: nat, a: seq<byte>)
    requires at + |a| <= |m|
    ensures Splice(m, at, a)[at..at + |a|] == a
  {
  }

  lemma IpChecksumField(src: Ip, dst: Ip, n: nat, c: u16)
    ensures
      var h := IpHeader(src, dst, n, 0);
      h[..10] + Be16(c) + h[12..] == IpHeader(src, dst, n, c)
  {
  }

  lemma UdpChecksumField(srcPort: u16, dstPort: u16, payload: seq<byte>, c: u16)
    ensures
      var d := UdpHeader(srcPort, dstPort, |payload|, 0) + payload;
      d[..6] + Be16(c) + d[8..] == UdpHeader(srcPort, dstPort, |payload|, c) + payload
  {
  }

  /** A frame spliced into memory, by offsets. */
  lemma Written(f: Framing, m: seq<byte>, r: seq<byte>, at: nat, payload: seq<byte>)
    requires f.remote.Some? && at + |Frame(f, payload)| <= |m| && r == Splice(m, at, Frame(f, payload))
    ensures r[at..at + 6] == f.dstMac && r[at + 6..at + 12] == f.srcMac && r[at + 12..at + 14] == [0x08, 0x00]
    ensures r[at + 42..at + |Frame(f, payload)|] == payload
    ensures forall i :: 0 <= i < at || at + |Frame(f, payload)| <= i < |m| ==> r[i] == m[i]
  {
    hide IpHeader, UdpHeader, EthHeader, IpChecksum, UdpChecksum;
    var w := Frame(f, payload);
    EthBytes(f.dstMac, f.srcMac, FramingModel.Packet(f.local, f.remote.value, payload));
    assert w[42..] == payload;
    assert r[at..at + |w|] == w;
    assert r[at..at + 6] == w[0..6] && r[at + 6..at + 12] == w[6..12] && r[at + 12..at + 14] == w[12..14];
    assert r[at + 42..at + |w|] == w[42..];
  }

  /** Emit the IPv4 header at `at`, then fill in its checksum from the bytes just written. */
  method EmitIp(buf: array<byte>, at: nat, src: Ip, dst: Ip, payloadLen: nat)
    requires at + IPV4_HEADER_LEN <= buf.Length
    modifies buf
    ensures buf[..] == Splice(old(buf[..]), at, IpHeader(src, dst, payloadLen, IpChecksum(src, dst, payloadLen)))
  {
    hide Sum16, Fold, IpHeader, Be16, Splice;
    var h := IpHeader(src, dst, payloadLen, 0);
    CopyInto(buf, at, h);
    SpliceRead(old(buf[..]), at, h);
    var c := Checksum(Sum16(buf[at..at + IPV4_HEADER_LEN]));
    assert buf[..][at..at + IPV4_HEADER_LEN] == h;
    CopyInto(buf, at + 10, Be16(c));
    SpliceInside(old(buf[..]), at, h, 10, Be16(c));
    IpChecksumField(src, dst, payloadLen, c);
  }

  /** Emit the UDP header at `at`, the payload after it, then the checksum over both. */
  method EmitUdp(buf: array<byte>, at: nat, src: Endpoint, dst: Endpoint, payload: seq<byte>)
    requires at + UDP_HEADER_LEN + |payload| <= buf.Length
    modifies buf
    ensures buf[..] == Splice(old(buf[..]), at, Datagram(src, dst, payload))
  {
    hide Sum16, Fold, UdpHeader, PseudoHeader, Be16, Splice;
    var n := UDP_HEADER_LEN + |payload|;
    var h := UdpHeader(src.port, dst.port, |payload|, 0);
    CopyInto(buf, at, h);
    CopyInto(buf, at + UDP_HEADER_LEN, payload);
    SpliceJoin(old(buf[..]), at, h, payload);
    SpliceRead(old(buf[..]), at, h + payload);
    assert buf[..][at..at + n] == h + payload;
    var c := Checksum(Sum16(PseudoHeader(src.ip, dst.ip, n % 0x1_0000)) + Sum16(buf[at..at + n]));
    if c == 0 {
      c := 0xFFFF;
    }
    CopyInto(buf, at + 6, Be16(c));
    SpliceInside(old(buf[..]), at, h + payload, 6, Be16(c));
    UdpChecksumField(src.port, dst.port, payload, c);
  }

  /** Write a complete frame for `payload` at `at`; returns its length. */
  method Build(f: Framing, buf: array<byte>, at: nat, payload: seq<byte>) returns (n: nat)
    requires f.remote.Some? && at + ETH_HDR_LEN + UDP_OVERHEAD + |payload| <= buf.Length
    modifies buf
    ensures n == ETH_HDR_LEN + UDP_OVERHEAD + |payload|
    ensures buf[..] == Splice(old(buf[..]), at, Frame(f, payload))
    ensures buf[at..at + 6] == f.dstMac && buf[at + 6..at + 12] == f.srcMac && buf[at + 12..at + 14] == [0x08, 0x00]
    ensures buf[at + 42..at + n] == payload
    ensures forall i :: 0 <= i < at || at + n <= i < buf.Length ==> buf[i] == old(buf[i])
  {
    hide Splice, Sum16, Fold, IpHeader, Be16, Datagram;
    var remote := f.remote.value;
    n := ETH_HDR_LEN + UDP_OVERHEAD + |payload|;
    ghost var m := buf[..];
    CopyInto(buf, at, f.dstMac);
    CopyInto(buf, at + 6, f.srcMac);
    SpliceJoin(m, at, f.dstMac, f.srcMac);
    CopyInto(buf, at + 12, [0x08, 0x00]);
    SpliceJoin(m, at, f.dstMac + f.srcMac, [0x08, 0x00]);
    ghost var eth := EthHeader(f.dstMac, f.srcMac);
    ghost var len := UDP_HEADER_LEN + |payload|;
    ghost var ip := IpHeader(f.local.ip, remote.ip, len, IpChecksum(f.local.ip, remote.ip, len));
    EmitIp(buf, at + ETH_HDR_LEN, f.local.ip, remote.ip, UDP_HEADER_LEN + |payload|);
    SpliceJoin(m, at, eth, ip);
    EmitUdp(buf, at + ETH_HDR_LEN + IPV4_HEADER_LEN, f.local, remote, payload);
    SpliceJoin(m, at, eth + ip, Datagram(f.local, remote, payload));
    assert eth + ip + Datagram(f.local, remote, payload) == Frame(f, payload);
    Written(f, m, buf[..], at, payload);
    assert buf[at..at + 6] == buf[..][at..at + 6] && buf[at + 6..at + 12] == buf[..][at + 6..at + 12];
    assert buf[at + 12..at + 14] == buf[..][at + 12..at + 14] && buf[at + 42..at + n] == buf[..][at + 42..at + n];
    forall i | 0 <= i < at || at + n <= i < buf.Length ensures buf[i] == old(buf[i]) {
      assert buf[..][i] == m[i];
    }
  }
}
