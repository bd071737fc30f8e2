/** Building and parsing undo each other, and what is built verifies. */
module RoundTrip {
  import opened Words
  import opened Wrappers
  import opened Checksums
  import opened FramingModel

  // ----- Fields of a built packet -----

  lemma U16AtBe16(b: seq<byte>, i: nat, x: u16)
    requires i + 1 < |b| && b[i..i + 2] == Be16(x)
    ensures U16At(b, i) == x
  {
    assert b[i] == b[i..i + 2][0] && b[i + 1] == b[i..i + 2][1];
  }

  lemma Be16OfU16At(b: seq<byte>, i: nat)
    requires i + 1 < |b|
    ensures Be16(U16At(b, i)) == b[i..i + 2]
  {
  }

  lemma PacketFields(src: Endpoint, dst: Endpoint, payload: seq<byte>, pad: seq<byte>)
    requires UDP_OVERHEAD + |payload| < 0x1_0000
    ensures
      var ip := Packet(src, dst, payload) + pad;
      && ip[0] == 0x45 && HeaderLen(ip) == 20 && U16At(ip, 2) == UDP_OVERHEAD + |payload|
      && U16At(ip, 6) == 0x4000 && ip[9] == PROTO_UDP && ip[12..16] == src.ip && ip[16..20] == dst.ip
      && ip[..20] == IpHeader(src.ip, dst.ip, UDP_HEADER_LEN + |payload|, IpChecksum(src.ip, dst.ip, UDP_HEADER_LEN + |payload|))
      && Ipv4LengthsOk(ip) && Ipv4Payload(ip) == Datagram(src, dst, payload)
  {
    var n := UDP_HEADER_LEN + |payload|;
    var h := IpHeader(src.ip, dst.ip, n, IpChecksum(src.ip, dst.ip, n));
    var ip := Packet(src, dst, payload) + pad;
    assert ip[..20] == h;
    assert forall i :: 0 <= i < 20 ==> ip[i] == h[i];
    assert ip[2..4] == Be16(20 + n);
    U16AtBe16(ip, 2, 20 + n);
    assert ip[12..16] == h[12..16] == src.ip && ip[16..20] == h[16..20] == dst.ip;
    assert ip[20..20 + n] == Datagram(src, dst, payload);
  }

  lemma DatagramFields(src: Endpoint, dst: Endpoint, payload: seq<byte>)
    requires UDP_OVERHEAD + |payload| < 0x1_0000
    ensures
      var d := Datagram(src, dst, payload);
      && U16At(d, 0) == src.port && U16At(d, 2) == dst.port && U16At(d, 4) == |d|
      && U16At(d, 6) == UdpChecksum(src, dst, payload) && d[UDP_HEADER_LEN..] == payload
  {
    var d := Datagram(src, dst, payload);
    assert d[0..2] == Be16(src.port) && d[2..4] == Be16(dst.port);
    assert d[4..6] == Be16(UDP_HEADER_LEN + |payload|) && d[6..8] == Be16(UdpChecksum(src, dst, payload));
    U16AtBe16(d, 0, src.port);
    U16AtBe16(d, 2, dst.port);
    U16AtBe16(d, 4, UDP_HEADER_LEN + |payload|);
    U16AtBe16(d, 6, UdpChecksum(src, dst, payload));
  }

  // ----- Checksums -----

  /** Putting `c` in place of a zero 16-bit field at an even offset adds `c` to the sum. */
  lemma Sum16WithField(a: seq<byte>, c: u16, b: seq<byte>)
    requires |a| % 2 == 0
    ensures Sum16(a + Be16(c) + b) == Sum16(a + Be16(0) + b) + c
  {
    Sum16Append(a + Be16(c), b);
    Sum16Append(a + Be16(0), b);
    Sum16Append(a, Be16(c));
    Sum16Append(a, Be16(0));
    assert Be16(c)[2..] == [] && Be16(0)[2..] == [];
  }

  /** The IPv4 header checksum verifies under a strict receiver. */
  lemma IpHeaderVerifies(src: Ip, dst: Ip, n: nat)
    ensures Verifies(Sum16(IpHeader(src, dst, n, IpChecksum(src, dst, n))))
  {
    var a := [0x45, 0] + Be16((IPV4_HEADER_LEN + n) % 0x1_0000) + [0, 0, 0x40, 0, 64, PROTO_UDP];
    var c := IpChecksum(src, dst, n);
    assert IpHeader(src, dst, n, c) == a + Be16(c) + (src + dst);
    assert IpHeader(src, dst, n, 0) == a + Be16(0) + (src + dst);
    Sum16WithField(a, c, src + dst);
    ChecksumVerifies(Sum16(IpHeader(src, dst, n, 0)));
  }

  /** The UDP checksum verifies under a strict receiver, for odd payload lengths too, and is never the
      "no checksum" zero. */
  lemma UdpVerifies(src: Endpoint, dst: Endpoint, payload: seq<byte>)
    ensures UdpChecksum(src, dst, payload) != 0
    ensures
      var len := (UDP_HEADER_LEN + |payload|) % 0x1_0000;
      Verifies(Sum16(PseudoHeader(src.ip, dst.ip, len)) + Sum16(Datagram(src, dst, payload)))
  {
    var len := (UDP_HEADER_LEN + |payload|) % 0x1_0000;
    var a := Be16(src.port) + Be16(dst.port) + Be16(len);
    var c := UdpChecksum(src, dst, payload);
    assert Datagram(src, dst, payload) == a + Be16(c) + payload;
    assert UdpHeader(src.port, dst.port, |payload|, 0) + payload == a + Be16(0) + payload;
    Sum16WithField(a, c, payload);
    ChecksumVerifies(Sum16(PseudoHeader(src.ip, dst.ip, len)) + Sum16(a + Be16(0) + payload));
  }

  /** The pseudo header's share of the sum, field by field. */
  lemma PseudoSum(src: Ip, dst: Ip, udpLen: u16)
    ensures Sum16(PseudoHeader(src, dst, udpLen))
            == U16At(src, 0) + U16At(src, 2) + U16At(dst, 0) + U16At(dst, 2) + 17 + udpLen
  {
    var tail := [0, 17] + Be16(udpLen);
    assert PseudoHeader(src, dst, udpLen) == src + (dst + tail);
    Sum16Append(src, dst + tail);
    Sum16Append(dst, tail);
    Sum16Append([0, 17], Be16(udpLen));
    assert Be16(udpLen)[2..] == [];
    assert Sum16([0, 17]) == 17 by {
      assert [0 as byte, 17][2..] == [];
    }
    AddressSum(src);
    AddressSum(dst);
  }

  lemma AddressSum(a: Ip)
    ensures Sum16(a) == U16At(a, 0) + U16At(a, 2)
  {
    var b := a[2..];
    assert b[2..] == [] && b[0] == a[2] && b[1] == a[3];
    assert Sum16([]) == 0;
    assert Sum16(b) == U16At(b, 0) == U16At(a, 2);
  }

  // ----- Layout on the wire -----

  /** Every byte of a built frame but the two checksums, at its offset in the frame. */
  lemma FrameLayout(f: Framing, payload: seq<byte>)
    requires f.remote.Some? && UDP_OVERHEAD + |payload| < 0x1_0000
    ensures
      var w := Frame(f, payload);
      && |w| == 42 + |payload|
      && w[0..6] == f.dstMac && w[6..12] == f.srcMac && w[12..14] == [0x08, 0x00]
      && w[14..16] == [0x45, 0] && U16At(w, 16) == 28 + |payload|
      && w[18..24] == [0, 0, 0x40, 0, 64, 17]
      && w[26..30] == f.local.ip && w[30..34] == f.remote.value.ip
      && U16At(w, 34) == f.local.port && U16At(w, 36) == f.remote.value.port
      && U16At(w, 38) == 8 + |payload| && w[42..] == payload
  {
    hide Sum16, Fold, UdpHeader, EthHeader, PseudoHeader, IpChecksum, UdpChecksum;
    var w := Frame(f, payload);
    var n := UDP_HEADER_LEN + |payload|;
    var ip := Packet(f.local, f.remote.value, payload);
    var h := IpHeader(f.local.ip, f.remote.value.ip, n, IpChecksum(f.local.ip, f.remote.value.ip, n));
    var d := Datagram(f.local, f.remote.value, payload);
    EthBytes(f.dstMac, f.srcMac, ip);
    assert w[14..] == ip == h + d;
    assert forall i :: 0 <= i < 20 ==> w[14 + i] == h[i];
    assert forall i :: 0 <= i < |d| ==> w[34 + i] == d[i];
    assert w[26..30] == h[12..16] && w[30..34] == h[16..20];
    DatagramFields(f.local, f.remote.value, payload);
    assert w[42..] == d[8..];
  }

  /** What a receiver following the RFCs computes over the bytes of a built frame: the IPv4 header's words
      verify, and so do the address words, the protocol, the UDP length and the datagram; the UDP checksum
      is not the "no checksum" zero. */
  lemma FrameVerifies(f: Framing, payload: seq<byte>)
    requires f.remote.Some? && UDP_OVERHEAD + |payload| < 0x1_0000
    ensures
      var w := Frame(f, payload);
      && Verifies(Sum16(w[14..34]))
      && Verifies(U16At(w, 26) + U16At(w, 28) + U16At(w, 30) + U16At(w, 32)
                  + 17 + U16At(w, 38) + Sum16(w[34..]))
      && w[40..42] != [0, 0]
  {
    hide Sum16, Fold, Verifies, IpHeader, Datagram, PseudoHeader, UdpHeader;
    var w := Frame(f, payload);
    var src, dst := f.local, f.remote.value;
    var n := UDP_HEADER_LEN + |payload|;
    var h := IpHeader(src.ip, dst.ip, n, IpChecksum(src.ip, dst.ip, n));
    var d := Datagram(src, dst, payload);
    assert w[14..34] == h && w[34..] == d;
    IpHeaderVerifies(src.ip, dst.ip, n);
    UdpVerifies(src, dst, payload);
    PseudoSum(src.ip, dst.ip, n);
    FrameLayout(f, payload);
    assert src.ip == w[26..30] && dst.ip == w[30..34];
    DatagramFields(src, dst, payload);
    assert w[40] == d[6] && w[41] == d[7];
  }

  // ----- Round trip -----

  /** A frame built under (local, remote), with any Ethernet padding after it, is accepted exactly by
      the mirrored endpoints, which get the payload back whole, whether or not they verify checksums.
      Nobody accepts a datagram to port 0. */
  lemma RoundTripIff(caps: ChecksumCaps, f: Framing, f': Framing, payload: seq<byte>, pad: seq<byte>)
    requires f.remote.Some? && UDP_OVERHEAD + |payload| < 0x1_0000
    ensures ParseWith(caps, f', Frame(f, payload) + pad)
            == if f'.remote == Some(f.local) && f'.local == f.remote.value && f'.local.port != 0 then Some(payload) else None
  {
    var src, dst := f.local, f.remote.value;
    var frame := Frame(f, payload) + pad;
    var ip := Packet(src, dst, payload) + pad;
    assert frame[..14] == EthHeader(f.dstMac, f.srcMac);
    assert frame[12..14] == frame[..14][12..14] == [0x08, 0x00];
    assert frame[14..] == ip;
    PacketFields(src, dst, payload, pad);
    DatagramFields(src, dst, payload);
    IpHeaderVerifies(src.ip, dst.ip, UDP_HEADER_LEN + |payload|);
    UdpVerifies(src, dst, payload);
    var d := Datagram(src, dst, payload);
    assert d[..|d|] == d;
    assert Ipv4Accepts(caps, ip) && (UdpAccepts(caps, src.ip, dst.ip, d) <==> dst.port != 0);
  }

  /** What `parse` accepts, on every byte string, by offsets in the frame, and what it returns. */
  lemma ParseIff(f: Framing, w: seq<byte>)
    ensures Parse(f, w).Some? <==>
      && f.remote.Some? && |w| >= 34 && w[12..14] == [0x08, 0x00] && w[14] / 16 == 4
      && var h, total := 4 * (w[14] % 16), U16At(w, 16);
      && h + 8 <= total && 14 + total <= |w|
      && U16At(w, 20) % 0x4000 == 0 && w[23] == 17
      && w[26..30] == f.remote.value.ip && w[30..34] == f.local.ip
      && 8 <= U16At(w, 18 + h) <= total - h
      && U16At(w, 14 + h) == f.remote.value.port && U16At(w, 16 + h) == f.local.port != 0
    ensures Parse(f, w).Some? ==>
      var h := 4 * (w[14] % 16);
      && 22 + h <= 14 + h + U16At(w, 18 + h) <= |w|
      && Parse(f, w).value == w[22 + h..14 + h + U16At(w, 18 + h)]
  {
    hide Sum16, Fold;
    if |w| >= 34 {
      var ip := w[14..];
      var h := HeaderLen(ip);
      assert ip[12..16] == w[26..30] && ip[16..20] == w[30..34];
      if Ipv4LengthsOk(ip) {
        var d := Ipv4Payload(ip);
        assert |d| == U16At(ip, 2) - h && forall i :: 0 <= i < |d| ==> d[i] == w[14 + h + i];
        if UdpLengthsOk(d) {
          assert d[8..U16At(d, 4)] == w[22 + h..14 + h + U16At(d, 4)];
        }
      }
    }
  }
}
