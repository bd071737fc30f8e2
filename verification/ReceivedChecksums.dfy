/** What `parse` makes of a frame does not depend on its two checksum fields, unless an illegally short
    IPv4 header lays the UDP checksum over a field that `parse` does read. */
module ReceivedChecksums {
  import opened Words
  import opened Wrappers
  import opened Checksums
  import opened FramingModel

  /** The frame is long enough to hold both fields. */
  predicate HasFields(frame: seq<byte>) {
    && |frame| >= ETH_HDR_LEN + IPV4_HEADER_LEN
    && ETH_HDR_LEN + HeaderLen(frame[ETH_HDR_LEN..]) + UDP_HEADER_LEN <= |frame|
  }

  /** `frame` with the IPv4 header checksum and the UDP checksum overwritten. */
  function Overwrite(frame: seq<byte>, c: u16, k: u16): (r: seq<byte>)
    requires HasFields(frame)
    ensures |r| == |frame|
  {
    var u := ETH_HDR_LEN + HeaderLen(frame[ETH_HDR_LEN..]) + 6;
    frame[24 := c / 256][25 := c % 256][u := k / 256][u + 1 := k % 256]
  }

  /** With a header of 4 bytes the UDP checksum is the IPv4 checksum; from 16 on it lies behind the
      addresses. At 0, 8 and 12 it is the fragment field, the source and the destination. */
  predicate FieldsApart(headerLen: nat) {
    headerLen == 4 || headerLen >= 16
  }

  /** The IP packets `p` and `q` differ at most in their checksum fields, and those are apart. */
  ghost predicate SameApart(p: seq<byte>, q: seq<byte>) {
    && |p| == |q| && |p| >= IPV4_HEADER_LEN && FieldsApart(HeaderLen(p))
    && forall i :: 0 <= i < |p| && i != 10 && i != 11 && i != HeaderLen(p) + 6 && i != HeaderLen(p) + 7 ==> q[i] == p[i]
  }

  lemma OverwriteApart(frame: seq<byte>, c: u16, k: u16)
    requires HasFields(frame) && FieldsApart(HeaderLen(frame[ETH_HDR_LEN..]))
    ensures SameApart(frame[ETH_HDR_LEN..], Overwrite(frame, c, k)[ETH_HDR_LEN..])
    ensures Overwrite(frame, c, k)[12..14] == frame[12..14]
  {
  }

  lemma SameHeader(p: seq<byte>, q: seq<byte>)
    requires SameApart(p, q)
    ensures HeaderLen(p) == HeaderLen(q) && Ipv4LengthsOk(p) == Ipv4LengthsOk(q)
    ensures Ipv4Accepts(CHECKSUM_CAPS, p) == Ipv4Accepts(CHECKSUM_CAPS, q)
    ensures p[9] == q[9] && p[12..16] == q[12..16] && p[16..20] == q[16..20]
  {
    hide Sum16, Fold;
  }

  lemma SameDatagram(p: seq<byte>, q: seq<byte>)
    requires SameApart(p, q) && Ipv4LengthsOk(p) && Ipv4LengthsOk(q)
    ensures
      var d, e := Ipv4Payload(p), Ipv4Payload(q);
      && UdpLengthsOk(d) == UdpLengthsOk(e)
      && (UdpLengthsOk(d) ==>
            && U16At(d, 0) == U16At(e, 0) && U16At(d, 2) == U16At(e, 2)
            && d[UDP_HEADER_LEN..U16At(d, 4)] == e[UDP_HEADER_LEN..U16At(e, 4)])
  {
    var d, e := Ipv4Payload(p), Ipv4Payload(q);
    assert |d| == |e|;
    assert forall i :: 0 <= i < |d| && i != 6 && i != 7 ==> e[i] == d[i];
  }

  lemma ParseIgnoresChecksums(f: Framing, frame: seq<byte>, c: u16, k: u16)
    requires HasFields(frame) && FieldsApart(HeaderLen(frame[ETH_HDR_LEN..]))
    ensures Parse(f, Overwrite(frame, c, k)) == Parse(f, frame)
  {
    hide Sum16, Fold, SameApart, Ipv4Accepts, Ipv4Payload, UdpLengthsOk, U16At, HeaderLen, Overwrite;
    var p, q := frame[14..], Overwrite(frame, c, k)[14..];
    OverwriteApart(frame, c, k);
    SameHeader(p, q);
    if Ipv4Accepts(CHECKSUM_CAPS, p) {
      AcceptedLengths(p);
      AcceptedLengths(q);
      SameDatagram(p, q);
    }
  }

  lemma AcceptedLengths(ip: seq<byte>)
    requires Ipv4Accepts(CHECKSUM_CAPS, ip)
    ensures Ipv4LengthsOk(ip)
  {
  }

  lemma AcceptedHasFields(f: Framing, frame: seq<byte>)
    requires Parse(f, frame).Some?
    ensures HasFields(frame)
  {
  }

  /** Where the fields overlap, some checksums make `parse` reject a frame it accepts. */
  lemma OverlapRejects(f: Framing, frame: seq<byte>) returns (c: u16, k: u16)
    requires Parse(f, frame).Some? && !FieldsApart(HeaderLen(frame[ETH_HDR_LEN..]))
    ensures HasFields(frame) && Parse(f, Overwrite(frame, c, k)) == None
  {
    hide Sum16, Fold;
    var ip := frame[14..];
    var h := HeaderLen(ip);
    c := 0;
    k := if h == 0 || U16At(ip, h + 6) == 0 then 1 else 0;
    var r := Overwrite(frame, c, k);
    var ip' := r[14..];
    assert ip'[h + 6] == k / 256 && ip'[h + 7] == k % 256;
    if h == 0 {
      assert U16At(ip', 6) == 1;
    } else if h == 8 {
      assert ip'[12..16][2] == k / 256 && ip'[12..16][3] == k % 256;
      assert ip[12..16][2] == ip[14] && ip[12..16][3] == ip[15];
      assert ip'[12..16] != ip[12..16];
    } else {
      assert h == 12;
      assert ip'[16..20][2] == k / 256 && ip'[16..20][3] == k % 256;
      assert ip[16..20][2] == ip[18] && ip[16..20][3] == ip[19];
      assert ip'[16..20] != ip[16..20];
    }
  }

  /** A frame `parse` accepts keeps its result under every overwrite exactly when the fields are apart. */
  lemma AcceptedIgnoresIff(f: Framing, frame: seq<byte>)
    requires Parse(f, frame).Some?
    ensures HasFields(frame)
    ensures (forall c: u16, k: u16 :: Parse(f, Overwrite(frame, c, k)) == Parse(f, frame))
            <==> FieldsApart(HeaderLen(frame[ETH_HDR_LEN..]))
  {
    hide ParseWith, FieldsApart, Overwrite;
    AcceptedHasFields(f, frame);
    if FieldsApart(HeaderLen(frame[ETH_HDR_LEN..])) {
      forall c: u16, k: u16 ensures Parse(f, Overwrite(frame, c, k)) == Parse(f, frame) {
        ParseIgnoresChecksums(f, frame, c, k);
      }
    } else {
      var c, k := OverlapRejects(f, frame);
      assert Parse(f, Overwrite(frame, c, k)) != Parse(f, frame);
    }
  }

  // ----- One accepted frame for each overlapping header length -----

  const NO_MAC: Mac := [0, 0, 0, 0, 0, 0]

  const PACKET_AT_0: seq<byte> := [0x40, 0, 0, 20, 0, 9, 0, 0, 42, 17, 0, 0, 10, 9, 8, 7, 10, 0, 0, 1]
  const FRAMING_AT_0 := Framing(NO_MAC, NO_MAC, Endpoint([10, 0, 0, 1], 20), Some(Endpoint([10, 9, 8, 7], 0x4000)))

  const PACKET_AT_8: seq<byte> := [0x42, 0, 0, 20, 0, 0, 0, 0, 64, 17, 0, 7, 0, 9, 1, 2, 42, 0, 0, 1]
  const FRAMING_AT_8 := Framing(NO_MAC, NO_MAC, Endpoint([42, 0, 0, 1], 7), Some(Endpoint([0, 9, 1, 2], 0x4011)))

  const PACKET_AT_12: seq<byte> := [0x43, 0, 0, 21, 0, 0, 0, 0, 64, 17, 0, 0, 10, 9, 8, 7, 0, 9, 0, 1, 42]
  const FRAMING_AT_12 := Framing(NO_MAC, NO_MAC, Endpoint([0, 9, 0, 1], 0x0807), Some(Endpoint([10, 9, 8, 7], 0x0A09)))

  /** The checks of `parse`, spelled out for a packet `ip` whose IPv4 payload is `d`. */
  lemma Accepted(f: Framing, ip: seq<byte>, d: seq<byte>) returns (frame: seq<byte>)
    requires f.remote.Some? && Ipv4LengthsOk(ip) && ip[0] / 16 == 4 && U16At(ip, 6) % 0x4000 == 0
    requires ip[9] == PROTO_UDP && ip[12..16] == f.remote.value.ip && ip[16..20] == f.local.ip
    requires ip[HeaderLen(ip)..U16At(ip, 2)] == d && UdpLengthsOk(d)
    requires U16At(d, 0) == f.remote.value.port && U16At(d, 2) == f.local.port != 0
    ensures frame == EthHeader(NO_MAC, NO_MAC) + ip && frame[ETH_HDR_LEN..] == ip
    ensures HasFields(frame) && Parse(f, frame) == Some(d[UDP_HEADER_LEN..U16At(d, 4)])
  {
    hide Sum16, Fold;
    frame := EthHeader(NO_MAC, NO_MAC) + ip;
    assert frame[14..] == ip && frame[12..14] == [0x08, 0x00];
  }

  lemma BytesAt0(ip: seq<byte>) returns (d: seq<byte>)
    requires ip == PACKET_AT_0
    ensures |ip| == 20 && ip[0] == 0x40 && U16At(ip, 2) == 20 && U16At(ip, 6) == 0 && ip[9] == PROTO_UDP
    ensures ip[12..16] == [10, 9, 8, 7] && ip[16..20] == [10, 0, 0, 1]
    ensures d == ip[0..20] == PACKET_AT_0 && d[8..9] == [42]
  {
    d := PACKET_AT_0;
    assert ip[0..20] == ip;
    assert ip[8..9] == [ip[8]];
  }

  /** At each of the three, `parse` accepts a frame that it rejects with other checksums. */
  lemma OverlapAt0() returns (frame: seq<byte>, c: u16, k: u16)
    ensures HasFields(frame) && HeaderLen(frame[ETH_HDR_LEN..]) == 0
    ensures Parse(FRAMING_AT_0, frame) == Some([42]) && Parse(FRAMING_AT_0, Overwrite(frame, c, k)) == None
  {
    hide ParseWith, Overwrite, EthHeader;
    var ip := PACKET_AT_0;
    var d := BytesAt0(ip);
    frame := Accepted(FRAMING_AT_0, ip, d);
    c, k := OverlapRejects(FRAMING_AT_0, frame);
  }

  lemma BytesAt8(ip: seq<byte>) returns (d: seq<byte>)
    requires ip == PACKET_AT_8
    ensures |ip| == 20 && ip[0] == 0x42 && U16At(ip, 2) == 20 && U16At(ip, 6) == 0 && ip[9] == PROTO_UDP
    ensures ip[12..16] == [0, 9, 1, 2] && ip[16..20] == [42, 0, 0, 1]
    ensures d == ip[8..20] == [64, 17, 0, 7, 0, 9, 1, 2, 42, 0, 0, 1] && d[8..9] == [42]
  {
    d := [64, 17, 0, 7, 0, 9, 1, 2, 42, 0, 0, 1];
  }

  lemma OverlapAt8() returns (frame: seq<byte>, c: u16, k: u16)
    ensures HasFields(frame) && HeaderLen(frame[ETH_HDR_LEN..]) == 8
    ensures Parse(FRAMING_AT_8, frame) == Some([42]) && Parse(FRAMING_AT_8, Overwrite(frame, c, k)) == None
  {
    hide ParseWith, Overwrite, EthHeader;
    var ip := PACKET_AT_8;
    var d := BytesAt8(ip);
    frame := Accepted(FRAMING_AT_8, ip, d);
    c, k := OverlapRejects(FRAMING_AT_8, frame);
  }

  lemma BytesAt12(ip: seq<byte>) returns (d: seq<byte>)
    requires ip == PACKET_AT_12
    ensures |ip| == 21 && ip[0] == 0x43 && U16At(ip, 2) == 21 && U16At(ip, 6) == 0 && ip[9] == PROTO_UDP
    ensures ip[12..16] == [10, 9, 8, 7] && ip[16..20] == [0, 9, 0, 1]
    ensures d == ip[12..21] == [10, 9, 8, 7, 0, 9, 0, 1, 42] && d[8..9] == [42]
  {
    d := [10, 9, 8, 7, 0, 9, 0, 1, 42];
  }

  lemma OverlapAt12() returns (frame: seq<byte>, c: u16, k: u16)
    ensures HasFields(frame) && HeaderLen(frame[ETH_HDR_LEN..]) == 12
    ensures Parse(FRAMING_AT_12, frame) == Some([42]) && Parse(FRAMING_AT_12, Overwrite(frame, c, k)) == None
  {
    hide ParseWith, Overwrite, EthHeader;
    var ip := PACKET_AT_12;
    var d := BytesAt12(ip);
    frame := Accepted(FRAMING_AT_12, ip, d);
    c, k := OverlapRejects(FRAMING_AT_12, frame);
  }

  /** `parse` ignores both checksums of every frame with this IPv4 header length. */
  ghost predicate IgnoredAt(headerLen: nat) {
    forall f: Framing, frame: seq<byte>, c: u16, k: u16 ::
      HasFields(frame) && HeaderLen(frame[ETH_HDR_LEN..]) == headerLen ==> Parse(f, Overwrite(frame, c, k)) == Parse(f, frame)
  }

  /** Header length by header length: received checksums are ignored exactly where the fields are apart. */
  lemma IgnoredAtIff(headerLen: nat)
    requires headerLen % 4 == 0
    ensures IgnoredAt(headerLen) <==> FieldsApart(headerLen)
  {
    hide ParseWith, Overwrite, HeaderLen;
    if FieldsApart(headerLen) {
      forall f: Framing, frame: seq<byte>, c: u16, k: u16 | HasFields(frame) && HeaderLen(frame[ETH_HDR_LEN..]) == headerLen
        ensures Parse(f, Overwrite(frame, c, k)) == Parse(f, frame)
      {
        ParseIgnoresChecksums(f, frame, c, k);
      }
    } else if headerLen == 0 {
      var frame, c, k := OverlapAt0();
      assert Parse(FRAMING_AT_0, Overwrite(frame, c, k)) != Parse(FRAMING_AT_0, frame);
    } else if headerLen == 8 {
      var frame, c, k := OverlapAt8();
      assert Parse(FRAMING_AT_8, Overwrite(frame, c, k)) != Parse(FRAMING_AT_8, frame);
    } else {
      var frame, c, k := OverlapAt12();
      assert Parse(FRAMING_AT_12, Overwrite(frame, c, k)) != Parse(FRAMING_AT_12, frame);
    }
  }
}
