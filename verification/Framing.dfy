/** Ethernet/IPv4/UDP framing of the UDP plane. Header layouts follow RFC 791 section 3.1 and RFC 768;
    the checks a parser makes are those needed to index the headers safely, plus the ones the
    repository's documentation promises (no fragments, checksums ignored on receive). */
module FramingModel {
  import opened Words
  import opened Wrappers
  import opened Checksums

  const ETH_HDR_LEN: nat := 14
  const IPV4_HEADER_LEN: nat := 20
  const UDP_HEADER_LEN: nat := 8
  const UDP_OVERHEAD: nat := IPV4_HEADER_LEN + UDP_HEADER_LEN
  const PROTO_TCP: byte := 6
  const PROTO_UDP: byte := 17

  type Ip = s: seq<byte> | |s| == 4 witness [0, 0, 0, 0]
  type Mac = s: seq<byte> | |s| == 6 witness [0, 0, 0, 0, 0, 0]

  datatype Endpoint = Endpoint(ip: Ip, port: u16)

  datatype Framing = Framing(srcMac: Mac, dstMac: Mac, local: Endpoint, remote: Option<Endpoint>)

  /** Network byte order. */
  function Be16(x: u16): (b: seq<byte>)
    ensures |b| == 2 && b[0] as int * 256 + b[1] as int == x
  {
    [x / 256, x % 256]
  }

  function U16At(b: seq<byte>, i: nat): (x: u16)
    requires i + 1 < |b|
    ensures x == b[i] as int * 256 + b[i + 1] as int
  {
    b[i] as int * 256 + b[i + 1] as int
  }

  // ----- Checksum capabilities -----

  datatype Checked = Both | Tx | Rx | Neither {
    predicate OnRx() { Both? || Rx? }
  }

  datatype ChecksumCaps = ChecksumCaps(ipv4: Checked, udp: Checked)

  /** Computed on transmit, not verified on receive. */
  const CHECKSUM_CAPS := ChecksumCaps(Tx, Tx)

  // ----- Emitting -----

  function IpHeader(src: Ip, dst: Ip, payloadLen: nat, checksum: u16): (h: seq<byte>)
    ensures |h| == IPV4_HEADER_LEN
  {
    [0x45, 0] + Be16((IPV4_HEADER_LEN + payloadLen) % 0x1_0000) + [0, 0, 0x40, 0, 64, PROTO_UDP] + Be16(checksum) + src + dst
  }

  function IpChecksum(src: Ip, dst: Ip, payloadLen: nat): u16 {
    Checksum(Sum16(IpHeader(src, dst, payloadLen, 0)))
  }

  function UdpHeader(srcPort: u16, dstPort: u16, payloadLen: nat, checksum: u16): (h: seq<byte>)
    ensures |h| == UDP_HEADER_LEN
  {
    Be16(srcPort) + Be16(dstPort) + Be16((UDP_HEADER_LEN + payloadLen) % 0x1_0000) + Be16(checksum)
  }

  function PseudoHeader(src: Ip, dst: Ip, udpLen: u16): (h: seq<byte>)
    ensures |h| == 12
  {
    src + dst + [0, PROTO_UDP] + Be16(udpLen)
  }

  /** Zero means "no checksum", so a zero sum is sent as all ones. */
  function UdpChecksum(src: Endpoint, dst: Endpoint, payload: seq<byte>): u16 {
    var len := (UDP_HEADER_LEN + |payload|) % 0x1_0000;
    var c := Checksum(Sum16(PseudoHeader(src.ip, dst.ip, len)) + Sum16(UdpHeader(src.port, dst.port, |payload|, 0) + payload));
    if c == 0 then 0xFFFF else c
  }

  function EthHeader(dst: Mac, src: Mac): (h: seq<byte>)
    ensures |h| == ETH_HDR_LEN
  {
    dst + src + [0x08, 0x00]
  }

  /** What the header puts where: destination first, then source, then IPv4. */
  lemma EthBytes(dst: Mac, src: Mac, rest: seq<byte>)
    ensures
      var w := EthHeader(dst, src) + rest;
      w[0..6] == dst && w[6..12] == src && w[12..14] == [0x08, 0x00] && w[ETH_HDR_LEN..] == rest
  {
  }

  function Datagram(src: Endpoint, dst: Endpoint, payload: seq<byte>): (d: seq<byte>)
    ensures |d| == UDP_HEADER_LEN + |payload|
  {
    UdpHeader(src.port, dst.port, |payload|, UdpChecksum(src, dst, payload)) + payload
  }

  function Packet(src: Endpoint, dst: Endpoint, payload: seq<byte>): (p: seq<byte>)
    ensures |p| == UDP_OVERHEAD + |payload|
  {
    var n := UDP_HEADER_LEN + |payload|;
    IpHeader(src.ip, dst.ip, n, IpChecksum(src.ip, dst.ip, n)) + Datagram(src, dst, payload)
  }

  /** The complete frame for `payload`: to the peer's MAC, from ours, IPv4 without options, hop limit 64. */
  function Frame(f: Framing, payload: seq<byte>): (r: seq<byte>)
    requires f.remote.Some?
    ensures |r| == ETH_HDR_LEN + UDP_OVERHEAD + |payload|
  {
    EthHeader(f.dstMac, f.srcMac) + Packet(f.local, f.remote.value, payload)
  }

  // ----- Parsing -----

  function HeaderLen(ip: seq<byte>): nat
    requires |ip| > 0
  {
    (ip[0] % 16) * 4
  }

  /** The lengths in the IPv4 header fit each other and the buffer. No lower bound on the header length. */
  predicate Ipv4LengthsOk(ip: seq<byte>) {
    && |ip| >= IPV4_HEADER_LEN
    && HeaderLen(ip) <= |ip| && HeaderLen(ip) <= U16At(ip, 2) <= |ip|
  }

  predicate Ipv4Accepts(caps: ChecksumCaps, ip: seq<byte>) {
    && Ipv4LengthsOk(ip)
    && ip[0] / 16 == 4
    && (caps.ipv4.OnRx() ==> Verifies(Sum16(ip[..HeaderLen(ip)])))
    && U16At(ip, 6) % 0x4000 == 0                       // neither more-fragments nor an offset
  }

  function Ipv4Payload(ip: seq<byte>): seq<byte>
    requires Ipv4LengthsOk(ip)
  {
    ip[HeaderLen(ip)..U16At(ip, 2)]
  }

  predicate UdpLengthsOk(d: seq<byte>) {
    |d| >= UDP_HEADER_LEN && UDP_HEADER_LEN <= U16At(d, 4) <= |d|
  }

  predicate UdpAccepts(caps: ChecksumCaps, src: Ip, dst: Ip, d: seq<byte>) {
    && UdpLengthsOk(d)
    && U16At(d, 2) != 0
    && (caps.udp.OnRx() ==>
          || U16At(d, 6) == 0
          || Verifies(Sum16(PseudoHeader(src, dst, U16At(d, 4))) + Sum16(d[..U16At(d, 4)])))
  }

  function ParseWith(caps: ChecksumCaps, f: Framing, frame: seq<byte>): Option<seq<byte>> {
    if f.remote.None? || |frame| < ETH_HDR_LEN || frame[12..14] != [0x08, 0x00] then None
    else
      var ip := frame[ETH_HDR_LEN..];
      if !Ipv4Accepts(caps, ip) then None
      else if ip[9] != PROTO_UDP || ip[12..16] != f.remote.value.ip || ip[16..20] != f.local.ip then None
      else
        var d := Ipv4Payload(ip);
        if !UdpAccepts(caps, ip[12..16], ip[16..20], d) then None
        else if U16At(d, 0) != f.remote.value.port || U16At(d, 2) != f.local.port then None
        else Some(d[UDP_HEADER_LEN..U16At(d, 4)])
  }

  /** What `recv` does with a frame. */
  function Parse(f: Framing, frame: seq<byte>): Option<seq<byte>> {
    ParseWith(CHECKSUM_CAPS, f, frame)
  }
}
