/** The XDP program: a second, independent walk over the same headers, ending in a map lookup. */
module Xdp {
  import opened Words
  import opened Wrappers
  import opened FramingModel
  import opened RoundTrip
  import opened Checksums

  /** `Fault` is a read outside `[data, data_end)`, which the program must never make. */
  datatype Action = Pass | Redirect(fd: nat) | Fault

  /** The 12-byte `config_map` key: the inbound direction only, in network byte order. */
  function FlowKey(local: Endpoint, remote: Endpoint): (k: seq<byte>)
    ensures |k| == 12
  {
    remote.ip + Be16(remote.port) + local.ip + Be16(local.port)
  }

  function Load(data: seq<byte>, at: nat, n: nat): Option<seq<byte>> {
    if at + n <= |data| then Some(data[at..at + n]) else None
  }

  /** `bpf_redirect_map(&xsks_map, queue, XDP_PASS)`. */
  function RedirectMap(xsks: map<nat, nat>, queue: nat): Action {
    if queue in xsks then Redirect(xsks[queue]) else Pass
  }

  function FlowTracked(data: seq<byte>, config: set<seq<byte>>, xsks: map<nat, nat>, queue: nat, l4: nat): Action {
    match (Load(data, 26, 4), Load(data, l4, 2), Load(data, 30, 4), Load(data, l4 + 2, 2))
    case (Some(saddr), Some(sport), Some(daddr), Some(dport)) =>
      if saddr + sport + daddr + dport in config then RedirectMap(xsks, queue) else Pass
    case _ => Fault
  }

  function RedirectFlow(data: seq<byte>, config: set<seq<byte>>, xsks: map<nat, nat>, queue: nat): Action {
    if 14 > |data| then Pass
    else match Load(data, 12, 2)
      case None => Fault
      case Some(hproto) =>
        if hproto != [0x08, 0x00] then Pass
        else if 14 + 20 > |data| then Pass
        else match (Load(data, 14, 1), Load(data, 23, 1))
          case (Some(first), Some(protocol)) =>
            var ihl := (first[0] % 16) * 4;
            var l4 := 14 + ihl;
            if ihl < 20 then Pass
            else if protocol == [PROTO_TCP] then
              if l4 + 20 > |data| then Pass else FlowTracked(data, config, xsks, queue, l4)
            else if protocol == [PROTO_UDP] then
              if l4 + 8 > |data| then Pass else FlowTracked(data, config, xsks, queue, l4)
            else Pass
          case _ => Fault
  }

  /** The program never reads past `data_end`, on any bytes at all. */
  lemma NeverFaults(data: seq<byte>, config: set<seq<byte>>, xsks: map<nat, nat>, queue: nat)
    ensures RedirectFlow(data, config, xsks, queue) != Fault
  {
  }

  /** What the program does with every byte string, by offsets: TCP and UDP segments whose headers are all
      there are redirected exactly when their four fields are a tracked flow and the queue has a socket;
      everything else passes. */
  lemma RedirectIff(data: seq<byte>, config: set<seq<byte>>, xsks: map<nat, nat>, queue: nat)
    ensures
      var redirected :=
        && |data| >= 34 && data[12..14] == [0x08, 0x00] && queue in xsks
        && var h := 4 * (data[14] % 16);
        && h >= 20
        && ((data[23] == 6 && 14 + h + 20 <= |data|) || (data[23] == 17 && 14 + h + 8 <= |data|))
        && data[26..30] + data[14 + h..16 + h] + data[30..34] + data[16 + h..18 + h] in config;
      RedirectFlow(data, config, xsks, queue) == if redirected then Redirect(xsks[queue]) else Pass
  {
    if |data| >= 34 {
      assert data[14..15] == [data[14]] && data[23..24] == [data[23]];
    }
  }

  /** The key is injective in both endpoints. */
  lemma FlowKeyInjective(l: Endpoint, r: Endpoint, l': Endpoint, r': Endpoint)
    requires FlowKey(l, r) == FlowKey(l', r')
    ensures l == l' && r == r'
  {
    var k, k' := FlowKey(l, r), FlowKey(l', r');
    assert k[..4] == r.ip && k[4..6] == Be16(r.port) && k[6..10] == l.ip && k[10..12] == Be16(l.port);
    assert k'[..4] == r'.ip && k'[4..6] == Be16(r'.port) && k'[6..10] == l'.ip && k'[10..12] == Be16(l'.port);
    assert k[4] == k'[4] && k[5] == k'[5] && k[10] == k'[10] && k[11] == k'[11];
  }

  /** The key the program builds from a frame that `Parse` accepts is `FlowKey`, byte for byte. */
  lemma AcceptedKey(f: Framing, frame: seq<byte>)
    requires Parse(f, frame).Some?
    ensures
      var l4 := 14 + HeaderLen(frame[14..]);
      && l4 + 8 <= |frame| && |frame| >= 34 && frame[12..14] == [0x08, 0x00] && frame[23] == PROTO_UDP
      && frame[26..30] + frame[l4..l4 + 2] + frame[30..34] + frame[l4 + 2..l4 + 4] == FlowKey(f.local, f.remote.value)
  {
    var ip := frame[14..];
    var d := Ipv4Payload(ip);
    var l4 := 14 + HeaderLen(ip);
    assert frame[26..30] == ip[12..16] && frame[30..34] == ip[16..20];
    assert frame[l4..l4 + 2] == d[0..2] && frame[l4 + 2..l4 + 4] == d[2..4];
    Be16OfU16At(d, 0);
    Be16OfU16At(d, 2);
  }

  /** The two parsers agree: a frame `Parse` accepts is redirected exactly when its IPv4 header length is
      at least the legal 20 and the map tracks the flow `Parse` accepted it for. */
  lemma ParsersAgree(f: Framing, frame: seq<byte>, config: set<seq<byte>>, xsks: map<nat, nat>, queue: nat)
    requires Parse(f, frame).Some? && queue in xsks
    ensures RedirectFlow(frame, config, xsks, queue)
            == if HeaderLen(frame[14..]) >= IPV4_HEADER_LEN && FlowKey(f.local, f.remote.value) in config
               then Redirect(xsks[queue]) else Pass
  {
    AcceptedKey(f, frame);
  }

  const SHORT_FRAMING := Framing([0, 0, 0, 0, 0, 0], [0, 0, 0, 0, 0, 0],
                                 Endpoint([10, 0, 0, 1], 1), Some(Endpoint([10, 9, 8, 7], 2560)))

  /** An IPv4 header that claims 16 bytes, so its last word, the destination, doubles as the ports. */
  const SHORT_PACKET: seq<byte> :=
    [0x44, 0, 0, 25, 0, 0, 0, 0, 64, 17, 0, 0, 10, 9, 8, 7, 10, 0, 0, 1, 0, 9, 0, 0, 42]

  /** Below 20 the two do disagree: `Parse` delivers this frame, the program passes it to the kernel. */
  lemma ShortHeaderDisagrees()
    ensures
      var frame := EthHeader(SHORT_FRAMING.dstMac, SHORT_FRAMING.srcMac) + SHORT_PACKET;
      && Parse(SHORT_FRAMING, frame) == Some([42])
      && RedirectFlow(frame, {FlowKey(SHORT_FRAMING.local, SHORT_FRAMING.remote.value)}, map[0 := 3], 0) == Pass
  {
    hide Sum16, Fold, ParseWith, RedirectFlow, FlowKey;
    var ip := SHORT_PACKET;
    ShortPacketFields(ip);
    var frame := EthHeader(SHORT_FRAMING.dstMac, SHORT_FRAMING.srcMac) + ip;
    assert frame[14..] == ip && frame[12..14] == [0x08, 0x00];
    ShortParsed(SHORT_FRAMING, frame, ip);
    ParsersAgree(SHORT_FRAMING, frame, {FlowKey(SHORT_FRAMING.local, SHORT_FRAMING.remote.value)}, map[0 := 3], 0);
  }

  lemma ShortPacketFields(ip: seq<byte>)
    requires ip == SHORT_PACKET
    ensures |ip| == 25 && ip[0] == 0x44 && ip[2] == 0 && ip[3] == 25 && ip[6] == 0 && ip[7] == 0 && ip[9] == PROTO_UDP
    ensures ip[12..16] == [10, 9, 8, 7] && ip[16..20] == [10, 0, 0, 1] && ip[16..25] == [10, 0, 0, 1, 0, 9, 0, 0, 42]
  {
  }

  lemma ShortParsed(f: Framing, frame: seq<byte>, ip: seq<byte>)
    requires f == SHORT_FRAMING && ip == SHORT_PACKET
    requires |frame| == 39 && frame[14..] == ip && frame[12..14] == [0x08, 0x00]
    ensures Parse(f, frame) == Some([42]) && HeaderLen(ip) == 16
  {
    hide Sum16, Fold;
    ShortPacketFields(ip);
    assert Ipv4Accepts(CHECKSUM_CAPS, ip);
    var d := Ipv4Payload(ip);
    assert d == [10, 0, 0, 1, 0, 9, 0, 0, 42];
    assert U16At(d, 0) == 2560 && U16At(d, 2) == 1 && U16At(d, 4) == 9;
    assert d[8..9] == [42];
  }

  /** What the program does with a built frame, whatever its ports: redirected exactly when the map tracks
      the reverse direction of the flow it was built for. */
  lemma BuiltFrameRedirected(f: Framing, payload: seq<byte>, pad: seq<byte>,
                             config: set<seq<byte>>, xsks: map<nat, nat>, queue: nat)
    requires f.remote.Some? && UDP_OVERHEAD + |payload| < 0x1_0000 && queue in xsks
    ensures RedirectFlow(Frame(f, payload) + pad, config, xsks, queue)
            == if FlowKey(f.remote.value, f.local) in config then Redirect(xsks[queue]) else Pass
  {
    hide Sum16, Fold;
    var frame := Frame(f, payload) + pad;
    var ip := Packet(f.local, f.remote.value, payload) + pad;
    assert frame[..14] == EthHeader(f.dstMac, f.srcMac);
    assert frame[12..14] == frame[..14][12..14] == [0x08, 0x00];
    assert frame[14..] == ip;
    PacketFields(f.local, f.remote.value, payload, pad);
    var d := Ipv4Payload(ip);
    DatagramFields(f.local, f.remote.value, payload);
    Be16OfU16At(d, 0);
    Be16OfU16At(d, 2);
    assert frame[14..15] == [0x45] && frame[23..24] == [PROTO_UDP];
    assert frame[26..30] == ip[12..16] && frame[30..34] == ip[16..20];
    assert frame[34..36] == d[0..2] && frame[36..38] == d[2..4];
  }

  /** Hairpin safety: with only this socket's flow tracked, the program redirects a frame this socket
      built exactly when the socket is connected to itself. */
  lemma HairpinIff(f: Framing, payload: seq<byte>, pad: seq<byte>, xsks: map<nat, nat>, queue: nat)
    requires f.remote.Some? && UDP_OVERHEAD + |payload| < 0x1_0000 && queue in xsks
    ensures RedirectFlow(Frame(f, payload) + pad, {FlowKey(f.local, f.remote.value)}, xsks, queue)
            == if f.local == f.remote.value then Redirect(xsks[queue]) else Pass
  {
    BuiltFrameRedirected(f, payload, pad, {FlowKey(f.local, f.remote.value)}, xsks, queue);
    if FlowKey(f.remote.value, f.local) == FlowKey(f.local, f.remote.value) {
      FlowKeyInjective(f.remote.value, f.local, f.local, f.remote.value);
    }
  }
}
