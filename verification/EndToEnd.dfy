/** From one socket's buffer to the other socket's results: chunk, build, filter, parse. */
module EndToEnd {
  import opened Words
  import opened Wrappers
  import opened Machine
  import opened Runs
  import opened FramingModel
  import opened RoundTrip
  import opened Xdp
  import opened Sizes
  import opened Udp

  /** The datagrams that got a frame, in order. */
  function Kept(cs: seq<seq<byte>>, kept: seq<bool>): seq<seq<byte>>
    requires |cs| == |kept|
  {
    if cs == [] then []
    else
      var n := |cs| - 1;
      Kept(cs[..n], kept[..n]) + if kept[n] then [cs[n]] else []
  }

  function FramesOf(f: Framing, cs: seq<seq<byte>>): (r: seq<seq<byte>>)
    requires f.remote.Some?
    ensures |r| == |cs| && forall i :: 0 <= i < |cs| ==> r[i] == Frame(f, cs[i])
  {
    seq(|cs|, i requires 0 <= i < |cs| => Frame(f, cs[i]))
  }

  lemma {:induction false} KeptSubset(cs: seq<seq<byte>>, kept: seq<bool>)
    requires |cs| == |kept|
    ensures forall p :: p in Kept(cs, kept) ==> p in cs
    ensures (forall i :: 0 <= i < |kept| ==> kept[i]) ==> Kept(cs, kept) == cs
  {
    if cs != [] {
      var n := |cs| - 1;
      KeptSubset(cs[..n], kept[..n]);
      assert cs == cs[..n] + [cs[n]];
    }
  }

  lemma KeptNone(f: Framing)
    requires f.remote.Some?
    ensures FramesOf(f, Kept([], [])) == []
  {
  }

  lemma NoChunks(m: nat)
    requires m > 0
    ensures Chunks([], m) == []
  {
  }

  /** One more datagram: kept, it adds its frame. */
  lemma KeptNext(f: Framing, cs: seq<seq<byte>>, kept: seq<bool>, c: seq<byte>, k: bool)
    requires |cs| == |kept| && f.remote.Some?
    ensures FramesOf(f, Kept(cs + [c], kept + [k])) == FramesOf(f, Kept(cs, kept)) + if k then [Frame(f, c)] else []
  {
    hide Frame;
    assert (cs + [c])[..|cs|] == cs && (kept + [k])[..|cs|] == kept;
  }

  /** One `send` of the datagrams `cs`: `states[i]` is the state before datagram `i` and `loads[i]` the one at
      its COMP producer load; each step is `SendStep`, so `kept` is decided by the run. */
  ghost predicate SendRun(g: Geometry, f: Framing, cs: seq<seq<byte>>, kept: seq<bool>, states: seq<State>, loads: seq<State>) {
    && |kept| == |loads| == |cs| && |states| == |cs| + 1
    && forall i :: 0 <= i < |cs| ==> SendStep(g, f, states[i], loads[i], states[i + 1], cs[i], kept[i])
  }

  lemma SendRunStart(g: Geometry, f: Framing, s: State)
    ensures SendRun(g, f, [], [], [s], [])
  {
  }

  lemma SendRunNext(g: Geometry, f: Framing, cs: seq<seq<byte>>, kept: seq<bool>, states: seq<State>, loads: seq<State>,
                    c: seq<byte>, k: bool, t: State, load: State)
    requires SendRun(g, f, cs, kept, states, loads) && SendStep(g, f, states[|cs|], load, t, c, k)
    ensures SendRun(g, f, cs + [c], kept + [k], states + [t], loads + [load])
  {
    hide SendStep;
  }

  /** One datagram: it is kept exactly if the pool has a frame or COMP, at this call's own load, holds one; kept,
      its frame joins the TX history and a kick is owed; dropped, the user's side is as it was. */
  lemma StepData(g: Geometry, f: Framing, s: State, load: State, t: State, payload: seq<byte>, kept: bool)
    requires SendStep(g, f, s, load, t, payload, kept)
    ensures Advanced(s, t) && f.remote.Some?
    ensures t.u.txData == s.u.txData + if kept then [Frame(f, payload)] else []
    ensures t.u.kicks == s.u.kicks && t.u.rxTaken == s.u.rxTaken && t.u.fillPub == s.u.fillPub
    ensures load.u == s.u && s.k.compPub <= load.k.compPub <= t.k.compPub
    ensures kept <==> s.u.free != [] || s.u.compRead < |load.k.compPub|
    ensures t.u.pending == (s.u.pending || kept) && (!kept ==> t.u == s.u)
  {
    hide Inv, Frame, Refilled;
    RefillTouches(g, s.u, load.k.compPub);
    RelySelf(g, load);
    RelyComp(g, load, load);
    AdvancedTransitive(s, load, t);
  }

  /** Over a whole `send` the TX history grows by the frames of the datagrams that got one, in order; nothing
      else of the user's side but the pool and the TX ring moves, and the kernel's histories only grow. */
  lemma {:induction false} SendRunData(g: Geometry, f: Framing, cs: seq<seq<byte>>, kept: seq<bool>, states: seq<State>,
                                       loads: seq<State>)
    requires SendRun(g, f, cs, kept, states, loads) && f.remote.Some?
    ensures Advanced(states[0], states[|cs|])
    ensures states[|cs|].u.txData == states[0].u.txData + FramesOf(f, Kept(cs, kept))
    ensures
      var s, t := states[0].u, states[|cs|].u;
      && t.kicks == s.kicks && t.rxTaken == s.rxTaken && t.fillPub == s.fillPub
      && t.pending == (s.pending || true in kept)
    decreases |cs|
  {
    hide SendStep, Frame, Kept, FramesOf;
    if cs == [] {
      KeptNone(f);
      RelySelf(g, states[0]);
    } else {
      var n := |cs| - 1;
      SendRunData(g, f, cs[..n], kept[..n], states[..n + 1], loads[..n]);
      StepData(g, f, states[n], loads[n], states[n + 1], cs[n], kept[n]);
      AdvancedTransitive(states[0], states[n], states[n + 1]);
      assert cs == cs[..n] + [cs[n]] && kept == kept[..n] + [kept[n]];
      KeptNext(f, cs[..n], kept[..n], cs[n], kept[n]);
    }
  }

  /** A whole `send` in terms of the buffer: datagram `i` is its piece `i`, and there are just enough datagrams. Each
      adds its own frame or nothing, the latter exactly if the pool was empty and COMP, at that datagram's load,
      held nothing to reclaim. */
  lemma SendRunPieces(g: Geometry, f: Framing, buf: seq<byte>, m: nat, kept: seq<bool>, states: seq<State>, loads: seq<State>)
    requires m > 0 && f.remote.Some? && SendRun(g, f, Chunks(buf, m), kept, states, loads)
    ensures |loads| == |kept| && |states| == |kept| + 1 && Piece(buf, m, |kept|) == []
    ensures forall i {:trigger kept[i]} :: 0 <= i < |kept| ==>
      && Piece(buf, m, i) != []
      && states[i + 1].u.txData == states[i].u.txData + (if kept[i] then [Frame(f, Piece(buf, m, i))] else [])
    ensures forall i :: 0 <= i < |kept| ==>
      && loads[i].u == states[i].u && states[i].k.compPub <= loads[i].k.compPub <= states[i + 1].k.compPub
      && (kept[i] <==> states[i].u.free != [] || states[i].u.compRead < |loads[i].k.compPub|)
  {
    hide SendStep, Frame, Chunks, Piece;
    ChunkAt(buf, m, |kept|);
    forall i | 0 <= i < |kept|
      ensures Chunks(buf, m)[i] == Piece(buf, m, i) != []
      ensures states[i + 1].u.txData == states[i].u.txData + (if kept[i] then [Frame(f, Piece(buf, m, i))] else [])
      ensures loads[i].u == states[i].u && states[i].k.compPub <= loads[i].k.compPub <= states[i + 1].k.compPub
      ensures kept[i] <==> states[i].u.free != [] || states[i].u.compRead < |loads[i].k.compPub|
    {
      ChunkAt(buf, m, i);
      StepData(g, f, states[i], loads[i], states[i + 1], Chunks(buf, m)[i], kept[i]);
    }
  }

  lemma SendRunLength(g: Geometry, f: Framing, cs: seq<seq<byte>>, kept: seq<bool>, states: seq<State>, loads: seq<State>)
    requires SendRun(g, f, cs, kept, states, loads)
    ensures |kept| == |cs| == |loads| && |states| == |cs| + 1
  {
  }

  /** The frames a `send` adds: none over the MTU; with nothing dropped, frame `i` carries piece `i`, all are full but
      the last, and they carry the whole buffer. */
  lemma AddedFrames(f: Framing, buf: seq<byte>, m: nat, kept: seq<bool>, added: seq<seq<byte>>)
    requires m > 0 && f.remote.Some? && |kept| == |Chunks(buf, m)| && added == FramesOf(f, Kept(Chunks(buf, m), kept))
    ensures forall i :: 0 <= i < |added| ==> |added[i]| <= ETH_HDR_LEN + UDP_OVERHEAD + m
    ensures (forall i :: 0 <= i < |kept| ==> kept[i]) ==>
      && |added| == |kept| && Piece(buf, m, |added|) == []
      && (forall i :: 0 <= i < |added| - 1 ==> |added[i]| == ETH_HDR_LEN + UDP_OVERHEAD + m)
      && (forall i :: 0 <= i < |added| ==> |added[i]| > 42 && added[i][42..] == Piece(buf, m, i))
  {
    hide Frame, Chunks, Kept, Piece;
    var cs := Chunks(buf, m);
    var sent := Kept(cs, kept);
    ChunksPartition(buf, m);
    KeptSubset(cs, kept);
    forall i | 0 <= i < |added| ensures |added[i]| <= ETH_HDR_LEN + UDP_OVERHEAD + m {
      assert sent[i] in cs;
    }
    if forall i :: 0 <= i < |kept| ==> kept[i] {
      ChunkAt(buf, m, |added|);
      forall i | 0 <= i < |added| ensures |added[i]| > 42 && added[i][42..] == Piece(buf, m, i) {
        ChunkAt(buf, m, i);
        FrameEnds(f, cs[i]);
      }
    }
  }

  /** The mirrored socket: it sees our source and destination swapped. */
  function Mirror(f: Framing): Framing
    requires f.remote.Some?
  {
    Framing(f.dstMac, f.srcMac, f.remote.value, Some(f.local))
  }

  /** One datagram: its frame passes the XDP program holding the peer's flow key, and the peer parses it back. */
  lemma DatagramReaches(f: Framing, caps: ChecksumCaps, config: set<seq<byte>>, xsks: map<nat, nat>, queue: nat,
                        payload: seq<byte>)
    requires f.remote.Some? && f.remote.value.port != 0 && UDP_OVERHEAD + |payload| < 0x1_0000
    requires FlowKey(f.remote.value, f.local) in config && queue in xsks
    ensures RedirectFlow(Frame(f, payload), config, xsks, queue) == Redirect(xsks[queue])
    ensures ParseWith(caps, Mirror(f), Frame(f, payload)) == Some(payload)
  {
    hide ParseWith, RedirectFlow, Frame, FlowKey;
    assert Frame(f, payload) + [] == Frame(f, payload);
    RoundTripIff(caps, f, Mirror(f), payload, []);
    BuiltFrameRedirected(f, payload, [], config, xsks, queue);
  }

  /** Every frame a `send` puts on the wire passes the XDP program holding the peer's flow key, and the
      peer's `parse` gives back the chunk it carries, whether or not the peer verifies checksums. If no
      datagram was dropped, the payloads concatenate to the buffer. */
  lemma SendReachesPeer(f: Framing, mtu: nat, buf: seq<byte>, kept: seq<bool>,
                        caps: ChecksumCaps, config: set<seq<byte>>, xsks: map<nat, nat>, queue: nat)
    requires f.remote.Some? && f.remote.value.port != 0
    requires UDP_OVERHEAD < mtu < 0x1_0000
    requires |kept| == |Chunks(buf, mtu - UDP_OVERHEAD)|
    requires FlowKey(f.remote.value, f.local) in config && queue in xsks
    ensures
      var sent := Kept(Chunks(buf, mtu - UDP_OVERHEAD), kept);
      && (forall i :: 0 <= i < |sent| ==>
            && sent[i] != []
            && RedirectFlow(FramesOf(f, sent)[i], config, xsks, queue) == Redirect(xsks[queue])
            && ParseWith(caps, Mirror(f), FramesOf(f, sent)[i]) == Some(sent[i]))
      && ((forall i :: 0 <= i < |kept| ==> kept[i]) ==> Concat(sent) == buf)
  {
    hide RedirectFlow, ParseWith, Frame, Chunks, Kept, FlowKey;
    var cs := Chunks(buf, mtu - UDP_OVERHEAD);
    var sent := Kept(cs, kept);
    ChunksPartition(buf, mtu - UDP_OVERHEAD);
    KeptSubset(cs, kept);
    forall i | 0 <= i < |sent|
      ensures
        && sent[i] != []
        && RedirectFlow(FramesOf(f, sent)[i], config, xsks, queue) == Redirect(xsks[queue])
        && ParseWith(caps, Mirror(f), FramesOf(f, sent)[i]) == Some(sent[i])
    {
      assert sent[i] in cs;
      DatagramReaches(f, caps, config, xsks, queue, sent[i]);
    }
  }

  /** The frames of `payloads`, each with some Ethernet padding. */
  function Padded(f: Framing, payloads: seq<seq<byte>>, pads: seq<seq<byte>>): (r: seq<seq<byte>>)
    requires f.remote.Some? && |payloads| == |pads|
    ensures |r| == |payloads| && forall i :: 0 <= i < |r| ==> r[i] == Frame(f, payloads[i]) + pads[i]
  {
    seq(|payloads|, i requires 0 <= i < |payloads| => Frame(f, payloads[i]) + pads[i])
  }

  /** A peer with room for every payload receives exactly the nonempty ones, in delivery order, when what
      its kernel delivers is what the mirrored socket built, however it was padded. */
  lemma {:induction false} PeerReceives(f: Framing, calls: seq<Call>, payloads: seq<seq<byte>>, pads: seq<seq<byte>>)
    requires f.remote.Some? && f.remote.value.port != 0 && |calls| == |payloads| == |pads|
    requires forall i :: 0 <= i < |calls| ==>
      calls[i].framing == Mirror(f) && 0 < |payloads[i]| <= calls[i].room && UDP_OVERHEAD + |payloads[i]| < 0x1_0000
    ensures Received(calls, Padded(f, payloads, pads)) == payloads
    decreases |calls|
  {
    hide ParseWith, Frame;
    if calls != [] {
      var n := |calls| - 1;
      var data := Padded(f, payloads, pads);
      PeerReceives(f, calls[..n], payloads[..n], pads[..n]);
      assert Padded(f, payloads[..n], pads[..n]) == data[..n];
      ReceivedPrefix(calls[..n], data[..n], data);
      DeliversWhole(f, calls[n], payloads[n], pads[n]);
      assert payloads == payloads[..n] + [payloads[n]];
    }
  }

  lemma DeliversWhole(f: Framing, c: Call, payload: seq<byte>, pad: seq<byte>)
    requires f.remote.Some? && f.remote.value.port != 0 && UDP_OVERHEAD + |payload| < 0x1_0000
    requires c.framing == Mirror(f) && 0 < |payload| <= c.room
    ensures Outcome(c, Frame(f, payload) + pad) == [payload]
  {
    hide ParseWith, Frame;
    RoundTripIff(CHECKSUM_CAPS, f, Mirror(f), payload, pad);
    assert payload[..|payload|] == payload;
  }
}
