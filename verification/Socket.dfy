/** `Socket` over the UDP plane: registration with the BPF maps, `connect`, `send`, `recv` and drop. */
module Sockets {
  import opened Words
  import opened Wrappers
  import opened Machine
  import opened Runs
  import opened Rings
  import opened Xsks
  import opened FramingModel
  import opened Xdp
  import opened Sizes
  import opened Udp
  import opened EndToEnd
  import opened Registration

  const MAX_FLOWS: nat := 16
  const MAX_QUEUES: nat := 64

  /** The loaded BPF object: its two maps, and a record of what its live sockets have registered. */
  class Skeleton {
    var xsks: map<nat, nat>
    var config: set<Key>
    ghost var live: Live

    ghost predicate Valid()
      reads this
    {
      Exact(Maps(xsks, config), live) && Distinct(live)
    }

    constructor ()
      ensures Valid() && live == map[]
    {
      xsks, config, live := map[], {}, map[];
    }

    /** `xsks_map` insert; refused only past the end of the map. `ok` also needs the port reservation that
        follows, without which the entry is left behind. */
    method Register(queue: nat, fd: nat, reserved: bool) returns (ok: bool)
      requires Valid() && queue !in live
      modifies this
      ensures ok <==> queue < 64 && reserved
      ensures live == if ok then old(live)[queue := Entry(fd, None)] else old(live)
      ensures config == old(config) && xsks == if queue < 64 then old(xsks)[queue := fd] else old(xsks)
      ensures Valid() <==> queue >= 64 || reserved
    {
      if queue >= MAX_QUEUES {
        return false;
      }
      NewExactIff(Maps(xsks, config), live, queue, fd, reserved);
      KeepsDistinct(live, Event.New(queue, fd, reserved));
      xsks := xsks[queue := fd];
      live := Remember(live, Event.New(queue, fd, reserved));
      ok := reserved;
    }

    /** `config_map` insert; refused only when the map is full, and then nothing changes. Leaves the maps
        exact if and only if the queue's socket had no flow, or this one. */
    method Track(queue: nat, key: Key) returns (ok: bool)
      requires Valid() && queue in live && Allowed(live, Event.Connect(queue, key, true))
      modifies this
      ensures ok <==> key in old(config) || |old(config)| < 16
      ensures xsks == old(xsks)
      ensures ok ==> config == old(config) + {key} && live == Remember(old(live), Event.Connect(queue, key, true))
      ensures ok ==> (Valid() <==> old(live)[queue].flow == None || old(live)[queue].flow == Some(key))
      ensures !ok ==> Valid() && config == old(config) && live == old(live)
    {
      if key !in config && |config| >= MAX_FLOWS {
        return false;
      }
      ConnectExactIff(Maps(xsks, config), live, queue, key, true);
      KeepsDistinct(live, Event.Connect(queue, key, true));
      config := config + {key};
      live := Remember(live, Event.Connect(queue, key, true));
      ok := true;
    }

    /** `Drop`: remove this queue's entry and its flow, if it has one, and nothing else. */
    method Unregister(queue: nat, flow: Option<Key>)
      requires Valid() && queue in live && live[queue].flow == flow
      modifies this
      ensures Valid() && live == old(live) - {queue} && xsks == old(xsks) - {queue}
      ensures config == old(config) - if flow.Some? then {flow.value} else {}
    {
      DropExact(Maps(xsks, config), live, queue);
      KeepsDistinct(live, Event.Drop(queue));
      if flow.Some? {
        config := config - {flow.value};
      }
      xsks := xsks - {queue};
      live := live - {queue};
    }
  }

  class Socket {
    const skel: Skeleton
    const queueId: nat
    const mtu: nat
    const local: Endpoint
    const udp: UdpPlane
    var connected: bool
    var remote: Option<Endpoint>

    /** The kick discipline is part of it: between public calls no frame waits for a kick. */
    ghost predicate Valid()
      reads this, udp, udp.xsk, udp.xsk.fill, udp.xsk.fill.desc, udp.xsk.comp, udp.xsk.comp.desc
      reads udp.xsk.rx, udp.xsk.rx.desc, udp.xsk.tx, udp.xsk.tx.desc, udp.xsk.umem
    {
      && udp.Valid() && !udp.xsk.txPending
      && udp.framing.local == local && udp.framing.remote == remote && connected == remote.Some?
      && UDP_OVERHEAD < mtu && ETH_HDR_LEN + mtu <= udp.xsk.g.frameSize <= 0x1_0000
    }

    /** Build the UMEM and rings with frames sized to the link, register in `xsks_map`, then take the port.
        An MTU without room for the headers, or whose frames exceed a page, touches nothing. */
    static method New(skel: Skeleton, queueId: nat, fd: nat, reserved: bool, mtu: nat, pageSize: nat,
                      local: Endpoint, srcMac: Mac, dstMac: Mac) returns (r: Result<Socket, IoError>)
      requires skel.Valid() && queueId !in skel.live && pageSize <= 0x1_0000
      modifies skel
      ensures mtu <= UDP_OVERHEAD || FrameSizeFor(mtu, pageSize).Err? <==> r == Err(InvalidInput)
      ensures r == Err(InvalidInput) ==> skel.Valid() && unchanged(skel)
      ensures r.Err? ==> skel.live == old(skel.live)
      ensures r != Err(InvalidInput) ==>
        skel.xsks == if queueId < 64 then old(skel.xsks)[queueId := fd] else old(skel.xsks)
      ensures skel.config == old(skel.config)
      ensures r.Ok? <==>
        UDP_OVERHEAD < mtu && FrameSizeFor(mtu, pageSize).Ok? && queueId < 64 && reserved
      ensures r.Ok? ==> skel.Valid() && skel.live == old(skel.live)[queueId := Entry(fd, None)]
      ensures r.Ok? ==> fresh(r.value) && r.value.Valid() && r.value.Registered()
      ensures r.Ok? ==> r.value.skel == skel && r.value.queueId == queueId && r.value.mtu == mtu && r.value.local == local
      ensures r.Ok? ==> !r.value.connected && r.value.udp.framing == Framing(srcMac, dstMac, local, None)
      ensures r.Ok? ==> r.value.udp.xsk.g == GeometryFor(FrameSizeFor(mtu, pageSize).value)
    {
      hide Inv, Ring.Valid, Xsk.Valid, Exact, Distinct, Init, FrameSizeFor;
      if mtu <= UDP_OVERHEAD {
        return Err(InvalidInput);
      }
      var size := FrameSizeFor(mtu, pageSize);
      if size.Err? {
        return Err(InvalidInput);
      }
      FrameSizeIsLeast(mtu, pageSize);
      CodeGeometryIsGood(size.value);
      var xsk := new Xsk(GeometryFor(size.value));
      FreshIsIdle(GeometryFor(size.value), xsk);
      var ok := skel.Register(queueId, fd, reserved);
      if !ok {
        return Err(Refused);
      }
      var udp := new UdpPlane(xsk, Framing(srcMac, dstMac, local, None));
      var sock := new Socket.Over(skel, queueId, mtu, local, udp);
      r := Ok(sock);
    }

    /** A new `Xsk` has nothing in hand. */
    static lemma FreshIsIdle(g: Geometry, xsk: Xsk)
      requires Good(g) && xsk.g == g && xsk.Valid() && xsk.Snap() == Init(g, xsk.umem[..])
      ensures xsk.Idle() && xsk.rx.consumed == [] && xsk.txData == [] && !xsk.txPending
    {
      hide Inv, Ring.Valid;
      assert xsk.Snap().u.compTaken == 0 && xsk.Snap().u.rxTaken == 0;
    }

    constructor Over(skel: Skeleton, queueId: nat, mtu: nat, local: Endpoint, udp: UdpPlane)
      requires udp.Valid() && !udp.xsk.txPending && udp.framing.local == local && udp.framing.remote == None
      requires UDP_OVERHEAD < mtu && ETH_HDR_LEN + mtu <= udp.xsk.g.frameSize <= 0x1_0000
      ensures Valid() && this.skel == skel && this.queueId == queueId && this.mtu == mtu && this.local == local
      ensures this.udp == udp && !connected
    {
      this.skel, this.queueId, this.mtu, this.local, this.udp := skel, queueId, mtu, local, udp;
      connected, remote := false, None;
    }

    /** What this socket has registered. */
    ghost predicate Registered()
      reads this, skel
    {
      queueId in skel.live && skel.live[queueId].flow == if remote.Some? then Some(FlowKey(local, remote.value)) else None
    }

    /** Insert the flow into `config_map`, then remember the remote. Leaves the maps exact if and only if
        it is the first `connect`, or repeats the same remote. */
    method Connect(r: Endpoint) returns (ok: bool)
      requires Valid() && skel.Valid() && Registered()
      requires Allowed(skel.live, Event.Connect(queueId, FlowKey(local, r), true))
      modifies this`connected, this`remote, udp`framing, skel
      ensures Valid() && Registered()
      ensures ok <==> FlowKey(local, r) in old(skel.config) || |old(skel.config)| < 16
      ensures ok ==> connected && remote == Some(r) && skel.config == old(skel.config) + {FlowKey(local, r)}
      ensures udp.framing == if ok then old(udp.framing).(remote := Some(r)) else old(udp.framing)
      ensures ok ==> (skel.Valid() <==> old(remote) == None || old(remote) == Some(r))
      ensures skel.xsks == old(skel.xsks)
      ensures skel.live == if ok then Remember(old(skel.live), Event.Connect(queueId, FlowKey(local, r), true)) else old(skel.live)
      ensures !ok ==> skel.Valid() && skel.config == old(skel.config) && remote == old(remote) && connected == old(connected)
    {
      hide Inv, Ring.Valid, Xsk.Valid, FlowKey, Exact, Distinct;
      if remote.Some? && FlowKey(local, remote.value) == FlowKey(local, r) {
        FlowKeyInjective(local, remote.value, local, r);
      }
      ok := skel.Track(queueId, FlowKey(local, r));
      if ok {
        udp.framing := udp.framing.(remote := Some(r));
        remote, connected := Some(r), true;
      }
    }

    /** Hand each datagram to the plane in turn. */
    method SendEach(chunks: seq<seq<byte>>) returns (ghost kept: seq<bool>, ghost states: seq<State>, ghost loads: seq<State>)
      requires udp.Valid() && udp.framing.remote.Some?
      requires forall c :: c in chunks ==> ETH_HDR_LEN + UDP_OVERHEAD + |c| <= udp.xsk.g.frameSize
      modifies udp.xsk, udp.xsk.umem, udp.xsk.fill, udp.xsk.fill.desc, udp.xsk.comp, udp.xsk.comp.desc
      modifies udp.xsk.rx, udp.xsk.rx.desc, udp.xsk.tx, udp.xsk.tx.desc
      modifies udp`built
      ensures udp.Valid() && udp.framing.remote.Some?
      ensures SendRun(udp.xsk.g, udp.framing, chunks, kept, states, loads)
      ensures states[0] == old(udp.xsk.Snap()) && states[|chunks|] == udp.xsk.Snap()
    {
      hide Inv, Ring.Valid, Xsk.Valid, Frame, FrameOf, Base, SendStep, Received, AreFrames, Advanced;
      kept, states, loads := [], [udp.xsk.Snap()], [];
      SendRunStart(udp.xsk.g, udp.framing, udp.xsk.Snap());
      assert chunks[..0] == [];
      for i := 0 to |chunks|
        invariant udp.Valid() && SendRun(udp.xsk.g, udp.framing, chunks[..i], kept, states, loads)
        invariant states[0] == old(udp.xsk.Snap()) && states[i] == udp.xsk.Snap()
      {
        assert chunks[i] in chunks && chunks[..i + 1] == chunks[..i] + [chunks[i]];
        ghost var k, load;
        var n;
        n, k, load := udp.Send(chunks[i]);
        SendRunNext(udp.xsk.g, udp.framing, chunks[..i], kept, states, loads, chunks[i], k, udp.xsk.Snap(), load);
        kept, states, loads := kept + [k], states + [udp.xsk.Snap()], loads + [load];
      }
      assert chunks[..|chunks|] == chunks;
    }

    /** Between calls every submission has had its need-wakeup test. */
    lemma NothingOwed()
      requires Valid()
      ensures udp.xsk.checked == |udp.xsk.tx.published|
    {
      hide Inv, Ring.Valid, Received, AreFrames;
      KickDiscipline(udp.xsk.g, udp.xsk.Snap());
    }

    /** The datagrams of a connected socket, before the kick. `added` are the frames that got to TX. */
    method SendDatagrams(buf: seq<byte>)
      returns (ghost kept: seq<bool>, ghost states: seq<State>, ghost loads: seq<State>,
               ghost added: seq<seq<byte>>)
      requires Valid() && connected
      modifies udp.xsk, udp.xsk.umem, udp.xsk.fill, udp.xsk.fill.desc, udp.xsk.comp, udp.xsk.comp.desc
      modifies udp.xsk.rx, udp.xsk.rx.desc, udp.xsk.tx, udp.xsk.tx.desc
      modifies udp`built
      ensures udp.Valid() && udp.framing.remote.Some?
      ensures SendRun(udp.xsk.g, udp.framing, Chunks(buf, mtu - UDP_OVERHEAD), kept, states, loads)
      ensures |states| == |kept| + 1 && states[0] == old(udp.xsk.Snap()) && states[|kept|] == udp.xsk.Snap()
      ensures Advanced(old(udp.xsk.Snap()), udp.xsk.Snap())
      ensures |kept| == |Chunks(buf, mtu - UDP_OVERHEAD)|
      ensures added == FramesOf(udp.framing, Kept(Chunks(buf, mtu - UDP_OVERHEAD), kept))
      ensures udp.xsk.txData == old(udp.xsk.txData) + added
      ensures udp.xsk.kicks == old(udp.xsk.kicks) && udp.xsk.txPending == (true in kept)
      ensures forall i :: 0 <= i < |added| ==> |added[i]| <= ETH_HDR_LEN + mtu
      ensures (forall i :: 0 <= i < |kept| ==> kept[i]) ==>
        && |added| == |kept| && Piece(buf, mtu - UDP_OVERHEAD, |added|) == []
        && (forall i :: 0 <= i < |added| - 1 ==> |added[i]| == ETH_HDR_LEN + mtu)
        && (forall i :: 0 <= i < |added| ==> |added[i]| > 42 && added[i][42..] == Piece(buf, mtu - UDP_OVERHEAD, i))
    {
      hide Inv, Ring.Valid, Xsk.Valid, Frame, FlowKey, Chunks, Kept, FramesOf, SendStep, SendRun, Piece, Rely, Advanced, Received, AreFrames;
      ChunksPartition(buf, mtu - UDP_OVERHEAD);
      var chunks := Chunks(buf, mtu - UDP_OVERHEAD);
      kept, states, loads := SendEach(chunks);
      SendRunData(udp.xsk.g, udp.framing, chunks, kept, states, loads);
      SendRunLength(udp.xsk.g, udp.framing, chunks, kept, states, loads);
      added := FramesOf(udp.framing, Kept(chunks, kept));
      AddedFrames(udp.framing, buf, mtu - UDP_OVERHEAD, kept, added);
    }

    /** Send every datagram of `buf`; one kick for all of them. The user's side goes through `states`, from
        this call's start to its end: each datagram takes one frame of the pool to TX as exactly its frame,
        or, exactly if the pool was exhausted at its COMP load, does nothing (`SendRunPieces` spells out what
        a `SendRun` is). No frame added exceeds the MTU; with nothing dropped they carry the buffer, full but
        for the last. The whole buffer is reported sent either way. */
    method Send(buf: seq<byte>)
      returns (r: Result<nat, IoError>, ghost kept: seq<bool>, ghost states: seq<State>, ghost loads: seq<State>,
               ghost added: seq<seq<byte>>)
      requires Valid()
      modifies udp.xsk, udp.xsk.umem, udp.xsk.fill, udp.xsk.fill.desc, udp.xsk.comp, udp.xsk.comp.desc
      modifies udp.xsk.rx, udp.xsk.rx.desc, udp.xsk.tx, udp.xsk.tx.desc
      modifies udp`built, udp.xsk.wakeups`onTx
      ensures Valid() && Advanced(old(udp.xsk.Snap()), udp.xsk.Snap())
      ensures udp.xsk.checked == |udp.xsk.tx.published|
      ensures udp.xsk.kicks == old(udp.xsk.kicks) + if true in kept && udp.xsk.tx.needWakeup then 1 else 0
      ensures !connected ==> r == Err(NotConnected) && udp.xsk.Snap() == old(udp.xsk.Snap()) && kept == []
      ensures connected ==>
        && r == Ok(|buf|) && SendRun(udp.xsk.g, udp.framing, Chunks(buf, mtu - UDP_OVERHEAD), kept, states, loads)
        && |kept| == |Chunks(buf, mtu - UDP_OVERHEAD)| && |states| == |kept| + 1
        && states[0] == old(udp.xsk.Snap()) && Advanced(states[|kept|], udp.xsk.Snap())
        && udp.xsk.Snap().u == states[|kept|].u.(pending := false, checked := |udp.xsk.tx.published|, kicks := udp.xsk.kicks)
        && added == FramesOf(udp.framing, Kept(Chunks(buf, mtu - UDP_OVERHEAD), kept))
      ensures udp.xsk.txData == old(udp.xsk.txData) + added
      ensures forall i :: 0 <= i < |added| ==> |added[i]| <= ETH_HDR_LEN + mtu
      ensures connected && (forall i :: 0 <= i < |kept| ==> kept[i]) ==>
        && |added| == |kept| && Piece(buf, mtu - UDP_OVERHEAD, |added|) == []
        && (forall i :: 0 <= i < |added| - 1 ==> |added[i]| == ETH_HDR_LEN + mtu)
        && (forall i :: 0 <= i < |added| ==> |added[i]| > 42 && added[i][42..] == Piece(buf, mtu - UDP_OVERHEAD, i))
    {
      hide Inv, Ring.Valid, Xsk.Valid, Frame, FlowKey, Chunks, Kept, FramesOf, SendStep, SendRun, Piece, Rely, Advanced, Received, AreFrames;
      NothingOwed();
      RelySelf(udp.xsk.g, udp.xsk.Snap());
      if !connected {
        return Err(NotConnected), [], [], [], [];
      }
      if buf == [] {
        NoChunks(mtu - UDP_OVERHEAD);
        KeptNone(udp.framing);
        SendRunStart(udp.xsk.g, udp.framing, udp.xsk.Snap());
        ChunkAt(buf, mtu - UDP_OVERHEAD, 0);
        return Ok(0), [], [udp.xsk.Snap()], [], [];
      }
      kept, states, loads, added := SendDatagrams(buf);
      ghost var s := udp.xsk.Snap();
      var kicked := Kick();
      AdvancedTransitive(old(udp.xsk.Snap()), s, udp.xsk.Snap());
      r := Ok(|buf|);
    }

    /** What this `send` put on the wire gets through: every entry it added to the TX history passes the XDP
        program holding the peer's flow key and is parsed by the peer back to its datagram, and with nothing
        dropped the datagrams concatenate to the buffer. */
    lemma SentReaches(before: seq<seq<byte>>, buf: seq<byte>, kept: seq<bool>, caps: ChecksumCaps,
                      config: set<seq<byte>>, xsks: map<nat, nat>, queue: nat)
      requires Valid() && connected && remote.value.port != 0 && |kept| == |Chunks(buf, mtu - UDP_OVERHEAD)|
      requires udp.xsk.txData == before + FramesOf(udp.framing, Kept(Chunks(buf, mtu - UDP_OVERHEAD), kept))
      requires FlowKey(remote.value, local) in config && queue in xsks
      ensures
        var sent := Kept(Chunks(buf, mtu - UDP_OVERHEAD), kept);
        && |udp.xsk.txData| == |before| + |sent|
        && (forall i :: 0 <= i < |sent| ==>
              var frame := udp.xsk.txData[|before| + i];
              && sent[i] != [] && RedirectFlow(frame, config, xsks, queue) == Redirect(xsks[queue])
              && ParseWith(caps, Mirror(udp.framing), frame) == Some(sent[i]))
        && ((forall i :: 0 <= i < |kept| ==> kept[i]) ==> Concat(sent) == buf)
    {
      hide Inv, Ring.Valid, Xsk.Valid, Frame, FlowKey, Chunks, Kept, RedirectFlow, ParseWith, Received, AreFrames;
      SendReachesPeer(udp.framing, mtu, buf, kept, caps, config, xsks, queue);
      var frames := FramesOf(udp.framing, Kept(Chunks(buf, mtu - UDP_OVERHEAD), kept));
      forall i | 0 <= i < |frames| ensures udp.xsk.txData[|before| + i] == frames[i] {
      }
    }

    method Kick() returns (kicked: bool)
      requires udp.Valid()
      modifies udp.xsk, udp.xsk.umem, udp.xsk.fill, udp.xsk.fill.desc, udp.xsk.comp, udp.xsk.comp.desc
      modifies udp.xsk.rx, udp.xsk.rx.desc, udp.xsk.tx, udp.xsk.tx.desc, udp.xsk.wakeups`onTx
      ensures kicked <==> old(udp.xsk.txPending) && udp.xsk.tx.needWakeup
      ensures udp.xsk.wakeups.onTx
              == old(udp.xsk.wakeups.onTx) + if old(udp.xsk.txPending) then [Test(udp.xsk.tx.needWakeup, kicked)] else []
      ensures udp.Valid() && !udp.xsk.txPending && udp.xsk.checked == |udp.xsk.tx.published|
      ensures udp.xsk.kicks == old(udp.xsk.kicks) + (if kicked then 1 else 0) && Advanced(old(udp.xsk.Snap()), udp.xsk.Snap())
      ensures udp.xsk.Snap().u
              == old(udp.xsk.Snap()).u.(pending := false, checked := |udp.xsk.tx.published|, kicks := udp.xsk.kicks)
    {
      hide Inv, Ring.Valid, Frame, Received;
      kicked := udp.xsk.KickTx();
      ReceivedPrefix(udp.calls, old(udp.xsk.rxData), udp.xsk.rxData);
      KickDiscipline(udp.xsk.g, udp.xsk.Snap());
    }

    /** `None` before `connect` or for an empty buffer; otherwise exactly one packet is consumed if one had
        arrived at the RX load (`atLoad`), and its payload delivered if it is ours. Never `Some(0)`. */
    method Recv(buf: array<byte>) returns (r: Option<nat>, ghost atLoad: State)
      requires Valid() && udp.xsk.Apart(buf)
      modifies udp.xsk, udp.xsk.umem, udp.xsk.fill, udp.xsk.fill.desc, udp.xsk.comp, udp.xsk.comp.desc
      modifies udp.xsk.rx, udp.xsk.rx.desc, udp.xsk.tx, udp.xsk.tx.desc
      modifies udp`calls, udp`got, buf, udp.xsk.wakeups`onFill
      ensures !connected || buf.Length == 0 ==> udp.xsk.wakeups.onFill == old(udp.xsk.wakeups.onFill)
      ensures connected && buf.Length > 0 ==>
        var n := |old(udp.xsk.wakeups.onFill)|;
        && |udp.xsk.wakeups.onFill| == n + 1 && udp.xsk.wakeups.onFill[..n] == old(udp.xsk.wakeups.onFill)
        && udp.xsk.wakeups.onFill[n].kicked == udp.xsk.wakeups.onFill[n].asked
      ensures Valid() && Advanced(old(udp.xsk.Snap()), udp.xsk.Snap())
      ensures r.Some? ==> 0 < r.value <= buf.Length && udp.got == old(udp.got) + [buf[..r.value]]
      ensures r.Some? ==> buf[r.value..] == old(buf[r.value..])
      ensures r.None? ==> udp.got == old(udp.got) && buf[..] == old(buf[..])
      ensures !connected || buf.Length == 0 ==> r.None? && udp.calls == old(udp.calls)
      ensures connected && buf.Length > 0 ==>
        && Rely(udp.xsk.g, old(udp.xsk.Snap()), atLoad)
        && udp.calls == old(udp.calls) + if |atLoad.k.rxPub| == |old(udp.calls)| then [] else [Call(udp.framing, buf.Length)]
      ensures udp.calls != old(udp.calls) ==>
        match Parse(udp.framing, udp.xsk.rxData[|old(udp.calls)|])
        case None => r == None
        case Some(p) => if p == [] then r == None
          else r == Some(if |p| <= buf.Length then |p| else buf.Length) && buf[..r.value] == p[..r.value]
      ensures udp.calls != old(udp.calls) ==>
        udp.got == old(udp.got) + Outcome(Call(udp.framing, buf.Length), udp.xsk.rxData[|old(udp.calls)|])
    {
      hide Inv, Ring.Valid, Frame, FlowKey;
      RelySelf(udp.xsk.g, udp.xsk.Snap());
      if buf.Length == 0 || !connected {
        return None, udp.xsk.Snap();
      }
      r, atLoad := udp.RecvInto(buf);
    }

    /** Remove our flow and our queue from the maps, and nothing else. */
    method Drop()
      requires Valid() && skel.Valid() && Registered()
      modifies skel
      ensures skel.Valid() && skel.live == old(skel.live) - {queueId} && skel.xsks == old(skel.xsks) - {queueId}
      ensures skel.config == old(skel.config) - if remote.Some? then {FlowKey(local, remote.value)} else {}
    {
      skel.Unregister(queueId, if remote.Some? then Some(FlowKey(local, remote.value)) else None);
    }
  }
}
