/** The UDP plane: one datagram is one frame, straight into and out of the UMEM. */
module Udp {
  import opened Words
  import opened Wrappers
  import opened Machine
  import opened Conservation
  import opened Runs
  import opened Rings
  import opened Memory
  import opened Xsks
  import opened FramingModel
  import opened BuildInPlace
  import opened Sizes

  // ----- What a run of receives amounts to -----

  /** One `recv_into` that consumed a packet: the framing in force and the caller's buffer length. */
  datatype Call = Call(framing: Framing, room: nat)

  /** What that call delivers for the frame `data`: nothing, or the payload cut to the buffer. */
  function Outcome(c: Call, data: seq<byte>): seq<seq<byte>> {
    match Parse(c.framing, data)
    case None => []
    case Some(p) => if Min(|p|, c.room) == 0 then [] else [p[..Min(|p|, c.room)]]
  }

  /** What all calls so far have delivered, in kernel delivery order. */
  function Received(calls: seq<Call>, data: seq<seq<byte>>): seq<seq<byte>>
    requires |calls| <= |data|
  {
    if calls == [] then []
    else
      var n := |calls| - 1;
      Received(calls[..n], data) + Outcome(calls[n], data[n])
  }

  lemma {:induction false} ReceivedPrefix(calls: seq<Call>, data: seq<seq<byte>>, data': seq<seq<byte>>)
    requires |calls| <= |data| && data <= data'
    ensures Received(calls, data') == Received(calls, data)
  {
    if calls != [] {
      ReceivedPrefix(calls[..|calls| - 1], data, data');
    }
  }

  /** One more call delivers the outcome of the next frame. */
  lemma ReceivedNext(calls: seq<Call>, c: Call, data: seq<seq<byte>>, data': seq<seq<byte>>)
    requires |calls| <= |data| && data <= data' && |calls| < |data'|
    ensures Received(calls + [c], data') == Received(calls, data) + Outcome(c, data'[|calls|])
  {
    ReceivedPrefix(calls, data, data');
    assert (calls + [c])[..|calls|] == calls;
  }

  /** One `send` of one datagram takes `s` to `t`. Whether it gets a frame is decided in `load`, the state at
      the COMP producer load: it does exactly if the pool is not exhausted then, and the user's part of `t`
      is that of `s` after allocating a frame and submitting the datagram's, or that of `s`. */
  ghost predicate SendStep(g: Geometry, f: Framing, s: State, load: State, t: State, payload: seq<byte>, kept: bool) {
    && g.frameSize > 0 && f.remote.Some?
    && Inv(g, load) && load.u.building == []
    && Rely(g, s, load) && Advanced(load, t)
    && (kept <==> !Exhausted(load))
    && if kept then PoolHasFrame(s.u, load.k.compPub) && t.u == Submitted(g, s.u, load.k.compPub, Frame(f, payload))
       else t.u == s.u
  }

  /** One datagram that got a frame: the framing in force and its payload. */
  datatype Built = Built(framing: Framing, payload: seq<byte>)

  ghost predicate AreFrames(log: seq<Built>, frames: seq<seq<byte>>) {
    && |log| == |frames|
    && forall i :: 0 <= i < |log| ==> log[i].framing.remote.Some? && frames[i] == Frame(log[i].framing, log[i].payload)
  }

  lemma FrameEnds(f: Framing, payload: seq<byte>)
    requires f.remote.Some?
    ensures
      var w := Frame(f, payload);
      w[0..6] == f.dstMac && w[6..12] == f.srcMac && w[12..14] == [0x08, 0x00] && w[42..] == payload
  {
    hide IpHeader, UdpHeader, EthHeader, IpChecksum, UdpChecksum;
    EthBytes(f.dstMac, f.srcMac, FramingModel.Packet(f.local, f.remote.value, payload));
  }

  class UdpPlane {
    const xsk: Xsk
    var framing: Framing
    ghost var built: seq<Built>            // every datagram handed to the TX ring
    ghost var calls: seq<Call>
    ghost var got: seq<seq<byte>>          // every `Some` result, as the bytes put in the buffer

    /** Between calls nothing is half done: no packet in hand, no frame half built, nothing staged. */
    ghost predicate Valid()
      reads this, xsk, xsk.fill, xsk.fill.desc, xsk.comp, xsk.comp.desc, xsk.rx, xsk.rx.desc, xsk.tx, xsk.tx.desc, xsk.umem
    {
      && xsk.Valid() && xsk.Idle()
      && |calls| == |xsk.rx.consumed| <= |xsk.rxData|
      && got == Received(calls, xsk.rxData)
      && AreFrames(built, xsk.txData)
    }

    /** What the kernel takes off TX is what `build` built: every frame the driver ever read out of the
        UMEM is, byte for byte, the frame of the datagram it was submitted for. */
    lemma WireIsBuilt(i: nat)
      requires Valid() && i < |xsk.wire|
      ensures
        var p := xsk.wire[i];
        && p.no < |built| && built[p.no].framing.remote.Some?
        && p.data == Frame(built[p.no].framing, built[p.no].payload)
        && p.data[0..6] == built[p.no].framing.dstMac && p.data[6..12] == built[p.no].framing.srcMac
        && p.data[12..14] == [0x08, 0x00] && p.data[42..] == built[p.no].payload
    {
      hide Frame;
      assert IsTxPacket(xsk.Snap(), xsk.wire[i]);
      FrameEnds(built[xsk.wire[i].no].framing, built[xsk.wire[i].no].payload);
    }

    constructor (xsk: Xsk, framing: Framing)
      requires xsk.Valid() && xsk.Idle() && xsk.rx.consumed == [] && xsk.txData == []
      ensures Valid() && this.xsk == xsk && this.framing == framing && got == [] && built == []
    {
      this.xsk, this.framing, calls, got, built := xsk, framing, [], [], [];
    }

    /** Build the frame for `payload` in the frame at `addr`, which is the one being built. */
    method BuildFrame(addr: nat, payload: seq<byte>) returns (n: nat)
      requires xsk.Valid() && xsk.building == [addr] && xsk.tx.staged == [] && framing.remote.Some?
      requires ETH_HDR_LEN + UDP_OVERHEAD + |payload| <= xsk.g.frameSize
      modifies xsk.umem
      ensures xsk.Valid() && n == |Frame(framing, payload)| <= xsk.g.frameSize && addr + n <= xsk.umem.Length
      ensures xsk.Snap() == old(xsk.Snap()).(mem := xsk.umem[..])
      ensures xsk.umem[addr..addr + n] == Frame(framing, payload)
    {
      hide Inv, Ring.Valid, FrameOf, Base, Frame, Splice;
      var g := xsk.g;
      ghost var l := UWrite(0, addr, Frame(framing, payload));
      CanBuild(g, xsk.Snap(), addr, |Frame(framing, payload)|);
      StepKeepsInv(g, xsk.Snap(), l);
      n := Build(framing, xsk.umem, addr, payload);
      SpliceRead(old(xsk.umem[..]), addr, Frame(framing, payload));
      assert xsk.umem[addr..addr + n] == xsk.umem[..][addr..addr + n];
    }

    /** Build the datagram's frame in the frame at `addr` and queue it. */
    method BuildAndSubmit(addr: nat, payload: seq<byte>)
      requires xsk.Valid() && xsk.building == [addr] && xsk.tx.staged == [] && framing.remote.Some?
      requires ETH_HDR_LEN + UDP_OVERHEAD + |payload| <= xsk.g.frameSize
      modifies xsk`owned, xsk`driver, xsk`wire, xsk`txCount, xsk`rxData, xsk.umem
      modifies xsk.fill`consumer, xsk.fill`consumed, xsk.fill`needWakeup, xsk.tx`consumer, xsk.tx`consumed, xsk.tx`needWakeup
      modifies xsk.rx`producer, xsk.rx`published, xsk.rx.desc, xsk.comp`producer, xsk.comp`published, xsk.comp.desc
      modifies xsk.tx`producer, xsk.tx`published, xsk.tx`staged, xsk.tx`cached, xsk.tx.desc
      modifies xsk`building, xsk`txData, xsk`txPending
      ensures xsk.Valid() && Advanced(old(xsk.Snap()), xsk.Snap())
      ensures
        var frame := Frame(framing, payload);
        xsk.Snap().u == old(xsk.Snap()).u.(txPub := old(xsk.tx.published) + [Desc(addr, |frame|)],
                          txData := old(xsk.txData) + [frame], building := [], pending := true)
    {
      hide Inv, Ring.Valid, FrameOf, Base, Frame, Advanced;
      RelySelf(xsk.g, xsk.Snap());
      ghost var u := xsk.Snap().u;
      var n := BuildFrame(addr, payload);
      ghost var t := xsk.Snap();
      SamePart(old(xsk.Snap()), old(xsk.Snap()), t);
      assert Remove(xsk.building, 0) == [];
      xsk.TxSubmit(0, addr, n);
      AdvancedTransitive(old(xsk.Snap()), t, xsk.Snap());
    }

    /** Accepts the whole payload, like `sendto`: an exhausted pool drops the datagram and still reports
        it sent. A datagram that is kept reaches the TX ring as exactly its frame. */
    method Send(payload: seq<byte>) returns (r: Result<nat, IoError>, ghost kept: bool, ghost atLoad: State)
      requires Valid() && ETH_HDR_LEN + UDP_OVERHEAD + |payload| <= xsk.g.frameSize
      modifies xsk, xsk.umem, xsk.fill, xsk.fill.desc, xsk.comp, xsk.comp.desc, xsk.rx, xsk.rx.desc, xsk.tx, xsk.tx.desc
      modifies this`built
      ensures Valid() && Advanced(old(xsk.Snap()), xsk.Snap()) && framing == old(framing)
      ensures built == old(built) + if kept then [Built(framing, payload)] else []
      ensures framing.remote.None? ==> r == Err(NotConnected) && !kept && xsk.Snap() == old(xsk.Snap())
      ensures framing.remote.Some? ==> r == Ok(|payload|)
      ensures framing.remote.Some? ==> SendStep(xsk.g, framing, old(xsk.Snap()), atLoad, xsk.Snap(), payload, kept)
    {
      hide Inv, Ring.Valid, FrameOf, Base, Frame, Received, Advanced, Refilled;
      RelySelf(xsk.g, xsk.Snap());
      atLoad := xsk.Snap();
      if framing.remote.None? {
        return Err(NotConnected), false, atLoad;
      }
      var a;
      a, atLoad := xsk.TxAlloc();
      kept := a.Some?;
      if a.Some? {
        ghost var s := xsk.Snap();
        BuildAndSubmit(a.value, payload);
        AdvancedTransitive(old(xsk.Snap()), s, xsk.Snap());
        AdvancedTransitive(atLoad, s, xsk.Snap());
      }
      KeepsReceived(old(xsk.Snap()), xsk.Snap());
      if kept {
        built := built + [Built(framing, payload)];
      }
      r := Ok(|payload|);
    }

    /** What was received stays received while the kernel goes on delivering. */
    lemma KeepsReceived(s: State, t: State)
      requires |calls| <= |s.k.rxData| && Advanced(s, t)
      ensures |calls| <= |t.k.rxData| && Received(calls, t.k.rxData) == Received(calls, s.k.rxData)
    {
      ReceivedPrefix(calls, s.k.rxData, t.k.rxData);
    }

    /** The bytes under the one packet in hand: what the kernel published, whatever it has done since. */
    method HeldFrame(d: Desc) returns (bytes: seq<byte>)
      requires xsk.Valid() && |xsk.held| == 1 && xsk.held[0].desc == d
      ensures bytes == xsk.held[0].data
    {
      hide Inv, Ring.Valid, FrameOf, Base;
      HeldBytes(xsk.g, xsk.Snap(), 0);
      bytes := xsk.umem[..][d.addr..d.addr + d.len];
    }

    /** Parse `bytes` and copy the payload into `buf`, as much of it as fits; `None` if it is rejected. */
    method CopyPayload(bytes: seq<byte>, buf: array<byte>) returns (n: Option<nat>)
      modifies buf
      ensures n.Some? ==> n.value <= buf.Length && buf[n.value..] == old(buf[n.value..])
      ensures n.None? || n.value == 0 ==> Outcome(Call(framing, buf.Length), bytes) == [] && buf[..] == old(buf[..])
      ensures n.Some? && n.value > 0 ==> Outcome(Call(framing, buf.Length), bytes) == [buf[..n.value]]
      ensures
        match Parse(framing, bytes)
        case None => n == None
        case Some(p) => n == Some(if |p| <= buf.Length then |p| else buf.Length) && buf[..n.value] == p[..n.value]
    {
      hide ParseWith;
      var p := Parse(framing, bytes);
      match p
      case None => n := None;
      case Some(payload) =>
        n := Some(Min(|payload|, buf.Length));
        CopyInto(buf, 0, payload[..n.value]);
        assert buf[..n.value] == buf[..][..n.value] == payload[..n.value];
        assert buf[n.value..] == buf[..][n.value..] == old(buf[..])[n.value..];
    }

    /** Kick, then take the next received packet in hand, if there is one. */
    method NextPacket() returns (d: Option<Desc>, ghost atLoad: State, ghost asked: bool)
      requires Valid()
      modifies xsk, xsk.umem, xsk.fill, xsk.fill.desc, xsk.comp, xsk.comp.desc, xsk.rx, xsk.rx.desc, xsk.tx, xsk.tx.desc
      modifies xsk.wakeups`onFill
      ensures xsk.wakeups.onFill == old(xsk.wakeups.onFill) + [Test(asked, asked)]
      ensures xsk.Valid() && |calls| <= |xsk.rxData| && got == Received(calls, xsk.rxData)
      ensures Advanced(old(xsk.Snap()), xsk.Snap())
      ensures Rely(xsk.g, old(xsk.Snap()), atLoad) && (d.None? <==> |atLoad.k.rxPub| == |calls|)
      ensures d.None? ==> Valid() && xsk.Snap().u == old(xsk.Snap()).u
      ensures d.Some? ==>
        var i := |calls|;
        && i < |xsk.rxData| == |xsk.rx.published| && d.value == xsk.rx.published[i]
        && xsk.Snap().u == old(xsk.Snap()).u.(rxTaken := i + 1, held := [Packet(i, d.value, xsk.rxData[i])])
    {
      hide Inv, Ring.Valid, FrameOf, Base, Received, Parse;
      var kicked := xsk.KickRx();
      asked := kicked;
      ghost var data, s := xsk.rxData, xsk.Snap();
      ReceivedPrefix(calls, old(xsk.rxData), data);
      d, atLoad := xsk.RxPeek();
      RelyTransitive(xsk.g, old(xsk.Snap()), s, atLoad);
      AdvancedTransitive(old(xsk.Snap()), s, xsk.Snap());
      ReceivedPrefix(calls, data, xsk.rxData);
    }

    /** Deliver the packet in hand into `buf` and put its frame back in FILL, accepted or rejected. */
    method ConsumeInto(d: Desc, buf: array<byte>) returns (n: Option<nat>)
      requires xsk.Valid() && xsk.Apart(buf) && xsk.fill.staged == []
      requires |calls| < |xsk.rxData| && xsk.held == [Packet(|calls|, d, xsk.rxData[|calls|])]
      modifies xsk, xsk.umem, xsk.fill, xsk.fill.desc, xsk.comp, xsk.comp.desc, xsk.rx, xsk.rx.desc, xsk.tx, xsk.tx.desc
      modifies buf
      ensures xsk.Valid() && Advanced(old(xsk.Snap()), xsk.Snap())
      ensures xsk.Snap().u == old(xsk.Snap()).u.(fillPub := old(xsk.fill.published) + [Base(xsk.g, d.addr)], held := [])
      ensures n.Some? ==> n.value <= buf.Length && buf[n.value..] == old(buf[n.value..])
      ensures
        var o := Outcome(Call(framing, buf.Length), xsk.rxData[|calls|]);
        if n.Some? && n.value > 0 then o == [buf[..n.value]] else o == [] && buf[..] == old(buf[..])
      ensures
        match Parse(framing, xsk.rxData[|calls|])
        case None => n == None
        case Some(p) => n == Some(if |p| <= buf.Length then |p| else buf.Length) && buf[..n.value] == p[..n.value]
    {
      hide Inv, Ring.Valid, FrameOf, Base, Received, Outcome, ParseWith;
      xsk.KernelSteps();
      ghost var s := xsk.Snap();
      var bytes := HeldFrame(d);
      n := CopyPayload(bytes, buf);
      assert xsk.Snap() == s;
      xsk.Recycle(d.addr, 0);
      AdvancedTransitive(old(xsk.Snap()), s, xsk.Snap());
    }

    /** Remember that `c` consumed the next delivered frame. */
    ghost method Record(c: Call, data: seq<seq<byte>>)
      requires xsk.Valid() && xsk.Idle() && AreFrames(built, xsk.txData)
      requires |calls| < |data| && data <= xsk.rxData && |calls| + 1 == |xsk.rx.consumed|
      requires got == Received(calls, data)
      modifies this`calls, this`got
      ensures Valid() && calls == old(calls) + [c] && got == old(got) + Outcome(c, xsk.rxData[|old(calls)|])
    {
      hide Inv, Xsk.Wired, Xsk.Idle, AreFrames, Received, Outcome;
      ReceivedNext(calls, c, data, xsk.rxData);
      got := got + Outcome(c, xsk.rxData[|calls|]);
      calls := calls + [c];
    }

    /** Copy one datagram from the peer into `buf`, truncating like `SOCK_DGRAM`. */
    method RecvInto(buf: array<byte>) returns (r: Option<nat>, ghost atLoad: State)
      requires Valid() && xsk.Apart(buf)
      modifies xsk, xsk.umem, xsk.fill, xsk.fill.desc, xsk.comp, xsk.comp.desc, xsk.rx, xsk.rx.desc, xsk.tx, xsk.tx.desc
      modifies this`calls, this`got, buf, xsk.wakeups`onFill
      ensures framing.remote.None? ==> xsk.wakeups.onFill == old(xsk.wakeups.onFill)
      ensures framing.remote.Some? ==>
        var n := |old(xsk.wakeups.onFill)|;
        && |xsk.wakeups.onFill| == n + 1 && xsk.wakeups.onFill[..n] == old(xsk.wakeups.onFill)
        && xsk.wakeups.onFill[n].kicked == xsk.wakeups.onFill[n].asked
      ensures Valid() && Advanced(old(xsk.Snap()), xsk.Snap()) && framing == old(framing)
      ensures r.Some? ==> 0 < r.value <= buf.Length && got == old(got) + [buf[..r.value]] && buf[r.value..] == old(buf[r.value..])
      ensures r.None? ==> got == old(got) && buf[..] == old(buf[..])
      ensures xsk.Snap().u == old(xsk.Snap()).u.(fillPub := xsk.fill.published, rxTaken := |xsk.rx.consumed|)
      ensures calls == old(calls) || calls == old(calls) + [Call(framing, buf.Length)]
      ensures Rely(xsk.g, old(xsk.Snap()), atLoad)
      ensures calls == old(calls) <==> framing.remote.None? || |atLoad.k.rxPub| == |old(calls)|
      ensures calls == old(calls) ==> r.None? && xsk.fill.published == old(xsk.fill.published)
      ensures calls != old(calls) ==>
        match Parse(framing, xsk.rxData[|old(calls)|])
        case None => r == None
        case Some(p) =>
          if p == [] || buf.Length == 0 then r == None
          else r == Some(if |p| <= buf.Length then |p| else buf.Length) && buf[..r.value] == p[..r.value]
      ensures calls != old(calls) ==> got == old(got) + Outcome(Call(framing, buf.Length), xsk.rxData[|old(calls)|])
      ensures calls != old(calls) ==>
        xsk.fill.published == old(xsk.fill.published) + [Base(xsk.g, xsk.rx.published[|old(calls)|].addr)]
    {
      hide Inv, Ring.Valid, FrameOf, Base, Received, Outcome, ParseWith;
      RelySelf(xsk.g, xsk.Snap());
      if framing.remote.None? {
        return None, xsk.Snap();
      }
      var d;
      ghost var asked;
      d, atLoad, asked := NextPacket();
      if d.None? {
        return None, atLoad;
      }
      ghost var data, s := xsk.rxData, xsk.Snap();
      var n := ConsumeInto(d.value, buf);
      Record(Call(framing, buf.Length), data);
      AdvancedTransitive(old(xsk.Snap()), s, xsk.Snap());
      r := if n.Some? && n.value > 0 then n else None;
    }
  }
}
