/** The TCP plane: smoltcp's device tokens over the rings, its socket buffers as abstract queues, and the
    hand-off of application buffers into and out of them. smoltcp itself is not part of this model: it is
    a client that consumes tokens in any order, with any data, and a send buffer that accepts any nonempty
    prefix that fits, nothing only when it is full, and drains at will, and a receive buffer that fills at will. */
module Tcp {
  import opened Words
  import opened Wrappers
  import opened Machine
  import opened Conservation
  import opened Runs
  import opened Rings
  import opened Memory
  import opened Xsks
  import opened FramingModel
  import opened Sizes

  /** The IP packet in a received frame; nothing if the frame is shorter than an Ethernet header. */
  function StripEth(frame: seq<byte>): seq<byte> {
    if |frame| >= ETH_HDR_LEN then frame[ETH_HDR_LEN..] else []
  }

  /** `seen` are the first delivered frames, each without its Ethernet header. */
  ghost predicate AreDelivered(seen: seq<seq<byte>>, rxData: seq<seq<byte>>) {
    |seen| <= |rxData| && forall i :: 0 <= i < |seen| ==> seen[i] == StripEth(rxData[i])
  }

  /** The submitted frames are `sentIp`, each behind the Ethernet header and within the MTU. */
  ghost predicate AreSubmitted(sentIp: seq<seq<byte>>, txData: seq<seq<byte>>, eth: seq<byte>, mtu: nat) {
    |sentIp| == |txData| && forall i :: 0 <= i < |sentIp| ==> |sentIp[i]| <= mtu && txData[i] == eth + sentIp[i]
  }

  lemma DeliveredKept(seen: seq<seq<byte>>, s: State, t: State)
    requires AreDelivered(seen, s.k.rxData) && Advanced(s, t)
    ensures AreDelivered(seen, t.k.rxData)
  {
  }

  lemma DeliveredNext(seen: seq<seq<byte>>, s: State, t: State, ip: seq<byte>)
    requires AreDelivered(seen, s.k.rxData) && Advanced(s, t)
    requires |seen| < |s.k.rxData| && ip == StripEth(s.k.rxData[|seen|])
    ensures AreDelivered(seen + [ip], t.k.rxData)
  {
    DeliveredKept(seen, s, t);
  }

  lemma SubmittedNext(sentIp: seq<seq<byte>>, txData: seq<seq<byte>>, eth: seq<byte>, mtu: nat, ip: seq<byte>)
    requires AreSubmitted(sentIp, txData, eth, mtu) && |ip| <= mtu
    ensures AreSubmitted(sentIp + [ip], txData + [eth + ip], eth, mtu)
  {
  }

  class TcpPlane {
    const xsk: Xsk
    const srcMac: Mac
    const dstMac: Mac
    const mtu: nat
    const capacity: nat                   // of smoltcp's send buffer
    var queued: nat                       // bytes in it
    var open: bool                        // `may_send`
    ghost var stream: seq<byte>           // every byte it ever accepted
    var received: seq<byte>               // content of smoltcp's receive buffer
    var active: bool                      // `is_active`
    ghost var arrived: seq<byte>          // every byte that ever got into it
    ghost var taken: seq<byte>            // every byte `recv` gave the application
    ghost var seen: seq<seq<byte>>        // every IP packet an RX token handed to smoltcp
    ghost var sentIp: seq<seq<byte>>      // every IP packet smoltcp wrote through a TX token

    ghost predicate Valid()
      reads this, xsk, xsk.fill, xsk.fill.desc, xsk.comp, xsk.comp.desc, xsk.rx, xsk.rx.desc, xsk.tx, xsk.tx.desc, xsk.umem
    {
      && xsk.Valid() && xsk.Idle() && ETH_HDR_LEN + mtu <= xsk.g.frameSize && ETH_HDR_LEN < xsk.g.frameSize && queued <= capacity
      && |seen| == |xsk.rx.consumed| && AreDelivered(seen, xsk.rxData)
      && AreSubmitted(sentIp, xsk.txData, EthHeader(dstMac, srcMac), mtu)
      && arrived == taken + received
    }

    /** What the kernel takes off TX is what the client wrote: every frame the driver ever read out of the UMEM
        is an Ethernet header and the IP packet of the TX token it was submitted by. */
    lemma WireIsSent(i: nat)
      requires Valid() && i < |xsk.wire|
      ensures
        var p := xsk.wire[i];
        && p.no < |sentIp| && |sentIp[p.no]| <= mtu && p.data == EthHeader(dstMac, srcMac) + sentIp[p.no]
        && p.data[0..6] == dstMac && p.data[6..12] == srcMac && p.data[12..14] == [0x08, 0x00]
        && p.data[14..] == sentIp[p.no]
    {
      hide EthHeader;
      assert IsTxPacket(xsk.Snap(), xsk.wire[i]);
      EthBytes(dstMac, srcMac, sentIp[xsk.wire[i].no]);
    }

    /** What RX tokens showed is what the kernel delivered, from byte 14 on, in order. */
    lemma SeenIsDelivered(i: nat)
      requires Valid() && i < |xsk.rx.consumed|
      ensures |seen| == |xsk.rx.consumed| && i < |xsk.rxData|
      ensures seen[i] == if |xsk.rxData[i]| >= 14 then xsk.rxData[i][14..] else []
    {
    }

    constructor (xsk: Xsk, srcMac: Mac, dstMac: Mac, mtu: nat, capacity: nat)
      requires xsk.Valid() && xsk.Idle() && xsk.rx.consumed == [] && xsk.txData == []
      requires ETH_HDR_LEN + mtu <= xsk.g.frameSize && ETH_HDR_LEN < xsk.g.frameSize
      ensures Valid() && this.xsk == xsk && this.srcMac == srcMac && this.dstMac == dstMac && this.mtu == mtu
      ensures this.capacity == capacity && queued == 0 && stream == []
      ensures seen == sentIp == [] && arrived == taken == []
    {
      this.xsk, this.srcMac, this.dstMac, this.mtu, this.capacity := xsk, srcMac, dstMac, mtu, capacity;
      queued, open, stream, seen, sentIp := 0, false, [], [], [];
      received, active, arrived, taken := [], false, [], [];
    }

    // ----- Device tokens -----

    /** Consume a TX token: an Ethernet header, then whatever the client writes. The pool must not be
        exhausted, which in the code is a panic. Packets in hand (`held`) are not disturbed. */
    method TxConsume(data: seq<byte>) returns (ghost atLoad: State)
      requires xsk.Valid() && xsk.building == [] && xsk.tx.staged == [] && xsk.compRead == |xsk.comp.consumed|
      requires ETH_HDR_LEN + |data| <= xsk.g.frameSize && ETH_HDR_LEN < xsk.g.frameSize
      requires xsk.txFree != [] || xsk.compRead < |xsk.comp.published|
      modifies xsk`owned, xsk`driver, xsk`wire, xsk`txCount, xsk`rxData, xsk.umem
      modifies xsk.fill`consumer, xsk.fill`consumed, xsk.fill`needWakeup, xsk.tx`consumer, xsk.tx`consumed, xsk.tx`needWakeup
      modifies xsk.rx`producer, xsk.rx`published, xsk.rx.desc, xsk.comp`producer, xsk.comp`published, xsk.comp.desc
      modifies xsk`txFree, xsk`compRead, xsk.comp`consumer, xsk.comp`consumed
      modifies xsk.tx`producer, xsk.tx`published, xsk.tx`staged, xsk.tx`cached, xsk.tx.desc
      modifies xsk`building, xsk`txData, xsk`txPending
      ensures xsk.Valid() && xsk.compRead == |xsk.comp.consumed|
      ensures Rely(xsk.g, old(xsk.Snap()), atLoad) && Inv(xsk.g, atLoad) && PoolHasFrame(atLoad.u, atLoad.k.compPub)
      ensures xsk.Snap().u == Submitted(xsk.g, old(xsk.Snap()).u, atLoad.k.compPub, EthHeader(dstMac, srcMac) + data)
      ensures Advanced(atLoad, xsk.Snap()) && Advanced(old(xsk.Snap()), xsk.Snap())
      ensures |xsk.txData| == |old(xsk.txData)| + 1
      ensures
        var frame := xsk.txData[|old(xsk.txData)|];
        && |frame| == 14 + |data| && frame[0..6] == dstMac && frame[6..12] == srcMac && frame[12..14] == [0x08, 0x00]
        && frame[14..] == data
    {
      hide Inv, Ring.Valid, FrameOf, Base, EthHeader, Advanced, Refilled;
      EthBytes(dstMac, srcMac, data);
      var a;
      a, atLoad := xsk.TxAlloc();
      assert !Exhausted(atLoad) by {
        RelyGrows(xsk.g, old(xsk.Snap()), atLoad);
      }
      ghost var s := xsk.Snap();
      WriteAndSubmit(a.value, data);
      AdvancedTransitive(old(xsk.Snap()), s, xsk.Snap());
      AdvancedTransitive(atLoad, s, xsk.Snap());
    }

    /** Write the frame at `addr`, which is the one being built, and queue it. */
    method WriteAndSubmit(addr: nat, data: seq<byte>)
      requires xsk.Valid() && xsk.building == [addr] && xsk.tx.staged == []
      requires ETH_HDR_LEN + |data| <= xsk.g.frameSize && ETH_HDR_LEN < xsk.g.frameSize
      modifies xsk`owned, xsk`driver, xsk`wire, xsk`txCount, xsk`rxData, xsk.umem
      modifies xsk.fill`consumer, xsk.fill`consumed, xsk.fill`needWakeup, xsk.tx`consumer, xsk.tx`consumed, xsk.tx`needWakeup
      modifies xsk.rx`producer, xsk.rx`published, xsk.rx.desc, xsk.comp`producer, xsk.comp`published, xsk.comp.desc
      modifies xsk.tx`producer, xsk.tx`published, xsk.tx`staged, xsk.tx`cached, xsk.tx.desc
      modifies xsk`building, xsk`txData, xsk`txPending
      ensures xsk.Valid() && Advanced(old(xsk.Snap()), xsk.Snap())
      ensures
        var frame := EthHeader(dstMac, srcMac) + data;
        xsk.Snap().u == old(xsk.Snap()).u.(txPub := old(xsk.tx.published) + [Desc(addr, |frame|)],
                          txData := old(xsk.txData) + [frame], building := [], pending := true)
    {
      hide Inv, Ring.Valid, FrameOf, Base, EthHeader, Advanced;
      WriteFrame(addr, data);
      ghost var t := xsk.Snap();
      assert Remove(xsk.building, 0) == [];
      xsk.TxSubmit(0, addr, ETH_HDR_LEN + |data|);
      AdvancedTransitive(old(xsk.Snap()), t, xsk.Snap());
    }

    /** The two writes of a TX token into its frame, with the kernel running in between. */
    method WriteFrame(addr: nat, data: seq<byte>)
      requires xsk.Valid() && xsk.building == [addr] && xsk.tx.staged == []
      requires ETH_HDR_LEN + |data| <= xsk.g.frameSize && ETH_HDR_LEN < xsk.g.frameSize
      modifies xsk`owned, xsk`driver, xsk`wire, xsk`txCount, xsk`rxData, xsk.umem
      modifies xsk.fill`consumer, xsk.fill`consumed, xsk.fill`needWakeup, xsk.tx`consumer, xsk.tx`consumed, xsk.tx`needWakeup
      modifies xsk.rx`producer, xsk.rx`published, xsk.rx.desc, xsk.comp`producer, xsk.comp`published, xsk.comp.desc
      ensures xsk.Valid() && xsk.Snap().u == old(xsk.Snap()).u && addr + ETH_HDR_LEN + |data| <= xsk.umem.Length
      ensures xsk.umem[..][addr..addr + ETH_HDR_LEN + |data|] == EthHeader(dstMac, srcMac) + data
      ensures Advanced(old(xsk.Snap()), xsk.Snap())
    {
      hide Inv, Ring.Valid, FrameOf, Base, Splice, EthHeader;
      var eth := EthHeader(dstMac, srcMac);
      CanBuild(xsk.g, xsk.Snap(), addr, ETH_HDR_LEN);
      xsk.WriteFrame(0, addr, eth);
      ghost var s := xsk.Snap();
      assert s.mem[addr..addr + ETH_HDR_LEN] == eth;
      xsk.KernelSteps();
      HandledAddresses(xsk.g, s);
      RelyTxBytes(xsk.g, s, xsk.Snap(), addr, ETH_HDR_LEN);
      CanBuildAt(xsk.g, xsk.Snap(), addr, ETH_HDR_LEN, |data|);
      ghost var m := xsk.umem[..];
      xsk.WriteFrame(0, addr + ETH_HDR_LEN, data);
      SpliceAfter(m, addr, eth, data);
    }

    /** Read the IP packet under the packet in hand. */
    method HeldIp(d: Desc) returns (ip: seq<byte>)
      requires xsk.Valid() && |xsk.held| == 1 && xsk.held[0].desc == d
      ensures ip == StripEth(xsk.held[0].data)
    {
      hide Inv, Ring.Valid, FrameOf, Base;
      HeldBytes(xsk.g, xsk.Snap(), 0);
      var len := if d.len >= ETH_HDR_LEN then d.len - ETH_HDR_LEN else 0;
      ip := if len == 0 then [] else xsk.umem[..][d.addr + ETH_HDR_LEN..d.addr + ETH_HDR_LEN + len];
      assert xsk.held[0].data == xsk.umem[..][d.addr..d.addr + d.len];
    }

    /** Consume an RX token. The client's closure reads the packet, may consume the TX token it was given
        alongside (`reply`), and may read the packet again: it is the same packet, and it is what the
        kernel delivered. Then the frame goes back to FILL. */
    method RxConsume(d: Desc, reply: Option<seq<byte>>) returns (first: seq<byte>, last: seq<byte>)
      requires xsk.Valid() && xsk.building == [] && xsk.tx.staged == [] && xsk.compRead == |xsk.comp.consumed|
      requires xsk.fill.staged == [] && |xsk.held| == 1 && xsk.held[0].desc == d && ETH_HDR_LEN < xsk.g.frameSize
      requires reply.Some? ==> ETH_HDR_LEN + |reply.value| <= xsk.g.frameSize
      requires reply.Some? ==> xsk.txFree != [] || xsk.compRead < |xsk.comp.published|
      modifies xsk, xsk.umem, xsk.fill, xsk.fill.desc, xsk.comp, xsk.comp.desc, xsk.rx, xsk.rx.desc, xsk.tx, xsk.tx.desc
      ensures xsk.Valid() && xsk.Idle() && Advanced(old(xsk.Snap()), xsk.Snap())
      ensures first == last == StripEth(old(xsk.held[0].data))
      ensures var frame := old(xsk.held[0].data); first == if |frame| >= 14 then frame[14..] else []
      ensures xsk.txPending == (old(xsk.txPending) || reply.Some?)
      ensures xsk.Snap().u.rxTaken == old(xsk.Snap()).u.rxTaken && xsk.kicks == old(xsk.kicks)
      ensures xsk.fill.published == old(xsk.fill.published) + [Base(xsk.g, d.addr)]
      ensures xsk.txData == old(xsk.txData) + if reply.Some? then [EthHeader(dstMac, srcMac) + reply.value] else []
    {
      hide Inv, Ring.Valid, FrameOf, Base, EthHeader;
      RelySelf(xsk.g, xsk.Snap());
      first := HeldIp(d);
      if reply.Some? {
        ghost var atLoad := TxConsume(reply.value);
        RefillTouches(xsk.g, old(xsk.Snap()).u, atLoad.k.compPub);
      }
      ghost var s := xsk.Snap();
      last := HeldIp(d);
      xsk.Recycle(d.addr, 0);
      AdvancedTransitive(old(xsk.Snap()), s, xsk.Snap());
    }

    /** Is a TX frame to be had without waiting for the kernel? */
    method PoolAvailable() returns (b: bool)
      requires xsk.Valid() && xsk.compRead == |xsk.comp.consumed|
      ensures b ==> xsk.txFree != [] || xsk.compRead < |xsk.comp.published|
    {
      xsk.comp.Indexed();
      b := xsk.txFree != [] || xsk.comp.producer != xsk.comp.consumer;
    }

    /** Between taking a packet and consuming its token. */
    ghost predicate InHand(d: Desc)
      reads this, xsk, xsk.fill, xsk.fill.desc, xsk.comp, xsk.comp.desc, xsk.rx, xsk.rx.desc, xsk.tx, xsk.tx.desc, xsk.umem
    {
      && xsk.Valid() && ETH_HDR_LEN + mtu <= xsk.g.frameSize && ETH_HDR_LEN < xsk.g.frameSize && queued <= capacity
      && xsk.building == [] && xsk.tx.staged == [] && xsk.fill.staged == [] && xsk.compRead == |xsk.comp.consumed|
      && |seen| + 1 == |xsk.rx.consumed| <= |xsk.rxData|
      && xsk.held == [Packet(|seen|, d, xsk.rxData[|seen|])]
      && AreDelivered(seen, xsk.rxData) && AreSubmitted(sentIp, xsk.txData, EthHeader(dstMac, srcMac), mtu)
      && arrived == taken + received
    }

    /** `Device::receive`: kick, then take the next received packet in hand. */
    method Receive() returns (d: Option<Desc>, ghost asked: bool)
      requires Valid()
      modifies xsk, xsk.umem, xsk.fill, xsk.fill.desc, xsk.comp, xsk.comp.desc, xsk.rx, xsk.rx.desc, xsk.tx, xsk.tx.desc
      modifies xsk.wakeups`onFill
      ensures xsk.wakeups.onFill == old(xsk.wakeups.onFill) + [Test(asked, asked)]
      ensures xsk.txPending == old(xsk.txPending)
      ensures Advanced(old(xsk.Snap()), xsk.Snap())
      ensures match d case None => Valid() case Some(v) => InHand(v)
    {
      hide Inv, Ring.Valid, FrameOf, Base, EthHeader, StripEth, Advanced, AreDelivered, AreSubmitted;
      var kicked := xsk.KickRx();
      asked := kicked;
      ghost var s := xsk.Snap();
      ghost var atLoad;
      d, atLoad := xsk.RxPeek();
      AdvancedTransitive(old(xsk.Snap()), s, xsk.Snap());
      DeliveredKept(seen, old(xsk.Snap()), xsk.Snap());
    }

    /** Consume the token of the packet in hand, answering with `reply` if there is a frame for it. */
    method ConsumeOne(d: Desc, reply: Option<seq<byte>>)
      requires InHand(d) && (reply.Some? ==> |reply.value| <= mtu)
      requires reply.Some? ==> xsk.txFree != [] || xsk.compRead < |xsk.comp.published|
      modifies xsk, xsk.umem, xsk.fill, xsk.fill.desc, xsk.comp, xsk.comp.desc, xsk.rx, xsk.rx.desc, xsk.tx, xsk.tx.desc
      modifies this`seen, this`sentIp
      ensures xsk.txPending == (old(xsk.txPending) || |sentIp| > |old(sentIp)|)
      ensures Valid() && Advanced(old(xsk.Snap()), xsk.Snap())
      ensures old(seen) <= seen && old(sentIp) <= sentIp
    {
      hide Inv, Ring.Valid, FrameOf, Base, EthHeader, StripEth, Advanced, AreDelivered, AreSubmitted;
      var ip, again := RxConsume(d, reply);
      DeliveredNext(seen, old(xsk.Snap()), xsk.Snap(), ip);
      seen := seen + [ip];
      if reply.Some? {
        SubmittedNext(sentIp, old(xsk.txData), EthHeader(dstMac, srcMac), mtu, reply.value);
        sentIp := sentIp + [reply.value];
      } else {
        assert xsk.txData == old(xsk.txData);
      }
    }

    /** The client takes one received packet, if there is one, with or without answering it. */
    method ReceiveOne(answer: Option<seq<byte>>) returns (ghost asked: bool)
      requires Valid() && (answer.Some? ==> |answer.value| <= mtu)
      modifies xsk, xsk.umem, xsk.fill, xsk.fill.desc, xsk.comp, xsk.comp.desc, xsk.rx, xsk.rx.desc, xsk.tx, xsk.tx.desc
      modifies this`seen, this`sentIp
      modifies xsk.wakeups`onFill
      ensures xsk.txPending == (old(xsk.txPending) || |sentIp| > |old(sentIp)|)
      ensures xsk.wakeups.onFill == old(xsk.wakeups.onFill) + [Test(asked, asked)]
      ensures Valid() && Advanced(old(xsk.Snap()), xsk.Snap())
      ensures old(seen) <= seen && old(sentIp) <= sentIp
    {
      hide Inv, Ring.Valid, FrameOf, Base, EthHeader, StripEth, Advanced, AreDelivered, AreSubmitted;
      var d;
      d, asked := Receive();
      if d.Some? {
        var can := PoolAvailable();
        ghost var s := xsk.Snap();
        ConsumeOne(d.value, if can then answer else None);
        AdvancedTransitive(old(xsk.Snap()), s, xsk.Snap());
      }
    }

    /** The client transmits one packet of its own. */
    method TransmitOne(data: seq<byte>)
      requires Valid() && |data| <= mtu
      modifies xsk, xsk.umem, xsk.fill, xsk.fill.desc, xsk.comp, xsk.comp.desc, xsk.rx, xsk.rx.desc, xsk.tx, xsk.tx.desc
      modifies this`sentIp
      ensures xsk.txPending == (old(xsk.txPending) || |sentIp| > |old(sentIp)|)
      ensures Valid() && Advanced(old(xsk.Snap()), xsk.Snap()) && old(sentIp) <= sentIp
    {
      hide Inv, Ring.Valid, FrameOf, Base, EthHeader, StripEth;
      RelySelf(xsk.g, xsk.Snap());
      var can := PoolAvailable();
      if can {
        ghost var atLoad := TxConsume(data);
        RefillTouches(xsk.g, old(xsk.Snap()).u, atLoad.k.compPub);
        DeliveredKept(seen, old(xsk.Snap()), xsk.Snap());
        SubmittedNext(sentIp, old(xsk.txData), EthHeader(dstMac, srcMac), mtu, data);
        sentIp := sentIp + [data];
      }
    }

    /** Any number of device events of `iface.poll`: the client receives, with or without answering, or
        transmits, in any order and with any data that fits the MTU. */
    method DeviceEvents()
      requires Valid()
      modifies xsk, xsk.umem, xsk.fill, xsk.fill.desc, xsk.comp, xsk.comp.desc, xsk.rx, xsk.rx.desc, xsk.tx, xsk.tx.desc
      modifies this`seen, this`sentIp
      modifies xsk.wakeups`onFill
      ensures xsk.txPending == (old(xsk.txPending) || |sentIp| > |old(sentIp)|)
      ensures old(xsk.wakeups.onFill) <= xsk.wakeups.onFill
      ensures forall i :: |old(xsk.wakeups.onFill)| <= i < |xsk.wakeups.onFill| ==>
        xsk.wakeups.onFill[i].kicked == xsk.wakeups.onFill[i].asked
      ensures Valid() && Advanced(old(xsk.Snap()), xsk.Snap())
      ensures old(seen) <= seen && old(sentIp) <= sentIp
    {
      hide Inv, Ring.Valid, Xsk.Valid, FrameOf, Base, EthHeader, StripEth, Advanced, AreDelivered, AreSubmitted;
      RelySelf(xsk.g, xsk.Snap());
      var rounds: nat := *;
      while rounds > 0
        invariant Valid() && Advanced(old(xsk.Snap()), xsk.Snap())
        invariant old(seen) <= seen && old(sentIp) <= sentIp
        invariant xsk.txPending == (old(xsk.txPending) || |sentIp| > |old(sentIp)|)
        invariant old(xsk.wakeups.onFill) <= xsk.wakeups.onFill
        invariant forall i :: |old(xsk.wakeups.onFill)| <= i < |xsk.wakeups.onFill| ==>
          xsk.wakeups.onFill[i].kicked == xsk.wakeups.onFill[i].asked
      {
        ghost var s := xsk.Snap();
        var receive: bool, answer: bool, data: seq<byte> := *, *, *;
        if receive {
          ghost var asked := ReceiveOne(if answer && |data| <= mtu then Some(data) else None);
        } else if |data| <= mtu {
          TransmitOne(data);
        }
        AdvancedTransitive(old(xsk.Snap()), s, xsk.Snap());
        rounds := rounds - 1;
      }
    }

    /** The send buffer drains and the receive buffer fills. */
    method Elapse()
      requires Valid()
      modifies this`queued, this`open, this`received, this`active, this`arrived
      ensures Valid() && old(arrived) <= arrived && queued <= old(queued)
    {
      hide Inv, Xsk.Wired, Xsk.Idle, AreDelivered, AreSubmitted, EthHeader;
      var left: nat, more: seq<byte>, maySend: bool, isActive: bool := *, *, *, *;
      queued, open, active := Min(left, queued), maySend, isActive;
      received, arrived := received + more, arrived + more;
    }

    /** `iface.poll`: device events, the send buffer draining and the receive buffer filling meanwhile; then one
        kick for all of them. */
    method Poll() returns (kicked: bool)
      requires Valid()
      modifies xsk, xsk.umem, xsk.fill, xsk.fill.desc, xsk.comp, xsk.comp.desc, xsk.rx, xsk.rx.desc, xsk.tx, xsk.tx.desc
      modifies this`seen, this`sentIp, this`queued, this`open, this`received, this`active, this`arrived
      modifies xsk.wakeups
      ensures old(xsk.wakeups.onFill) < xsk.wakeups.onFill
      ensures forall i :: |old(xsk.wakeups.onFill)| <= i < |xsk.wakeups.onFill| ==>
        xsk.wakeups.onFill[i].kicked == xsk.wakeups.onFill[i].asked
      ensures xsk.wakeups.onTx
              == old(xsk.wakeups.onTx)
                 + if old(xsk.txPending) || |sentIp| > |old(sentIp)| then [Test(kicked, kicked)] else []
      ensures Valid() && Advanced(old(xsk.Snap()), xsk.Snap()) && !xsk.txPending && xsk.checked == |xsk.tx.published|
      ensures old(seen) <= seen && old(sentIp) <= sentIp && old(arrived) <= arrived && queued <= old(queued)
    {
      hide Inv, Ring.Valid, FrameOf, Base, EthHeader, StripEth, Advanced, AreDelivered, AreSubmitted;
      DeviceEvents();
      ghost var s := xsk.Snap();
      Elapse();
      ghost var asked;
      kicked, asked := Kick();
      AdvancedTransitive(old(xsk.Snap()), s, xsk.Snap());
    }

    /** The kicks at the end of `poll`. */
    method Kick() returns (kicked: bool, ghost asked: bool)
      requires Valid()
      modifies xsk, xsk.umem, xsk.fill, xsk.fill.desc, xsk.comp, xsk.comp.desc, xsk.rx, xsk.rx.desc, xsk.tx, xsk.tx.desc
      modifies xsk.wakeups
      ensures xsk.wakeups.onTx == old(xsk.wakeups.onTx) + if old(xsk.txPending) then [Test(kicked, kicked)] else []
      ensures xsk.wakeups.onFill == old(xsk.wakeups.onFill) + [Test(asked, asked)]
      ensures Valid() && Advanced(old(xsk.Snap()), xsk.Snap()) && !xsk.txPending && xsk.checked == |xsk.tx.published|
    {
      hide Inv, Ring.Valid, FrameOf, Base, EthHeader, StripEth;
      kicked := xsk.KickTx();
      ghost var s := xsk.Snap();
      var k := xsk.KickRx();
      asked := k;
      AdvancedTransitive(old(xsk.Snap()), s, xsk.Snap());
      DeliveredKept(seen, old(xsk.Snap()), xsk.Snap());
      KickDiscipline(xsk.g, xsk.Snap());
    }

    // ----- Handing an application buffer to the send buffer -----

    /** `tcp::Socket::send_slice`: append some prefix of `data`, at most what fits, and not nothing while
        there is room. */
    method SendSlice(data: seq<byte>) returns (n: Option<nat>)
      requires queued <= capacity
      modifies this`queued, this`stream
      ensures queued <= capacity && (n.None? <==> !open)
      ensures n.Some? ==> n.value <= |data| && stream == old(stream) + data[..n.value] && queued == old(queued) + n.value
      ensures n == Some(0) ==> data == [] || queued == capacity
      ensures n.None? ==> stream == old(stream) && queued == old(queued)
    {
      if !open {
        return None;
      }
      var limit: int := *;
      var take := Min(if limit < 1 then 1 else limit, Min(|data|, capacity - queued));
      queued := queued + take;
      stream := stream + data[..take];
      n := Some(take);
    }

    /** Hand as much of `buf` to the send buffer as it has room for now, however it splits it: all that
        fits while the socket may send, nothing otherwise. The count returned is exactly what was appended,
        and the error branch is never taken. */
    method Send(buf: seq<byte>) returns (r: Result<nat, IoError>)
      requires Valid()
      modifies xsk, xsk.umem, xsk.fill, xsk.fill.desc, xsk.comp, xsk.comp.desc, xsk.rx, xsk.rx.desc, xsk.tx, xsk.tx.desc
      modifies this`seen, this`sentIp, this`queued, this`open, this`received, this`active, this`arrived, this`stream
      modifies xsk.wakeups
      ensures old(xsk.wakeups.onFill) < xsk.wakeups.onFill
      ensures Valid() && Advanced(old(xsk.Snap()), xsk.Snap()) && !xsk.txPending && xsk.checked == |xsk.tx.published|
      ensures old(seen) <= seen && old(sentIp) <= sentIp && old(arrived) <= arrived
      ensures r == Ok(if old(open) then Min(|buf|, capacity - old(queued)) else 0)
      ensures stream == old(stream) + buf[..r.value]
    {
      hide Inv, Ring.Valid, FrameOf, Base, StripEth, EthHeader, Advanced, AreDelivered, AreSubmitted;
      RelySelf(xsk.g, xsk.Snap());
      var sent: nat := 0;
      while sent < |buf|
        modifies this`queued, this`stream
        invariant Valid() && sent <= |buf| && stream == old(stream) + buf[..sent]
        invariant queued == old(queued) + sent && open == old(open) && (!open ==> sent == 0)
      {
        if !open {
          break;
        }
        var n := SendSlice(buf[sent..]);
        match n
        case None => return Err(Refused);
        case Some(k) =>
          if k == 0 {
            break;
          }
          PrefixGrows(buf, sent, k);
          sent := sent + k;
      }
      var kicked := Poll();
      r := Ok(sent);
    }

    /** The retry loop over short sends. It may have to be called forever on a peer that stopped reading, so
        `attempts` bounds the calls; whenever it finishes, each byte was handed over once, in order. */
    method SendAll(buf: seq<byte>, attempts: nat) returns (off: nat)
      requires Valid()
      modifies xsk, xsk.umem, xsk.fill, xsk.fill.desc, xsk.comp, xsk.comp.desc, xsk.rx, xsk.rx.desc, xsk.tx, xsk.tx.desc
      modifies this`seen, this`sentIp, this`queued, this`open, this`received, this`active, this`arrived, this`stream
      modifies xsk.wakeups
      ensures Valid() && Advanced(old(xsk.Snap()), xsk.Snap())
      ensures old(seen) <= seen && old(sentIp) <= sentIp && old(arrived) <= arrived
      ensures off <= |buf| && stream == old(stream) + buf[..off]
      ensures off == |buf| ==> stream == old(stream) + buf
      ensures attempts > 0 && old(open) ==> off >= Min(|buf|, capacity - old(queued))
    {
      hide Inv, Ring.Valid, FrameOf, Base, StripEth;
      RelySelf(xsk.g, xsk.Snap());
      off := 0;
      var left := attempts;
      while off < |buf| && left > 0
        invariant Valid() && Advanced(old(xsk.Snap()), xsk.Snap())
        invariant old(seen) <= seen && old(sentIp) <= sentIp && old(arrived) <= arrived
        invariant off <= |buf| && stream == old(stream) + buf[..off]
        invariant left == attempts ==> off == 0 && open == old(open) && queued == old(queued)
        invariant left < attempts && old(open) ==> off >= Min(|buf|, capacity - old(queued))
        decreases left
      {
        ghost var s := xsk.Snap();
        var n := Send(buf[off..]);
        AdvancedTransitive(old(xsk.Snap()), s, xsk.Snap());
        PrefixGrows(buf, off, n.value);
        off := off + n.value;
        left := left - 1;
      }
    }

    // ----- Taking bytes out of the receive buffer -----

    /** `tcp::Socket::recv_slice`: copy out some nonempty prefix of what the receive buffer holds. */
    method RecvSlice(buf: array<byte>) returns (n: Option<nat>)
      requires arrived == taken + received && buf.Length > 0
      modifies this`received, this`taken, buf
      ensures arrived == taken + received && (n.None? <==> old(received) == [])
      ensures n.Some? ==> 0 < n.value <= buf.Length && taken == old(taken) + buf[..n.value] && buf[n.value..] == old(buf[n.value..])
      ensures n.None? ==> taken == old(taken) && received == old(received) && buf[..] == old(buf[..])
    {
      if received == [] {
        return None;
      }
      var limit: int := *;
      var take := Min(if limit < 1 then 1 else limit, Min(|received|, buf.Length));
      var data := received[..take];
      CopyInto(buf, 0, data);
      SpliceFront(old(buf[..]), data);
      assert buf[..take] == buf[..][..take] && buf[take..] == buf[..][take..] == old(buf[..])[take..];
      assert received == data + received[take..];
      received, taken := received[take..], taken + data;
      n := Some(take);
    }

    /** `recv` of a TCP socket: one poll, then what the receive buffer holds. `Some(0)` is the end of the stream:
        everything that ever arrived has been delivered. */
    method Recv(connected: bool, buf: array<byte>) returns (r: Option<nat>)
      requires Valid() && xsk.Apart(buf)
      modifies xsk, xsk.umem, xsk.fill, xsk.fill.desc, xsk.comp, xsk.comp.desc, xsk.rx, xsk.rx.desc, xsk.tx, xsk.tx.desc
      modifies this`seen, this`sentIp, this`queued, this`open, this`received, this`active, this`arrived, this`taken, buf
      modifies xsk.wakeups
      ensures connected && buf.Length > 0 ==> old(xsk.wakeups.onFill) < xsk.wakeups.onFill
      ensures Valid() && Advanced(old(xsk.Snap()), xsk.Snap())
      ensures old(seen) <= seen && old(sentIp) <= sentIp && old(arrived) <= arrived
      ensures r.Some? && r.value > 0 ==>
        r.value <= buf.Length && taken == old(taken) + buf[..r.value] && buf[r.value..] == old(buf[r.value..])
      ensures r.None? || r.value == 0 ==> taken == old(taken) && buf[..] == old(buf[..])
      ensures !connected || buf.Length == 0 ==> r.None? && arrived == old(arrived)
      ensures connected && buf.Length > 0 && (r.None? || r.value == 0) ==> taken == arrived && (r.None? <==> active)
      ensures connected && buf.Length > 0 ==> !xsk.txPending && xsk.checked == |xsk.tx.published|
    {
      hide Inv, Ring.Valid, FrameOf, Base, StripEth, EthHeader, Advanced, AreDelivered, AreSubmitted;
      RelySelf(xsk.g, xsk.Snap());
      if buf.Length == 0 || !connected {
        return None;
      }
      var kicked := Poll();
      ghost var s := xsk.Snap();
      var n := RecvSlice(buf);
      assert xsk.Snap() == s;
      if n.Some? {
        return n;
      }
      if !active {
        return Some(0);
      }
      r := None;
    }
  }

  lemma PrefixGrows(buf: seq<byte>, n: nat, k: nat)
    requires n + k <= |buf|
    ensures buf[..n] + buf[n..][..k] == buf[..n + k]
  {
  }

  lemma SpliceFront(m: seq<byte>, data: seq<byte>)
    requires |data| <= |m|
    ensures Splice(m, 0, data)[..|data|] == data && Splice(m, 0, data)[|data|..] == m[|data|..]
  {
  }

  lemma SpliceAfter(m: seq<byte>, at: nat, a: seq<byte>, b: seq<byte>)
    requires at + |a| + |b| <= |m| && m[at..at + |a|] == a
    ensures Splice(m, at + |a|, b)[at..at + |a| + |b|] == a + b
  {
    var r := Splice(m, at + |a|, b);
    assert r[at..at + |a|] == m[at..at + |a|] && r[at + |a|..at + |a| + |b|] == b;
  }
}
