/** The AF_XDP socket: a UMEM and four rings shared with the kernel. `Snap` is the object as a state of
    `Machine`; every method says which actions it took, and between any two accesses to shared memory
    the kernel takes any number of its own (`KernelSteps`). */
module Xsks {
  import opened Words
  import opened Wrappers
  import opened Machine
  import opened Conservation
  import opened Runs
  import opened Rings
  import opened Memory

  /** One test of a ring's need-wakeup flag: what it said, and whether the syscall was made. */
  datatype Test = Test(asked: bool, kicked: bool)

  /** Every need-wakeup test the socket made, by ring, in order. */
  class Wakeups {
    ghost var onFill: seq<Test>
    ghost var onTx: seq<Test>

    constructor ()
      ensures onFill == onTx == []
    {
      onFill, onTx := [], [];
    }
  }

  class Xsk {
    const g: Geometry
    const wakeups: Wakeups
    const umem: array<byte>
    const fill: Ring<nat>
    const comp: Ring<nat>
    const rx: Ring<Desc>
    const tx: Ring<Desc>
    var txFree: seq<nat>
    var txPending: bool

    // What the user has in hand, and the history of its side.
    ghost var held: seq<Packet>
    ghost var building: seq<nat>
    ghost var compRead: nat
    ghost var txData: seq<seq<byte>>
    ghost var checked: nat
    ghost var kicks: nat

    // The kernel's private memory, and the history of its side.
    var owned: seq<nat>
    var driver: seq<Packet>
    var wire: seq<Packet>
    var txCount: nat
    ghost var rxData: seq<seq<byte>>

    ghost function Snap(): State
      reads this, fill, comp, rx, tx, umem
    {
      State(
        User(fill.published, fill.staged, |rx.consumed|, held, tx.published, txData, tx.staged,
             |comp.consumed|, compRead, txFree, building, txPending, checked, kicks),
        Kern(|fill.consumed|, owned, rx.published, rxData, |tx.consumed|, driver, wire, comp.published),
        umem[..])
    }

    /** The ten objects are pairwise distinct and the rings have the sizes of the geometry. */
    ghost predicate Shape() {
      && Good(g) && g.frameSize > 0
      && fill != comp && rx != tx && fill as object != rx && fill as object != tx
      && comp as object != rx && comp as object != tx
      && fill.desc != comp.desc && rx.desc != tx.desc && fill.desc as object != rx.desc && fill.desc as object != tx.desc
      && comp.desc as object != rx.desc && comp.desc as object != tx.desc
      && umem as object != fill.desc && umem as object != comp.desc && umem as object != rx.desc && umem as object != tx.desc
      && fill.ours && tx.ours && !rx.ours && !comp.ours
      && fill.size == g.fillSize && rx.size == g.rxSize && tx.size == g.txSize && comp.size == g.compSize
    }

    ghost predicate Wired()
      reads this, fill, fill.desc, comp, comp.desc, rx, rx.desc, tx, tx.desc
    {
      && Shape() && fill.Valid() && comp.Valid() && rx.Valid() && tx.Valid()
      && txCount == |tx.consumed|
    }

    ghost predicate Valid()
      reads this, fill, fill.desc, comp, comp.desc, rx, rx.desc, tx, tx.desc, umem
    {
      Wired() && Inv(g, Snap())
    }

    /** Between public calls nothing is half done: no packet in hand, no frame half built, no slot
        written and unpublished, no completion read and unreleased. */
    ghost predicate Idle()
      reads this, fill, comp, tx
    {
      held == [] && building == [] && fill.staged == [] && tx.staged == [] && compRead == |comp.consumed|
    }

    /** A caller's buffer is none of the memory shared with the kernel. */
    ghost predicate Apart(buf: array<byte>) {
      buf != umem && buf as object != fill.desc && buf as object != comp.desc && buf as object != rx.desc && buf as object != tx.desc
    }

    // ----- Construction -----

    constructor (g: Geometry)
      requires Good(g) && g.frameSize > 0
      ensures Valid() && this.g == g
      ensures fresh(umem) && fresh(fill) && fresh(fill.desc) && fresh(comp) && fresh(comp.desc)
      ensures fresh(rx) && fresh(rx.desc) && fresh(tx) && fresh(tx.desc) && fresh(wakeups)
      ensures Snap() == Init(g, umem[..])
    {
      hide Inv, UmemLen, BaseOf, Ring.Valid, Bases, RingSize, IsPow2;
      this.g := g;
      wakeups := new Wakeups();
      umem := new byte[UmemLen(g)];
      fill := new Ring(g.fillSize, true);
      comp := new Ring(g.compSize, false);
      rx := new Ring(g.rxSize, false);
      tx := new Ring(g.txSize, true);
      var pool := TxPool(g);
      txFree, txPending := pool, false;
      held, building, compRead, txData, checked, kicks := [], [], 0, [], 0, 0;
      owned, driver, wire, txCount, rxData := [], [], [], 0, [];
      new;
      Bootstrap();
    }

    /** Hand the kernel one frame per FILL slot to receive into. */
    method Bootstrap()
      requires Wired() && umem.Length == UmemLen(g)
      requires Snap() == Init(g, umem[..]).(u := Init(g, umem[..]).u.(fillPub := []))
      modifies fill`producer, fill`published, fill`staged, fill`cached, fill.desc
      ensures Valid() && Snap() == Init(g, umem[..])
    {
      hide Inv, UmemLen, BaseOf, Ring.Valid, Bases, RingSize, IsPow2;
      FillFrames(g.fillFrames);
      InitInv(g, umem[..]);
    }

    /** The TX free pool: the upper frames, disjoint from the RX/FILL frames. */
    static method TxPool(g: Geometry) returns (pool: seq<nat>)
      requires g.fillFrames <= g.frames
      ensures pool == Bases(g, g.fillFrames, g.frames)
    {
      pool := [];
      for i := g.fillFrames to g.frames
        invariant pool == Bases(g, g.fillFrames, i)
      {
        pool := pool + [BaseOf(g, i)];
      }
    }

    /** Produce up to `n` frame addresses into an untouched FILL ring (bootstrap only). */
    method FillFrames(n: u32)
      requires Wired() && fill.published == fill.staged == fill.consumed == []
      requires n <= g.frames && umem.Length == UmemLen(g)
      modifies fill`producer, fill`published, fill`staged, fill`cached, fill.desc
      ensures Wired() && fill.consumed == fill.staged == []
      ensures fill.published == Bases(g, 0, Min(n, fill.size))
    {
      hide Inv, FillAddr, BaseOf, UmemLen, RingSize, Ring.Valid, Bases, Distance, Wrap;
      fill.Indexed();
      BasesNext(g, 0, 0);
      WrapFaithful(0, 0);
      var cons := fill.consumer;
      var free := fill.size - Distance(fill.cached, cons);
      var m := Min(n, free);
      for i := 0 to m
        invariant Wired() && fill.published == fill.consumed == []
        invariant fill.staged == Bases(g, 0, i) && |fill.staged| == i
      {
        fill.Indexed();
        WrapSmall(i);
        FillAddrIsBase(g, i);
        BasesNext(g, 0, i);
        var addr := FillAddr(fill.cached, g.frameSize, umem.Length);
        fill.Stage(addr);
      }
      if m > 0 {
        fill.Publish();
      }
    }

    // ----- The kernel -----

    method KernelTakeFill()
      requires Valid() && Enabled(g, Snap(), KTakeFill)
      modifies fill`consumer, fill`consumed, this`owned
      ensures Valid() && Snap() == Apply(g, old(Snap()), KTakeFill)
    {
      hide Inv, Ring.Valid;
      StepKeepsInv(g, Snap(), KTakeFill);
      var addr := fill.KernelTake();
      owned := owned + [addr];
    }

    method KernelWrite(j: nat, at: nat, data: seq<byte>)
      requires Valid() && Enabled(g, Snap(), KWrite(j, at, data))
      modifies umem
      ensures Valid() && Snap() == Apply(g, old(Snap()), KWrite(j, at, data))
    {
      hide Inv, Ring.Valid, FrameOf, Base, Wrap, Next, Distance;
      StepKeepsInv(g, Snap(), KWrite(j, at, data));
      CopyInto(umem, at, data);
    }

    method KernelDeliver(j: nat, at: nat, len: nat)
      requires Valid() && Enabled(g, Snap(), KDeliver(j, at, len))
      modifies rx`producer, rx`published, rx.desc, this`owned, this`rxData
      ensures Valid() && Snap() == Apply(g, old(Snap()), KDeliver(j, at, len))
    {
      hide Inv, Ring.Valid, FrameOf, Base, Wrap, Next, Distance;
      RingsNeverOverrun(g, Snap());
      StepKeepsInv(g, Snap(), KDeliver(j, at, len));
      rx.KernelOffer(Desc(at, len));
      owned := Remove(owned, j);
      rxData := rxData + [umem[..][at..at + len]];
    }

    method KernelTakeTx()
      requires Valid() && Enabled(g, Snap(), KTakeTx)
      modifies tx`consumer, tx`consumed, this`driver, this`txCount
      ensures Valid() && Snap() == Apply(g, old(Snap()), KTakeTx)
    {
      hide Inv, Ring.Valid, FrameOf, Base, Wrap, Next, Distance;
      TxReady(g, Snap());
      StepKeepsInv(g, Snap(), KTakeTx);
      var d := tx.KernelTake();
      driver := driver + [Packet(txCount, d, umem[..][d.addr..d.addr + d.len])];
      txCount := txCount + 1;
    }

    /** The driver reads a frame it is transmitting, at any time before completing it. */
    method KernelTransmit(j: nat)
      requires Valid() && Enabled(g, Snap(), KTransmit(j))
      modifies this`wire
      ensures Valid() && Snap() == Apply(g, old(Snap()), KTransmit(j))
    {
      hide Inv, Ring.Valid, FrameOf, Base, Wrap, Next, Distance;
      StepKeepsInv(g, Snap(), KTransmit(j));
      var p := driver[j];
      wire := wire + [p.(data := umem[..][p.desc.addr..p.desc.addr + p.desc.len])];
    }

    method KernelComplete(j: nat, addr: nat)
      requires Valid() && Enabled(g, Snap(), KComplete(j, addr))
      modifies comp`producer, comp`published, comp.desc, this`driver
      ensures Valid() && Snap() == Apply(g, old(Snap()), KComplete(j, addr))
    {
      hide Inv, Ring.Valid, FrameOf, Base, Wrap, Next, Distance;
      RingsNeverOverrun(g, Snap());
      StepKeepsInv(g, Snap(), KComplete(j, addr));
      comp.KernelOffer(addr);
      driver := Remove(driver, j);
    }

    /** One kernel action on the receive side, of any kind, if it can be taken. */
    method KernelRxStep()
      requires Valid()
      modifies this`owned, this`rxData, umem
      modifies fill`consumer, fill`consumed, fill`needWakeup, rx`producer, rx`published, rx.desc
      ensures Valid() && Rely(g, old(Snap()), Snap())
    {
      hide Inv, Ring.Valid, FrameOf, Base, Wrap, Next, Distance;
      fill.Indexed();
      var choice: int, j: nat, at: nat, len: nat, data: seq<byte> := *, *, *, *, *;
      if choice == 0 && fill.consumer != fill.producer {
        KernelActionRely(g, Snap(), KTakeFill);
        KernelTakeFill();
      } else if choice == 1 && j < |owned| && FrameOf(g, at) == FrameOf(g, owned[j]) && InFrame(g, at, |data|)
                && at + |data| <= umem.Length {
        KernelActionRely(g, Snap(), KWrite(j, at, data));
        KernelWrite(j, at, data);
      } else if choice == 2 && j < |owned| && FrameOf(g, at) == FrameOf(g, owned[j]) && InFrame(g, at, len)
                && at + len <= umem.Length {
        KernelActionRely(g, Snap(), KDeliver(j, at, len));
        KernelDeliver(j, at, len);
      } else if choice == 3 {
        fill.KernelToggleWakeup(len > 0);
      }
    }

    /** One kernel action on the transmit side, of any kind, if it can be taken. */
    method KernelTxStep()
      requires Valid()
      modifies this`driver, this`wire, this`txCount
      modifies tx`consumer, tx`consumed, tx`needWakeup, comp`producer, comp`published, comp.desc
      ensures Valid() && Rely(g, old(Snap()), Snap())
    {
      hide Inv, Ring.Valid, FrameOf, Base, Wrap, Next, Distance;
      tx.Indexed();
      var choice: int, j: nat, at: nat := *, *, *;
      if choice == 0 && tx.consumer != tx.producer {
        TxReady(g, Snap());
        KernelActionRely(g, Snap(), KTakeTx);
        KernelTakeTx();
      } else if choice == 1 && j < |driver| && driver[j].desc.addr + driver[j].desc.len <= umem.Length {
        KernelActionRely(g, Snap(), KTransmit(j));
        KernelTransmit(j);
      } else if choice == 2 && j < |driver| && FrameOf(g, at) == FrameOf(g, driver[j].desc.addr) {
        KernelActionRely(g, Snap(), KComplete(j, at));
        KernelComplete(j, at);
      } else if choice == 3 {
        tx.KernelToggleWakeup(at > 0);
      }
    }

    /** Any number of kernel actions, at a point between two of the user's accesses. */
    method KernelSteps()
      requires Valid()
      modifies this`owned, this`driver, this`wire, this`txCount, this`rxData, umem
      modifies fill`consumer, fill`consumed, fill`needWakeup, tx`consumer, tx`consumed, tx`needWakeup
      modifies rx`producer, rx`published, rx.desc, comp`producer, comp`published, comp.desc
      ensures Valid() && Rely(g, old(Snap()), Snap())
    {
      hide Inv, Ring.Valid;
      var n: nat := *;
      while n > 0
        invariant Valid() && Rely(g, old(Snap()), Snap())
      {
        ghost var s := Snap();
        var receive: bool := *;
        if receive {
          KernelRxStep();
        } else {
          KernelTxStep();
        }
        AdvancedTransitive(old(Snap()), s, Snap());
        n := n - 1;
      }
    }

    // ----- The user -----

    /** Recycle one consumed RX frame, `held[j]`, back to the FILL ring. No room check: conservation
        (`RingsNeverOverrun`) is what makes the slot free. */
    method Recycle(addr: nat, ghost j: nat)
      requires Valid() && fill.staged == [] && j < |held| && held[j].desc.addr == addr
      modifies this`owned, this`driver, this`wire, this`txCount, this`rxData, umem
      modifies fill`consumer, fill`consumed, fill`needWakeup, tx`consumer, tx`consumed, tx`needWakeup
      modifies rx`producer, rx`published, rx.desc, comp`producer, comp`published, comp.desc
      modifies fill`producer, fill`published, fill`staged, fill`cached, fill.desc, this`held
      ensures Valid()
      ensures Snap().u == old(Snap()).u.(fillPub := old(fill.published) + [Base(g, addr)], held := Remove(old(held), j))
      ensures Advanced(old(Snap()), Snap())
    {
      hide Inv, Ring.Valid, FrameOf, Base, Advanced, Remove, Wrap, Next, Distance;
      KernelSteps();
      HeldBase(g, Snap(), j);
      ghost var s := Snap();
      StageFill(FrameBase(g, addr));
      SamePart(old(Snap()), s, Snap());
      s := Snap();
      KernelSteps();
      AdvancedTransitive(old(Snap()), s, Snap());
      s := Snap();
      PublishFill(j);
      SamePart(old(Snap()), s, Snap());
    }

    method StageFill(base: nat)
      requires Valid() && Enabled(g, Snap(), UStageFill(base))
      modifies fill`staged, fill`cached, fill.desc
      ensures Valid() && Snap() == Apply(g, old(Snap()), UStageFill(base))
    {
      hide Inv, Ring.Valid, FrameOf, Base, Wrap, Next, Distance;
      RingsNeverOverrun(g, Snap());
      StepKeepsInv(g, Snap(), UStageFill(base));
      fill.Stage(base);
    }

    method PublishFill(ghost j: nat)
      requires Valid() && Enabled(g, Snap(), UPublishFill(j))
      modifies fill`producer, fill`published, fill`staged, this`held
      ensures Valid() && Snap() == Apply(g, old(Snap()), UPublishFill(j))
    {
      hide Inv, Ring.Valid, FrameOf, Base, Wrap, Next, Distance;
      StepKeepsInv(g, Snap(), UPublishFill(j));
      fill.Publish();
      held := Remove(held, j);
    }

    method TakeRx(d: Desc, c: u32)
      requires Valid() && Enabled(g, Snap(), UTakeRx)
      requires d == rx.published[|rx.consumed|] && c == Wrap(|rx.consumed| + 1)
      modifies rx`consumer, rx`consumed, this`held
      ensures Valid() && Snap() == Apply(g, old(Snap()), UTakeRx)
    {
      hide Inv, Ring.Valid, FrameOf, Base, Wrap, Next, Distance;
      rx.Indexed();
      StepKeepsInv(g, Snap(), UTakeRx);
      held := held + [Packet(|rx.consumed|, d, rxData[|rx.consumed|])];
      rx.Release(c, [d]);
    }

    /** Load the RX producer index, then the consumer index. */
    method LoadRx() returns (prod: u32, cons: u32, ghost atLoad: State)
      requires Valid()
      modifies this`owned, this`driver, this`wire, this`txCount, this`rxData, umem
      modifies fill`consumer, fill`consumed, fill`needWakeup, tx`consumer, tx`consumed, tx`needWakeup
      modifies rx`producer, rx`published, rx.desc, comp`producer, comp`published, comp.desc
      ensures Valid() && Rely(g, old(Snap()), atLoad) && Rely(g, atLoad, Snap()) && Inv(g, atLoad)
      ensures cons == Wrap(|rx.consumed|)
      ensures prod == cons <==> |atLoad.k.rxPub| == |rx.consumed|
    {
      hide Inv, Ring.Valid, FrameOf, Base, Advanced, Wrap, Next, Distance;
      KernelSteps();
      prod := rx.producer;
      atLoad := Snap();
      rx.Indexed();
      KernelSteps();
      rx.Indexed();
      cons := rx.consumer;
      WrapFaithful(|atLoad.k.rxPub|, |rx.consumed|);
    }

    /** Read the RX slot at the consumer index, then store the index after it. */
    method PopRx(cons: u32) returns (d: Desc)
      requires Valid() && cons == Wrap(|rx.consumed|) && |rx.consumed| < |rx.published|
      modifies this`owned, this`driver, this`wire, this`txCount, this`rxData, umem
      modifies fill`consumer, fill`consumed, fill`needWakeup, tx`consumer, tx`consumed, tx`needWakeup
      modifies rx`producer, rx`published, rx.desc, comp`producer, comp`published, comp.desc
      modifies rx`consumer, rx`consumed, this`held
      ensures Valid() && |rx.published| == |rxData|
      ensures
        var i := |old(rx.consumed)|;
        && i < |rx.published| && d == rx.published[i]
        && Snap().u == old(Snap().u).(rxTaken := i + 1, held := old(held) + [Packet(i, rx.published[i], rxData[i])])
      ensures Advanced(old(Snap()), Snap())
    {
      hide Inv, Ring.Valid, FrameOf, Base, Advanced, Wrap, Next, Distance;
      d := rx.Read(cons, |rx.consumed|);
      KernelSteps();
      RelyRx(g, old(Snap()), Snap());
      ghost var s := Snap();
      rx.Indexed();
      NextWraps(|rx.consumed|);
      TakeRx(d, Next(cons));
      SamePart(old(Snap()), s, Snap());
    }

    /** Pop one received frame descriptor, advancing the RX consumer. Whether there is one is decided
        by `atLoad`, the state at the producer load. */
    method RxPeek() returns (r: Option<Desc>, ghost atLoad: State)
      requires Valid()
      modifies this`owned, this`driver, this`wire, this`txCount, this`rxData, umem
      modifies fill`consumer, fill`consumed, fill`needWakeup, tx`consumer, tx`consumed, tx`needWakeup
      modifies rx`producer, rx`published, rx.desc, comp`producer, comp`published, comp.desc
      modifies rx`consumer, rx`consumed, this`held
      ensures Valid() && |rx.published| == |rxData| && Rely(g, old(Snap()), atLoad)
      ensures r.None? <==> |atLoad.k.rxPub| == |old(rx.consumed)|
      ensures r.None? ==> Snap().u == old(Snap().u)
      ensures r.Some? ==>
        var i := |old(rx.consumed)|;
        && i < |rx.published| && r.value == rx.published[i]
        && Snap().u == old(Snap().u).(rxTaken := i + 1, held := old(held) + [Packet(i, rx.published[i], rxData[i])])
      ensures Advanced(old(Snap()), Snap())
    {
      hide Inv, Ring.Valid, FrameOf, Base, Advanced, Wrap, Next, Distance;
      var prod, cons;
      prod, cons, atLoad := LoadRx();
      RelyRx(g, atLoad, Snap());
      RelyTransitive(g, old(Snap()), atLoad, Snap());
      if cons == prod {
        return None, atLoad;
      }
      ghost var s := Snap();
      KernelSteps();
      RelyRx(g, s, Snap());
      RelyTransitive(g, old(Snap()), s, Snap());
      s := Snap();
      var d := PopRx(cons);
      AdvancedTransitive(old(Snap()), s, Snap());
      r := Some(d);
    }

    method ReadComp(cons: u32)
      requires Valid() && compRead < |comp.published| && cons == Wrap(compRead)
      modifies this`txFree, this`compRead
      ensures Valid() && Enabled(g, old(Snap()), UReadComp) && Snap() == Apply(g, old(Snap()), UReadComp)
    {
      hide Inv, Ring.Valid, FrameOf, Base, Advanced, Wrap, Next, Distance;
      RelyComp(g, Snap(), Snap());
      HandledAddresses(g, Snap());
      StepKeepsInv(g, Snap(), UReadComp);
      var addr := comp.Read(cons, compRead);
      FrameBaseIsBase(g, addr);
      txFree := txFree + [FrameBase(g, addr)];
      compRead := compRead + 1;
    }

    method ReleaseComp(cons: u32, ghost read: seq<nat>)
      requires Valid() && comp.consumed + read <= comp.published
      requires compRead == |comp.consumed| + |read| && cons == Wrap(compRead) && Enabled(g, Snap(), UReleaseComp)
      modifies comp`consumer, comp`consumed
      ensures Valid() && Snap() == Apply(g, old(Snap()), UReleaseComp)
    {
      hide Inv, Ring.Valid, FrameOf, Base, Advanced, Wrap, Next, Distance;
      StepKeepsInv(g, Snap(), UReleaseComp);
      comp.Release(cons, read);
    }

    /** Load the COMP producer index, then the consumer index. */
    method LoadComp() returns (prod: u32, cons: u32, ghost atLoad: State)
      requires Valid()
      modifies this`owned, this`driver, this`wire, this`txCount, this`rxData, umem
      modifies fill`consumer, fill`consumed, fill`needWakeup, tx`consumer, tx`consumed, tx`needWakeup
      modifies rx`producer, rx`published, rx.desc, comp`producer, comp`published, comp.desc
      ensures Valid() && Rely(g, old(Snap()), atLoad) && Rely(g, atLoad, Snap()) && Inv(g, atLoad)
      ensures prod == Wrap(|atLoad.k.compPub|) && cons == Wrap(|comp.consumed|)
      ensures |comp.consumed| <= |atLoad.k.compPub| <= |comp.consumed| + 0x8000_0000
    {
      hide Inv, Ring.Valid, FrameOf, Base, Advanced, Wrap, Next, Distance;
      KernelSteps();
      prod := comp.producer;
      atLoad := Snap();
      comp.Indexed();
      KernelSteps();
      comp.Indexed();
      cons := comp.consumer;
    }

    /** One round of the reclaim loop: read the slot at `cons` into the pool. */
    method ReclaimOne(cons: u32)
      requires Valid() && compRead < |comp.published| && cons == Wrap(compRead)
      modifies this`owned, this`driver, this`wire, this`txCount, this`rxData, umem
      modifies fill`consumer, fill`consumed, fill`needWakeup, tx`consumer, tx`consumed, tx`needWakeup
      modifies rx`producer, rx`published, rx.desc, comp`producer, comp`published, comp.desc
      modifies this`txFree, this`compRead
      ensures Valid() && old(comp.published) <= comp.published
      ensures
        var a := old(comp.published[compRead]);
        Snap().u == old(Snap()).u.(compRead := old(compRead) + 1, free := old(txFree) + [Base(g, a)])
      ensures Advanced(old(Snap()), Snap())
    {
      hide Inv, Ring.Valid, FrameOf, Base, Advanced, Wrap, Next, Distance;
      KernelSteps();
      RelyComp(g, old(Snap()), Snap());
      ghost var s := Snap();
      ReadComp(cons);
      SamePart(old(Snap()), s, Snap());
    }

    /** The reclaim loop: read every slot from `cons` to `prod` into the pool. `target` is what had been
        completed when `prod` was loaded. Terminates because the wrapped distance to `prod` shrinks. */
    method DrainComp(prod: u32, cons: u32, ghost target: seq<nat>) returns (c: u32, ghost read: seq<nat>)
      requires Valid() && compRead == |comp.consumed| && comp.consumed <= target <= comp.published
      requires |target| <= compRead + 0x8000_0000 && prod == Wrap(|target|) && cons == Wrap(compRead)
      modifies this`owned, this`driver, this`wire, this`txCount, this`rxData, umem
      modifies fill`consumer, fill`consumed, fill`needWakeup, tx`consumer, tx`consumed, tx`needWakeup
      modifies rx`producer, rx`published, rx.desc, comp`producer, comp`published, comp.desc
      modifies this`txFree, this`compRead
      ensures Valid() && c == prod && comp.consumed + read == target <= comp.published
      ensures Snap().u == old(Snap()).u.(compRead := |target|, free := old(txFree) + BasesOf(g, read))
      ensures Advanced(old(Snap()), Snap())
    {
      hide Inv, Ring.Valid, FrameOf, Base, Advanced, Wrap, Next, Distance;
      RelySelf(g, Snap());
      c, read := cons, [];
      comp.Indexed();
      assert comp.consumed + read == comp.consumed;
      while c != prod
        invariant Valid() && Advanced(old(Snap()), Snap())
        invariant compRead == |comp.consumed| + |read| && comp.consumed + read <= target <= comp.published
        invariant c == Wrap(compRead)
        invariant Snap().u == old(Snap()).u.(compRead := compRead, free := old(txFree) + BasesOf(g, read))
        decreases Distance(prod, c)
      {
        ghost var s := Snap();
        WrapFaithful(|target|, compRead);
        NextWraps(compRead);
        ghost var a := comp.published[compRead];
        ReclaimOne(c);
        AdvancedTransitive(old(Snap()), s, Snap());
        assert comp.consumed + (read + [a]) == (comp.consumed + read) + [a];
        assert BasesOf(g, read + [a]) == BasesOf(g, read) + [Base(g, a)];
        read := read + [a];
        WrapFaithful(|target|, compRead);
        c := Next(c);
      }
      WrapFaithful(|target|, compRead);
    }

    /** Reclaim transmitted frames from the COMPLETION ring back into the free pool: exactly those
        completed when the producer was loaded (`atLoad`), in order. */
    method ReclaimComp() returns (ghost atLoad: State)
      requires Valid() && compRead == |comp.consumed|
      modifies this`owned, this`driver, this`wire, this`txCount, this`rxData, umem
      modifies fill`consumer, fill`consumed, fill`needWakeup, tx`consumer, tx`consumed, tx`needWakeup
      modifies rx`producer, rx`published, rx.desc, comp`producer, comp`published, comp.desc
      modifies this`txFree, this`compRead, comp`consumer, comp`consumed
      ensures Valid() && Rely(g, old(Snap()), atLoad) && Inv(g, atLoad) && Advanced(atLoad, Snap())
      ensures old(compRead) <= |atLoad.k.compPub|
      ensures
        var n := |atLoad.k.compPub|;
        Snap().u == old(Snap()).u.(compTaken := n, compRead := n,
                                   free := old(txFree) + BasesOf(g, atLoad.k.compPub[old(compRead)..]))
      ensures Advanced(old(Snap()), Snap())
    {
      hide Inv, Ring.Valid, FrameOf, Base, Advanced, Wrap, Next, Distance;
      var prod, cons;
      prod, cons, atLoad := LoadComp();
      RelyTransitive(g, old(Snap()), atLoad, Snap());
      RelyComp(g, atLoad, Snap());
      comp.Indexed();
      ghost var s := Snap();
      ghost var read;
      cons, read := DrainComp(prod, cons, atLoad.k.compPub);
      AdvancedTransitive(atLoad, s, Snap());
      assert read == atLoad.k.compPub[old(compRead)..];
      s := Snap();
      FinishReclaim(cons, read);
      AdvancedTransitive(atLoad, s, Snap());
      AdvancedTransitive(old(Snap()), atLoad, Snap());
    }

    /** Store the COMP consumer index. */
    method FinishReclaim(cons: u32, ghost read: seq<nat>)
      requires Valid() && comp.consumed + read <= comp.published
      requires compRead == |comp.consumed| + |read| && cons == Wrap(compRead)
      modifies this`owned, this`driver, this`wire, this`txCount, this`rxData, umem
      modifies fill`consumer, fill`consumed, fill`needWakeup, tx`consumer, tx`consumed, tx`needWakeup
      modifies rx`producer, rx`published, rx.desc, comp`producer, comp`published, comp.desc
      modifies comp`consumer, comp`consumed
      ensures Valid() && Snap().u == old(Snap()).u.(compTaken := compRead)
      ensures Advanced(old(Snap()), Snap())
    {
      hide Inv, Ring.Valid, FrameOf, Base, Advanced, Wrap, Next, Distance;
      KernelSteps();
      RelyComp(g, old(Snap()), Snap());
      ghost var s := Snap();
      ReleaseComp(cons, read);
      SamePart(old(Snap()), s, Snap());
    }

    /** Reclaim completions if the pool is empty. */
    method Refill() returns (ghost atLoad: State)
      requires Valid() && compRead == |comp.consumed|
      modifies this`owned, this`driver, this`wire, this`txCount, this`rxData, umem
      modifies fill`consumer, fill`consumed, fill`needWakeup, tx`consumer, tx`consumed, tx`needWakeup
      modifies rx`producer, rx`published, rx.desc, comp`producer, comp`published, comp.desc
      modifies this`txFree, this`compRead, comp`consumer, comp`consumed
      ensures Valid() && compRead == |comp.consumed|
      ensures Rely(g, old(Snap()), atLoad) && Inv(g, atLoad) && Advanced(atLoad, Snap()) && Advanced(old(Snap()), Snap())
      ensures old(compRead) <= |atLoad.k.compPub| && Snap().u == Refilled(g, old(Snap()).u, atLoad.k.compPub)
    {
      hide Inv, Ring.Valid, FrameOf, Base, Advanced, Wrap, Next, Distance;
      atLoad := Snap();
      RelySelf(g, atLoad);
      RelyComp(g, atLoad, atLoad);
      if txFree == [] {
        atLoad := ReclaimComp();
      }
    }

    /** Grab a free TX frame, reclaiming completions if the pool is empty. `None` exactly when the pool
        was empty and, at the COMP producer load (`atLoad`), nothing was completed: by `PoolExhausted`
        every TX frame was then being built, in the TX ring or in the driver. */
    method TxAlloc() returns (r: Option<nat>, ghost atLoad: State)
      requires Valid() && compRead == |comp.consumed|
      modifies this`owned, this`driver, this`wire, this`txCount, this`rxData, umem
      modifies fill`consumer, fill`consumed, fill`needWakeup, tx`consumer, tx`consumed, tx`needWakeup
      modifies rx`producer, rx`published, rx.desc, comp`producer, comp`published, comp.desc
      modifies this`txFree, this`compRead, comp`consumer, comp`consumed, this`building
      ensures Valid() && compRead == |comp.consumed|
      ensures Rely(g, old(Snap()), atLoad) && Inv(g, atLoad) && Advanced(atLoad, Snap()) && Advanced(old(Snap()), Snap())
      ensures r.None? <==> Exhausted(atLoad)
      ensures r.None? ==> Snap().u == old(Snap()).u
      ensures r.Some? ==>
        && PoolHasFrame(atLoad.u, atLoad.k.compPub) && Snap().u == Allocated(g, atLoad.u, atLoad.k.compPub)
        && building == old(building) + [r.value]
    {
      hide Inv, Ring.Valid, FrameOf, Base, Advanced, Wrap, Next, Distance, Refilled, Allocated, PoolHasFrame;
      atLoad := Refill();
      ghost var s := Snap();
      RefillThenPop(g, atLoad, s);
      if txFree == [] {
        return None, atLoad;
      }
      var addr := PopFree();
      SamePart(atLoad, s, Snap());
      SamePart(old(Snap()), s, Snap());
      r := Some(addr);
    }

    method PopFree() returns (addr: nat)
      requires Valid() && Enabled(g, Snap(), UPop)
      modifies this`txFree, this`building
      ensures Valid() && Snap() == Apply(g, old(Snap()), UPop) && old(txFree) == txFree + [addr]
    {
      hide Inv, Ring.Valid, FrameOf, Base;
      StepKeepsInv(g, Snap(), UPop);
      addr := txFree[|txFree| - 1];
      txFree := txFree[..|txFree| - 1];
      building := building + [addr];
    }

    /** Write into the frame being built. */
    method WriteFrame(ghost j: nat, at: nat, data: seq<byte>)
      requires Valid() && Enabled(g, Snap(), UWrite(j, at, data))
      modifies umem
      ensures Valid() && Snap() == Apply(g, old(Snap()), UWrite(j, at, data))
    {
      hide Inv, Ring.Valid, FrameOf, Base;
      StepKeepsInv(g, Snap(), UWrite(j, at, data));
      CopyInto(umem, at, data);
    }

    method StageTx(ghost j: nat, addr: nat, len: nat)
      requires Valid() && Enabled(g, Snap(), UStageTx(j, len)) && addr == building[j]
      modifies tx`staged, tx`cached, tx.desc
      ensures Valid() && Snap() == Apply(g, old(Snap()), UStageTx(j, len))
    {
      hide Inv, Ring.Valid, FrameOf, Base;
      RingsNeverOverrun(g, Snap());
      StepKeepsInv(g, Snap(), UStageTx(j, len));
      tx.Stage(Desc(addr, len));
      assert tx.staged == [Desc(addr, len)];
    }

    method PublishTx(ghost j: nat)
      requires Valid() && Enabled(g, Snap(), UPublishTx(j))
      modifies tx`producer, tx`published, tx`staged, this`building, this`txData, this`txPending
      ensures Valid() && Snap() == Apply(g, old(Snap()), UPublishTx(j))
    {
      hide Inv, Ring.Valid, FrameOf, Base, Remove, Good, Wrap, Next, Distance;
      StepKeepsInv(g, Snap(), UPublishTx(j));
      ghost var t := Apply(g, Snap(), UPublishTx(j));
      ghost var d := tx.staged[0];
      assert tx.staged == [d];
      tx.Publish();
      txData := txData + [umem[..][d.addr..d.addr + d.len]];
      building := Remove(building, j);
      txPending := true;
      assert Snap() == t;
    }

    /** Queue the frame `building[j]` on the TX ring: the bytes its descriptor stands for are those in
        the UMEM at the call, whatever the kernel does meanwhile. No room check. */
    method TxSubmit(ghost j: nat, addr: nat, len: nat)
      requires Valid() && tx.staged == [] && j < |building| && addr == building[j] && len <= g.frameSize
      modifies this`owned, this`driver, this`wire, this`txCount, this`rxData, umem
      modifies fill`consumer, fill`consumed, fill`needWakeup, tx`consumer, tx`consumed, tx`needWakeup
      modifies rx`producer, rx`published, rx.desc, comp`producer, comp`published, comp.desc
      modifies tx`producer, tx`published, tx`staged, tx`cached, tx.desc
      modifies this`building, this`txData, this`txPending
      ensures Valid() && addr + len <= umem.Length
      ensures Snap().u == old(Snap()).u.(txPub := old(tx.published) + [Desc(addr, len)],
                txData := old(txData) + [old(umem[..])[addr..addr + len]], building := Remove(old(building), j), pending := true)
      ensures Advanced(old(Snap()), Snap())
    {
      hide Inv, Ring.Valid, FrameOf, Base, Advanced, Split, Remove, Wrap, Next, Distance;
      HandledAddresses(g, Snap());
      KernelSteps();
      RelyTxBytes(g, old(Snap()), Snap(), addr, len);
      ghost var s := Snap();
      StageTx(j, addr, len);
      SamePart(old(Snap()), s, Snap());
      s := Snap();
      KernelSteps();
      RelyTxBytes(g, s, Snap(), addr, len);
      AdvancedTransitive(old(Snap()), s, Snap());
      s := Snap();
      PublishTx(j);
      SamePart(old(Snap()), s, Snap());
    }

    /** Hand the queued frames to the driver: one need-wakeup check per batch of submissions, none if
        nothing was queued. Returns whether the `sendto` was made. */
    method KickTx() returns (kicked: bool)
      requires Valid()
      modifies this`owned, this`driver, this`wire, this`txCount, this`rxData, umem
      modifies fill`consumer, fill`consumed, fill`needWakeup, tx`consumer, tx`consumed, tx`needWakeup
      modifies rx`producer, rx`published, rx.desc, comp`producer, comp`published, comp.desc
      modifies this`txPending, this`checked, this`kicks, wakeups`onTx
      ensures wakeups.onTx == old(wakeups.onTx) + if old(txPending) then [Test(tx.needWakeup, kicked)] else []
      ensures Valid() && !txPending && (kicked <==> old(txPending) && tx.needWakeup)
      ensures Snap().u == if old(txPending)
        then old(Snap()).u.(pending := false, checked := |tx.published|, kicks := old(kicks) + if kicked then 1 else 0)
        else old(Snap()).u
      ensures Advanced(old(Snap()), Snap())
    {
      hide Inv, Wired, Snap, Advanced;
      if !txPending {
        RelySelf(g, Snap());
        return false;
      }
      kicked := KickQueued();
      wakeups.onTx := wakeups.onTx + [Test(tx.needWakeup, kicked)];
    }

    method KickQueued() returns (kicked: bool)
      requires Valid() && txPending
      modifies this`owned, this`driver, this`wire, this`txCount, this`rxData, umem
      modifies fill`consumer, fill`consumed, fill`needWakeup, tx`consumer, tx`consumed, tx`needWakeup
      modifies rx`producer, rx`published, rx.desc, comp`producer, comp`published, comp.desc
      modifies this`txPending, this`checked, this`kicks
      ensures Valid() && !txPending && kicked == tx.needWakeup
      ensures Snap().u == old(Snap()).u.(pending := false, checked := |tx.published|, kicks := old(kicks) + if kicked then 1 else 0)
      ensures Advanced(old(Snap()), Snap())
    {
      hide Inv, Ring.Valid, FrameOf, Base, Advanced, Wrap, Next, Distance;
      KernelSteps();
      ghost var s := Snap();
      kicked := CheckWakeup();
      SamePart(old(Snap()), s, Snap());
    }

    method CheckWakeup() returns (kicked: bool)
      requires Valid() && Enabled(g, Snap(), UCheckWakeup(tx.needWakeup))
      modifies this`txPending, this`checked, this`kicks
      ensures Valid() && kicked == tx.needWakeup && Snap() == Apply(g, old(Snap()), UCheckWakeup(kicked))
    {
      hide Inv, Ring.Valid, FrameOf, Base, Wrap, Next, Distance;
      StepKeepsInv(g, Snap(), UCheckWakeup(tx.needWakeup));
      txPending := false;
      kicked := tx.needWakeup;
      checked, kicks := |tx.published|, kicks + if kicked then 1 else 0;
    }

    /** Nudge the driver to service the FILL ring if it has gone idle. Returns whether it did. */
    method KickRx() returns (kicked: bool)
      requires Valid()
      modifies this`owned, this`driver, this`wire, this`txCount, this`rxData, umem
      modifies fill`consumer, fill`consumed, fill`needWakeup, tx`consumer, tx`consumed, tx`needWakeup
      modifies rx`producer, rx`published, rx.desc, comp`producer, comp`published, comp.desc
      modifies wakeups`onFill
      ensures Valid() && Rely(g, old(Snap()), Snap()) && kicked == fill.needWakeup
      ensures wakeups.onFill == old(wakeups.onFill) + [Test(fill.needWakeup, kicked)]
    {
      hide Inv, Ring.Valid, FrameOf, Base, Advanced, Wrap, Next, Distance;
      KernelSteps();
      kicked := fill.needWakeup;
      wakeups.onFill := wakeups.onFill + [Test(fill.needWakeup, kicked)];
    }
  }
}
