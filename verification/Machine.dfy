/** The UMEM, the four rings and the kernel as one transition system.

    The state is split by owner: `User` is what only this socket writes, `Kern` is what only the
    kernel writes, and the UMEM bytes are shared. A `Label` is one atomic action, so a run is any
    interleaving of user and kernel actions at the granularity of an index load or store. */
module Machine {
  import opened Words

  // ----- Geometry -----

  /** Frame size, the number of frames behind FILL/RX, the number of frames in all, and the sizes of
      the four rings. */
  datatype Geometry = Geometry(frameSize: nat, fillFrames: nat, frames: nat,
                               fillSize: nat, rxSize: nat, txSize: nat, compSize: nat)

  /** What the sizes have to satisfy; nothing in the code states the last four conjuncts. */
  ghost predicate Good(g: Geometry) {
    && IsPow2(g.frameSize) && g.frameSize <= 0x8000_0000
    && g.frames <= 0x8000_0000
    && RingSize(g.fillSize) && RingSize(g.rxSize) && RingSize(g.txSize) && RingSize(g.compSize)
    && g.fillFrames <= g.frames
    && g.fillFrames <= g.fillSize
    && g.fillFrames <= g.rxSize
    && g.frames - g.fillFrames <= g.txSize
    && g.frames - g.fillFrames <= g.compSize
  }

  function UmemLen(g: Geometry): nat {
    g.frames * g.frameSize
  }

  /** The first byte of the TX half. */
  function Split(g: Geometry): nat {
    g.fillFrames * g.frameSize
  }

  /** The frame an address lies in, and that frame's first byte: division by the frame size, written
      as repeated subtraction to keep the arithmetic of the proofs linear. */
  function FrameOf(g: Geometry, addr: nat): (f: nat)
    requires g.frameSize > 0
  {
    if addr < g.frameSize then 0 else 1 + FrameOf(g, addr - g.frameSize)
  }

  function Base(g: Geometry, addr: nat): (b: nat)
    requires g.frameSize > 0
    ensures b <= addr < b + g.frameSize
  {
    if addr < g.frameSize then 0 else g.frameSize + Base(g, addr - g.frameSize)
  }

  /** `[addr, addr + len)` lies in one frame. */
  predicate InFrame(g: Geometry, addr: nat, len: nat)
    requires g.frameSize > 0
  {
    addr + len <= Base(g, addr) + g.frameSize
  }

  predicate Aligned(g: Geometry, addr: nat)
    requires g.frameSize > 0
  {
    Base(g, addr) == addr
  }

  // ----- State -----

  datatype Desc = Desc(addr: nat, len: nat)

  /** A descriptor together with its position in its ring's history and the bytes it stood for when
      it was published. */
  datatype Packet = Packet(no: nat, desc: Desc, data: seq<byte>)

  datatype User = User(
    fillPub: seq<nat>, fillStaged: seq<nat>,          // FILL producer: published, written but unpublished
    rxTaken: nat, held: seq<Packet>,                  // RX consumer: consumed, not yet recycled
    txPub: seq<Desc>, txData: seq<seq<byte>>, txStaged: seq<Desc>,
    compTaken: nat, compRead: nat,                    // COMP consumer: stored index, entries read
    free: seq<nat>, building: seq<nat>,               // TX pool, frames handed out and not submitted
    pending: bool, checked: nat, kicks: nat)          // kick bookkeeping

  datatype Kern = Kern(
    fillTaken: nat, owned: seq<nat>,                  // FILL consumer, frames it may write
    rxPub: seq<Desc>, rxData: seq<seq<byte>>,         // RX producer
    txTaken: nat, driver: seq<Packet>,                // TX consumer, frames being transmitted
    wire: seq<Packet>,                                // what the driver read out of the UMEM
    compPub: seq<nat>)                                // COMP producer

  datatype State = State(u: User, k: Kern, mem: seq<byte>)

  // ----- Memory -----

  function Splice(mem: seq<byte>, at: nat, data: seq<byte>): (r: seq<byte>)
    requires at + |data| <= |mem|
    ensures |r| == |mem|
    ensures forall i :: 0 <= i < |mem| ==> r[i] == if at <= i < at + |data| then data[i - at] else mem[i]
  {
    mem[..at] + data + mem[at + |data|..]
  }

  /** The bytes under descriptor `d` are `data`. */
  predicate Carries(mem: seq<byte>, d: Desc, data: seq<byte>) {
    d.addr + d.len <= |mem| && mem[d.addr..d.addr + d.len] == data
  }

  // ----- Places -----

  function Frames(g: Geometry, q: seq<nat>): (r: seq<nat>)
    requires g.frameSize > 0
    ensures |r| == |q| && forall i :: 0 <= i < |q| ==> r[i] == FrameOf(g, q[i])
  {
    seq(|q|, i requires 0 <= i < |q| => FrameOf(g, q[i]))
  }

  function Addrs(q: seq<Desc>): (r: seq<nat>)
    ensures |r| == |q| && forall i :: 0 <= i < |q| ==> r[i] == q[i].addr
  {
    seq(|q|, i requires 0 <= i < |q| => q[i].addr)
  }

  function PacketAddrs(q: seq<Packet>): (r: seq<nat>)
    ensures |r| == |q| && forall i :: 0 <= i < |q| ==> r[i] == q[i].desc.addr
  {
    seq(|q|, i requires 0 <= i < |q| => q[i].desc.addr)
  }

  function Drop<T>(q: seq<T>, n: nat): seq<T> {
    if n <= |q| then q[n..] else []
  }

  function Remove<T>(q: seq<T>, i: nat): seq<T>
    requires i < |q|
  {
    q[..i] + q[i + 1..]
  }

  function Bag(g: Geometry, q: seq<nat>): multiset<nat>
    requires g.frameSize > 0
  {
    multiset(Frames(g, q))
  }

  // The places a frame can be in.
  function InFill(g: Geometry, s: State): multiset<nat> requires g.frameSize > 0 { Bag(g, Drop(s.u.fillPub, s.k.fillTaken)) }
  function InKernel(g: Geometry, s: State): multiset<nat> requires g.frameSize > 0 { Bag(g, s.k.owned) }
  function InRx(g: Geometry, s: State): multiset<nat> requires g.frameSize > 0 { Bag(g, Addrs(Drop(s.k.rxPub, s.u.rxTaken))) }
  function InHeld(g: Geometry, s: State): multiset<nat> requires g.frameSize > 0 { Bag(g, PacketAddrs(s.u.held)) }
  function InFree(g: Geometry, s: State): multiset<nat> requires g.frameSize > 0 { Bag(g, s.u.free) }
  function InBuilding(g: Geometry, s: State): multiset<nat> requires g.frameSize > 0 { Bag(g, s.u.building) }
  function InTx(g: Geometry, s: State): multiset<nat> requires g.frameSize > 0 { Bag(g, Addrs(Drop(s.u.txPub, s.k.txTaken))) }
  function InDriver(g: Geometry, s: State): multiset<nat> requires g.frameSize > 0 { Bag(g, PacketAddrs(s.k.driver)) }
  function InComp(g: Geometry, s: State): multiset<nat> requires g.frameSize > 0 { Bag(g, Drop(s.k.compPub, s.u.compRead)) }

  /** The frame numbers `[lo, hi)`. */
  function Half(lo: nat, hi: nat): (r: set<nat>)
    ensures forall x :: x in r <==> lo <= x < hi
    ensures |r| == if lo <= hi then hi - lo else 0
  {
    if hi <= lo then {} else Half(lo, hi - 1) + {hi - 1}
  }

  // ----- Invariant -----

  predicate Indices(s: State) {
    && s.k.fillTaken <= |s.u.fillPub| && |s.u.fillStaged| <= |s.u.held|
    && s.u.rxTaken <= |s.k.rxPub| == |s.k.rxData|
    && s.k.txTaken <= |s.u.txPub| == |s.u.txData| && |s.u.txStaged| <= |s.u.building|
    && s.u.compTaken <= s.u.compRead <= |s.k.compPub|
    && s.u.compRead - s.u.compTaken <= |s.u.free|
  }

  /** Every frame of the RX half is in exactly one of FILL, the kernel, RX, or the user's hands. */
  predicate RxConserved(g: Geometry, s: State) requires g.frameSize > 0 {
    InFill(g, s) + InKernel(g, s) + InRx(g, s) + InHeld(g, s) == multiset(Half(0, g.fillFrames))
  }

  /** Every frame of the TX half is in exactly one of the pool, a builder's hands, TX, the driver, COMP. */
  predicate TxConserved(g: Geometry, s: State) requires g.frameSize > 0 {
    InFree(g, s) + InBuilding(g, s) + InTx(g, s) + InDriver(g, s) + InComp(g, s)
    == multiset(Half(g.fillFrames, g.frames))
  }

  /** FILL addresses and the pool are frame bases; descriptors stay inside one frame. */
  predicate Shapes(g: Geometry, s: State) requires g.frameSize > 0 {
    && (forall i :: 0 <= i < |s.u.fillPub| ==> Aligned(g, s.u.fillPub[i]))
    && (forall i :: 0 <= i < |s.u.free| ==> Aligned(g, s.u.free[i]))
    && (forall i :: 0 <= i < |s.u.building| ==> Aligned(g, s.u.building[i]))
    && (forall i :: s.u.rxTaken <= i < |s.k.rxPub| ==> InFrame(g, s.k.rxPub[i].addr, s.k.rxPub[i].len))
    && (forall i :: 0 <= i < |s.u.held| ==> InFrame(g, s.u.held[i].desc.addr, s.u.held[i].desc.len))
    && (forall i :: s.k.txTaken <= i < |s.u.txPub| ==> InFrame(g, s.u.txPub[i].addr, s.u.txPub[i].len))
    && (forall i :: 0 <= i < |s.k.driver| ==> InFrame(g, s.k.driver[i].desc.addr, s.k.driver[i].desc.len))
  }

  /** Nothing published is overwritten: under every descriptor still in flight lie the bytes it was
      published with, and everything the driver ever read was a published frame. */
  predicate Integrity(s: State)
    requires Indices(s)
  {
    && (forall i :: s.u.rxTaken <= i < |s.k.rxPub| ==> Carries(s.mem, s.k.rxPub[i], s.k.rxData[i]))
    && (forall i :: 0 <= i < |s.u.held| ==> Carries(s.mem, s.u.held[i].desc, s.u.held[i].data))
    && (forall i :: s.k.txTaken <= i < |s.u.txPub| ==> Carries(s.mem, s.u.txPub[i], s.u.txData[i]))
    && (forall i :: 0 <= i < |s.k.driver| ==> Carries(s.mem, s.k.driver[i].desc, s.k.driver[i].data))
  }

  predicate IsRxPacket(s: State, p: Packet) {
    p.no < s.u.rxTaken <= |s.k.rxPub| <= |s.k.rxData| && s.k.rxPub[p.no] == p.desc && s.k.rxData[p.no] == p.data
  }

  predicate IsTxPacket(s: State, p: Packet) {
    p.no < s.k.txTaken <= |s.u.txPub| <= |s.u.txData| && s.u.txPub[p.no] == p.desc && s.u.txData[p.no] == p.data
  }

  /** What is held, being transmitted or on the wire are entries of the RX and TX histories. */
  predicate Histories(s: State) {
    && (forall i :: 0 <= i < |s.u.held| ==> IsRxPacket(s, s.u.held[i]))
    && (forall i :: 0 <= i < |s.k.driver| ==> IsTxPacket(s, s.k.driver[i]))
    && (forall i :: 0 <= i < |s.k.wire| ==> IsTxPacket(s, s.k.wire[i]))
  }

  /** Each kick is paid for by a submission, and an idle socket owes no need-wakeup check. */
  predicate Kicks(u: User) {
    && u.kicks + (if u.pending then 1 else 0) <= |u.txPub|
    && u.checked <= |u.txPub|
    && (!u.pending ==> u.checked == |u.txPub|)
  }

  predicate Inv(g: Geometry, s: State) requires g.frameSize > 0 {
    && |s.mem| == UmemLen(g)
    && Indices(s) && RxConserved(g, s) && TxConserved(g, s)
    && Shapes(g, s) && Integrity(s) && Histories(s) && Kicks(s.u)
  }

  // ----- Transitions -----

  datatype Label =
    // the kernel
    | KTakeFill                                       // take an address from FILL
    | KWrite(j: nat, at: nat, data: seq<byte>)        // write inside the j-th frame it owns
    | KDeliver(j: nat, at: nat, len: nat)             // publish bytes of that frame to RX
    | KTakeTx                                         // take a descriptor from TX
    | KTransmit(j: nat)                               // read the j-th frame being transmitted
    | KComplete(j: nat, addr: nat)                    // complete it to COMP, in any order
    // the user
    | UStageFill(addr: nat)                           // write a FILL slot
    | UPublishFill(j: nat)                            // store the FILL producer, giving up held[j]
    | UTakeRx                                         // store the RX consumer
    | UReadComp                                       // read a COMP slot into the pool
    | UReleaseComp                                    // store the COMP consumer
    | UPop                                            // pop the pool
    | UWrite(j: nat, at: nat, data: seq<byte>)        // write inside building[j]
    | UStageTx(j: nat, len: nat)                      // write a TX slot for building[j]
    | UPublishTx(j: nat)                              // store the TX producer
    | UCheckWakeup(kick: bool)                        // test need-wakeup, and kick if it was set

  predicate IsKernel(l: Label) {
    l.KTakeFill? || l.KWrite? || l.KDeliver? || l.KTakeTx? || l.KTransmit? || l.KComplete?
  }

  predicate WriteInside(g: Geometry, s: State, base: nat, at: nat, len: nat)
    requires g.frameSize > 0
  {
    FrameOf(g, at) == FrameOf(g, base) && InFrame(g, at, len) && at + len <= |s.mem|
  }

  predicate Enabled(g: Geometry, s: State, l: Label) requires g.frameSize > 0 {
    var u, k := s.u, s.k;
    match l
    case KTakeFill => k.fillTaken < |u.fillPub|
    case KWrite(j, at, data) => j < |k.owned| && WriteInside(g, s, k.owned[j], at, |data|)
    case KDeliver(j, at, len) => j < |k.owned| && WriteInside(g, s, k.owned[j], at, len)
    case KTakeTx => k.txTaken < |u.txPub| && k.txTaken < |u.txData|
    case KTransmit(j) => j < |k.driver| && k.driver[j].desc.addr + k.driver[j].desc.len <= |s.mem|
    case KComplete(j, addr) => j < |k.driver| && FrameOf(g, addr) == FrameOf(g, k.driver[j].desc.addr)
    case UStageFill(addr) => Aligned(g, addr) && |u.fillStaged| < |u.held|
    case UPublishFill(j) => |u.fillStaged| == 1 && Aligned(g, u.fillStaged[0]) && j < |u.held|
      && FrameOf(g, u.fillStaged[0]) == FrameOf(g, u.held[j].desc.addr)
    case UTakeRx => u.rxTaken < |k.rxPub| && u.rxTaken < |k.rxData|
    case UReadComp => u.compRead < |k.compPub|
    case UReleaseComp => true
    case UPop => u.free != [] && u.compTaken == u.compRead
    case UWrite(j, at, data) => j < |u.building| && u.txStaged == [] && WriteInside(g, s, u.building[j], at, |data|)
    case UStageTx(j, len) => j < |u.building| && u.txStaged == [] && len <= g.frameSize
    case UPublishTx(j) => |u.txStaged| == 1 && j < |u.building| && u.txStaged[0].addr == u.building[j]
      && u.txStaged[0].len <= g.frameSize && u.building[j] + u.txStaged[0].len <= |s.mem|
    case UCheckWakeup(kick) => u.pending
  }

  function Apply(g: Geometry, s: State, l: Label): State
    requires g.frameSize > 0 && Enabled(g, s, l)
  {
    var u, k := s.u, s.k;
    match l
    case KTakeFill => s.(k := k.(fillTaken := k.fillTaken + 1, owned := k.owned + [u.fillPub[k.fillTaken]]))
    case KWrite(j, at, data) => s.(mem := Splice(s.mem, at, data))
    case KDeliver(j, at, len) =>
      s.(k := k.(owned := Remove(k.owned, j), rxPub := k.rxPub + [Desc(at, len)], rxData := k.rxData + [s.mem[at..at + len]]))
    case KTakeTx =>
      var p := Packet(k.txTaken, u.txPub[k.txTaken], u.txData[k.txTaken]);
      s.(k := k.(txTaken := k.txTaken + 1, driver := k.driver + [p]))
    case KTransmit(j) =>
      var p := k.driver[j];
      s.(k := k.(wire := k.wire + [p.(data := s.mem[p.desc.addr..p.desc.addr + p.desc.len])]))
    case KComplete(j, addr) => s.(k := k.(driver := Remove(k.driver, j), compPub := k.compPub + [addr]))
    case UStageFill(addr) => s.(u := u.(fillStaged := u.fillStaged + [addr]))
    case UPublishFill(j) => s.(u := u.(fillPub := u.fillPub + u.fillStaged, fillStaged := [], held := Remove(u.held, j)))
    case UTakeRx =>
      var p := Packet(u.rxTaken, k.rxPub[u.rxTaken], k.rxData[u.rxTaken]);
      s.(u := u.(rxTaken := u.rxTaken + 1, held := u.held + [p]))
    case UReadComp => s.(u := u.(compRead := u.compRead + 1, free := u.free + [Base(g, k.compPub[u.compRead])]))
    case UReleaseComp => s.(u := u.(compTaken := u.compRead))
    case UPop =>
      var n := |u.free| - 1;
      s.(u := u.(free := u.free[..n], building := u.building + [u.free[n]]))
    case UWrite(j, at, data) => s.(mem := Splice(s.mem, at, data))
    case UStageTx(j, len) => s.(u := u.(txStaged := [Desc(u.building[j], len)]))
    case UPublishTx(j) =>
      var d := u.txStaged[0];
      s.(u := u.(txPub := u.txPub + [d], txData := u.txData + [s.mem[d.addr..d.addr + d.len]], txStaged := [],
                 building := Remove(u.building, j), pending := true))
    case UCheckWakeup(kick) => s.(u := u.(pending := false, checked := |u.txPub|, kicks := u.kicks + if kick then 1 else 0))
  }
}
