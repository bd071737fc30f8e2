/** Whole runs: the state the socket starts in, every interleaving of user and kernel actions from it,
    and what holds in every state such a run reaches. */
module Runs {
  import opened Words
  import opened Machine
  import opened Conservation

  // ----- The initial state -----

  function BaseOf(g: Geometry, n: nat): nat {
    n * g.frameSize
  }

  /** The bases of frames `[lo, hi)`. */
  function Bases(g: Geometry, lo: nat, hi: nat): (q: seq<nat>)
    requires lo <= hi
    ensures |q| == hi - lo && forall i :: 0 <= i < hi - lo ==> q[i] == BaseOf(g, lo + i)
  {
    seq<nat>(hi - lo, i requires 0 <= i < hi - lo => BaseOf(g, lo + i))
  }

  /** All RX frames in FILL, all TX frames in the pool, nothing else anywhere. */
  function Init(g: Geometry, mem: seq<byte>): State
    requires g.fillFrames <= g.frames
  {
    State(User(Bases(g, 0, g.fillFrames), [], 0, [], [], [], [], 0, 0, Bases(g, g.fillFrames, g.frames), [], false, 0, 0),
          Kern(0, [], [], [], 0, [], [], []), mem)
  }

  lemma BasesNext(g: Geometry, lo: nat, i: nat)
    requires lo <= i
    ensures Bases(g, lo, lo) == []
    ensures Bases(g, lo, i + 1) == Bases(g, lo, i) + [BaseOf(g, i)]
  {
  }

  lemma FrameOfBase(g: Geometry, n: nat)
    requires g.frameSize > 0
    ensures FrameOf(g, BaseOf(g, n)) == n && Aligned(g, BaseOf(g, n))
  {
    FrameArithmetic(g, BaseOf(g, n));
    ModUnique(BaseOf(g, n), g.frameSize, n, 0);
  }

  lemma BasesAligned(g: Geometry, lo: nat, hi: nat)
    requires g.frameSize > 0 && lo <= hi
    ensures forall i :: 0 <= i < hi - lo ==> Aligned(g, Bases(g, lo, hi)[i])
  {
    forall i | 0 <= i < hi - lo ensures Aligned(g, Bases(g, lo, hi)[i]) {
      FrameOfBase(g, lo + i);
    }
  }

  lemma HalfNext(lo: nat, n: nat)
    requires lo <= n
    ensures multiset(Half(lo, n + 1)) == multiset(Half(lo, n)) + multiset{n}
  {
    var h, h' := Half(lo, n), Half(lo, n + 1);
    assert h' == h + {n} && n !in h;
  }

  lemma {:induction false} BagOfBases(g: Geometry, lo: nat, hi: nat)
    requires g.frameSize > 0 && lo <= hi
    ensures Bag(g, Bases(g, lo, hi)) == multiset(Half(lo, hi))
    decreases hi
  {
    hide FrameOf, Base, BaseOf, Bag, Half;
    if lo < hi {
      var n: nat := hi - 1;
      BagOfBases(g, lo, n);
      FrameOfBase(g, n);
      BasesNext(g, lo, n);
      BagAppend(g, Bases(g, lo, n), BaseOf(g, n));
      HalfNext(lo, n);
    } else {
      NoBases(g, lo);
    }
  }

  lemma NoBases(g: Geometry, lo: nat)
    requires g.frameSize > 0
    ensures Bag(g, Bases(g, lo, lo)) == multiset{} && multiset(Half(lo, lo)) == multiset{}
  {
  }

  lemma InitInv(g: Geometry, mem: seq<byte>)
    requires g.frameSize > 0 && g.fillFrames <= g.frames && |mem| == UmemLen(g)
    ensures Inv(g, Init(g, mem))
  {
    BagOfBases(g, 0, g.fillFrames);
    BagOfBases(g, g.fillFrames, g.frames);
    BasesAligned(g, 0, g.fillFrames);
    BasesAligned(g, g.fillFrames, g.frames);
    var s := Init(g, mem);
    assert Drop(s.u.fillPub, 0) == s.u.fillPub;
  }

  // ----- Runs -----

  ghost predicate Run(g: Geometry, s: State, ls: seq<Label>, t: State)
    requires g.frameSize > 0
    decreases |ls|
  {
    if ls == [] then s == t else Enabled(g, s, ls[0]) && Run(g, Apply(g, s, ls[0]), ls[1..], t)
  }

  ghost predicate Reachable(g: Geometry, t: State)
    requires g.frameSize > 0 && g.fillFrames <= g.frames
  {
    exists mem, ls :: |mem| == UmemLen(g) && Run(g, Init(g, mem), ls, t)
  }

  lemma {:induction false} RunKeepsInv(g: Geometry, s: State, ls: seq<Label>, t: State)
    requires g.frameSize > 0 && Inv(g, s) && Run(g, s, ls, t)
    ensures Inv(g, t)
    decreases |ls|
  {
    if ls != [] {
      StepKeepsInv(g, s, ls[0]);
      RunKeepsInv(g, Apply(g, s, ls[0]), ls[1..], t);
    }
  }

  lemma ReachableInv(g: Geometry, t: State)
    requires g.frameSize > 0 && g.fillFrames <= g.frames && Reachable(g, t)
    ensures Inv(g, t)
  {
    var mem, ls :| |mem| == UmemLen(g) && Run(g, Init(g, mem), ls, t);
    InitInv(g, mem);
    RunKeepsInv(g, Init(g, mem), ls, t);
  }

  // ----- What holds in every reachable state -----

  /** In how many places of each half's circuit frame `f` is. */
  function RxPlaces(g: Geometry, s: State, f: nat): nat requires g.frameSize > 0 {
    InFill(g, s)[f] + InKernel(g, s)[f] + InRx(g, s)[f] + InHeld(g, s)[f]
  }

  function TxPlaces(g: Geometry, s: State, f: nat): nat requires g.frameSize > 0 {
    InFree(g, s)[f] + InBuilding(g, s)[f] + InTx(g, s)[f] + InDriver(g, s)[f] + InComp(g, s)[f]
  }

  /** Frame conservation: every frame is in exactly one place, and the halves never mix. */
  lemma OnePlace(g: Geometry, s: State, f: nat)
    requires g.frameSize > 0 && Inv(g, s)
    ensures RxPlaces(g, s, f) == if f < g.fillFrames then 1 else 0
    ensures TxPlaces(g, s, f) == if g.fillFrames <= f < g.frames then 1 else 0
  {
    assert (InFill(g, s) + InKernel(g, s) + InRx(g, s) + InHeld(g, s))[f] == multiset(Half(0, g.fillFrames))[f];
    assert (InFree(g, s) + InBuilding(g, s) + InTx(g, s) + InDriver(g, s) + InComp(g, s))[f]
        == multiset(Half(g.fillFrames, g.frames))[f];
  }

  /** How many frames of each half are where. */
  lemma Counts(g: Geometry, s: State)
    requires g.frameSize > 0 && g.fillFrames <= g.frames && Inv(g, s)
    ensures |s.u.fillPub| - s.k.fillTaken + |s.k.owned| + (|s.k.rxPub| - s.u.rxTaken) + |s.u.held| == g.fillFrames
    ensures |s.u.free| + |s.u.building| + (|s.u.txPub| - s.k.txTaken) + |s.k.driver| + (|s.k.compPub| - s.u.compRead)
            == g.frames - g.fillFrames
  {
    assert |InFill(g, s) + InKernel(g, s) + InRx(g, s) + InHeld(g, s)| == |multiset(Half(0, g.fillFrames))|;
    assert |InFree(g, s) + InBuilding(g, s) + InTx(g, s) + InDriver(g, s) + InComp(g, s)|
        == |multiset(Half(g.fillFrames, g.frames))|;
    BagSize(g, Drop(s.u.fillPub, s.k.fillTaken));
    BagSize(g, s.k.owned);
    BagSize(g, Addrs(Drop(s.k.rxPub, s.u.rxTaken)));
    BagSize(g, PacketAddrs(s.u.held));
    BagSize(g, s.u.free);
    BagSize(g, s.u.building);
    BagSize(g, Addrs(Drop(s.u.txPub, s.k.txTaken)));
    BagSize(g, PacketAddrs(s.k.driver));
    BagSize(g, Drop(s.k.compPub, s.u.compRead));
  }

  /** Unchecked publishes are safe: no ring ever holds more entries than slots, counting slots written
      but not yet published, although no action of `Machine` tests for room. A FILL or TX slot about to
      be written is free, and so is the RX or COMP slot the kernel is about to write. */
  lemma RingsNeverOverrun(g: Geometry, s: State)
    requires Good(g) && g.frameSize > 0 && Inv(g, s)
    ensures |s.u.fillPub| - s.k.fillTaken + |s.u.fillStaged| <= g.fillSize
    ensures |s.k.rxPub| - s.u.rxTaken <= g.rxSize
    ensures |s.u.txPub| - s.k.txTaken + |s.u.txStaged| <= g.txSize
    ensures |s.k.compPub| - s.u.compTaken <= g.compSize
    ensures |s.u.fillStaged| < |s.u.held| ==> |s.u.fillPub| - s.k.fillTaken + |s.u.fillStaged| < g.fillSize
    ensures |s.u.txStaged| < |s.u.building| ==> |s.u.txPub| - s.k.txTaken + |s.u.txStaged| < g.txSize
    ensures s.k.owned != [] ==> |s.k.rxPub| - s.u.rxTaken < g.rxSize
    ensures s.k.driver != [] ==> |s.k.compPub| - s.u.compTaken < g.compSize
  {
    Counts(g, s);
  }

  /** Safety over whole runs: under every interleaving of user and kernel actions, each frame stays in
      exactly one place of its own half, no ring holds more entries than slots, and everything the
      driver ever read and everything the user holds is what the other side published; and while no kick
      is owed, every submission was followed by a need-wakeup check. */
  lemma EveryRunIsSafe(g: Geometry, t: State)
    requires Good(g) && g.frameSize > 0 && Reachable(g, t)
    ensures forall f: nat :: RxPlaces(g, t, f) == if f < g.fillFrames then 1 else 0
    ensures forall f: nat :: TxPlaces(g, t, f) == if g.fillFrames <= f < g.frames then 1 else 0
    ensures |t.u.fillPub| - t.k.fillTaken <= g.fillSize && |t.k.rxPub| - t.u.rxTaken <= g.rxSize
    ensures |t.u.txPub| - t.k.txTaken <= g.txSize && |t.k.compPub| - t.u.compTaken <= g.compSize
    ensures Histories(t)
    ensures forall i :: 0 <= i < |t.u.held| ==> Carries(t.mem, t.u.held[i].desc, t.u.held[i].data)
    ensures t.u.kicks <= |t.u.txPub| && |t.u.free| <= g.frames - g.fillFrames
    ensures !t.u.pending ==> t.u.checked == |t.u.txPub|
  {
    ReachableInv(g, t);
    Counts(g, t);
    RingsNeverOverrun(g, t);
    forall f: nat
      ensures RxPlaces(g, t, f) == if f < g.fillFrames then 1 else 0
      ensures TxPlaces(g, t, f) == if g.fillFrames <= f < g.frames then 1 else 0
    {
      OnePlace(g, t, f);
    }
  }

  /** The pool is empty and every completion has been read. */
  predicate Exhausted(s: State) {
    s.u.free == [] && s.u.compRead == |s.k.compPub|
  }

  /** Then every TX frame is being built, in the TX ring or in the driver; with none being built, the
      kernel holds them all. */
  lemma PoolExhausted(g: Geometry, s: State)
    requires g.frameSize > 0 && Inv(g, s) && Exhausted(s)
    ensures InBuilding(g, s) + InTx(g, s) + InDriver(g, s) == multiset(Half(g.fillFrames, g.frames))
    ensures s.u.building == [] ==> InTx(g, s) + InDriver(g, s) == multiset(Half(g.fillFrames, g.frames))
  {
    assert InFree(g, s) == multiset{} && InComp(g, s) == multiset{};
  }

  /** The frame bases of completed addresses. */
  function BasesOf(g: Geometry, q: seq<nat>): (r: seq<nat>)
    requires g.frameSize > 0
    ensures |r| == |q| && forall i :: 0 <= i < |q| ==> r[i] == Base(g, q[i])
  {
    seq<nat>(|q|, i requires 0 <= i < |q| => Base(g, q[i]))
  }

  /** Whether the pool has a frame when `completed` is all that ever reached COMP. */
  predicate PoolHasFrame(u: User, completed: seq<nat>) {
    u.compRead <= |completed| && (u.free != [] || u.compRead < |completed|)
  }

  /** The user's part after looking for a frame: an empty pool takes in what `completed` has beyond what was
      read, in order, by frame base; a pool with frames stays as it is. */
  function Refilled(g: Geometry, u: User, completed: seq<nat>): User
    requires g.frameSize > 0 && u.compRead <= |completed|
  {
    if u.free != [] then u
    else u.(compTaken := |completed|, compRead := |completed|, free := BasesOf(g, completed[u.compRead..]))
  }

  lemma RefillTouches(g: Geometry, u: User, completed: seq<nat>)
    requires g.frameSize > 0 && u.compRead <= |completed|
    ensures
      var v := Refilled(g, u, completed);
      v == u.(compTaken := v.compTaken, compRead := v.compRead, free := v.free)
  {
  }

  /** And after it took the last frame of the pool to build in. */
  function Allocated(g: Geometry, u: User, completed: seq<nat>): (r: User)
    requires g.frameSize > 0 && PoolHasFrame(u, completed)
    ensures |r.building| == |u.building| + 1
  {
    var v := Refilled(g, u, completed);
    var n := |v.free| - 1;
    v.(free := v.free[..n], building := v.building + [v.free[n]])
  }

  /** The user's part after it allocated a frame and submitted `data` in it. */
  function Submitted(g: Geometry, u: User, completed: seq<nat>, data: seq<byte>): User
    requires g.frameSize > 0 && PoolHasFrame(u, completed)
  {
    var v := Allocated(g, u, completed);
    v.(building := u.building, txPub := u.txPub + [Desc(v.building[|u.building|], |data|)], txData := u.txData + [data],
       pending := true)
  }

  /** A refill from `s` comes back empty exactly when the pool is exhausted in `s`, and then it changed
      nothing; otherwise popping what it left is the allocation. */
  lemma RefillThenPop(g: Geometry, s: State, m: State)
    requires g.frameSize > 0 && Inv(g, s) && s.u.compTaken == s.u.compRead
    requires s.u.compRead <= |s.k.compPub| && m.u == Refilled(g, s.u, s.k.compPub)
    ensures m.u.free == [] <==> Exhausted(s)
    ensures m.u.free == [] ==> m.u == s.u
    ensures m.u.free != [] ==>
      && PoolHasFrame(s.u, s.k.compPub) && Enabled(g, m, UPop)
      && Apply(g, m, UPop).u == Allocated(g, s.u, s.k.compPub)
  {
    hide Inv;
  }

  /** Addresses the socket handles stay below the end of the UMEM. */
  lemma InsideUmem(g: Geometry, at: nat, len: nat)
    requires g.frameSize > 0 && InFrame(g, at, len) && FrameOf(g, at) < g.frames
    ensures at + len <= UmemLen(g)
  {
    FrameArithmetic(g, at);
    var d := g.frames - FrameOf(g, at);
    StepsApart(d, g.frameSize);
    assert d * g.frameSize == UmemLen(g) - Base(g, at);
  }

  /** The address `fill_frames` computes from the producer index. */
  function FillAddr(index: nat, frameSize: nat, umemLen: nat): nat
    requires umemLen > 0
  {
    (index * frameSize) % umemLen
  }

  lemma FillAddrIsBase(g: Geometry, n: nat)
    requires g.frameSize > 0 && n < g.frames
    ensures UmemLen(g) > 0 && FillAddr(n, g.frameSize, UmemLen(g)) == BaseOf(g, n)
  {
    StepsApart(g.frames - n, g.frameSize);
    assert (g.frames - n) * g.frameSize == UmemLen(g) - BaseOf(g, n);
    ModUnique(BaseOf(g, n), UmemLen(g), 0, BaseOf(g, n));
  }

  lemma UmemLenBound(g: Geometry)
    requires Good(g)
    ensures UmemLen(g) <= 0x4000_0000_0000_0000
  {
    hide IsPow2, RingSize;
    MulBound(g.frames, g.frameSize, 0x8000_0000);
  }

  /** `addr & !(frame_size - 1)` over 64 bits. */
  function FrameBase(g: Geometry, addr: nat): nat
    requires 0 < g.frameSize <= WORD64
  {
    And(addr, WORD64 - 1 - (g.frameSize - 1))
  }

  lemma FrameBaseIsBase(g: Geometry, addr: nat)
    requires Good(g) && g.frameSize > 0 && addr < WORD64
    ensures FrameBase(g, addr) == Base(g, addr)
  {
    var k: nat :| g.frameSize == Pow2(k);
    Word64IsPow2();
    if k > 64 {
      Pow2Mono(65, k);
      assert false;
    }
    AndHighMask(addr, 64, k);
    FrameArithmetic(g, addr);
  }

  /** Frames in COMP and in the user's hands are frames of the UMEM, so their addresses fit 64 bits. */
  lemma HandledAddresses(g: Geometry, s: State)
    requires Good(g) && g.frameSize > 0 && Inv(g, s)
    ensures forall i :: s.u.compRead <= i < |s.k.compPub| ==> s.k.compPub[i] < WORD64
    ensures forall i :: 0 <= i < |s.u.held| ==> s.u.held[i].desc.addr < WORD64
    ensures forall i :: 0 <= i < |s.u.building| ==> s.u.building[i] + g.frameSize <= |s.mem| && Split(g) <= s.u.building[i]
  {
    UmemLenBound(g);
    forall i | s.u.compRead <= i < |s.k.compPub| ensures s.k.compPub[i] < WORD64 {
      var f := FrameOf(g, s.k.compPub[i]);
      BagMember(g, Drop(s.k.compPub, s.u.compRead), i - s.u.compRead);
      OnePlace(g, s, f);
      InsideUmem(g, s.k.compPub[i], 0);
    }
    forall i | 0 <= i < |s.u.held| ensures s.u.held[i].desc.addr < WORD64 {
      var f := FrameOf(g, s.u.held[i].desc.addr);
      PacketMember(g, s.u.held, i);
      OnePlace(g, s, f);
      InsideUmem(g, s.u.held[i].desc.addr, 0);
    }
    forall i | 0 <= i < |s.u.building| ensures s.u.building[i] + g.frameSize <= |s.mem| && Split(g) <= s.u.building[i] {
      BuildingUntracked(g, s, i);
      InsideUmem(g, s.u.building[i], g.frameSize);
      AboveSplit(g, s.u.building[i]);
    }
  }

  /** The address of a packet in hand fits 64 bits and masks to the base of its frame. */
  lemma HeldBase(g: Geometry, s: State, j: nat)
    requires Good(g) && g.frameSize > 0 && Inv(g, s) && j < |s.u.held|
    ensures
      var addr := s.u.held[j].desc.addr;
      && FrameBase(g, addr) == Base(g, addr)
      && Aligned(g, Base(g, addr)) && FrameOf(g, Base(g, addr)) == FrameOf(g, addr)
  {
    hide Inv, FrameOf, Base;
    HandledAddresses(g, s);
    FrameBaseIsBase(g, s.u.held[j].desc.addr);
    BaseFrame(g, s.u.held[j].desc.addr);
  }

  lemma AboveSplit(g: Geometry, at: nat)
    requires g.frameSize > 0 && FrameOf(g, at) >= g.fillFrames
    ensures Split(g) <= at
  {
    FrameArithmetic(g, at);
    var d := FrameOf(g, at) - g.fillFrames;
    assert d * g.frameSize >= 0;
    assert d * g.frameSize == Base(g, at) - Split(g);
  }

  // ----- What the kernel may do between two user actions -----

  /** The kernel's indices and histories only advance. */
  ghost predicate Advanced(s: State, t: State) {
    && s.k.fillTaken <= t.k.fillTaken && s.k.txTaken <= t.k.txTaken
    && s.k.rxPub <= t.k.rxPub && s.k.rxData <= t.k.rxData && s.k.compPub <= t.k.compPub && s.k.wire <= t.k.wire
    && |t.mem| == |s.mem|
  }

  /** What the model lets the kernel do, in plain arithmetic: take whatever FILL or TX holds; write to, or deliver,
      any range of bytes inside a frame it owns; read any frame being transmitted, and complete any of them, in
      any order, by any address inside it. */
  lemma KernelMay(g: Geometry, s: State, j: nat, at: nat, data: seq<byte>)
    requires g.frameSize > 0 && g.fillFrames <= g.frames && Inv(g, s)
    ensures s.k.fillTaken < |s.u.fillPub| ==> Enabled(g, s, KTakeFill)
    ensures s.k.txTaken < |s.u.txPub| ==> Enabled(g, s, KTakeTx)
    ensures j < |s.k.owned| && at / g.frameSize == s.k.owned[j] / g.frameSize && at % g.frameSize + |data| <= g.frameSize ==>
      Enabled(g, s, KWrite(j, at, data)) && Enabled(g, s, KDeliver(j, at, |data|))
    ensures j < |s.k.driver| ==> Enabled(g, s, KTransmit(j))
    ensures j < |s.k.driver| && at / g.frameSize == s.k.driver[j].desc.addr / g.frameSize ==> Enabled(g, s, KComplete(j, at))
  {
    hide FrameOf, Base, RxConserved, TxConserved, Histories, Kicks;
    FrameArithmetic(g, at);
    if j < |s.k.owned| && at / g.frameSize == s.k.owned[j] / g.frameSize && at % g.frameSize + |data| <= g.frameSize {
      FrameArithmetic(g, s.k.owned[j]);
      KernelFrameUntracked(g, s, j);
      InsideUmem(g, at, |data|);
    }
    if j < |s.k.driver| {
      FrameArithmetic(g, s.k.driver[j].desc.addr);
    }
  }

  /** `t` is `s` after any number of kernel actions, as far as the user can rely on it: its own part is
      untouched, the kernel's only advanced, and no byte of the TX half changed. (Bytes of received
      frames are covered by `Integrity`.) */
  ghost predicate Rely(g: Geometry, s: State, t: State) {
    && t.u == s.u && Advanced(s, t)
    && forall i :: Split(g) <= i < |s.mem| ==> t.mem[i] == s.mem[i]
  }

  lemma AdvancedTransitive(s: State, t: State, v: State)
    requires Advanced(s, t) && Advanced(t, v)
    ensures Advanced(s, v)
  {
  }

  lemma RelyTransitive(g: Geometry, s: State, t: State, v: State)
    requires Rely(g, s, t) && Rely(g, t, v)
    ensures Rely(g, s, v)
  {
    forall i | Split(g) <= i < |s.mem| ensures v.mem[i] == s.mem[i] {
      assert t.mem[i] == s.mem[i];
    }
  }

  /** A published TX descriptor can be taken, and carries its bytes. */
  lemma TxReady(g: Geometry, s: State)
    requires g.frameSize > 0 && Inv(g, s) && s.k.txTaken < |s.u.txPub|
    ensures Enabled(g, s, KTakeTx) && Carries(s.mem, s.u.txPub[s.k.txTaken], s.u.txData[s.k.txTaken])
  {
  }

  /** Frames to be had stay to be had while only the kernel runs. */
  lemma RelyGrows(g: Geometry, s: State, t: State)
    requires Rely(g, s, t) && (s.u.free != [] || s.u.compRead < |s.k.compPub|)
    ensures !Exhausted(t)
  {
  }

  /** What the consumer of RX learns from the rely condition. */
  lemma RelyRx(g: Geometry, s: State, t: State)
    requires g.frameSize > 0 && Rely(g, s, t) && Inv(g, s) && Inv(g, t)
    ensures s.k.rxPub <= t.k.rxPub && s.k.rxData <= t.k.rxData
    ensures s.u.rxTaken <= |s.k.rxPub| == |s.k.rxData| && |t.k.rxPub| == |t.k.rxData|
    ensures s.u.rxTaken < |t.k.rxPub| ==> Enabled(g, t, UTakeRx)
  {
  }

  /** What the consumer of COMP learns from the rely condition. */
  lemma RelyComp(g: Geometry, s: State, t: State)
    requires g.frameSize > 0 && Rely(g, s, t) && Inv(g, s) && Inv(g, t)
    ensures s.k.compPub <= t.k.compPub && t.u == s.u
    ensures s.u.compTaken <= s.u.compRead <= |s.k.compPub|
    ensures t.u.compRead < |t.k.compPub| ==> Enabled(g, t, UReadComp)
  {
  }

  /** The kernel leaves the bytes of the TX half alone. */
  lemma RelyTxBytes(g: Geometry, s: State, t: State, at: nat, len: nat)
    requires Rely(g, s, t) && Split(g) <= at && at + len <= |s.mem|
    ensures |t.mem| == |s.mem| && t.mem[at..at + len] == s.mem[at..at + len]
  {
  }

  lemma RelySelf(g: Geometry, s: State)
    ensures Rely(g, s, s) && Advanced(s, s)
  {
  }

  /** A user action leaves the kernel's part alone. */
  lemma SamePart(s: State, t: State, v: State)
    requires Advanced(s, t) && v.k == t.k && |v.mem| == |t.mem|
    ensures Advanced(s, v)
  {
  }

  lemma CanBuildAt(g: Geometry, s: State, addr: nat, off: nat, len: nat)
    requires Good(g) && g.frameSize > 0 && Inv(g, s) && s.u.building == [addr] && s.u.txStaged == [] && off + len <= g.frameSize
    requires off < g.frameSize
    ensures WriteInside(g, s, addr, addr + off, len)
  {
    CanBuild(g, s, addr, g.frameSize);
    SameFrame(g, addr, off);
  }

  lemma {:induction false} SameFrame(g: Geometry, addr: nat, off: nat)
    requires g.frameSize > 0 && Aligned(g, addr) && off < g.frameSize
    ensures FrameOf(g, addr + off) == FrameOf(g, addr) && Base(g, addr + off) == addr
  {
    if addr >= g.frameSize {
      SameFrame(g, addr - g.frameSize, off);
    }
  }

  /** Under a packet in hand lie the bytes the kernel published it with. */
  lemma HeldBytes(g: Geometry, s: State, j: nat)
    requires g.frameSize > 0 && Inv(g, s) && j < |s.u.held|
    ensures Carries(s.mem, s.u.held[j].desc, s.u.held[j].data)
  {
  }

  /** The kick discipline: an idle socket owes no need-wakeup check, and kicks never outnumber submissions. */
  lemma KickDiscipline(g: Geometry, s: State)
    requires g.frameSize > 0 && Inv(g, s)
    ensures !s.u.pending ==> s.u.checked == |s.u.txPub|
    ensures s.u.kicks <= |s.u.txPub|
  {
  }

  /** A freshly allocated frame can be written from its base on. */
  lemma CanBuild(g: Geometry, s: State, addr: nat, len: nat)
    requires Good(g) && g.frameSize > 0 && Inv(g, s) && s.u.building == [addr] && s.u.txStaged == [] && len <= g.frameSize
    ensures WriteInside(g, s, addr, addr, len) && Aligned(g, addr)
  {
    assert s.u.building[0] == addr;
    HandledAddresses(g, s);
  }

  lemma KernelActionRely(g: Geometry, s: State, l: Label)
    requires g.frameSize > 0 && Inv(g, s) && IsKernel(l) && Enabled(g, s, l)
    ensures Rely(g, s, Apply(g, s, l))
  {
    if l.KWrite? {
      KernelFrameUntracked(g, s, l.j);
      BelowSplit(g, l.at, |l.data|);
    }
  }

  lemma BelowSplit(g: Geometry, at: nat, len: nat)
    requires g.frameSize > 0 && InFrame(g, at, len) && FrameOf(g, at) < g.fillFrames
    ensures at + len <= Split(g)
  {
    FrameArithmetic(g, at);
    var d := g.fillFrames - FrameOf(g, at);
    StepsApart(d, g.frameSize);
    assert d * g.frameSize == Split(g) - Base(g, at);
  }
}
