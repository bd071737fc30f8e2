/** The invariant of `Machine` holds initially and is kept by every action of either side, so it holds
    in every state of every run. */
module Conservation {
  import opened Words
  import opened Machine

  // ----- Bags of frames -----

  lemma BagAppend(g: Geometry, q: seq<nat>, x: nat)
    requires g.frameSize > 0
    ensures Bag(g, q + [x]) == Bag(g, q) + multiset{FrameOf(g, x)}
  {
    assert Frames(g, q + [x]) == Frames(g, q) + [FrameOf(g, x)];
  }

  lemma BagRemove(g: Geometry, q: seq<nat>, i: nat)
    requires g.frameSize > 0 && i < |q|
    ensures Bag(g, q) == Bag(g, Remove(q, i)) + multiset{FrameOf(g, q[i])}
  {
    var f := Frames(g, q);
    assert f == f[..i] + [f[i]] + f[i + 1..];
    assert Frames(g, Remove(q, i)) == f[..i] + f[i + 1..];
  }

  lemma BagDrop(g: Geometry, q: seq<nat>, n: nat)
    requires g.frameSize > 0 && n < |q|
    ensures Bag(g, Drop(q, n)) == multiset{FrameOf(g, q[n])} + Bag(g, Drop(q, n + 1))
  {
    assert Frames(g, Drop(q, n)) == [FrameOf(g, q[n])] + Frames(g, Drop(q, n + 1));
  }

  lemma BagMember(g: Geometry, q: seq<nat>, i: nat)
    requires g.frameSize > 0 && i < |q|
    ensures FrameOf(g, q[i]) in Bag(g, q)
  {
    assert Frames(g, q)[i] == FrameOf(g, q[i]);
  }

  lemma BagSize(g: Geometry, q: seq<nat>)
    requires g.frameSize > 0
    ensures |Bag(g, q)| == |q|
  {
  }

  lemma DescAppend(g: Geometry, q: seq<Desc>, n: nat, d: Desc)
    requires g.frameSize > 0 && n <= |q|
    ensures Bag(g, Addrs(Drop(q + [d], n))) == Bag(g, Addrs(Drop(q, n))) + multiset{FrameOf(g, d.addr)}
  {
    assert Addrs(Drop(q + [d], n)) == Addrs(Drop(q, n)) + [d.addr];
    BagAppend(g, Addrs(Drop(q, n)), d.addr);
  }

  lemma DescDrop(g: Geometry, q: seq<Desc>, n: nat)
    requires g.frameSize > 0 && n < |q|
    ensures Bag(g, Addrs(Drop(q, n))) == multiset{FrameOf(g, q[n].addr)} + Bag(g, Addrs(Drop(q, n + 1)))
  {
    assert Addrs(Drop(q, n)) == Drop(Addrs(q), n) && Addrs(Drop(q, n + 1)) == Drop(Addrs(q), n + 1);
    BagDrop(g, Addrs(q), n);
  }

  lemma PacketAppend(g: Geometry, q: seq<Packet>, p: Packet)
    requires g.frameSize > 0
    ensures Bag(g, PacketAddrs(q + [p])) == Bag(g, PacketAddrs(q)) + multiset{FrameOf(g, p.desc.addr)}
  {
    assert PacketAddrs(q + [p]) == PacketAddrs(q) + [p.desc.addr];
    BagAppend(g, PacketAddrs(q), p.desc.addr);
  }

  lemma PacketRemove(g: Geometry, q: seq<Packet>, j: nat)
    requires g.frameSize > 0 && j < |q|
    ensures Bag(g, PacketAddrs(q)) == Bag(g, PacketAddrs(Remove(q, j))) + multiset{FrameOf(g, q[j].desc.addr)}
  {
    assert PacketAddrs(Remove(q, j)) == Remove(PacketAddrs(q), j);
    BagRemove(g, PacketAddrs(q), j);
  }

  /** `FrameOf` and `Base` are the quotient and the rounded-down address. */
  lemma {:induction false} FrameArithmetic(g: Geometry, a: nat)
    requires g.frameSize > 0
    ensures FrameOf(g, a) == a / g.frameSize && Base(g, a) == a - a % g.frameSize
    ensures Base(g, a) == FrameOf(g, a) * g.frameSize
  {
    if a < g.frameSize {
      ModUnique(a, g.frameSize, 0, a);
    } else {
      FrameArithmetic(g, a - g.frameSize);
      var q := FrameOf(g, a - g.frameSize);
      assert (q + 1) * g.frameSize == q * g.frameSize + g.frameSize;
      ModUnique(a, g.frameSize, q + 1, a - (q + 1) * g.frameSize);
    }
  }

  lemma {:induction false} BaseFrame(g: Geometry, a: nat)
    requires g.frameSize > 0
    ensures Aligned(g, Base(g, a)) && FrameOf(g, Base(g, a)) == FrameOf(g, a)
  {
    if a >= g.frameSize {
      BaseFrame(g, a - g.frameSize);
    }
  }

  lemma BagAppendBase(g: Geometry, q: seq<nat>, a: nat)
    requires g.frameSize > 0
    ensures Bag(g, q + [Base(g, a)]) == Bag(g, q) + multiset{FrameOf(g, a)}
  {
    BaseFrame(g, a);
    BagAppend(g, q, Base(g, a));
  }

  lemma AddrAppend(g: Geometry, q: seq<nat>, n: nat, a: nat)
    requires g.frameSize > 0 && n <= |q|
    ensures Bag(g, Drop(q + [a], n)) == Bag(g, Drop(q, n)) + multiset{FrameOf(g, a)}
  {
    assert Drop(q + [a], n) == Drop(q, n) + [a];
    BagAppend(g, Drop(q, n), a);
  }

  // ----- Each action keeps each half of the frames -----

  lemma RxTakeFill(g: Geometry, s: State)
    requires g.frameSize > 0 && Indices(s) && RxConserved(g, s) && Enabled(g, s, KTakeFill)
    ensures RxConserved(g, Apply(g, s, KTakeFill))
  {
    hide FrameOf, Base, Bag, Addrs, PacketAddrs, Drop, Remove;
    BagDrop(g, s.u.fillPub, s.k.fillTaken);
    BagAppend(g, s.k.owned, s.u.fillPub[s.k.fillTaken]);
  }

  lemma RxDeliver(g: Geometry, s: State, j: nat, at: nat, len: nat)
    requires g.frameSize > 0 && Indices(s) && RxConserved(g, s) && Enabled(g, s, KDeliver(j, at, len))
    ensures RxConserved(g, Apply(g, s, KDeliver(j, at, len)))
  {
    hide FrameOf, Base, Bag, Addrs, PacketAddrs, Drop, Remove;
    BagRemove(g, s.k.owned, j);
    DescAppend(g, s.k.rxPub, s.u.rxTaken, Desc(at, len));
  }

  lemma RxPublishFill(g: Geometry, s: State, j: nat)
    requires g.frameSize > 0 && Indices(s) && RxConserved(g, s) && Enabled(g, s, UPublishFill(j))
    ensures RxConserved(g, Apply(g, s, UPublishFill(j)))
  {
    hide FrameOf, Base, Bag, Addrs, PacketAddrs, Drop, Remove;
    var a := s.u.fillStaged[0];
    assert s.u.fillStaged == [a];
    AddrAppend(g, s.u.fillPub, s.k.fillTaken, a);
    PacketRemove(g, s.u.held, j);
  }

  lemma RxTakeRx(g: Geometry, s: State)
    requires g.frameSize > 0 && Indices(s) && RxConserved(g, s) && Enabled(g, s, UTakeRx)
    ensures RxConserved(g, Apply(g, s, UTakeRx))
  {
    hide FrameOf, Base, Bag, Addrs, PacketAddrs, Drop, Remove;
    DescDrop(g, s.k.rxPub, s.u.rxTaken);
    PacketAppend(g, s.u.held, Packet(s.u.rxTaken, s.k.rxPub[s.u.rxTaken], s.k.rxData[s.u.rxTaken]));
  }

  lemma TxTakeTx(g: Geometry, s: State)
    requires g.frameSize > 0 && Indices(s) && TxConserved(g, s) && Enabled(g, s, KTakeTx)
    ensures TxConserved(g, Apply(g, s, KTakeTx))
  {
    hide FrameOf, Base, Bag, Addrs, PacketAddrs, Drop, Remove;
    DescDrop(g, s.u.txPub, s.k.txTaken);
    PacketAppend(g, s.k.driver, Packet(s.k.txTaken, s.u.txPub[s.k.txTaken], s.u.txData[s.k.txTaken]));
  }

  lemma TxComplete(g: Geometry, s: State, j: nat, addr: nat)
    requires g.frameSize > 0 && Indices(s) && TxConserved(g, s) && Enabled(g, s, KComplete(j, addr))
    ensures TxConserved(g, Apply(g, s, KComplete(j, addr)))
  {
    hide FrameOf, Base, Bag, Addrs, PacketAddrs, Drop, Remove;
    PacketRemove(g, s.k.driver, j);
    AddrAppend(g, s.k.compPub, s.u.compRead, addr);
  }

  lemma TxReadComp(g: Geometry, s: State)
    requires g.frameSize > 0 && Indices(s) && TxConserved(g, s) && Enabled(g, s, UReadComp)
    ensures TxConserved(g, Apply(g, s, UReadComp))
  {
    hide FrameOf, Base, Bag, Addrs, PacketAddrs, Drop, Remove;
    BagDrop(g, s.k.compPub, s.u.compRead);
    BagAppendBase(g, s.u.free, s.k.compPub[s.u.compRead]);
  }

  lemma TxPop(g: Geometry, s: State)
    requires g.frameSize > 0 && Indices(s) && TxConserved(g, s) && Enabled(g, s, UPop)
    ensures TxConserved(g, Apply(g, s, UPop))
  {
    hide FrameOf, Base, Bag, Addrs, PacketAddrs, Drop, Remove;
    var n := |s.u.free| - 1;
    assert s.u.free == s.u.free[..n] + [s.u.free[n]];
    BagAppend(g, s.u.free[..n], s.u.free[n]);
    BagAppend(g, s.u.building, s.u.free[n]);
  }

  lemma TxPublishTx(g: Geometry, s: State, j: nat)
    requires g.frameSize > 0 && Indices(s) && TxConserved(g, s) && Enabled(g, s, UPublishTx(j))
    ensures TxConserved(g, Apply(g, s, UPublishTx(j)))
  {
    hide FrameOf, Base, Bag, Addrs, PacketAddrs, Drop, Remove;
    BagRemove(g, s.u.building, j);
    DescAppend(g, s.u.txPub, s.k.txTaken, s.u.txStaged[0]);
  }

  lemma KeepsRx(g: Geometry, s: State, l: Label)
    requires g.frameSize > 0 && Inv(g, s) && Enabled(g, s, l)
    ensures RxConserved(g, Apply(g, s, l))
  {
    hide Shapes, Integrity, Histories, FrameOf, Base;
    match l
    case KTakeFill => RxTakeFill(g, s);
    case KDeliver(j, at, len) => RxDeliver(g, s, j, at, len);
    case UPublishFill(j) => RxPublishFill(g, s, j);
    case UTakeRx => RxTakeRx(g, s);
    case _ =>
  }

  lemma KeepsTx(g: Geometry, s: State, l: Label)
    requires g.frameSize > 0 && Inv(g, s) && Enabled(g, s, l)
    ensures TxConserved(g, Apply(g, s, l))
  {
    hide Shapes, Integrity, Histories, FrameOf, Base;
    match l
    case KTakeTx => TxTakeTx(g, s);
    case KComplete(j, addr) => TxComplete(g, s, j, addr);
    case UReadComp => TxReadComp(g, s);
    case UPop => TxPop(g, s);
    case UPublishTx(j) => TxPublishTx(g, s, j);
    case _ =>
  }

  // ----- Each action keeps the bytes of every descriptor in flight -----

  lemma {:induction false} FramesApart(g: Geometry, a: nat, l: nat, b: nat, m: nat)
    requires g.frameSize > 0 && InFrame(g, a, l) && InFrame(g, b, m) && FrameOf(g, a) != FrameOf(g, b)
    ensures a + l <= b || b + m <= a
  {
    if a >= g.frameSize && b >= g.frameSize {
      FramesApart(g, a - g.frameSize, l, b - g.frameSize, m);
    }
  }

  lemma SpliceElsewhere(g: Geometry, mem: seq<byte>, at: nat, bytes: seq<byte>, d: Desc, data: seq<byte>)
    requires g.frameSize > 0 && at + |bytes| <= |mem| && InFrame(g, at, |bytes|) && InFrame(g, d.addr, d.len)
    requires FrameOf(g, at) != FrameOf(g, d.addr) && Carries(mem, d, data)
    ensures Carries(Splice(mem, at, bytes), d, data)
  {
    FramesApart(g, at, |bytes|, d.addr, d.len);
    assert Splice(mem, at, bytes)[d.addr..d.addr + d.len] == mem[d.addr..d.addr + d.len];
  }

  lemma DescMember(g: Geometry, q: seq<Desc>, n: nat, i: nat)
    requires g.frameSize > 0 && n <= i < |q|
    ensures FrameOf(g, q[i].addr) in Bag(g, Addrs(Drop(q, n)))
  {
    BagMember(g, Addrs(Drop(q, n)), i - n);
  }

  lemma PacketMember(g: Geometry, q: seq<Packet>, i: nat)
    requires g.frameSize > 0 && i < |q|
    ensures FrameOf(g, q[i].desc.addr) in Bag(g, PacketAddrs(q))
  {
    BagMember(g, PacketAddrs(q), i);
  }

  /** The frame `f` carries none of the descriptors in flight. */
  predicate Untracked(g: Geometry, s: State, f: nat)
    requires g.frameSize > 0
  {
    f !in InRx(g, s) && f !in InHeld(g, s) && f !in InTx(g, s) && f !in InDriver(g, s)
  }

  lemma WriteKeepsIntegrity(g: Geometry, s: State, at: nat, bytes: seq<byte>)
    requires g.frameSize > 0 && Indices(s) && Shapes(g, s) && Integrity(s)
    requires at + |bytes| <= |s.mem| && InFrame(g, at, |bytes|) && Untracked(g, s, FrameOf(g, at))
    ensures Integrity(s.(mem := Splice(s.mem, at, bytes)))
  {
    var m := Splice(s.mem, at, bytes);
    forall i | s.u.rxTaken <= i < |s.k.rxPub| ensures Carries(m, s.k.rxPub[i], s.k.rxData[i]) {
      DescMember(g, s.k.rxPub, s.u.rxTaken, i);
      SpliceElsewhere(g, s.mem, at, bytes, s.k.rxPub[i], s.k.rxData[i]);
    }
    forall i | 0 <= i < |s.u.held| ensures Carries(m, s.u.held[i].desc, s.u.held[i].data) {
      PacketMember(g, s.u.held, i);
      SpliceElsewhere(g, s.mem, at, bytes, s.u.held[i].desc, s.u.held[i].data);
    }
    forall i | s.k.txTaken <= i < |s.u.txPub| ensures Carries(m, s.u.txPub[i], s.u.txData[i]) {
      DescMember(g, s.u.txPub, s.k.txTaken, i);
      SpliceElsewhere(g, s.mem, at, bytes, s.u.txPub[i], s.u.txData[i]);
    }
    forall i | 0 <= i < |s.k.driver| ensures Carries(m, s.k.driver[i].desc, s.k.driver[i].data) {
      PacketMember(g, s.k.driver, i);
      SpliceElsewhere(g, s.mem, at, bytes, s.k.driver[i].desc, s.k.driver[i].data);
    }
  }

  /** A frame the kernel owns, or one being built, is under no descriptor in flight. */
  lemma KernelFrameUntracked(g: Geometry, s: State, j: nat)
    requires g.frameSize > 0 && Inv(g, s) && j < |s.k.owned|
    ensures Untracked(g, s, FrameOf(g, s.k.owned[j])) && FrameOf(g, s.k.owned[j]) < g.fillFrames
  {
    var f := FrameOf(g, s.k.owned[j]);
    var a, b, c, d := InFill(g, s), InKernel(g, s), InRx(g, s), InHeld(g, s);
    BagMember(g, s.k.owned, j);
    assert (a + b + c + d)[f] == a[f] + b[f] + c[f] + d[f];
    assert multiset(Half(0, g.fillFrames))[f] <= 1;
    assert f in a + b + c + d && f in Half(0, g.fillFrames);
    NotInTxHalf(g, s, f);
  }

  lemma NotInTxHalf(g: Geometry, s: State, f: nat)
    requires g.frameSize > 0 && TxConserved(g, s) && f < g.fillFrames
    ensures f !in InTx(g, s) && f !in InDriver(g, s)
  {
    var a, b, c, d, e := InFree(g, s), InBuilding(g, s), InTx(g, s), InDriver(g, s), InComp(g, s);
    assert (a + b + c + d + e)[f] == a[f] + b[f] + c[f] + d[f] + e[f];
    assert f !in multiset(Half(g.fillFrames, g.frames));
  }

  lemma NotInRxHalf(g: Geometry, s: State, f: nat)
    requires g.frameSize > 0 && RxConserved(g, s) && f >= g.fillFrames
    ensures f !in InRx(g, s) && f !in InHeld(g, s)
  {
    var a, b, c, d := InFill(g, s), InKernel(g, s), InRx(g, s), InHeld(g, s);
    assert (a + b + c + d)[f] == a[f] + b[f] + c[f] + d[f];
    assert f !in multiset(Half(0, g.fillFrames));
  }

  lemma BuildingUntracked(g: Geometry, s: State, j: nat)
    requires g.frameSize > 0 && Inv(g, s) && j < |s.u.building|
    ensures Untracked(g, s, FrameOf(g, s.u.building[j]))
    ensures g.fillFrames <= FrameOf(g, s.u.building[j]) < g.frames
  {
    var f := FrameOf(g, s.u.building[j]);
    var a, b, c, d, e := InFree(g, s), InBuilding(g, s), InTx(g, s), InDriver(g, s), InComp(g, s);
    BagMember(g, s.u.building, j);
    assert (a + b + c + d + e)[f] == a[f] + b[f] + c[f] + d[f] + e[f];
    assert multiset(Half(g.fillFrames, g.frames))[f] <= 1;
    assert f in a + b + c + d + e && f in Half(g.fillFrames, g.frames);
    NotInRxHalf(g, s, f);
  }

  lemma KernelKeepsIntegrity(g: Geometry, s: State, l: Label)
    requires g.frameSize > 0 && Inv(g, s) && Enabled(g, s, l) && IsKernel(l)
    ensures Indices(Apply(g, s, l)) && Integrity(Apply(g, s, l))
  {
    hide RxConserved, TxConserved, Shapes, Histories, Kicks;
    if l.KWrite? {
      KernelFrameUntracked(g, s, l.j);
      WriteKeepsIntegrity(g, s, l.at, l.data);
    }
  }

  lemma KernelKeepsShapes(g: Geometry, s: State, l: Label)
    requires g.frameSize > 0 && Inv(g, s) && Enabled(g, s, l) && IsKernel(l)
    ensures Shapes(g, Apply(g, s, l))
  {
    hide RxConserved, TxConserved, Integrity, Histories, Kicks, FrameOf;
  }

  lemma KernelKeepsHistories(g: Geometry, s: State, l: Label)
    requires g.frameSize > 0 && Inv(g, s) && Enabled(g, s, l) && IsKernel(l)
    ensures Histories(Apply(g, s, l))
  {
    hide RxConserved, TxConserved, Shapes, Kicks, FrameOf;
  }

  lemma UserKeepsIntegrity(g: Geometry, s: State, l: Label)
    requires g.frameSize > 0 && Inv(g, s) && Enabled(g, s, l) && !IsKernel(l)
    ensures Indices(Apply(g, s, l)) && Integrity(Apply(g, s, l))
  {
    hide RxConserved, TxConserved, Shapes, Histories, Kicks;
    if l.UWrite? {
      BuildingUntracked(g, s, l.j);
      WriteKeepsIntegrity(g, s, l.at, l.data);
    }
  }

  lemma UserKeepsShapes(g: Geometry, s: State, l: Label)
    requires g.frameSize > 0 && Inv(g, s) && Enabled(g, s, l) && !IsKernel(l)
    ensures Shapes(g, Apply(g, s, l))
  {
    hide RxConserved, TxConserved, Integrity, Histories, Kicks, FrameOf;
    if l.UReadComp? {
      BaseFrame(g, s.k.compPub[s.u.compRead]);
    }
  }

  lemma UserKeepsHistories(g: Geometry, s: State, l: Label)
    requires g.frameSize > 0 && Inv(g, s) && Enabled(g, s, l) && !IsKernel(l)
    ensures Histories(Apply(g, s, l))
  {
    hide RxConserved, TxConserved, Shapes, Integrity, Kicks, FrameOf;
  }

  lemma StepKeepsInv(g: Geometry, s: State, l: Label)
    requires g.frameSize > 0 && Inv(g, s) && Enabled(g, s, l)
    ensures Inv(g, Apply(g, s, l))
  {
    hide RxConserved, TxConserved, Shapes, Integrity, Histories;
    KeepsRx(g, s, l);
    KeepsTx(g, s, l);
    if IsKernel(l) {
      KernelKeepsIntegrity(g, s, l);
      KernelKeepsShapes(g, s, l);
      KernelKeepsHistories(g, s, l);
    } else {
      UserKeepsIntegrity(g, s, l);
      UserKeepsShapes(g, s, l);
      UserKeepsHistories(g, s, l);
    }
  }
}
