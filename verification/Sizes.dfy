/** From the link's MTU to frame sizes, datagram sizes and the UMEM, and from a buffer to datagrams. */
module Sizes {
  import opened Words
  import opened Wrappers
  import opened Machine
  import opened Conservation
  import opened Runs
  import opened FramingModel

  const FRAME_COUNT: nat := 4096
  const FILL_SIZE: nat := 2048
  const RX_SIZE: nat := 2048
  const TX_SIZE: nat := 2048
  const MIN_CHUNK_SIZE: nat := 2048

  datatype IoError = InvalidInput | NotConnected | Refused

  function DoubleUntil(p: nat, x: nat): nat
    requires p > 0
    decreases x - p
  {
    if p >= x then p else DoubleUntil(2 * p, x)
  }

  /** `usize::next_power_of_two`, without overflow. */
  function NextPowerOfTwo(x: nat): nat {
    DoubleUntil(1, x)
  }

  function Max(a: nat, b: nat): nat {
    if a >= b then a else b
  }

  function FrameSizeFor(mtu: nat, pageSize: nat): Result<u32, IoError> {
    var size := Max(NextPowerOfTwo(ETH_HDR_LEN + mtu), MIN_CHUNK_SIZE);
    if size > pageSize then Err(InvalidInput) else Ok(size % WORD32)
  }

  /** The geometry of a socket whose frames are `frameSize` bytes. */
  function GeometryFor(frameSize: nat): Geometry {
    Geometry(frameSize, FILL_SIZE, FRAME_COUNT, FILL_SIZE, RX_SIZE, TX_SIZE, TX_SIZE)
  }

  lemma {:induction false} DoubleUntilLeast(k: nat, x: nat)
    requires k == 0 || Pow2(k - 1) < x
    ensures IsPow2(DoubleUntil(Pow2(k), x)) && DoubleUntil(Pow2(k), x) >= x
    ensures forall p: nat :: IsPow2(p) && p >= x ==> DoubleUntil(Pow2(k), x) <= p
    decreases x - Pow2(k)
  {
    if Pow2(k) >= x {
      forall p: nat | IsPow2(p) && p >= x ensures Pow2(k) <= p {
        var i: nat :| p == Pow2(i);
        if i < k {
          Pow2Mono(i, k - 1);
        } else {
          Pow2Mono(k, i);
        }
      }
    } else {
      DoubleUntilLeast(k + 1, x);
    }
  }

  /** The accepted frame size is the least power of two at least max(2048, MTU + 14); an MTU is
      rejected exactly when that power is over a page. */
  lemma FrameSizeIsLeast(mtu: nat, pageSize: nat)
    requires pageSize < WORD32
    ensures FrameSizeFor(mtu, pageSize).Ok? ==>
      var fs := FrameSizeFor(mtu, pageSize).value;
      && IsPow2(fs) && 2048 <= fs && 14 + mtu <= fs <= pageSize
      && forall p: nat :: IsPow2(p) && p >= 2048 && p >= 14 + mtu ==> fs <= p
    ensures FrameSizeFor(mtu, pageSize).Err? <==>
      forall p: nat :: IsPow2(p) && p >= 2048 && p >= 14 + mtu ==> p > pageSize
  {
    var x := ETH_HDR_LEN + mtu;
    DoubleUntilLeast(0, x);
    var n := NextPowerOfTwo(x);
    MinChunkIsPow2();
    var size := Max(n, MIN_CHUNK_SIZE);
    assert IsPow2(size) && size >= MIN_CHUNK_SIZE && size >= x;
    assert forall p: nat :: IsPow2(p) && p >= MIN_CHUNK_SIZE && p >= x ==> size <= p;
  }

  lemma MinChunkIsPow2()
    ensures IsPow2(MIN_CHUNK_SIZE)
  {
    assert Pow2(5) == 32;
    assert Pow2(6) == 64;
    Pow2Add(5, 6);
    assert MIN_CHUNK_SIZE == Pow2(11);
  }

  /** The code's constants are one instance of the geometry the allocator is correct for. */
  lemma CodeGeometryIsGood(frameSize: nat)
    requires IsPow2(frameSize) && frameSize <= 0x8000_0000
    ensures Good(GeometryFor(frameSize))
    ensures GeometryFor(frameSize) == Geometry(frameSize, 2048, 4096, 2048, 2048, 2048, 2048)
  {
    MinChunkIsPow2();
  }

  /** Distinct frames occupy disjoint byte ranges inside the UMEM. */
  lemma FramesDisjoint(g: Geometry, i: nat, j: nat)
    requires g.frameSize > 0 && i < j < g.frames
    ensures BaseOf(g, i) + g.frameSize <= BaseOf(g, j) && BaseOf(g, j) + g.frameSize <= UmemLen(g)
  {
    MulBound(i + 1, g.frameSize, j);
    MulBound(j + 1, g.frameSize, g.frames);
  }

  /** Everything `send` builds on an accepted MTU fits: the frame fits its UMEM frame, and with pages of
      at most 64 KiB neither 16-bit length field wraps. */
  lemma DatagramFits(mtu: nat, pageSize: nat, payload: seq<byte>)
    requires mtu > UDP_OVERHEAD && pageSize <= 0x1_0000 && FrameSizeFor(mtu, pageSize).Ok?
    requires |payload| <= mtu - UDP_OVERHEAD
    ensures ETH_HDR_LEN + UDP_OVERHEAD + |payload| <= FrameSizeFor(mtu, pageSize).value
    ensures UDP_OVERHEAD + |payload| < 0x1_0000 && UDP_HEADER_LEN + |payload| < 0x1_0000
    ensures mtu < 0x1_0000
  {
    FrameSizeIsLeast(mtu, pageSize);
  }

  // ----- Chunks -----

  /** `buf.chunks(m)`. */
  function Chunks(buf: seq<byte>, m: nat): seq<seq<byte>>
    requires m > 0
  {
    if |buf| == 0 then [] else if |buf| <= m then [buf] else [buf[..m]] + Chunks(buf[m..], m)
  }

  function Concat(cs: seq<seq<byte>>): seq<byte> {
    if cs == [] then [] else cs[0] + Concat(cs[1..])
  }

  lemma MulNext(k: nat, m: nat)
    ensures (k + 1) * m == k * m + m
  {
  }

  /** The buffer from `i * m` on, `m` bytes or what is left. */
  function Piece(buf: seq<byte>, m: nat, i: nat): seq<byte> {
    var at := i * m;
    if at + m <= |buf| then buf[at..at + m] else if at <= |buf| then buf[at..] else []
  }

  /** Which bytes those are, and that only the last piece of a buffer is short. */
  lemma PieceAt(buf: seq<byte>, m: nat, i: nat)
    requires m > 0
    ensures |Piece(buf, m, i)| == if i * m + m <= |buf| then m else if i * m <= |buf| then |buf| - i * m else 0
    ensures forall j :: 0 <= j < |Piece(buf, m, i)| ==> Piece(buf, m, i)[j] == buf[i * m + j]
  {
  }

  lemma PieceRest(buf: seq<byte>, m: nat, i: nat)
    requires 0 < i && m <= |buf|
    ensures Piece(buf, m, i) == Piece(buf[m..], m, i - 1)
  {
    MulNext(i - 1, m);
  }

  /** Chunk `i` is piece `i`, and the chunks are exactly the nonempty pieces. */
  lemma {:induction false} ChunkAt(buf: seq<byte>, m: nat, i: nat)
    requires m > 0
    ensures i < |Chunks(buf, m)| ==> Chunks(buf, m)[i] == Piece(buf, m, i) != []
    ensures i >= |Chunks(buf, m)| ==> Piece(buf, m, i) == []
    decreases |buf|
  {
    hide Piece;
    PieceFirst(buf, m);
    if |buf| > m {
      var rest := buf[m..];
      assert Chunks(buf, m) == [buf[..m]] + Chunks(rest, m);
      if i > 0 {
        ChunkAt(rest, m, i - 1);
        PieceRest(buf, m, i);
      }
    } else {
      assert Chunks(buf, m) == if buf == [] then [] else [buf];
      if i > 0 {
        PastTheEnd(buf, m, i);
      }
    }
  }

  lemma PastTheEnd(buf: seq<byte>, m: nat, i: nat)
    requires i > 0 && |buf| <= m
    ensures Piece(buf, m, i) == []
  {
    MulBound(1, m, i);
  }

  lemma PieceFirst(buf: seq<byte>, m: nat)
    ensures Piece(buf, m, 0) == if m <= |buf| then buf[..m] else buf
  {
    assert buf[0..] == buf;
  }

  /** Chunks concatenate to the buffer; all are nonempty and at most `m`, and only the last is shorter. */
  lemma {:induction false} ChunksPartition(buf: seq<byte>, m: nat)
    requires m > 0
    ensures Concat(Chunks(buf, m)) == buf
    ensures forall i :: 0 <= i < |Chunks(buf, m)| ==>
      0 < |Chunks(buf, m)[i]| <= m && (i < |Chunks(buf, m)| - 1 ==> |Chunks(buf, m)[i]| == m)
    decreases |buf|
  {
    if |buf| > m {
      ChunksPartition(buf[m..], m);
      assert Chunks(buf, m)[1..] == Chunks(buf[m..], m);
    } else if |buf| > 0 {
      assert Chunks(buf, m)[1..] == [];
      assert Concat([]) == [];
    }
  }
}
