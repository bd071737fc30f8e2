# xskip in Dafny

xskip is a user-space network stack on AF_XDP: a socket shares one UMEM and four lock-free rings with
the kernel, moves 4096 frames round them without ever testing for room on the producer side, and puts
UDP datagrams (or smoltcp's TCP segments) straight into those frames. An XDP program picks the inbound
packets of tracked flows out of the kernel's path.

This project models that code and proves what it depends on.

- **The allocator against a running kernel.** `Machine` is the UMEM, the rings and the kernel as one
  transition system. An action is one index load or store, one slot access or one write into a frame;
  the kernel may take any number of its own between any two of the user's. `Conservation` shows that the
  invariant (each frame in exactly one place of its own half, nothing in flight overwritten) is kept by
  every action, and `Runs` draws the conclusions for whole runs. That the rings never overrun is a
  consequence of conservation: no action tests for room.
- **The code as classes over that machine.** `Rings.Ring` has free-running 32-bit indices and masked
  slots and refines an unbounded FIFO. `Xsks.Xsk` is the AF_XDP socket: `Snap` is the object as a state
  of the machine, `KernelSteps` is the kernel's interference, and each method says exactly what it did to
  the user's part of the state. `Udp.UdpPlane`, `Tcp.TcpPlane` and `Sockets.Socket` sit on top, loops and
  in-place writes included.
- **The datagram path.** `FramingModel` and `BuildInPlace` are the printer and parser, `Xdp` is the BPF
  program as a second parser, `RoundTrip`, `Xdp` and `EndToEnd` say that they agree, `ReceivedChecksums` which
  bytes the parser ignores, and `Sizes` that everything fits from the MTU on.
- **The two BPF maps** shared by all sockets of a skeleton (`Registration`, and `Sockets.Skeleton`).

The pieces meet in `UdpPlane`: `WireIsBuilt` says that whatever the driver reads out of the UMEM is the
frame `build` made for that datagram (`WireIsSent` in `TcpPlane`, for TX tokens), and `RecvInto` that whatever `recv` returns is what `parse` makes of
the bytes the kernel delivered.

## Assumptions

- Index loads and stores are sequentially consistent. A kernel action takes an address from FILL, writes
  inside a frame it owns, delivers bytes of one owned frame to RX at any offset, takes from TX, reads a
  frame it is transmitting, completes such a frame to COMP in any order and at any address inside it, or
  toggles a need-wakeup flag. It takes and publishes addresses only on that footing.
- Ring and UMEM sizes are parameters. `Good` lists what they have to satisfy; the constants of the code
  are one instance (`CodeGeometryIsGood`).
- Header layouts follow section 3.1 of RFC 791 and RFC 768, the sums section 1 of RFC 1071. smoltcp is not
  part of this model; its header checks are taken to be the ones needed to index the headers, the version,
  no fragments (one frame is one datagram, as the design document promises) and a nonzero destination port. It bounds the IPv4 header length by the
  total length and the buffer, with no lower bound of 20.
- Each RX token is consumed once.

## Where the code falls short of a promise

- **Two parsers.** A frame that `parse` accepts is redirected exactly when its IPv4 header length is at
  least 20 and its flow is tracked. Below 20, which the parser as modelled does not reject, the XDP program
  passes the frame to the kernel although `parse` would deliver it (`ShortHeaderDisagrees` is such a frame).
- **Received checksums.** They are ignored exactly when the IPv4 header length is 4 or at least 16. The parser
  as modelled accepts headers of 0, 8 and 12 bytes, where the UDP checksum lies over the fragment field, the
  source or the destination; then `parse`'s result does depend on it (`AcceptedIgnoresIff`, `IgnoredAtIff`,
  and a frame for each length).
- **Registration.** A `connect` leaves `config_map` exact if and only if it repeats the flow the socket
  already has, or is the first and nothing fails after its insert: a second remote strands the first key,
  since drop deletes only the latest (`ConnectExactIff`, `Skeleton.Track`). A constructor leaves `xsks_map`
  exact if and only if the port reservation after its insert succeeds (`NewExactIff`, `Skeleton.Register`).
  This is about the map calls the code makes: a failed `new` also drops the `Xsk` and closes its descriptor,
  and what the kernel does to the entry then is not part of this model.
- **Hairpins.** Our own output is never redirected back at us, unless the socket is connected to its own
  endpoint (`HairpinIff`).

## Model

| member | source | states |
|---|---|---|
| Conservation.StepKeepsInv | src/socket.rs:1092-1178 | Every user and kernel action keeps the whole invariant: frame conservation per half, FILL and pool addresses aligned, descriptors inside one frame, bytes under every descriptor in flight unchanged since publication, kick bookkeeping |
| Conservation.KeepsRx | src/socket.rs:1115-1138 | Frames `[0, FILL_SIZE)` circulate FILL, kernel, RX, user and back, none lost or duplicated by any action |
| Conservation.KeepsTx | src/socket.rs:1141-1178 | Frames `[FILL_SIZE, FRAME_COUNT)` circulate pool, builder, TX, driver, COMP and back, none lost or duplicated by any action |
| Conservation.WriteKeepsIntegrity | src/socket.rs:1081-1089 | A write inside a frame that carries no descriptor in flight changes the bytes of none of them |
| Conservation.KernelFrameUntracked | src/socket.rs:1115-1123 | A frame the kernel may receive into is under no descriptor in RX, in hand, in TX or in the driver |
| Conservation.BuildingUntracked | src/socket.rs:1155-1160 | A frame handed out by the pool is a TX-half frame under no descriptor in flight |
| Runs.InitInv | src/socket.rs:1032-1054 | The state the constructor leaves (RX half in FILL, TX half in the pool) satisfies the invariant |
| Runs.RunKeepsInv | src/socket.rs:1092-1178 | The invariant holds after every finite interleaving of user and kernel actions |
| Runs.OnePlace | src/socket.rs:1032-1036 | Every frame number is in exactly one place of its own half's circuit and in none of the other's |
| Runs.RingsNeverOverrun | src/socket.rs:1115-1178 | In all four rings, producer minus consumer never exceeds the size, counting slots written and not yet published; the slot any producer is about to write is free; derived from conservation, with no test for room anywhere |
| Runs.EveryRunIsSafe | src/socket.rs:1032-1178 | For every run from the initial state: one place per frame, no overrun, everything transmitted or held is what the other side published, kicks at most submissions, every submission followed by a need-wakeup check whenever `tx_pending` is false, the pool never over its initial capacity |
| Runs.PoolExhausted | src/socket.rs:1154-1160 | With the pool empty and COMP drained, and none being built, the TX ring and the driver hold exactly all TX frames |
| Runs.RefillThenPop | src/socket.rs:1155-1160 | Reclaiming into an empty pool and popping leaves nothing exactly when the pool was exhausted at the load, and otherwise is the allocation step `send` is described by |
| Runs.KernelActionRely | src/socket.rs:1352-1394 | Any kernel action leaves the user's indices and lists and every byte of the TX half alone, and only extends its own histories |
| Runs.KernelMay | src/socket.rs:856-867 | The kernel is held to no more than the assumptions: it may take whatever FILL or TX holds, write or deliver any range inside a frame it owns, read any frame being transmitted and complete any of them, in any order, by any address inside it |
| Runs.FrameBaseIsBase | src/socket.rs:1109-1112 | `addr & !(frame_size - 1)` over 64 bits is the first byte of the frame the address lies in, for any offset |
| Runs.FillAddrIsBase | src/socket.rs:1098 | The address computed from the producer index and reduced modulo the UMEM length is the base of that frame |
| Runs.HandledAddresses | src/socket.rs:1081-1089 | Addresses coming back in COMP and RX fit 64 bits; a frame being built lies inside the UMEM, above the RX half |
| Rings.Ring.SlotBound | src/socket.rs:1097 | The masked wrapped index of position `i` is `i` modulo the size, before and after the index passes 2^32 |
| Rings.Ring.SlotsDistinct | src/socket.rs:1117 | Positions less than a ring apart never share a slot |
| Rings.Ring.Indexed | src/socket.rs:1092-1095 | Shared indices are the history lengths wrapped to 32 bits; they are equal exactly when the ring is empty; what was consumed is a prefix of what was published |
| Rings.Ring.Stage | src/socket.rs:1117-1119 | A slot written at the private index appends to what is staged and disturbs nothing the consumer has yet to read |
| Rings.Ring.Publish | src/socket.rs:1120-1122 | Storing the producer index appends everything staged to the FIFO, in order |
| Rings.Ring.Read | src/socket.rs:1132-1133 | Reading the masked slot at a wrapped index between consumer and producer yields that FIFO entry |
| Rings.Ring.Release | src/socket.rs:1134-1136 | Storing the consumer index consumes exactly the next entries of the FIFO |
| Words.AndHighMask | src/socket.rs:1109-1112 | Masking with the complement of 2^k - 1 rounds down to a multiple of 2^k, at any width |
| Words.WrappedSlot | src/socket.rs:895 | A power-of-two mask of a wrapped 32-bit index selects the slot of the unbounded position |
| Words.WrapFaithful | src/socket.rs:1092-1095 | Within half the index space, wrapped equality and wrapped distance are those of the positions |
| Xsks.Xsk.constructor | src/socket.rs:1003-1054 | A new socket is in the initial state: each RX-half frame in FILL, each TX-half frame in the pool |
| Xsks.Xsk.TxPool | src/socket.rs:1032-1036 | The pool is the bases of the upper frames, in order |
| Xsks.Xsk.FillFrames | src/socket.rs:1091-1107 | The bootstrap publishes the bases of the first min(n, ring size) frames, in order |
| Xsks.Xsk.KernelSteps | src/socket.rs:856-867 | Any number of kernel actions, of any kind in any order, keeps the invariant and the user's rely condition |
| Xsks.Xsk.Recycle | src/socket.rs:1114-1123 | Appends the frame's base to FILL and gives up the packet in hand, nothing else, with the kernel running in between; the slot written is free |
| Xsks.Xsk.RxPeek | src/socket.rs:1125-1138 | Returns the next RX descriptor in publication order and takes it in hand with the bytes it was published with; `None` exactly when RX was empty at the producer load |
| Xsks.Xsk.DrainComp | src/socket.rs:1144-1150 | The loop reads exactly what had been completed at the snapshot, in order, each as its frame base, and terminates by the wrapped distance to the snapshot while the kernel keeps completing |
| Xsks.Xsk.ReclaimComp | src/socket.rs:1140-1152 | The pool grows by exactly the frames completed at the producer load and the consumer index stored is that load |
| Xsks.Xsk.TxAlloc | src/socket.rs:1154-1160 | `None` exactly when pool and COMP were empty at the COMP producer load, and then nothing changed; otherwise the user's side is what a refill at that load and a pop of the last pool frame make of it |
| Xsks.Xsk.TxSubmit | src/socket.rs:1162-1178 | Publishes one descriptor standing for the bytes in the UMEM at the call, whatever the kernel does meanwhile; the slot written is free |
| Xsks.Xsk.KickTx | src/socket.rs:1180-1193 | No check and no kick unless something was queued; otherwise one check covers every descriptor so far, and at most one kick, made exactly when TX asked for it |
| Xsks.Xsk.KickRx | src/socket.rs:1195-1209 | Kicks exactly when FILL asks for it and changes nothing on the user's side |
| BuildInPlace.Build | src/socket.rs:786-821 | Writing MACs, type, headers and payload in place and then patching both checksums yields exactly `Frame` at that address: destination MAC at 0, ours at 6, 0x0800 at 12, the payload at 42; no other byte of the buffer changes |
| BuildInPlace.EmitIp | src/socket.rs:796-805 | The header emitted with a zero checksum and patched afterwards is the header with its RFC 791 checksum |
| BuildInPlace.EmitUdp | src/socket.rs:807-819 | Header, payload and patched checksum are the datagram with its RFC 768 checksum, a zero sum sent as all ones |
| FramingModel.EthBytes | src/socket.rs:792-794 | An Ethernet header puts destination, source and 0x0800 at 0, 6 and 12 and whatever follows at 14 |
| RoundTrip.FrameLayout | src/socket.rs:792-819 | Every byte of a built frame but the checksums, by offset: MACs, type, 20-byte header with total length, no fragment, hop limit 64, UDP, both addresses, both ports, UDP length, payload; numbers in network byte order |
| RoundTrip.FrameVerifies | src/socket.rs:796-819 | Over the bytes on the wire, the IPv4 header words verify, and so do the four address words, 17, the UDP length and the datagram; the UDP checksum field is never zero |
| RoundTrip.RoundTripIff | src/socket.rs:785-850 | A built frame with any padding after it is accepted exactly by the framing with both endpoints mirrored and a nonzero port, and then yields exactly the payload, whether or not that receiver verifies checksums |
| RoundTrip.IpHeaderVerifies | src/socket.rs:98-105 | Every IPv4 header built verifies under a strict receiver |
| RoundTrip.UdpVerifies | src/socket.rs:98-105 | Every UDP datagram built verifies with its pseudo header, odd lengths included, and is never sent with the "no checksum" zero; `FrameVerifies` says so over the wire bytes without that function |
| RoundTrip.PseudoSum | src/socket.rs:812-819 | The pseudo header adds both addresses' words, 17 and the UDP length to the sum, nothing else |
| RoundTrip.ParseIff | src/socket.rs:823-849 | On every byte string, by offsets: exactly which frames `parse` accepts and which bytes it returns |
| ReceivedChecksums.ParseIgnoresChecksums | src/socket.rs:98-105 | Overwriting both checksum fields of any frame that has them, accepted or not, leaves the result of `parse` unchanged when its IPv4 header length is 4 or at least 16 |
| ReceivedChecksums.AcceptedIgnoresIff | src/socket.rs:823-849 | A frame `parse` accepts keeps its result under every overwrite of both fields if and only if its header length is 4 or at least 16 |
| ReceivedChecksums.IgnoredAtIff | src/socket.rs:823-849 | Header length by header length: all frames of that length keep their result under every overwrite if and only if the length is 4 or at least 16 |
| ReceivedChecksums.OverlapAt0 | src/socket.rs:829-830 | A concrete frame with a 0-byte header, accepted, that other checksums turn into a fragment |
| ReceivedChecksums.OverlapAt8 | src/socket.rs:831-832 | A concrete frame with an 8-byte header, accepted, whose source other checksums change |
| ReceivedChecksums.OverlapAt12 | src/socket.rs:831-833 | A concrete frame with a 12-byte header, accepted, whose destination other checksums change |
| Checksums.ChecksumVerifies | src/socket.rs:98-105 | Adding its checksum makes any 16-bit one's complement sum verify, and so does all ones in place of a zero checksum |
| Checksums.Sum16Snoc | src/socket.rs:98-105 | In the sum, byte `i` weighs 256 if `i` is even and 1 if odd |
| Checksums.VerifiesIff | src/socket.rs:98-105 | What verifies are exactly the positive multiples of 65535 |
| Xdp.NeverFaults | src/bpf/xskip.bpf.c:61-125 | On no bytes at all does the program read past `data_end` |
| Xdp.RedirectIff | src/bpf/xskip.bpf.c:61-125 | On every byte string, by offsets: a TCP or UDP segment whose headers are all there is redirected exactly when its four fields are a tracked flow and the queue has a socket; everything else passes |
| Xdp.AcceptedKey | src/socket.rs:533-540 | The key the program assembles from a frame `parse` accepts is `flow_key` of the endpoints it accepted, byte for byte |
| Xdp.FlowKeyInjective | src/socket.rs:533-540 | Equal keys mean equal local and equal remote endpoints |
| Xdp.ParsersAgree | src/bpf/xskip.bpf.c:61-125 | A frame `parse` accepts is redirected if and only if its IPv4 header length is at least 20 and the map tracks that flow |
| Xdp.ShortHeaderDisagrees | src/bpf/xskip.bpf.c:84-90 | A concrete frame with a 16-byte IPv4 header that `parse` delivers and the program passes |
| Xdp.BuiltFrameRedirected | src/bpf/xskip.bpf.c:119-122 | A built frame, whatever its ports, is redirected if and only if the map tracks the reverse direction of the flow it was built for |
| Xdp.HairpinIff | src/bpf/xskip.bpf.c:22-26 | With only its own flow tracked, a frame a socket built is redirected back if and only if the socket is connected to itself |
| Sizes.FrameSizeIsLeast | src/socket.rs:80-92 | The accepted frame size is the least power of two at least max(2048, MTU + 14); an MTU is rejected if and only if every such power exceeds the page (pages under 4 GiB, so that the 32-bit cast keeps the size) |
| Sizes.CodeGeometryIsGood | src/socket.rs:68-73 | The geometry is 4096 frames, 2048 of them behind FILL, and four rings of 2048; it satisfies what the allocator needs for every power-of-two frame size up to 2^31 |
| Sizes.FramesDisjoint | src/socket.rs:964 | Distinct frames are disjoint byte ranges inside the UMEM |
| Sizes.DatagramFits | src/socket.rs:312-314 | With an accepted MTU every chunk's frame fits its UMEM frame, and with pages of at most 64 KiB the MTU is under 64 KiB and neither 16-bit length field wraps |
| Sizes.ChunksPartition | src/socket.rs:326 | Chunks are nonempty, at most the limit, all but the last exactly the limit, and concatenate to the buffer |
| Sizes.ChunkAt | src/socket.rs:326 | The chunks are exactly the nonempty pieces of the buffer, in order |
| Sizes.PieceAt | src/socket.rs:326 | Piece `i` is the buffer's bytes from `i` times the limit on, as many as the limit or what is left |
| Udp.UdpPlane.Send | src/socket.rs:745-758 | Reports the whole payload sent; if the pool was exhausted at the COMP load of this very call nothing changed, otherwise one frame went from the pool to TX as exactly the datagram's frame; without a remote it refuses and does nothing |
| Udp.UdpPlane.BuildFrame | src/socket.rs:753-754 | The UMEM holds the datagram's frame at the allocated address, no descriptor in flight changed |
| Udp.UdpPlane.WireIsBuilt | src/socket.rs:748-758 | Every frame the driver ever read out of the UMEM is, byte for byte, what `build` made for the datagram it was submitted for: to the peer's MAC, from ours, IPv4, the payload at 42 |
| Udp.UdpPlane.RecvInto | src/socket.rs:760-773 | Of the next delivered frame: `None` exactly if `parse` rejects it, its payload is empty or the buffer is; otherwise the first bytes of the payload, as many as fit, and their count; the rest of the buffer is unchanged. The delivery history only grows and the results so far are its outcomes in order; the frame, accepted or rejected, is back in FILL before the call returns; nothing is consumed exactly when there is no remote or RX was empty at the load; FILL's need-wakeup flag is tested once, with a kick exactly if it asks |
| Udp.UdpPlane.ConsumeInto | src/socket.rs:765-772 | The bytes parsed are those the kernel published for that descriptor, whatever it has written since; what is copied is the front of the payload, as much as fits |
| Udp.ReceivedNext | src/socket.rs:760-773 | The receive history is append-only: one more call adds the outcome of the next delivered frame |
| EndToEnd.SendRunData | src/socket.rs:326-328 | Over one send the TX history grows by the frames of exactly the datagrams that got one, in order, and no RX, FILL or kick state moves |
| EndToEnd.SendRunPieces | src/socket.rs:326-328 | Datagram `i` of a send is piece `i` of the buffer and there are just enough of them; each adds its own frame to the TX history or nothing, the latter exactly if the pool was empty and COMP, at its own load, held nothing |
| EndToEnd.AddedFrames | src/socket.rs:312-328 | No frame a send adds exceeds the MTU; with nothing dropped all but the last are full and they carry the buffer piece by piece |
| EndToEnd.SendReachesPeer | src/socket.rs:316-336 | For every buffer and every MTU above 28 and under 64 KiB, each frame of a send is redirected by the XDP program holding the peer's key and parsed by the peer back to its nonempty chunk; with nothing dropped the payloads concatenate to the buffer |
| Sockets.Socket.SentReaches | src/socket.rs:316-336 | The same for the entries this socket's `send` added to its TX history |
| EndToEnd.DatagramReaches | src/socket.rs:748-758 | The same for one datagram |
| EndToEnd.PeerReceives | src/socket.rs:761-773 | A peer whose kernel delivers such frames, however padded, receives exactly the payloads, in order |
| Sockets.Socket.New | src/socket.rs:197-273 | Succeeds if and only if the MTU leaves room, its frames fit a page, the queue fits the map and the port was reserved; then the socket is valid, its geometry is the code's, its framing is between the two given MACs and it is registered at its queue; a bad MTU leaves both maps and the registry untouched, any other outcome changes at most this queue's entry |
| Sockets.Socket.Connect | src/socket.rs:281-291 | The socket's flow is tracked and its framing targets the remote; `xsks_map` and every other socket's registration stay as they were; the maps stay exact if and only if it is the first remote or the same one; a full map changes nothing |
| Sockets.Socket.Send | src/socket.rs:316-336 | For every buffer there is a chain of states from the call's start to its end in which each chunk of at most MTU minus 28 bytes, by its own COMP load, either takes one pool frame to TX as exactly its frame or, exactly if the pool was exhausted at that load, does nothing. No frame added exceeds the MTU; with nothing dropped all but the last are full and they carry the buffer in order. The whole buffer is reported sent either way; afterwards nothing waits for a kick, and one was made exactly if something was sent and TX asked for it |
| Sockets.Socket.Recv | src/socket.rs:340-364 | UDP: before `connect` or on an empty buffer `None`, nothing consumed and no kick; otherwise exactly one packet is consumed if one had arrived at the RX load: `None` exactly if `parse` rejects it or its payload is empty, else the front of the payload, as much as fits, and nothing else in the buffer changes |
| Sockets.Socket.Drop | src/socket.rs:374-385 | Removes this socket's flow and queue from the maps and nothing else, and leaves them exact |
| Sockets.Skeleton.Register | src/socket.rs:231-242 | Sets this queue's `xsks_map` entry and no other, refused only past the end of the map; exact afterwards if and only if the queue is out of range or the reservation succeeded, so a failed reservation strands exactly that entry |
| Sockets.Skeleton.Track | src/socket.rs:542-550 | Refused exactly when the key is new and 16 flows are tracked, and then nothing changes; exact afterwards if and only if the queue had no other flow |
| Sockets.Skeleton.Unregister | src/socket.rs:374-385 | Exactness is kept and no other entry removed |
| Registration.NewExactIff | src/socket.rs:231-243 | Both maps stay exact if and only if the port reservation after the insert succeeds |
| Registration.ConnectExactIff | src/socket.rs:281-291 | `config_map` stays exact if and only if the flow repeats, or it is the first and nothing fails after the insert |
| Registration.DropExact | src/socket.rs:374-385 | A drop keeps both maps exact and removes no entry but its own |
| Registration.RunExact | src/socket.rs:231-291 | After any run of any number of sockets that construct, connect (once, or again to the same remote) and drop, the maps hold exactly the entries of live and connected sockets |
| Tcp.TcpPlane.TxConsume | src/socket.rs:1374-1394 | Takes one frame of the pool to TX as exactly the peer's MAC, ours, 0x0800 and the data at 14, without disturbing a packet in hand |
| Tcp.TcpPlane.WriteFrame | src/socket.rs:1382-1391 | Header and data written in two steps with the kernel running in between are both still there |
| Tcp.TcpPlane.RxConsume | src/socket.rs:1351-1364 | The client sees the delivered frame from byte 14 on (nothing if it is shorter), the same before and after it consumes a TX token inside the closure; then the frame's base is back in FILL |
| Tcp.TcpPlane.Poll | src/socket.rs:675-683 | After any device events both histories have only grown and nothing waits for a kick: TX was tested once exactly if something was sent, FILL at least once, and every test led to a kick exactly if the ring asked |
| Tcp.TcpPlane.WireIsSent | src/socket.rs:1374-1394 | Every frame the driver ever read out of the UMEM is, byte for byte, the peer's MAC, ours, 0x0800 and, from 14 on, the packet of the TX token that submitted it |
| Tcp.TcpPlane.SeenIsDelivered | src/socket.rs:1351-1364 | The packets RX tokens showed are the delivered frames from byte 14 on, one for each, in order |
| Tcp.TcpPlane.Recv | src/socket.rs:340-361 | TCP: the results are the bytes of the receive buffer, each once and in order; `Some(0)` only when the socket is inactive and everything that arrived has been delivered, `None` (once connected, with a nonempty buffer) only when it is active and nothing is left |
| Tcp.TcpPlane.Send | src/socket.rs:692-710 | Terminates and never takes the error branch; however the send buffer splits its acceptances, the count returned is exactly what was appended, and it is all there was room for while the socket may send, nothing otherwise |
| Tcp.TcpPlane.SendAll | src/bin/bench.rs:69-76 | Whatever was accepted over all calls is a prefix of the buffer, each byte once and in order, and the whole buffer when the loop finishes; the first call alone hands over all there was room for |

## Left out

- Tcp.TcpPlane.SendAll: the loop in the source is unbounded and a peer that never reads keeps it going for ever; the model takes a bound on the number of calls, so it states partial correctness.
- Tcp.TcpPlane.TxConsume: pool availability is its precondition, because the code panics when the kernel holds every TX frame; `ReceiveOne` and `TransmitOne` make the client skip a token in that state.
- Tcp.TcpPlane.SendSlice: smoltcp's send buffer is an abstract queue that accepts any nonempty prefix that fits (nothing only when it is full, as the comment at `src/socket.rs:699-701` says), refuses exactly when the socket may not send, and drains between calls; its receive buffer fills with any bytes between calls; TCP state machine, retransmission and real segments are not modelled.
- Udp.UdpPlane.BuildFrame: the bytes of one datagram are written as one step of the machine; the kernel does not run between two of its bytes, which it could not observe, since it does not own the frame.
- Sockets.Socket: only the UDP arm of `send`, `recv` and `connect`; the TCP arms of `send` and `recv` are `TcpPlane.Send` and `TcpPlane.Recv`, `close` and `poll_connect` are a call into smoltcp and a poll. A failed TCP handshake start appears in `Registration` only.
- One 4-tuple shared by a TCP and a UDP socket: `Registration.Allowed` excludes it.
- Overflow of `usize` in `next_power_of_two`, and the overflow of `MTU + 14`.
- Weak-memory effects of Acquire and Release, the mmap layout, raw pointers, `RefCell`.
- What a `sendto` or `recvfrom` kick makes the driver do, and need-wakeup races inside the kernel.
- UMEM mapping and registration, huge pages, socket options, bind modes, port reservation, XDP attach and detach, CPU pinning, sysfs reads, error strings. A failure of the setup calls makes `Socket::new` return before it touches a map; `Sockets.Socket.New` takes them to succeed.
- The `options` field of a TX descriptor, which is always 0, and the TCP and ICMP checksum capabilities, which smoltcp uses.
- `parse_mac`, `TcpPlane::now`, the benchmark's timing, argument parsing, the Python and shell tooling: easy or bound to I/O.
