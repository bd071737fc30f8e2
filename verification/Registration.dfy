/** The two BPF maps shared by every socket of one skeleton, and what each live socket has put in them. */
module Registration {
  import opened Words
  import opened Wrappers

  type Key = seq<byte>

  datatype Maps = Maps(xsks: map<nat, nat>, config: set<Key>)

  /** What a live socket is entitled to: its descriptor at its queue, and its flow once connected. */
  datatype Entry = Entry(fd: nat, flow: Option<Key>)

  type Live = map<nat, Entry>

  function Flows(live: Live): set<Key> {
    set q | q in live && live[q].flow.Some? :: live[q].flow.value
  }

  /** The maps hold exactly the entries of live and connected sockets. */
  ghost predicate Exact(m: Maps, live: Live) {
    && m.xsks == (map q | q in live :: live[q].fd)
    && m.config == Flows(live)
  }

  /** No two live sockets share a flow. */
  ghost predicate Distinct(live: Live) {
    forall q, r :: q in live && r in live && q != r && live[q].flow.Some? ==> live[q].flow != live[r].flow
  }

  /** `New` and `Connect` say whether what follows their map update succeeded: the port reservation, and
      for TCP the start of the handshake. */
  datatype Event = New(queue: nat, fd: nat, ok: bool) | Connect(queue: nat, key: Key, ok: bool) | Drop(queue: nat)

  /** One socket per queue, and nobody else's flow. */
  ghost predicate Allowed(live: Live, e: Event) {
    match e
    case New(q, fd, ok) => q !in live
    case Connect(q, key, ok) => q in live && forall r :: r in live && r != q ==> live[r].flow != Some(key)
    case Drop(q) => q in live
  }

  /** What the socket does to the maps. */
  function Update(m: Maps, live: Live, e: Event): Maps
    requires e.Drop? ==> e.queue in live
  {
    match e
    case New(q, fd, ok) => m.(xsks := m.xsks[q := fd])
    case Connect(q, key, ok) => m.(config := m.config + {key})
    case Drop(q) =>
      Maps(m.xsks - {q}, if live[q].flow.Some? then m.config - {live[q].flow.value} else m.config)
  }

  /** What the socket remembers having registered. */
  function Remember(live: Live, e: Event): Live
    requires e.Connect? ==> e.queue in live
  {
    match e
    case New(q, fd, ok) => if ok then live[q := Entry(fd, None)] else live
    case Connect(q, key, ok) => if ok then live[q := live[q].(flow := Some(key))] else live
    case Drop(q) => live - {q}
  }

  lemma FlowsMember(live: Live, q: nat)
    requires q in live && live[q].flow.Some?
    ensures live[q].flow.value in Flows(live)
  {
  }

  lemma KeepsDistinct(live: Live, e: Event)
    requires Distinct(live) && Allowed(live, e)
    ensures Distinct(Remember(live, e))
  {
  }

  lemma NewExactIff(m: Maps, live: Live, q: nat, fd: nat, ok: bool)
    requires Exact(m, live) && Allowed(live, New(q, fd, ok))
    ensures Exact(Update(m, live, New(q, fd, ok)), Remember(live, New(q, fd, ok))) <==> ok
  {
    var m', live' := Update(m, live, New(q, fd, ok)), Remember(live, New(q, fd, ok));
    if ok {
      FlowsOnly(live', live);
    } else {
      assert q in m'.xsks && q !in live';
    }
  }

  /** Two registries with the same flows, queue by queue, track the same set. */
  lemma FlowsOnly(live': Live, live: Live)
    requires forall q :: q in live ==> q in live' && live'[q].flow == live[q].flow
    requires forall q :: q in live' && q !in live ==> live'[q].flow == None
    ensures Flows(live') == Flows(live)
  {
    forall k | k in Flows(live') ensures k in Flows(live) {
      var q :| q in live' && live'[q].flow == Some(k);
      FlowsMember(live, q);
    }
    forall k | k in Flows(live) ensures k in Flows(live') {
      var q :| q in live && live[q].flow == Some(k);
      FlowsMember(live', q);
    }
  }

  /** A `connect` leaves the maps exact if and only if it repeats the flow the socket already has, or it
      is the first one and succeeds: a second remote, or a failure after the insert, strands a key. */
  lemma ConnectExactIff(m: Maps, live: Live, q: nat, key: Key, ok: bool)
    requires Exact(m, live) && Distinct(live) && Allowed(live, Connect(q, key, ok))
    ensures Exact(Update(m, live, Connect(q, key, ok)), Remember(live, Connect(q, key, ok)))
            <==> live[q].flow == Some(key) || (ok && live[q].flow == None)
  {
    var live' := Remember(live, Connect(q, key, ok));
    var m' := Update(m, live, Connect(q, key, ok));
    if live[q].flow == Some(key) {
      FlowsMember(live, q);
      assert live' == live;
    } else if !ok {
      assert key in m'.config && key !in Flows(live);
    } else if live[q].flow == None {
      FirstConnect(live, q, key);
    } else {
      var stale := live[q].flow.value;
      FlowsMember(live, q);
      assert stale in m'.config && stale !in Flows(live');
    }
  }

  lemma FirstConnect(live: Live, q: nat, key: Key)
    requires q in live && live[q].flow == None
    ensures Flows(live[q := live[q].(flow := Some(key))]) == Flows(live) + {key}
  {
    var live' := live[q := live[q].(flow := Some(key))];
    FlowsMember(live', q);
    forall k | k in Flows(live) ensures k in Flows(live') {
      var r :| r in live && live[r].flow == Some(k);
      FlowsMember(live', r);
    }
  }

  /** A drop removes its own entries and no others. */
  lemma DropExact(m: Maps, live: Live, q: nat)
    requires Exact(m, live) && Distinct(live) && q in live
    ensures Exact(Update(m, live, Drop(q)), Remember(live, Drop(q)))
    ensures forall k :: k in m.config && k !in Update(m, live, Drop(q)).config ==> live[q].flow == Some(k)
    ensures Update(m, live, Drop(q)).xsks.Keys == m.xsks.Keys - {q}
  {
    var m', live' := Update(m, live, Drop(q)), Remember(live, Drop(q));
    forall k | k in Flows(live) && live[q].flow != Some(k) ensures k in Flows(live') {
      var r :| r in live && live[r].flow == Some(k);
      FlowsMember(live', r);
    }
    forall k | k in Flows(live') ensures k in Flows(live) && live[q].flow != Some(k) {
      var r :| r in live' && live'[r].flow == Some(k);
      FlowsMember(live, r);
    }
    assert m'.config == Flows(live');
  }

  // ----- Runs -----

  /** Constructors succeed, and each socket connects once, successfully, or repeats itself. */
  ghost predicate Clean(live: Live, e: Event) {
    match e
    case New(q, fd, ok) => ok
    case Connect(q, key, ok) => q in live && (live[q].flow == Some(key) || (ok && live[q].flow == None))
    case Drop(q) => true
  }

  ghost predicate CleanRun(live: Live, es: seq<Event>)
    decreases |es|
  {
    es == [] || (Allowed(live, es[0]) && Clean(live, es[0]) && CleanRun(Remember(live, es[0]), es[1..]))
  }

  ghost function MapsAfter(m: Maps, live: Live, es: seq<Event>): Maps
    requires CleanRun(live, es)
    decreases |es|
  {
    if es == [] then m else MapsAfter(Update(m, live, es[0]), Remember(live, es[0]), es[1..])
  }

  ghost function LiveAfter(live: Live, es: seq<Event>): Live
    requires CleanRun(live, es)
    decreases |es|
  {
    if es == [] then live else LiveAfter(Remember(live, es[0]), es[1..])
  }

  /** Registration exactness over any run of any number of sockets. */
  lemma {:induction false} RunExact(m: Maps, live: Live, es: seq<Event>)
    requires Exact(m, live) && Distinct(live) && CleanRun(live, es)
    ensures Exact(MapsAfter(m, live, es), LiveAfter(live, es))
    decreases |es|
  {
    if es != [] {
      match es[0] {
        case New(q, fd, ok) => NewExactIff(m, live, q, fd, ok);
        case Connect(q, key, ok) => ConnectExactIff(m, live, q, key, ok);
        case Drop(q) => DropExact(m, live, q);
      }
      KeepsDistinct(live, es[0]);
      RunExact(Update(m, live, es[0]), Remember(live, es[0]), es[1..]);
    }
  }
}
