/** What the bridge promises over whole runs. BridgeHandover.dfy has the two places where it
    promises less than a reader of its interface would expect. */
module BridgeTheorems {
  import opened Bytes
  import opened Framing
  import FrameWriter
  import opened BridgeModel
  import opened BridgeControl
  import opened BridgeInput
  import opened BridgeOutput

  lemma InitHolds(cfg: Config, k: Sock, st: SockState)
    ensures var s := Init(cfg, k, st);
      Control(cfg, s) && Input(s) && Output(cfg, s, s.queue)
  {
    assert Frames([]) == [] && NotV6([]) == [];
    var s := Init(cfg, k, st);
    forall j: Sock
      ensures InputOk(s, j) && OutputAt(cfg, s, j)
    {}
  }

  lemma {:induction false} ReachableHolds(cfg: Config, k: Sock, st: SockState, events: seq<Event>)
    requires ValidConfig(cfg)
    ensures var s := Run(cfg, Init(cfg, k, st), events);
      Control(cfg, s) && Input(s) && Output(cfg, s, s.queue)
    decreases |events|
  {
    if events == [] {
      InitHolds(cfg, k, st);
    } else {
      var init, e := events[..|events| - 1], events[|events| - 1];
      ReachableHolds(cfg, k, st, init);
      var s := Run(cfg, Init(cfg, k, st), init);
      StepKeepsControl(cfg, s, e);
      StepKeepsInput(cfg, s, e);
      StepKeepsOutput(cfg, s, e);
    }
  }

  /** In every reachable state: an armed bridge has a socket, an empty queue and no connect
      under way; packets wait only while connecting or without a socket, never more than
      256; at most one `lazyConnect` is in flight; the cached writer belongs to the current
      socket; the idle timer runs exactly while armed. */
  lemma {:induction false} BridgeInvariant(cfg: Config, k: Sock, st: SockState, events: seq<Event>)
    requires ValidConfig(cfg)
    ensures var s := Run(cfg, Init(cfg, k, st), events);
      && (s.armed ==> s.ep.Some? && s.queue == [] && !s.connecting)
      && (s.queue != [] && !s.connecting ==> s.ep.None?)
      && |s.queue| <= 256
      && s.connects == (if s.connecting then 1 else 0)
      && (s.writer.Some? ==> s.writer == s.ep)
      && s.idleTimer == (s.armed && cfg.keepAlive)
  {
    ReachableHolds(cfg, k, st, events);
  }

  /** The packets read from TUN in a run, in order. */
  function Reads(events: seq<Event>): (pkts: seq<Packet>)
    decreases |events|
  {
    if events == [] then [] else Reads(events[..|events| - 1]) + ReadOf(events[|events| - 1])
  }

  function ReadOf(e: Event): (pkts: seq<Packet>) {
    if e.TunRead? && |e.fill| == 4 then [e.pkt] else []
  }

  /** In every reachable state the packets handed to sockets, over all sockets together, and
      behind them those still waiting, are a subsequence of the packets read from TUN: each is
      the packet at its number, and the numbers increase. */
  lemma {:induction false} WireOrder(cfg: Config, k: Sock, st: SockState, events: seq<Event>)
    requires ValidConfig(cfg)
    ensures var s := Run(cfg, Init(cfg, k, st), events);
      && (forall i | 0 <= i < |s.log| :: Came(Reads(events), s.log[i].id, s.log[i].pkt))
      && (forall i | 0 <= i < |s.queue| :: Came(Reads(events), s.queue[i].id, s.queue[i].pkt))
      && (forall i, j | 0 <= i < j < |s.log| :: s.log[i].id < s.log[j].id)
      && (forall i, j | 0 <= i < |s.log| && 0 <= j < |s.queue| :: s.log[i].id < s.queue[j].id)
      && (forall i, j | 0 <= i < j < |s.queue| :: s.queue[i].id < s.queue[j].id)
  {
    ReachableHolds(cfg, k, st, events);
    ArrivalsAre(cfg, k, st, events);
  }

  lemma {:induction false} ArrivalsAre(cfg: Config, k: Sock, st: SockState, events: seq<Event>)
    requires ValidConfig(cfg)
    ensures Run(cfg, Init(cfg, k, st), events).arrivals == Reads(events)
    decreases |events|
  {
    if events != [] {
      var init, e := events[..|events| - 1], events[|events| - 1];
      ArrivalsAre(cfg, k, st, init);
      StepArrivals(cfg, Run(cfg, Init(cfg, k, st), init), e);
    }
  }

  lemma {:induction false} SendAllArrivals(cfg: Config, s: State, pending: seq<Tagged>)
    ensures SendAll(cfg, s, pending).arrivals == s.arrivals
    decreases |pending|
  {
    if pending != [] {
      SendAllArrivals(cfg, SendOnWire(cfg, s, pending[0]), pending[1..]);
    }
  }

  lemma EnsureWireArrivals(cfg: Config, s: State)
    ensures EnsureWire(cfg, s).arrivals == s.arrivals
  {
    var s1 := Rearm(cfg, s).0;
    SendAllArrivals(cfg, Emptied(s1), s1.queue);
  }

  lemma OutboundArrivals(cfg: Config, s: State, t: Tagged, now: int, wanted: bool, ready: bool)
    ensures Outbound(cfg, s, t, now, wanted, ready).arrivals == s.arrivals
  {
    var s1 := Rearm(cfg, s).0;
    EnsureWireArrivals(cfg, s1.(queue := Enqueue(s1.queue, t)));
  }

  lemma ArmedArrivals(cfg: Config, s: State, k: Sock, st: SockState)
    ensures Connected(cfg, s, k, st).arrivals == s.arrivals && Reconnect(cfg, s, k, st).arrivals == s.arrivals
  {
    var s1 := Arm(cfg, DrainOff(Accept(s, k, st)), k);
    SendAllArrivals(cfg, Emptied(s1), s1.queue);
    var s2 := Arm(cfg, Released(Accept(s, k, st)), k);
    SendAllArrivals(cfg, CloseEndpoint(s2, s.ep), s.queue);
  }

  lemma DataArrivals(cfg: Config, s: State, k: Sock, chunk: seq<byte>)
    requires k in s.conns
    ensures PeerData(cfg, s, k, chunk).arrivals == s.arrivals
  {
    assert WireData(cfg, s, k, chunk).arrivals == s.arrivals;
  }

  lemma EndArrivals(s: State, k: Sock)
    requires k in s.conns
    ensures PeerEnd(s, k).arrivals == s.arrivals
  {}

  lemma CloseArrivals(s: State, k: Sock)
    requires k in s.conns
    ensures PeerClose(s, k).arrivals == s.arrivals
  {}

  lemma ErrorArrivals(s: State, k: Sock)
    ensures PeerError(s, k).arrivals == s.arrivals && WriteError(s, k).arrivals == s.arrivals
  {}

  lemma FlushArrivals(cfg: Config, s: State, k: Sock, timer: bool)
    requires k in s.conns
    ensures FlushFires(cfg, s, k, timer).arrivals == s.arrivals
  {
    ErrorArrivals(Flushed(cfg, s, k, timer), k);
  }

  /** Reading from TUN is the only event that adds an arrival. */
  lemma StepArrivals(cfg: Config, s: State, e: Event)
    requires ValidConfig(cfg)
    ensures Step(cfg, s, e).arrivals == s.arrivals + ReadOf(e)
  {
    if Enabled(s, e) {
      match e
      case TunRead(pkt, now, wanted, ready, ipId, fill) =>
        OutboundArrivals(cfg, Arrived(s, pkt), Tagged(|s.arrivals|, pkt), now, wanted, ready);
      case ConnectResolves(k, st) => ArmedArrivals(cfg, s, k, st);
      case InboundReconnect(k, st) => ArmedArrivals(cfg, s, k, st);
      case EnsureWireCalled => EnsureWireArrivals(cfg, s);
      case Data(k, chunk) => DataArrivals(cfg, s, k, chunk);
      case End(k) => EndArrivals(s, k);
      case Close(k) => CloseArrivals(s, k);
      case Error(k) => ErrorArrivals(s, k);
      case WriteFails(k) => ErrorArrivals(s, k);
      case Deferred(k, timer) => FlushArrivals(cfg, s, k, timer);
      case _ =>
    }
  }

  /** From TUN to the far end: on every connection, live or dropped, whatever bytes were
      written and however they are re-chunked or cut short, the far framer delivers a prefix
      of the packets handed to that connection and never fails. */
  lemma {:induction false} FarEndDelivers(cfg: Config, k: Sock, st: SockState, events: seq<Event>, j: Sock, chunks: seq<seq<byte>>)
    requires ValidConfig(cfg)
    requires var s := Run(cfg, Init(cfg, k, st), events);
      j in s.conns && Flatten(chunks) <= s.conns[j].out.out
    ensures var s := Run(cfg, Init(cfg, k, st), events);
      var r := PushAll(BridgeLimits, Fresh, chunks);
      && !r.failed && r.delivered <= OnLog(s.log, j)
      && (!s.conns[j].lost && s.conns[j].out.batch == [] && Flatten(chunks) == s.conns[j].out.out ==>
            r == Receiver([], OnLog(s.log, j), false))
  {
    ReachableHolds(cfg, k, st, events);
    var s := Run(cfg, Init(cfg, k, st), events);
    var w := s.conns[j].out;
    assert OutputAt(cfg, s, j);
    FlushedPrefix(cfg, s.conns[j], OnLog(s.log, j), s.ep == Some(j));
    assert [] + Flatten(chunks) == Flatten(chunks);
    ChunkingInvisible(BridgeLimits, Fresh, [], chunks);
    PrefixOfEncoded(BridgeLimits, w.flushed, Flatten(chunks));
  }

  lemma FlushedPrefix(cfg: Config, c: Conn, handed: seq<Packet>, isWire: bool)
    requires OutputOk(cfg, c, handed, isWire)
    ensures c.out.flushed <= handed && Sendable(BridgeLimits, c.out.flushed)
    ensures !c.lost && c.out.batch == [] ==> c.out.flushed == handed
  {
    assert c.out.flushed <= handed;
    assert forall i | 0 <= i < |c.out.flushed| :: c.out.flushed[i] == handed[i];
    if c.out.batch == [] {
      assert c.out.pending == [] by { assert |Frames(c.out.pending)| == |c.out.pending|; }
    }
  }

  /** From the wire to TUN: what TUN got from a connection are, IPv6 aside, the first packets
      of the parse of what that peer alone sent; for the live connection they are all of
      them, so no byte of it was skipped or mixed with another connection's. */
  lemma {:induction false} TunGetsStream(cfg: Config, k: Sock, st: SockState, events: seq<Event>, j: Sock)
    requires ValidConfig(cfg)
    ensures var s := Run(cfg, Init(cfg, k, st), events);
      if j !in s.conns then OnTun(s.toTun, j) == []
      else
        var p := Parse(BridgeLimits, s.conns[j].emitted);
        && OnTun(s.toTun, j) == NotV6(s.conns[j].received)
        && s.conns[j].received <= p.packets
        && (s.ep == Some(j) ==> s.conns[j].received == p.packets)
  {
    ReachableHolds(cfg, k, st, events);
    assert InputOk(Run(cfg, Init(cfg, k, st), events), j);
  }

  /** The log entries for sending `pending` on `k`. */
  function Entries(pending: seq<Tagged>, k: Sock): (r: seq<Entry>)
    decreases |pending|
  {
    if pending == [] then [] else [Entry(pending[0].id, pending[0].pkt, k)] + Entries(pending[1..], k)
  }

  lemma {:induction false} SendAllLogs(cfg: Config, s: State, pending: seq<Tagged>, k: Sock)
    requires Wiring(cfg, s) && s.armed && s.ep == Some(k) && !s.conns[k].st.broken
    ensures var s' := SendAll(cfg, s, pending);
      s'.armed && s'.ep == s.ep && s'.drain == s.drain && s'.log == s.log + Entries(pending, k)
    decreases |pending|
  {
    if pending != [] {
      var s1 := SendOnWire(cfg, s, pending[0]);
      SendKeeps(cfg, s, pending[0]);
      SendLogs(cfg, s, pending[0], k);
      SendAllLogs(cfg, s1, pending[1..], k);
      EntriesCons(s.log, pending, k);
    }
  }

  lemma {:induction false} EntriesCons(log: seq<Entry>, pending: seq<Tagged>, k: Sock)
    requires pending != []
    ensures log + [Entry(pending[0].id, pending[0].pkt, k)] + Entries(pending[1..], k) == log + Entries(pending, k)
  {}

  lemma SendLogs(cfg: Config, s: State, t: Tagged, k: Sock)
    requires Wiring(cfg, s) && s.armed && s.ep == Some(k) && !s.conns[k].st.broken
    ensures var s1 := SendOnWire(cfg, s, t);
      && s1.armed && s1.ep == s.ep && s1.drain == s.drain && !s1.conns[k].st.broken
      && s1.log == s.log + [Entry(t.id, t.pkt, k)]
  {}

  /** When the pending connect resolves with a socket that accepts writes, everything that
      waited goes out on it, in order, before anything else can. */
  lemma {:induction false} ConnectDrainsQueue(cfg: Config, s: State, k: Sock, st: SockState)
    requires Control(cfg, s) && s.connecting && k !in s.conns && !st.broken
    ensures var s' := Connected(cfg, s, k, st);
      && s'.armed && s'.ep == Some(k) && s'.queue == [] && !s'.connecting
      && s'.log == s.log + Entries(s.queue, k)
  {
    var s0 := DrainOff(Accept(s, k, st));
    var s1 := Arm(cfg, s0, k).(queue := []);
    ArmKeeps(cfg, s0, k);
    SendAllKeeps(cfg, s1, s.queue);
    SendAllLogs(cfg, s1, s.queue, k);
  }
}
