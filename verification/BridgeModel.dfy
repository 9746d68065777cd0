/** The TUN bridge (transport `tcp`, client role) as a transition system: the closure state
    of `attachTunBridge` as a value, one function per handler, and `Step` for the events the
    event loop can raise. The class in TunBridge.dfy is proved against these functions. */
module BridgeModel {
  import opened Bytes
  import opened Framing
  import FrameWriter
  import Icmp

  const QUEUE_MAX: nat := 256

  /** A socket is named by a number; `lazyConnect` and the listener hand out fresh ones. */
  type Sock = nat

  /** What Node shows of a socket. `finUnsafe` sockets are never ended, only destroyed;
      `broken` is the environment's: a write throws. */
  datatype SockState = SockState(
    destroyed: bool, readableEnded: bool, writableEnded: bool, writable: bool, finUnsafe: bool, broken: bool)

  /** A connection: its socket, the writer closure bound to it, and three records of
      history: whether a write threw, all data the peer ever sent, and the packets framed
      from that data. */
  datatype Conn = Conn(
    st: SockState, out: FrameWriter.Writer, lost: bool, emitted: seq<byte>, received: seq<Packet>)

  datatype Config = Config(
    keepAlive: bool, cooldownMs: nat, lazy: bool, local4: Option<seq<byte>>, writer: FrameWriter.Config)

  predicate ValidConfig(cfg: Config) {
    cfg.local4.Some? ==> |cfg.local4.value| == 4
  }

  /** A TUN packet with its arrival number. */
  datatype Tagged = Tagged(id: nat, pkt: Packet)

  /** One write to TUN: a packet framed from a socket, or the bridge's own ICMP answer. */
  datatype TunWrite = FromWire(sock: Sock, pkt: Packet) | Answer(pkt: Packet)

  /** One packet handed to the writer of one socket. */
  datatype Entry = Entry(id: nat, pkt: Packet, sock: Sock)

  /** `ep`, `armed`, `connecting`, `queue`, `framer` (the unread bytes), `writer` (the socket
      the cached `tcpFramedSend` writes to), `idleTimer` and `cooldownUntil` are the closure's
      variables; `wire` and `drain` are the sockets that carry the handlers removed by
      `wireOff` and `tcpIdleDrainOff`. `conns` are all connections the event loop knows.

      History: `connects` counts `lazyConnect` calls not yet settled, `arrivals` are the TUN
      packets, `log` lists what `sendOnWire` handed to writers, `toTun` what `tun.write` got. */
  datatype State = State(
    ep: Option<Sock>, armed: bool, connecting: bool, queue: seq<Tagged>, framer: seq<byte>,
    writer: Option<Sock>, wire: Option<Sock>, drain: Option<Sock>, idleTimer: bool, cooldownUntil: int,
    conns: map<Sock, Conn>, connects: nat, arrivals: seq<Packet>, log: seq<Entry>, toTun: seq<TunWrite>)

  // ---- Sockets ----

  function SetSocket(s: State, k: Sock, st: SockState): (s': State)
    requires k in s.conns
  {
    s.(conns := s.conns[k := s.conns[k].(st := st)])
  }

  /** `resetTcpEndpoint` */
  function Destroy(s: State, k: Option<Sock>): (s': State) {
    if k.None? || k.value !in s.conns then s
    else SetSocket(s, k.value, s.conns[k.value].st.(destroyed := true))
  }

  /** `respondFinTcpEndpoint` */
  function RespondFin(s: State, k: Option<Sock>): (s': State) {
    if k.None? || k.value !in s.conns || s.conns[k.value].st.destroyed then s
    else if s.conns[k.value].st.finUnsafe then Destroy(s, k)
    else SetSocket(s, k.value, s.conns[k.value].st.(writableEnded := true, writable := false))
  }

  predicate Destroyed(s: State, k: Sock) {
    k in s.conns && s.conns[k].st.destroyed
  }

  predicate Closing(st: SockState) {
    st.readableEnded || st.writableEnded || !st.writable
  }

  /** `closeBridgeEndpoint` for a client */
  function CloseEndpoint(s: State, k: Option<Sock>): (s': State) {
    if k.None? || k.value !in s.conns || s.conns[k.value].st.destroyed then s
    else if Closing(s.conns[k.value].st) then Destroy(s, k)
    else RespondFin(s, k)
  }

  function Accept(s: State, k: Sock, st: SockState): (s': State) {
    s.(conns := s.conns[k := Conn(st, FrameWriter.Idle, false, [], [])])
  }

  // ---- Small closures ----

  /** `clearTcpEndpointRef` */
  function ClearEp(s: State, k: Option<Sock>): (s': State) {
    if k.Some? && s.ep == k then s.(ep := None, writer := None) else s
  }

  function DrainOff(s: State): (s': State) {
    s.(drain := None)
  }

  function Bump(cfg: Config, s: State): (s': State) {
    if cfg.keepAlive then s.(idleTimer := true) else s
  }

  // ---- Tear-down ----

  /** Timers, handlers and queue of the wire go. */
  function Stopped(s: State): (s': State) {
    s.(idleTimer := false, wire := None, armed := false, queue := [])
  }

  /** ... and the endpoint with its writer and drain handlers. */
  function Unwired(s: State): (s': State) {
    Stopped(s).(ep := None, writer := None, drain := None)
  }

  function Cooled(cfg: Config, s: State, now: int): (s': State) {
    if cfg.cooldownMs > 0 && cfg.lazy then s.(cooldownUntil := now + cfg.cooldownMs) else s
  }

  /** `teardownWire` for the peer's reasons; `fin` is `peer_close`. */
  function Teardown(s: State, fin: bool): (s': State) {
    if !s.armed && s.ep.None? && !s.connecting then s.(queue := [])
    else
      if fin then RespondFin(Unwired(s), s.ep) else Destroy(Unwired(s), s.ep)
  }

  /** `handleTcpWireFailure`: it acts on `ep`, whichever socket reported the error. */
  function Failure(s: State): (s': State) {
    if s.armed then Teardown(s, false)
    else if s.ep.None? then s
    else Destroy(ClearEp(DrainOff(s), s.ep), s.ep)
  }

  /** `tcpClientIdleDisarm` */
  function IdleDisarm(cfg: Config, s: State, now: int): (s': State) {
    if !s.armed && s.ep.None? then s
    else
      var s1 := Cooled(cfg, Stopped(s), now);
      if s.ep.Some? && !Destroyed(s, s.ep.value) then s1.(drain := s.ep) else s1
  }

  // ---- Sending ----

  /** The writer's `onWriteError` for endpoint `k`, synchronous or not */
  function WriteError(s: State, k: Sock): (s': State) {
    if s.ep == Some(k) then Failure(s) else s
  }

  /** The socket the next packet goes to: a cached writer keeps its own endpoint. */
  function Target(s: State): (k: Option<Sock>) {
    if s.writer.Some? then s.writer else s.ep
  }

  /** `sendOnWire`; a write that throws reports to `handleTcpWireFailure` at once, if the
      writer's endpoint is still the wire. */
  function SendOnWire(cfg: Config, s: State, t: Tagged): (s': State) {
    if !s.armed || s.ep.None? || Target(s).value !in s.conns then s
    else
      var k := Target(s).value;
      var w := if s.writer.Some? then s.conns[k].out else FrameWriter.Idle;
      var s1 := Handed(cfg, s, t, k, w);
      if Throws(cfg, s, t, k, w) then WriteError(s1, k) else s1
  }

  predicate Throws(cfg: Config, s: State, t: Tagged, k: Sock, w: FrameWriter.Writer)
    requires k in s.conns
  {
    s.conns[k].st.broken && FrameWriter.SendWrites(cfg.writer, w, t.pkt)
  }

  /** The packet is in the hands of the writer for `k`, whose state was `w`. */
  function Handed(cfg: Config, s: State, t: Tagged, k: Sock, w: FrameWriter.Writer): (s': State)
    requires k in s.conns
  {
    var c := s.conns[k].(out := FrameWriter.Send(cfg.writer, w, t.pkt, s.conns[k].st.broken),
                         lost := s.conns[k].lost || Throws(cfg, s, t, k, w));
    Bump(cfg, s).(writer := Some(k), log := s.log + [Entry(t.id, t.pkt, k)], conns := s.conns[k := c])
  }

  function SendAll(cfg: Config, s: State, pending: seq<Tagged>): (s': State)
    decreases |pending|
  {
    if pending == [] then s else SendAll(cfg, SendOnWire(cfg, s, pending[0]), pending[1..])
  }

  // ---- Connecting ----

  /** `rearmTcpClientWire`. On a closing socket the source clears `ep` before it resets
      `ep`, so that socket itself is not destroyed. */
  function Rearm(cfg: Config, s: State): (r: (State, bool)) {
    if s.armed || s.connecting then (s, false)
    else if s.ep.None? || s.ep.value !in s.conns || s.conns[s.ep.value].st.destroyed then (s, false)
    else if Closing(s.conns[s.ep.value].st) then (ClearEp(DrainOff(s), s.ep), false)
    else (Bump(cfg, DrainOff(s).(wire := s.ep, armed := true)), true)
  }

  /** `ensureWire` up to the `await` */
  function EnsureWire(cfg: Config, s: State): (s': State) {
    if s.armed || s.connecting then s
    else
      var (s1, reused) := Rearm(cfg, s);
      if reused then SendAll(cfg, Emptied(s1), s1.queue)
      else if !cfg.lazy then s1
      else s1.(connecting := true, connects := s1.connects + 1)
  }

  /** The fresh socket `k` becomes the wire: a new framer, no cached writer. */
  function Arm(cfg: Config, s: State, k: Sock): (s': State) {
    Bump(cfg, s.(ep := Some(k), armed := true, writer := None, framer := [], wire := Some(k)))
  }

  /** `ensureWire` after `lazyConnect` resolved with the fresh socket `k` */
  function Connected(cfg: Config, s: State, k: Sock, st: SockState): (s': State) {
    var s1 := Arm(cfg, DrainOff(Accept(s, k, st)), k);
    Settled(SendAll(cfg, Emptied(s1), s1.queue))
  }

  function Emptied(s: State): (s': State) {
    s.(queue := [])
  }

  /** The `finally` of `ensureWire` */
  function Settled(s: State): (s': State) {
    s.(connecting := false, connects := if s.connects == 0 then 0 else s.connects - 1)
  }

  /** `ensureWire` after `lazyConnect` rejected */
  function ConnectFailed(s: State): (s': State) {
    Settled(s.(armed := false, ep := None, writer := None))
  }

  /** Timers, wire handlers and queue, as `reconnectWire` lets go of them */
  function Released(s: State): (s': State) {
    s.(wire := None, idleTimer := false, queue := [])
  }

  /** `reconnectWire`. Unlike `ensureWire` it does not remove idle-drain handlers. */
  function Reconnect(cfg: Config, s: State, k: Sock, st: SockState): (s': State) {
    if s.connecting then Accept(s, k, st)
    else
      var s1 := Arm(cfg, Released(Accept(s, k, st)), k);
      SendAll(cfg, CloseEndpoint(s1, s.ep), s.queue)
  }

  // ---- Events ----

  /** What the bridge does with a packet read from TUN. `ipId` and `fill` are the
      identification and the unwritten octets of a possible ICMP answer. */
  datatype Verdict = Drop | Respond(reply: Packet) | Cross

  function Judge(cfg: Config, pkt: Packet, ipId: nat, fill: seq<byte>): (v: Verdict)
    requires ValidConfig(cfg) && |fill| == 4
  {
    if |pkt| == 0 || |pkt| > MAX_PKT then Drop
    else if cfg.local4.Some? && Icmp.IsEchoRequest(pkt, cfg.local4.value) then
      Respond(Icmp.Reply(pkt, ipId % 0x1_0000, fill))
    else if !Icmp.IsIpv4Bridgeable(pkt) then Drop
    else Cross
  }

  /** A packet read from TUN. `wanted` and `ready` are the answers of the caller's
      `lazyConnectFilter` and `tunOutboundSendIf`. */
  function TunPacket(cfg: Config, s: State, pkt: Packet, v: Verdict, now: int, wanted: bool, ready: bool): (s': State) {
    match v
    case Drop => Arrived(s, pkt)
    case Respond(reply) => Answered(Arrived(s, pkt), reply)
    case Cross => Outbound(cfg, Arrived(s, pkt), Tagged(|s.arrivals|, pkt), now, wanted, ready)
  }

  function Arrived(s: State, pkt: Packet): (s': State) {
    s.(arrivals := s.arrivals + [pkt])
  }

  function Answered(s: State, reply: Packet): (s': State) {
    s.(toTun := s.toTun + [Answer(reply)])
  }

  /** The fate of a packet that may cross the bridge. */
  function Outbound(cfg: Config, s: State, t: Tagged, now: int, wanted: bool, ready: bool): (s': State) {
    if !s.armed && cfg.lazy then
      if now < s.cooldownUntil || !wanted then s
      else
        var (s1, reused) := Rearm(cfg, s);
        if reused then if ready then SendOnWire(cfg, s1, t) else s1
        else EnsureWire(cfg, s1.(queue := Enqueue(s1.queue, t)))
    else if !s.armed || !ready then s
    else SendOnWire(cfg, s, t)
  }

  /** The queue keeps the newest packets. */
  function Enqueue(queue: seq<Tagged>, t: Tagged): (q: seq<Tagged>) {
    (if |queue| >= QUEUE_MAX then queue[1..] else queue) + [t]
  }

  /** `writeTun` without an IPv6 role: IPv6 packets are dropped. */
  function NotV6(pkts: seq<Packet>): (r: seq<Packet>)
    decreases |pkts|
  {
    if pkts == [] then []
    else
      var p := pkts[|pkts| - 1];
      NotV6(pkts[..|pkts| - 1]) + if p != [] && p[0] / 16 == 6 then [] else [p]
  }

  function FromSocket(k: Sock, pkts: seq<Packet>): (r: seq<TunWrite>) {
    seq(|pkts|, i requires 0 <= i < |pkts| => FromWire(k, pkts[i]))
  }

  /** Data from a peer reaches whichever handler the socket carries. */
  function PeerData(cfg: Config, s: State, k: Sock, chunk: seq<byte>): (s': State)
    requires k in s.conns
  {
    if s.conns[k].st.destroyed then s
    else if s.wire == Some(k) then WireData(cfg, s, k, chunk)
    else StrayData(s, k, chunk)
  }

  function WireData(cfg: Config, s: State, k: Sock, chunk: seq<byte>): (s': State)
    requires k in s.conns
  {
    var s1 := Framed(cfg, s, k, chunk);
    if Parse(BridgeLimits, s.framer + chunk).bad then Destroy(s1, Some(k)) else s1
  }

  /** Data on a socket that is not the wire: nobody reads it, except that the drain handlers
      of an idle socket reset it. */
  function StrayData(s: State, k: Sock, chunk: seq<byte>): (s': State)
    requires k in s.conns
  {
    var c := s.conns[k].(emitted := s.conns[k].emitted + chunk);
    var s1 := s.(conns := s.conns[k := c]);
    if s.drain == Some(k) then Destroy(ClearEp(DrainOff(s1), Some(k)), Some(k)) else s1
  }

  /** `framer.push` with `writeTun` as its callback */
  function Framed(cfg: Config, s: State, k: Sock, chunk: seq<byte>): (s': State)
    requires k in s.conns
  {
    var p := Parse(BridgeLimits, s.framer + chunk);
    var c := s.conns[k];
    Bump(cfg, s).(
      framer := if p.bad then [] else p.rest, toTun := s.toTun + FromSocket(k, NotV6(p.packets)),
      conns := s.conns[k := c.(emitted := c.emitted + chunk, received := c.received + p.packets)])
  }

  function PeerEnd(s: State, k: Sock): (s': State)
    requires k in s.conns
  {
    var s1 := SetSocket(s, k, s.conns[k].st.(readableEnded := true));
    if s1.wire == Some(k) then if s1.armed then Teardown(s1, true) else s1
    else if s1.drain == Some(k) then RespondFin(s1, Some(k))
    else s1
  }

  function PeerClose(s: State, k: Sock): (s': State) {
    var s1 := Destroy(s, Some(k));
    if s1.wire == Some(k) then
      if s1.armed then Teardown(DrainOff(s1), true) else ClearEp(DrainOff(s1), Some(k))
    else if s1.drain == Some(k) then ClearEp(DrainOff(s1), Some(k))
    else s1
  }

  function PeerError(s: State, k: Sock): (s': State) {
    if s.wire == Some(k) || s.drain == Some(k) then Failure(s) else s
  }

  function IdleFires(cfg: Config, s: State, now: int): (s': State) {
    if !s.idleTimer then s else IdleDisarm(cfg, s.(idleTimer := false), now)
  }

  /** A deferred flush of the writer of `k` runs, also after `k` is no longer the wire. */
  function FlushFires(cfg: Config, s: State, k: Sock, timer: bool): (s': State)
    requires k in s.conns
  {
    var s1 := Flushed(cfg, s, k, timer);
    if FlushThrows(s.conns[k], timer) then WriteError(s1, k) else s1
  }

  predicate FlushThrows(c: Conn, timer: bool) {
    c.st.broken && c.out.batchLen > 0 && if timer then c.out.timer else c.out.immediates > 0
  }

  function Flushed(cfg: Config, s: State, k: Sock, timer: bool): (s': State)
    requires k in s.conns
  {
    var c := s.conns[k];
    var e := if timer then FrameWriter.Timer(c.st.broken) else FrameWriter.Immediate(c.st.broken);
    s.(conns := s.conns[k := c.(out := FrameWriter.Step(cfg.writer, c.out, e), lost := c.lost || FlushThrows(c, timer))])
  }

  /** Whatever else happens to a socket; what it lost it does not get back. */
  function SocketChanges(s: State, k: Sock, st: SockState): (s': State)
    requires k in s.conns
  {
    var was := s.conns[k].st;
    SetSocket(s, k, st.(destroyed := st.destroyed || was.destroyed, finUnsafe := was.finUnsafe,
                        readableEnded := st.readableEnded || was.readableEnded,
                        writableEnded := st.writableEnded || was.writableEnded))
  }

  datatype Event =
    | TunRead(pkt: Packet, now: int, wanted: bool, ready: bool, ipId: nat, fill: seq<byte>)
    | ConnectResolves(k: Sock, st: SockState)
    | ConnectRejects
    | InboundReconnect(k: Sock, st: SockState)
    | EnsureWireCalled
    | Data(k: Sock, chunk: seq<byte>)
    | End(k: Sock)
    | Close(k: Sock)
    | Error(k: Sock)
    | WriteFails(k: Sock)
    | IdleTimeout(now: int)
    | Deferred(k: Sock, timer: bool)
    | SockEvent(k: Sock, st: SockState)

  /** The events the event loop can raise in a state: promises settle once, sockets are
      fresh when handed over and known afterwards, writers flush only if they exist. */
  predicate Enabled(s: State, e: Event) {
    match e
    case TunRead(_, _, _, _, _, fill) => |fill| == 4
    case ConnectResolves(k, _) => s.connecting && k !in s.conns
    case ConnectRejects => s.connecting
    case InboundReconnect(k, _) => k !in s.conns
    case EnsureWireCalled => true
    case Data(k, _) => k in s.conns
    case End(k) => k in s.conns
    case Close(k) => k in s.conns
    case Error(k) => k in s.conns
    case WriteFails(k) => k in s.conns
    case IdleTimeout(_) => s.idleTimer
    case Deferred(k, _) => k in s.conns
    case SockEvent(k, _) => k in s.conns
  }

  function Step(cfg: Config, s: State, e: Event): (s': State)
    requires ValidConfig(cfg)
  {
    if !Enabled(s, e) then s else
    match e
    case TunRead(pkt, now, wanted, ready, ipId, fill) =>
      TunPacket(cfg, s, pkt, Judge(cfg, pkt, ipId, fill), now, wanted, ready)
    case ConnectResolves(k, st) => Connected(cfg, s, k, st)
    case ConnectRejects => ConnectFailed(s)
    case InboundReconnect(k, st) => Reconnect(cfg, s, k, st)
    case EnsureWireCalled => EnsureWire(cfg, s)
    case Data(k, chunk) => PeerData(cfg, s, k, chunk)
    case End(k) => PeerEnd(s, k)
    case Close(k) => PeerClose(s, k)
    case Error(k) => PeerError(s, k)
    case WriteFails(k) => WriteError(s, k)
    case IdleTimeout(now) => IdleFires(cfg, s, now)
    case Deferred(k, timer) => FlushFires(cfg, s, k, timer)
    case SockEvent(k, st) => SocketChanges(s, k, st)
  }

  /** `attachTunBridge`: with `lazyConnect` it starts unconnected, otherwise armed on the
      given socket. */
  function Init(cfg: Config, k: Sock, st: SockState): (s: State) {
    var blank := State(None, false, false, [], [], None, None, None, false, 0,
                       map[], 0, [], [], []);
    if cfg.lazy then blank else Arm(cfg, Accept(blank, k, st), k)
  }

  function Run(cfg: Config, s: State, events: seq<Event>): (s': State)
    requires ValidConfig(cfg)
    decreases |events|
  {
    if events == [] then s
    else Step(cfg, Run(cfg, s, events[..|events| - 1]), events[|events| - 1])
  }

  lemma {:induction false} RunSnoc(cfg: Config, s: State, events: seq<Event>, e: Event)
    requires ValidConfig(cfg)
    ensures Run(cfg, s, events + [e]) == Step(cfg, Run(cfg, s, events), e)
  {
    assert (events + [e])[..|events|] == events;
  }
}
