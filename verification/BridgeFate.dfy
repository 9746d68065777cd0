/** What becomes of every event: the state after it, told by the fields of the state before.
    Together with the invariants these leave no handler free to do less than it should. */
module BridgeFate {
  import opened Bytes
  import opened Framing
  import FrameWriter
  import Icmp
  import opened BridgeModel
  import opened BridgeControl
  import opened BridgeTheorems

  // ---- The start ----

  /** With `lazyConnect` the bridge starts without a socket, otherwise armed on the given one. */
  lemma InitFate(cfg: Config, k: Sock, st: SockState)
    requires ValidConfig(cfg)
    ensures var s := Init(cfg, k, st);
      && s.armed == !cfg.lazy && s.ep == s.wire == (if cfg.lazy then None else Some(k)) && s.drain == s.writer == None
      && s.conns.Keys == (if cfg.lazy then {} else {k}) && (!cfg.lazy ==> s.conns[k].st == st)
      && !s.connecting && s.queue == [] && s.log == [] && s.toTun == [] && s.arrivals == [] && s.cooldownUntil == 0
  {}

  // ---- A packet read from TUN ----

  /** An echo request the bridge answers itself. */
  predicate Asks(cfg: Config, pkt: Packet)
    requires ValidConfig(cfg)
  {
    1 <= |pkt| <= 65535 && cfg.local4.Some? && Icmp.IsEchoRequest(pkt, cfg.local4.value)
  }

  predicate Crosses(cfg: Config, pkt: Packet)
    requires ValidConfig(cfg)
  {
    1 <= |pkt| <= 65535 && !Asks(cfg, pkt) && Icmp.IsIpv4Bridgeable(pkt)
  }

  /** A packet that may not cross is counted, and answered exactly if it is an echo request
      to the local address; nothing else changes. */
  lemma RefusedFate(cfg: Config, s: State, pkt: Packet, now: int, wanted: bool, ready: bool, ipId: nat, fill: seq<byte>)
    requires ValidConfig(cfg) && |fill| == 4 && !Crosses(cfg, pkt)
    ensures var answers := if Asks(cfg, pkt) then [Answer(Icmp.Reply(pkt, ipId % 0x1_0000, fill))] else [];
      Step(cfg, s, TunRead(pkt, now, wanted, ready, ipId, fill))
      == s.(arrivals := s.arrivals + [pkt], toTun := s.toTun + answers)
  {
    assert s.toTun + [] == s.toTun;
  }

  /** On an armed bridge it goes to the current socket exactly if the caller's filter lets it,
      and the bridge stays armed unless a write throws. */
  lemma ArmedFate(cfg: Config, s: State, pkt: Packet, now: int, wanted: bool, ready: bool, ipId: nat, fill: seq<byte>)
    requires ValidConfig(cfg) && Control(cfg, s) && |fill| == 4 && Crosses(cfg, pkt) && s.armed
    ensures var s' := Step(cfg, s, TunRead(pkt, now, wanted, ready, ipId, fill));
      && s'.arrivals == s.arrivals + [pkt] && s'.toTun == s.toTun && s'.queue == s.queue
      && (!ready ==> s' == s.(arrivals := s.arrivals + [pkt]))
      && (ready ==> s'.log == s.log + [Entry(|s.arrivals|, pkt, s.ep.value)])
      && (ready && !s.conns[s.ep.value].st.broken ==> s'.armed && s'.ep == s.ep)
  {
    if ready {
      SendFate(cfg, Arrived(s, pkt), Tagged(|s.arrivals|, pkt));
    }
  }

  lemma SendFate(cfg: Config, s: State, t: Tagged)
    requires Wiring(cfg, s) && s.armed
    ensures var s' := SendOnWire(cfg, s, t);
      && s'.log == s.log + [Entry(t.id, t.pkt, s.ep.value)] && s'.queue == s.queue
      && s'.arrivals == s.arrivals && s'.toTun == s.toTun
      && (!s.conns[s.ep.value].st.broken ==> s'.armed && s'.ep == s.ep)
  {}

  /** An idle socket that can carry the next packet. */
  predicate Reusable(s: State) {
    && !s.connecting && s.ep.Some? && s.ep.value in s.conns
    && var st := s.conns[s.ep.value].st; !st.destroyed && !st.readableEnded && !st.writableEnded && st.writable
  }

  /** A disarmed bridge drops the packet exactly if it cannot connect, is cooling down or the
      caller does not want a connection for it. Otherwise a reusable socket is the wire again
      and takes the packet if the filter lets it; without one the packet waits last, the oldest
      going when 256 wait, and a connect is under way. */
  lemma DisarmedFate(cfg: Config, s: State, pkt: Packet, now: int, wanted: bool, ready: bool, ipId: nat, fill: seq<byte>)
    requires ValidConfig(cfg) && Control(cfg, s) && |fill| == 4 && Crosses(cfg, pkt) && !s.armed
    ensures var s' := Step(cfg, s, TunRead(pkt, now, wanted, ready, ipId, fill));
      && s'.arrivals == s.arrivals + [pkt] && s'.toTun == s.toTun
      && if !cfg.lazy || now < s.cooldownUntil || !wanted then s' == s.(arrivals := s.arrivals + [pkt])
         else if Reusable(s) then
           && s'.queue == s.queue && s'.connecting == s.connecting
           && s'.log == s.log + (if ready then [Entry(|s.arrivals|, pkt, s.ep.value)] else [])
           && (!ready || !s.conns[s.ep.value].st.broken ==> s'.armed && s'.ep == s.ep)
         else
           && s'.log == s.log && !s'.armed && s'.connecting && s'.connects == 1
           && s'.queue == (if |s.queue| < 256 then s.queue else s.queue[1..]) + [Tagged(|s.arrivals|, pkt)]
  {
    if cfg.lazy && now >= s.cooldownUntil && wanted {
      RearmKeeps(cfg, s);
      if Reusable(s) {
        ReuseFate(cfg, Arrived(s, pkt), Tagged(|s.arrivals|, pkt), ready);
      } else {
        QueueFate(cfg, Arrived(s, pkt), Tagged(|s.arrivals|, pkt));
      }
    }
  }

  lemma ReuseFate(cfg: Config, s: State, t: Tagged, ready: bool)
    requires Control(cfg, s) && !s.armed && Reusable(s)
    ensures var (s1, reused) := Rearm(cfg, s);
      var s' := if ready then SendOnWire(cfg, s1, t) else s1;
      && reused && s'.queue == s.queue && s'.connecting == s.connecting
      && s'.arrivals == s.arrivals && s'.toTun == s.toTun
      && s'.log == s.log + (if ready then [Entry(t.id, t.pkt, s.ep.value)] else [])
      && (!ready || !s.conns[s.ep.value].st.broken ==> s'.armed && s'.ep == s.ep)
  {
    RearmKeeps(cfg, s);
    SendFate(cfg, Rearm(cfg, s).0, t);
  }

  lemma QueueFate(cfg: Config, s: State, t: Tagged)
    requires Control(cfg, s) && !s.armed && !Reusable(s) && cfg.lazy
    ensures var (s1, reused) := Rearm(cfg, s);
      var s' := EnsureWire(cfg, s1.(queue := Enqueue(s1.queue, t)));
      && !reused && s'.log == s.log && !s'.armed && s'.connecting && s'.connects == 1
      && s'.arrivals == s.arrivals && s'.toTun == s.toTun
      && s'.queue == (if |s.queue| < 256 then s.queue else s.queue[1..]) + [t]
  {}

  // ---- Idle timeout and cooldown ----

  /** The idle timer disarms the bridge, keeps the socket under drain handlers and starts the
      cooldown. */
  lemma IdleFate(cfg: Config, s: State, now: int)
    requires ValidConfig(cfg) && Control(cfg, s) && s.idleTimer
    ensures var s' := Step(cfg, s, IdleTimeout(now));
      && !s'.armed && !s'.idleTimer && s'.wire == None && s'.queue == [] && s'.connecting == s.connecting
      && s'.ep == s.ep && s'.conns == s.conns && s'.log == s.log
      && s'.drain == (if Destroyed(s, s.ep.value) then s.drain else s.ep)
      && s'.cooldownUntil == (if cfg.lazy && cfg.cooldownMs > 0 then now + cfg.cooldownMs else s.cooldownUntil)
  {}

  /** Disarmed, with no connect under way, until the clock shows `until`. */
  predicate Resting(s: State, until: int) {
    !s.armed && !s.connecting && s.cooldownUntil >= until
  }

  /** Neither the caller nor a listener brings a connection, and every packet comes early. */
  predicate Early(e: Event, until: int) {
    match e
    case TunRead(_, now, _, _, _, _) => now < until
    case InboundReconnect(_, _) => false
    case EnsureWireCalled => false
    case _ => true
  }

  lemma EarlyPacketRests(cfg: Config, s: State, e: Event, until: int)
    requires ValidConfig(cfg) && cfg.lazy && Resting(s, until) && Early(e, until) && e.TunRead?
    ensures Resting(Step(cfg, s, e), until) && Step(cfg, s, e).log == s.log && Step(cfg, s, e).queue == s.queue
  {}

  lemma PeerRests(cfg: Config, s: State, k: Sock, until: int)
    requires Control(cfg, s) && k in s.conns && Resting(s, until)
    ensures Resting(PeerEnd(s, k), until) && PeerEnd(s, k).log == s.log && PeerEnd(s, k).queue == s.queue
    ensures Resting(PeerClose(s, k), until) && PeerClose(s, k).log == s.log && PeerClose(s, k).queue == s.queue
  {}

  lemma DataRests(cfg: Config, s: State, k: Sock, chunk: seq<byte>, until: int)
    requires Control(cfg, s) && k in s.conns && Resting(s, until)
    ensures var s' := PeerData(cfg, s, k, chunk); Resting(s', until) && s'.log == s.log && s'.queue == s.queue
  {}

  lemma ErrorRests(s: State, k: Sock, until: int)
    requires Resting(s, until)
    ensures Resting(PeerError(s, k), until) && PeerError(s, k).log == s.log && PeerError(s, k).queue == s.queue
    ensures Resting(WriteError(s, k), until) && WriteError(s, k).log == s.log && WriteError(s, k).queue == s.queue
  {}

  lemma StepRests(cfg: Config, s: State, e: Event, until: int)
    requires ValidConfig(cfg) && cfg.lazy && Control(cfg, s) && Resting(s, until) && Early(e, until)
    ensures Resting(Step(cfg, s, e), until) && Step(cfg, s, e).log == s.log && Step(cfg, s, e).queue == s.queue
  {
    if Enabled(s, e) {
      match e
      case TunRead(_, _, _, _, _, _) => EarlyPacketRests(cfg, s, e, until);
      case Data(k, chunk) => DataRests(cfg, s, k, chunk, until);
      case End(k) => PeerRests(cfg, s, k, until);
      case Close(k) => PeerRests(cfg, s, k, until);
      case Error(k) => ErrorRests(s, k, until);
      case WriteFails(k) => ErrorRests(s, k, until);
      case Deferred(k, timer) => ErrorRests(Flushed(cfg, s, k, timer), k, until);
      case _ =>
    }
  }

  /** No packet that comes before the cooldown ends makes the bridge connect, queue or send. */
  lemma {:induction false} CooldownRun(cfg: Config, s: State, events: seq<Event>, until: int)
    requires ValidConfig(cfg) && cfg.lazy && Control(cfg, s) && Resting(s, until)
    requires forall e | e in events :: Early(e, until)
    ensures var s' := Run(cfg, s, events);
      Control(cfg, s') && Resting(s', until) && s'.log == s.log && s'.queue == s.queue
    decreases |events|
  {
    if events != [] {
      var init, e := events[..|events| - 1], events[|events| - 1];
      assert e in events && forall x | x in init :: x in events;
      CooldownRun(cfg, s, init, until);
      StepRests(cfg, Run(cfg, s, init), e, until);
      StepKeepsControl(cfg, Run(cfg, s, init), e);
    }
  }

  // ---- Connecting ----

  /** A refused connect leaves the queue to the next one. */
  lemma RejectFate(cfg: Config, s: State)
    requires ValidConfig(cfg) && Control(cfg, s) && s.connecting
    ensures Step(cfg, s, ConnectRejects)
         == s.(armed := false, ep := None, writer := None, connecting := false, connects := 0)
  {}

  /** `ensureWire` does nothing while armed or connecting, reuses an idle socket, and else
      begins one connect if it can. */
  lemma EnsureFate(cfg: Config, s: State)
    requires ValidConfig(cfg) && Control(cfg, s)
    ensures var s' := Step(cfg, s, EnsureWireCalled);
      && s'.log == s.log && s'.queue == s.queue && s'.conns == s.conns
      && (s.armed || s.connecting ==> s' == s)
      && (!s.armed && !s.connecting ==> s'.armed == Reusable(s) && s'.connecting == (cfg.lazy && !Reusable(s)))
      && (Reusable(s) ==> s'.ep == s.ep)
  {
    RearmKeeps(cfg, s);
  }

  /** FIN is answered by FIN, or by a reset where a FIN is unsafe. */
  predicate Answers(st: SockState, st': SockState) {
    && (st'.destroyed <==> st.destroyed || st.finUnsafe)
    && (!st'.destroyed ==> st'.writableEnded && !st'.writable)
  }

  /** The socket that was replaced is reset if it is on its way to closing, else ended. */
  predicate Replaced(st: SockState, st': SockState) {
    if Closing(st) then st'.destroyed else Answers(st, st')
  }

  /** The bridge on `k`, before the queue is sent and with the old socket closed. */
  lemma HandoverArms(cfg: Config, s: State, k: Sock, st: SockState)
    requires Control(cfg, s) && !s.connecting && k !in s.conns
    ensures var s2 := CloseEndpoint(Arm(cfg, Released(Accept(s, k, st)), k), s.ep);
      && Wiring(cfg, s2) && s2.armed && s2.ep == Some(k) && s2.queue == [] && s2.log == s.log
      && k in s2.conns && s2.conns[k].st == st
      && (s.ep.Some? ==> s.ep.value in s2.conns && s.ep.value != k && Replaced(s.conns[s.ep.value].st, s2.conns[s.ep.value].st))
  {
    var s0 := Released(Accept(s, k, st));
    ArmKeeps(cfg, s0, k);
    var s1 := Arm(cfg, s0, k);
    assert Wiring(cfg, s1);
    ClosingOnlyCloses(s1, s.ep);
    ClosingKeeps(cfg, s1, CloseEndpoint(s1, s.ep));
  }

  lemma {:induction false} HandoverSends(cfg: Config, s: State, pending: seq<Tagged>, k: Sock, prev: Option<Sock>)
    requires Wiring(cfg, s) && s.armed && s.ep == Some(k) && s.queue == [] && !s.conns[k].st.broken
    requires prev.Some? ==> prev.value in s.conns && prev.value != k
    ensures var s' := SendAll(cfg, s, pending);
      && s'.armed && s'.ep == s'.wire == Some(k) && s'.queue == [] && s'.log == s.log + Entries(pending, k)
      && (prev.Some? ==> prev.value in s'.conns && s'.conns[prev.value] == s.conns[prev.value])
  {
    SendAllLogs(cfg, s, pending, k);
    SendAllKeeps(cfg, s, pending);
    if prev.Some? { SendAllSpares(cfg, s, pending, k, prev.value); }
  }

  /** A connection handed over replaces the wire, closes the old socket and takes the queue,
      in order; during a connect it is ignored. */
  lemma {:induction false} HandoverFate(cfg: Config, s: State, k: Sock, st: SockState)
    requires ValidConfig(cfg) && Control(cfg, s) && k !in s.conns && !st.broken
    ensures var s' := Step(cfg, s, InboundReconnect(k, st));
      if s.connecting then
        s' == s.(conns := s'.conns) && s'.conns.Keys == s.conns.Keys + {k} && forall j | j in s.conns :: s'.conns[j] == s.conns[j]
      else
        && s'.armed && s'.ep == s'.wire == Some(k) && s'.queue == [] && s'.log == s.log + Entries(s.queue, k)
        && (s.ep.Some? ==> s.ep.value in s'.conns && Replaced(s.conns[s.ep.value].st, s'.conns[s.ep.value].st))
  {
    if !s.connecting {
      HandoverArms(cfg, s, k, st);
      HandoverSends(cfg, CloseEndpoint(Arm(cfg, Released(Accept(s, k, st)), k), s.ep), s.queue, k, s.ep);
    }
  }

  /** Sending on `k` leaves every other socket alone. */
  lemma {:induction false} SendAllSpares(cfg: Config, s: State, pending: seq<Tagged>, k: Sock, j: Sock)
    requires Wiring(cfg, s) && s.armed && s.ep == Some(k) && !s.conns[k].st.broken && j != k && j in s.conns
    ensures var s' := SendAll(cfg, s, pending); j in s'.conns && s'.conns[j] == s.conns[j]
    decreases |pending|
  {
    if pending != [] {
      SendKeeps(cfg, s, pending[0]);
      SendLogs(cfg, s, pending[0], k);
      SendAllSpares(cfg, SendOnWire(cfg, s, pending[0]), pending[1..], k, j);
    }
  }

  // ---- What the peer and the network do ----

  /** The wire went: no endpoint, handlers or queue, and nothing but its socket touched. */
  predicate Down(s: State, s': State, k: Sock) {
    && !s'.armed && s'.ep == s'.wire == s'.drain == s'.writer == None && s'.queue == [] && !s'.idleTimer
    && s'.connecting == s.connecting && s'.log == s.log && s'.toTun == s.toTun
    && Untouched(s, s', k)
  }

  /** Every connection but `k` is as it was, and `k` changed its socket state only. */
  predicate Untouched(s: State, s': State, k: Sock) {
    && k in s.conns && k in s'.conns && s'.conns == s.conns[k := s.conns[k].(st := s'.conns[k].st)]
  }

  lemma TeardownFate(s: State, k: Sock, fin: bool)
    requires s.armed && s.ep == Some(k) && k in s.conns
    ensures var s' := Teardown(s, fin);
      Down(s, s', k) && (fin ==> Answers(s.conns[k].st, s'.conns[k].st)) && s'.conns[k].st.readableEnded == s.conns[k].st.readableEnded
    ensures s.conns[k].st.destroyed || !fin ==> Teardown(s, fin).conns[k].st.destroyed
  {}

  /** A FIN takes the wire down and is answered. */
  lemma WireEndFate(cfg: Config, s: State, k: Sock)
    requires ValidConfig(cfg) && Control(cfg, s) && s.armed && s.ep == Some(k)
    ensures var s' := Step(cfg, s, End(k));
      Down(s, s', k) && s'.conns[k].st.readableEnded && Answers(s.conns[k].st, s'.conns[k].st)
  {
    TeardownFate(SetSocket(s, k, s.conns[k].st.(readableEnded := true)), k, true);
  }

  /** On a drained socket it is answered, on any other noted. */
  lemma EndFate(cfg: Config, s: State, k: Sock)
    requires ValidConfig(cfg) && Control(cfg, s) && k in s.conns && s.wire != Some(k)
    ensures var s' := Step(cfg, s, End(k));
      && s' == s.(conns := s'.conns) && Untouched(s, s', k) && s'.conns[k].st.readableEnded
      && (if s.drain == Some(k) then Answers(s.conns[k].st, s'.conns[k].st)
          else s'.conns[k].st == s.conns[k].st.(readableEnded := true))
  {}

  /** A close takes the wire down. */
  lemma WireCloseFate(cfg: Config, s: State, k: Sock)
    requires ValidConfig(cfg) && Control(cfg, s) && s.armed && s.ep == Some(k)
    ensures var s' := Step(cfg, s, Close(k)); Down(s, s', k) && Destroyed(s', k)
  {
    TeardownFate(DrainOff(Destroy(s, Some(k))), k, true);
  }

  /** ... or ends the wait of a drained socket. */
  lemma CloseFate(cfg: Config, s: State, k: Sock)
    requires ValidConfig(cfg) && Control(cfg, s) && k in s.conns && s.wire != Some(k)
    ensures var s' := Step(cfg, s, Close(k));
      && Destroyed(s', k) && Untouched(s, s', k)
      && (if s.drain == Some(k) then s'.drain == None && s'.ep != Some(k) && s'.armed == s.armed
          else s' == s.(conns := s'.conns))
  {}

  /** An error on a socket with handlers resets the current endpoint and disarms the bridge;
      on any other it does nothing. */
  lemma ErrorFate(cfg: Config, s: State, k: Sock)
    requires ValidConfig(cfg) && Control(cfg, s) && k in s.conns
    ensures var s' := Step(cfg, s, Error(k));
      if s.wire != Some(k) && s.drain != Some(k) then s' == s
      else if s.ep == None then s' == s
      else
        && Destroyed(s', s.ep.value) && Untouched(s, s', s.ep.value) && s'.ep == s'.drain == None && !s'.armed
        && (s.armed ==> Down(s, s', s.ep.value))
  {}

  /** Data outside the wire are read by nobody; on a drained socket they reset it. */
  lemma StrayFate(cfg: Config, s: State, k: Sock, chunk: seq<byte>)
    requires ValidConfig(cfg) && Control(cfg, s) && k in s.conns && s.wire != Some(k) && !Destroyed(s, k)
    ensures var s' := Step(cfg, s, Data(k, chunk));
      && s'.toTun == s.toTun && s'.log == s.log && s'.armed == s.armed
      && (if s.drain == Some(k) then Destroyed(s', k) && s'.drain == None && s'.ep != Some(k)
          else s' == s.(conns := s'.conns) && !Destroyed(s', k))
  {}

  /** A framing error on the wire resets its socket; the close event that follows does the
      rest. Good data leave it open. */
  lemma {:induction false} FramingFate(cfg: Config, s: State, k: Sock, chunk: seq<byte>)
    requires ValidConfig(cfg) && Control(cfg, s) && k in s.conns && s.wire == Some(k) && !Destroyed(s, k)
    ensures var s' := Step(cfg, s, Data(k, chunk));
      && (Destroyed(s', k) <==> Parse(BridgeLimits, s.framer + chunk).bad)
      && s'.armed == s.armed && s'.ep == s.ep && s'.queue == s.queue && s'.log == s.log
  {}

  /** A deferred flush empties the batch of its own connection. A throwing write loses it ... */
  lemma DeferredBatch(cfg: Config, s: State, k: Sock)
    requires k in s.conns && FrameWriter.Inv(cfg.writer, s.conns[k].out) && s.conns[k].out.batch != []
    ensures var timer := cfg.writer.flushMs > 0;
      var (c, c') := (s.conns[k], Flushed(cfg, s, k, timer).conns[k]);
      && c'.st == c.st && c'.out.batch == [] && c'.out.pending == []
      && c'.out.flushed == (if c.st.broken then c.out.flushed else c.out.flushed + c.out.pending)
      && (c'.lost <==> c.lost || c.st.broken) && FlushThrows(c, timer) == c.st.broken
  {
    var (w, broken) := (s.conns[k].out, s.conns[k].st.broken);
    FrameWriter.FlushKeeps(cfg.writer, w, broken);
    FrameWriter.FlushKeeps(cfg.writer, w.(immediates := if w.immediates == 0 then 0 else w.immediates - 1), broken);
  }

  /** ... and takes the bridge down exactly if that connection is the current one. */
  lemma DeferredFate(cfg: Config, s: State, k: Sock)
    requires ValidConfig(cfg) && Control(cfg, s) && k in s.conns
    requires FrameWriter.Inv(cfg.writer, s.conns[k].out) && s.conns[k].out.batch != []
    ensures var s' := Step(cfg, s, Deferred(k, cfg.writer.flushMs > 0));
      && k in s'.conns
      && var (c, c') := (s.conns[k], s'.conns[k]);
      && c'.out.batch == [] && c'.out.pending == []
      && c'.out.flushed == (if c.st.broken then c.out.flushed else c.out.flushed + c.out.pending)
      && (c'.lost <==> c.lost || c.st.broken)
      && (if c.st.broken && s.ep == Some(k) then !s'.armed && s'.ep == None && c'.st.destroyed
          else s' == s.(conns := s'.conns) && c'.st == c.st)
  {
    DeferredBatch(cfg, s, k);
    var s1 := Flushed(cfg, s, k, cfg.writer.flushMs > 0);
    assert s1 == s.(conns := s.conns[k := s1.conns[k]]);
    WriteErrorFate(cfg, s1, k);
  }

  /** A write error of the current socket destroys it, one of another does nothing. */
  lemma WriteErrorFate(cfg: Config, s: State, k: Sock)
    requires k in s.conns
    ensures var s' := WriteError(s, k);
      if s.ep == Some(k) then
        !s'.armed && s'.ep == None && s'.conns == s.conns[k := s.conns[k].(st := s.conns[k].st.(destroyed := true))]
      else s' == s
  {}

  // ---- Which packets a peer's stream brings to TUN ----

  predicate V6(p: Packet) {
    p != [] && 0x60 <= p[0] && p[0] < 0x70
  }

  /** Packets of another IP version than 6 all reach TUN, packets of version 6 do not. */
  lemma {:induction false} NotV6Exactly(pkts: seq<Packet>)
    ensures forall p :: p in NotV6(pkts) <==> p in pkts && !V6(p)
    ensures (forall p | p in pkts :: !V6(p)) ==> NotV6(pkts) == pkts
    decreases |pkts|
  {
    if pkts != [] {
      var init := pkts[..|pkts| - 1];
      NotV6Exactly(init);
      assert pkts == init + [pkts[|pkts| - 1]];
      assert pkts[|pkts| - 1] in pkts && forall p | p in init :: p in pkts;
    }
  }
}
