/** What every event keeps about the bridge's control state: which socket is the wire, what
    is attached to it, and when packets wait. */
module BridgeControl {
  import opened Bytes
  import opened Framing
  import FrameWriter
  import Icmp
  import opened BridgeModel

  /** Holds after every handler and between the sends of one flush. */
  predicate Wiring(cfg: Config, s: State) {
    && (s.armed ==> s.ep.Some? && s.wire == s.ep && s.drain != s.ep && s.queue == [])
    && (!s.armed ==> s.wire.None?)
    && (s.ep.Some? ==> s.ep.value in s.conns)
    && (s.writer.Some? ==> s.writer == s.ep)
    && (s.ep.Some? && s.writer.None? ==> s.conns[s.ep.value].out == FrameWriter.Idle)
    && (s.ep.Some? && !s.armed ==> Destroyed(s, s.ep.value) || s.drain == s.ep)
    && (s.drain.Some? ==> s.drain.value in s.conns)
    && s.idleTimer == (s.armed && cfg.keepAlive)
  }

  /** Holds between events. */
  predicate Control(cfg: Config, s: State) {
    && Wiring(cfg, s)
    && (s.connecting ==> cfg.lazy && !s.armed && (s.ep.Some? ==> Destroyed(s, s.ep.value)))
    && (s.queue != [] ==> cfg.lazy && (s.connecting || s.ep.None?))
    && |s.queue| <= QUEUE_MAX
    && s.connects == (if s.connecting then 1 else 0)
  }

  // ---- Handlers that only let go of the wire ----

  /** What came in stands: the wire is kept or dropped and sockets only close. */
  ghost predicate KeepsInput(s: State, s': State) {
    && (s'.ep == s.ep || s'.ep == None)
    && (forall k: Sock :: Aged(s, s', k))
    && s'.framer == s.framer && s'.toTun == s.toTun
  }

  ghost predicate LetsGo(s: State, s': State) {
    && KeepsInput(s, s')
    && s'.connecting == s.connecting && s'.connects == s.connects && s'.arrivals == s.arrivals
  }

  lemma LetsGoTwice(s: State, t: State, u: State)
    requires LetsGo(s, t) && LetsGo(t, u)
    ensures LetsGo(s, u)
  {
    forall k: Sock
      ensures Aged(s, u, k)
    {
      assert Aged(s, t, k) && Aged(t, u, k);
    }
  }

  predicate Aged(s: State, s': State, k: Sock) {
    && (k in s.conns <==> k in s'.conns)
    && (k in s.conns ==>
          && (s.conns[k].st.destroyed ==> s'.conns[k].st.destroyed)
          && s'.conns[k].emitted == s.conns[k].emitted && s'.conns[k].received == s.conns[k].received)
  }

  /** ... and nothing was sent either. */
  ghost predicate Silent(s: State, s': State) {
    LetsGo(s, s') && s'.log == s.log && forall k: Sock :: SameWriter(s, s', k)
  }

  predicate SameWriter(s: State, s': State, k: Sock) {
    && (k in s.conns <==> k in s'.conns)
    && (k in s.conns ==> s'.conns[k].out == s.conns[k].out && s'.conns[k].lost == s.conns[k].lost)
  }

  /** Closing sockets changes nothing but the sockets. */
  ghost predicate OnlyCloses(s: State, s': State) {
    s' == s.(conns := s'.conns) && forall k: Sock :: OnlyClosed(s, s', k)
  }

  predicate OnlyClosed(s: State, s': State, k: Sock) {
    && (k in s.conns <==> k in s'.conns)
    && (k in s.conns ==>
          && s'.conns[k] == s.conns[k].(st := s'.conns[k].st)
          && (s.conns[k].st.destroyed ==> s'.conns[k].st.destroyed))
  }

  lemma SetSocketCloses(s: State, k: Sock, st: SockState)
    requires k in s.conns && (s.conns[k].st.destroyed ==> st.destroyed)
    ensures OnlyCloses(s, SetSocket(s, k, st))
  {
    var s' := SetSocket(s, k, st);
    assert s' == s.(conns := s'.conns);
  }

  lemma UntouchedCloses(s: State)
    ensures OnlyCloses(s, s)
  {}

  lemma ClosingOnlyCloses(s: State, k: Option<Sock>)
    ensures OnlyCloses(s, Destroy(s, k)) && OnlyCloses(s, RespondFin(s, k)) && OnlyCloses(s, CloseEndpoint(s, k))
  {
    UntouchedCloses(s);
    if k.Some? && k.value in s.conns {
      var st := s.conns[k.value].st;
      SetSocketCloses(s, k.value, st.(destroyed := true));
      SetSocketCloses(s, k.value, st.(writableEnded := true, writable := false));
    }
  }

  /** A handler that leaves the connections alone is silent. */
  lemma SameConns(s: State, s': State)
    requires s'.conns == s.conns && (s'.ep == s.ep || s'.ep == None) && s'.log == s.log
    requires s'.framer == s.framer && s'.toTun == s.toTun
    requires s'.connecting == s.connecting && s'.connects == s.connects && s'.arrivals == s.arrivals
    ensures Silent(s, s')
  {}

  lemma ClosingKeeps(cfg: Config, s: State, s': State)
    requires Wiring(cfg, s) && OnlyCloses(s, s')
    ensures Wiring(cfg, s') && Silent(s, s')
  {
    ClosesSilent(s, s');
    if s.ep.Some? { assert OnlyClosed(s, s', s.ep.value); }
    if s.drain.Some? { assert OnlyClosed(s, s', s.drain.value); }
  }

  lemma ClosesSilent(s: State, s': State)
    requires OnlyCloses(s, s')
    ensures Silent(s, s')
  {
    forall k: Sock
      ensures Aged(s, s', k) && SameWriter(s, s', k)
    {
      assert OnlyClosed(s, s', k);
    }
  }

  lemma TeardownKeeps(cfg: Config, s: State, fin: bool)
    requires Wiring(cfg, s)
    ensures var s' := Teardown(s, fin);
      Wiring(cfg, s') && Silent(s, s') && s'.ep.None? && !s'.armed && s'.queue == []
  {
    var s1 := Unwired(s);
    assert Wiring(cfg, s1) && Silent(s, s1);
    ClosingOnlyCloses(s1, s.ep);
    if s.armed || s.ep.Some? || s.connecting {
      ClosingKeeps(cfg, s1, Teardown(s, fin));
    }
  }

  lemma FailureKeeps(cfg: Config, s: State)
    requires Wiring(cfg, s)
    ensures var s' := Failure(s);
      && Wiring(cfg, s') && Silent(s, s') && s'.ep.None? && !s'.armed
      && s'.queue == if s.armed then [] else s.queue
  {}

  lemma IdleDisarmKeeps(cfg: Config, s: State, now: int)
    requires Wiring(cfg, s) && s.armed
    ensures var s' := IdleDisarm(cfg, s.(idleTimer := false), now);
      Wiring(cfg, s') && Silent(s, s') && s'.ep == s.ep && !s'.armed && s'.queue == []
  {
    SameConns(s, IdleDisarm(cfg, s.(idleTimer := false), now));
  }

  lemma RearmKeeps(cfg: Config, s: State)
    requires Wiring(cfg, s)
    ensures var (s', reused) := Rearm(cfg, s);
      && Wiring(cfg, s'.(queue := if reused then [] else s'.queue)) && Silent(s, s') && s'.queue == s.queue
      && (reused ==> s'.armed && s'.ep == s.ep && s'.framer == s.framer)
      && (!reused ==> s'.armed == s.armed)
      && (!reused && !s.armed && !s.connecting ==> s'.ep.Some? ==> Destroyed(s', s'.ep.value))
  {}

  lemma SendKeeps(cfg: Config, s: State, t: Tagged)
    requires Wiring(cfg, s)
    ensures var s' := SendOnWire(cfg, s, t);
      Wiring(cfg, s') && LetsGo(s, s') && (s.queue == [] ==> s'.queue == [])
  {
    if s.armed {
      var k := Target(s).value;
      var w := if s.writer.Some? then s.conns[k].out else FrameWriter.Idle;
      HandedKeeps(cfg, s, t, k, w);
      FailureKeeps(cfg, Handed(cfg, s, t, k, w));
      LetsGoTwice(s, Handed(cfg, s, t, k, w), SendOnWire(cfg, s, t));
    }
  }

  lemma HandedKeeps(cfg: Config, s: State, t: Tagged, k: Sock, w: FrameWriter.Writer)
    requires Wiring(cfg, s) && s.armed && s.ep == Some(k)
    ensures var s' := Handed(cfg, s, t, k, w);
      Wiring(cfg, s') && LetsGo(s, s') && s'.queue == s.queue && s'.ep == s.ep
  {}

  lemma {:induction false} SendAllKeeps(cfg: Config, s: State, pending: seq<Tagged>)
    requires Wiring(cfg, s) && s.queue == []
    ensures var s' := SendAll(cfg, s, pending);
      Wiring(cfg, s') && LetsGo(s, s') && s'.queue == []
    decreases |pending|
  {
    if pending != [] {
      SendKeeps(cfg, s, pending[0]);
      SendAllKeeps(cfg, SendOnWire(cfg, s, pending[0]), pending[1..]);
      LetsGoTwice(s, SendOnWire(cfg, s, pending[0]), SendAll(cfg, s, pending));
    }
  }

  lemma ArmKeeps(cfg: Config, s: State, k: Sock)
    requires k in s.conns && s.conns[k].out == FrameWriter.Idle && s.drain != Some(k)
    requires s.drain.Some? ==> s.drain.value in s.conns
    requires !cfg.keepAlive ==> !s.idleTimer
    ensures Wiring(cfg, Arm(cfg, s, k).(queue := []))
  {}

  // ---- Events ----

  lemma EnsureWireKeeps(cfg: Config, s: State)
    requires Wiring(cfg, s) && !s.connecting && s.connects == 0 && |s.queue| <= QUEUE_MAX
    requires s.queue != [] ==> cfg.lazy && (s.ep.Some? ==> Destroyed(s, s.ep.value))
    ensures Control(cfg, EnsureWire(cfg, s))
  {
    if !s.armed {
      RearmKeeps(cfg, s);
      var (s1, reused) := Rearm(cfg, s);
      if reused {
        SendAllKeeps(cfg, s1.(queue := []), s1.queue);
      }
    }
  }

  lemma ConnectedKeeps(cfg: Config, s: State, k: Sock, st: SockState)
    requires Control(cfg, s) && s.connecting && k !in s.conns
    ensures Control(cfg, Connected(cfg, s, k, st))
  {
    var s0 := DrainOff(Accept(s, k, st));
    var s1 := Arm(cfg, s0, k);
    ArmKeeps(cfg, s0, k);
    SendAllKeeps(cfg, s1.(queue := []), s1.queue);
  }

  lemma ReconnectKeeps(cfg: Config, s: State, k: Sock, st: SockState)
    requires Control(cfg, s) && k !in s.conns
    ensures Control(cfg, Reconnect(cfg, s, k, st))
  {
    if !s.connecting {
      var s0 := Released(Accept(s, k, st));
      var s1 := Arm(cfg, s0, k);
      ArmKeeps(cfg, s0, k);
      assert Wiring(cfg, s1);
      var s2 := CloseEndpoint(s1, s.ep);
      assert Wiring(cfg, s2);
      SendAllKeeps(cfg, s2, s.queue);
    }
  }

  lemma OutboundKeeps(cfg: Config, s: State, t: Tagged, now: int, wanted: bool, ready: bool)
    requires Control(cfg, s)
    ensures Control(cfg, Outbound(cfg, s, t, now, wanted, ready))
  {
    RearmKeeps(cfg, s);
    var (s1, reused) := Rearm(cfg, s);
    if s.armed {
      SendKeeps(cfg, s, t);
    } else if reused {
      SendKeeps(cfg, s1, t);
    } else if cfg.lazy {
      var s2 := s1.(queue := Enqueue(s1.queue, t));
      assert Wiring(cfg, s2) && |s2.queue| <= QUEUE_MAX;
      if !s2.connecting {
        EnsureWireKeeps(cfg, s2);
      }
    }
  }

  /** What crosses is an IPv4 packet that fits a frame, and no answer ever crosses. */
  lemma CrossesExactly(cfg: Config, pkt: Packet, ipId: nat, fill: seq<byte>)
    requires ValidConfig(cfg) && |fill| == 4
    ensures var v := Judge(cfg, pkt, ipId, fill);
      && (v.Cross? <==> Icmp.IsIpv4Bridgeable(pkt) && |pkt| <= MAX_PKT
                        && !(cfg.local4.Some? && Icmp.IsEchoRequest(pkt, cfg.local4.value)))
      && (v.Cross? ==> GoodLength(BridgeLimits, |pkt|))
      && (v.Respond? ==> Icmp.IsIpv4Bridgeable(v.reply) && !Icmp.IsEchoRequest(v.reply, cfg.local4.value))
  {
    var v := Judge(cfg, pkt, ipId, fill);
    if v.Respond? {
      Icmp.ReplyLaws(pkt, cfg.local4.value, ipId % 0x1_0000, fill, cfg.local4.value);
    }
  }

  lemma TunPacketKeeps(cfg: Config, s: State, pkt: Packet, v: Verdict, now: int, wanted: bool, ready: bool)
    requires Control(cfg, s)
    ensures Control(cfg, TunPacket(cfg, s, pkt, v, now, wanted, ready))
  {
    CountingKeeps(cfg, s, Arrived(s, pkt));
    match v
    case Drop =>
    case Respond(reply) => CountingKeeps(cfg, s, Answered(Arrived(s, pkt), reply));
    case Cross => OutboundKeeps(cfg, Arrived(s, pkt), Tagged(|s.arrivals|, pkt), now, wanted, ready);
  }

  /** Counting arrivals and writing to the device touch no control state. */
  lemma CountingKeeps(cfg: Config, s: State, s': State)
    requires Control(cfg, s) && s' == s.(arrivals := s'.arrivals, toTun := s'.toTun)
    ensures Control(cfg, s')
  {}

  lemma DataKeeps(cfg: Config, s: State, k: Sock, chunk: seq<byte>)
    requires Control(cfg, s) && k in s.conns
    ensures Control(cfg, PeerData(cfg, s, k, chunk))
  {
    if s.wire == Some(k) {
      var s1 := Framed(cfg, s, k, chunk);
      assert Control(cfg, s1);
      ClosingOnlyCloses(s1, Some(k));
      ClosingKeeps(cfg, s1, Destroy(s1, Some(k)));
    } else if s.drain == Some(k) {
      var c := s.conns[k].(emitted := s.conns[k].emitted + chunk);
      var s1 := ClearEp(DrainOff(s.(conns := s.conns[k := c])), Some(k));
      assert Control(cfg, s1);
      ClosingOnlyCloses(s1, Some(k));
      ClosingKeeps(cfg, s1, Destroy(s1, Some(k)));
    }
  }

  lemma EndKeeps(cfg: Config, s: State, k: Sock)
    requires Control(cfg, s) && k in s.conns
    ensures Control(cfg, PeerEnd(s, k))
  {
    var s1 := SetSocket(s, k, s.conns[k].st.(readableEnded := true));
    assert Control(cfg, s1);
    TeardownKeeps(cfg, s1, true);
  }

  lemma CloseKeeps(cfg: Config, s: State, k: Sock)
    requires Control(cfg, s) && k in s.conns
    ensures Control(cfg, PeerClose(s, k))
  {
    var s1 := Destroy(s, Some(k));
    assert Control(cfg, s1);
    if s1.armed && s1.wire == Some(k) {
      TeardownKeeps(cfg, DrainOff(s1), true);
    }
  }

  lemma ErrorKeeps(cfg: Config, s: State, k: Sock)
    requires Control(cfg, s)
    ensures Control(cfg, PeerError(s, k)) && Control(cfg, WriteError(s, k))
  {
    FailureKeeps(cfg, s);
  }

  lemma FlushFiresKeeps(cfg: Config, s: State, k: Sock, timer: bool)
    requires Control(cfg, s) && k in s.conns
    ensures Control(cfg, FlushFires(cfg, s, k, timer))
  {
    var s1 := Flushed(cfg, s, k, timer);
    assert Control(cfg, s1);
    ErrorKeeps(cfg, s1, k);
  }

  lemma StepKeepsControl(cfg: Config, s: State, e: Event)
    requires ValidConfig(cfg) && Control(cfg, s)
    ensures Control(cfg, Step(cfg, s, e))
  {
    if Enabled(s, e) {
      match e
      case TunRead(pkt, now, wanted, ready, ipId, fill) =>
        TunPacketKeeps(cfg, s, pkt, Judge(cfg, pkt, ipId, fill), now, wanted, ready);
      case ConnectResolves(k, st) => ConnectedKeeps(cfg, s, k, st);
      case ConnectRejects =>
      case InboundReconnect(k, st) => ReconnectKeeps(cfg, s, k, st);
      case EnsureWireCalled => if !s.connecting { EnsureWireKeeps(cfg, s); }
      case Data(k, chunk) => DataKeeps(cfg, s, k, chunk);
      case End(k) => EndKeeps(cfg, s, k);
      case Close(k) => CloseKeeps(cfg, s, k);
      case Error(k) => ErrorKeeps(cfg, s, k);
      case WriteFails(k) => ErrorKeeps(cfg, s, k);
      case IdleTimeout(now) => IdleDisarmKeeps(cfg, s, now);
      case Deferred(k, timer) => FlushFiresKeeps(cfg, s, k, timer);
      case SockEvent(k, st) =>
    }
  }
}
