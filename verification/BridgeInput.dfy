/** Streams from the wire to TUN: no packet mixes bytes of two connections, and none of a
    live connection's bytes is skipped, across reconnects and re-arming. */
module BridgeInput {
  import opened Bytes
  import opened Framing
  import FrameWriter
  import opened BridgeModel
  import opened BridgeControl

  /** The TUN writes that came from socket `k`. */
  function OnTun(writes: seq<TunWrite>, k: Sock): (pkts: seq<Packet>)
    decreases |writes|
  {
    if writes == [] then []
    else
      var w := writes[|writes| - 1];
      OnTun(writes[..|writes| - 1], k) + if w.FromWire? && w.sock == k then [w.pkt] else []
  }

  lemma {:induction false} OnTunAppend(writes: seq<TunWrite>, j: Sock, pkts: seq<Packet>, k: Sock)
    ensures OnTun(writes + FromSocket(j, pkts), k) == OnTun(writes, k) + if j == k then pkts else []
    decreases |pkts|
  {
    var more := FromSocket(j, pkts);
    if pkts == [] {
      assert writes + more == writes;
    } else {
      var init := pkts[..|pkts| - 1];
      OnTunAppend(writes, j, init, k);
      assert more == FromSocket(j, init) + [FromWire(j, pkts[|pkts| - 1])];
      assert (writes + more)[..|writes + more| - 1] == writes + FromSocket(j, init);
    }
  }

  lemma {:induction false} OnTunAnswer(writes: seq<TunWrite>, p: Packet, k: Sock)
    ensures OnTun(writes + [Answer(p)], k) == OnTun(writes, k)
  {
    assert (writes + [Answer(p)])[..|writes|] == writes;
  }

  lemma {:induction false} NotV6Append(a: seq<Packet>, b: seq<Packet>)
    ensures NotV6(a + b) == NotV6(a) + NotV6(b)
    decreases |b|
  {
    if b == [] {
      assert a + b == a;
    } else {
      NotV6Append(a, b[..|b| - 1]);
      assert (a + b)[..|a + b| - 1] == a + b[..|b| - 1];
    }
  }

  /** One connection: everything framed from it is a prefix of the parse of what its peer
      sent, and that is what TUN got from it; the wire's framer has consumed all of it. */
  ghost predicate InputOk(s: State, k: Sock) {
    if k !in s.conns then OnTun(s.toTun, k) == []
    else
      var c := s.conns[k];
      var p := Parse(BridgeLimits, c.emitted);
      && c.received <= p.packets
      && OnTun(s.toTun, k) == NotV6(c.received)
      && (s.ep == Some(k) ==>
            c.received == p.packets && if p.bad then c.st.destroyed else s.framer == p.rest)
  }

  ghost predicate Input(s: State) {
    forall k: Sock :: InputOk(s, k)
  }

  lemma InputKept(s: State, s': State)
    requires Input(s) && KeepsInput(s, s')
    ensures Input(s')
  {
    forall k: Sock
      ensures InputOk(s', k)
    {
      assert InputOk(s, k) && Aged(s, s', k);
    }
  }

  /** A handler that leaves the connections alone leaves the input alone. */
  lemma SameInput(s: State, s': State)
    requires Input(s) && s'.conns == s.conns && (s'.ep == s.ep || s'.ep == None)
    requires s'.framer == s.framer && s'.toTun == s.toTun
    ensures Input(s')
  {
    InputKept(s, s');
  }

  /** A fresh connection starts with a fresh framer. */
  lemma InputArmed(cfg: Config, s: State, k: Sock, st: SockState, s': State)
    requires Input(s) && k !in s.conns
    requires s'.conns == s.conns[k := Conn(st, FrameWriter.Idle, false, [], [])] && s'.toTun == s.toTun
    requires s'.ep == Some(k) && s'.framer == []
    ensures Input(s')
  {
    forall j: Sock
      ensures InputOk(s', j)
    {
      assert NotV6([]) == [] && InputOk(s, j);
    }
  }

  lemma ConnectedInput(cfg: Config, s: State, k: Sock, st: SockState)
    requires Control(cfg, s) && Input(s) && s.connecting && k !in s.conns
    ensures Input(Connected(cfg, s, k, st))
  {
    var s0 := DrainOff(Accept(s, k, st));
    var s1 := Arm(cfg, s0, k).(queue := []);
    ArmKeeps(cfg, s0, k);
    InputArmed(cfg, s, k, st, s1);
    SendAllKeeps(cfg, s1, s.queue);
    InputKept(s1, SendAll(cfg, s1, s.queue));
    SameInput(SendAll(cfg, s1, s.queue), Connected(cfg, s, k, st));
  }

  lemma ReconnectInput(cfg: Config, s: State, k: Sock, st: SockState)
    requires Control(cfg, s) && Input(s) && k !in s.conns
    ensures Input(Reconnect(cfg, s, k, st))
  {
    if s.connecting {
      AcceptInput(s, k, st);
    } else {
      var s0 := Released(Accept(s, k, st));
      var s1 := Arm(cfg, s0, k);
      ArmKeeps(cfg, s0, k);
      InputArmed(cfg, s, k, st, s1);
      ClosingOnlyCloses(s1, s.ep);
      var s2 := CloseEndpoint(s1, s.ep);
      ClosingKeeps(cfg, s1, s2);
      InputKept(s1, s2);
      SendAllKeeps(cfg, s2, s.queue);
      InputKept(s2, Reconnect(cfg, s, k, st));
    }
  }

  lemma AcceptInput(s: State, k: Sock, st: SockState)
    requires Input(s) && k !in s.conns && s.ep != Some(k)
    ensures Input(Accept(s, k, st))
  {
    var s' := Accept(s, k, st);
    forall j: Sock
      ensures InputOk(s', j)
    {
      assert NotV6([]) == [] && InputOk(s, j);
    }
  }

  lemma EnsureWireInput(cfg: Config, s: State)
    requires Wiring(cfg, s) && Input(s)
    ensures Input(EnsureWire(cfg, s))
  {
    if !s.armed && !s.connecting {
      RearmKeeps(cfg, s);
      var (s1, reused) := Rearm(cfg, s);
      InputKept(s, s1);
      if reused {
        var s2 := s1.(queue := []);
        SameInput(s1, s2);
        SendAllKeeps(cfg, s2, s1.queue);
        InputKept(s2, SendAll(cfg, s2, s1.queue));
      } else {
        SameInput(s1, EnsureWire(cfg, s));
      }
    }
  }

  lemma OutboundInput(cfg: Config, s: State, t: Tagged, now: int, wanted: bool, ready: bool)
    requires Control(cfg, s) && Input(s)
    ensures Input(Outbound(cfg, s, t, now, wanted, ready))
  {
    RearmKeeps(cfg, s);
    var (s1, reused) := Rearm(cfg, s);
    InputKept(s, s1);
    if s.armed {
      SendKeeps(cfg, s, t);
      InputKept(s, SendOnWire(cfg, s, t));
    } else if reused {
      SendKeeps(cfg, s1, t);
      InputKept(s1, SendOnWire(cfg, s1, t));
    } else {
      var s2 := s1.(queue := Enqueue(s1.queue, t));
      InputKept(s1, s2);
      EnsureWireInput(cfg, s2);
    }
  }

  lemma AnswerInput(s: State, p: Packet)
    requires Input(s)
    ensures Input(s.(toTun := s.toTun + [Answer(p)]))
  {
    var s' := s.(toTun := s.toTun + [Answer(p)]);
    forall k: Sock
      ensures OnTun(s'.toTun, k) == OnTun(s.toTun, k)
    {
      OnTunAnswer(s.toTun, p, k);
    }
    forall k: Sock
      ensures InputOk(s', k)
    {
      assert InputOk(s, k);
    }
  }

  /** The framer's step in terms of the whole stream so far. */
  lemma {:induction false} StreamStep(emitted: seq<byte>, received: seq<Packet>, framer: seq<byte>, chunk: seq<byte>)
    requires var p := Parse(BridgeLimits, emitted);
      !p.bad && received == p.packets && framer == p.rest
    ensures var q := Parse(BridgeLimits, framer + chunk);
      && Parse(BridgeLimits, emitted + chunk) == Prepend(received, q)
      && NotV6(received + q.packets) == NotV6(received) + NotV6(q.packets)
  {
    ParseAppend(BridgeLimits, emitted, chunk);
    NotV6Append(received, Parse(BridgeLimits, framer + chunk).packets);
  }

  lemma {:induction false} StreamGrows(emitted: seq<byte>, chunk: seq<byte>)
    ensures Parse(BridgeLimits, emitted).packets <= Parse(BridgeLimits, emitted + chunk).packets
  {
    ParseAppend(BridgeLimits, emitted, chunk);
  }

  lemma FramedInput(cfg: Config, s: State, k: Sock, chunk: seq<byte>)
    requires Control(cfg, s) && Input(s) && k in s.conns && s.wire == Some(k) && !s.conns[k].st.destroyed
    ensures Input(PeerData(cfg, s, k, chunk))
  {
    var c := s.conns[k];
    var q := Parse(BridgeLimits, s.framer + chunk);
    var s' := PeerData(cfg, s, k, chunk);
    assert InputOk(s, k);
    StreamStep(c.emitted, c.received, s.framer, chunk);
    assert s'.conns[k].emitted == c.emitted + chunk && s'.conns[k].received == c.received + q.packets;
    assert s'.toTun == s.toTun + FromSocket(k, NotV6(q.packets)) && s'.ep == Some(k);
    assert s'.framer == if q.bad then [] else q.rest;
    assert q.bad ==> s'.conns[k].st.destroyed;
    assert forall j | j in s.conns && j != k :: s'.conns[j] == s.conns[j];
    OnTunAppend(s.toTun, k, NotV6(q.packets), k);
    assert InputOk(s', k);
    forall j: Sock | j != k
      ensures OnTun(s'.toTun, j) == OnTun(s.toTun, j)
    {
      OnTunAppend(s.toTun, k, NotV6(q.packets), j);
    }
    forall j: Sock | j != k
      ensures InputOk(s', j)
    {
      assert InputOk(s, j);
    }
  }

  /** Data on a socket without the wire handlers is not consumed, and the bridge then lets
      go of that socket. */
  lemma IgnoredInput(cfg: Config, s: State, k: Sock, chunk: seq<byte>)
    requires Control(cfg, s) && Input(s) && k in s.conns && s.wire != Some(k) && !s.conns[k].st.destroyed
    ensures Input(PeerData(cfg, s, k, chunk)) && PeerData(cfg, s, k, chunk).ep != Some(k)
  {
    var c := s.conns[k];
    var s1 := s.(conns := s.conns[k := c.(emitted := c.emitted + chunk)]);
    var s2 := if s.drain == Some(k) then ClearEp(DrainOff(s1), Some(k)) else s1;
    assert s2.ep != Some(k) && (s2.ep == s.ep || s2.ep == None);
    StreamGrows(c.emitted, chunk);
    forall j: Sock
      ensures InputOk(s2, j)
    {
      assert InputOk(s, j);
    }
    ClosingOnlyCloses(s2, Some(k));
    OnlyClosesInput(s2, Destroy(s2, Some(k)));
  }

  lemma OnlyClosesInput(s: State, s': State)
    requires Input(s) && OnlyCloses(s, s')
    ensures Input(s')
  {
    ClosesSilent(s, s');
    InputKept(s, s');
  }

  lemma EndInput(cfg: Config, s: State, k: Sock)
    requires Control(cfg, s) && Input(s) && k in s.conns
    ensures Input(PeerEnd(s, k))
  {
    var st := s.conns[k].st.(readableEnded := true);
    var s1 := SetSocket(s, k, st);
    SetSocketCloses(s, k, st);
    ClosingKeeps(cfg, s, s1);
    OnlyClosesInput(s, s1);
    TeardownInput(cfg, s1);
    ClosingOnlyCloses(s1, Some(k));
    OnlyClosesInput(s1, RespondFin(s1, Some(k)));
  }

  lemma CloseInput(cfg: Config, s: State, k: Sock)
    requires Control(cfg, s) && Input(s) && k in s.conns
    ensures Input(PeerClose(s, k))
  {
    var s1 := Destroy(s, Some(k));
    ClosingOnlyCloses(s, Some(k));
    ClosingKeeps(cfg, s, s1);
    OnlyClosesInput(s, s1);
    SameInput(s1, DrainOff(s1));
    SameInput(s1, ClearEp(DrainOff(s1), Some(k)));
    if s1.wire == Some(k) {
      TeardownInput(cfg, DrainOff(s1));
    }
  }

  lemma TeardownInput(cfg: Config, s: State)
    requires Wiring(cfg, s) && Input(s)
    ensures Input(Teardown(s, true))
  {
    TeardownKeeps(cfg, s, true);
    InputKept(s, Teardown(s, true));
  }

  /** A change of the writers is no change of the input. */
  lemma WriterInput(s: State, k: Sock, c: Conn)
    requires Input(s) && k in s.conns && c == s.conns[k].(out := c.out, lost := c.lost)
    ensures Input(s.(conns := s.conns[k := c]))
  {
    InputKept(s, s.(conns := s.conns[k := c]));
  }

  lemma FailureInput(cfg: Config, s: State, k: Sock)
    requires Wiring(cfg, s) && Input(s)
    ensures Input(WriteError(s, k)) && Input(PeerError(s, k))
  {
    FailureKeeps(cfg, s);
    InputKept(s, Failure(s));
  }

  lemma FlushFiresInput(cfg: Config, s: State, k: Sock, timer: bool)
    requires Control(cfg, s) && Input(s) && k in s.conns
    ensures Input(FlushFires(cfg, s, k, timer))
  {
    var s1 := Flushed(cfg, s, k, timer);
    assert Wiring(cfg, s1);
    WriterInput(s, k, s1.conns[k]);
    FailureInput(cfg, s1, k);
  }

  lemma TunReadInput(cfg: Config, s: State, pkt: Packet, v: Verdict, now: int, wanted: bool, ready: bool)
    requires Control(cfg, s) && Input(s)
    ensures Input(TunPacket(cfg, s, pkt, v, now, wanted, ready))
  {
    var s0, t := Arrived(s, pkt), Tagged(|s.arrivals|, pkt);
    SameInput(s, s0);
    match v
    case Drop =>
    case Respond(reply) => AnswerInput(s0, reply);
    case Cross => OutboundInput(cfg, s0, t, now, wanted, ready);
  }

  lemma DataInput(cfg: Config, s: State, k: Sock, chunk: seq<byte>)
    requires Control(cfg, s) && Input(s) && k in s.conns
    ensures Input(PeerData(cfg, s, k, chunk))
  {
    if !s.conns[k].st.destroyed {
      if s.wire == Some(k) {
        FramedInput(cfg, s, k, chunk);
      } else {
        IgnoredInput(cfg, s, k, chunk);
      }
    }
  }

  lemma SettledInput(cfg: Config, s: State, now: int)
    requires Control(cfg, s) && Input(s)
    ensures Input(ConnectFailed(s)) && Input(IdleFires(cfg, s, now))
  {
    SameInput(s, ConnectFailed(s));
    if s.idleTimer {
      IdleDisarmKeeps(cfg, s, now);
      InputKept(s, IdleFires(cfg, s, now));
    }
  }

  lemma SocketInput(s: State, k: Sock, st: SockState)
    requires Input(s) && k in s.conns
    ensures Input(SocketChanges(s, k, st))
  {
    var s' := SocketChanges(s, k, st);
    SetSocketCloses(s, k, s'.conns[k].st);
    OnlyClosesInput(s, s');
  }

  lemma StepKeepsInput(cfg: Config, s: State, e: Event)
    requires ValidConfig(cfg) && Control(cfg, s) && Input(s)
    ensures Input(Step(cfg, s, e))
  {
    if Enabled(s, e) {
      match e
      case TunRead(pkt, now, wanted, ready, ipId, fill) =>
        TunReadInput(cfg, s, pkt, Judge(cfg, pkt, ipId, fill), now, wanted, ready);
      case ConnectResolves(k, st) => ConnectedInput(cfg, s, k, st);
      case ConnectRejects => SettledInput(cfg, s, 0);
      case InboundReconnect(k, st) => ReconnectInput(cfg, s, k, st);
      case EnsureWireCalled => EnsureWireInput(cfg, s);
      case Data(k, chunk) => DataInput(cfg, s, k, chunk);
      case End(k) => EndInput(cfg, s, k);
      case Close(k) => CloseInput(cfg, s, k);
      case Error(k) => FailureInput(cfg, s, k);
      case WriteFails(k) => FailureInput(cfg, s, k);
      case IdleTimeout(now) => SettledInput(cfg, s, now);
      case Deferred(k, timer) => FlushFiresInput(cfg, s, k, timer);
      case SockEvent(k, st) => SocketInput(s, k, st);
    }
  }
}
