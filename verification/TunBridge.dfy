/** `attachTunBridge` in its own form: closure variables as fields, one method per handler.
    Every event method performs exactly one `Step` of BridgeModel.dfy on the fields and keeps
    `Valid()`: the fields hold the state that `Run` reaches by the events so far, so
    whatever BridgeTheorems.dfy proves of every run holds of this object at any time. */
module TunBridge {
  import opened Bytes
  import opened Framing
  import FrameWriter
  import opened FrameReader
  import opened BridgeModel
  import opened BridgeControl
  import opened BridgeInput
  import opened BridgeOutput
  import opened BridgeTheorems
  import Icmp

  class Bridge {
    const cfg: Config
    var ep: Option<Sock>
    var wireArmed: bool
    var connecting: bool
    var tunQueue: seq<Tagged>
    var framer: StreamFramer
    var tcpFramedSend: Option<Sock>
    var wireOn: Option<Sock>
    var drainOn: Option<Sock>
    var idleTimer: bool
    var idleCooldownUntilMs: int
    var conns: map<Sock, Conn>
    var tunWrites: seq<TunWrite>
    ghost var connects: nat
    /** The packets read from TUN, whose positions number them. */
    var arrivals: seq<Packet>
    ghost var log: seq<Entry>
    /** The event methods called so far, and what the constructor was given. */
    ghost var history: seq<Event>
    ghost const first: Sock
    ghost const firstState: SockState

    ghost function Start(): BridgeModel.State {
      Init(cfg, first, firstState)
    }

    ghost function State(): BridgeModel.State
      reads this, framer
    {
      BridgeModel.State(ep, wireArmed, connecting, tunQueue, framer.Contents(), tcpFramedSend, wireOn, drainOn,
                        idleTimer, idleCooldownUntilMs, conns, connects, arrivals, log, tunWrites)
    }

    ghost predicate Wired()
      reads this, framer
    {
      ValidConfig(cfg) && framer.Valid()
    }

    ghost predicate Valid()
      reads this, framer
    {
      Wired() && State() == Run(cfg, Start(), history)
    }

    /** The invariants of BridgeControl.dfy, BridgeInput.dfy and BridgeOutput.dfy hold of a
        valid bridge. */
    lemma Invariants()
      requires Valid()
      ensures Control(cfg, State()) && Input(State()) && Output(cfg, State(), tunQueue)
    {
      ReachableHolds(cfg, first, firstState, history);
    }

    ghost method Record(past: seq<Event>, e: Event)
      requires Wired() && State() == Step(cfg, Run(cfg, Start(), past), e)
      modifies this`history
      ensures Valid() && history == past + [e] && State() == old(State())
    {
      RunSnoc(cfg, Start(), past, e);
      history := past + [e];
    }

    constructor (cfg: Config, endpoint: Sock, st: SockState)
      requires ValidConfig(cfg)
      ensures Valid() && history == [] && this.cfg == cfg && State() == Init(cfg, endpoint, st) && fresh(framer)
    {
      this.cfg := cfg;
      ep, wireArmed := if cfg.lazy then None else Some(endpoint), !cfg.lazy;
      connecting, tunQueue, tcpFramedSend, drainOn, idleCooldownUntilMs := false, [], None, None, 0;
      wireOn, idleTimer := if cfg.lazy then None else Some(endpoint), !cfg.lazy && cfg.keepAlive;
      conns := if cfg.lazy then map[] else map[endpoint := Conn(st, FrameWriter.Idle, false, [], [])];
      tunWrites, connects, arrivals, log := [], 0, [], [];
      framer := new StreamFramer();
      history, first, firstState := [], endpoint, st;
    }

    // ---- Sockets ----

    method SetSocketState(k: Sock, st: SockState)
      requires k in conns
      modifies this`conns
      ensures State() == SetSocket(old(State()), k, st)
    {
      conns := conns[k := conns[k].(st := st)];
    }

    method ResetTcpEndpoint(sock: Option<Sock>)
      modifies this`conns
      ensures State() == Destroy(old(State()), sock)
    {
      if sock.None? || sock.value !in conns { return; }
      SetSocketState(sock.value, conns[sock.value].st.(destroyed := true));
    }

    method RespondFinTcpEndpoint(sock: Option<Sock>)
      modifies this`conns
      ensures State() == RespondFin(old(State()), sock)
    {
      if sock.None? || sock.value !in conns || conns[sock.value].st.destroyed { return; }
      if conns[sock.value].st.finUnsafe {
        ResetTcpEndpoint(sock);
        return;
      }
      SetSocketState(sock.value, conns[sock.value].st.(writableEnded := true, writable := false));
    }

    method CloseBridgeEndpoint(prev: Option<Sock>)
      modifies this`conns
      ensures State() == CloseEndpoint(old(State()), prev)
    {
      if prev.None? || prev.value !in conns || conns[prev.value].st.destroyed { return; }
      if Closing(conns[prev.value].st) {
        ResetTcpEndpoint(prev);
      } else {
        RespondFinTcpEndpoint(prev);
      }
    }

    // ---- Small closures ----

    method ClearTcpEndpointRef(sock: Option<Sock>)
      modifies this`ep, this`tcpFramedSend
      ensures State() == ClearEp(old(State()), sock)
    {
      if sock.Some? && ep == sock {
        ep, tcpFramedSend := None, None;
      }
    }

    method BumpActivity()
      modifies this`idleTimer
      ensures State() == Bump(cfg, old(State()))
    {
      if cfg.keepAlive { idleTimer := true; }
    }

    // ---- Tear-down ----

    /** `cancelTimers`, `wireOff`, disarm, and an empty queue */
    method StopWire()
      modifies this`idleTimer, this`wireOn, this`wireArmed, this`tunQueue
      ensures State() == Stopped(old(State()))
    {
      idleTimer, wireOn, wireArmed, tunQueue := false, None, false, [];
    }

    method TeardownWire(fin: bool)
      modifies this
      ensures framer == old(framer) && State() == Teardown(old(State()), fin)
    {
      if !wireArmed && ep.None? && !connecting {
        tunQueue := [];
        return;
      }
      var sock := ep;
      StopWire();
      ep, tcpFramedSend, drainOn := None, None, None;
      if fin {
        RespondFinTcpEndpoint(sock);
      } else {
        ResetTcpEndpoint(sock);
      }
    }

    method HandleTcpWireFailure()
      modifies this
      ensures framer == old(framer) && State() == Failure(old(State()))
    {
      var sock := ep;
      if wireArmed {
        TeardownWire(false);
        return;
      }
      if sock.None? { return; }
      drainOn := None;
      ClearTcpEndpointRef(sock);
      ResetTcpEndpoint(sock);
    }

    method TcpClientIdleDisarm(now: int)
      modifies this
      ensures framer == old(framer) && State() == IdleDisarm(cfg, old(State()), now)
    {
      if !wireArmed && ep.None? { return; }
      StopWire();
      if cfg.cooldownMs > 0 && cfg.lazy {
        idleCooldownUntilMs := now + cfg.cooldownMs;
      }
      if ep.Some? && !(ep.value in conns && conns[ep.value].st.destroyed) {
        drainOn := ep;
      }
    }

    // ---- Sending ----

    method OnWriteError(sock: Sock)
      modifies this
      ensures framer == old(framer) && State() == WriteError(old(State()), sock)
    {
      if ep == Some(sock) { HandleTcpWireFailure(); }
    }

    method SendPacket(t: Tagged)
      modifies this
      ensures framer == old(framer) && State() == SendOnWire(cfg, old(State()), t)
    {
      if !wireArmed || ep.None? { return; }
      var k := if tcpFramedSend.Some? then tcpFramedSend.value else ep.value;
      if k !in conns { return; }
      var w := if tcpFramedSend.Some? then conns[k].out else FrameWriter.Idle;
      var throws := HandOver(t, k, w);
      if throws { OnWriteError(k); }
    }

    method HandOver(t: Tagged, k: Sock, w: FrameWriter.Writer) returns (throws: bool)
      requires k in conns
      modifies this`idleTimer, this`tcpFramedSend, this`log, this`conns
      ensures State() == Handed(cfg, old(State()), t, k, w) && throws == Throws(cfg, old(State()), t, k, w)
    {
      BumpActivity();
      var broken := conns[k].st.broken;
      throws := broken && FrameWriter.SendWrites(cfg.writer, w, t.pkt);
      tcpFramedSend := Some(k);
      log := log + [Entry(t.id, t.pkt, k)];
      conns := conns[k := conns[k].(out := FrameWriter.Send(cfg.writer, w, t.pkt, broken), lost := conns[k].lost || throws)];
    }

    method SendPending(pending: seq<Tagged>)
      modifies this
      ensures framer == old(framer) && State() == SendAll(cfg, old(State()), pending)
    {
      for i := 0 to |pending|
        invariant framer == old(framer)
        invariant SendAll(cfg, State(), pending[i..]) == SendAll(cfg, old(State()), pending)
      {
        assert pending[i..][1..] == pending[i + 1..];
        SendPacket(pending[i]);
      }
    }

    // ---- Connecting ----

    method RearmTcpClientWire() returns (reused: bool)
      modifies this
      ensures framer == old(framer) && (State(), reused) == Rearm(cfg, old(State()))
    {
      if wireArmed || connecting { return false; }
      if ep.None? || ep.value !in conns || conns[ep.value].st.destroyed { return false; }
      if Closing(conns[ep.value].st) {
        drainOn := None;
        ClearTcpEndpointRef(ep);
        ResetTcpEndpoint(ep);
        return false;
      }
      drainOn := None;
      wireOn := ep;
      wireArmed := true;
      BumpActivity();
      return true;
    }

    method StartConnect()
      modifies this
      ensures framer == old(framer) && State() == EnsureWire(cfg, old(State()))
    {
      if wireArmed || connecting { return; }
      var reused := RearmTcpClientWire();
      if reused {
        var pending := TakeQueue();
        SendPending(pending);
        return;
      }
      if !cfg.lazy { return; }
      connecting := true;
      connects := connects + 1;
    }

    /** `tunQueue.splice(0)` */
    method TakeQueue() returns (pending: seq<Tagged>)
      modifies this`tunQueue
      ensures pending == old(tunQueue) && State() == Emptied(old(State()))
    {
      pending := tunQueue;
      tunQueue := [];
    }

    /** The `finally` of `ensureWire` */
    method Settle()
      modifies this`connecting, this`connects
      ensures State() == Settled(old(State()))
    {
      connecting := false;
      connects := if connects == 0 then 0 else connects - 1;
    }

    method AcceptSocket(k: Sock, st: SockState)
      modifies this`conns
      ensures State() == Accept(old(State()), k, st)
    {
      conns := conns[k := Conn(st, FrameWriter.Idle, false, [], [])];
    }

    /** A fresh framer and fresh handlers for `k`. */
    method ArmOn(k: Sock)
      modifies this
      ensures fresh(framer) && framer.Valid() && State() == Arm(cfg, old(State()), k)
    {
      tcpFramedSend := None;
      ep := Some(k);
      wireArmed := true;
      NewFramer();
      wireOn := ep;
      BumpActivity();
    }

    method NewFramer()
      modifies this`framer
      ensures fresh(framer) && framer.Valid() && State() == old(State()).(framer := [])
    {
      framer := new StreamFramer();
    }

    // ---- Events ----

    method OnConnectResolved(k: Sock, st: SockState)
      requires Valid() && Enabled(State(), ConnectResolves(k, st))
      modifies this
      ensures Valid() && fresh(framer) && State() == Step(cfg, old(State()), ConnectResolves(k, st))
    {
      AcceptSocket(k, st);
      drainOn := None;
      ArmOn(k);
      var pending := TakeQueue();
      SendPending(pending);
      Settle();
      Record(old(history), ConnectResolves(k, st));
    }

    method OnConnectRejected()
      requires Valid() && Enabled(State(), ConnectRejects)
      modifies this
      ensures Valid() && framer == old(framer) && State() == Step(cfg, old(State()), ConnectRejects)
    {
      wireArmed, ep, tcpFramedSend := false, None, None;
      Settle();
      Record(old(history), ConnectRejects);
    }

    /** `cancelTimers`, `wireOff` and an empty queue */
    method Release()
      modifies this`idleTimer, this`wireOn, this`tunQueue
      ensures State() == Released(old(State()))
    {
      idleTimer, wireOn, tunQueue := false, None, [];
    }

    method ReconnectWire(newEp: Sock, st: SockState)
      requires Valid() && Enabled(State(), InboundReconnect(newEp, st))
      modifies this
      ensures Valid() && (framer == old(framer) || fresh(framer))
      ensures State() == Step(cfg, old(State()), InboundReconnect(newEp, st))
    {
      AcceptSocket(newEp, st);
      if !connecting {
        var prev, pending := ep, tunQueue;
        Release();
        ArmOn(newEp);
        CloseBridgeEndpoint(prev);
        SendPending(pending);
      }
      Record(old(history), InboundReconnect(newEp, st));
    }

    method EnsureWireApi()
      requires Valid()
      modifies this
      ensures Valid() && framer == old(framer) && State() == Step(cfg, old(State()), EnsureWireCalled)
    {
      StartConnect();
      Record(old(history), EnsureWireCalled);
    }

    /** `tun.startRead`'s callback for one packet. The answer's unwritten octets are `fill`. */
    method OnTunPacket(pkt: Packet, now: int, wanted: bool, ready: bool, ipId: nat, fill: seq<byte>)
      requires Valid() && |fill| == 4
      modifies this
      ensures Valid() && framer == old(framer)
      ensures State() == Step(cfg, old(State()), TunRead(pkt, now, wanted, ready, ipId, fill))
    {
      var t := Tagged(|arrivals|, pkt);
      var v := Examine(pkt, ipId, fill);
      CountArrival(pkt);
      match v {
        case Drop =>
        case Respond(reply) => WriteAnswer(reply);
        case Cross => ForwardPacket(t, now, wanted, ready);
      }
      Record(old(history), TunRead(pkt, now, wanted, ready, ipId, fill));
    }

    method CountArrival(pkt: Packet)
      modifies this`arrivals
      ensures State() == Arrived(old(State()), pkt)
    {
      arrivals := arrivals + [pkt];
    }

    /** `writeTun(reply)` */
    method WriteAnswer(reply: Packet)
      modifies this`tunWrites
      ensures State() == Answered(old(State()), reply)
    {
      tunWrites := tunWrites + [Answer(reply)];
    }

    method Examine(pkt: Packet, ipId: nat, fill: seq<byte>) returns (v: Verdict)
      requires Wired() && |fill| == 4
      ensures v == Judge(cfg, pkt, ipId, fill)
    {
      if |pkt| == 0 || |pkt| > MAX_PKT { return Drop; }
      if cfg.local4.Some? && Icmp.IsEchoRequest(pkt, cfg.local4.value) {
        return Respond(Icmp.Reply(pkt, ipId % 0x1_0000, fill));
      }
      if !Icmp.IsIpv4Bridgeable(pkt) { return Drop; }
      return Cross;
    }

    method ForwardPacket(t: Tagged, now: int, wanted: bool, ready: bool)
      modifies this
      ensures framer == old(framer) && State() == Outbound(cfg, old(State()), t, now, wanted, ready)
    {
      if !wireArmed && cfg.lazy {
        if now < idleCooldownUntilMs { return; }
        if !wanted { return; }
        var reused := RearmTcpClientWire();
        if reused {
          if !ready { return; }
          SendPacket(t);
          return;
        }
        if |tunQueue| >= QUEUE_MAX { tunQueue := tunQueue[1..]; }
        tunQueue := tunQueue + [t];
        StartConnect();
        return;
      }
      if !wireArmed { return; }
      if !ready { return; }
      SendPacket(t);
    }

    method OnData(k: Sock, chunk: seq<byte>)
      requires Valid() && k in conns
      modifies this, framer
      ensures Valid() && framer == old(framer) && State() == Step(cfg, old(State()), Data(k, chunk))
    {
      if !conns[k].st.destroyed {
        if wireOn == Some(k) { OnWireData(k, chunk); } else { OnStrayData(k, chunk); }
      }
      Record(old(history), Data(k, chunk));
    }

    /** The wire's `data` handler */
    method OnWireData(k: Sock, chunk: seq<byte>)
      requires Wired() && k in conns
      modifies this, framer
      ensures Wired() && framer == old(framer) && State() == WireData(cfg, old(State()), k, chunk)
    {
      BumpActivity();
      var packets, threw := framer.Push(chunk);
      conns := conns[k := conns[k].(emitted := conns[k].emitted + chunk, received := conns[k].received + packets)];
      tunWrites := tunWrites + FromSocket(k, NotV6(packets));
      if threw { ResetTcpEndpoint(Some(k)); }
    }

    /** The drain's `data` handler, or none */
    method OnStrayData(k: Sock, chunk: seq<byte>)
      requires Wired() && k in conns
      modifies this
      ensures Wired() && framer == old(framer) && State() == StrayData(old(State()), k, chunk)
    {
      conns := conns[k := conns[k].(emitted := conns[k].emitted + chunk)];
      if drainOn == Some(k) {
        drainOn := None;
        ClearTcpEndpointRef(Some(k));
        ResetTcpEndpoint(Some(k));
      }
    }

    method OnEnd(k: Sock)
      requires Valid() && k in conns
      modifies this
      ensures Valid() && framer == old(framer) && State() == Step(cfg, old(State()), End(k))
    {
      SetSocketState(k, conns[k].st.(readableEnded := true));
      if wireOn == Some(k) {
        if wireArmed { TeardownWire(true); }
      } else if drainOn == Some(k) {
        RespondFinTcpEndpoint(Some(k));
      }
      Record(old(history), End(k));
    }

    method OnClose(k: Sock)
      requires Valid() && k in conns
      modifies this
      ensures Valid() && framer == old(framer) && State() == Step(cfg, old(State()), Close(k))
    {
      ResetTcpEndpoint(Some(k));
      if wireOn == Some(k) {
        drainOn := None;
        if wireArmed { TeardownWire(true); } else { ClearTcpEndpointRef(Some(k)); }
      } else if drainOn == Some(k) {
        drainOn := None;
        ClearTcpEndpointRef(Some(k));
      }
      Record(old(history), Close(k));
    }

    method OnError(k: Sock)
      requires Valid() && k in conns
      modifies this
      ensures Valid() && framer == old(framer) && State() == Step(cfg, old(State()), Error(k))
    {
      if wireOn == Some(k) || drainOn == Some(k) { HandleTcpWireFailure(); }
      Record(old(history), Error(k));
    }

    method OnWriteFails(k: Sock)
      requires Valid() && k in conns
      modifies this
      ensures Valid() && framer == old(framer) && State() == Step(cfg, old(State()), WriteFails(k))
    {
      OnWriteError(k);
      Record(old(history), WriteFails(k));
    }

    method OnIdleTimer(now: int)
      requires Valid() && idleTimer
      modifies this
      ensures Valid() && framer == old(framer) && State() == Step(cfg, old(State()), IdleTimeout(now))
    {
      idleTimer := false;
      TcpClientIdleDisarm(now);
      Record(old(history), IdleTimeout(now));
    }

    /** Node changes the flags of a socket on its own account. */
    method OnSocketChange(k: Sock, st: SockState)
      requires Valid() && k in conns
      modifies this
      ensures Valid() && framer == old(framer) && State() == Step(cfg, old(State()), SockEvent(k, st))
    {
      var was := conns[k].st;
      SetSocketState(k, st.(destroyed := st.destroyed || was.destroyed, finUnsafe := was.finUnsafe,
                            readableEnded := st.readableEnded || was.readableEnded,
                            writableEnded := st.writableEnded || was.writableEnded));
      Record(old(history), SockEvent(k, st));
    }

    method OnDeferredFlush(k: Sock, timer: bool)
      requires Valid() && k in conns
      modifies this
      ensures Valid() && framer == old(framer) && State() == Step(cfg, old(State()), Deferred(k, timer))
    {
      var c := conns[k];
      var e := if timer then FrameWriter.Timer(c.st.broken) else FrameWriter.Immediate(c.st.broken);
      var throws := FlushThrows(c, timer);
      conns := conns[k := c.(out := FrameWriter.Step(cfg.writer, c.out, e), lost := c.lost || throws)];
      if throws { OnWriteError(k); }
      Record(old(history), Deferred(k, timer));
    }
  }
}
