/** Streams from TUN to the wire: packets leave in arrival order, none overtakes a queued
    one, and every connection carries whole frames of the packets handed to its writer. */
module BridgeOutput {
  import opened Bytes
  import opened Framing
  import FrameWriter
  import opened BridgeModel
  import opened BridgeControl

  /** What the log says was handed to the writer of `k`. */
  function OnLog(log: seq<Entry>, k: Sock): (pkts: seq<Packet>)
    decreases |log|
  {
    if log == [] then []
    else OnLog(log[..|log| - 1], k) + if log[|log| - 1].sock == k then [log[|log| - 1].pkt] else []
  }

  lemma {:induction false} OnLogSnoc(log: seq<Entry>, e: Entry, k: Sock)
    ensures OnLog(log + [e], k) == OnLog(log, k) + if e.sock == k then [e.pkt] else []
  {
    assert (log + [e])[..|log|] == log;
  }

  // ---- Arrival order ----

  /** Packet number `id` from TUN was `pkt`. */
  predicate Came(arrivals: seq<Packet>, id: nat, pkt: Packet) {
    id < |arrivals| && arrivals[id] == pkt
  }

  /** Everything sent arrived before everything waiting, both in arrival order. */
  ghost predicate Ordered(log: seq<Entry>, waiting: seq<Tagged>, arrivals: seq<Packet>) {
    && (forall i, j | 0 <= i < j < |log| :: log[i].id < log[j].id)
    && (forall i, j | 0 <= i < j < |waiting| :: waiting[i].id < waiting[j].id)
    && (forall i, j | 0 <= i < |log| && 0 <= j < |waiting| :: log[i].id < waiting[j].id)
    && (forall i | 0 <= i < |log| :: Came(arrivals, log[i].id, log[i].pkt))
    && (forall j | 0 <= j < |waiting| :: Came(arrivals, waiting[j].id, waiting[j].pkt) && GoodLength(BridgeLimits, |waiting[j].pkt|))
  }

  lemma OrderedSent(log: seq<Entry>, waiting: seq<Tagged>, arrivals: seq<Packet>, k: Sock)
    requires Ordered(log, waiting, arrivals) && waiting != []
    ensures Ordered(log + [Entry(waiting[0].id, waiting[0].pkt, k)], waiting[1..], arrivals)
  {}

  lemma OrderedDropped(log: seq<Entry>, waiting: seq<Tagged>, arrivals: seq<Packet>)
    requires Ordered(log, waiting, arrivals)
    ensures Ordered(log, [], arrivals) && (waiting != [] ==> Ordered(log, waiting[1..], arrivals))
  {}

  /** A packet that arrives now comes after everything sent or waiting. */
  lemma OrderedArrival(log: seq<Entry>, waiting: seq<Tagged>, arrivals: seq<Packet>, t: Tagged)
    requires Ordered(log, waiting, arrivals) && GoodLength(BridgeLimits, |t.pkt|) && t.id == |arrivals|
    ensures Ordered(log, Enqueue(waiting, t), arrivals + [t.pkt])
    ensures Ordered(log, [t], arrivals + [t.pkt]) && Ordered(log, waiting, arrivals + [t.pkt])
  {}

  // ---- Per connection ----

  /** Without a throwing write, flushed and pending are what was handed over; after one,
      the flushed packets are a prefix of it and the connection is no longer the wire. */
  predicate OutputOk(cfg: Config, c: Conn, handed: seq<Packet>, isWire: bool) {
    && FrameWriter.Inv(cfg.writer, c.out)
    && Sendable(BridgeLimits, handed)
    && if c.lost then c.out.flushed <= handed && c.out.pending == [] && !isWire
       else c.out.flushed + c.out.pending == handed
  }

  ghost predicate OutputAt(cfg: Config, s: State, k: Sock) {
    if k in s.conns then OutputOk(cfg, s.conns[k], OnLog(s.log, k), s.ep == Some(k)) else OnLog(s.log, k) == []
  }

  ghost predicate Output(cfg: Config, s: State, waiting: seq<Tagged>) {
    (forall k: Sock :: OutputAt(cfg, s, k)) && Ordered(s.log, waiting, s.arrivals)
  }

  /** No writer and no log entry changes; the wire is at most dropped. */
  ghost predicate Mute(s: State, s': State) {
    && (s'.ep == s.ep || s'.ep == None) && s'.log == s.log && s'.arrivals == s.arrivals
    && forall k: Sock :: SameWriter(s, s', k)
  }

  lemma MuteTwice(s: State, t: State, u: State)
    requires Mute(s, t) && Mute(t, u)
    ensures Mute(s, u)
  {
    forall k: Sock
      ensures SameWriter(s, u, k)
    {
      assert SameWriter(s, t, k) && SameWriter(t, u, k);
    }
  }

  lemma ReadMute(s: State, s': State, k: Sock)
    requires k in s.conns && k in s'.conns && s'.conns == s.conns[k := s'.conns[k]]
    requires SameWriter(s, s', k)
    requires (s'.ep == s.ep || s'.ep == None) && s'.log == s.log && s'.arrivals == s.arrivals
    ensures Mute(s, s')
  {}

  /** Handlers that send nothing keep the output; dropping waiting packets does too. */
  lemma OutputMute(cfg: Config, s: State, s': State, waiting: seq<Tagged>)
    requires Output(cfg, s, waiting) && Mute(s, s')
    ensures Output(cfg, s', waiting) && Output(cfg, s', [])
  {
    forall k: Sock
      ensures OutputAt(cfg, s', k)
    {
      assert OutputAt(cfg, s, k) && SameWriter(s, s', k);
    }
    OrderedDropped(s.log, waiting, s.arrivals);
  }

  lemma OutputMuteEvent(cfg: Config, s: State, s': State)
    requires Output(cfg, s, s.queue) && Mute(s, s') && (s'.queue == s.queue || s'.queue == [])
    ensures Output(cfg, s', s'.queue)
  {
    OutputMute(cfg, s, s', s.queue);
  }

  lemma OutputSilent(cfg: Config, s: State, s': State, waiting: seq<Tagged>)
    requires Output(cfg, s, waiting) && Silent(s, s')
    ensures Output(cfg, s', waiting) && Output(cfg, s', [])
  {
    OutputMute(cfg, s, s', waiting);
  }

  lemma SameOutput(cfg: Config, s: State, s': State, waiting: seq<Tagged>)
    requires Output(cfg, s, waiting) && s'.conns == s.conns && s'.log == s.log && s'.arrivals == s.arrivals
    requires s'.ep == s.ep || s'.ep == None
    ensures Output(cfg, s', waiting)
  {
    OutputMute(cfg, s, s', waiting);
  }

  /** Replacing the record of one connection, whose claim is proved separately. */
  lemma OutputReplaced(cfg: Config, s: State, s': State, k: Sock, waiting: seq<Tagged>, waiting': seq<Tagged>)
    requires Output(cfg, s, waiting) && Ordered(s'.log, waiting', s'.arrivals)
    requires k in s'.conns && s'.conns == s.conns[k := s'.conns[k]] && (s'.ep == s.ep || s'.ep == None || s'.ep == Some(k))
    requires forall j: Sock | j != k :: OnLog(s'.log, j) == OnLog(s.log, j)
    requires OutputAt(cfg, s', k)
    ensures Output(cfg, s', waiting')
  {
    forall j: Sock | j != k
      ensures OutputAt(cfg, s', j)
    {
      assert OutputAt(cfg, s, j);
    }
  }

  lemma AcceptOutput(cfg: Config, s: State, k: Sock, st: SockState, s': State, waiting: seq<Tagged>)
    requires Output(cfg, s, waiting) && k !in s.conns
    requires s'.conns == s.conns[k := Conn(st, FrameWriter.Idle, false, [], [])]
    requires s'.log == s.log && s'.arrivals == s.arrivals
    requires s'.ep == s.ep || s'.ep == None || s'.ep == Some(k)
    ensures Output(cfg, s', waiting)
  {
    assert Frames([]) == [] && OutputAt(cfg, s, k);
    OutputReplaced(cfg, s, s', k, waiting, waiting);
  }

  // ---- Sending ----

  lemma SendableSnoc(pkts: seq<Packet>, p: Packet)
    requires Sendable(BridgeLimits, pkts) && GoodLength(BridgeLimits, |p|)
    ensures Sendable(BridgeLimits, pkts + [p])
  {}

  /** The writer's step on one connection that is the wire. */
  lemma HandedOk(cfg: Config, c: Conn, handed: seq<Packet>, pkt: Packet)
    requires OutputOk(cfg, c, handed, true) && GoodLength(BridgeLimits, |pkt|)
    ensures var throws := c.st.broken && FrameWriter.SendWrites(cfg.writer, c.out, pkt);
      var c' := c.(out := FrameWriter.Send(cfg.writer, c.out, pkt, c.st.broken), lost := throws);
      OutputOk(cfg, c', handed + [pkt], !throws)
  {
    FrameWriter.SendKeeps(cfg.writer, c.out, pkt, c.st.broken);
    FrameWriter.SendOutcome(cfg.writer, c.out, pkt, c.st.broken);
    SendableSnoc(handed, pkt);
  }

  /** The hand-over, up to the report of a throwing write. */
  lemma HandedOutput(cfg: Config, s: State, waiting: seq<Tagged>, k: Sock)
    requires Wiring(cfg, s) && Output(cfg, s, waiting) && waiting != [] && s.armed && s.ep == Some(k)
    ensures var w := s.conns[k].out;
      var s1 := Handed(cfg, s, waiting[0], k, w);
      if Throws(cfg, s, waiting[0], k, w) then Output(cfg, s1.(ep := None), waiting[1..])
      else Output(cfg, s1, waiting[1..])
  {
    var t, w := waiting[0], s.conns[k].out;
    var s1 := Handed(cfg, s, t, k, w);
    var s2 := if Throws(cfg, s, t, k, w) then s1.(ep := None) else s1;
    assert OutputAt(cfg, s, k);
    HandedOk(cfg, s.conns[k], OnLog(s.log, k), t.pkt);
    forall j: Sock
      ensures OnLog(s2.log, j) == OnLog(s.log, j) + if j == k then [t.pkt] else []
    {
      OnLogSnoc(s.log, Entry(t.id, t.pkt, k), j);
    }
    OrderedSent(s.log, waiting, s.arrivals, k);
    OutputReplaced(cfg, s, s2, k, waiting, waiting[1..]);
  }

  lemma SendOutput(cfg: Config, s: State, waiting: seq<Tagged>)
    requires Wiring(cfg, s) && Output(cfg, s, waiting) && waiting != []
    ensures Output(cfg, SendOnWire(cfg, s, waiting[0]), waiting[1..])
  {
    if s.armed {
      var k := s.ep.value;
      var w := s.conns[k].out;
      assert w == if s.writer.Some? then s.conns[k].out else FrameWriter.Idle;
      HandedOutput(cfg, s, waiting, k);
      if Throws(cfg, s, waiting[0], k, w) {
        FailureAfterThrow(cfg, s, waiting[0], k, waiting[1..]);
      }
    } else {
      OrderedDropped(s.log, waiting, s.arrivals);
    }
  }

  lemma FailureAfterThrow(cfg: Config, s: State, t: Tagged, k: Sock, rest: seq<Tagged>)
    requires Wiring(cfg, s) && s.armed && s.ep == Some(k)
    requires Output(cfg, Handed(cfg, s, t, k, s.conns[k].out).(ep := None), rest)
    ensures Output(cfg, Failure(Handed(cfg, s, t, k, s.conns[k].out)), rest)
  {
    var s1 := Handed(cfg, s, t, k, s.conns[k].out);
    HandedKeeps(cfg, s, t, k, s.conns[k].out);
    FailureKeeps(cfg, s1);
    SilentFromNone(s1, Failure(s1));
    OutputSilent(cfg, s1.(ep := None), Failure(s1), rest);
  }

  lemma SilentFromNone(s: State, s': State)
    requires Silent(s, s') && s'.ep.None?
    ensures Silent(s.(ep := None), s')
  {
    forall k: Sock
      ensures Aged(s.(ep := None), s', k) && SameWriter(s.(ep := None), s', k)
    {
      assert Aged(s, s', k) && SameWriter(s, s', k);
    }
  }

  lemma {:induction false} SendAllOutput(cfg: Config, s: State, waiting: seq<Tagged>)
    requires Wiring(cfg, s) && Output(cfg, s, waiting) && s.queue == []
    ensures Output(cfg, SendAll(cfg, s, waiting), [])
    decreases |waiting|
  {
    if waiting != [] {
      SendOutput(cfg, s, waiting);
      SendKeeps(cfg, s, waiting[0]);
      SendAllOutput(cfg, SendOnWire(cfg, s, waiting[0]), waiting[1..]);
    }
  }

  lemma ConnectedOutput(cfg: Config, s: State, k: Sock, st: SockState)
    requires Control(cfg, s) && Output(cfg, s, s.queue) && s.connecting && k !in s.conns
    ensures var s' := Connected(cfg, s, k, st);
      Output(cfg, s', s'.queue)
  {
    var s0 := DrainOff(Accept(s, k, st));
    var s1 := Arm(cfg, s0, k).(queue := []);
    ArmKeeps(cfg, s0, k);
    AcceptOutput(cfg, s, k, st, s1, s.queue);
    SendAllKeeps(cfg, s1, s.queue);
    SendAllOutput(cfg, s1, s.queue);
    SameOutput(cfg, SendAll(cfg, s1, s.queue), Connected(cfg, s, k, st), []);
  }

  lemma ReconnectOutput(cfg: Config, s: State, k: Sock, st: SockState)
    requires Control(cfg, s) && Output(cfg, s, s.queue) && k !in s.conns
    ensures var s' := Reconnect(cfg, s, k, st);
      Output(cfg, s', s'.queue)
  {
    if s.connecting {
      AcceptOutput(cfg, s, k, st, Accept(s, k, st), s.queue);
    } else {
      var s0 := Released(Accept(s, k, st));
      var s1 := Arm(cfg, s0, k);
      ArmKeeps(cfg, s0, k);
      AcceptOutput(cfg, s, k, st, s1, s.queue);
      var s2 := CloseEndpoint(s1, s.ep);
      ClosingOnlyCloses(s1, s.ep);
      ClosingKeeps(cfg, s1, s2);
      OutputSilent(cfg, s1, s2, s.queue);
      SendAllKeeps(cfg, s2, s.queue);
      SendAllOutput(cfg, s2, s.queue);
    }
  }

  lemma EnsureWireOutput(cfg: Config, s: State)
    requires Wiring(cfg, s) && Output(cfg, s, s.queue)
    ensures var s' := EnsureWire(cfg, s);
      Output(cfg, s', s'.queue)
  {
    if !s.armed && !s.connecting {
      RearmKeeps(cfg, s);
      var (s1, reused) := Rearm(cfg, s);
      OutputSilent(cfg, s, s1, s.queue);
      if reused {
        var s2 := s1.(queue := []);
        SameOutput(cfg, s1, s2, s1.queue);
        SendAllKeeps(cfg, s2, s1.queue);
        SendAllOutput(cfg, s2, s1.queue);
      } else {
        SameOutput(cfg, s1, EnsureWire(cfg, s), s1.queue);
      }
    }
  }

  /** The packet is sent at once only when nothing is waiting. */
  lemma OutboundOutput(cfg: Config, s: State, t: Tagged, now: int, wanted: bool, ready: bool)
    requires Control(cfg, s) && Output(cfg, s, s.queue) && t.id == |s.arrivals| && GoodLength(BridgeLimits, |t.pkt|)
    ensures var s' := Outbound(cfg, Arrived(s, t.pkt), t, now, wanted, ready);
      Output(cfg, s', s'.queue)
  {
    var s0 := Arrived(s, t.pkt);
    assert s0.queue == s.queue;
    ArrivedOutput(cfg, s, t);
    if s.armed {
      SendOutput(cfg, s0, [t]);
      SendKeeps(cfg, s0, t);
    } else if Rearm(cfg, s0).1 {
      RearmedOutput(cfg, s0, t);
    } else {
      QueuedOutput(cfg, s0, t);
    }
  }

  lemma ArrivedOutput(cfg: Config, s: State, t: Tagged)
    requires Output(cfg, s, s.queue) && t.id == |s.arrivals| && GoodLength(BridgeLimits, |t.pkt|)
    ensures var s0 := Arrived(s, t.pkt);
      Output(cfg, s0, s.queue) && Output(cfg, s0, [t]) && Output(cfg, s0, Enqueue(s.queue, t))
  {
    var s0 := Arrived(s, t.pkt);
    OrderedArrival(s.log, s.queue, s.arrivals, t);
    ArrivalOutput(cfg, s, s0, s.queue);
    ArrivalOutput(cfg, s, s0, [t]);
    ArrivalOutput(cfg, s, s0, Enqueue(s.queue, t));
  }

  lemma RearmedOutput(cfg: Config, s: State, t: Tagged)
    requires Wiring(cfg, s) && (s.queue != [] ==> s.connecting || s.ep.None?)
    requires Rearm(cfg, s).1 && Output(cfg, s, [t])
    ensures var s1 := Rearm(cfg, s).0;
      && Output(cfg, s1, s1.queue)
      && Output(cfg, SendOnWire(cfg, s1, t), SendOnWire(cfg, s1, t).queue)
  {
    RearmKeeps(cfg, s);
    var s1 := Rearm(cfg, s).0;
    assert s1.queue == [];
    OutputSilent(cfg, s, s1, [t]);
    SendOutput(cfg, s1, [t]);
    SendKeeps(cfg, s1, t);
  }

  lemma QueuedOutput(cfg: Config, s: State, t: Tagged)
    requires Wiring(cfg, s) && !s.armed && !Rearm(cfg, s).1
    requires Output(cfg, s, Enqueue(s.queue, t))
    ensures var s1 := Rearm(cfg, s).0;
      var s' := EnsureWire(cfg, s1.(queue := Enqueue(s1.queue, t)));
      Output(cfg, s', s'.queue)
  {
    RearmKeeps(cfg, s);
    var s1 := Rearm(cfg, s).0;
    var s2 := s1.(queue := Enqueue(s1.queue, t));
    assert Wiring(cfg, s2);
    OutputSilent(cfg, s, s1, Enqueue(s.queue, t));
    SameOutput(cfg, s1, s2, s2.queue);
    EnsureWireOutput(cfg, s2);
  }

  lemma ArrivalOutput(cfg: Config, s: State, s': State, waiting: seq<Tagged>)
    requires Output(cfg, s, s.queue) && s'.conns == s.conns && s'.log == s.log && s'.ep == s.ep
    requires Ordered(s.log, waiting, s'.arrivals)
    ensures Output(cfg, s', waiting)
  {
    forall k: Sock
      ensures OutputAt(cfg, s', k)
    {
      assert OutputAt(cfg, s, k);
    }
  }

  // ---- Events that send nothing new ----

  lemma FlushedOk(cfg: Config, c: Conn, handed: seq<Packet>, isWire: bool, timer: bool)
    requires OutputOk(cfg, c, handed, isWire)
    ensures var e := if timer then FrameWriter.Timer(c.st.broken) else FrameWriter.Immediate(c.st.broken);
      var throws := FlushThrows(c, timer);
      OutputOk(cfg, c.(out := FrameWriter.Step(cfg.writer, c.out, e), lost := c.lost || throws), handed, isWire && !throws)
  {
    var e := if timer then FrameWriter.Timer(c.st.broken) else FrameWriter.Immediate(c.st.broken);
    FrameWriter.StepKeeps(cfg.writer, c.out, e);
    FrameWriter.CallbackOutcome(cfg.writer, c.out, e);
    if c.out.batchLen == 0 {
      assert c.out.pending == [] by { assert |Frames(c.out.pending)| == |c.out.pending|; }
    }
  }

  lemma FlushedOutput(cfg: Config, s: State, k: Sock, timer: bool)
    requires Output(cfg, s, s.queue) && k in s.conns
    ensures var s1 := Flushed(cfg, s, k, timer);
      Output(cfg, if FlushThrows(s.conns[k], timer) && s.ep == Some(k) then s1.(ep := None) else s1, s.queue)
  {
    var s1 := Flushed(cfg, s, k, timer);
    var s2 := if FlushThrows(s.conns[k], timer) && s.ep == Some(k) then s1.(ep := None) else s1;
    assert OutputAt(cfg, s, k);
    FlushedOk(cfg, s.conns[k], OnLog(s.log, k), s.ep == Some(k), timer);
    OutputReplaced(cfg, s, s2, k, s.queue, s.queue);
  }

  lemma FlushFiresOutput(cfg: Config, s: State, k: Sock, timer: bool)
    requires Control(cfg, s) && Output(cfg, s, s.queue) && k in s.conns
    ensures var s' := FlushFires(cfg, s, k, timer);
      Output(cfg, s', s'.queue)
  {
    var s1 := Flushed(cfg, s, k, timer);
    FlushedOutput(cfg, s, k, timer);
    if FlushThrows(s.conns[k], timer) && s.ep == Some(k) {
      assert Wiring(cfg, s1);
      FailureKeeps(cfg, s1);
      SilentFromNone(s1, Failure(s1));
      OutputSilent(cfg, s1.(ep := None), Failure(s1), s.queue);
    }
  }

  /** Reading from a connection does not touch its writer. */
  lemma FramedMute(cfg: Config, s: State, k: Sock, chunk: seq<byte>)
    requires k in s.conns && s.wire == Some(k)
    ensures Mute(s, PeerData(cfg, s, k, chunk)) && PeerData(cfg, s, k, chunk).queue == s.queue
  {
    var s1 := Framed(cfg, s, k, chunk);
    ReadMute(s, s1, k);
    ClosingOnlyCloses(s1, Some(k));
    ClosesSilent(s1, Destroy(s1, Some(k)));
    MuteTwice(s, s1, Destroy(s1, Some(k)));
  }

  lemma IgnoredMute(cfg: Config, s: State, k: Sock, chunk: seq<byte>)
    requires k in s.conns && s.wire != Some(k)
    ensures Mute(s, PeerData(cfg, s, k, chunk)) && PeerData(cfg, s, k, chunk).queue == s.queue
  {
    var c := s.conns[k].(emitted := s.conns[k].emitted + chunk);
    var s1 := s.(conns := s.conns[k := c]);
    var s2 := if s.drain == Some(k) then ClearEp(DrainOff(s1), Some(k)) else s1;
    ReadMute(s, s2, k);
    ClosingOnlyCloses(s2, Some(k));
    ClosesSilent(s2, Destroy(s2, Some(k)));
    MuteTwice(s, s2, Destroy(s2, Some(k)));
  }

  lemma DataOutput(cfg: Config, s: State, k: Sock, chunk: seq<byte>)
    requires Output(cfg, s, s.queue) && k in s.conns
    ensures Output(cfg, PeerData(cfg, s, k, chunk), PeerData(cfg, s, k, chunk).queue)
  {
    if s.wire == Some(k) {
      FramedMute(cfg, s, k, chunk);
    } else {
      IgnoredMute(cfg, s, k, chunk);
    }
    OutputMuteEvent(cfg, s, PeerData(cfg, s, k, chunk));
  }

  lemma FailureOutput(cfg: Config, s: State, k: Sock)
    requires Wiring(cfg, s) && Output(cfg, s, s.queue)
    ensures Output(cfg, WriteError(s, k), WriteError(s, k).queue)
    ensures Output(cfg, PeerError(s, k), PeerError(s, k).queue)
  {
    FailureKeeps(cfg, s);
    OutputSilent(cfg, s, Failure(s), s.queue);
  }

  lemma EndMute(cfg: Config, s: State, k: Sock)
    requires Control(cfg, s) && k in s.conns
    ensures Mute(s, PeerEnd(s, k)) && (PeerEnd(s, k).queue == s.queue || PeerEnd(s, k).queue == [])
  {
    var st := s.conns[k].st.(readableEnded := true);
    var s1 := SetSocket(s, k, st);
    SetSocketCloses(s, k, st);
    ClosingKeeps(cfg, s, s1);
    TeardownKeeps(cfg, s1, true);
    ClosingOnlyCloses(s1, Some(k));
    ClosesSilent(s, s1);
    ClosesSilent(s1, RespondFin(s1, Some(k)));
    MuteTwice(s, s1, PeerEnd(s, k));
  }

  lemma CloseMute(cfg: Config, s: State, k: Sock)
    requires Control(cfg, s) && k in s.conns
    ensures Mute(s, PeerClose(s, k)) && (PeerClose(s, k).queue == s.queue || PeerClose(s, k).queue == [])
  {
    var s1 := DrainOff(Destroy(s, Some(k)));
    ClosingOnlyCloses(s, Some(k));
    ClosesSilent(s, Destroy(s, Some(k)));
    assert Mute(s, s1);
    if s.armed && s.wire == Some(k) {
      ClosingKeeps(cfg, s, Destroy(s, Some(k)));
      TeardownKeeps(cfg, s1, true);
      MuteTwice(s, s1, Teardown(s1, true));
    }
  }

  lemma EndOutput(cfg: Config, s: State, k: Sock)
    requires Control(cfg, s) && Output(cfg, s, s.queue) && k in s.conns
    ensures Output(cfg, PeerEnd(s, k), PeerEnd(s, k).queue)
    ensures Output(cfg, PeerClose(s, k), PeerClose(s, k).queue)
  {
    EndMute(cfg, s, k);
    OutputMuteEvent(cfg, s, PeerEnd(s, k));
    CloseMute(cfg, s, k);
    OutputMuteEvent(cfg, s, PeerClose(s, k));
  }

  lemma TunReadOutput(cfg: Config, s: State, pkt: Packet, v: Verdict, now: int, wanted: bool, ready: bool)
    requires Control(cfg, s) && Output(cfg, s, s.queue)
    requires v.Cross? ==> GoodLength(BridgeLimits, |pkt|)
    ensures var s' := TunPacket(cfg, s, pkt, v, now, wanted, ready);
      Output(cfg, s', s'.queue)
  {
    match v
    case Drop => ArrivalOutput(cfg, s, Arrived(s, pkt), s.queue);
    case Respond(reply) => ArrivalOutput(cfg, s, Answered(Arrived(s, pkt), reply), s.queue);
    case Cross => OutboundOutput(cfg, s, Tagged(|s.arrivals|, pkt), now, wanted, ready);
  }

  lemma SettledOutput(cfg: Config, s: State, now: int)
    requires Control(cfg, s) && Output(cfg, s, s.queue)
    ensures Output(cfg, ConnectFailed(s), s.queue)
    ensures Output(cfg, IdleFires(cfg, s, now), IdleFires(cfg, s, now).queue)
  {
    SameOutput(cfg, s, ConnectFailed(s), s.queue);
    if s.idleTimer {
      IdleDisarmKeeps(cfg, s, now);
      OutputSilent(cfg, s, IdleFires(cfg, s, now), s.queue);
    }
  }

  lemma SocketOutput(cfg: Config, s: State, k: Sock, st: SockState)
    requires Control(cfg, s) && Output(cfg, s, s.queue) && k in s.conns
    ensures Output(cfg, SocketChanges(s, k, st), s.queue)
  {
    var s' := SocketChanges(s, k, st);
    SetSocketCloses(s, k, s'.conns[k].st);
    ClosingKeeps(cfg, s, s');
    OutputSilent(cfg, s, s', s.queue);
  }

  lemma StepKeepsOutput(cfg: Config, s: State, e: Event)
    requires ValidConfig(cfg) && Control(cfg, s) && Output(cfg, s, s.queue)
    ensures var s' := Step(cfg, s, e);
      Output(cfg, s', s'.queue)
  {
    if Enabled(s, e) {
      match e
      case TunRead(pkt, now, wanted, ready, ipId, fill) =>
        CrossesExactly(cfg, pkt, ipId, fill);
        TunReadOutput(cfg, s, pkt, Judge(cfg, pkt, ipId, fill), now, wanted, ready);
      case ConnectResolves(k, st) => ConnectedOutput(cfg, s, k, st);
      case ConnectRejects => SettledOutput(cfg, s, 0);
      case InboundReconnect(k, st) => ReconnectOutput(cfg, s, k, st);
      case EnsureWireCalled => EnsureWireOutput(cfg, s);
      case Data(k, chunk) => DataOutput(cfg, s, k, chunk);
      case End(k) => EndOutput(cfg, s, k);
      case Close(k) => EndOutput(cfg, s, k);
      case Error(k) => FailureOutput(cfg, s, k);
      case WriteFails(k) => FailureOutput(cfg, s, k);
      case IdleTimeout(now) => SettledOutput(cfg, s, now);
      case Deferred(k, timer) => FlushFiresOutput(cfg, s, k, timer);
      case SockEvent(k, st) => SocketOutput(cfg, s, k, st);
    }
  }
}
