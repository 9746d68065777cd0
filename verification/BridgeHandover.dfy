/** Two ways in which the client bridge's interface surprises: an error of a socket it no longer
    uses takes down the wire, and a socket it means to reset is let go unreset. The first needs
    a caller that hands an inbound connection to a client bridge, which the repository's own
    callers of `reconnectWire` do not do. */
module BridgeHandover {
  import opened Bytes
  import opened Framing
  import FrameWriter
  import opened BridgeModel
  import opened BridgeControl
  import opened BridgeTheorems

  // ---- A stale error takes down the live wire ----

  /** An error on some other socket leaves an armed bridge alone exactly when that socket
      does not carry the idle-drain handlers. */
  lemma StaleErrorExactly(cfg: Config, s: State, k: Sock)
    requires Control(cfg, s) && s.armed && s.ep != Some(k)
    ensures PeerError(s, k).armed <==> s.drain != Some(k)
    ensures s.drain != Some(k) ==> PeerError(s, k) == s
  {
    FailureKeeps(cfg, s);
  }

  /** A connection handed over on a socket that takes writes becomes the wire, and the drain
      handlers stay on whatever socket carried them. */
  lemma StaleDrainExactly(cfg: Config, s: State, k: Sock, st: SockState)
    requires Control(cfg, s) && !s.connecting && k !in s.conns && !st.broken
    ensures var s' := Reconnect(cfg, s, k, st);
      s'.armed && s'.ep == Some(k) && s'.drain == s.drain
  {
    var s0 := Released(Accept(s, k, st));
    var s1 := Arm(cfg, s0, k);
    ArmKeeps(cfg, s0, k);
    var s2 := CloseEndpoint(s1, s.ep);
    ClosingOnlyCloses(s1, s.ep);
    ClosingKeeps(cfg, s1, s2);
    assert OnlyClosed(s1, s2, k);
    assert s2.conns[k].st == st by {
      if s.ep.Some? { assert s.ep.value != k; }
    }
    SendAllLogs(cfg, s2, s.queue, k);
  }

  /** Then an error on the drained socket `a` destroys the live connection `b`. */
  lemma StaleErrorRun(cfg: Config, s: State, a: Sock, now: int, b: Sock, st: SockState)
    requires ValidConfig(cfg) && Control(cfg, s) && cfg.keepAlive && s.armed && s.ep == Some(a)
    requires !s.conns[a].st.destroyed && b !in s.conns && !st.broken
    ensures var s1 := Step(cfg, s, IdleTimeout(now));
      var s2 := Step(cfg, s1, InboundReconnect(b, st));
      var s3 := Step(cfg, s2, Error(a));
      s2.armed && s2.ep == Some(b) && !s3.armed && Destroyed(s3, b)
  {
    var s1 := Step(cfg, s, IdleTimeout(now));
    IdleDrains(cfg, s, a, now);
    StaleDrainExactly(cfg, s1, b, st);
    StepKeepsControl(cfg, s1, InboundReconnect(b, st));
    ErrorDestroys(cfg, Step(cfg, s1, InboundReconnect(b, st)), a, b);
  }

  /** An idle timeout leaves the socket as it is, under the drain handlers. */
  lemma IdleDrains(cfg: Config, s: State, a: Sock, now: int)
    requires ValidConfig(cfg) && Control(cfg, s) && cfg.keepAlive && s.armed && s.ep == Some(a)
    requires !s.conns[a].st.destroyed
    ensures var s1 := Step(cfg, s, IdleTimeout(now));
      && Control(cfg, s1) && !s1.armed && !s1.connecting && s1.wire == None && s1.ep == s1.drain == Some(a)
      && s1.conns == s.conns
  {
    StepKeepsControl(cfg, s, IdleTimeout(now));
  }

  lemma ErrorDestroys(cfg: Config, s: State, a: Sock, b: Sock)
    requires Control(cfg, s) && s.armed && s.ep == Some(b) && s.drain == Some(a)
    ensures !PeerError(s, a).armed && Destroyed(PeerError(s, a), b)
  {
    FailureKeeps(cfg, s);
  }

  /** No armed bridge on which an error of a socket other than its wire acts. */
  predicate NoStale(s: State) {
    s.armed ==> s.drain.None?
  }

  lemma {:induction false} SendAllNoStale(cfg: Config, s: State, pending: seq<Tagged>)
    requires s.drain.None?
    ensures SendAll(cfg, s, pending).drain.None?
    decreases |pending|
  {
    if pending != [] {
      SendAllNoStale(cfg, SendOnWire(cfg, s, pending[0]), pending[1..]);
    }
  }

  lemma EnsureWireNoStale(cfg: Config, s: State)
    requires NoStale(s)
    ensures NoStale(EnsureWire(cfg, s))
  {
    var (s1, reused) := Rearm(cfg, s);
    if reused {
      SendAllNoStale(cfg, s1.(queue := []), s1.queue);
    }
  }

  lemma OutboundNoStale(cfg: Config, s: State, t: Tagged, now: int, wanted: bool, ready: bool)
    requires NoStale(s)
    ensures NoStale(Outbound(cfg, s, t, now, wanted, ready))
  {
    var (s1, reused) := Rearm(cfg, s);
    if !reused {
      EnsureWireNoStale(cfg, s1.(queue := Enqueue(s1.queue, t)));
    }
  }

  lemma ArmedNoStale(cfg: Config, s: State, k: Sock, st: SockState)
    requires NoStale(s)
    ensures NoStale(Connected(cfg, s, k, st))
    ensures s.drain.None? ==> NoStale(Reconnect(cfg, s, k, st))
  {
    SendAllNoStale(cfg, Arm(cfg, DrainOff(Accept(s, k, st)), k).(queue := []), s.queue);
    if s.drain.None? {
      var s1 := Arm(cfg, Released(Accept(s, k, st)), k);
      SendAllNoStale(cfg, CloseEndpoint(s1, s.ep), s.queue);
    }
  }

  lemma DataNoStale(cfg: Config, s: State, k: Sock, chunk: seq<byte>)
    requires NoStale(s) && k in s.conns
    ensures NoStale(PeerData(cfg, s, k, chunk))
  {}

  lemma EndNoStale(s: State, k: Sock)
    requires NoStale(s) && k in s.conns
    ensures NoStale(PeerEnd(s, k)) && NoStale(PeerClose(s, k))
  {}

  lemma TunReadNoStale(cfg: Config, s: State, pkt: Packet, v: Verdict, now: int, wanted: bool, ready: bool)
    requires NoStale(s)
    ensures NoStale(TunPacket(cfg, s, pkt, v, now, wanted, ready))
  {
    OutboundNoStale(cfg, Arrived(s, pkt), Tagged(|s.arrivals|, pkt), now, wanted, ready);
  }

  lemma FailureNoStale(s: State, k: Sock)
    requires NoStale(s)
    ensures NoStale(PeerError(s, k)) && NoStale(WriteError(s, k))
  {}

  lemma IdleNoStale(cfg: Config, s: State, now: int)
    requires NoStale(s)
    ensures NoStale(IdleFires(cfg, s, now))
  {}

  lemma FlushNoStale(cfg: Config, s: State, k: Sock, timer: bool)
    requires NoStale(s) && k in s.conns
    ensures NoStale(FlushFires(cfg, s, k, timer))
  {
    FailureNoStale(Flushed(cfg, s, k, timer), k);
  }

  /** Sending keeps the wire and the drain handlers, or tears both down. */
  predicate Sends(s: State, s': State) {
    && (s'.armed ==> s.armed && s'.ep == s.ep && s'.drain == s.drain)
    && (s'.drain.Some? ==> s'.drain == s.drain)
  }

  lemma {:induction false} SendAllDrain(cfg: Config, s: State, pending: seq<Tagged>)
    ensures Sends(s, SendAll(cfg, s, pending))
    decreases |pending|
  {
    if pending != [] {
      SendAllDrain(cfg, SendOnWire(cfg, s, pending[0]), pending[1..]);
    }
  }

  /** A reconnect that leaves the bridge armed leaves the drain handlers where they were. */
  lemma ReconnectDrain(cfg: Config, s: State, k: Sock, st: SockState)
    requires !s.connecting
    ensures Reconnect(cfg, s, k, st).armed ==> Reconnect(cfg, s, k, st).drain == s.drain
  {
    var s1 := Arm(cfg, Released(Accept(s, k, st)), k);
    ClosingOnlyCloses(s1, s.ep);
    SendAllDrain(cfg, CloseEndpoint(s1, s.ep), s.queue);
  }

  /** A connection is handed over and taken (no connect is under way, and its socket takes the
      queue without a throwing write) while another socket is drained. */
  predicate HandsOver(cfg: Config, s: State, e: Event)
    requires ValidConfig(cfg)
  {
    e.InboundReconnect? && Enabled(s, e) && !s.connecting && s.drain.Some? && Step(cfg, s, e).armed
  }

  lemma StepStaleExactly(cfg: Config, s: State, e: Event)
    requires ValidConfig(cfg) && Control(cfg, s) && NoStale(s)
    ensures NoStale(Step(cfg, s, e)) <==> !HandsOver(cfg, s, e)
  {
    if Enabled(s, e) {
      match e
      case TunRead(pkt, now, wanted, ready, ipId, fill) =>
        TunReadNoStale(cfg, s, pkt, Judge(cfg, pkt, ipId, fill), now, wanted, ready);
      case ConnectResolves(k, st) => ArmedNoStale(cfg, s, k, st);
      case InboundReconnect(k, st) =>
        ArmedNoStale(cfg, s, k, st);
        if !s.connecting { ReconnectDrain(cfg, s, k, st); }
      case EnsureWireCalled => EnsureWireNoStale(cfg, s);
      case Data(k, chunk) => DataNoStale(cfg, s, k, chunk);
      case End(k) => EndNoStale(s, k);
      case Close(k) => EndNoStale(s, k);
      case Error(k) => FailureNoStale(s, k);
      case WriteFails(k) => FailureNoStale(s, k);
      case IdleTimeout(now) => IdleNoStale(cfg, s, now);
      case Deferred(k, timer) => FlushNoStale(cfg, s, k, timer);
      case _ =>
    }
  }

  /** The state after the first `n` events. */
  function After(cfg: Config, k: Sock, st: SockState, events: seq<Event>, n: int): (s: State)
    requires ValidConfig(cfg) && 0 <= n <= |events|
  {
    Run(cfg, Init(cfg, k, st), events[..n])
  }

  lemma AfterNext(cfg: Config, k: Sock, st: SockState, events: seq<Event>, n: int)
    requires ValidConfig(cfg) && 0 <= n < |events|
    ensures After(cfg, k, st, events, n + 1) == Step(cfg, After(cfg, k, st, events, n), events[n])
    ensures Control(cfg, After(cfg, k, st, events, n))
  {
    assert events[..n + 1][..n] == events[..n];
    ReachableHolds(cfg, k, st, events[..n]);
  }

  predicate StaleAt(cfg: Config, k: Sock, st: SockState, events: seq<Event>, n: int)
    requires ValidConfig(cfg)
  {
    0 <= n <= |events| && !NoStale(After(cfg, k, st, events, n))
  }

  predicate HandoverAt(cfg: Config, k: Sock, st: SockState, events: seq<Event>, n: int)
    requires ValidConfig(cfg)
  {
    0 <= n < |events| && HandsOver(cfg, After(cfg, k, st, events, n), events[n])
  }

  lemma {:induction false} StaleNeedsHandover(cfg: Config, k: Sock, st: SockState, events: seq<Event>, n: int) returns (i: int)
    requires ValidConfig(cfg) && StaleAt(cfg, k, st, events, n)
    ensures HandoverAt(cfg, k, st, events, i)
    decreases n
  {
    StartsClean(cfg, k, st, events);
    AfterNext(cfg, k, st, events, n - 1);
    if StaleAt(cfg, k, st, events, n - 1) {
      i := StaleNeedsHandover(cfg, k, st, events, n - 1);
    } else {
      StepStaleExactly(cfg, After(cfg, k, st, events, n - 1), events[n - 1]);
      i := n - 1;
    }
  }

  lemma StartsClean(cfg: Config, k: Sock, st: SockState, events: seq<Event>)
    requires ValidConfig(cfg)
    ensures !StaleAt(cfg, k, st, events, 0)
  {
    assert events[..0] == [];
  }

  /** At some point of a run a foreign error can take down the armed bridge exactly if at some
      point a handed-over connection was taken while another socket was drained. */
  lemma StaleRunExactly(cfg: Config, k: Sock, st: SockState, events: seq<Event>)
    requires ValidConfig(cfg)
    ensures (exists n :: StaleAt(cfg, k, st, events, n)) <==> exists n :: HandoverAt(cfg, k, st, events, n)
  {
    if n :| StaleAt(cfg, k, st, events, n) {
      var i := StaleNeedsHandover(cfg, k, st, events, n);
    }
    if n :| HandoverAt(cfg, k, st, events, n) {
      AfterNext(cfg, k, st, events, n);
      if !StaleAt(cfg, k, st, events, n) {
        StepStaleExactly(cfg, After(cfg, k, st, events, n), events[n]);
        assert StaleAt(cfg, k, st, events, n + 1);
      }
    }
  }

  /** What a caller sees of the sockets: those handed to the bridge and not closed since, and
      which of them were there at an idle timeout. */
  datatype Seen = Seen(open: set<Sock>, idle: set<Sock>)

  function Watch(w: Seen, e: Event): (w': Seen) {
    match e
    case ConnectResolves(k, _) => w.(open := w.open + {k})
    case InboundReconnect(k, _) => w.(open := w.open + {k})
    case IdleTimeout(_) => w.(idle := w.open)
    case Close(k) => Seen(w.open - {k}, w.idle - {k})
    case _ => w
  }

  function Watched(cfg: Config, k: Sock, events: seq<Event>): (w: Seen)
    decreases |events|
  {
    if events == [] then Seen(if cfg.lazy then {} else {k}, {})
    else Watch(Watched(cfg, k, events[..|events| - 1]), events[|events| - 1])
  }

  /** No connection is handed over while a socket that saw an idle timeout has yet to close. */
  predicate Patient(cfg: Config, k: Sock, events: seq<Event>)
    decreases |events|
  {
    events == [] ||
    var init := events[..|events| - 1];
    Patient(cfg, k, init) && (events[|events| - 1].InboundReconnect? ==> Watched(cfg, k, init).idle == {})
  }

  // ---- A condition on the events ----

  /** The wire is a socket still open, and the drained one saw an idle timeout. */
  predicate Guarded(s: State, w: Seen) {
    && (s.armed && s.ep.Some? ==> s.ep.value in w.open)
    && (s.drain.Some? ==> s.drain.value in w.idle)
    && w.idle <= w.open
  }

  /** Handlers that hand over nothing: the wire is the old one or the drained one. */
  predicate Tame(s: State, s': State) {
    && (s'.armed ==> (s.armed && s'.ep == s.ep) || (s.drain.Some? && s'.ep == s.drain))
    && (s'.drain.Some? ==> s'.drain == s.drain)
  }

  lemma EnsureWireTame(cfg: Config, s: State)
    requires Wiring(cfg, s)
    ensures Tame(s, EnsureWire(cfg, s))
  {
    var s1 := Rearm(cfg, s).0;
    SendAllDrain(cfg, Emptied(s1), s1.queue);
  }

  lemma OutboundTame(cfg: Config, s: State, t: Tagged, now: int, wanted: bool, ready: bool)
    requires Control(cfg, s)
    ensures Tame(s, Outbound(cfg, s, t, now, wanted, ready))
  {
    var (s1, reused) := Rearm(cfg, s);
    if reused {
      assert Sends(s1, SendOnWire(cfg, s1, t));
    } else if !s.armed {
      RearmKeeps(cfg, s);
      var s2 := s1.(queue := Enqueue(s1.queue, t));
      assert Wiring(cfg, s2);
      EnsureWireTame(cfg, s2);
    }
  }

  lemma TunTame(cfg: Config, s: State, pkt: Packet, v: Verdict, now: int, wanted: bool, ready: bool)
    requires Control(cfg, s)
    ensures Tame(s, TunPacket(cfg, s, pkt, v, now, wanted, ready))
  {
    CountingKeeps(cfg, s, Arrived(s, pkt));
    OutboundTame(cfg, Arrived(s, pkt), Tagged(|s.arrivals|, pkt), now, wanted, ready);
  }

  lemma DataTame(cfg: Config, s: State, k: Sock, chunk: seq<byte>)
    requires Control(cfg, s) && k in s.conns
    ensures Tame(s, PeerData(cfg, s, k, chunk))
  {
    assert Tame(s, WireData(cfg, s, k, chunk)) && Tame(s, StrayData(s, k, chunk));
  }

  lemma EndTame(s: State, k: Sock)
    requires k in s.conns
    ensures Tame(s, PeerEnd(s, k))
  {}

  lemma ErrorTame(s: State, k: Sock)
    ensures Tame(s, PeerError(s, k)) && Tame(s, WriteError(s, k))
  {}

  lemma FlushTame(cfg: Config, s: State, k: Sock, timer: bool)
    requires k in s.conns
    ensures Tame(s, FlushFires(cfg, s, k, timer))
  {
    ErrorTame(Flushed(cfg, s, k, timer), k);
  }

  lemma CloseGuarded(cfg: Config, s: State, k: Sock, w: Seen)
    requires Control(cfg, s) && Guarded(s, w)
    ensures Guarded(if k in s.conns then PeerClose(s, k) else s, Watch(w, Close(k)))
  {}

  lemma IdleGuarded(cfg: Config, s: State, now: int, w: Seen)
    requires Control(cfg, s) && Guarded(s, w)
    ensures Guarded(IdleFires(cfg, s, now), Watch(w, IdleTimeout(now)))
  {}

  lemma ArmedGuarded(cfg: Config, s: State, k: Sock, st: SockState, w: Seen)
    requires Control(cfg, s) && Guarded(s, w)
    ensures Guarded(Connected(cfg, s, k, st), w.(open := w.open + {k}))
    ensures Guarded(Reconnect(cfg, s, k, st), w.(open := w.open + {k}))
  {
    var s1 := Arm(cfg, DrainOff(Accept(s, k, st)), k);
    SendAllDrain(cfg, Emptied(s1), s1.queue);
    var s2 := Arm(cfg, Released(Accept(s, k, st)), k);
    ClosingOnlyCloses(s2, s.ep);
    SendAllDrain(cfg, CloseEndpoint(s2, s.ep), s.queue);
  }

  lemma StepGuarded(cfg: Config, s: State, e: Event, w: Seen)
    requires ValidConfig(cfg) && Control(cfg, s) && Guarded(s, w)
    ensures Guarded(Step(cfg, s, e), Watch(w, e))
  {
    match e
    case TunRead(pkt, now, wanted, ready, ipId, fill) =>
      if |fill| == 4 { TunTame(cfg, s, pkt, Judge(cfg, pkt, ipId, fill), now, wanted, ready); }
    case ConnectResolves(k, st) => ArmedGuarded(cfg, s, k, st, w);
    case InboundReconnect(k, st) => ArmedGuarded(cfg, s, k, st, w);
    case EnsureWireCalled => EnsureWireTame(cfg, s);
    case Data(k, chunk) => if k in s.conns { DataTame(cfg, s, k, chunk); }
    case End(k) => if k in s.conns { EndTame(s, k); }
    case Close(k) => CloseGuarded(cfg, s, k, w);
    case Error(k) => ErrorTame(s, k);
    case WriteFails(k) => ErrorTame(s, k);
    case IdleTimeout(now) => IdleGuarded(cfg, s, now, w);
    case Deferred(k, timer) => if k in s.conns { FlushTame(cfg, s, k, timer); }
    case _ =>
  }

  lemma {:induction false} RunGuarded(cfg: Config, k: Sock, st: SockState, events: seq<Event>)
    requires ValidConfig(cfg)
    ensures Guarded(Run(cfg, Init(cfg, k, st), events), Watched(cfg, k, events))
    decreases |events|
  {
    if events != [] {
      var init := events[..|events| - 1];
      RunGuarded(cfg, k, st, init);
      ReachableHolds(cfg, k, st, init);
      StepGuarded(cfg, Run(cfg, Init(cfg, k, st), init), events[|events| - 1], Watched(cfg, k, init));
    }
  }

  lemma {:induction false} PatientPrefix(cfg: Config, k: Sock, events: seq<Event>, n: int)
    requires Patient(cfg, k, events) && 0 <= n < |events|
    ensures events[n].InboundReconnect? ==> Watched(cfg, k, events[..n]).idle == {}
    decreases |events|
  {
    if n < |events| - 1 {
      PatientPrefix(cfg, k, events[..|events| - 1], n);
      assert events[..|events| - 1][..n] == events[..n];
    }
  }

  /** On such event sequences no state of the run is exposed to a foreign error. */
  lemma {:induction false} CarefulRunsAreSafe(cfg: Config, k: Sock, st: SockState, events: seq<Event>, n: int)
    requires ValidConfig(cfg) && Patient(cfg, k, events) && 0 <= n <= |events|
    ensures !StaleAt(cfg, k, st, events, n)
  {
    if StaleAt(cfg, k, st, events, n) {
      var i := StaleNeedsHandover(cfg, k, st, events, n);
      PatientPrefix(cfg, k, events, i);
      RunGuarded(cfg, k, st, events[..i]);
    }
  }

  // ---- A socket let go without being closed ----

  predicate Closed(s: State, k: Sock) {
    k in s.conns && (s.conns[k].st.destroyed || s.conns[k].st.writableEnded)
  }

  /** Re-arming drops the endpoint exactly if it is on its way to closing, and never destroys
      the one it drops: the source resets `ep` after clearing it. */
  lemma RearmReleases(cfg: Config, s: State, k: Sock)
    requires Control(cfg, s) && s.ep == Some(k)
    ensures Rearm(cfg, s).0.ep != Some(k) <==>
              !s.armed && !s.connecting && !Destroyed(s, k) && Closing(s.conns[k].st)
    ensures Rearm(cfg, s).0.ep != Some(k) ==> !Destroyed(Rearm(cfg, s).0, k)
  {}

  /** The run that shows it: an idle socket receives its peer's FIN and answers it, and the
      next `ensureWire` lets the socket go undestroyed and without handlers. */
  lemma AbandonedRun(cfg: Config, s: State, a: Sock, now: int)
    requires ValidConfig(cfg) && Control(cfg, s) && cfg.keepAlive && s.armed && s.ep == Some(a)
    requires !s.conns[a].st.destroyed && !s.conns[a].st.finUnsafe
    ensures var s1 := Step(cfg, s, IdleTimeout(now));
      var s2 := Step(cfg, s1, End(a));
      var s3 := Step(cfg, s2, EnsureWireCalled);
      s2.ep == Some(a) && s3.ep == None && s3.drain == None && s3.wire == None && !Destroyed(s3, a)
  {
    var s1 := Step(cfg, s, IdleTimeout(now));
    IdleDrains(cfg, s, a, now);
    StepKeepsControl(cfg, s1, End(a));
  }

  // ---- Everything else closes what it drops ----

  /** The socket is kept as the endpoint, or closed. */
  predicate KeptOrClosed(s: State, s': State, k: Sock) {
    s.ep == Some(k) ==> s'.ep == Some(k) || Closed(s', k)
  }

  lemma FailureCloses(cfg: Config, s: State, k: Sock, fin: bool)
    requires Wiring(cfg, s) && s.ep == Some(k)
    ensures Closed(Failure(s), k) && Closed(Teardown(s, fin), k) && Closed(CloseEndpoint(s, s.ep), k)
  {}

  lemma SendStaysClosed(cfg: Config, s: State, t: Tagged, k: Sock)
    requires Closed(s, k)
    ensures Closed(SendOnWire(cfg, s, t), k)
  {}

  lemma SendCloses(cfg: Config, s: State, t: Tagged, k: Sock)
    requires Wiring(cfg, s)
    ensures KeptOrClosed(s, SendOnWire(cfg, s, t), k)
  {}

  lemma {:induction false} SendAllStaysClosed(cfg: Config, s: State, pending: seq<Tagged>, k: Sock)
    requires Closed(s, k)
    ensures Closed(SendAll(cfg, s, pending), k)
    decreases |pending|
  {
    if pending != [] {
      SendStaysClosed(cfg, s, pending[0], k);
      SendAllStaysClosed(cfg, SendOnWire(cfg, s, pending[0]), pending[1..], k);
    }
  }

  lemma {:induction false} SendAllCloses(cfg: Config, s: State, pending: seq<Tagged>, k: Sock)
    requires Wiring(cfg, s) && s.ep == Some(k)
    ensures KeptOrClosed(s, SendAll(cfg, s, pending), k)
    decreases |pending|
  {
    if pending != [] {
      var s1 := SendOnWire(cfg, s, pending[0]);
      SendKeeps(cfg, s, pending[0]);
      SendCloses(cfg, s, pending[0], k);
      if s1.ep == Some(k) {
        SendAllCloses(cfg, s1, pending[1..], k);
      } else {
        SendAllStaysClosed(cfg, s1, pending[1..], k);
      }
    }
  }

  /** Re-arming gives the socket up. */
  predicate GivesUp(s: State, k: Sock) {
    !s.armed && !Destroyed(s, k) && k in s.conns && Closing(s.conns[k].st)
  }

  lemma EnsureWireCloses(cfg: Config, s: State, k: Sock)
    requires Wiring(cfg, s) && s.ep == Some(k)
    ensures KeptOrClosed(s, EnsureWire(cfg, s), k) || GivesUp(s, k)
  {
    var (s1, reused) := Rearm(cfg, s);
    if reused {
      RearmKeeps(cfg, s);
      SendAllCloses(cfg, Emptied(s1), s1.queue, k);
    }
  }

  lemma OutboundCloses(cfg: Config, s: State, t: Tagged, now: int, wanted: bool, ready: bool, k: Sock)
    requires Control(cfg, s) && s.ep == Some(k)
    ensures KeptOrClosed(s, Outbound(cfg, s, t, now, wanted, ready), k) || GivesUp(s, k)
  {
    SendCloses(cfg, s, t, k);
    var (s1, reused) := Rearm(cfg, s);
    if reused {
      RearmKeeps(cfg, s);
      SendCloses(cfg, s1, t, k);
    } else if s1.ep == Some(k) && !s.armed {
      var s2 := s1.(queue := Enqueue(s1.queue, t));
      assert Wiring(cfg, s2);
      EnsureWireCloses(cfg, s2, k);
    }
  }

  lemma ArmedCloses(cfg: Config, s: State, b: Sock, st: SockState, k: Sock)
    requires Control(cfg, s) && s.ep == Some(k) && b !in s.conns
    ensures s.connecting ==> Closed(Connected(cfg, s, b, st), k)
    ensures KeptOrClosed(s, Reconnect(cfg, s, b, st), k)
  {
    if s.connecting {
      var s1 := Arm(cfg, DrainOff(Accept(s, b, st)), b);
      SendAllStaysClosed(cfg, Emptied(s1), s1.queue, k);
    } else {
      var s1 := Arm(cfg, Released(Accept(s, b, st)), b);
      assert Closed(CloseEndpoint(s1, s.ep), k);
      SendAllStaysClosed(cfg, CloseEndpoint(s1, s.ep), s.queue, k);
    }
  }

  lemma DataCloses(cfg: Config, s: State, j: Sock, chunk: seq<byte>, k: Sock)
    requires Wiring(cfg, s) && j in s.conns
    ensures KeptOrClosed(s, PeerData(cfg, s, j, chunk), k)
  {
    assert KeptOrClosed(s, WireData(cfg, s, j, chunk), k) && KeptOrClosed(s, StrayData(s, j, chunk), k);
  }

  lemma EndCloses(cfg: Config, s: State, j: Sock, k: Sock)
    requires Wiring(cfg, s) && j in s.conns && s.ep == Some(k)
    ensures KeptOrClosed(s, PeerEnd(s, j), k)
  {}

  lemma CloseCloses(cfg: Config, s: State, j: Sock, k: Sock)
    requires Wiring(cfg, s) && j in s.conns && s.ep == Some(k)
    ensures KeptOrClosed(s, PeerClose(s, j), k)
  {}

  lemma FlushCloses(cfg: Config, s: State, j: Sock, timer: bool, k: Sock)
    requires Wiring(cfg, s) && j in s.conns && s.ep == Some(k)
    ensures KeptOrClosed(s, FlushFires(cfg, s, j, timer), k)
  {
    var s1 := Flushed(cfg, s, j, timer);
    if j == k && FlushThrows(s.conns[j], timer) {
      assert Closed(Failure(s1), k);
    }
  }

  /** Whatever makes the bridge drop its socket, also a throwing write in the middle of a
      flush, has ended or destroyed it; the only exception is a TUN packet or `ensureWire`
      that finds an idle socket on its way to closing. */
  lemma DroppedIsClosed(cfg: Config, s: State, e: Event, k: Sock)
    requires ValidConfig(cfg) && Control(cfg, s) && s.ep == Some(k)
    ensures KeptOrClosed(s, Step(cfg, s, e), k) || ((e.TunRead? || e.EnsureWireCalled?) && GivesUp(s, k))
  {
    if Enabled(s, e) {
      match e
      case TunRead(pkt, now, wanted, ready, _, _) =>
        OutboundCloses(cfg, Arrived(s, pkt), Tagged(|s.arrivals|, pkt), now, wanted, ready, k);
      case ConnectResolves(b, st) => ArmedCloses(cfg, s, b, st, k);
      case InboundReconnect(b, st) => ArmedCloses(cfg, s, b, st, k);
      case EnsureWireCalled => EnsureWireCloses(cfg, s, k);
      case Data(j, chunk) => DataCloses(cfg, s, j, chunk, k);
      case End(j) => EndCloses(cfg, s, j, k);
      case Close(j) => CloseCloses(cfg, s, j, k);
      case Error(_) => FailureCloses(cfg, s, k, false);
      case WriteFails(_) => FailureCloses(cfg, s, k, false);
      case Deferred(j, timer) => FlushCloses(cfg, s, j, timer, k);
      case _ =>
    }
  }
}
