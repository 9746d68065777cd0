/** `createTcpFramedBatchedWriter`: frames are collected into a batch that is written when
    it is large enough or when a deferred callback fires.

    `Writer` is the closure's state as a value, with the transition functions that the
    class `BatchedWriter` is proved against. */
module FrameWriter {
  import opened Bytes
  import opened Framing

  datatype Config = Config(maxBatch: nat, flushMs: nat)

  /** `immediates` counts `setImmediate` callbacks queued in the event loop; a flush resets
      `deferred` but cannot cancel them. `out` is what `endpoint.write` accepted.
      `pending` and `flushed` are history: the packets behind `batch` and behind `out`. */
  datatype Writer = Writer(
    batch: seq<seq<byte>>, batchLen: nat, timer: bool, deferred: bool, immediates: nat,
    out: seq<byte>, pending: seq<Packet>, flushed: seq<Packet>)

  const Idle := Writer([], 0, false, false, 0, [], [], [])

  // ---- The closure's steps; `throws` says whether a write would throw ----

  function Flush(w: Writer, throws: bool): (w': Writer) {
    var w := w.(timer := false, deferred := false);
    if w.batchLen == 0 then w
    else
      var written := if throws then w
                     else w.(out := w.out + Flatten(w.batch), flushed := w.flushed + w.pending);
      written.(batch := [], batchLen := 0, pending := [])
  }

  function Schedule(cfg: Config, w: Writer): (w': Writer) {
    if w.batchLen == 0 then w
    else if cfg.flushMs == 0 then
      if w.deferred then w else w.(deferred := true, immediates := w.immediates + 1)
    else w.(timer := true)
  }

  /** The batch with one more frame. */
  function Queued(w: Writer, pkt: Packet): (w': Writer) {
    w.(batch := w.batch + [Encode(pkt)], batchLen := w.batchLen + |Encode(pkt)|, pending := w.pending + [pkt])
  }

  function Send(cfg: Config, w: Writer, pkt: Packet, throws: bool): (w': Writer) {
    if cfg.maxBatch == 0 then
      if throws then w else w.(out := w.out + Encode(pkt), flushed := w.flushed + [pkt])
    else
      var w := Queued(w, pkt);
      if w.batchLen >= cfg.maxBatch then Flush(w, throws) else Schedule(cfg, w)
  }

  /** Whether the call hands a payload to `endpoint.write`; a throwing write is reported. */
  predicate SendWrites(cfg: Config, w: Writer, pkt: Packet) {
    cfg.maxBatch == 0 || w.batchLen + |Encode(pkt)| >= cfg.maxBatch
  }

  /** What the event loop may do to a writer. A callback that is not queued does nothing. */
  datatype Event = Packet(pkt: Packet, throws: bool) | Immediate(throws: bool) | Timer(throws: bool)

  function Step(cfg: Config, w: Writer, e: Event): (w': Writer) {
    match e
    case Packet(pkt, throws) => Send(cfg, w, pkt, throws)
    case Immediate(throws) =>
      if w.immediates == 0 then w else Flush(w.(immediates := w.immediates - 1), throws)
    case Timer(throws) => if !w.timer then w else Flush(w, throws)
  }

  function Run(cfg: Config, w: Writer, events: seq<Event>): (w': Writer) {
    if events == [] then w
    else Step(cfg, Run(cfg, w, events[..|events| - 1]), events[|events| - 1])
  }

  function Sent(events: seq<Event>): (pkts: seq<Packet>) {
    if events == [] then []
    else
      var e := events[|events| - 1];
      Sent(events[..|events| - 1]) + if e.Packet? then [e.pkt] else []
  }

  // ---- What every step keeps ----

  predicate Inv(cfg: Config, w: Writer) {
    && w.batch == Frames(w.pending) && w.batchLen == |EncodeAll(w.pending)|
    && w.out == EncodeAll(w.flushed)
    && (w.batch != [] ==> w.batchLen > 0 && if cfg.flushMs == 0 then w.deferred else w.timer)
    && (w.deferred ==> w.immediates > 0)
    && (w.timer ==> cfg.flushMs > 0)
    && (w.batchLen == 0 || w.batchLen < cfg.maxBatch)
  }

  lemma FlushKeeps(cfg: Config, w: Writer, throws: bool)
    requires w.batch == Frames(w.pending) && w.batchLen == |EncodeAll(w.pending)|
    requires w.out == EncodeAll(w.flushed) && (w.batch != [] ==> w.batchLen > 0)
    ensures Inv(cfg, Flush(w, throws)) && Flush(w, throws).pending == []
    ensures !throws ==> Flush(w, throws).flushed == w.flushed + w.pending
  {
    EncodeAllAppend(w.flushed, w.pending);
    if w.batchLen == 0 {
      assert w.pending == [] by {
        assert |Frames(w.pending)| == |w.pending|;
      }
      assert w.flushed + [] == w.flushed;
    }
    assert Frames([]) == [];
  }

  lemma QueuedKeeps(w: Writer, pkt: Packet)
    requires w.batch == Frames(w.pending) && w.batchLen == |EncodeAll(w.pending)|
    ensures var w' := Queued(w, pkt);
      w'.batch == Frames(w'.pending) && w'.batchLen == |EncodeAll(w'.pending)|
  {
    EncodeAllSnoc(w.pending, pkt);
    assert Frames(w.pending + [pkt]) == w.batch + [Encode(pkt)];
  }

  lemma SendKeeps(cfg: Config, w: Writer, pkt: Packet, throws: bool)
    requires Inv(cfg, w) && |pkt| < 0x1_0000_0000
    ensures var w' := Send(cfg, w, pkt, throws);
      && Inv(cfg, w')
      && (!throws ==> w'.flushed + w'.pending == w.flushed + w.pending + [pkt])
  {
    if cfg.maxBatch == 0 {
      EncodeAllSnoc(w.flushed, pkt);
      assert w.pending == [] by { assert |Frames(w.pending)| == |w.pending|; }
    } else {
      QueuedKeeps(w, pkt);
      if SendWrites(cfg, w, pkt) {
        FlushKeeps(cfg, Queued(w, pkt), throws);
      }
      assert w.flushed + (w.pending + [pkt]) == w.flushed + w.pending + [pkt];
    }
  }

  /** A throwing write loses exactly the batch; anything else keeps every packet. */
  lemma SendOutcome(cfg: Config, w: Writer, pkt: Packet, throws: bool)
    requires Inv(cfg, w) && |pkt| < 0x1_0000_0000
    ensures var w' := Send(cfg, w, pkt, throws);
      if throws && SendWrites(cfg, w, pkt) then w'.flushed == w.flushed && w'.pending == []
      else w'.flushed + w'.pending == w.flushed + w.pending + [pkt]
  {
    SendKeeps(cfg, w, pkt, false);
    if cfg.maxBatch == 0 {
      assert w.pending == [] by { assert |Frames(w.pending)| == |w.pending|; }
    } else if !SendWrites(cfg, w, pkt) {
      assert w.flushed + (w.pending + [pkt]) == w.flushed + w.pending + [pkt];
    }
  }

  /** Where the packet goes: out at once without batching, out with the whole batch when the
      batch with its frame reaches the limit, else it waits with one callback to come. */
  lemma SendFate(cfg: Config, w: Writer, pkt: Packet)
    requires Inv(cfg, w) && |pkt| < 0x1_0000_0000
    ensures var w' := Send(cfg, w, pkt, false);
      if cfg.maxBatch == 0 || w.batchLen + 4 + |pkt| >= cfg.maxBatch then
        w'.batch == [] && w'.pending == [] && w'.flushed == w.flushed + w.pending + [pkt]
      else
        && w'.out == w.out && w'.flushed == w.flushed && w'.pending == w.pending + [pkt]
        && w'.immediates == w.immediates + (if cfg.flushMs == 0 && !w.deferred then 1 else 0)
        && (w'.timer <==> w.timer || cfg.flushMs > 0) && (w'.deferred <==> w.deferred || cfg.flushMs == 0)
  {
    SendKeeps(cfg, w, pkt, false);
    assert |Encode(pkt)| == 4 + |pkt|;
    if cfg.maxBatch == 0 {
      assert w.pending == [] by { assert |Frames(w.pending)| == |w.pending|; }
    } else if SendWrites(cfg, w, pkt) {
      QueuedKeeps(w, pkt);
      FlushKeeps(cfg, Queued(w, pkt), false);
      assert w.flushed + (w.pending + [pkt]) == w.flushed + w.pending + [pkt];
    }
  }

  lemma CallbackOutcome(cfg: Config, w: Writer, e: Event)
    requires Inv(cfg, w) && !e.Packet?
    ensures var w' := Step(cfg, w, e);
      && (e.throws || w'.flushed + w'.pending == w.flushed + w.pending)
      && ((w'.flushed == w.flushed && w'.pending == w.pending)
          || (w'.pending == [] && w'.flushed == if e.throws then w.flushed else w.flushed + w.pending))
      && (w.batchLen == 0 || (if e.Immediate? then w.immediates == 0 else !w.timer) ==>
          w'.flushed == w.flushed && w'.pending == w.pending)
  {
    StepKeeps(cfg, w, e);
  }

  predicate Quiet(events: seq<Event>) {
    forall i | 0 <= i < |events| :: !events[i].throws
  }

  predicate Sizes(events: seq<Event>) {
    forall i | 0 <= i < |events| && events[i].Packet? :: GoodLength(BridgeLimits, |events[i].pkt|)
  }

  /** Every reachable writer: its bytes are whole frames, a non-empty batch always has a
      flush on the way and is shorter than the limit, and while no write throws the
      packets written and the packets pending are the packets sent, in order. */
  lemma {:induction false} WriterRun(cfg: Config, events: seq<Event>)
    requires Sizes(events)
    ensures var w := Run(cfg, Idle, events);
      && Inv(cfg, w) && Sendable(BridgeLimits, w.flushed) && Sendable(BridgeLimits, w.pending)
      && (Quiet(events) ==> w.flushed + w.pending == Sent(events))
  {
    if events == [] {
      assert Frames([]) == [];
    } else {
      var init, e := events[..|events| - 1], events[|events| - 1];
      WriterRun(cfg, init);
      StepKeeps(cfg, Run(cfg, Idle, init), e);
      StepSizes(cfg, Run(cfg, Idle, init), e);
    }
  }

  lemma StepKeeps(cfg: Config, w: Writer, e: Event)
    requires Inv(cfg, w) && (e.Packet? ==> |e.pkt| < 0x1_0000_0000)
    ensures var w' := Step(cfg, w, e);
      && Inv(cfg, w')
      && (!e.throws ==> w'.flushed + w'.pending == w.flushed + w.pending + if e.Packet? then [e.pkt] else [])
  {
    match e
    case Packet(pkt, throws) => SendKeeps(cfg, w, pkt, throws);
    case Immediate(throws) =>
      if w.immediates > 0 {
        FlushKeeps(cfg, w.(immediates := w.immediates - 1), throws);
      }
    case Timer(throws) =>
      if w.timer {
        FlushKeeps(cfg, w, throws);
      }
  }

  lemma SendableConcat(a: seq<Packet>, b: seq<Packet>)
    requires Sendable(BridgeLimits, a) && Sendable(BridgeLimits, b)
    ensures Sendable(BridgeLimits, a + b)
  {}

  lemma StepSizes(cfg: Config, w: Writer, e: Event)
    requires Sendable(BridgeLimits, w.flushed) && Sendable(BridgeLimits, w.pending)
    requires e.Packet? ==> GoodLength(BridgeLimits, |e.pkt|)
    ensures var w' := Step(cfg, w, e);
      Sendable(BridgeLimits, w'.flushed) && Sendable(BridgeLimits, w'.pending)
  {
    SendableConcat(w.flushed, w.pending);
    if e.Packet? {
      assert Sendable(BridgeLimits, [e.pkt]);
      SendableConcat(w.flushed, [e.pkt]);
      SendableConcat(w.pending, [e.pkt]);
      SendableConcat(w.flushed, w.pending + [e.pkt]);
    }
  }

  /** One queued callback empties the batch: nothing waits for a later packet. */
  lemma PendingDrains(cfg: Config, w: Writer)
    requires Inv(cfg, w) && w.batch != []
    ensures var e := if cfg.flushMs == 0 then Immediate(false) else Timer(false);
      var w' := Step(cfg, w, e);
      w'.batch == [] && w'.flushed == w.flushed + w.pending
  {
    FlushKeeps(cfg, w.(immediates := if w.immediates == 0 then 0 else w.immediates - 1), false);
    FlushKeeps(cfg, w, false);
  }

  /** End to end: whatever the flushes and however the network re-chunks the bytes, the far
      side delivers exactly the flushed packets, in order, and a part of the bytes delivers
      a prefix of them; with no throwing write these are a prefix of the packets sent. */
  lemma {:induction false} EndToEnd(cfg: Config, events: seq<Event>, chunks: seq<seq<byte>>)
    requires Sizes(events)
    requires Flatten(chunks) <= Run(cfg, Idle, events).out
    ensures var w := Run(cfg, Idle, events);
      var r := PushAll(BridgeLimits, Fresh, chunks);
      && !r.failed && r.delivered <= w.flushed
      && (Flatten(chunks) == w.out ==> r == Receiver([], w.flushed, false))
      && (Quiet(events) ==> r.delivered <= Sent(events) && w.flushed + w.pending == Sent(events))
  {
    var w := Run(cfg, Idle, events);
    WriterRun(cfg, events);
    assert [] + Flatten(chunks) == Flatten(chunks);
    ChunkingInvisible(BridgeLimits, Fresh, [], chunks);
    PrefixOfEncoded(BridgeLimits, w.flushed, Flatten(chunks));
  }

  // ---- The closure itself ----

  /** The TCP socket as the writer sees it. `broken` is the environment's: writes throw. */
  class Endpoint {
    var written: seq<byte>
    var broken: bool

    constructor ()
      ensures written == [] && !broken
    {
      written, broken := [], false;
    }

    method Write(payload: seq<byte>) returns (threw: bool)
      modifies this`written
      ensures threw == broken
      ensures written == if broken then old(written) else old(written) + payload
    {
      threw := broken;
      if !broken { written := written + payload; }
    }
  }

  class BatchedWriter {
    const cfg: Config
    const endpoint: Endpoint
    var batch: seq<seq<byte>>
    var batchLen: nat
    var flushTimer: bool
    var flushDeferred: bool
    ghost var immediates: nat
    ghost var pending: seq<Packet>
    ghost var flushed: seq<Packet>

    ghost function State(): Writer
      reads this, endpoint
    {
      Writer(batch, batchLen, flushTimer, flushDeferred, immediates, endpoint.written, pending, flushed)
    }

    constructor (cfg: Config, endpoint: Endpoint)
      requires endpoint.written == []
      ensures State() == Idle && this.cfg == cfg && this.endpoint == endpoint
    {
      this.cfg, this.endpoint := cfg, endpoint;
      batch, batchLen, flushTimer, flushDeferred := [], 0, false, false;
      immediates, pending, flushed := 0, [], [];
    }

    ghost predicate Valid()
      reads this, endpoint
    {
      Inv(cfg, State())
    }

    /** The inner `flush`. */
    method FlushNow() returns (threw: bool)
      modifies this, endpoint`written
      ensures State() == Flush(old(State()), endpoint.broken)
      ensures threw == (old(batchLen) > 0 && endpoint.broken)
    {
      flushTimer, flushDeferred := false, false;
      if batchLen == 0 { return false; }
      var payload := if |batch| == 1 then batch[0] else Flatten(batch);
      if |batch| == 1 {
        FlattenOne(batch[0]);
        assert batch == [batch[0]];
      }
      batch, batchLen := [], 0;
      threw := endpoint.Write(payload);
      if !threw { flushed := flushed + pending; }
      pending := [];
    }

    method ScheduleFlush()
      modifies this`flushTimer, this`flushDeferred, this`immediates
      ensures State() == Schedule(cfg, old(State()))
    {
      if batchLen == 0 { return; }
      if cfg.flushMs == 0 {
        if flushDeferred { return; }
        flushDeferred := true;
        immediates := immediates + 1;
        return;
      }
      if flushTimer { return; }
      flushTimer := true;
    }

    method Enqueue(pkt: Packet)
      requires |pkt| < 0x1_0000_0000
      modifies this`batch, this`batchLen, this`pending
      ensures State() == Queued(old(State()), pkt)
    {
      var piece := Encode(pkt);
      batch, batchLen, pending := batch + [piece], batchLen + |piece|, pending + [pkt];
    }

    /** The function the source returns; `threw` is what `onWriteError` is called with. */
    method SendPacket(pkt: Packet) returns (threw: bool)
      requires Valid() && |pkt| < 0x1_0000_0000
      modifies this, endpoint`written
      ensures Valid() && State() == Send(cfg, old(State()), pkt, endpoint.broken)
      ensures threw == (endpoint.broken && SendWrites(cfg, old(State()), pkt))
    {
      SendKeeps(cfg, State(), pkt, endpoint.broken);
      if cfg.maxBatch == 0 {
        threw := endpoint.Write(Encode(pkt));
        if !threw { flushed := flushed + [pkt]; }
        return;
      }
      Enqueue(pkt);
      threw := false;
      if batchLen >= cfg.maxBatch {
        threw := FlushNow();
      } else {
        ScheduleFlush();
      }
    }

    /** A queued `setImmediate` callback runs. */
    method OnImmediate() returns (threw: bool)
      requires Valid() && immediates > 0
      modifies this, endpoint`written
      ensures Valid() && State() == Step(cfg, old(State()), Immediate(endpoint.broken))
      ensures threw == (old(batchLen) > 0 && endpoint.broken)
    {
      FlushKeeps(cfg, State().(immediates := immediates - 1), endpoint.broken);
      immediates := immediates - 1;
      threw := FlushNow();
    }

    /** The flush timer expires. */
    method OnTimer() returns (threw: bool)
      requires Valid() && flushTimer
      modifies this, endpoint`written
      ensures Valid() && State() == Step(cfg, old(State()), Timer(endpoint.broken))
      ensures threw == (old(batchLen) > 0 && endpoint.broken)
    {
      FlushKeeps(cfg, State(), endpoint.broken);
      flushTimer := false;
      threw := FlushNow();
    }
  }
}
