/** The signalling inbox: messages queue until a waiter whose predicate accepts them asks, and
    waiters queue until a message they accept arrives. Messages and waiters are numbered in
    order of arrival; a predicate that throws counts as one that refuses. */
module Inbox {
  import opened Lists

  datatype Message = Message(typ: string, body: string)

  datatype Item = Item(no: nat, msg: Message)

  datatype Waiter = Waiter(ticket: nat, pred: Message -> bool)

  datatype Delivery = Delivery(waiter: Waiter, item: Item)

  /** `log` records every resolved promise. */
  datatype State = State(queue: seq<Item>, waiters: seq<Waiter>, attached: bool, arrived: nat, tickets: nat,
                         log: seq<Delivery>)

  datatype Event = Arrive(msg: Message) | Wait(pred: Message -> bool) | Timeout(ticket: nat) | Detach

  const INIT := State([], [], true, 0, 0, [])

  /** The first waiter that accepts a message, or the number of waiters. */
  function Taker(ws: seq<Waiter>, m: Message): (i: nat)
    ensures i <= |ws|
    ensures i < |ws| ==> ws[i].pred(m)
    ensures forall k | 0 <= k < i :: !ws[k].pred(m)
    decreases |ws|
  {
    if ws == [] || ws[0].pred(m) then 0 else
      var i := Taker(ws[1..], m);
      assert forall k | 1 <= k < i + 1 :: ws[k] == ws[1..][k - 1];
      i + 1
  }

  /** The oldest queued message a predicate accepts, or the length of the queue. */
  function Oldest(q: seq<Item>, pred: Message -> bool): (i: nat)
    ensures i <= |q|
    ensures i < |q| ==> pred(q[i].msg)
    ensures forall k | 0 <= k < i :: !pred(q[k].msg)
    decreases |q|
  {
    if q == [] || pred(q[0].msg) then 0 else
      var i := Oldest(q[1..], pred);
      assert forall k | 1 <= k < i + 1 :: q[k] == q[1..][k - 1];
      i + 1
  }

  function WaiterOf(ws: seq<Waiter>, ticket: nat): (i: nat)
    ensures i <= |ws|
    ensures i < |ws| ==> ws[i].ticket == ticket
    ensures forall k | 0 <= k < i :: ws[k].ticket != ticket
    decreases |ws|
  {
    if ws == [] || ws[0].ticket == ticket then 0 else
      var i := WaiterOf(ws[1..], ticket);
      assert forall k | 1 <= k < i + 1 :: ws[k] == ws[1..][k - 1];
      i + 1
  }

  function OnArrive(s: State, m: Message): (r: State) {
    var item, i := Item(s.arrived, m), Taker(s.waiters, m);
    if i < |s.waiters|
    then s.(waiters := Without(s.waiters, i), arrived := s.arrived + 1, log := s.log + [Delivery(s.waiters[i], item)])
    else s.(queue := s.queue + [item], arrived := s.arrived + 1)
  }

  function OnWait(s: State, pred: Message -> bool): (r: State) {
    var w, i := Waiter(s.tickets, pred), Oldest(s.queue, pred);
    if i < |s.queue|
    then s.(queue := Without(s.queue, i), tickets := s.tickets + 1, log := s.log + [Delivery(w, s.queue[i])])
    else s.(waiters := s.waiters + [w], tickets := s.tickets + 1)
  }

  function OnTimeout(s: State, ticket: nat): (r: State) {
    var i := WaiterOf(s.waiters, ticket);
    if i < |s.waiters| then s.(waiters := Without(s.waiters, i)) else s
  }

  /** Nothing arrives once the listener is off. */
  function Step(s: State, e: Event): (r: State) {
    match e
    case Arrive(m) => if s.attached then OnArrive(s, m) else s
    case Wait(pred) => OnWait(s, pred)
    case Timeout(ticket) => OnTimeout(s, ticket)
    case Detach => s.(queue := [], waiters := [], attached := false)
  }

  function Run(s: State, es: seq<Event>): (r: State)
    decreases |es|
  {
    if es == [] then s else Run(Step(s, es[0]), es[1..])
  }

  class SignallingInbox {
    var queue: seq<Item>
    var waiters: seq<Waiter>
    var attached: bool
    var arrived: nat
    var tickets: nat
    /** Every promise resolved so far, and with what. */
    var resolved: seq<Delivery>

    ghost function Now(): (s: State)
      reads this
    {
      State(queue, waiters, attached, arrived, tickets, resolved)
    }

    constructor ()
      ensures Now() == INIT
    {
      queue, waiters, attached, arrived, tickets, resolved := [], [], true, 0, 0, [];
    }

    method Dispatch(msg: Message)
      modifies this
      ensures Now() == OnArrive(old(Now()), msg)
    {
      var item := Item(arrived, msg);
      arrived := arrived + 1;
      for i := 0 to |waiters|
        invariant Now() == old(Now()).(arrived := old(arrived) + 1)
        invariant i <= Taker(waiters, msg)
      {
        var w := waiters[i];
        if w.pred(msg) {
          waiters := waiters[..i] + waiters[i + 1..];
          resolved := resolved + [Delivery(w, item)];
          return;
        }
      }
      queue := queue + [item];
    }

    method OnMessage(msg: Message)
      modifies this
      ensures Now() == Step(old(Now()), Arrive(msg))
    {
      if attached { Dispatch(msg); }
    }

    method WaitForJson(pred: Message -> bool)
      modifies this
      ensures Now() == Step(old(Now()), Wait(pred))
    {
      var w := Waiter(tickets, pred);
      tickets := tickets + 1;
      var hitIdx := 0;
      while hitIdx < |queue| && !pred(queue[hitIdx].msg)
        invariant hitIdx <= Oldest(queue, pred)
      {
        hitIdx := hitIdx + 1;
      }
      if hitIdx < |queue| {
        resolved := resolved + [Delivery(w, queue[hitIdx])];
        queue := queue[..hitIdx] + queue[hitIdx + 1..];
      } else {
        waiters := waiters + [w];
      }
    }

    method OnTimer(ticket: nat)
      modifies this
      ensures Now() == Step(old(Now()), Timeout(ticket))
    {
      var wi := 0;
      while wi < |waiters| && waiters[wi].ticket != ticket
        invariant wi <= WaiterOf(waiters, ticket)
      {
        wi := wi + 1;
      }
      if wi < |waiters| { waiters := waiters[..wi] + waiters[wi + 1..]; }
    }

    method DetachListener()
      modifies this
      ensures Now() == Step(old(Now()), Event.Detach)
    {
      attached, queue, waiters := false, [], [];
    }
  }

  // ---- Invariants ----

  predicate RefusedBy(q: seq<Item>, ws: seq<Waiter>, i: int, j: int) {
    0 <= i < |q| && 0 <= j < |ws| ==> !ws[j].pred(q[i].msg)
  }

  /** No queued message satisfies a waiting predicate. */
  ghost predicate Quiet(q: seq<Item>, ws: seq<Waiter>) {
    forall i, j :: RefusedBy(q, ws, i, j)
  }

  lemma QuietWithout(q: seq<Item>, ws: seq<Waiter>, k: nat)
    requires Quiet(q, ws)
    ensures k < |ws| ==> Quiet(q, Without(ws, k))
    ensures k < |q| ==> Quiet(Without(q, k), ws)
  {
    if k < |ws| {
      forall i, j
        ensures RefusedBy(q, Without(ws, k), i, j)
      {
        assert RefusedBy(q, ws, i, if j < k then j else j + 1);
      }
    }
    if k < |q| {
      forall i, j
        ensures RefusedBy(Without(q, k), ws, i, j)
      {
        assert RefusedBy(q, ws, if i < k then i else i + 1, j);
      }
    }
  }

  lemma {:induction false} QuietMore(q: seq<Item>, ws: seq<Waiter>, item: Item, w: Waiter)
    requires Quiet(q, ws)
    ensures Taker(ws, item.msg) == |ws| ==> Quiet(q + [item], ws)
    ensures Oldest(q, w.pred) == |q| ==> Quiet(q, ws + [w])
  {
    forall i, j
      ensures Taker(ws, item.msg) == |ws| ==> RefusedBy(q + [item], ws, i, j)
      ensures Oldest(q, w.pred) == |q| ==> RefusedBy(q, ws + [w], i, j)
    {
      assert RefusedBy(q, ws, i, j);
    }
  }

  lemma StepQuiet(s: State, e: Event)
    requires Quiet(s.queue, s.waiters)
    ensures Quiet(Step(s, e).queue, Step(s, e).waiters)
  {
    match e
    case Arrive(m) =>
      QuietMore(s.queue, s.waiters, Item(s.arrived, m), Waiter(0, _ => false));
      QuietWithout(s.queue, s.waiters, Taker(s.waiters, m));
    case Wait(pred) =>
      QuietMore(s.queue, s.waiters, Item(0, Message("", "")), Waiter(s.tickets, pred));
      QuietWithout(s.queue, s.waiters, Oldest(s.queue, pred));
    case Timeout(ticket) => QuietWithout(s.queue, s.waiters, WaiterOf(s.waiters, ticket));
    case Detach =>
  }

  // ---- Conservation ----

  /** How often message `k` stands in the queue. */
  function Queued(q: seq<Item>, k: nat): (n: nat)
    decreases |q|
  {
    if q == [] then 0 else Queued(q[..|q| - 1], k) + if q[|q| - 1].no == k then 1 else 0
  }

  /** How often message `k` was delivered. */
  function Delivered(log: seq<Delivery>, k: nat): (n: nat)
    decreases |log|
  {
    if log == [] then 0 else Delivered(log[..|log| - 1], k) + if log[|log| - 1].item.no == k then 1 else 0
  }

  lemma {:induction false} QueuedWithout(q: seq<Item>, i: nat, k: nat)
    requires i < |q|
    ensures Queued(q, k) == Queued(Without(q, i), k) + if q[i].no == k then 1 else 0
    decreases |q|
  {
    var init, last := q[..|q| - 1], q[|q| - 1];
    if i == |q| - 1 {
      assert Without(q, i) == init;
    } else {
      QueuedWithout(init, i, k);
      WithoutInit(q, i);
      QueuedSnoc(Without(init, i), last, k);
    }
  }

  lemma WithoutInit(q: seq<Item>, i: nat)
    requires i < |q| - 1
    ensures Without(q, i) == Without(q[..|q| - 1], i) + [q[|q| - 1]]
  {}

  lemma {:induction false} QueuedSnoc(q: seq<Item>, item: Item, k: nat)
    ensures Queued(q + [item], k) == Queued(q, k) + if item.no == k then 1 else 0
  {
    assert (q + [item])[..|q|] == q;
  }

  lemma {:induction false} DeliveredSnoc(log: seq<Delivery>, d: Delivery, k: nat)
    ensures Delivered(log + [d], k) == Delivered(log, k) + if d.item.no == k then 1 else 0
  {
    assert (log + [d])[..|log|] == log;
  }

  /** Message `k` is queued or delivered, once in all if it has arrived; after a detach it may
      be gone, but is not there twice. */
  predicate Conserved(s: State, k: nat) {
    var n, due := Queued(s.queue, k) + Delivered(s.log, k), if k < s.arrived then 1 else 0;
    n <= due && (s.attached ==> n == due)
  }

  lemma StepConserved(s: State, e: Event, k: nat)
    requires Conserved(s, k)
    ensures Conserved(Step(s, e), k)
  {
    match e
    case Arrive(m) =>
      var item, i := Item(s.arrived, m), Taker(s.waiters, m);
      QueuedSnoc(s.queue, item, k);
      if i < |s.waiters| { DeliveredSnoc(s.log, Delivery(s.waiters[i], item), k); }
    case Wait(pred) =>
      var i := Oldest(s.queue, pred);
      if i < |s.queue| {
        QueuedWithout(s.queue, i, k);
        DeliveredSnoc(s.log, Delivery(Waiter(s.tickets, pred), s.queue[i]), k);
      }
    case Timeout(_) =>
    case Detach =>
  }

  lemma {:induction false} RunConserved(s: State, es: seq<Event>, k: nat)
    requires Conserved(s, k)
    ensures Conserved(Run(s, es), k)
    decreases |es|
  {
    if es != [] {
      StepConserved(s, es[0], k);
      RunConserved(Step(s, es[0]), es[1..], k);
    }
  }

  /** Conservation over every run: until the detach each message that arrived is queued or
      was delivered, exactly once; after it, at most once. */
  lemma {:induction false} MessageOnce(es: seq<Event>, k: nat)
    ensures Conserved(Run(INIT, es), k)
  {
    InitSound();
    RunConserved(INIT, es, k);
  }

  /** The queue is in arrival order. */
  predicate Ordered(q: seq<Item>, arrived: nat) {
    && (forall i, j | 0 <= i < j < |q| :: q[i].no < q[j].no)
    && forall i | 0 <= i < |q| :: q[i].no < arrived
  }

  lemma OrderedWithout(q: seq<Item>, arrived: nat, k: nat)
    requires Ordered(q, arrived) && k < |q|
    ensures Ordered(Without(q, k), arrived)
  {}

  lemma StepOrdered(s: State, e: Event)
    requires Ordered(s.queue, s.arrived)
    ensures Ordered(Step(s, e).queue, Step(s, e).arrived)
  {
    if e.Wait? && Oldest(s.queue, e.pred) < |s.queue| {
      OrderedWithout(s.queue, s.arrived, Oldest(s.queue, e.pred));
    }
  }

  // ---- Promises ----

  /** Waiting tickets are in order of asking. */
  predicate Waiting(ws: seq<Waiter>, tickets: nat) {
    && (forall i, j | 0 <= i < j < |ws| :: ws[i].ticket < ws[j].ticket)
    && forall i | 0 <= i < |ws| :: ws[i].ticket < tickets
  }

  /** Resolved tickets are different from each other. */
  predicate Resolved(log: seq<Delivery>, tickets: nat) {
    && (forall i, j | 0 <= i < j < |log| :: log[i].waiter.ticket != log[j].waiter.ticket)
    && forall i | 0 <= i < |log| :: log[i].waiter.ticket < tickets
  }

  predicate ApartAt(log: seq<Delivery>, ws: seq<Waiter>, i: int, j: int) {
    0 <= i < |log| && 0 <= j < |ws| ==> log[i].waiter.ticket != ws[j].ticket
  }

  /** No resolved promise still waits. */
  ghost predicate Apart(log: seq<Delivery>, ws: seq<Waiter>) {
    forall i, j :: ApartAt(log, ws, i, j)
  }

  ghost predicate Tickets(s: State) {
    Waiting(s.waiters, s.tickets) && Resolved(s.log, s.tickets) && Apart(s.log, s.waiters)
  }

  lemma TakeWaiter(log: seq<Delivery>, ws: seq<Waiter>, tickets: nat, k: nat, item: Item)
    requires k < |ws| && Waiting(ws, tickets) && Resolved(log, tickets) && Apart(log, ws)
    ensures Waiting(Without(ws, k), tickets) && Apart(log, Without(ws, k))
    ensures Resolved(log + [Delivery(ws[k], item)], tickets) && Apart(log + [Delivery(ws[k], item)], Without(ws, k))
  {
    forall i, j
      ensures ApartAt(log, Without(ws, k), i, j) && ApartAt(log + [Delivery(ws[k], item)], Without(ws, k), i, j)
    {
      assert ApartAt(log, ws, i, if j < k then j else j + 1);
    }
    forall i | 0 <= i < |log|
      ensures log[i].waiter.ticket != ws[k].ticket
    {
      assert ApartAt(log, ws, i, k);
    }
  }

  lemma NewTicket(log: seq<Delivery>, ws: seq<Waiter>, tickets: nat, pred: Message -> bool, item: Item)
    requires Waiting(ws, tickets) && Resolved(log, tickets) && Apart(log, ws)
    ensures var w := Waiter(tickets, pred);
      && Waiting(ws + [w], tickets + 1) && Resolved(log, tickets + 1) && Apart(log, ws + [w])
      && Waiting(ws, tickets + 1) && Resolved(log + [Delivery(w, item)], tickets + 1) && Apart(log + [Delivery(w, item)], ws)
  {
    var w := Waiter(tickets, pred);
    forall i, j
      ensures ApartAt(log, ws + [w], i, j) && ApartAt(log + [Delivery(w, item)], ws, i, j)
    {
      assert ApartAt(log, ws, i, j);
    }
  }

  lemma StepTickets(s: State, e: Event)
    requires Tickets(s)
    ensures Tickets(Step(s, e))
  {
    var none := Item(0, Message("", ""));
    match e
    case Arrive(m) =>
      var i := Taker(s.waiters, m);
      if i < |s.waiters| { TakeWaiter(s.log, s.waiters, s.tickets, i, Item(s.arrived, m)); }
    case Wait(pred) =>
      var i := Oldest(s.queue, pred);
      NewTicket(s.log, s.waiters, s.tickets, pred, if i < |s.queue| then s.queue[i] else none);
    case Timeout(ticket) =>
      var i := WaiterOf(s.waiters, ticket);
      if i < |s.waiters| { TakeWaiter(s.log, s.waiters, s.tickets, i, none); }
    case Detach =>
  }

  /** Every promise was resolved with a message its predicate accepts. */
  predicate Accepted(log: seq<Delivery>) {
    forall i | 0 <= i < |log| :: log[i].waiter.pred(log[i].item.msg)
  }

  lemma StepAccepted(s: State, e: Event)
    requires Accepted(s.log)
    ensures Accepted(Step(s, e).log)
  {}

  ghost predicate Sound(s: State) {
    Quiet(s.queue, s.waiters) && Ordered(s.queue, s.arrived) && Tickets(s) && Accepted(s.log)
  }

  lemma InitSound()
    ensures Sound(INIT) && forall k: nat :: Conserved(INIT, k)
  {}

  lemma {:induction false} RunSound(s: State, es: seq<Event>)
    requires Sound(s)
    ensures Sound(Run(s, es))
    decreases |es|
  {
    if es != [] {
      StepSound(s, es[0]);
      RunSound(Step(s, es[0]), es[1..]);
    }
  }

  lemma StepSound(s: State, e: Event)
    requires Sound(s)
    ensures Sound(Step(s, e))
  {
    StepQuiet(s, e);
    StepOrdered(s, e);
    StepTickets(s, e);
    StepAccepted(s, e);
  }

  /** In every reachable state: no queued message satisfies a waiting predicate, the queue is
      in arrival order, and each promise is resolved at most once, with a message it accepts. */
  lemma {:induction false} InboxInvariant(es: seq<Event>)
    ensures Sound(Run(INIT, es))
  {
    InitSound();
    RunSound(INIT, es);
  }

  predicate StillWaits(ws: seq<Waiter>, ticket: nat) {
    WaiterOf(ws, ticket) < |ws|
  }

  predicate IsResolved(log: seq<Delivery>, ticket: nat) {
    exists i | 0 <= i < |log| :: log[i].waiter.ticket == ticket
  }

  /** The promise was made and can no longer be resolved. */
  predicate Dead(s: State, ticket: nat) {
    ticket < s.tickets && !StillWaits(s.waiters, ticket) && !IsResolved(s.log, ticket)
  }

  lemma StepDead(s: State, e: Event, ticket: nat)
    requires Dead(s, ticket)
    ensures Dead(Step(s, e), ticket)
  {
    WaiterMissing(s.waiters, ticket);
    WaiterMissing(Step(s, e).waiters, ticket);
  }

  lemma WaiterMissing(ws: seq<Waiter>, ticket: nat)
    ensures StillWaits(ws, ticket) <==> exists i | 0 <= i < |ws| :: ws[i].ticket == ticket
  {}

  lemma {:induction false} RunDead(s: State, es: seq<Event>, ticket: nat)
    requires Dead(s, ticket)
    ensures Dead(Run(s, es), ticket)
    decreases |es|
  {
    if es != [] {
      StepDead(s, es[0], ticket);
      RunDead(Step(s, es[0]), es[1..], ticket);
    }
  }

  /** A timer that finds its promise waiting ends it for good; one that does not changes
      nothing. */
  lemma {:induction false} TimeoutIsFinal(before: seq<Event>, ticket: nat, after: seq<Event>)
    ensures var s := Run(INIT, before);
      if StillWaits(s.waiters, ticket) then !IsResolved(Run(Step(s, Timeout(ticket)), after).log, ticket)
      else Step(s, Timeout(ticket)) == s
  {
    var s := Run(INIT, before);
    InboxInvariant(before);
    if StillWaits(s.waiters, ticket) {
      var w := WaiterOf(s.waiters, ticket);
      forall i | 0 <= i < |s.log|
        ensures s.log[i].waiter.ticket != ticket
      {
        assert ApartAt(s.log, s.waiters, i, w);
      }
      RunDead(Step(s, Timeout(ticket)), after, ticket);
    }
  }

  // ---- What one call or message does ----

  /** Asking takes the oldest queued message the predicate accepts; if there is none the caller
      waits last. */
  lemma WaitFate(s: State, pred: Message -> bool, i: nat)
    requires i <= |s.queue| && (i < |s.queue| ==> pred(s.queue[i].msg)) && forall k | 0 <= k < i :: !pred(s.queue[k].msg)
    ensures var (s', w) := (Step(s, Wait(pred)), Waiter(s.tickets, pred));
      && s'.tickets == s.tickets + 1 && s'.arrived == s.arrived && s'.attached == s.attached
      && if i < |s.queue| then
           && s'.log == s.log + [Delivery(w, s.queue[i])] && s'.queue == s.queue[..i] + s.queue[i + 1..]
           && s'.waiters == s.waiters
         else s'.log == s.log && s'.queue == s.queue && s'.waiters == s.waiters + [w]
  {}

  /** A message goes to the longest waiting promise that accepts it; if there is none it is
      queued last. */
  lemma ArriveFate(s: State, m: Message, j: nat)
    requires s.attached
    requires j <= |s.waiters| && (j < |s.waiters| ==> s.waiters[j].pred(m)) && forall k | 0 <= k < j :: !s.waiters[k].pred(m)
    ensures var (s', item) := (Step(s, Arrive(m)), Item(s.arrived, m));
      && s'.arrived == s.arrived + 1 && s'.tickets == s.tickets && s'.attached
      && if j < |s.waiters| then
           && s'.log == s.log + [Delivery(s.waiters[j], item)] && s'.waiters == s.waiters[..j] + s.waiters[j + 1..]
           && s'.queue == s.queue
         else s'.log == s.log && s'.waiters == s.waiters && s'.queue == s.queue + [item]
  {}

  /** The wait of promise `j` is over: its timer, the detach, or a message it accepts and no
      longer waiting promise does. */
  predicate Ends(s: State, e: Event, j: nat)
    requires j < |s.waiters|
  {
    match e
    case Arrive(m) => s.attached && s.waiters[j].pred(m) && forall k | 0 <= k < j :: !s.waiters[k].pred(m)
    case Wait(_) => false
    case Timeout(ticket) => ticket == s.waiters[j].ticket
    case Detach => true
  }

  /** A promise that waits goes on waiting exactly until then. */
  lemma WaitsExactly(s: State, e: Event, j: nat)
    requires Waiting(s.waiters, s.tickets) && j < |s.waiters|
    ensures StillWaits(Step(s, e).waiters, s.waiters[j].ticket) <==> !Ends(s, e, j)
  {
    var (ws, t) := (Step(s, e).waiters, s.waiters[j].ticket);
    WaiterMissing(ws, t);
    match e
    case Arrive(m) => if s.attached { OneGone(s.waiters, s.tickets, Taker(s.waiters, m), j); }
    case Wait(pred) => if |ws| > |s.waiters| { assert ws[j] == s.waiters[j]; }
    case Timeout(ticket) => OneGone(s.waiters, s.tickets, WaiterOf(s.waiters, ticket), j);
    case Detach =>
  }

  lemma OneGone(ws: seq<Waiter>, tickets: nat, i: nat, j: nat)
    requires Waiting(ws, tickets) && i <= |ws| && j < |ws|
    ensures StillWaits(if i < |ws| then Without(ws, i) else ws, ws[j].ticket) <==> i != j
  {
    var rest := if i < |ws| then Without(ws, i) else ws;
    WaiterMissing(rest, ws[j].ticket);
    if i < j {
      assert rest[j - 1] == ws[j];
    } else if i > j {
      assert rest[j] == ws[j];
    }
  }

  // ---- After detaching ----

  lemma StepDetached(s: State, e: Event)
    requires !s.attached && s.queue == []
    ensures !Step(s, e).attached && Step(s, e).queue == [] && Step(s, e).log == s.log
  {}

  /** After the detach no promise is ever resolved. */
  lemma {:induction false} DetachIsFinal(s: State, es: seq<Event>)
    requires !s.attached && s.queue == []
    ensures Run(s, es).log == s.log && Run(s, es).queue == []
    decreases |es|
  {
    if es != [] {
      StepDetached(s, es[0]);
      DetachIsFinal(Step(s, es[0]), es[1..]);
    }
  }
}
