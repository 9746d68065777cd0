/** What the messages of the signalling server add up to: every client's replica of the
    registry, ghost nodes, and unique virtual addresses. */
module SignallingTheorems {
  import opened Bytes
  import opened Lists
  import opened Text
  import opened Signalling

  // ---- The registry looked up by id ----

  predicate DistinctIds(nodes: seq<Node>) {
    forall i, j | 0 <= i < j < |nodes| :: nodes[i].id != nodes[j].id
  }

  function Lookup(nodes: seq<Node>, id: string): (p: Option<Peer>)
    decreases |nodes|
  {
    if nodes == [] then None
    else
      var n := nodes[|nodes| - 1];
      if n.id == id then Some(ToPeer(n)) else Lookup(nodes[..|nodes| - 1], id)
  }

  lemma {:induction false} LookupAppend(a: seq<Node>, b: seq<Node>, id: string)
    ensures Lookup(a + b, id) == if Lookup(b, id).Some? then Lookup(b, id) else Lookup(a, id)
    decreases |b|
  {
    if b == [] {
      assert a + b == a;
    } else {
      LookupAppend(a, b[..|b| - 1], id);
      assert (a + b)[..|a + b| - 1] == a + b[..|b| - 1];
    }
  }

  lemma {:induction false} LookupOne(n: Node, id: string)
    ensures Lookup([n], id) == if n.id == id then Some(ToPeer(n)) else None
  {
    assert [n][..0] == [];
  }

  lemma {:induction false} LookupNone(nodes: seq<Node>, id: string)
    requires forall i | 0 <= i < |nodes| :: nodes[i].id != id
    ensures Lookup(nodes, id) == None
    decreases |nodes|
  {
    if nodes != [] {
      LookupNone(nodes[..|nodes| - 1], id);
    }
  }

  /** Lookup around position `i` of a registry with distinct ids. */
  lemma LookupAt(nodes: seq<Node>, i: nat, n: Node, id: string)
    requires DistinctIds(nodes) && i < |nodes| && n.id == nodes[i].id
    ensures Lookup(nodes[i := n], id) == if id == n.id then Some(ToPeer(n)) else Lookup(nodes, id)
    ensures Lookup(Without(nodes, i), id) == if id == n.id then None else Lookup(nodes, id)
  {
    var a, b := nodes[..i], nodes[i + 1..];
    LookupSplit(nodes, i, id);
    LookupSplit(nodes[i := n], i, id);
    assert nodes[i := n][..i] == a && nodes[i := n][i + 1..] == b;
    LookupAppend(a, b, id);
    if id == n.id {
      LookupNone(a, id);
      LookupNone(b, id);
    }
  }

  lemma {:induction false} LookupSplit(nodes: seq<Node>, i: nat, id: string)
    requires i < |nodes|
    ensures var (a, b) := (nodes[..i], nodes[i + 1..]);
      Lookup(nodes, id) == if Lookup(b, id).Some? then Lookup(b, id)
                           else if nodes[i].id == id then Some(ToPeer(nodes[i])) else Lookup(a, id)
  {
    var a, n, b := nodes[..i], nodes[i], nodes[i + 1..];
    assert nodes == a + ([n] + b);
    LookupAppend(a, [n] + b, id);
    LookupAppend([n], b, id);
    LookupOne(n, id);
  }

  // ---- The client's replica ----

  function Get(r: map<string, Peer>, id: string): (p: Option<Peer>) {
    if id in r then Some(r[id]) else None
  }

  function Merge(r: map<string, Peer>, ps: seq<Peer>): (q: map<string, Peer>)
    decreases |ps|
  {
    if ps == [] then r else Merge(r, ps[..|ps| - 1])[ps[|ps| - 1].id := ps[|ps| - 1]]
  }

  /** How a client applies one message to its map of peers. */
  function Receive(r: map<string, Peer>, m: Message): (q: map<string, Peer>) {
    match m
    case Peers(ps) => Merge(r, ps)
    case Join(p) => r[p.id := p]
    case Leave(id) => r - {id}
    case _ => r
  }

  function MergeExits(x: map<string, Peer>, ps: seq<Peer>): (y: map<string, Peer>)
    decreases |ps|
  {
    if ps == [] then x else AddExit(MergeExits(x, ps[..|ps| - 1]), ps[|ps| - 1])
  }

  function AddExit(x: map<string, Peer>, p: Peer): (y: map<string, Peer>) {
    if p.role == "exit" then x[p.id := p] else x
  }

  /** ... and to its map of exit nodes. */
  function ReceiveExits(x: map<string, Peer>, m: Message): (y: map<string, Peer>) {
    match m
    case Peers(ps) => MergeExits(x, ps)
    case Join(p) => AddExit(x, p)
    case Leave(id) => x - {id}
    case _ => x
  }

  /** The client's handlers on its two maps. */
  class PeerTable {
    var peers: map<string, Peer>
    var exitNodes: map<string, Peer>

    method HandlePeersList(list: seq<Peer>)
      modifies this
      ensures peers == Receive(old(peers), Peers(list)) && exitNodes == ReceiveExits(old(exitNodes), Peers(list))
    {
      for i := 0 to |list|
        invariant peers == Merge(old(peers), list[..i]) && exitNodes == MergeExits(old(exitNodes), list[..i])
      {
        assert list[..i + 1][..i] == list[..i] && list[..i + 1][i] == list[i];
        HandlePeerJoin(list[i]);
      }
      assert list[..|list|] == list;
    }

    method HandlePeerJoin(peer: Peer)
      modifies this
      ensures peers == Receive(old(peers), Join(peer)) && exitNodes == ReceiveExits(old(exitNodes), Join(peer))
    {
      peers := peers[peer.id := peer];
      if peer.role == "exit" { exitNodes := exitNodes[peer.id := peer]; }
    }

    method HandlePeerLeave(id: string)
      modifies this
      ensures peers == Receive(old(peers), Leave(id)) && exitNodes == ReceiveExits(old(exitNodes), Leave(id))
    {
      peers := peers - {id};
      exitNodes := exitNodes - {id};
    }
  }

  predicate ExitAt(x: map<string, Peer>, r: map<string, Peer>, k: string) {
    Get(x, k) == if k in r && r[k].role == "exit" then Some(r[k]) else None
  }

  /** The exit nodes are the peers whose role is exit. */
  ghost predicate ExitsMatch(x: map<string, Peer>, r: map<string, Peer>) {
    forall k: string :: ExitAt(x, r, k)
  }

  /** A join keeps the two maps in step exactly if the peer is an exit or was none: one that
      registers again in another role stays among the exit nodes. */
  lemma ExitsMatchExactly(x: map<string, Peer>, r: map<string, Peer>, p: Peer)
    requires ExitsMatch(x, r)
    ensures ExitsMatch(ReceiveExits(x, Join(p)), Receive(r, Join(p))) <==> (p.role == "exit" || p.id !in x)
  {
    var x', r' := ReceiveExits(x, Join(p)), Receive(r, Join(p));
    assert ExitAt(x, r, p.id);
    assert ExitAt(x', r', p.id) <==> (p.role == "exit" || p.id !in x);
    forall k: string | k != p.id
      ensures ExitAt(x', r', k)
    {
      assert ExitAt(x, r, k);
    }
  }

  function ReceiveAll(r: map<string, Peer>, ws: Socket, sent: seq<Sent>): (q: map<string, Peer>)
    decreases |sent|
  {
    if sent == [] then r
    else ReceiveAll(if sent[0].to == ws then Receive(r, sent[0].msg) else r, ws, sent[1..])
  }

  lemma {:induction false} ReceiveAppend(r: map<string, Peer>, ws: Socket, a: seq<Sent>, b: seq<Sent>)
    ensures ReceiveAll(r, ws, a + b) == ReceiveAll(ReceiveAll(r, ws, a), ws, b)
    decreases |a|
  {
    if a == [] {
      assert a + b == b;
    } else {
      ReceiveAppend(if a[0].to == ws then Receive(r, a[0].msg) else r, ws, a[1..], b);
      assert (a + b)[1..] == a[1..] + b;
    }
  }

  lemma {:induction false} ReceiveSend(r: map<string, Peer>, ws: Socket, open: set<Socket>, to: Socket, m: Message)
    ensures ReceiveAll(r, ws, Send(open, to, m)) == if ws == to && ws in open then Receive(r, m) else r
  {
    if to in open {
      assert [Sent(to, m)][1..] == [];
    }
  }

  /** Node `id` is on socket `ws`, which carries no other node. */
  predicate Sole(nodes: seq<Node>, id: string, ws: Socket) {
    forall i | 0 <= i < |nodes| :: nodes[i].ws == ws <==> nodes[i].id == id
  }

  /** A broadcast reaches a socket that carries one node exactly once. */
  lemma {:induction false} BroadcastReaches(r: map<string, Peer>, nodes: seq<Node>, open: set<Socket>, skip: string,
                                            m: Message, id: string, ws: Socket)
    requires Sole(nodes, id, ws) && ws in open && DistinctIds(nodes)
    ensures ReceiveAll(r, ws, Broadcast(nodes, open, skip, m))
         == if id != skip && (exists i | 0 <= i < |nodes| :: nodes[i].id == id) then Receive(r, m) else r
    decreases |nodes|
  {
    if nodes != [] {
      var n, init := nodes[|nodes| - 1], nodes[..|nodes| - 1];
      BroadcastReaches(r, init, open, skip, m, id, ws);
      var out, last := Broadcast(init, open, skip, m), if n.id != skip then Send(open, n.ws, m) else [];
      ReceiveAppend(r, ws, out, last);
      ReceiveSend(ReceiveAll(r, ws, out), ws, open, n.ws, m);
      assert n.id == id ==> forall i | 0 <= i < |init| :: init[i].id != id by {
        assert forall i | 0 <= i < |init| :: init[i] == nodes[i];
      }
      if exists i | 0 <= i < |init| :: init[i].id == id {
        var i :| 0 <= i < |init| && init[i].id == id;
        assert nodes[i].id == id;
      }
    }
  }

  // ---- Following the registry ----

  /** What an observer's replica should hold under a key: the registry, itself left out. */
  function Target(nodes: seq<Node>, self: string, k: string): (p: Option<Peer>) {
    if k == self then None else Lookup(nodes, k)
  }

  predicate SyncedAt(r: map<string, Peer>, nodes: seq<Node>, self: string, k: string) {
    Get(r, k) == Target(nodes, self, k)
  }

  /** The replica equals the registry minus the observer. */
  ghost predicate Synced(r: map<string, Peer>, nodes: seq<Node>, self: string) {
    forall k: string :: SyncedAt(r, nodes, self, k)
  }

  predicate BehindAt(r: map<string, Peer>, nodes: seq<Node>, self: string, k: string) {
    Get(r, k) == None || SyncedAt(r, nodes, self, k)
  }

  /** The replica holds nothing wrong, but may miss peers. */
  ghost predicate Behind(r: map<string, Peer>, nodes: seq<Node>, self: string) {
    forall k: string :: BehindAt(r, nodes, self, k)
  }

  /** Client `id` on socket `ws` is registered, alone on its socket, and the socket is open. */
  predicate Observes(s: Server, id: string, ws: Socket) {
    && DistinctIds(s.nodes) && Sole(s.nodes, id, ws) && ws in s.open
    && Index(s.nodes, id) < |s.nodes| && CurrentId(s, ws) == id
  }

  /** What one broadcast event does to one key of the registry and to the replica alike. */
  predicate Moves(nodes: seq<Node>, nodes': seq<Node>, m: Message, k: string) {
    Lookup(nodes', k) == (match m
      case Join(p) => if k == p.id then Some(p) else Lookup(nodes, k)
      case Leave(x) => if k == x then None else Lookup(nodes, k)
      case _ => Lookup(nodes, k))
  }

  lemma ReceiveMoves(r: map<string, Peer>, m: Message, nodes: seq<Node>, nodes': seq<Node>, self: string, k: string)
    requires m.Join? || m.Leave?
    requires Moves(nodes, nodes', m, k) && (m.Join? ==> m.peer.id != self) && (m.Leave? ==> m.id != self)
    ensures SyncedAt(r, nodes, self, k) ==> SyncedAt(Receive(r, m), nodes', self, k)
    ensures BehindAt(r, nodes, self, k) ==> BehindAt(Receive(r, m), nodes', self, k)
  {}

  lemma {:induction false} AnnounceReaches(r: map<string, Peer>, nodes: seq<Node>, open: set<Socket>, w: Socket, n: Node, id: string, ws: Socket)
    requires Sole(nodes, id, ws) && ws in open && DistinctIds(nodes) && Index(nodes, id) < |nodes|
    ensures ReceiveAll(r, ws, Announce(nodes, open, w, n)) == if n.id != id then Receive(r, Join(ToPeer(n))) else r
  {
    ReceiveAppend(r, ws, Send(open, w, Registered(n.id, n.virtualIp)), Broadcast(nodes, open, n.id, Join(ToPeer(n))));
    ReceiveSend(r, ws, open, w, Registered(n.id, n.virtualIp));
    BroadcastReaches(r, nodes, open, n.id, Join(ToPeer(n)), id, ws);
    assert nodes[Index(nodes, id)].id == id;
  }

  lemma {:induction false} MergePeers(r: map<string, Peer>, nodes: seq<Node>, self: string, k: string)
    ensures Get(Merge(r, PeersBut(nodes, self)), k)
         == if Target(nodes, self, k).Some? then Target(nodes, self, k) else Get(r, k)
    decreases |nodes|
  {
    if nodes != [] {
      var n, init := nodes[|nodes| - 1], nodes[..|nodes| - 1];
      MergePeers(r, init, self, k);
      var ps := PeersBut(init, self);
      if n.id != self {
        assert (ps + [ToPeer(n)])[..|ps|] == ps;
      } else {
        assert ps + [] == ps;
      }
    }
  }

  /** One key of the replica against one key of the registry, before and after a step. */
  predicate Keeps(r: map<string, Peer>, s: Server, r': map<string, Peer>, s': Server, id: string, k: string) {
    && (SyncedAt(r, s.nodes, id, k) ==> SyncedAt(r', s'.nodes, id, k))
    && (BehindAt(r, s.nodes, id, k) ==> BehindAt(r', s'.nodes, id, k))
  }

  lemma {:induction false} PeersReply(r: map<string, Peer>, s: Server, id: string, k: string)
    ensures var r' := Merge(r, PeersBut(s.nodes, id));
      Keeps(r, s, r', s, id, k) && (BehindAt(r, s.nodes, id, k) ==> SyncedAt(r', s.nodes, id, k))
  {
    MergePeers(r, s.nodes, id, k);
  }

  lemma CloseFollows(c: Config, s: Server, w: Socket, id: string, ws: Socket, r: map<string, Peer>, k: string)
    requires Observes(s, id, ws) && Observes(OnClose(s, w).0, id, ws)
    ensures var (s', sent) := OnClose(s, w); Keeps(r, s, ReceiveAll(r, ws, sent), s', id, k)
  {
    var i := FirstOn(s.nodes, w);
    if i < |s.nodes| {
      var (s', sent) := OnClose(s, w);
      var x := s.nodes[i].id;
      BroadcastReaches(r, s'.nodes, s'.open, x, Leave(x), id, ws);
      assert s'.nodes[Index(s'.nodes, id)].id == id;
      LookupAt(s.nodes, i, s.nodes[i], k);
      ReceiveMoves(r, Leave(x), s.nodes, s'.nodes, id, k);
    }
  }

  lemma RenewFollows(c: Config, s: Server, w: Socket, m: Registration, i: nat, id: string, ws: Socket, r: map<string, Peer>, k: string)
    requires i < |s.nodes| && Observes(s, id, ws) && Observes(ReRegister(s, w, m, i).0, id, ws)
    ensures var (s', sent) := ReRegister(s, w, m, i); Keeps(r, s, ReceiveAll(r, ws, sent), s', id, k)
  {
    var (s', sent) := ReRegister(s, w, m, i);
    var n := Updated(s.nodes[i], w, m);
    AnnounceReaches(r, s'.nodes, s'.open, w, n, id, ws);
    LookupAt(s.nodes, i, n, k);
    if n.id != id {
      ReceiveMoves(r, Join(ToPeer(n)), s.nodes, s'.nodes, id, k);
    }
  }

  lemma EnterFollows(c: Config, s: Server, w: Socket, m: Registration, address: string, id: string, ws: Socket,
                     r: map<string, Peer>, k: string)
    requires Observes(s, id, ws) && Observes(RegisterNew(c, s, w, m, address).0, id, ws) && m.nodeId != id
    ensures var (s', sent) := RegisterNew(c, s, w, m, address); Keeps(r, s, ReceiveAll(r, ws, sent), s', id, k)
  {
    var (s', sent) := RegisterNew(c, s, w, m, address);
    var n := s'.nodes[|s.nodes|];
    AnnounceReaches(r, s'.nodes, s'.open, w, n, id, ws);
    LookupAppend(s.nodes, [n], k);
    LookupOne(n, k);
    ReceiveMoves(r, Join(ToPeer(n)), s.nodes, s'.nodes, id, k);
  }

  lemma RegisterFollows(c: Config, s: Server, w: Socket, m: Registration, address: string, id: string, ws: Socket,
                        r: map<string, Peer>, k: string)
    requires Observes(s, id, ws) && Observes(OnRegister(c, s, w, m, address).0, id, ws)
    ensures var (s', sent) := OnRegister(c, s, w, m, address); Keeps(r, s, ReceiveAll(r, ws, sent), s', id, k)
  {
    var i := Index(s.nodes, m.nodeId);
    if m.nodeId == "" || m.publicKey == "" {
      ReceiveSend(r, ws, s.open, w, Failure("Missing nodeId or publicKey"));
    } else if c.token != "" && m.token != c.token {
      ReceiveSend(r, ws, s.open, w, Failure("Unauthorized"));
    } else if i < |s.nodes| {
      RenewFollows(c, s, w, m, i, id, ws, r, k);
    } else {
      EnterFollows(c, s, w, m, address, id, ws, r, k);
    }
  }

  lemma {:induction false} StepFollows(c: Config, s: Server, e: Event, id: string, ws: Socket, r: map<string, Peer>, k: string)
    requires Observes(s, id, ws) && Observes(Step(c, s, e).0, id, ws)
    ensures var (s', sent) := Step(c, s, e);
      && Keeps(r, s, ReceiveAll(r, ws, sent), s', id, k)
      && (e == GetPeers(ws) && BehindAt(r, s.nodes, id, k) ==> SyncedAt(ReceiveAll(r, ws, sent), s'.nodes, id, k))
  {
    match e
    case Connect(_) =>
    case Closing(_) =>
    case Close(w) => CloseFollows(c, s, w, id, ws, r, k);
    case Register(w, m, address) => RegisterFollows(c, s, w, m, address, id, ws, r, k);
    case GetPeers(w) =>
      var m := Peers(PeersBut(s.nodes, CurrentId(s, w)));
      ReceiveSend(r, ws, s.open, w, m);
      if w == ws { PeersReply(r, s, id, k); }
  }

  // ---- Whole runs ----

  /** The event leaves the client `id` on `ws` alone: its socket stays open, `id` is registered
      from no other socket, and `ws` registers no other id. */
  predicate Harmless(c: Config, e: Event, id: string, ws: Socket) {
    match e
    case Connect(_) => true
    case Closing(w) => w != ws
    case Close(w) => w != ws
    case Register(w, m, _) =>
      if m.nodeId == "" || m.publicKey == "" then true
      else if !Accepted(c, m) then w != ws
      else m.nodeId == id <==> w == ws
    case GetPeers(_) => true
  }

  lemma ObservesRenew(s: Server, w: Socket, m: Registration, i: nat, id: string, ws: Socket)
    requires Observes(s, id, ws) && i < |s.nodes| && s.nodes[i].id == m.nodeId
    ensures Observes(ReRegister(s, w, m, i).0, id, ws) <==> (m.nodeId == id <==> w == ws)
  {
    var s' := ReRegister(s, w, m, i).0;
    assert s'.nodes[i].ws == w && s'.nodes[i].id == m.nodeId;
    IndexFound(s.nodes, id);
    IndexFound(s'.nodes, id);
    assert s'.nodes[Index(s.nodes, id)].id == id;
  }

  lemma {:induction false} IndexFound(nodes: seq<Node>, id: string)
    ensures Index(nodes, id) < |nodes| <==> exists i | 0 <= i < |nodes| :: nodes[i].id == id
  {}

  lemma ObservesEnter(c: Config, s: Server, w: Socket, m: Registration, address: string, id: string, ws: Socket)
    requires Observes(s, id, ws) && Index(s.nodes, m.nodeId) == |s.nodes|
    ensures Observes(RegisterNew(c, s, w, m, address).0, id, ws) <==> w != ws
  {
    var s' := RegisterNew(c, s, w, m, address).0;
    assert s'.nodes[|s.nodes|].ws == w && s'.nodes[|s.nodes|].id == m.nodeId != id;
    assert s'.nodes[Index(s.nodes, id)].id == id;
  }

  lemma ObservesClose(s: Server, w: Socket, id: string, ws: Socket)
    requires Observes(s, id, ws)
    ensures Observes(OnClose(s, w).0, id, ws) <==> w != ws
  {
    var k, i, s' := Index(s.nodes, id), FirstOn(s.nodes, w), OnClose(s, w).0;
    if w != ws && i < |s.nodes| {
      assert s'.nodes[if k < i then k else k - 1] == s.nodes[k];
    }
  }

  /** An observer stays one exactly through harmless events. */
  lemma ObservesExactly(c: Config, s: Server, e: Event, id: string, ws: Socket)
    requires Observes(s, id, ws)
    ensures Observes(Step(c, s, e).0, id, ws) <==> Harmless(c, e, id, ws)
  {
    match e
    case Close(w) => ObservesClose(s, w, id, ws);
    case Register(w, m, address) =>
      if Accepted(c, m) {
        var i := Index(s.nodes, m.nodeId);
        if i < |s.nodes| {
          ObservesRenew(s, w, m, i, id, ws);
        } else {
          ObservesEnter(c, s, w, m, address, id, ws);
        }
      }
    case _ =>
  }

  predicate AllHarmless(c: Config, es: seq<Event>, id: string, ws: Socket) {
    forall e | e in es :: Harmless(c, e, id, ws)
  }

  /** The replica after all messages of a run. */
  function Replica(c: Config, s: Server, es: seq<Event>, ws: Socket, r: map<string, Peer>): (q: map<string, Peer>)
    decreases |es|
  {
    if es == [] then r
    else var (s', sent) := Step(c, s, es[0]); Replica(c, s', es[1..], ws, ReceiveAll(r, ws, sent))
  }

  /** Delta replication over every run of events harmless to the client: a replica without wrong entries never gets one, one
      that equals the registry keeps equalling it, and asking for the peers once makes it so. */
  lemma {:induction false} Replication(c: Config, s: Server, es: seq<Event>, id: string, ws: Socket, r: map<string, Peer>)
    requires Observes(s, id, ws) && AllHarmless(c, es, id, ws) && Behind(r, s.nodes, id)
    ensures Behind(Replica(c, s, es, ws, r), Run(c, s, es).nodes, id)
    ensures Synced(r, s.nodes, id) || GetPeers(ws) in es ==> Synced(Replica(c, s, es, ws, r), Run(c, s, es).nodes, id)
    decreases |es|
  {
    if es != [] {
      var e := es[0];
      var (s', sent) := Step(c, s, e);
      var r' := ReceiveAll(r, ws, sent);
      ObservesExactly(c, s, e, id, ws);
      assert forall x | x in es[1..] :: x in es;
      forall k: string
        ensures BehindAt(r', s'.nodes, id, k)
        ensures (Synced(r, s.nodes, id) || e == GetPeers(ws)) ==> SyncedAt(r', s'.nodes, id, k)
      {
        assert BehindAt(r, s.nodes, id, k);
        StepFollows(c, s, e, id, ws, r, k);
        if Synced(r, s.nodes, id) { assert SyncedAt(r, s.nodes, id, k); }
      }
      Replication(c, s', es[1..], id, ws, r');
      if GetPeers(ws) in es && e != GetPeers(ws) { assert GetPeers(ws) in es[1..]; }
    }
  }

  /** No other node is on the socket. */
  predicate OwnSocket(nodes: seq<Node>, id: string, ws: Socket) {
    forall i | 0 <= i < |nodes| :: nodes[i].ws == ws ==> nodes[i].id == id
  }

  lemma RenewObserves(s: Server, ws: Socket, m: Registration, i: nat, r: map<string, Peer>)
    requires DistinctIds(s.nodes) && OwnSocket(s.nodes, m.nodeId, ws) && ws in s.open
    requires i < |s.nodes| && s.nodes[i].id == m.nodeId
    ensures var (s', sent) := ReRegister(s, ws, m, i);
      Observes(s', m.nodeId, ws) && ReceiveAll(r, ws, sent) == r
  {
    var s' := ReRegister(s, ws, m, i).0;
    assert s'.nodes[i].id == m.nodeId;
    AnnounceReaches(r, s'.nodes, s'.open, ws, s'.nodes[i], m.nodeId, ws);
  }

  lemma EnterObserves(c: Config, s: Server, ws: Socket, m: Registration, address: string, r: map<string, Peer>)
    requires DistinctIds(s.nodes) && OwnSocket(s.nodes, m.nodeId, ws) && ws in s.open
    requires Index(s.nodes, m.nodeId) == |s.nodes|
    ensures var (s', sent) := RegisterNew(c, s, ws, m, address);
      Observes(s', m.nodeId, ws) && ReceiveAll(r, ws, sent) == r
  {
    var s' := RegisterNew(c, s, ws, m, address).0;
    assert s'.nodes[|s.nodes|].id == m.nodeId;
    AnnounceReaches(r, s'.nodes, s'.open, ws, s'.nodes[|s.nodes|], m.nodeId, ws);
  }

  /** Registering on a socket of its own makes the client an observer, and tells it nothing
      about others. */
  lemma RegistrationStarts(c: Config, s: Server, ws: Socket, m: Registration, address: string, r: map<string, Peer>)
    requires DistinctIds(s.nodes) && Accepted(c, m) && ws in s.open && OwnSocket(s.nodes, m.nodeId, ws)
    ensures var (s', sent) := OnRegister(c, s, ws, m, address);
      Observes(s', m.nodeId, ws) && ReceiveAll(r, ws, sent) == r
  {
    var i := Index(s.nodes, m.nodeId);
    if i < |s.nodes| {
      RenewObserves(s, ws, m, i, r);
    } else {
      EnterObserves(c, s, ws, m, address, r);
    }
  }

  /** A client that starts with an empty replica, registers and asks once holds exactly the
      registry without itself, for as long as events are harmless to it. */
  lemma {:induction false} FreshClient(c: Config, s: Server, ws: Socket, m: Registration, address: string, es: seq<Event>)
    requires DistinctIds(s.nodes) && Accepted(c, m) && ws in s.open && OwnSocket(s.nodes, m.nodeId, ws)
    requires AllHarmless(c, es, m.nodeId, ws)
    ensures var all := [Register(ws, m, address)] + es;
      && Behind(Replica(c, s, all, ws, map[]), Run(c, s, all).nodes, m.nodeId)
      && (GetPeers(ws) in es ==> Synced(Replica(c, s, all, ws, map[]), Run(c, s, all).nodes, m.nodeId))
  {
    var e := Register(ws, m, address);
    var (s', sent) := Step(c, s, e);
    RegistrationStarts(c, s, ws, m, address, map[]);
    assert ([e] + es)[1..] == es;
    assert forall k: string :: BehindAt(map[], s'.nodes, m.nodeId, k);
    Replication(c, s', es, m.nodeId, ws, map[]);
  }

  /** A client that reconnects keeps its old map; the peers reply repairs it exactly if every
      id it held is still a peer. */
  lemma {:induction false} ReconnectExactly(r: map<string, Peer>, nodes: seq<Node>, self: string)
    ensures Synced(Merge(r, PeersBut(nodes, self)), nodes, self) <==>
              forall k | k in r :: k != self && exists i | 0 <= i < |nodes| :: nodes[i].id == k
  {
    var q := Merge(r, PeersBut(nodes, self));
    forall k
      ensures SyncedAt(q, nodes, self, k) <==>
                (k in r ==> k != self && exists i | 0 <= i < |nodes| :: nodes[i].id == k)
    {
      MergePeers(r, nodes, self, k);
      LookupSome(nodes, k);
    }
    if forall k | k in r :: k != self && exists i | 0 <= i < |nodes| :: nodes[i].id == k {
      assert forall k :: SyncedAt(q, nodes, self, k);
    }
    if Synced(q, nodes, self) {
      assert forall k | k in r :: SyncedAt(q, nodes, self, k);
    }
  }

  lemma {:induction false} LookupSome(nodes: seq<Node>, id: string)
    ensures Lookup(nodes, id).Some? <==> exists i | 0 <= i < |nodes| :: nodes[i].id == id
    decreases |nodes|
  {
    if nodes != [] {
      var init := nodes[..|nodes| - 1];
      LookupSome(init, id);
      assert forall i | 0 <= i < |init| :: init[i] == nodes[i];
    }
  }

  // ---- Every reachable registry ----

  lemma StepDistinct(c: Config, s: Server, e: Event)
    requires DistinctIds(s.nodes)
    ensures DistinctIds(Step(c, s, e).0.nodes)
  {}

  lemma {:induction false} ReachableDistinct(c: Config, s: Server, es: seq<Event>)
    requires DistinctIds(s.nodes)
    ensures DistinctIds(Run(c, s, es).nodes)
    decreases |es|
  {
    if es != [] {
      StepDistinct(c, s, es[0]);
      ReachableDistinct(c, Step(c, s, es[0]).0, es[1..]);
    }
  }

  // ---- Closing sockets ----

  predicate On(nodes: seq<Node>, i: int, ws: Socket) {
    0 <= i < |nodes| && nodes[i].ws == ws
  }

  /** A close event leaves a node behind exactly if the socket carried two; a close of a
      socket that carries none, such as one replaced by a re-registration, changes no node
      and sends nothing. */
  lemma CloseLeavesGhostExactly(s: Server, ws: Socket)
    ensures (exists i :: On(OnClose(s, ws).0.nodes, i, ws)) <==> exists i, j :: i < j && On(s.nodes, i, ws) && On(s.nodes, j, ws)
    ensures !(exists i :: On(s.nodes, i, ws)) ==> OnClose(s, ws) == (s.(open := s.open - {ws}), [])
  {
    var i, nodes := FirstOn(s.nodes, ws), OnClose(s, ws).0.nodes;
    if i < |s.nodes| {
      assert On(s.nodes, i, ws);
      forall j | On(nodes, j, ws)
        ensures i <= j && On(s.nodes, j + 1, ws)
      {}
      forall j | i < j && On(s.nodes, j, ws)
        ensures On(nodes, j - 1, ws)
      {}
      if k, j :| k < j && On(s.nodes, k, ws) && On(s.nodes, j, ws) {
        assert i <= k && On(nodes, j - 1, ws);
      }
    } else {
      assert forall k :: !On(s.nodes, k, ws);
    }
  }

  /** Each socket registers its owner's id only, and nothing comes from a closed socket. */
  predicate Disciplined(own: Socket -> string, es: seq<Event>, closed: set<Socket>)
    decreases |es|
  {
    es == [] ||
    (es[0].ws !in closed && (es[0].Register? ==> es[0].m.nodeId == own(es[0].ws))
     && Disciplined(own, es[1..], if es[0].Close? then closed + {es[0].ws} else closed))
  }

  function Closed(es: seq<Event>): (r: set<Socket>) {
    set i | 0 <= i < |es| && es[i].Close? :: es[i].ws
  }

  predicate OwnedAlive(nodes: seq<Node>, own: Socket -> string, closed: set<Socket>) {
    forall i | 0 <= i < |nodes| :: own(nodes[i].ws) == nodes[i].id && nodes[i].ws !in closed
  }

  lemma StepOwned(c: Config, s: Server, e: Event, own: Socket -> string, closed: set<Socket>)
    requires DistinctIds(s.nodes) && OwnedAlive(s.nodes, own, closed)
    requires e.ws !in closed && (e.Register? ==> e.m.nodeId == own(e.ws))
    ensures OwnedAlive(Step(c, s, e).0.nodes, own, if e.Close? then closed + {e.ws} else closed)
  {
    if e.Close? {
      CloseLeavesGhostExactly(s, e.ws);
      var nodes := Step(c, s, e).0.nodes;
      forall i | 0 <= i < |nodes|
        ensures nodes[i].ws != e.ws
      {
        if nodes[i].ws == e.ws {
          assert On(nodes, i, e.ws);
        }
      }
    }
  }

  /** When every client keeps to one id per socket, no run leaves a node whose socket has
      closed. */
  lemma {:induction false} NoGhosts(c: Config, s: Server, es: seq<Event>, own: Socket -> string, closed: set<Socket>)
    requires DistinctIds(s.nodes) && OwnedAlive(s.nodes, own, closed) && Disciplined(own, es, closed)
    ensures OwnedAlive(Run(c, s, es).nodes, own, closed + Closed(es))
    decreases |es|
  {
    if es == [] {
      assert closed + Closed(es) == closed;
    } else {
      var e := es[0];
      var closed' := if e.Close? then closed + {e.ws} else closed;
      StepDistinct(c, s, e);
      StepOwned(c, s, e, own, closed);
      NoGhosts(c, Step(c, s, e).0, es[1..], own, closed');
      forall ws | ws in closed + Closed(es)
        ensures ws in closed' + Closed(es[1..])
      {
        if ws !in closed {
          var i :| 0 <= i < |es| && es[i].Close? && es[i].ws == ws;
          if i > 0 { assert es[1..][i - 1].ws == ws; }
        }
      }
    }
  }

  // ---- Virtual addresses ----

  predicate UniqueIps(nodes: seq<Node>) {
    forall i, j | 0 <= i < j < |nodes| :: nodes[i].virtualIp != nodes[j].virtualIp
  }

  predicate CounterPin(c: Config, id: string, k: nat) {
    id != "" && id in c.pins && k >= 2 && c.pins[id] == CounterIp(k)
  }

  lemma CounterInjective(a: nat, b: nat)
    requires CounterIp(a) == CounterIp(b)
    ensures a == b
  {
    var p := "10.200.0.";
    assert CounterIp(a)[|p|..] == Decimal(a) && CounterIp(b)[|p|..] == Decimal(b);
    DecimalInjective(a, b);
  }

  predicate Counted(ip: string, counter: nat) {
    exists k: nat :: 2 <= k < counter && ip == CounterIp(k)
  }

  predicate Pinned(c: Config, ip: string) {
    exists id :: id != "" && id in c.pins && c.pins[id] == ip
  }

  /** Every address comes from a pin or from the counter. */
  predicate AllSourced(c: Config, s: Server) {
    s.counter >= 2 &&
    forall i | 0 <= i < |s.nodes| :: Pinned(c, s.nodes[i].virtualIp) || Counted(s.nodes[i].virtualIp, s.counter)
  }

  ghost predicate NoCounterPins(c: Config) {
    forall id, k: nat :: !CounterPin(c, id, k)
  }

  lemma PinNotCounter(c: Config, ip: string, k: nat)
    requires NoCounterPins(c) && Pinned(c, ip) && k >= 2
    ensures ip != CounterIp(k)
  {
    var p :| p != "" && p in c.pins && c.pins[p] == ip;
    assert !CounterPin(c, p, k);
  }

  lemma NextIpUnused(c: Config, s: Server, id: string)
    requires AllSourced(c, s) && NoCounterPins(c) && id != ""
    ensures !Used(s.nodes, NextIp(c, s, id))
    ensures Pinned(c, NextIp(c, s, id)) || Counted(NextIp(c, s, id), NextCounter(c, s, id))
  {
    var ip := NextIp(c, s, id);
    if Used(s.nodes, ip) {
      var i :| 0 <= i < |s.nodes| && s.nodes[i].virtualIp == ip;
      assert ip == CounterIp(s.counter);
      if Pinned(c, ip) {
        PinNotCounter(c, ip, s.counter);
      } else {
        var k: nat :| 2 <= k < s.counter && ip == CounterIp(k);
        CounterInjective(k, s.counter);
      }
    }
  }

  lemma CountedMore(ip: string, k: nat, l: nat)
    requires Counted(ip, k) && k <= l
    ensures Counted(ip, l)
  {
    var j: nat :| 2 <= j < k && ip == CounterIp(j);
  }

  lemma EnterUnique(c: Config, s: Server, ws: Socket, m: Registration, address: string)
    requires AllSourced(c, s) && UniqueIps(s.nodes) && NoCounterPins(c) && m.nodeId != ""
    ensures var s' := RegisterNew(c, s, ws, m, address).0; AllSourced(c, s') && UniqueIps(s'.nodes)
  {
    var s' := RegisterNew(c, s, ws, m, address).0;
    NextIpUnused(c, s, m.nodeId);
    forall i | 0 <= i < |s.nodes|
      ensures Pinned(c, s.nodes[i].virtualIp) || Counted(s.nodes[i].virtualIp, s'.counter)
    {
      if !Pinned(c, s.nodes[i].virtualIp) { CountedMore(s.nodes[i].virtualIp, s.counter, s'.counter); }
    }
  }

  lemma StepUnique(c: Config, s: Server, e: Event)
    requires AllSourced(c, s) && UniqueIps(s.nodes) && NoCounterPins(c)
    ensures AllSourced(c, Step(c, s, e).0) && UniqueIps(Step(c, s, e).0.nodes)
  {
    if e.Register? && Accepted(c, e.m) && Index(s.nodes, e.m.nodeId) == |s.nodes| {
      EnterUnique(c, s, e.ws, e.m, e.address);
    }
  }

  lemma {:induction false} RunUnique(c: Config, s: Server, es: seq<Event>)
    requires AllSourced(c, s) && UniqueIps(s.nodes) && NoCounterPins(c)
    ensures UniqueIps(Run(c, s, es).nodes)
    decreases |es|
  {
    if es != [] {
      StepUnique(c, s, es[0]);
      RunUnique(c, Step(c, s, es[0]).0, es[1..]);
    }
  }

  function Plain(c: Config, id: string): (m: Registration) {
    Registration(id, "key", "", false, false, "", c.token)
  }

  /** An unpinned client that registers and leaves `n` times. */
  function Churn(c: Config, q: string, n: nat): (es: seq<Event>) {
    if n == 0 then [] else [Register(1, Plain(c, q), "")] + ([Close(1)] + Churn(c, q, n - 1))
  }

  predicate OneNode(s: Server, p: string, ip: string) {
    |s.nodes| == 1 && s.nodes[0].ws == 0 && s.nodes[0].id == p && s.nodes[0].virtualIp == ip
  }

  lemma ChurnOnce(c: Config, s: Server, p: string, q: string, ip: string)
    requires OneNode(s, p, ip) && q != "" && p != q && q !in c.pins
    ensures var s' := Step(c, Step(c, s, Register(1, Plain(c, q), "")).0, Close(1)).0;
      OneNode(s', p, ip) && s'.counter == s.counter + 1
  {
    var t := Step(c, s, Register(1, Plain(c, q), "")).0;
    assert |t.nodes| == 2 && t.nodes[0] == s.nodes[0] && t.nodes[1].ws == 1;
    assert FirstOn(t.nodes, 1) == 1;
  }

  lemma {:induction false} RunCons(c: Config, s: Server, e: Event, es: seq<Event>)
    ensures Run(c, s, [e] + es) == Run(c, Step(c, s, e).0, es)
  {
    assert ([e] + es)[1..] == es;
  }

  lemma {:induction false} ChurnRun(c: Config, s: Server, q: string, n: nat)
    requires n > 0
    ensures var t := Step(c, Step(c, s, Register(1, Plain(c, q), "")).0, Close(1)).0;
      Run(c, s, Churn(c, q, n)) == Run(c, t, Churn(c, q, n - 1))
  {
    var a, b, rest := Register(1, Plain(c, q), ""), Close(1), Churn(c, q, n - 1);
    RunCons(c, s, a, [b] + rest);
    RunCons(c, Step(c, s, a).0, b, rest);
  }

  lemma {:induction false} ChurnCounts(c: Config, s: Server, p: string, q: string, ip: string, n: nat)
    requires OneNode(s, p, ip) && q != "" && p != q && q !in c.pins
    ensures var t := Run(c, s, Churn(c, q, n)); OneNode(t, p, ip) && t.counter == s.counter + n
    decreases n
  {
    if n > 0 {
      ChurnOnce(c, s, p, q, ip);
      ChurnRun(c, s, q, n);
      ChurnCounts(c, Step(c, Step(c, s, Register(1, Plain(c, q), "")).0, Close(1)).0, p, q, ip, n - 1);
    }
  }

  /** The run that gives a second node the pinned address. */
  function Collision(c: Config, p: string, k: nat, q: string): (es: seq<Event>)
    requires k >= 2
  {
    [Register(0, Plain(c, p), "")] + (Churn(c, q, k - 2) + [Register(1, Plain(c, q), "")])
  }

  lemma {:induction false} PinCollides(c: Config, p: string, k: nat, q: string)
    requires CounterPin(c, p, k) && q != "" && q !in c.pins
    ensures !UniqueIps(Run(c, INIT, Collision(c, p, k, q)).nodes)
  {
    var first, last := Register(0, Plain(c, p), ""), Register(1, Plain(c, q), "");
    var s := Step(c, INIT, first).0;
    FirstRegisters(c, p, k);
    ChurnCounts(c, s, p, q, CounterIp(k), k - 2);
    var t := Run(c, s, Churn(c, q, k - 2));
    RunCons(c, INIT, first, Churn(c, q, k - 2) + [last]);
    RunAppend(c, s, Churn(c, q, k - 2), [last]);
    RunOne(c, t, last);
    LastRegisters(c, t, p, q);
  }

  lemma {:induction false} RunOne(c: Config, s: Server, e: Event)
    ensures Run(c, s, [e]) == Step(c, s, e).0
  {
    assert [e][1..] == [];
  }

  lemma FirstRegisters(c: Config, p: string, k: nat)
    requires CounterPin(c, p, k)
    ensures var s := Step(c, INIT, Register(0, Plain(c, p), "")).0; OneNode(s, p, CounterIp(k)) && s.counter == 2
  {}

  lemma LastRegisters(c: Config, t: Server, p: string, q: string)
    requires OneNode(t, p, CounterIp(t.counter)) && q != "" && p != q && q !in c.pins
    ensures !UniqueIps(Step(c, t, Register(1, Plain(c, q), "")).0.nodes)
  {
    var u := Step(c, t, Register(1, Plain(c, q), "")).0;
    assert |u.nodes| == 2 && u.nodes[1].virtualIp == CounterIp(t.counter) && u.nodes[0] == t.nodes[0];
  }

  lemma {:induction false} Longer(keys: set<string>) returns (n: nat)
    ensures forall k | k in keys :: |k| < n
    decreases |keys|
  {
    n := 1;
    if keys != {} {
      var k :| k in keys;
      n := Longer(keys - {k});
      if n <= |k| { n := |k| + 1; }
    }
  }

  /** Over all runs, virtual addresses are unique exactly if no pinned address is one the
      counter hands out (10.200.0.k for k of 2 or more). */
  lemma {:induction false} UniqueIpsExactly(c: Config)
    ensures (forall es :: UniqueIps(Run(c, INIT, es).nodes)) <==> NoCounterPins(c)
  {
    if NoCounterPins(c) {
      forall es
        ensures UniqueIps(Run(c, INIT, es).nodes)
      {
        RunUnique(c, INIT, es);
      }
    } else {
      var p, k: nat :| CounterPin(c, p, k);
      var n := Longer(c.pins.Keys);
      var q: string := seq(n + 1, _ => 'x');
      PinCollides(c, p, k, q);
    }
  }
}
