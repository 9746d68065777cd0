/** What every request does to the registry and what each socket is told, field by field. */
module SignallingFate {
  import opened Lists
  import opened Text
  import opened Signalling
  import opened SignallingTheorems

  // ---- What one socket is told ----

  /** The messages for one socket, in order. */
  function For(sent: seq<Sent>, w: Socket): (ms: seq<Message>)
    decreases |sent|
  {
    if sent == [] then [] else (if sent[0].to == w then [sent[0].msg] else []) + For(sent[1..], w)
  }

  function Copies(m: Message, n: nat): (ms: seq<Message>) {
    seq(n, _ => m)
  }

  /** How many nodes other than `skip` a socket carries. */
  function OthersOn(nodes: seq<Node>, skip: string, w: Socket): (n: nat)
    decreases |nodes|
  {
    if nodes == [] then 0
    else
      var n := nodes[|nodes| - 1];
      OthersOn(nodes[..|nodes| - 1], skip, w) + if n.id != skip && n.ws == w then 1 else 0
  }

  lemma {:induction false} ForAppend(a: seq<Sent>, b: seq<Sent>, w: Socket)
    ensures For(a + b, w) == For(a, w) + For(b, w)
    decreases |a|
  {
    if a == [] {
      assert a + b == b;
    } else {
      ForAppend(a[1..], b, w);
      assert (a + b)[1..] == a[1..] + b;
    }
  }

  lemma {:induction false} ForSend(open: set<Socket>, to: Socket, m: Message, w: Socket)
    ensures For(Send(open, to, m), w) == if w == to && w in open then [m] else []
  {
    if to in open { assert [Sent(to, m)][1..] == []; }
  }

  /** A broadcast reaches every open socket once for each node it carries, but one. */
  lemma {:induction false} ForBroadcast(nodes: seq<Node>, open: set<Socket>, skip: string, m: Message, w: Socket)
    ensures For(Broadcast(nodes, open, skip, m), w) == Copies(m, if w in open then OthersOn(nodes, skip, w) else 0)
    decreases |nodes|
  {
    if nodes != [] {
      var n, init := nodes[|nodes| - 1], nodes[..|nodes| - 1];
      ForBroadcast(init, open, skip, m, w);
      ForAppend(Broadcast(init, open, skip, m), if n.id != skip then Send(open, n.ws, m) else [], w);
      ForSend(open, n.ws, m, w);
    }
  }

  // ---- Registering ----

  /** A natted node is an exit, a relaying one a relay, and otherwise the client says. */
  predicate RoleIs(m: Registration, role: string) {
    && (m.natEnabled ==> role == "exit")
    && (!m.natEnabled && m.relay ==> role == "relay")
    && (!m.natEnabled && !m.relay ==> role == if m.role == "" then "client" else m.role)
  }

  predicate Complete(m: Registration) {
    m.nodeId != "" && m.publicKey != ""
  }

  predicate Admitted(c: Config, m: Registration) {
    c.token == "" || m.token == c.token
  }

  /** Who registered gets its address; the sockets of all other nodes get one join each, with
      the node's own fields. */
  predicate Announced(s': Server, sent: seq<Sent>, ws: Socket, n: Node, w: Socket) {
    For(sent, w)
    == (if w == ws && w in s'.open then [Registered(n.id, n.virtualIp)] else [])
       + Copies(Join(Peer(n.id, n.name, n.publicKey, n.role, n.virtualIp, n.externalIp)),
                if w in s'.open then OthersOn(s'.nodes, n.id, w) else 0)
  }

  lemma AnnounceTells(s': Server, ws: Socket, n: Node, w: Socket)
    ensures Announced(s', Announce(s'.nodes, s'.open, ws, n), ws, n, w)
  {
    var join := Join(ToPeer(n));
    ForAppend(Send(s'.open, ws, Registered(n.id, n.virtualIp)), Broadcast(s'.nodes, s'.open, n.id, join), w);
    ForSend(s'.open, ws, Registered(n.id, n.virtualIp), w);
    ForBroadcast(s'.nodes, s'.open, n.id, join, w);
  }

  /** A known node moves to the new socket with the message's key, role and, if given, name. It
      keeps its place and its addresses, its old socket is terminated, and nothing else changes. */
  lemma RenewFate(c: Config, s: Server, ws: Socket, m: Registration, address: string, i: nat, w: Socket)
    requires DistinctIds(s.nodes) && Complete(m) && Admitted(c, m) && i < |s.nodes| && s.nodes[i].id == m.nodeId
    ensures var (s', sent) := Step(c, s, Register(ws, m, address));
      && |s'.nodes| == |s.nodes| && (forall j | 0 <= j < |s.nodes| && j != i :: s'.nodes[j] == s.nodes[j])
      && var (n, n') := (s.nodes[i], s'.nodes[i]);
      && n'.id == n.id && n'.ws == ws && n'.publicKey == m.publicKey && RoleIs(m, n'.role)
      && n'.name == (if m.name == "" then n.name else m.name)
      && n'.virtualIp == n.virtualIp && n'.externalIp == n.externalIp
      && s'.counter == s.counter && s'.current == s.current[ws := m.nodeId]
      && s'.open == (if n.ws == ws then s.open else s.open - {n.ws})
      && Announced(s', sent, ws, n', w)
  {
    assert Index(s.nodes, m.nodeId) == i;
    var s' := Step(c, s, Register(ws, m, address)).0;
    AnnounceTells(s', ws, s'.nodes[i], w);
  }

  /** The address of a new node: its pin if no node uses it, else the next of the counter. */
  predicate AddressIs(c: Config, s: Server, id: string, ip: string, counter: nat) {
    if id in c.pins && c.pins[id] != "" && forall i | 0 <= i < |s.nodes| :: s.nodes[i].virtualIp != c.pins[id] then
      ip == c.pins[id] && counter == s.counter
    else
      ip == "10.200.0." + Decimal(s.counter) && counter == s.counter + 1
  }

  /** An unknown node goes last, with everything the message says of it. */
  lemma EnterFate(c: Config, s: Server, ws: Socket, m: Registration, address: string, w: Socket)
    requires Complete(m) && Admitted(c, m) && forall i | 0 <= i < |s.nodes| :: s.nodes[i].id != m.nodeId
    ensures var (s', sent) := Step(c, s, Register(ws, m, address));
      && |s'.nodes| == |s.nodes| + 1 && s'.nodes[..|s.nodes|] == s.nodes
      && var n := s'.nodes[|s.nodes|];
      && n.id == m.nodeId && n.ws == ws && n.name == m.name && n.publicKey == m.publicKey && RoleIs(m, n.role)
      && AddressIs(c, s, m.nodeId, n.virtualIp, s'.counter) && n.externalIp == address
      && s'.current == s.current[ws := m.nodeId] && s'.open == s.open
      && Announced(s', sent, ws, n, w)
  {
    assert Index(s.nodes, m.nodeId) == |s.nodes|;
    var s' := Step(c, s, Register(ws, m, address)).0;
    AnnounceTells(s', ws, s'.nodes[|s.nodes|], w);
  }

  /** After an accepted registration exactly one node has the id. */
  lemma RegisteredOnce(c: Config, s: Server, ws: Socket, m: Registration, address: string)
    requires DistinctIds(s.nodes) && Complete(m) && Admitted(c, m)
    ensures var nodes := Step(c, s, Register(ws, m, address)).0.nodes;
      DistinctIds(nodes) && exists i :: 0 <= i < |nodes| && nodes[i].id == m.nodeId && nodes[i].ws == ws
  {
    StepDistinct(c, s, Register(ws, m, address));
    var nodes := Step(c, s, Register(ws, m, address)).0.nodes;
    var i := Index(s.nodes, m.nodeId);
    assert nodes[i].id == m.nodeId && nodes[i].ws == ws;
  }

  /** An incomplete or unauthorised registration changes no node; its socket is told why, and
      terminated in the second case. */
  lemma RefuseFate(c: Config, s: Server, ws: Socket, m: Registration, address: string, w: Socket)
    requires !Complete(m) || !Admitted(c, m)
    ensures var (s', sent) := Step(c, s, Register(ws, m, address));
      && s'.nodes == s.nodes && s'.counter == s.counter && s'.current == s.current
      && s'.open == (if Complete(m) then s.open - {ws} else s.open)
      && For(sent, w) == (if w == ws && ws in s.open
                          then [Failure(if Complete(m) then "Unauthorized" else "Missing nodeId or publicKey")] else [])
  {
    ForSend(s.open, ws, Failure(if Complete(m) then "Unauthorized" else "Missing nodeId or publicKey"), w);
  }

  // ---- Leaving and asking ----

  /** A close removes the first node of the socket and tells every other node's socket. */
  lemma CloseFate(c: Config, s: Server, ws: Socket, i: nat, w: Socket)
    requires i < |s.nodes| && s.nodes[i].ws == ws && forall k | 0 <= k < i :: s.nodes[k].ws != ws
    ensures var (s', sent) := Step(c, s, Close(ws));
      && s'.nodes == s.nodes[..i] + s.nodes[i + 1..] && s'.open == s.open - {ws}
      && s'.counter == s.counter && s'.current == s.current
      && For(sent, w) == Copies(Leave(s.nodes[i].id), if w in s'.open then OthersOn(s'.nodes, s.nodes[i].id, w) else 0)
  {
    assert FirstOn(s.nodes, ws) == i;
    var s' := Step(c, s, Close(ws)).0;
    ForBroadcast(s'.nodes, s'.open, s.nodes[i].id, Leave(s.nodes[i].id), w);
  }

  predicate Mentions(ps: seq<Peer>, n: Node) {
    Peer(n.id, n.name, n.publicKey, n.role, n.virtualIp, n.externalIp) in ps
  }

  /** The reply to `get-peers` lists every node but the asker's last registered one, with its
      own fields, once each. */
  lemma GetPeersFate(c: Config, s: Server, ws: Socket)
    requires DistinctIds(s.nodes) && ws in s.open
    ensures var self := if ws in s.current then s.current[ws] else "";
      var (s', sent) := Step(c, s, GetPeers(ws));
      && s' == s && |sent| == 1 && sent[0].to == ws && sent[0].msg.Peers?
      && (forall i | 0 <= i < |s.nodes| :: s.nodes[i].id != self ==> Mentions(sent[0].msg.peers, s.nodes[i]))
      && |sent[0].msg.peers| == (if exists i :: 0 <= i < |s.nodes| && s.nodes[i].id == self then |s.nodes| - 1 else |s.nodes|)
  {
    PeersListed(s.nodes, CurrentId(s, ws));
  }

  lemma {:induction false} PeersListed(nodes: seq<Node>, self: string)
    requires DistinctIds(nodes)
    ensures forall i | 0 <= i < |nodes| :: nodes[i].id != self ==> Mentions(PeersBut(nodes, self), nodes[i])
    ensures |PeersBut(nodes, self)| == if exists i :: 0 <= i < |nodes| && nodes[i].id == self then |nodes| - 1 else |nodes|
    decreases |nodes|
  {
    if nodes != [] {
      var init, last := nodes[..|nodes| - 1], nodes[|nodes| - 1];
      PeersListed(init, self);
      assert forall i | 0 <= i < |init| :: init[i] == nodes[i];
      if exists i :: 0 <= i < |init| && init[i].id == self {
        var i :| 0 <= i < |init| && init[i].id == self;
        assert nodes[i].id == self != last.id;
      }
    }
  }
}
