/** The signalling server's registry of nodes, the messages it sends, and the registry's
    methods as they mutate it. Sockets are numbered; "" stands for null or an absent string. */
module Signalling {
  import opened Lists
  import opened Text

  type Socket = nat

  datatype Node = Node(id: string, ws: Socket, name: string, publicKey: string, role: string,
                       virtualIp: string, externalIp: string)

  /** The fields of a node that peers are told. */
  datatype Peer = Peer(id: string, name: string, publicKey: string, role: string, virtualIp: string, externalIp: string)

  function ToPeer(n: Node): (p: Peer) {
    Peer(n.id, n.name, n.publicKey, n.role, n.virtualIp, n.externalIp)
  }

  datatype Registration = Registration(nodeId: string, publicKey: string, name: string, natEnabled: bool,
                                       relay: bool, role: string, token: string)

  function Role(m: Registration): (r: string) {
    if m.natEnabled then "exit" else if m.relay then "relay" else if m.role != "" then m.role else "client"
  }

  datatype Message = Registered(id: string, virtualIp: string) | Peers(peers: seq<Peer>)
                   | Join(peer: Peer) | Leave(id: string) | Failure(text: string)

  datatype Sent = Sent(to: Socket, msg: Message)

  /** Pinned addresses, and the registration token or "". */
  datatype Config = Config(pins: map<string, string>, token: string)

  /** `nodes` is the map in insertion order; `current` the node id each connection last
      registered; `open` the sockets whose state is OPEN. */
  datatype Server = Server(nodes: seq<Node>, counter: nat, current: map<Socket, string>, open: set<Socket>)

  const INIT := Server([], 2, map[], {})

  datatype Event =
    | Connect(ws: Socket)
    | Closing(ws: Socket)     // the socket leaves OPEN, its close event is still to come
    | Close(ws: Socket)
    | Register(ws: Socket, m: Registration, address: string)
    | GetPeers(ws: Socket)

  // ---- The registry as a function ----

  /** The position of a node id, or the number of nodes. */
  function Index(nodes: seq<Node>, id: string): (i: nat)
    ensures i <= |nodes|
    ensures i < |nodes| ==> nodes[i].id == id
    ensures forall k | 0 <= k < i :: nodes[k].id != id
    decreases |nodes|
  {
    if nodes == [] || nodes[0].id == id then 0 else
      var i := Index(nodes[1..], id);
      assert forall k | 1 <= k < i + 1 :: nodes[k].id == nodes[1..][k - 1].id;
      i + 1
  }

  /** The position of the first node on a socket, or the number of nodes. */
  function FirstOn(nodes: seq<Node>, ws: Socket): (i: nat)
    ensures i <= |nodes|
    ensures i < |nodes| ==> nodes[i].ws == ws
    ensures forall k | 0 <= k < i :: nodes[k].ws != ws
    decreases |nodes|
  {
    if nodes == [] || nodes[0].ws == ws then 0 else
      var i := FirstOn(nodes[1..], ws);
      assert forall k | 1 <= k < i + 1 :: nodes[k].ws == nodes[1..][k - 1].ws;
      i + 1
  }

  predicate Used(nodes: seq<Node>, ip: string) {
    exists i | 0 <= i < |nodes| :: nodes[i].virtualIp == ip
  }

  function Send(open: set<Socket>, ws: Socket, msg: Message): (out: seq<Sent>) {
    if ws in open then [Sent(ws, msg)] else []
  }

  /** One message to every node but one. */
  function Broadcast(nodes: seq<Node>, open: set<Socket>, skip: string, msg: Message): (out: seq<Sent>)
    decreases |nodes|
  {
    if nodes == [] then []
    else
      var n := nodes[|nodes| - 1];
      Broadcast(nodes[..|nodes| - 1], open, skip, msg) + if n.id != skip then Send(open, n.ws, msg) else []
  }

  function CounterIp(k: nat): (ip: string) {
    "10.200.0." + Decimal(k)
  }

  function Pin(c: Config, id: string): (ip: string) {
    if id in c.pins then c.pins[id] else ""
  }

  /** A pinned address if there is one and no node uses it, else the next of the counter. */
  function NextIp(c: Config, s: Server, id: string): (ip: string) {
    if Pin(c, id) != "" && !Used(s.nodes, Pin(c, id)) then Pin(c, id) else CounterIp(s.counter)
  }

  function NextCounter(c: Config, s: Server, id: string): (k: nat) {
    if Pin(c, id) != "" && !Used(s.nodes, Pin(c, id)) then s.counter else s.counter + 1
  }

  function Accepted(c: Config, m: Registration): (ok: bool) {
    m.nodeId != "" && m.publicKey != "" && (c.token == "" || m.token == c.token)
  }

  function Updated(n: Node, ws: Socket, m: Registration): (r: Node) {
    n.(ws := ws, publicKey := m.publicKey, role := Role(m), name := if m.name != "" then m.name else n.name)
  }

  function Announce(nodes: seq<Node>, open: set<Socket>, ws: Socket, n: Node): (out: seq<Sent>) {
    Send(open, ws, Registered(n.id, n.virtualIp)) + Broadcast(nodes, open, n.id, Join(ToPeer(n)))
  }

  function ReRegister(s: Server, ws: Socket, m: Registration, i: nat): (r: (Server, seq<Sent>))
    requires i < |s.nodes|
  {
    var n := Updated(s.nodes[i], ws, m);
    var open := if s.nodes[i].ws != ws then s.open - {s.nodes[i].ws} else s.open;
    var nodes := s.nodes[i := n];
    (Server(nodes, s.counter, s.current[ws := m.nodeId], open), Announce(nodes, open, ws, n))
  }

  function RegisterNew(c: Config, s: Server, ws: Socket, m: Registration, address: string): (r: (Server, seq<Sent>)) {
    var n := Node(m.nodeId, ws, m.name, m.publicKey, Role(m), NextIp(c, s, m.nodeId), address);
    var nodes := s.nodes + [n];
    (Server(nodes, NextCounter(c, s, m.nodeId), s.current[ws := m.nodeId], s.open), Announce(nodes, s.open, ws, n))
  }

  function OnRegister(c: Config, s: Server, ws: Socket, m: Registration, address: string): (r: (Server, seq<Sent>)) {
    if m.nodeId == "" || m.publicKey == "" then (s, Send(s.open, ws, Failure("Missing nodeId or publicKey")))
    else if c.token != "" && m.token != c.token then
      (s.(open := s.open - {ws}), Send(s.open, ws, Failure("Unauthorized")))
    else
      var i := Index(s.nodes, m.nodeId);
      if i < |s.nodes| then ReRegister(s, ws, m, i) else RegisterNew(c, s, ws, m, address)
  }

  function PeersBut(nodes: seq<Node>, skip: string): (ps: seq<Peer>)
    decreases |nodes|
  {
    if nodes == [] then []
    else
      var n := nodes[|nodes| - 1];
      PeersBut(nodes[..|nodes| - 1], skip) + if n.id != skip then [ToPeer(n)] else []
  }

  function CurrentId(s: Server, ws: Socket): (id: string) {
    if ws in s.current then s.current[ws] else ""
  }

  /** Only the first node of the socket goes. */
  function OnClose(s: Server, ws: Socket): (r: (Server, seq<Sent>)) {
    var open, i := s.open - {ws}, FirstOn(s.nodes, ws);
    if i == |s.nodes| then (s.(open := open), [])
    else
      var nodes, id := Without(s.nodes, i), s.nodes[i].id;
      (s.(nodes := nodes, open := open), Broadcast(nodes, open, id, Leave(id)))
  }

  function Step(c: Config, s: Server, e: Event): (r: (Server, seq<Sent>)) {
    match e
    case Connect(ws) => (s.(open := s.open + {ws}), [])
    case Closing(ws) => (s.(open := s.open - {ws}), [])
    case Close(ws) => OnClose(s, ws)
    case Register(ws, m, address) => OnRegister(c, s, ws, m, address)
    case GetPeers(ws) => (s, Send(s.open, ws, Peers(PeersBut(s.nodes, CurrentId(s, ws)))))
  }

  function Run(c: Config, s: Server, es: seq<Event>): (r: Server)
    decreases |es|
  {
    if es == [] then s else Run(c, Step(c, s, es[0]).0, es[1..])
  }

  lemma {:induction false} RunAppend(c: Config, s: Server, a: seq<Event>, b: seq<Event>)
    ensures Run(c, s, a + b) == Run(c, Run(c, s, a), b)
    decreases |a|
  {
    if a == [] {
      assert a + b == b;
    } else {
      RunAppend(c, Step(c, s, a[0]).0, a[1..], b);
      assert (a + b)[1..] == a[1..] + b;
    }
  }

  // ---- The registry as an object ----

  class SignallingServer {
    var nodes: seq<Node>
    var virtualIpCounter: nat
    var current: map<Socket, string>
    var open: set<Socket>
    /** Everything handed to a socket, in order. */
    var sent: seq<Sent>
    const config: Config

    ghost function State(): (s: Server)
      reads this
    {
      Server(nodes, virtualIpCounter, current, open)
    }

    constructor (config: Config)
      ensures State() == INIT && sent == [] && this.config == config
    {
      nodes, virtualIpCounter, current, open, sent := [], 2, map[], {}, [];
      this.config := config;
    }

    method WsSend(ws: Socket, msg: Message)
      modifies this`sent
      ensures sent == old(sent) + Send(open, ws, msg)
    {
      if ws !in open { return; }
      sent := sent + [Sent(ws, msg)];
    }

    method BroadcastBut(skip: string, msg: Message)
      modifies this`sent
      ensures sent == old(sent) + Broadcast(nodes, open, skip, msg)
    {
      for i := 0 to |nodes|
        invariant sent == old(sent) + Broadcast(nodes[..i], open, skip, msg)
      {
        assert nodes[..i + 1][..i] == nodes[..i] && nodes[..i + 1][i] == nodes[i];
        if nodes[i].id != skip { WsSend(nodes[i].ws, msg); }
      }
      assert nodes[..|nodes|] == nodes;
    }

    method InUse(ip: string) returns (r: bool)
      ensures r == Used(nodes, ip)
    {
      for i := 0 to |nodes|
        invariant forall k | 0 <= k < i :: nodes[k].virtualIp != ip
      {
        if nodes[i].virtualIp == ip { return true; }
      }
      return false;
    }

    method HandleRegister(ws: Socket, m: Registration, address: string)
      modifies this
      ensures State() == OnRegister(config, old(State()), ws, m, address).0
      ensures sent == old(sent) + OnRegister(config, old(State()), ws, m, address).1
    {
      if m.nodeId == "" || m.publicKey == "" {
        WsSend(ws, Failure("Missing nodeId or publicKey"));
        return;
      }
      if config.token != "" && m.token != config.token {
        WsSend(ws, Failure("Unauthorized"));
        open := open - {ws};
        return;
      }
      var i := Index(nodes, m.nodeId);
      if i < |nodes| { Renew(i, ws, m); } else { Enter(ws, m, address); }
    }

    /** The branch for a node id already present. */
    method Renew(i: nat, ws: Socket, m: Registration)
      requires i < |nodes| && nodes[i].id == m.nodeId
      modifies this
      ensures State() == ReRegister(old(State()), ws, m, i).0
      ensures sent == old(sent) + ReRegister(old(State()), ws, m, i).1
    {
      var existing := nodes[i];
      if existing.ws != ws && existing.ws in open { open := open - {existing.ws}; }
      existing := existing.(ws := ws, publicKey := m.publicKey, role := Role(m));
      if m.name != "" { existing := existing.(name := m.name); }
      nodes := nodes[i := existing];
      current := current[ws := m.nodeId];
      WsSend(ws, Registered(m.nodeId, existing.virtualIp));
      BroadcastBut(m.nodeId, Join(ToPeer(existing)));
    }

    method AssignIp(id: string) returns (virtualIp: string)
      modifies this`virtualIpCounter
      ensures virtualIp == NextIp(config, old(State()), id)
      ensures virtualIpCounter == NextCounter(config, old(State()), id)
    {
      var pinned := if id in config.pins then config.pins[id] else "";
      if pinned != "" {
        var conflict := InUse(pinned);
        if !conflict { return pinned; }
      }
      virtualIp := CounterIp(virtualIpCounter);
      virtualIpCounter := virtualIpCounter + 1;
    }

    /** The branch for a new node id. */
    method Enter(ws: Socket, m: Registration, address: string)
      modifies this
      ensures State() == RegisterNew(config, old(State()), ws, m, address).0
      ensures sent == old(sent) + RegisterNew(config, old(State()), ws, m, address).1
    {
      var virtualIp := AssignIp(m.nodeId);
      var info := Node(m.nodeId, ws, m.name, m.publicKey, Role(m), virtualIp, address);
      nodes := nodes + [info];
      current := current[ws := m.nodeId];
      WsSend(ws, Registered(m.nodeId, virtualIp));
      BroadcastBut(m.nodeId, Join(ToPeer(info)));
    }

    method HandleGetPeers(ws: Socket)
      modifies this`sent
      ensures sent == old(sent) + Step(config, old(State()), GetPeers(ws)).1
    {
      var exclude := if ws in current then current[ws] else "";
      var peers: seq<Peer> := [];
      for i := 0 to |nodes|
        invariant sent == old(sent) && peers == PeersBut(nodes[..i], exclude)
      {
        assert nodes[..i + 1][..i] == nodes[..i] && nodes[..i + 1][i] == nodes[i];
        if nodes[i].id != exclude { peers := peers + [ToPeer(nodes[i])]; }
      }
      assert nodes[..|nodes|] == nodes;
      WsSend(ws, Peers(peers));
    }

    method HandleWsClose(ws: Socket)
      modifies this
      ensures State() == OnClose(old(State()), ws).0
      ensures sent == old(sent) + OnClose(old(State()), ws).1
    {
      open := open - {ws};
      for i := 0 to |nodes|
        invariant nodes == old(nodes) && sent == old(sent) && open == old(open) - {ws}
        invariant virtualIpCounter == old(virtualIpCounter) && current == old(current)
        invariant i <= FirstOn(nodes, ws)
      {
        if nodes[i].ws != ws { continue; }
        var id := nodes[i].id;
        nodes := nodes[..i] + nodes[i + 1..];
        BroadcastBut(id, Leave(id));
        return;
      }
    }
  }
}
