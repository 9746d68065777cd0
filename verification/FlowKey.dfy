/** Flow keys of the traffic classifier: one text for both directions of a flow, taken apart
    again to find the remote side. */
module FlowKey {
  import opened Bytes
  import opened Text
  import opened Addresses

  datatype Proto = Tcp | Udp

  datatype Endpoint = Endpoint(ip: Ipv4, port: u16)

  function EndText(e: Endpoint): (s: string) {
    Dotted(e.ip) + ":" + Decimal(e.port as int)
  }

  function ProtoName(p: Proto): (s: string) {
    if p.Tcp? then "tcp" else "udp"
  }

  /** JavaScript's `<` on strings. */
  predicate Less(a: string, b: string) {
    a != b && TextLe(a, b)
  }

  /** The two ends in the order of their texts. */
  function InOrder(x: Endpoint, y: Endpoint): (r: (Endpoint, Endpoint)) {
    if Less(EndText(x), EndText(y)) then (x, y) else (y, x)
  }

  function CanonicalFlowKey(p: Proto, src: Endpoint, dst: Endpoint): (key: string) {
    var left, right := EndText(src), EndText(dst);
    var (a, b) := if Less(left, right) then (left, right) else (right, left);
    ProtoName(p) + ":" + (a + ("<->" + b))
  }

  // ---- Taking a text apart ----

  predicate StandsAt(s: string, pat: string, i: nat) {
    i + |pat| <= |s| && s[i..i + |pat|] == pat
  }

  function IndexOf(s: string, pat: string, from: nat): (i: Option<nat>)
    ensures i.Some? ==> StandsAt(s, pat, i.value)
    decreases |s| - from
  {
    if from > |s| then None
    else if StandsAt(s, pat, from) then Some(from) else IndexOf(s, pat, from + 1)
  }

  /** The last position of a character, or -1. */
  function LastIndexOf(s: string, c: char): (i: int)
    ensures -1 <= i < |s|
    decreases |s|
  {
    if s == "" then -1 else if s[|s| - 1] == c then |s| - 1 else LastIndexOf(s[..|s| - 1], c)
  }

  function DigitsPrefix(s: string): (d: string)
    decreases |s|
  {
    if s == "" || !IsDigit(s[0]) then "" else [s[0]] + DigitsPrefix(s[1..])
  }

  /** `parseInt(s, 10)` on a text without leading blanks or sign. */
  function ParseInt(s: string): (n: Option<int>) {
    var d := DigitsPrefix(s);
    if d == "" then None else Some(Value(d))
  }

  datatype Side = Side(ip: string, port: int)

  datatype Flow = Flow(isUdp: bool, a: Side, b: Side)

  function SideOf(s: string): (r: Option<Side>) {
    var c := LastIndexOf(s, ':');
    if c <= 0 then None
    else match ParseInt(s[c + 1..])
      case None => None
      case Some(port) => Some(Side(s[..c], port))
  }

  /** The text between the separators, as the first two parts of `split('<->')`. */
  function Halves(rest: string): (r: Option<(string, string)>) {
    match IndexOf(rest, "<->", 0)
    case None => None
    case Some(i) =>
      var tail := rest[i + 3..];
      match IndexOf(tail, "<->", 0)
      case None => Some((rest[..i], tail))
      case Some(j) => Some((rest[..i], tail[..j]))
  }

  function StripProto(key: string): (rest: string) {
    if StandsAt(key, "tcp:", 0) || StandsAt(key, "udp:", 0) then key[4..] else key
  }

  function ParseFlowEndpoints(key: string): (r: Option<Flow>) {
    var h := Halves(StripProto(key));
    if h.None? || h.value.0 == "" || h.value.1 == "" then None
    else
      var a, b := SideOf(h.value.0), SideOf(h.value.1);
      if a.None? || b.None? then None else Some(Flow(StandsAt(key, "udp:", 0), a.value, b.value))
  }

  // ---- Round trip ----

  lemma NotHere(s: string, pat: string, i: nat)
    requires pat != "" && (i < |s| ==> s[i] != pat[0])
    ensures !StandsAt(s, pat, i)
  {
    if i + |pat| <= |s| {
      assert s[i..i + |pat|][0] == s[i];
    }
  }

  lemma {:induction false} IndexSkips(s: string, pat: string, from: nat, k: nat)
    requires pat != "" && from <= k && StandsAt(s, pat, k) && forall i | from <= i < k :: s[i] != pat[0]
    ensures IndexOf(s, pat, from) == Some(k)
    decreases k - from
  {
    if from < k {
      NotHere(s, pat, from);
      IndexSkips(s, pat, from + 1, k);
    }
  }

  lemma {:induction false} IndexNone(s: string, pat: string, from: nat)
    requires pat != "" && Free(pat[0], s)
    ensures IndexOf(s, pat, from) == None
    decreases |s| - from
  {
    if from <= |s| {
      NotHere(s, pat, from);
      IndexNone(s, pat, from + 1);
    }
  }

  lemma {:induction false} LastIndexFound(d: string, c: char, n: string)
    requires Free(c, n)
    ensures LastIndexOf(d + [c] + n, c) == |d|
    decreases |n|
  {
    var s := d + [c] + n;
    if n != "" {
      assert s[..|s| - 1] == d + [c] + n[..|n| - 1];
      LastIndexFound(d, c, n[..|n| - 1]);
    }
  }

  lemma {:induction false} DigitsAll(s: string)
    requires AllDigits(s)
    ensures DigitsPrefix(s) == s
    decreases |s|
  {
    if s != "" {
      DigitsAll(s[1..]);
    }
  }

  lemma EndNumeric(e: Endpoint)
    ensures Numeric(EndText(e), {'.', ':'}) && EndText(e) != "" && Free('<', EndText(e))
  {
    DottedNumeric(e.ip);
    DecimalNumeric(e.port as int);
    NumericFree(EndText(e), {'.', ':'}, '<');
  }

  lemma SideBack(e: Endpoint)
    ensures SideOf(EndText(e)) == Some(Side(Dotted(e.ip), e.port as int))
  {
    var d, n := Dotted(e.ip), Decimal(e.port as int);
    DecimalFree(e.port as int, ':');
    LastIndexFound(d, ':', n);
    DigitsAll(n);
    DecimalRoundTrip(e.port as int);
    assert EndText(e)[..|d|] == d && EndText(e)[|d| + 1..] == n;
  }

  lemma HalvesBack(a: string, b: string)
    requires Free('<', a) && Free('<', b)
    ensures Halves(a + ("<->" + b)) == Some((a, b))
  {
    var s := a + ("<->" + b);
    assert StandsAt(s, "<->", |a|);
    IndexSkips(s, "<->", 0, |a|);
    assert s[..|a|] == a && s[|a| + 3..] == b;
    IndexNone(b, "<->", 0);
  }

  lemma StripBack(p: Proto, rest: string)
    ensures var key := ProtoName(p) + ":" + rest;
      StripProto(key) == rest && (StandsAt(key, "udp:", 0) <==> p.Udp?)
  {
    var key := ProtoName(p) + ":" + rest;
    assert key[0..4] == ProtoName(p) + ":" && key[4..] == rest;
    assert key[0] == ProtoName(p)[0];
  }

  /** Parsing a key gives back the protocol and both ends, in the order of their texts. */
  lemma FlowKeyRoundTrip(p: Proto, x: Endpoint, y: Endpoint)
    ensures var (a, b) := InOrder(x, y);
      ParseFlowEndpoints(CanonicalFlowKey(p, x, y))
        == Some(Flow(p.Udp?, Side(Dotted(a.ip), a.port as int), Side(Dotted(b.ip), b.port as int)))
  {
    var (a, b) := InOrder(x, y);
    EndNumeric(a);
    EndNumeric(b);
    StripBack(p, EndText(a) + ("<->" + EndText(b)));
    HalvesBack(EndText(a), EndText(b));
    SideBack(a);
    SideBack(b);
  }

  lemma LessAsymmetric(a: string, b: string)
    ensures Less(a, b) ==> !Less(b, a)
    ensures a != b ==> Less(a, b) || Less(b, a)
  {
    TextLeTotal(a, b);
  }

  lemma SidesDiffer(a: Endpoint, b: Endpoint)
    requires Side(Dotted(a.ip), a.port as int) == Side(Dotted(b.ip), b.port as int)
    ensures a == b
  {
    DottedInjective(a.ip, b.ip);
  }

  /** Two flows have the same key exactly if they are the same up to direction. */
  lemma FlowKeyExactly(p: Proto, x: Endpoint, y: Endpoint, q: Proto, u: Endpoint, v: Endpoint)
    ensures CanonicalFlowKey(p, x, y) == CanonicalFlowKey(q, u, v) <==>
              (p == q && ((x == u && y == v) || (x == v && y == u)))
  {
    if p == q && x == v && y == u {
      LessAsymmetric(EndText(x), EndText(y));
    } else if CanonicalFlowKey(p, x, y) == CanonicalFlowKey(q, u, v) {
      var (a, b) := InOrder(x, y);
      var (c, d) := InOrder(u, v);
      FlowKeyRoundTrip(p, x, y);
      FlowKeyRoundTrip(q, u, v);
      SidesDiffer(a, c);
      SidesDiffer(b, d);
    }
  }

  // ---- The remote side ----

  const WELL_KNOWN: set<int> := {20, 21, 22, 25, 53, 80, 110, 143, 443, 853, 993, 995, 8080, 8443, 5201}

  predicate IsService(port: int) {
    port in WELL_KNOWN || port <= 1024
  }

  /** The list adds three ports to the range: the others are in it already. */
  lemma ServiceExactly(port: int)
    ensures IsService(port) <==> port <= 1024 || port == 5201 || port == 8080 || port == 8443
  {}

  /** `split` on one character. */
  function SplitOn(s: string, c: char): (parts: seq<string>)
    ensures |parts| >= 1
    decreases |s|
  {
    match IndexOf(s, [c], 0)
    case None => [s]
    case Some(i) => [s[..i]] + SplitOn(s[i + 1..], c)
  }

  predicate ShortNumber(s: string) {
    1 <= |s| <= 3 && AllDigits(s)
  }

  predicate IsPrivateIpv4(ip: string) {
    var l := SplitOn(ip, '.');
    && |l| == 4 && ShortNumber(l[0]) && ShortNumber(l[1]) && ShortNumber(l[2]) && ShortNumber(l[3])
    && var a, b := Value(l[0]), Value(l[1]);
       a == 10 || (a == 192 && b == 168) || (a == 172 && 16 <= b <= 31) || a == 127
  }

  function InferRemoteEndpoint(key: string): (r: Option<Side>) {
    match ParseFlowEndpoints(key)
    case None => None
    case Some(f) =>
      var aSvc, bSvc := IsService(f.a.port), IsService(f.b.port);
      if aSvc && !bSvc then Some(f.a)
      else if bSvc && !aSvc then Some(f.b)
      else if aSvc && bSvc then if f.a.port <= f.b.port then Some(f.a) else Some(f.b)
      else
        var aPriv, bPriv := IsPrivateIpv4(f.a.ip), IsPrivateIpv4(f.b.ip);
        if aPriv != bPriv then if aPriv then Some(f.b) else Some(f.a) else None
  }

  predicate Private(ip: Ipv4) {
    ip.a == 10 || (ip.a == 192 && ip.b == 168) || (ip.a == 172 && 16 <= ip.b <= 31) || ip.a == 127
  }

  lemma {:induction false} SplitStep(p: string, rest: string, c: char)
    requires Free(c, p)
    ensures SplitOn(p + [c] + rest, c) == [p] + SplitOn(rest, c)
    ensures SplitOn(p, c) == [p]
  {
    var s := p + [c] + rest;
    assert StandsAt(s, [c], |p|) by { assert s[|p|..|p| + 1] == [c]; }
    IndexSkips(s, [c], 0, |p|);
    assert s[..|p|] == p && s[|p| + 1..] == rest;
    IndexNone(p, [c], 0);
  }

  lemma {:induction false} OctetText(n: nat)
    requires n < 256
    ensures ShortNumber(Decimal(n)) && Value(Decimal(n)) == n && Free('.', Decimal(n))
  {
    DecimalRoundTrip(n);
    DecimalFree(n, '.');
    assert n >= 10 ==> Decimal(n) == Decimal(n / 10) + [Digit(n % 10)];
    assert n >= 100 ==> Decimal(n / 10) == Decimal(n / 10 / 10) + [Digit(n / 10 % 10)];
  }

  lemma SplitDotted(ip: Ipv4)
    ensures SplitOn(Dotted(ip), '.') == [Decimal(ip.a as int), Decimal(ip.b as int), Decimal(ip.c as int), Decimal(ip.d as int)]
  {
    OctetText(ip.a as int);
    OctetText(ip.b as int);
    OctetText(ip.c as int);
    OctetText(ip.d as int);
    SplitFour(Decimal(ip.a as int), Decimal(ip.b as int), Decimal(ip.c as int), Decimal(ip.d as int));
  }

  lemma {:induction false} SplitFour(a: string, b: string, c: string, d: string)
    requires Free('.', a) && Free('.', b) && Free('.', c) && Free('.', d)
    ensures SplitOn(a + "." + (b + "." + (c + "." + d)), '.') == [a, b, c, d]
  {
    var rest := c + "." + d;
    SplitTwo(c, d, '.');
    SplitOneMore(b, rest, [c, d], '.');
    SplitOneMore(a, b + "." + rest, [b] + [c, d], '.');
  }

  lemma {:induction false} SplitTwo(p: string, q: string, c: char)
    requires Free(c, p) && Free(c, q)
    ensures SplitOn(p + [c] + q, c) == [p, q]
  {
    SplitStep(p, q, c);
    SplitStep(q, "", c);
  }

  lemma {:induction false} SplitOneMore(p: string, rest: string, parts: seq<string>, c: char)
    requires Free(c, p) && SplitOn(rest, c) == parts
    ensures SplitOn(p + [c] + rest, c) == [p] + parts
  {
    SplitStep(p, rest, c);
  }

  lemma PrivateText(ip: Ipv4)
    ensures IsPrivateIpv4(Dotted(ip)) <==> Private(ip)
  {
    SplitDotted(ip);
    OctetText(ip.a as int);
    OctetText(ip.b as int);
    OctetText(ip.c as int);
    OctetText(ip.d as int);
  }

  /** Which end is remote, with no word about direction: the only service port, else the lower
      of two service ports (of equal ones the end whose text comes first), else the only public address. */
  predicate Remote(r: Option<Side>, x: Endpoint, y: Endpoint) {
    var sx, sy := IsService(x.port as int), IsService(y.port as int);
    var ax, ay := Some(Side(Dotted(x.ip), x.port as int)), Some(Side(Dotted(y.ip), y.port as int));
    && (sx && !sy ==> r == ax)
    && (sx && sy && x.port < y.port ==> r == ax)
    && (sx && sy && x.port == y.port && Less(EndText(x), EndText(y)) ==> r == ax)
    && (!sx && !sy && Private(y.ip) && !Private(x.ip) ==> r == ax)
    && (!sx && !sy && Private(x.ip) == Private(y.ip) ==> r == None)
  }

  /** The inferred remote end is the same for both directions, and is the one `Remote` names. */
  lemma RemoteExactly(p: Proto, x: Endpoint, y: Endpoint)
    ensures InferRemoteEndpoint(CanonicalFlowKey(p, x, y)) == InferRemoteEndpoint(CanonicalFlowKey(p, y, x))
    ensures Remote(InferRemoteEndpoint(CanonicalFlowKey(p, x, y)), x, y)
    ensures Remote(InferRemoteEndpoint(CanonicalFlowKey(p, x, y)), y, x)
  {
    FlowKeyExactly(p, x, y, p, y, x);
    FlowKeyRoundTrip(p, x, y);
    PrivateText(x.ip);
    PrivateText(y.ip);
    LessAsymmetric(EndText(x), EndText(y));
  }
}
