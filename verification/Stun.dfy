/** Binding responses of STUN (RFC 5389): the attribute walk, the XOR-MAPPED-ADDRESS and
    MAPPED-ADDRESS attributes, and the round trip through a specification serialiser. */
module Stun {
  import opened Bytes
  import opened Addresses

  const BINDING_RESPONSE := 0x0101
  const ATTR_XOR_MAPPED_ADDRESS := 0x0020
  const ATTR_MAPPED_ADDRESS := 0x0001
  const MAGIC: seq<byte> := [0x21, 0x12, 0xa4, 0x42]
  const MAGIC_16 := 0x2112
  const MAGIC_32 := 0x2112_a442

  datatype Mapped = Mapped(address: string, port: int)

  // ---- Exclusive or on the low bits, as numbers ----

  function Pow2(n: nat): (p: nat)
    ensures p >= 1
  {
    if n == 0 then 1 else 2 * Pow2(n - 1)
  }

  function Half(a: nat): (h: nat) {
    a / 2
  }

  function Low(a: nat): (x: nat)
    ensures x < 2 && a == 2 * Half(a) + x
  {
    a % 2
  }

  lemma HalfLow(a: nat, h: nat, x: nat)
    requires x < 2 && a == 2 * h + x
    ensures Half(a) == h && Low(a) == x
  {}

  /** Exclusive or of two bits. */
  function XorBit(x: nat, y: nat): (z: nat)
    ensures z < 2
  {
    if x == y then 0 else 1
  }

  function Xor(a: nat, b: nat, bits: nat): (x: nat)
    ensures x < Pow2(bits)
  {
    if bits == 0 then 0 else 2 * Xor(Half(a), Half(b), bits - 1) + XorBit(Low(a), Low(b))
  }

  lemma XorParts(a: nat, b: nat, bits: nat)
    requires bits > 0
    ensures Half(Xor(a, b, bits)) == Xor(Half(a), Half(b), bits - 1) && Low(Xor(a, b, bits)) == XorBit(Low(a), Low(b))
  {
    HalfLow(Xor(a, b, bits), Xor(Half(a), Half(b), bits - 1), XorBit(Low(a), Low(b)));
  }

  lemma {:induction false} XorTwice(a: nat, b: nat, bits: nat)
    requires a < Pow2(bits)
    ensures Xor(Xor(a, b, bits), b, bits) == a
    decreases bits
  {
    if bits > 0 {
      XorParts(a, b, bits);
      XorTwice(Half(a), Half(b), bits - 1);
      LowTwice(a, b);
    }
  }

  lemma LowTwice(a: nat, b: nat)
    ensures XorBit(XorBit(Low(a), Low(b)), Low(b)) == Low(a) && a == 2 * Half(a) + Low(a)
  {}

  function Bit(a: nat, k: nat): (x: nat) {
    if k == 0 then Low(a) else Bit(Half(a), k - 1)
  }

  /** `Xor` is exclusive or, bit by bit. */
  lemma {:induction false} XorBitwise(a: nat, b: nat, bits: nat, k: nat)
    requires k < bits
    ensures Bit(Xor(a, b, bits), k) == XorBit(Bit(a, k), Bit(b, k))
    decreases bits
  {
    XorParts(a, b, bits);
    if k > 0 { XorBitwise(Half(a), Half(b), bits - 1, k - 1); }
  }

  lemma Powers()
    ensures Pow2(16) == 0x1_0000 && Pow2(32) == 0x1_0000_0000
  {
    assert Pow2(8) == 256;
    assert Pow2(16) == 0x1_0000;
    assert Pow2(24) == 0x100_0000;
  }

  // ---- Addresses ----

  function Word(ip: Ipv4): (w: nat)
    ensures w < 0x1_0000_0000
  {
    ((ip.a as nat * 256 + ip.b as nat) * 256 + ip.c as nat) * 256 + ip.d as nat
  }

  /** The octets of a 32-bit word, as `>>> k & 255` gives them. */
  function Octets(w: nat): (ip: Ipv4)
    requires w < 0x1_0000_0000
  {
    Ipv4((w / 0x100_0000) as byte, (w / 0x1_0000 % 256) as byte, (w / 256 % 256) as byte, (w % 256) as byte)
  }

  lemma OctetsOfWord(ip: Ipv4)
    ensures Octets(Word(ip)) == ip
  {
    var w, x, y := Word(ip), (ip.a as nat * 256 + ip.b as nat) * 256 + ip.c as nat, ip.a as nat * 256 + ip.b as nat;
    assert w == x * 256 + ip.d as nat && x == y * 256 + ip.c as nat;
    assert w / 256 == x && w % 256 == ip.d as nat;
    assert x / 256 == y && x % 256 == ip.c as nat;
    assert w / 0x1_0000 == y;
    assert w / 0x100_0000 == ip.a as nat;
  }

  // ---- The parser ----

  function Pad(len: nat): (p: nat)
    ensures p < 4
  {
    (4 - len % 4) % 4
  }

  predicate IsResponse(msg: seq<byte>, tid: seq<byte>) {
    |msg| >= 20 && U16(msg, 0) == BINDING_RESPONSE && msg[4..8] == MAGIC && msg[8..20] == tid
  }

  /** Where the value of the first attribute of a type, of eight bytes or more, begins. */
  function FirstAttr(msg: seq<byte>, o: nat, typ: int): (v: Option<nat>)
    ensures v.Some? ==> o + 4 <= v.value && v.value + 8 <= |msg|
    decreases |msg| - o
  {
    if o + 4 > |msg| || o + 4 + U16(msg, o + 2) > |msg| then None
    else
      var len := U16(msg, o + 2);
      if U16(msg, o) == typ && len >= 8 then Some(o + 4) else FirstAttr(msg, o + 4 + len + Pad(len), typ)
  }

  /** The signed result of `^` is read through `>>>` and `& 255` only, so it is kept as an
      unsigned word. */
  function XorMapped(msg: seq<byte>, v: nat): (r: Option<Mapped>)
    requires v + 8 <= |msg|
  {
    if msg[v + 1] != 1 then None
    else
      Powers();
      Some(Mapped(Dotted(Octets(Xor(U32(msg, v + 4), MAGIC_32, 32))), Xor(U16(msg, v + 2), MAGIC_16, 16)))
  }

  function PlainMapped(msg: seq<byte>, v: nat): (r: Option<Mapped>)
    requires v + 8 <= |msg|
  {
    if msg[v + 1] != 1 then None
    else Some(Mapped(Dotted(Ipv4(msg[v + 4], msg[v + 5], msg[v + 6], msg[v + 7])), U16(msg, v + 2)))
  }

  function XorSpec(msg: seq<byte>, tid: seq<byte>): (r: Option<Mapped>) {
    if !IsResponse(msg, tid) then None
    else match FirstAttr(msg, 20, ATTR_XOR_MAPPED_ADDRESS)
      case None => None
      case Some(v) => XorMapped(msg, v)
  }

  function MappedSpec(msg: seq<byte>, tid: seq<byte>): (r: Option<Mapped>) {
    if XorSpec(msg, tid).Some? then XorSpec(msg, tid)
    else if !IsResponse(msg, tid) then None
    else match FirstAttr(msg, 20, ATTR_MAPPED_ADDRESS)
      case None => None
      case Some(v) => PlainMapped(msg, v)
  }

  /** The walk both parsers make: attribute by attribute, values padded to four bytes. */
  method WalkTo(msg: seq<byte>, typ: int) returns (v: Option<nat>)
    requires |msg| >= 20
    ensures v == FirstAttr(msg, 20, typ)
  {
    var o := 20;
    while o + 4 <= |msg|
      invariant 20 <= o && FirstAttr(msg, o, typ) == FirstAttr(msg, 20, typ)
    {
      var attrType, attrLen := U16(msg, o), U16(msg, o + 2);
      o := o + 4;
      if o + attrLen > |msg| { break; }
      if attrType == typ && attrLen >= 8 { return Some(o); }
      o := o + attrLen + Pad(attrLen);
    }
    return None;
  }

  method ParseStunXorMappedAddress(msg: seq<byte>, tid: seq<byte>) returns (r: Option<Mapped>)
    ensures r == XorSpec(msg, tid)
  {
    if |msg| < 20 || U16(msg, 0) != BINDING_RESPONSE || msg[4..8] != MAGIC || msg[8..20] != tid { return None; }
    var v := WalkTo(msg, ATTR_XOR_MAPPED_ADDRESS);
    if v.None? || msg[v.value + 1] != 1 { return None; }
    Powers();
    var portXor := Xor(U16(msg, v.value + 2), MAGIC_16, 16);
    var addrXor := Xor(U32(msg, v.value + 4), MAGIC_32, 32);
    return Some(Mapped(Dotted(Octets(addrXor)), portXor));
  }

  method ParseStunMappedFromResponse(msg: seq<byte>, tid: seq<byte>) returns (r: Option<Mapped>)
    ensures r == MappedSpec(msg, tid)
  {
    r := ParseStunXorMappedAddress(msg, tid);
    if r.Some? { return; }
    if |msg| < 20 || U16(msg, 0) != BINDING_RESPONSE || msg[4..8] != MAGIC || msg[8..20] != tid { return None; }
    var w := WalkTo(msg, ATTR_MAPPED_ADDRESS);
    if w.None? || msg[w.value + 1] != 1 { return None; }
    var v := w.value;
    return Some(Mapped(Dotted(Ipv4(msg[v + 4], msg[v + 5], msg[v + 6], msg[v + 7])), U16(msg, v + 2)));
  }

  // ---- The serialiser ----

  /** An attribute with the padding that follows its value (section 15 of RFC 5389). */
  datatype Attr = Attr(typ: int, value: seq<byte>, padding: seq<byte>)

  predicate Fits(a: Attr) {
    0 <= a.typ < 0x1_0000 && |a.value| < 0x1_0000 && |a.padding| == Pad(|a.value|)
  }

  function PrintAttr(a: Attr): (b: seq<byte>) {
    Field(a.typ) + (Field(|a.value|) + (a.value + a.padding))
  }

  function PrintAttrs(attrs: seq<Attr>): (b: seq<byte>)
    decreases |attrs|
  {
    if attrs == [] then [] else PrintAttr(attrs[0]) + PrintAttrs(attrs[1..])
  }

  function Print(tid: seq<byte>, attrs: seq<Attr>): (b: seq<byte>) {
    Field(BINDING_RESPONSE) + (Field(|PrintAttrs(attrs)|) + (MAGIC + (tid + PrintAttrs(attrs))))
  }

  /** The first attribute of a type, of eight bytes or more. */
  function Find(attrs: seq<Attr>, typ: int): (a: Option<Attr>)
    ensures a.Some? ==> a.value.typ == typ && |a.value.value| >= 8
    decreases |attrs|
  {
    if attrs == [] then None
    else if attrs[0].typ == typ && |attrs[0].value| >= 8 then Some(attrs[0])
    else Find(attrs[1..], typ)
  }

  lemma AttrHead(b: seq<byte>, o: nat, a: Attr, rest: seq<byte>)
    requires Fits(a) && At(b, o, PrintAttr(a) + rest)
    ensures U16(b, o) == a.typ && U16(b, o + 2) == |a.value| && At(b, o + 4, a.value)
    ensures At(b, o + 4 + |a.value| + Pad(|a.value|), rest) && |PrintAttr(a)| == 4 + |a.value| + Pad(|a.value|)
  {
    AtSplit(b, o, PrintAttr(a), rest);
    AtSplit(b, o, Field(a.typ), Field(|a.value|) + (a.value + a.padding));
    AtSplit(b, o + 2, Field(|a.value|), a.value + a.padding);
    AtSplit(b, o + 4, a.value, a.padding);
    AtU16(b, o, a.typ);
    AtU16(b, o + 2, |a.value|);
  }

  /** The walk at one attribute. */
  lemma WalkStep(b: seq<byte>, o: nat, a: Attr, typ: int)
    requires o + 4 + |a.value| <= |b| && U16(b, o) == a.typ && U16(b, o + 2) == |a.value|
    ensures FirstAttr(b, o, typ)
         == if a.typ == typ && |a.value| >= 8 then Some(o + 4) else FirstAttr(b, o + 4 + |a.value| + Pad(|a.value|), typ)
  {}

  predicate AllFit(attrs: seq<Attr>)
    decreases |attrs|
  {
    attrs == [] || (Fits(attrs[0]) && AllFit(attrs[1..]))
  }

  /** The walk stopped at this attribute's value, or at none. */
  predicate Found(b: seq<byte>, v: Option<nat>, a: Option<Attr>) {
    (v.Some? <==> a.Some?) && (a.Some? ==> At(b, v.value, a.value.value))
  }

  /** The walk over printed attributes finds what the list holds. */
  lemma {:induction false} WalkFinds(b: seq<byte>, o: nat, attrs: seq<Attr>, typ: int)
    requires AllFit(attrs) && At(b, o, PrintAttrs(attrs)) && o + |PrintAttrs(attrs)| == |b|
    ensures Found(b, FirstAttr(b, o, typ), Find(attrs, typ))
    decreases |attrs|
  {
    if attrs != [] {
      var a := attrs[0];
      AttrHead(b, o, a, PrintAttrs(attrs[1..]));
      WalkStep(b, o, a, typ);
      if !(a.typ == typ && |a.value| >= 8) {
        WalkFinds(b, o + 4 + |a.value| + Pad(|a.value|), attrs[1..], typ);
      }
    }
  }

  lemma {:induction false} HeaderBack(tid: seq<byte>, attrs: seq<Attr>)
    requires |tid| == 12
    ensures var b := Print(tid, attrs);
      IsResponse(b, tid) && At(b, 20, PrintAttrs(attrs)) && |b| == 20 + |PrintAttrs(attrs)|
  {
    var b, body := Print(tid, attrs), PrintAttrs(attrs);
    AtAll(b);
    AtSplit(b, 0, Field(BINDING_RESPONSE), Field(|body|) + (MAGIC + (tid + body)));
    AtSplit(b, 2, Field(|body|), MAGIC + (tid + body));
    AtSplit(b, 4, MAGIC, tid + body);
    AtSplit(b, 8, tid, body);
    AtU16(b, 0, BINDING_RESPONSE);
  }

  // ---- Round trips ----

  /** The value of an address attribute: a reserved octet, the family, port and address. */
  function PlainValue(ip: Ipv4, port: int): (v: seq<byte>) {
    [0, 1] + (Field(port) + [ip.a, ip.b, ip.c, ip.d])
  }

  function XorValue(ip: Ipv4, port: nat): (v: seq<byte>)
  {
    Powers();
    PlainValue(Octets(Xor(Word(ip), MAGIC_32, 32)), Xor(port, MAGIC_16, 16))
  }

  lemma PlainBack(msg: seq<byte>, v: nat, ip: Ipv4, port: int)
    requires 0 <= port < 0x1_0000 && At(msg, v, PlainValue(ip, port))
    ensures v + 8 <= |msg| && msg[v + 1] == 1 && U16(msg, v + 2) == port
    ensures Ipv4(msg[v + 4], msg[v + 5], msg[v + 6], msg[v + 7]) == ip && U32(msg, v + 4) == Word(ip)
  {
    AtSplit(msg, v, [0, 1], Field(port) + [ip.a, ip.b, ip.c, ip.d]);
    AtElement(msg, v, [0, 1], 1);
    AtSplit(msg, v + 2, Field(port), [ip.a, ip.b, ip.c, ip.d]);
    AtU16(msg, v + 2, port);
    var q := [ip.a, ip.b, ip.c, ip.d];
    AtElement(msg, v + 4, q, 0);
    AtElement(msg, v + 4, q, 1);
    AtElement(msg, v + 4, q, 2);
    AtElement(msg, v + 4, q, 3);
  }

  lemma WordOfOctets(w: nat)
    requires w < 0x1_0000_0000
    ensures Word(Octets(w)) == w
  {
    assert w / 0x1_0000 == (w / 256) / 256 && w / 0x100_0000 == ((w / 256) / 256) / 256;
  }

  lemma XorBack(msg: seq<byte>, v: nat, ip: Ipv4, port: int)
    requires 0 <= port < 0x1_0000 && At(msg, v, XorValue(ip, port))
    ensures v + 8 <= |msg| && XorMapped(msg, v) == Some(Mapped(Dotted(ip), port))
  {
    Powers();
    var x, p := Xor(Word(ip), MAGIC_32, 32), Xor(port, MAGIC_16, 16);
    PlainBack(msg, v, Octets(x), p);
    WordOfOctets(x);
    XorTwice(Word(ip), MAGIC_32, 32);
    XorTwice(port, MAGIC_16, 16);
    OctetsOfWord(ip);
  }

  /** A response whose first XOR-MAPPED-ADDRESS carries an address and port, whatever
      well-formed attributes stand before and after it, parses to that address and port. */
  lemma {:induction false} XorRoundTrip(tid: seq<byte>, attrs: seq<Attr>, ip: Ipv4, port: int)
    requires |tid| == 12 && AllFit(attrs) && 0 <= port < 0x1_0000
    requires var a := Find(attrs, ATTR_XOR_MAPPED_ADDRESS);
      a.Some? && a.value.value == XorValue(ip, port)
    ensures MappedSpec(Print(tid, attrs), tid) == Some(Mapped(Dotted(ip), port))
  {
    var b := Print(tid, attrs);
    HeaderBack(tid, attrs);
    WalkFinds(b, 20, attrs, ATTR_XOR_MAPPED_ADDRESS);
    XorBack(b, FirstAttr(b, 20, ATTR_XOR_MAPPED_ADDRESS).value, ip, port);
  }

  /** Without one, or with one of another family, the first MAPPED-ADDRESS decides. */
  lemma {:induction false} MappedRoundTrip(tid: seq<byte>, attrs: seq<Attr>, ip: Ipv4, port: int)
    requires |tid| == 12 && AllFit(attrs) && 0 <= port < 0x1_0000
    requires var x := Find(attrs, ATTR_XOR_MAPPED_ADDRESS);
      x.None? || x.value.value[1] != 1
    requires var a := Find(attrs, ATTR_MAPPED_ADDRESS);
      a.Some? && a.value.value == PlainValue(ip, port)
    ensures MappedSpec(Print(tid, attrs), tid) == Some(Mapped(Dotted(ip), port))
  {
    var b := Print(tid, attrs);
    HeaderBack(tid, attrs);
    WalkFinds(b, 20, attrs, ATTR_XOR_MAPPED_ADDRESS);
    var x := Find(attrs, ATTR_XOR_MAPPED_ADDRESS);
    if x.Some? {
      OtherFamily(b, FirstAttr(b, 20, ATTR_XOR_MAPPED_ADDRESS).value, x.value.value);
    }
    assert XorSpec(b, tid) == None;
    WalkFinds(b, 20, attrs, ATTR_MAPPED_ADDRESS);
    PlainHere(b, FirstAttr(b, 20, ATTR_MAPPED_ADDRESS).value, ip, port);
  }

  lemma OtherFamily(msg: seq<byte>, v: nat, value: seq<byte>)
    requires At(msg, v, value) && |value| >= 8 && value[1] != 1
    ensures XorMapped(msg, v) == None
  {
    AtElement(msg, v, value, 1);
  }

  lemma PlainHere(msg: seq<byte>, v: nat, ip: Ipv4, port: int)
    requires 0 <= port < 0x1_0000 && At(msg, v, PlainValue(ip, port))
    ensures v + 8 <= |msg| && PlainMapped(msg, v) == Some(Mapped(Dotted(ip), port))
  {
    PlainBack(msg, v, ip, port);
  }

  /** The words both parsers combine with are the first two and all four octets of the magic
      cookie (section 15.2 of RFC 5389). */
  lemma MagicWords()
    ensures MAGIC_16 == U16(MAGIC, 0) && MAGIC_32 == U32(MAGIC, 0)
  {}

  const HEAD: seq<byte> := [0x01, 0x01, 0x00, 0x0c, 0x21, 0x12, 0xa4, 0x42]

  /** Responses with one address attribute, octet by octet: the numbers of sections 6 and 15 of
      RFC 5389. */
  lemma XorOctets(tid: seq<byte>, ip: Ipv4, port: nat)
    requires |tid| == 12 && port < 0x1_0000
    ensures MappedSpec(HEAD + tid + [0x00, 0x20, 0x00, 0x08] + XorValue(ip, port), tid) == Some(Mapped(Dotted(ip), port))
  {
    var x := Attr(0x0020, XorValue(ip, port), []);
    ValueLength(ip, port);
    OneAttribute(tid, x);
    assert AllFit([x]) && Find([x], ATTR_XOR_MAPPED_ADDRESS) == Some(x);
    XorRoundTrip(tid, [x], ip, port);
  }

  lemma PlainOctets(tid: seq<byte>, ip: Ipv4, port: nat)
    requires |tid| == 12 && port < 0x1_0000
    ensures MappedSpec(HEAD + tid + [0x00, 0x01, 0x00, 0x08] + PlainValue(ip, port), tid) == Some(Mapped(Dotted(ip), port))
  {
    var p := Attr(0x0001, PlainValue(ip, port), []);
    OneAttribute(tid, p);
    assert AllFit([p]) && Find([p], ATTR_MAPPED_ADDRESS) == Some(p);
    assert Find([p], ATTR_XOR_MAPPED_ADDRESS) == None by {
      assert [p][1..] == [];
    }
    MappedRoundTrip(tid, [p], ip, port);
  }

  lemma ValueLength(ip: Ipv4, port: nat)
    requires port < 0x1_0000
    ensures |XorValue(ip, port)| == 8
  {
    Powers();
  }

  lemma OneAttribute(tid: seq<byte>, attr: Attr)
    requires 0 <= attr.typ < 256 && |attr.value| == 8 && attr.padding == []
    ensures Print(tid, [attr])
         == HEAD + tid + [0x00, attr.typ as byte, 0x00, 0x08] + attr.value
  {
    assert [attr][1..] == [];
    assert PrintAttrs([attr]) == PrintAttr(attr) + PrintAttrs([]);
    assert PrintAttr(attr) == [0x00, attr.typ as byte] + ([0x00, 0x08] + (attr.value + []));
    assert Field(BINDING_RESPONSE) == [0x01, 0x01] && Field(12) == [0x00, 0x0c];
  }

  /** A response for another transaction is refused. */
  lemma OtherTransaction(tid: seq<byte>, other: seq<byte>, attrs: seq<Attr>)
    requires |tid| == 12 && other != tid
    ensures MappedSpec(Print(tid, attrs), other) == None
  {
    HeaderBack(tid, attrs);
  }
}
