/** The bridge's own answer to an ICMP echo request for its TUN address, and the guard that
    decides which TUN packets may cross the bridge. */
module Icmp {
  import opened Bytes
  import opened Checksum

  const MAX_PKT: int := 65535

  predicate IsIpv4Bridgeable(pkt: seq<byte>) {
    && |pkt| >= 20
    && pkt[0] / 16 == 4
    && pkt[0] % 16 >= 5
    && |pkt| >= (pkt[0] % 16) as int * 4
    && (pkt[0] % 16) as int * 4 <= U16(pkt, 2) <= |pkt|
    && U16(pkt, 2) <= MAX_PKT
  }

  /** When the bridge answers: an echo request at fragment offset 0, without IP options, to
      `local4`. A first fragment with more to follow is one too. */
  predicate IsEchoRequest(pkt: seq<byte>, local4: seq<byte>)
    requires |local4| == 4
  {
    && |pkt| >= 28
    && pkt[0] / 16 == 4 && pkt[0] % 16 == 5
    && 28 <= U16(pkt, 2) <= |pkt|
    && U16(pkt, 6) % 0x2000 == 0
    && pkt[9] == 1
    && pkt[16..20] == local4
    && pkt[20] == 8 && pkt[21] == 0
  }

  /** The ICMP message with checksum word `c`; `fill` stands in bytes 4 to 7, which the
      source never writes. */
  function Message(c: int, fill: seq<byte>, body: seq<byte>): (m: seq<byte>)
    requires 0 <= c <= 0xffff
  {
    [0, 0] + (PutU16(c) + (fill + body))
  }

  function Header(c: int, total: int, id: int, src: seq<byte>, dst: seq<byte>): (h: seq<byte>)
    requires 0 <= c <= 0xffff && 0 <= total <= 0xffff && 0 <= id <= 0xffff
  {
    [0x45, 0] + PutU16(total) + PutU16(id) + [0, 0, 64, 1] + (PutU16(c) + (src + dst))
  }

  function Reply(pkt: seq<byte>, id: int, fill: seq<byte>): (r: seq<byte>)
    requires |pkt| >= 28 && 28 <= U16(pkt, 2) <= |pkt|
    requires |fill| == 4 && 0 <= id <= 0xffff
  {
    var body := pkt[28..U16(pkt, 2)];
    var h0 := Header(0, U16(pkt, 2), id, pkt[16..20], pkt[12..16]);
    Header(JsChecksum(h0), U16(pkt, 2), id, pkt[16..20], pkt[12..16])
      + Message(JsChecksum(Message(0, fill, body)), fill, body)
  }

  /** Builds the answer in two uninitialised buffers, as the source does. Which four
      octets the answer carries in place of identifier and sequence number is left open. */
  method TryBuildTunIcmpEchoReplyForLocalIp(pkt: seq<byte>, local4: seq<byte>, id: int) returns (r: Option<seq<byte>>)
    requires |local4| == 4 && 0 <= id
    ensures r.Some? <==> IsEchoRequest(pkt, local4)
    ensures r.Some? ==> |r.value| >= 28 && r.value == Reply(pkt, id % 0x1_0000, r.value[24..28])
  {
    if |pkt| < 28 { return None; }
    if pkt[0] / 16 != 4 { return None; }
    if pkt[0] % 16 != 5 { return None; }
    var totalLen := U16(pkt, 2);
    if totalLen < 28 || totalLen > |pkt| { return None; }
    if U16(pkt, 6) % 0x2000 != 0 { return None; }
    if pkt[9] != 1 { return None; }
    assert pkt[16..20] == [pkt[16], pkt[17], pkt[18], pkt[19]];
    if pkt[16] != local4[0] || pkt[17] != local4[1] || pkt[18] != local4[2] || pkt[19] != local4[3] {
      return None;
    }
    if pkt[20] != 8 || pkt[21] != 0 { return None; }
    var icmpPacket := BuildMessage(pkt[28..totalLen]);
    var ipHeader := BuildHeader(pkt[16..20], pkt[12..16], totalLen, id % 0x1_0000);
    r := Some(ipHeader + icmpPacket);
    assert r.value[24..28] == icmpPacket[4..8];
  }

  method BuildMessage(body: seq<byte>) returns (m: seq<byte>)
    ensures |m| == 8 + |body|
    ensures m == Message(JsChecksum(Message(0, m[4..8], body)), m[4..8], body)
  {
    var b := UnsummedMessage(body);
    ghost var fill := b[4..8];
    var c := InternetChecksum16(b[..], 0, b.Length);
    assert b[..][0..b.Length] == b[..];
    b[2], b[3] := (c / 256) as byte, (c % 256) as byte;
    MessageFilled(c, fill, body);
    m := b[..];
    assert m[4..8] == fill;
  }

  method UnsummedMessage(body: seq<byte>) returns (b: array<byte>)
    ensures fresh(b) && b.Length == 8 + |body| && b[..] == Message(0, b[4..8], body)
  {
    b := new byte[8 + |body|];
    CopyInto(b, 8, body);
    b[0], b[1], b[2], b[3] := 0, 0, 0, 0;
    assert b[8..] == body;
    MessageBytes(b[..], 0, b[4..8], body);
  }

  lemma MessageFilled(c: int, fill: seq<byte>, body: seq<byte>)
    requires 0 <= c <= 0xffff && |fill| == 4
    ensures Message(0, fill, body)[2 := (c / 256) as byte][3 := (c % 256) as byte] == Message(c, fill, body)
  {}

  lemma MessageBytes(s: seq<byte>, c: int, fill: seq<byte>, body: seq<byte>)
    requires 0 <= c <= 0xffff && |fill| == 4 && |s| == 8 + |body|
    requires s[0] == 0 && s[1] == 0 && U16(s, 2) == c && s[4..8] == fill && s[8..] == body
    ensures s == Message(c, fill, body)
  {
    var t := Message(c, fill, body);
    assert s[2] == t[2] && s[3] == t[3];
    assert s == s[..4] + s[4..8] + s[8..];
  }

  method BuildHeader(src: seq<byte>, dst: seq<byte>, totalLen: int, id: int) returns (h: seq<byte>)
    requires |src| == |dst| == 4 && 0 <= totalLen <= 0xffff && 0 <= id <= 0xffff
    ensures |h| == 20
    ensures h == Header(JsChecksum(Header(0, totalLen, id, src, dst)), totalLen, id, src, dst)
  {
    var b := UnsummedHeader(src, dst, totalLen, id);
    var c := InternetChecksum16(b[..], 0, 20);
    assert b[..][0..20] == b[..];
    b[10], b[11] := (c / 256) as byte, (c % 256) as byte;
    HeaderFilled(c, totalLen, id, src, dst);
    h := b[..];
  }

  method UnsummedHeader(src: seq<byte>, dst: seq<byte>, totalLen: int, id: int) returns (b: array<byte>)
    requires |src| == |dst| == 4 && 0 <= totalLen <= 0xffff && 0 <= id <= 0xffff
    ensures fresh(b) && b.Length == 20 && b[..] == Header(0, totalLen, id, src, dst)
  {
    b := new byte[20];
    CopyInto(b, 12, src);
    CopyInto(b, 16, dst);
    assert b[12..16] == b[..16][12..] == src;
    b[0], b[1], b[8], b[9] := 0x45, 0, 64, 1;
    b[2], b[3] := (totalLen / 256) as byte, (totalLen % 256) as byte;
    b[4], b[5] := (id / 256) as byte, (id % 256) as byte;
    b[6], b[7], b[10], b[11] := 0, 0, 0, 0;
    HeaderBytes(b[..], 0, totalLen, id, src, dst);
  }

  lemma HeaderFilled(c: int, total: int, id: int, src: seq<byte>, dst: seq<byte>)
    requires 0 <= c <= 0xffff && 0 <= total <= 0xffff && 0 <= id <= 0xffff && |src| == |dst| == 4
    ensures Header(0, total, id, src, dst)[10 := (c / 256) as byte][11 := (c % 256) as byte]
         == Header(c, total, id, src, dst)
  {}

  lemma HeaderBytes(s: seq<byte>, c: int, total: int, id: int, src: seq<byte>, dst: seq<byte>)
    requires 0 <= c <= 0xffff && 0 <= total <= 0xffff && 0 <= id <= 0xffff && |src| == |dst| == 4
    requires |s| == 20 && s[..2] == [0x45, 0] && U16(s, 2) == total && U16(s, 4) == id
    requires s[6..10] == [0, 0, 64, 1] && U16(s, 10) == c && s[12..16] == src && s[16..] == dst
    ensures s == Header(c, total, id, src, dst)
  {
    assert s[2..4] == PutU16(total) && s[4..6] == PutU16(id) && s[10..12] == PutU16(c);
    assert s == s[..2] + s[2..4] + s[4..6] + s[6..10] + (s[10..12] + (s[12..16] + s[16..]));
  }

  // ---- Packets by their fields ----

  /** The fields of an IPv4 header without options (section 3.1 of RFC 791). */
  datatype Ip = Ip(tos: byte, total: u16, id: u16, flags: int, offset: int, ttl: byte, protocol: byte, sum: u16,
                   src: seq<byte>, dst: seq<byte>)

  predicate ValidIp(h: Ip) {
    0 <= h.flags < 8 && 0 <= h.offset < 0x2000 && |h.src| == |h.dst| == 4
  }

  function PrintIp(h: Ip): (b: seq<byte>)
    requires ValidIp(h)
  {
    [0x45, h.tos] + PutU16(h.total as int) + PutU16(h.id as int) + PutU16(h.flags * 0x2000 + h.offset)
    + [h.ttl, h.protocol] + PutU16(h.sum as int) + (h.src + h.dst)
  }

  lemma PrintIpReads(h: Ip, rest: seq<byte>)
    requires ValidIp(h)
    ensures var b := PrintIp(h) + rest;
      && |PrintIp(h)| == 20 && b[0] == 0x45 && U16(b, 2) == h.total as int && U16(b, 6) % 0x2000 == h.offset
      && b[9] == h.protocol && b[16..20] == h.dst && b[20..] == rest
  {
    assert U16(PrintIp(h), 6) == h.flags * 0x2000 + h.offset;
  }

  /** Which packets are answered, by their fields: ICMP of type 8 and code 0 to the local address
      at fragment offset 0, with flags, lifetime, checksums and trailing bytes as they may be. */
  lemma AnsweredExactly(h: Ip, typ: byte, code: byte, rest: seq<byte>, local4: seq<byte>)
    requires ValidIp(h) && |local4| == 4 && |rest| >= 6
    ensures IsEchoRequest(PrintIp(h) + ([typ, code] + rest), local4) <==>
      h.protocol == 1 && h.offset == 0 && h.dst == local4 && typ == 8 && code == 0
      && 28 <= h.total as int <= 22 + |rest|
  {
    PrintIpReads(h, [typ, code] + rest);
    var b := PrintIp(h) + ([typ, code] + rest);
    assert b[20] == typ && b[21] == code;
  }

  /** Which packets may cross: version 4, a header of 5 words or more, and a total length that
      holds the header and is all there. */
  lemma BridgeableExactly(version: int, words: int, tos: byte, total: u16, rest: seq<byte>)
    requires 0 <= version < 16 && 0 <= words < 16
    ensures IsIpv4Bridgeable([(version * 16 + words) as byte, tos] + PutU16(total as int) + rest) <==>
      version == 4 && words >= 5 && 4 * words <= total as int <= 4 + |rest|
  {
    var b := [(version * 16 + words) as byte, tos] + PutU16(total as int) + rest;
    assert b[0] as int / 16 == version && b[0] as int % 16 == words && U16(b, 2) == total as int;
  }

  /** What every answer guarantees, whatever the four unwritten octets hold: the request's
      length and payload, exchanged addresses, two checksums that verify, a packet the
      bridge's own guard accepts, and no answer to the answer. */
  lemma ReplyLaws(pkt: seq<byte>, local4: seq<byte>, id: int, fill: seq<byte>, any4: seq<byte>)
    requires |local4| == 4 && IsEchoRequest(pkt, local4)
    requires |fill| == 4 && |any4| == 4 && 0 <= id <= 0xffff
    ensures var r := Reply(pkt, id, fill);
      && |r| == U16(pkt, 2) == U16(r, 2) && U16(r, 4) == id
      && r[12..16] == local4 && r[16..20] == pkt[12..16]
      && r[24..28] == fill && r[28..] == pkt[28..|r|]
      && r[0] == 0x45 && r[8] == 64 && r[9] == 1 && U16(r, 6) == 0 && r[20] == 0 && r[21] == 0
      && JsChecksum(r[..20]) == 0 && JsChecksum(r[20..]) == 0
      && IsIpv4Bridgeable(r)
      && !IsEchoRequest(r, any4)
  {
    var n := U16(pkt, 2);
    var body := pkt[28..n];
    var src, dst := pkt[16..20], pkt[12..16];
    var h := Header(JsChecksum(Header(0, n, id, src, dst)), n, id, src, dst);
    var m := Message(JsChecksum(Message(0, fill, body)), fill, body);
    HeaderVerifies(n, id, src, dst);
    MessageVerifies(fill, body);
    HeaderLayout(JsChecksum(Header(0, n, id, src, dst)), n, id, src, dst);
    MessageLayout(JsChecksum(Message(0, fill, body)), fill, body);
    Joined(h, m);
    assert Reply(pkt, id, fill) == h + m;
  }

  lemma Joined(h: seq<byte>, m: seq<byte>)
    requires |h| == 20 && |m| >= 8
    ensures var r := h + m;
      && r[..20] == h && r[20..] == m
      && r[0] == h[0] && U16(r, 2) == U16(h, 2) && U16(r, 4) == U16(h, 4) && U16(r, 6) == U16(h, 6)
      && r[8] == h[8] && r[9] == h[9] && r[20] == m[0] && r[21] == m[1]
      && r[12..16] == h[12..16] && r[16..20] == h[16..20]
      && r[24..28] == m[4..8] && r[28..] == m[8..]
  {}

  lemma MessageLayout(c: int, fill: seq<byte>, body: seq<byte>)
    requires 0 <= c <= 0xffff && |fill| == 4
    ensures var m := Message(c, fill, body);
      |m| == 8 + |body| && m[0] == 0 && m[1] == 0 && m[4..8] == fill && m[8..] == body
  {}

  lemma HeaderLayout(c: int, n: int, id: int, src: seq<byte>, dst: seq<byte>)
    requires 0 <= c <= 0xffff && 0 <= n <= 0xffff && 0 <= id <= 0xffff && |src| == |dst| == 4
    ensures var h := Header(c, n, id, src, dst);
      && |h| == 20 && h[0] == 0x45 && U16(h, 2) == n && U16(h, 4) == id && U16(h, 6) == 0 && h[8] == 64 && h[9] == 1
      && h[12..16] == src && h[16..20] == dst
  {}

  lemma HeaderVerifies(n: int, id: int, src: seq<byte>, dst: seq<byte>)
    requires 0 <= n <= 0xffff && 0 <= id <= 0xffff && |src| == |dst| == 4
    ensures JsChecksum(Header(JsChecksum(Header(0, n, id, src, dst)), n, id, src, dst)) == 0
  {
    var a := [0x45, 0] + PutU16(n) + PutU16(id) + [0, 0, 64, 1];
    assert PutU16(0) == [0, 0];
    ChecksumVerifies(a, src + dst);
  }

  lemma MessageVerifies(fill: seq<byte>, body: seq<byte>)
    requires |fill| == 4 && |body| <= 0xffff - 28
    ensures JsChecksum(Message(JsChecksum(Message(0, fill, body)), fill, body)) == 0
  {
    assert PutU16(0) == [0, 0];
    ChecksumVerifies([0, 0], fill + body);
  }

  lemma Rewritten(pkt: seq<byte>, n: nat, a: byte, b: byte)
    requires 28 <= n <= |pkt|
    ensures var q := pkt[20..n][0 := 0][2 := a][3 := b]; q[4..8] == pkt[24..28] && q[8..] == pkt[28..n]
  {
    var q := pkt[20..n][0 := 0][2 := a][3 := b];
    assert forall i | 4 <= i < |q| :: q[i] == pkt[20 + i];
  }

  /** The answer echoes identifier and sequence number (RFC 792, Echo Reply) exactly when
      the four unwritten octets happen to hold them already. */
  lemma EchoesIdentifierExactly(pkt: seq<byte>, local4: seq<byte>, id: int, fill: seq<byte>)
    requires |local4| == 4 && IsEchoRequest(pkt, local4)
    requires |fill| == 4 && 0 <= id <= 0xffff
    ensures Reply(pkt, id, fill)[20..] == pkt[20..U16(pkt, 2)][0 := 0][2 := Reply(pkt, id, fill)[22]][3 := Reply(pkt, id, fill)[23]]
       <==> fill == pkt[24..28]
  {
    ReplyLaws(pkt, local4, id, fill, local4);
    var r := Reply(pkt, id, fill);
    var q := pkt[20..U16(pkt, 2)][0 := 0][2 := r[22]][3 := r[23]];
    Rewritten(pkt, U16(pkt, 2), r[22], r[23]);
    assert r[20..][4..8] == fill && r[20..][8..] == r[28..];
    MessageLayout(JsChecksum(Message(0, fill, pkt[28..U16(pkt, 2)])), fill, pkt[28..U16(pkt, 2)]);
    assert r[20..] == Message(JsChecksum(Message(0, fill, pkt[28..U16(pkt, 2)])), fill, pkt[28..U16(pkt, 2)]);
    if fill == pkt[24..28] {
      assert forall i | 0 <= i < |q| :: r[20..][i] == q[i];
    }
  }
}
