/** The frame stream: a 32-bit big-endian length before every packet.

    `Parse` is the flat-sequence specification that both receivers are measured
    against: the queue of chunks in scripts/clean-vpn.js and the in-place array in
    helpers/tun-helper-linux.c. */
module Framing {
  import opened Bytes

  type Packet = seq<byte>

  const MAX_PKT: int := 65535
  const MERGE_AFTER: int := 24

  /** What a receiver owes after consuming a stream: the packets, the bytes not yet
      consumed, and whether those bytes start with a length outside the limits. */
  datatype Parsed = Parsed(packets: seq<Packet>, rest: seq<byte>, bad: bool)

  /** Packet lengths a receiver accepts. */
  datatype Limits = Limits(lo: nat, hi: nat)

  const BridgeLimits := Limits(1, MAX_PKT)

  predicate GoodLength(lim: Limits, n: int) {
    lim.lo <= n <= lim.hi
  }

  function Parse(lim: Limits, s: seq<byte>): (p: Parsed) {
    if |s| < 4 then
      Parsed([], s, false)
    else if !GoodLength(lim, U32(s, 0)) then
      Parsed([], s, true)
    else if |s| < 4 + U32(s, 0) then
      Parsed([], s, false)
    else
      var n := 4 + U32(s, 0);
      Prepend([s[4..n]], Parse(lim, s[n..]))
  }

  function Prepend(pkts: seq<Packet>, p: Parsed): Parsed {
    Parsed(pkts + p.packets, p.rest, p.bad)
  }

  /** `writeUInt32BE` throws on a length over 32 bits, so nothing is framed then. */
  function Encode(pkt: Packet): (f: seq<byte>) {
    if |pkt| < 0x1_0000_0000 then PutU32(|pkt|) + pkt else []
  }

  function EncodeAll(pkts: seq<Packet>): (s: seq<byte>) {
    Flatten(Frames(pkts))
  }

  function Frames(pkts: seq<Packet>): (fs: seq<seq<byte>>) {
    seq(|pkts|, i requires 0 <= i < |pkts| => Encode(pkts[i]))
  }

  predicate Sendable(lim: Limits, pkts: seq<Packet>) {
    lim.hi < 0x1_0000_0000 && forall i | 0 <= i < |pkts| :: GoodLength(lim, |pkts[i]|)
  }

  // ---- Laws of the specification ----

  lemma EncodeAllAppend(a: seq<Packet>, b: seq<Packet>)
    ensures EncodeAll(a + b) == EncodeAll(a) + EncodeAll(b)
  {
    assert Frames(a + b) == Frames(a) + Frames(b);
    FlattenAppend(Frames(a), Frames(b));
  }

  lemma EncodeAllSnoc(a: seq<Packet>, p: Packet)
    ensures EncodeAll(a + [p]) == EncodeAll(a) + Encode(p)
  {
    assert Frames(a + [p]) == Frames(a) + [Encode(p)];
    FlattenSnoc(Frames(a), Encode(p));
  }

  lemma EncodeAllHead(pkts: seq<Packet>, s: seq<byte>)
    requires pkts != []
    ensures pkts == [pkts[0]] + pkts[1..]
    ensures EncodeAll(pkts) + s == Encode(pkts[0]) + (EncodeAll(pkts[1..]) + s)
  {
    assert Frames(pkts)[1..] == Frames(pkts[1..]);
  }

  lemma PrependAssoc(a: seq<Packet>, b: seq<Packet>, p: Parsed)
    ensures Prepend(a, Prepend(b, p)) == Prepend(a + b, p)
  {
    assert a + (b + p.packets) == (a + b) + p.packets;
  }

  lemma PrependNone(p: Parsed)
    ensures Prepend([], p) == p
  {
    assert [] + p.packets == p.packets;
  }

  /** The step of both receive loops: one complete frame moves from the buffer to the output. */
  lemma {:induction false} FrameTaken(
      lim: Limits, s: seq<byte>, taken: seq<Packet>, buf: seq<byte>, pkt: Packet, rest: seq<byte>)
    requires Parse(lim, s) == Prepend(taken, Parse(lim, buf))
    requires |buf| >= 4 && GoodLength(lim, U32(buf, 0)) && |buf| >= 4 + U32(buf, 0)
    requires pkt == buf[4..4 + U32(buf, 0)] && rest == buf[4 + U32(buf, 0)..]
    ensures Parse(lim, s) == Prepend(taken + [pkt], Parse(lim, rest))
  {
    PrependAssoc(taken, [pkt], Parse(lim, rest));
  }

  /** One frame at the head of a stream is one packet. */
  lemma {:induction false} ParseFrame(lim: Limits, p: Packet, s: seq<byte>)
    requires lim.hi < 0x1_0000_0000 && GoodLength(lim, |p|)
    ensures Parse(lim, Encode(p) + s) == Prepend([p], Parse(lim, s))
  {
    var f := Encode(p) + s;
    var h := PutU32(|p|);
    assert forall i | 0 <= i < 4 :: f[i] == h[i];
    assert U32(f, 0) == |p|;
    assert f[4..4 + |p|] == p;
    assert f[4 + |p|..] == s;
  }

  /** Round trip: a stream that starts with the frames of `pkts` yields `pkts` first. */
  lemma {:induction false} ParseEncoded(lim: Limits, pkts: seq<Packet>, s: seq<byte>)
    requires Sendable(lim, pkts)
    ensures Parse(lim, EncodeAll(pkts) + s) == Prepend(pkts, Parse(lim, s))
    decreases |pkts|
  {
    if pkts == [] {
      assert EncodeAll(pkts) + s == s;
      PrependNone(Parse(lim, s));
    } else {
      EncodeAllHead(pkts, s);
      ParseEncoded(lim, pkts[1..], s);
      ParseFrame(lim, pkts[0], EncodeAll(pkts[1..]) + s);
      PrependAssoc([pkts[0]], pkts[1..], Parse(lim, s));
    }
  }

  /** Nothing is lost or invented: the packets re-encode to the consumed prefix, and
      what is left is stuck, so packets, residue and verdict are the only ones possible. */
  lemma {:induction false} ParseSound(lim: Limits, s: seq<byte>)
    requires lim.hi < 0x1_0000_0000
    ensures var p := Parse(lim, s);
      && Sendable(lim, p.packets)
      && s == EncodeAll(p.packets) + p.rest
      && Parse(lim, p.rest) == Parsed([], p.rest, p.bad)
    decreases |s|
  {
    var p := Parse(lim, s);
    if p.packets == [] {
      assert s == EncodeAll([]) + s;
    } else {
      var n := 4 + U32(s, 0);
      var q := Parse(lim, s[n..]);
      ParseSound(lim, s[n..]);
      FrameBytes(s);
      FrontFrame(s, n, s[4..n], q.packets, q.rest);
    }
  }

  lemma FrontFrame(s: seq<byte>, n: nat, p: Packet, pkts: seq<Packet>, rest: seq<byte>)
    requires n <= |s| && Encode(p) == s[..n] && s[n..] == EncodeAll(pkts) + rest
    ensures s == EncodeAll([p] + pkts) + rest
  {
    EncodeAllHead([p] + pkts, rest);
    assert ([p] + pkts)[1..] == pkts;
    assert s == s[..n] + s[n..];
  }

  lemma FrameBytes(s: seq<byte>)
    requires |s| >= 4 && |s| >= 4 + U32(s, 0)
    ensures Encode(s[4..4 + U32(s, 0)]) == s[..4 + U32(s, 0)]
  {
    var n := U32(s, 0);
    assert |s[4..4 + n]| == n;
    U32Unique(s[..4], PutU32(n));
    assert s[..4 + n] == s[..4] + s[4..4 + n];
  }

  lemma U32Unique(a: seq<byte>, b: seq<byte>)
    requires |a| == |b| == 4 && U32(a, 0) == U32(b, 0)
    ensures a == b
  {
    assert U16(a, 0) == U16(b, 0) && U16(a, 2) == U16(b, 2);
    assert a[0] == b[0] && a[2] == b[2];
  }

  lemma {:induction false} ParseHead(lim: Limits, s: seq<byte>, t: seq<byte>, n: nat)
    requires 4 <= n <= |s| && U32(s, 0) == n - 4 && GoodLength(lim, n - 4)
    ensures Parse(lim, s) == Prepend([s[4..n]], Parse(lim, s[n..]))
    ensures Parse(lim, s + t) == Prepend([s[4..n]], Parse(lim, s[n..] + t))
  {
    assert U32(s + t, 0) == n - 4;
    assert (s + t)[n..] == s[n..] + t;
    assert (s + t)[4..n] == s[4..n];
  }

  /** Chunking is invisible: parsing in two steps is parsing the concatenation. */
  lemma {:induction false} ParseAppend(lim: Limits, s: seq<byte>, t: seq<byte>)
    ensures var p := Parse(lim, s);
      Parse(lim, s + t) == if p.bad then Parsed(p.packets, p.rest + t, true)
                           else Prepend(p.packets, Parse(lim, p.rest + t))
    decreases |s|
  {
    var p := Parse(lim, s);
    if |s| < 4 {
      PrependNone(Parse(lim, s + t));
    } else {
      assert U32(s + t, 0) == U32(s, 0);
      var n := 4 + U32(s, 0);
      if GoodLength(lim, n - 4) && |s| >= n {
        var q := Parse(lim, s[n..]);
        ParseAppend(lim, s[n..], t);
        ParseHead(lim, s, t, n);
        PrependAssoc([s[4..n]], q.packets, Parse(lim, q.rest + t));
      } else {
        PrependNone(Parse(lim, s + t));
      }
    }
  }

  // ---- A receiver run over any chunking ----

  /** The abstract receiver: unread bytes, packets delivered so far, failure flag. */
  datatype Receiver = Receiver(buf: seq<byte>, delivered: seq<Packet>, failed: bool)

  /** One `push`. A bad length empties the buffer and throws; the bridge then destroys
      the socket, so nothing reaches a failed receiver. */
  function Push(lim: Limits, r: Receiver, chunk: seq<byte>): (r': Receiver) {
    if r.failed then r
    else
      var p := Parse(lim, r.buf + chunk);
      Receiver(if p.bad then [] else p.rest, r.delivered + p.packets, p.bad)
  }

  function PushAll(lim: Limits, r: Receiver, chunks: seq<seq<byte>>): (r': Receiver)
    decreases |chunks|
  {
    if chunks == [] then r else PushAll(lim, Push(lim, r, chunks[0]), chunks[1..])
  }

  const Fresh := Receiver([], [], false)

  /** A receiver that has consumed exactly the stream `s`. */
  predicate Consumed(lim: Limits, r: Receiver, s: seq<byte>) {
    var p := Parse(lim, s);
    r.delivered == p.packets && r.failed == p.bad && r.buf == if p.bad then [] else p.rest
  }

  lemma PushConsumes(lim: Limits, r: Receiver, s: seq<byte>, chunk: seq<byte>)
    requires Consumed(lim, r, s)
    ensures Consumed(lim, Push(lim, r, chunk), s + chunk)
  {
    ParseAppend(lim, s, chunk);
  }

  lemma {:induction false} PushConsumesAll(lim: Limits, r: Receiver, s: seq<byte>, chunks: seq<seq<byte>>)
    requires chunks != []
    ensures PushAll(lim, r, chunks) == PushAll(lim, Push(lim, r, chunks[0]), chunks[1..])
    ensures s + Flatten(chunks) == (s + chunks[0]) + Flatten(chunks[1..])
  {}

  /** For every chunking of a stream the delivered packets, the residue and the verdict
      are those of the unchunked stream. */
  lemma {:induction false} ChunkingInvisible(lim: Limits, r: Receiver, s: seq<byte>, chunks: seq<seq<byte>>)
    requires Consumed(lim, r, s)
    ensures Consumed(lim, PushAll(lim, r, chunks), s + Flatten(chunks))
    decreases |chunks|
  {
    if chunks == [] {
      assert s + Flatten(chunks) == s;
    } else {
      var r' := Push(lim, r, chunks[0]);
      PushConsumes(lim, r, s, chunks[0]);
      ChunkingInvisible(lim, r', s + chunks[0], chunks[1..]);
      PushConsumesAll(lim, r, s, chunks);
    }
  }

  /** Reading part of an encoded stream delivers a prefix of the packets and never fails. */
  lemma {:induction false} PrefixOfEncoded(lim: Limits, pkts: seq<Packet>, s: seq<byte>)
    requires Sendable(lim, pkts) && s <= EncodeAll(pkts)
    ensures var p := Parse(lim, s);
      !p.bad && p.packets <= pkts && (s == EncodeAll(pkts) ==> p.packets == pkts && p.rest == [])
  {
    var all := EncodeAll(pkts);
    var t := all[|s|..];
    assert s + t == all;
    ParseAppend(lim, s, t);
    ParseEncoded(lim, pkts, []);
    assert all + [] == all;
    assert pkts + [] == pkts;
    if s == all {
      assert t == [];
    }
  }
}
