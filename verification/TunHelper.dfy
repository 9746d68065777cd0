/** The Linux TUN helper's stdin loop: the same framing as the bridge, decoded in place in
    a 3200-byte array with `memmove`. */
module TunHelper {
  import opened Bytes
  import opened Framing

  const MTU: int := 1500
  const BUFFER_SIZE: int := MTU + 100
  const CAPACITY: int := BUFFER_SIZE * 2

  /** The helper takes empty packets and refuses anything over its MTU and 100 bytes. */
  const HelperLimits := Limits(0, MTU + 100)

  /** The header as the C `int` it is assembled in: two's complement, 32 bits wide. */
  function Signed32(u: int): (r: int)
    requires 0 <= u < 0x1_0000_0000
    ensures (r > MTU + 100 || r < 0) <==> !GoodLength(HelperLimits, u)
  {
    if u < 0x8000_0000 then u else u - 0x1_0000_0000
  }

  /** What is left of a good stream is at most one incomplete frame. */
  lemma {:induction false} ResidueShort(s: seq<byte>)
    requires !Parse(HelperLimits, s).bad
    ensures |Parse(HelperLimits, s).rest| <= 1603
  {
    ParseSound(HelperLimits, s);
  }

  class StdinBuffer {
    const data: array<byte>
    var len: nat

    ghost predicate Valid()
      reads this, data
    {
      data.Length == CAPACITY && len <= CAPACITY
    }

    ghost function Contents(): (s: seq<byte>)
      reads this, data
      requires Valid()
    {
      data[..len]
    }

    constructor ()
      ensures Valid() && Contents() == [] && fresh(data)
    {
      data := new byte[CAPACITY];
      len := 0;
    }

    /** One `read` of at most the free space, then the frame loop. The residue leaves room
        for at least 1597 bytes, so the next `read` never asks for zero bytes and its zero
        result always means end of file. */
    method Feed(input: seq<byte>) returns (frames: seq<Packet>, bad: bool)
      requires Valid() && |input| <= CAPACITY - len
      modifies this, data
      ensures Valid() && CAPACITY - len >= 1597
      ensures var p := Parse(HelperLimits, old(Contents()) + input);
        frames == p.packets && bad == p.bad && Contents() == if p.bad then [] else p.rest
    {
      CopyInto(data, len, input);
      len := len + |input|;
      ghost var stream := old(Contents()) + input;
      assert Contents() == stream;
      frames, bad := [], false;
      PrependNone(Parse(HelperLimits, stream));
      while len >= 4
        invariant Valid()
        invariant Parse(HelperLimits, stream) == Prepend(frames, Parse(HelperLimits, Contents()))
        decreases len
      {
        var packetLen := Header();
        if packetLen > MTU + 100 || packetLen < 0 {
          len, bad := 0, true;
          return;
        }
        if len < 4 + packetLen { break; }
        ghost var buf := Contents();
        var pkt := TakeFrame(packetLen);
        FrameTaken(HelperLimits, stream, frames, buf, pkt, Contents());
        frames := frames + [pkt];
      }
      ResidueShort(stream);
    }

    /** The program's loop over the reads of its standard input. */
    method Run(inputs: seq<seq<byte>>) returns (written: seq<Packet>)
      requires Valid() && Contents() == [] && Fits(inputs)
      modifies this, data
      ensures Valid() && Helper(Contents(), written) == After(inputs)
    {
      written := [];
      for i := 0 to |inputs|
        invariant Valid() && Helper(Contents(), written) == After(inputs[..i])
      {
        assert inputs[..i + 1][..i] == inputs[..i];
        var frames, bad := Feed(inputs[i]);
        written := written + frames;
      }
      assert inputs[..|inputs|] == inputs;
    }

    method Header() returns (packetLen: int)
      requires Valid() && len >= 4
      ensures packetLen == Signed32(U32(Contents(), 0))
    {
      assert forall i | 0 <= i < 4 :: Contents()[i] == data[i];
      packetLen := Signed32(U32(data[..4], 0));
    }

    /** Writes out the first frame's packet and closes the gap it leaves. */
    method TakeFrame(packetLen: nat) returns (pkt: Packet)
      requires Valid() && 4 + packetLen <= len
      modifies this, data
      ensures Valid() && len == old(len) - 4 - packetLen
      ensures pkt == old(Contents())[4..4 + packetLen]
      ensures Contents() == old(Contents())[4 + packetLen..]
    {
      pkt := data[4..4 + packetLen];
      assert pkt == Contents()[4..4 + packetLen];
      var remaining := len - 4 - packetLen;
      if remaining > 0 { MoveDown(4 + packetLen, remaining); }
      len := remaining;
    }

    /** `memmove` of `n` bytes from offset `start` to the front, on overlapping ranges. */
    method MoveDown(start: nat, n: nat)
      requires start + n <= data.Length
      modifies data
      ensures data[..n] == old(data[start..start + n])
    {
      for i := 0 to n
        invariant data[..i] == old(data[start..start + i])
        invariant data[i..] == old(data[i..])
      {
        data[i] := data[start + i];
      }
    }
  }

  // ---- The loop over all reads ----

  /** What the helper holds and what it has written to TUN so far. A bad length only
      empties the buffer: the next read starts over. */
  datatype Helper = Helper(buf: seq<byte>, written: seq<Packet>)

  function ReadIn(h: Helper, input: seq<byte>): (h': Helper) {
    var p := Parse(HelperLimits, h.buf + input);
    Helper(if p.bad then [] else p.rest, h.written + p.packets)
  }

  function After(inputs: seq<seq<byte>>): (h: Helper)
    decreases |inputs|
  {
    var n := |inputs|;
    if n == 0 then Helper([], []) else ReadIn(After(inputs[..n - 1]), inputs[n - 1])
  }

  /** The reads, taken as one stream, run into a bad length. */
  predicate Failed(inputs: seq<seq<byte>>) {
    Parse(HelperLimits, Flatten(inputs)).bad
  }

  predicate HoldsFrame(s: seq<byte>) {
    |s| >= 4 && GoodLength(HelperLimits, U32(s, 0)) && |s| >= 4 + U32(s, 0)
  }

  /** Read `j` completes a frame although the stream has failed before it. */
  predicate LateFrame(inputs: seq<seq<byte>>, j: nat)
    requires j < |inputs|
  {
    Failed(inputs[..j]) && HoldsFrame(After(inputs[..j]).buf + inputs[j])
  }

  /** A `read` never returns more than the free space it asks for. */
  ghost predicate Fits(inputs: seq<seq<byte>>) {
    forall j | 0 <= j < |inputs| :: |inputs[j]| <= CAPACITY - |After(inputs[..j]).buf|
  }

  lemma {:induction false} Snoc(inputs: seq<seq<byte>>)
    requires inputs != []
    ensures var n := |inputs| - 1; Flatten(inputs) == Flatten(inputs[..n]) + inputs[n]
  {
    var n := |inputs| - 1;
    FlattenSnoc(inputs[..n], inputs[n]);
    assert inputs == inputs[..n] + [inputs[n]];
  }

  /** While the stream has no bad length the helper has written exactly its frames, and
      what it holds is the incomplete rest. */
  lemma {:induction false} HelperRun(inputs: seq<seq<byte>>)
    requires !Failed(inputs)
    ensures var p := Parse(HelperLimits, Flatten(inputs)); After(inputs) == Helper(p.rest, p.packets)
    ensures |After(inputs).buf| <= 1603
    ensures Flatten(inputs) == EncodeAll(After(inputs).written) + After(inputs).buf
    decreases |inputs|
  {
    ParseSound(HelperLimits, Flatten(inputs));
    ResidueShort(Flatten(inputs));
    if inputs != [] {
      Snoc(inputs);
      var n := |inputs| - 1;
      ParseAppend(HelperLimits, Flatten(inputs[..n]), inputs[n]);
      HelperRun(inputs[..n]);
    }
  }

  /** One more read: before the failure both outputs grow alike, after it only the
      helper's can grow. */
  lemma {:induction false} OneMore(inputs: seq<seq<byte>>)
    requires inputs != []
    ensures var n := |inputs| - 1;
      var (before, flat) := (After(inputs[..n]), Parse(HelperLimits, Flatten(inputs)).packets);
      if !Failed(inputs[..n]) then After(inputs).written == flat
      else
        && Failed(inputs)
        && flat == Parse(HelperLimits, Flatten(inputs[..n])).packets
        && before.written <= After(inputs).written
        && (After(inputs).written == before.written <==> !HoldsFrame(before.buf + inputs[n]))
  {
    Snoc(inputs);
    var n := |inputs| - 1;
    ParseAppend(HelperLimits, Flatten(inputs[..n]), inputs[n]);
    if !Failed(inputs[..n]) { HelperRun(inputs[..n]); }
  }

  lemma {:induction false} FailedStays(inputs: seq<seq<byte>>, j: nat)
    requires j <= |inputs| && Failed(inputs[..j])
    ensures Failed(inputs)
    decreases |inputs|
  {
    var n := |inputs| - 1;
    if j <= n {
      assert inputs[..n][..j] == inputs[..j];
      FailedStays(inputs[..n], j);
      OneMore(inputs);
    } else {
      assert inputs[..j] == inputs;
    }
  }

  /** Over every run the helper writes the frames of the flat stream first, and nothing
      else exactly if no read completes a frame after the stream has failed. */
  lemma {:induction false} FlatExactly(inputs: seq<seq<byte>>)
    ensures Parse(HelperLimits, Flatten(inputs)).packets <= After(inputs).written
    ensures Parse(HelperLimits, Flatten(inputs)).packets == After(inputs).written
       <==> forall j: nat | j < |inputs| :: !LateFrame(inputs, j)
    decreases |inputs|
  {
    if inputs != [] {
      var n := |inputs| - 1;
      OneMore(inputs);
      LateSnoc(inputs);
      if Failed(inputs[..n]) {
        FlatExactly(inputs[..n]);
      } else {
        forall j: nat | j <= n ensures !LateFrame(inputs, j) {
          if Failed(inputs[..j]) {
            assert inputs[..n][..j] == inputs[..j];
            FailedStays(inputs[..n], j);
          }
        }
      }
    }
  }

  lemma {:induction false} LateSnoc(inputs: seq<seq<byte>>)
    requires inputs != []
    ensures var n := |inputs| - 1;
      (forall j: nat | j <= n :: !LateFrame(inputs, j))
      <==> !LateFrame(inputs, n) && forall j: nat | j < n :: !LateFrame(inputs[..n], j)
  {
    var n := |inputs| - 1;
    forall j: nat | j < n ensures LateFrame(inputs[..n], j) == LateFrame(inputs, j) {
      assert inputs[..n][..j] == inputs[..j];
    }
  }

  /** A read with a bad length is a restart: whatever was held before it, what follows is
      written as by a new helper. */
  lemma {:induction false} Restart(front: seq<seq<byte>>, bad: seq<byte>, rest: seq<seq<byte>>)
    requires Parse(HelperLimits, After(front).buf + bad).bad
    ensures var h := After(front + [bad]);
      After(front + [bad] + rest) == Helper(After(rest).buf, h.written + After(rest).written)
    decreases |rest|
  {
    var h := After(front + [bad]);
    assert (front + [bad])[..|front|] == front;
    if rest == [] {
      assert front + [bad] + rest == front + [bad];
      assert h.written + [] == h.written;
    } else {
      var n := |rest| - 1;
      Restart(front, bad, rest[..n]);
      AfterSnoc(front + [bad], rest);
      Appended(h.written, After(rest[..n]), rest[n]);
    }
  }

  lemma {:induction false} AfterSnoc(front: seq<seq<byte>>, rest: seq<seq<byte>>)
    requires rest != []
    ensures var n := |rest| - 1; After(front + rest) == ReadIn(After(front + rest[..n]), rest[n])
  {
    ButLast(front, rest);
    var all := front + rest;
    assert After(all) == ReadIn(After(all[..|all| - 1]), all[|all| - 1]);
  }

  lemma {:induction false} ButLast(front: seq<seq<byte>>, rest: seq<seq<byte>>)
    requires rest != []
    ensures (front + rest)[..|front + rest| - 1] == front + rest[..|rest| - 1]
    ensures (front + rest)[|front + rest| - 1] == rest[|rest| - 1]
  {}

  lemma Appended(flat: seq<Packet>, h: Helper, input: seq<byte>)
    ensures ReadIn(Helper(h.buf, flat + h.written), input).written == flat + ReadIn(h, input).written
  {
    var p := Parse(HelperLimits, h.buf + input).packets;
    assert flat + (h.written + p) == (flat + h.written) + p;
  }

  /** After a bad length the output depends on where the reads are cut: the same nine bytes
      write a packet in two reads and nothing in one. */
  lemma CutsMatter()
    ensures var (a, b) := ([255, 255, 255, 255], [0, 0, 0, 1, 0x45]);
      && After([a, b]).written == [[0x45]]
      && After([a + b]).written == []
      && Flatten([a, b]) == Flatten([a + b])
  {
    var a: seq<byte>, b: seq<byte> := [255, 255, 255, 255], [0, 0, 0, 1, 0x45];
    assert [a, b][..1] == [a] && [a][..0] == [] && [a + b][..0] == [];
    assert [] + a == a && [] + b == b && [] + (a + b) == a + b;
    assert Parse(HelperLimits, a).bad && Parse(HelperLimits, a + b).bad;
    OneFrame(b);
    assert After([a]) == Helper([], []);
    Snoc([a, b]);
    Snoc([a]);
    Snoc([a + b]);
  }

  lemma {:induction false} OneFrame(b: seq<byte>)
    requires b == [0, 0, 0, 1, 0x45]
    ensures Parse(HelperLimits, b) == Parsed([[0x45]], [], false)
  {
    assert b[4..5] == [0x45] && b[5..] == [];
    PrependNone(Parse(HelperLimits, []));
  }

  /** The two receivers interoperate exactly on packets of at most 1600 bytes. */
  lemma InteropExactly(pkts: seq<Packet>)
    requires Sendable(BridgeLimits, pkts)
    ensures Parse(HelperLimits, EncodeAll(pkts)) == Parsed(pkts, [], false)
       <==> forall i | 0 <= i < |pkts| :: |pkts[i]| <= 1600
  {
    assert EncodeAll(pkts) + [] == EncodeAll(pkts);
    assert pkts + [] == pkts;
    if forall i | 0 <= i < |pkts| :: |pkts[i]| <= 1600 {
      ParseEncoded(HelperLimits, pkts, []);
    } else {
      ParseSound(HelperLimits, EncodeAll(pkts));
    }
  }
}
