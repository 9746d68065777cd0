/** `StreamFramer`: a queue of chunks that peeks a header across chunk borders, consumes
    a frame across chunk borders, and merges its chunks when there are many. */
module FrameReader {
  import opened Bytes
  import opened Framing

  class StreamFramer {
    var chunks: seq<seq<byte>>
    var len: nat

    ghost predicate Valid()
      reads this
    {
      && len == |Flatten(chunks)|
      && (forall i | 0 <= i < |chunks| :: chunks[i] != [])
    }

    /** Between two calls the merge has kept the queue short. */
    ghost predicate Settled()
      reads this
    {
      Valid() && |chunks| < 24
    }

    ghost function Contents(): (s: seq<byte>)
      reads this
    {
      Flatten(chunks)
    }

    constructor ()
      ensures Settled() && Contents() == []
    {
      chunks, len := [], 0;
    }

    /** Delivers the packets in the order `onPacket` sees them. On a bad length the
        buffer is dropped and the source throws; that is the second result. */
    method Push(chunk: seq<byte>) returns (packets: seq<Packet>, threw: bool)
      requires Valid()
      modifies this
      ensures Settled()
      ensures var p := Parse(BridgeLimits, old(Contents()) + chunk);
        packets == p.packets && threw == p.bad && Contents() == if p.bad then [] else p.rest
    {
      if |chunk| > 0 {
        FlattenSnoc(chunks, chunk);
        chunks := chunks + [chunk];
        len := len + |chunk|;
      }
      assert Contents() == old(Contents()) + chunk;
      packets, threw := TakeFrames();
      if threw { return; }
      MergeChunksIfNeeded();
    }

    /** The receive loop of `push`. */
    method TakeFrames() returns (packets: seq<Packet>, threw: bool)
      requires Valid()
      modifies this
      ensures Valid() && (threw ==> chunks == [])
      ensures var p := Parse(BridgeLimits, old(Contents()));
        packets == p.packets && threw == p.bad && Contents() == if p.bad then [] else p.rest
    {
      ghost var stream := Contents();
      packets, threw := [], false;
      PrependNone(Parse(BridgeLimits, stream));
      while len >= 4
        invariant Valid()
        invariant Parse(BridgeLimits, stream) == Prepend(packets, Parse(BridgeLimits, Contents()))
        decreases len
      {
        var packedLen := PeekUInt32BE();
        if packedLen <= 0 || packedLen > MAX_PKT {
          chunks, len := [], 0;
          return packets, true;
        }
        var frameLen := 4 + packedLen;
        if len < frameLen { break; }
        ghost var buf := Contents();
        var pkt := TakeFrame(frameLen);
        FrameTaken(BridgeLimits, stream, packets, buf, pkt, Contents());
        packets := packets + [pkt];
      }
    }

    method TakeFrame(frameLen: nat) returns (pkt: Packet)
      requires Valid() && 4 <= frameLen <= len
      modifies this
      ensures Valid() && len == old(len) - frameLen
      ensures pkt == old(Contents())[4..frameLen] && Contents() == old(Contents())[frameLen..]
    {
      ghost var s := Contents();
      var frame := Consume(frameLen);
      assert frame[4..] == s[4..frameLen];
      pkt := frame[4..];
    }

    method PeekUInt32BE() returns (n: int)
      requires Valid() && len >= 4
      ensures n == U32(Contents(), 0)
    {
      var c0 := chunks[0];
      if |c0| >= 4 {
        assert forall i | 0 <= i < 4 :: Contents()[i] == c0[i];
        return U32(c0, 0);
      }
      var tmp := new byte[4];
      var copied, i := 0, 0;
      while i < |chunks| && copied < 4
        invariant 0 <= i <= |chunks| && 0 <= copied <= 4
        invariant copied < 4 ==> copied == |Flatten(chunks[..i])|
        invariant tmp[..copied] == Contents()[..copied]
      {
        var c := chunks[i];
        var need := 4 - copied;
        ghost var done := tmp[..copied];
        FlattenSplit(chunks, i);
        var part := if |c| >= need then c[..need] else c;
        CopyInto(tmp, copied, part);
        SliceExtends(Contents(), copied, part, Flatten(chunks[..i]), c);
        assert tmp[..copied + |part|] == done + part;
        copied := copied + |part|;
        if |c| >= need { break; }
        i := i + 1;
      }
      assert chunks[..|chunks|] == chunks;
      assert forall k | 0 <= k < 4 :: tmp[k] == tmp[..4][k] == Contents()[..4][k];
      n := U32(tmp[..], 0);
    }

    method Consume(n: nat) returns (out: seq<byte>)
      requires Valid() && 0 < n <= len
      modifies this
      ensures Valid() && len == old(len) - n
      ensures out == old(Contents())[..n] && Contents() == old(Contents())[n..]
    {
      var buf := new byte[n];
      var off := 0;
      ghost var s := Contents();
      while off < n
        invariant Valid() && fresh(buf)
        invariant 0 <= off <= n && len == |s| - off
        invariant buf[..off] == s[..off] && Contents() == s[off..]
        decreases n - off
      {
        var first := chunks[0];
        var need := n - off;
        assert s[off..] == first + Flatten(chunks[1..]);
        ghost var done := buf[..off];
        if |first| <= need {
          CopyInto(buf, off, first);
          assert buf[..off + |first|] == done + first;
          assert s[..off + |first|] == s[..off] + first;
          off := off + |first|;
          len := len - |first|;
          chunks := chunks[1..];
        } else {
          CopyInto(buf, off, first[..need]);
          assert buf[..n] == done + first[..need];
          assert s[..n] == s[..off] + first[..need];
          assert chunks[0 := first[need..]][1..] == chunks[1..];
          chunks := chunks[0 := first[need..]];
          len := len - need;
          off := n;
        }
      }
      out := buf[..];
    }

    method MergeChunksIfNeeded()
      requires Valid()
      modifies this`chunks
      ensures Settled() && Contents() == old(Contents())
    {
      FlattenEmpty(chunks);
      if |chunks| < MERGE_AFTER || len == 0 { return; }
      var merged := new byte[len];
      var o := 0;
      for k := 0 to |chunks|
        invariant chunks == old(chunks) && len == old(len) && fresh(merged)
        invariant o == |Flatten(chunks[..k])| && o <= len
        invariant merged[..o] == Contents()[..o]
      {
        var c := chunks[k];
        FlattenSplit(chunks, k);
        ghost var done := merged[..o];
        CopyInto(merged, o, c);
        assert merged[..o + |c|] == done + c;
        assert Contents()[..o + |c|] == Contents()[..o] + c;
        o := o + |c|;
      }
      assert chunks[..|chunks|] == chunks;
      assert merged[..] == Contents();
      FlattenOne(merged[..]);
      chunks := [merged[..]];
    }
  }

  lemma SliceExtends(s: seq<byte>, o: nat, part: seq<byte>, before: seq<byte>, c: seq<byte>)
    requires before + c <= s && |before| == o && part <= c
    ensures o + |part| <= |s| && s[..o + |part|] == s[..o] + part
  {}

  /** Chunk `i` sits in the stream right after the chunks before it. */
  lemma {:induction false} FlattenSplit(chunks: seq<seq<byte>>, i: nat)
    requires i < |chunks|
    ensures Flatten(chunks[..i + 1]) == Flatten(chunks[..i]) + chunks[i]
    ensures Flatten(chunks) == Flatten(chunks[..i]) + chunks[i] + Flatten(chunks[i + 1..])
  {
    SplitAt(chunks, i);
    FlattenMid(chunks[..i], chunks[i], chunks[i + 1..]);
  }

  lemma SplitAt(chunks: seq<seq<byte>>, i: nat)
    requires i < |chunks|
    ensures chunks == chunks[..i] + ([chunks[i]] + chunks[i + 1..])
    ensures chunks[..i + 1] == chunks[..i] + [chunks[i]]
  {}

  lemma {:induction false} FlattenMid(a: seq<seq<byte>>, c: seq<byte>, b: seq<seq<byte>>)
    ensures Flatten(a + [c]) == Flatten(a) + c
    ensures Flatten(a + ([c] + b)) == Flatten(a) + c + Flatten(b)
  {
    FlattenSnoc(a, c);
    FlattenAppend(a, [c] + b);
    assert ([c] + b)[1..] == b;
    assert Flatten(a) + (c + Flatten(b)) == Flatten(a) + c + Flatten(b);
  }
}
