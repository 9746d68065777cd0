/** Octets, big-endian integers and flattening of chunk lists: the vocabulary every
    byte-level component of the repository shares. */
module Bytes {
  datatype Option<+T> = None | Some(value: T)

  newtype byte = x: int | 0 <= x < 256
  newtype u16 = x: int | 0 <= x < 0x1_0000

  /** Big-endian reads at offset `o`. */
  function U16(s: seq<byte>, o: nat): (r: int)
    requires o + 2 <= |s|
  {
    s[o] as int * 256 + s[o + 1] as int
  }

  function U32(s: seq<byte>, o: nat): (r: int)
    requires o + 4 <= |s|
    ensures 0 <= r < 0x1_0000_0000
  {
    U16(s, o) * 0x1_0000 + U16(s, o + 2)
  }

  /** Big-endian writes; the contracts say the matching read inverts them. */
  function PutU16(v: int): (r: seq<byte>)
    requires 0 <= v < 0x1_0000
    ensures |r| == 2 && U16(r, 0) == v
  {
    [(v / 256) as byte, (v % 256) as byte]
  }

  function PutU32(v: int): (r: seq<byte>)
    requires 0 <= v < 0x1_0000_0000
    ensures |r| == 4 && U32(r, 0) == v
  {
    PutU16(v / 0x1_0000) + PutU16(v % 0x1_0000)
  }

  /** A 16-bit field; a value that does not fit is not a field. */
  function Field(v: int): (b: seq<byte>)
    ensures |b| == 2 && (0 <= v < 0x1_0000 ==> U16(b, 0) == v)
  {
    if 0 <= v < 0x1_0000 then PutU16(v) else [0, 0]
  }

  function Octet(v: int): (b: seq<byte>)
    ensures |b| == 1 && (0 <= v < 256 ==> b[0] as int == v)
  {
    if 0 <= v < 256 then [v as byte] else [0]
  }

  /** The concatenation of a list of buffers. */
  function Flatten(chunks: seq<seq<byte>>): (r: seq<byte>)
    decreases |chunks|
  {
    if chunks == [] then [] else chunks[0] + Flatten(chunks[1..])
  }

  lemma {:induction false} FlattenAppend(a: seq<seq<byte>>, b: seq<seq<byte>>)
    ensures Flatten(a + b) == Flatten(a) + Flatten(b)
    decreases |a|
  {
    if a == [] {
      assert a + b == b;
    } else {
      FlattenAppend(a[1..], b);
      assert (a + b)[1..] == a[1..] + b;
      assert Flatten(a + b) == a[0] + (Flatten(a[1..]) + Flatten(b));
    }
  }

  lemma FlattenOne(c: seq<byte>)
    ensures Flatten([c]) == c
  {
    assert Flatten([c]) == c + Flatten([]);
  }

  lemma {:induction false} FlattenSnoc(a: seq<seq<byte>>, c: seq<byte>)
    ensures Flatten(a + [c]) == Flatten(a) + c
  {
    FlattenAppend(a, [c]);
    FlattenOne(c);
  }

  /** A list of non-empty buffers is empty exactly when its bytes are. */
  lemma {:induction false} FlattenEmpty(chunks: seq<seq<byte>>)
    requires forall c | c in chunks :: c != []
    ensures Flatten(chunks) == [] <==> chunks == []
  {
    if chunks != [] {
      assert chunks[0] in chunks;
    }
  }

  /** Copies `src` into `dst` at `off`: Node's `Buffer.copy` and C's `memcpy`. */
  method CopyInto(dst: array<byte>, off: nat, src: seq<byte>)
    requires off + |src| <= dst.Length
    modifies dst
    ensures dst[..off] == old(dst[..off])
    ensures dst[off..off + |src|] == src
    ensures dst[off + |src|..] == old(dst[off + |src|..])
  {
    for i := 0 to |src|
      invariant dst[off..off + i] == src[..i]
      invariant dst[..off] == old(dst[..off])
      invariant dst[off + |src|..] == old(dst[off + |src|..])
    {
      dst[off + i] := src[i];
    }
  }

  /** `p` stands in `b` at offset `o`. */
  predicate At(b: seq<byte>, o: nat, p: seq<byte>) {
    o + |p| <= |b| && b[o..o + |p|] == p
  }

  lemma AtSplit(b: seq<byte>, o: nat, p: seq<byte>, q: seq<byte>)
    requires At(b, o, p + q)
    ensures At(b, o, p) && At(b, o + |p|, q)
  {
    var s := b[o..o + |p + q|];
    assert s[..|p|] == p && s[|p|..] == q;
    assert b[o..o + |p|] == s[..|p|] && b[o + |p|..o + |p| + |q|] == s[|p|..];
  }

  lemma AtElement(b: seq<byte>, o: nat, p: seq<byte>, i: nat)
    requires At(b, o, p) && i < |p|
    ensures b[o + i] == p[i]
  {
    assert b[o..o + |p|][i] == b[o + i];
  }

  lemma AtU16(b: seq<byte>, o: nat, v: int)
    requires 0 <= v < 0x1_0000 && At(b, o, Field(v))
    ensures U16(b, o) == v
  {
    var p := Field(v);
    AtElement(b, o, p, 0);
    AtElement(b, o, p, 1);
  }

  lemma AtAll(p: seq<byte>)
    ensures At(p, 0, p)
  {}
}
