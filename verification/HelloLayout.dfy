/** The ClientHello body (section 4.1.2 of RFC 8446) as the three parsers see it: the fixed
    skeleton, the list of extensions, and the lists inside the extensions they read. */
module HelloLayout {
  import opened Bytes
  import opened Lists

  /** The parts of the body the parsers look at. */
  datatype Layout = Layout(legacy: int, ciphers: seq<byte>, extensions: seq<byte>)

  /** The body cut at its length fields, if they fit; bytes after the extensions are ignored. */
  function Skeleton(b: seq<byte>): (r: Option<Layout>) {
    if |b| < 35 then None else
    var c := 35 + b[34] as int;
    if |b| < c + 2 then None else
    var m := c + 2 + U16(b, c);
    if |b| < m then None else
    match ExtensionBlock(b, m)
    case None => None
    case Some(x) => Some(Layout(U16(b, 0), b[c + 2..m], x))
  }

  /** Behind the ciphers at `m`: the compression methods, then the extensions. */
  function ExtensionBlock(b: seq<byte>, m: nat): (r: Option<seq<byte>>) {
    if |b| < m + 1 then None else
    var x := m + 1 + b[m] as int;
    if |b| < x + 2 then None else
    var end := x + 2 + U16(b, x);
    if |b| < end then None else Some(b[x + 2..end])
  }

  datatype Ext = Ext(typ: int, data: seq<byte>)

  /** The extension block cut into extensions from offset `o`; `end` is where the walk stops
      when fewer than four bytes remain or the next extension runs over the end. */
  datatype Split = Split(exts: seq<Ext>, end: nat, overflow: bool)

  function SplitExts(b: seq<byte>, o: nat): (r: Split)
    requires o <= |b|
    ensures o <= r.end <= |b|
    decreases |b| - o
  {
    if o + 4 > |b| then Split([], o, false)
    else if o + 4 + U16(b, o + 2) > |b| then Split([], o, true)
    else
      var n := o + 4 + U16(b, o + 2);
      var rest := SplitExts(b, n);
      rest.(exts := [Ext(U16(b, o), b[o + 4..n])] + rest.exts)
  }

  /** 16-bit words from offset `o` up to `end`, a lone last byte ignored. */
  function Words(b: seq<byte>, o: nat, end: nat): (ws: seq<int>)
    requires end <= |b|
    decreases |b| - o
  {
    if o + 2 > end then [] else [U16(b, o)] + Words(b, o + 2, end)
  }

  /** 16-bit words while a length budget lasts; an odd budget still admits one more word. */
  function WordsWithin(b: seq<byte>, o: nat, budget: int): (ws: seq<int>)
    decreases |b| - o
  {
    if o + 2 > |b| || budget <= 0 then [] else [U16(b, o)] + WordsWithin(b, o + 2, budget - 2)
  }

  /** Protocol names while a length budget lasts. */
  function AlpnList(b: seq<byte>, o: nat, budget: int): (ps: seq<seq<byte>>)
    decreases |b| - o
  {
    if o >= |b| || budget <= 0 || o + 1 + b[o] as int > |b| then []
    else
      var n := o + 1 + b[o] as int;
      [b[o + 1..n]] + AlpnList(b, n, budget - (n - o))
  }

  /** Host names (type 0) of a server name list while a length budget lasts. */
  function SniList(b: seq<byte>, o: nat, budget: int): (ns: seq<seq<byte>>)
    decreases |b| - o
  {
    if o + 3 > |b| || budget < 3 || o + 3 + U16(b, o + 1) > |b| then []
    else
      var n := o + 3 + U16(b, o + 1);
      (if b[o] == 0 then [b[o + 3..n]] else []) + SniList(b, n, budget - (n - o))
  }

  // ---- The lists inside one extension ----

  function NamesIn(e: Ext): (ns: seq<seq<byte>>) {
    if e.typ == 0 && |e.data| >= 2 then SniList(e.data, 2, U16(e.data, 0)) else []
  }

  function AlpnIn(e: Ext): (ps: seq<seq<byte>>) {
    if e.typ == 16 && |e.data| >= 2 then AlpnList(e.data, 2, U16(e.data, 0)) else []
  }

  function VersionsIn(e: Ext): (vs: seq<int>) {
    if e.typ == 43 && |e.data| >= 1 then Words(e.data, 1, Min(|e.data|, 1 + e.data[0] as int)) else []
  }

  function GroupsIn(e: Ext): (gs: seq<int>) {
    if e.typ == 10 && |e.data| >= 2 then WordsWithin(e.data, 2, U16(e.data, 0)) else []
  }

  function FormatsIn(e: Ext): (fs: seq<int>) {
    if e.typ == 11 && |e.data| >= 1 then Octets(e.data[1..Min(|e.data|, 1 + e.data[0] as int)]) else []
  }

  function Octets(b: seq<byte>): (r: seq<int>) {
    seq(|b|, i requires 0 <= i < |b| => b[i] as int)
  }

  /** `signature_algorithms` and `signature_algorithms_cert` */
  function SigAlgsIn(e: Ext): (ss: seq<int>) {
    if (e.typ == 13 || e.typ == 50) && |e.data| >= 2 then WordsWithin(e.data, 2, U16(e.data, 0)) else []
  }

  function TypeOf(e: Ext): (ts: seq<int>) {
    [e.typ]
  }

  /** What every element contributes, one after the other. */
  function Gather<E, T>(f: E -> seq<T>, xs: seq<E>): (r: seq<T>)
    decreases |xs|
  {
    if xs == [] then [] else f(xs[0]) + Gather(f, xs[1..])
  }

  lemma {:induction false} GatherAppend<E, T>(f: E -> seq<T>, a: seq<E>, b: seq<E>)
    ensures Gather(f, a + b) == Gather(f, a) + Gather(f, b)
    decreases |a|
  {
    if a == [] {
      assert a + b == b;
    } else {
      GatherAppend(f, a[1..], b);
      assert (a + b)[1..] == a[1..] + b;
    }
  }

  lemma GatherOne<E, T>(f: E -> seq<T>, x: E)
    ensures Gather(f, [x]) == f(x)
  {
    assert Gather(f, [x]) == f(x) + Gather(f, []);
  }

  lemma {:induction false} GatherSnoc<E, T>(f: E -> seq<T>, a: seq<E>, x: E)
    ensures Gather(f, a + [x]) == Gather(f, a) + f(x)
  {
    GatherAppend(f, a, [x]);
    GatherOne(f, x);
  }

  /** Elements in another order contribute the same multiset. */
  lemma {:induction false} GatherPermuted<E, T>(f: E -> seq<T>, a: seq<E>, b: seq<E>)
    requires multiset(a) == multiset(b)
    ensures multiset(Gather(f, a)) == multiset(Gather(f, b))
    decreases |a|
  {
    if a == [] {
      assert |multiset(b)| == |b| == 0;
    } else {
      assert a[0] in multiset(b);
      var i :| 0 <= i < |b| && b[i] == a[0];
      RemoveFirst(a, b, i);
      GatherPermuted(f, a[1..], b[..i] + b[i + 1..]);
      GatherAround(f, b, i);
    }
  }

  lemma RemoveFirst<E>(a: seq<E>, b: seq<E>, i: nat)
    requires a != [] && i < |b| && b[i] == a[0] && multiset(a) == multiset(b)
    ensures multiset(a[1..]) == multiset(b[..i] + b[i + 1..])
  {
    var rest := b[..i] + b[i + 1..];
    assert a == [a[0]] + a[1..];
    assert b == b[..i] + ([b[i]] + b[i + 1..]);
    assert multiset(a) == multiset{a[0]} + multiset(a[1..]);
    assert multiset(b) == multiset{b[i]} + multiset(rest);
    assert multiset(a[1..]) == multiset(a) - multiset{a[0]};
    assert multiset(rest) == multiset(b) - multiset{b[i]};
  }

  lemma {:induction false} GatherAround<E, T>(f: E -> seq<T>, b: seq<E>, i: nat)
    requires i < |b|
    ensures multiset(Gather(f, b)) == multiset(f(b[i])) + multiset(Gather(f, b[..i] + b[i + 1..]))
  {
    var pre, post := b[..i], b[i + 1..];
    assert b == pre + ([b[i]] + post);
    GatherAppend(f, pre, [b[i]] + post);
    GatherAppend(f, [b[i]], post);
    GatherOne(f, b[i]);
    GatherAppend(f, pre, post);
    MultisetAround(Gather(f, pre), f(b[i]), Gather(f, post));
  }

  lemma MultisetAround<T>(a: seq<T>, m: seq<T>, c: seq<T>)
    ensures multiset(a + (m + c)) == multiset(m) + multiset(a + c)
  {}

  // ---- GREASE (section 2 of RFC 8701) ----

  /** The table the helper searches. */
  const GREASE_TABLE: seq<int> := [
    0x0a0a, 0x1a1a, 0x2a2a, 0x3a3a, 0x4a4a, 0x5a5a, 0x6a6a, 0x7a7a,
    0x8a8a, 0x9a9a, 0xaaaa, 0xbaba, 0xcaca, 0xdada, 0xeaea, 0xfafa]

  predicate IsGrease(v: int) {
    v in GREASE_TABLE
  }

  method IsGreaseLoop(v: int) returns (r: bool)
    ensures r == IsGrease(v)
  {
    for i := 0 to |GREASE_TABLE|
      invariant v !in GREASE_TABLE[..i]
    {
      if v == GREASE_TABLE[i] { return true; }
      assert GREASE_TABLE[..i + 1] == GREASE_TABLE[..i] + [GREASE_TABLE[i]];
    }
    assert GREASE_TABLE[..|GREASE_TABLE|] == GREASE_TABLE;
    return false;
  }

  /** `(et & 0x0f0f) == 0x0a0a` and equal octets */
  predicate ExtensionIsGrease(v: int) {
    v / 256 % 16 == 10 && v % 16 == 10 && v / 256 % 256 == v % 256
  }

  lemma TableEntry(k: nat)
    requires k < |GREASE_TABLE|
    ensures |GREASE_TABLE| == 16 && GREASE_TABLE[k] == 0x0a0a + k * 0x1010
  {}

  lemma TestHitsTable(v: int)
    requires 0 <= v < 0x1_0000 && ExtensionIsGrease(v)
    ensures IsGrease(v)
  {
    var k := v % 256 / 16;
    assert v == 0x0a0a + k * 0x1010;
    TableEntry(k);
  }

  lemma TablePassesTest(k: nat)
    requires k < 16
    ensures ExtensionIsGrease(0x0a0a + k * 0x1010)
  {
    var v := 0x0a0a + k * 0x1010;
    assert v / 256 == 10 + 16 * k && v % 256 == 10 + 16 * k;
  }

  /** The two tests are one. */
  lemma GreaseTestsAgree(v: int)
    requires 0 <= v < 0x1_0000
    ensures IsGrease(v) <==> ExtensionIsGrease(v)
  {
    if IsGrease(v) {
      var k: nat :| k < |GREASE_TABLE| && GREASE_TABLE[k] == v;
      TableEntry(k);
      TablePassesTest(k);
    } else if ExtensionIsGrease(v) {
      TestHitsTable(v);
    }
  }

  /** Drops GREASE values from a list. */
  function Ungreased(vs: seq<int>): (r: seq<int>)
    decreases |vs|
  {
    if vs == [] then []
    else (if IsGrease(vs[0]) then [] else [vs[0]]) + Ungreased(vs[1..])
  }

  lemma {:induction false} UngreasedAppend(a: seq<int>, b: seq<int>)
    ensures Ungreased(a + b) == Ungreased(a) + Ungreased(b)
    decreases |a|
  {
    if a == [] {
      assert a + b == b;
    } else {
      var first := if IsGrease(a[0]) then [] else [a[0]];
      UngreasedAppend(a[1..], b);
      assert (a + b)[1..] == a[1..] + b;
      assert first + (Ungreased(a[1..]) + Ungreased(b)) == first + Ungreased(a[1..]) + Ungreased(b);
    }
  }
}
