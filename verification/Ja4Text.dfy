/** What the JA4 strings say: the fixed-width prefix field by field, and exactly which hellos
    share the wire-order and the sorted raw string. */
module Ja4Text {
  import opened Bytes
  import opened Lists
  import opened Text
  import opened HelloLayout
  import opened HelloParsers
  import opened Fingerprint

  // ---- The prefix ----

  lemma VersionWidth(v: int)
    ensures |VersionText(v)| == 2
  {}

  lemma CountReads(n: nat)
    ensures |Count99(n)| == 2 && Value(Count99(n)) == Min(n, 99)
  {
    var c := if n > 99 then 99 else n;
    var s := Count99(n);
    assert s[..1] == [Digit(c / 10)] && s[..1][..0] == [];
    assert Value(s[..1]) == c / 10;
  }

  lemma AlpnWidth(proto: seq<byte>)
    ensures |AlpnPair(proto)| == 2
  {}

  /** Ten characters: transport, version, SNI mark, two counts capped at 99, ALPN. */
  lemma PrefixReads(sha: string -> string, j: Ja4)
    ensures var a := Ja4Compute(sha, j).ja4a;
      && |a| == 10 && a[0] == 't' && a[1..3] == Resolved(j.versions, j.legacy)
      && (a[3] == 'd' <==> j.hasSni) && (a[3] == 'i' <==> !j.hasSni)
      && Value(a[4..6]) == Min(|j.ciphers|, 99) && Value(a[6..8]) == Min(|j.extTypes|, 99)
      && a[8..10] == AlpnPair(j.firstAlpn)
  {
    var vs := Ungreased(j.versions);
    VersionWidth(if vs != [] then Best(vs) else j.legacy);
    CountReads(|j.ciphers|);
    CountReads(|j.extTypes|);
    AlpnWidth(j.firstAlpn);
    Fields(Resolved(j.versions, j.legacy), if j.hasSni then "d" else "i", Count99(|j.ciphers|), Count99(|j.extTypes|),
           AlpnPair(j.firstAlpn));
  }

  /** The version a hello speaks: the largest it offers, GREASE aside, else the legacy one. */
  predicate Speaks(j: Ja4, v: int) {
    var vs := Ungreased(j.versions);
    if vs == [] then v == j.legacy else v in vs && forall w | w in vs :: w <= v
  }

  predicate Names(t: string, v: int) {
    && (t == "13" <==> v == 0x0304) && (t == "12" <==> v == 0x0303) && (t == "11" <==> v == 0x0302)
    && (t == "10" <==> v == 0x0301) && (t == "s3" <==> v == 0x0300) && (t == "s2" <==> v == 0x0002)
    && (t == "d1" <==> v == 0xfeff) && (t == "d2" <==> v == 0xfefd) && (t == "d3" <==> v == 0xfefc)
    && (t == "00" <==> v !in {0x0304, 0x0303, 0x0302, 0x0301, 0x0300, 0x0002, 0xfeff, 0xfefd, 0xfefc})
  }

  lemma VersionNames(v: int)
    ensures Names(VersionText(v), v)
  {}

  lemma {:induction false} ResolvedIs(j: Ja4, v: int)
    requires Words16(j.versions) && Speaks(j, v)
    ensures Resolved(j.versions, j.legacy) == VersionText(v)
  {
    var vs := Ungreased(j.versions);
    if vs != [] {
      UngreasedInRange(j.versions);
      BestIs(vs, v);
      assert vs[0] in vs && vs[0] >= 0;
      BestIs(vs, vs[0]);
    }
  }

  /** The second and third character name it. */
  lemma {:induction false} VersionReads(sha: string -> string, j: Ja4, v: int)
    requires Words16(j.versions) && Speaks(j, v)
    ensures |Ja4Compute(sha, j).ja4a| == 10 && Names(Ja4Compute(sha, j).ja4a[1..3], v)
  {
    PrefixReads(sha, j);
    ResolvedIs(j, v);
    VersionNames(v);
  }

  predicate LetterOrDigit(b: byte) {
    var c := b as char;
    '0' <= c <= '9' || 'A' <= c <= 'Z' || 'a' <= c <= 'z'
  }

  predicate PairOf(t: string, p: seq<byte>) {
    |t| == 2 &&
    if p == [] then t == "00"
    else if LetterOrDigit(p[0]) && LetterOrDigit(p[|p| - 1]) then t[0] == p[0] as char && t[1] == p[|p| - 1] as char
    else DigitValue(t[0]) == p[0] as int / 16 && DigitValue(t[1]) == p[|p| - 1] as int % 16
  }

  lemma PairReads(p: seq<byte>)
    ensures PairOf(AlpnPair(p), p)
  {}

  /** The last two are the first and the last letter of the protocol if both ends are letters
      or digits, else its first and last hexadecimal digit. */
  lemma AlpnReads(sha: string -> string, j: Ja4)
    ensures |Ja4Compute(sha, j).ja4a| == 10 && PairOf(Ja4Compute(sha, j).ja4a[8..10], j.firstAlpn)
  {
    PrefixReads(sha, j);
    PairReads(j.firstAlpn);
  }

  lemma Fields(v: string, s: string, c: string, e: string, p: string)
    requires |v| == |c| == |e| == |p| == 2 && |s| == 1
    ensures var a := "t" + v + s + c + e + p;
      && |a| == 10 && a[0] == 't' && a[1..3] == v && a[3] == s[0] && a[4..6] == c && a[6..8] == e && a[8..10] == p
  {}

  lemma ThreeParts(c: Computed)
    requires |c.ja4a| == 10 && |c.ja4b| == |c.ja4c| == 12
    ensures var s := Ja4Fingerprint(c); |s| == 36 && s[..10] == c.ja4a && s[11..23] == c.ja4b && s[24..] == c.ja4c
  {}

  // ---- Hexadecimal lists ----

  lemma HexInjective(a: int, b: int)
    requires Word16(a) && Word16(b) && Hex4(a) == Hex4(b)
    ensures a == b
  {
    var s, t := Hex4(a), Hex4(b);
    assert DigitValue(s[0]) == DigitValue(t[0]) && DigitValue(s[1]) == DigitValue(t[1]);
    assert DigitValue(s[2]) == DigitValue(t[2]) && DigitValue(s[3]) == DigitValue(t[3]);
    FourDigits(a);
    FourDigits(b);
  }

  lemma FourDigits(v: int)
    requires Word16(v)
    ensures v == v / 4096 * 4096 + v / 256 % 16 * 256 + v / 16 % 16 * 16 + v % 16
  {
    var a, b, c := v / 16, v / 16 / 16, v / 16 / 16 / 16;
    assert v / 256 == b && v / 4096 == c;
    assert v == a * 16 + v % 16 && a == b * 16 + a % 16 && b == c * 16 + b % 16;
  }

  /** Four digits read back, most significant first. */
  lemma HexReads(v: int)
    requires Word16(v)
    ensures var s := Hex4(v);
      DigitValue(s[0]) * 4096 + DigitValue(s[1]) * 256 + DigitValue(s[2]) * 16 + DigitValue(s[3]) == v
  {
    FourDigits(v);
  }

  lemma DigitOrder(x: int, y: int)
    requires 0 <= x < y < 16
    ensures Digit(x) < Digit(y)
  {}

  lemma {:induction false} HeadOrder(s: string, t: string)
    requires s != "" && t != ""
    ensures TextLe(s, t) <==> s[0] < t[0] || (s[0] == t[0] && TextLe(s[1..], t[1..]))
  {}

  predicate Lex(a: seq<int>, b: seq<int>)
    requires |a| == |b| == 4
  {
    a[0] < b[0] || (a[0] == b[0] && (a[1] < b[1] || (a[1] == b[1] && (a[2] < b[2] || (a[2] == b[2] && a[3] <= b[3])))))
  }

  function Digits(v: int): (ds: seq<int>)
    requires Word16(v)
    ensures |ds| == 4 && forall i | 0 <= i < 4 :: 0 <= ds[i] < 16
  {
    [v / 4096, v / 256 % 16, v / 16 % 16, v % 16]
  }

  lemma LexNumbers(v: int, w: int)
    requires Word16(v) && Word16(w) && v <= w
    ensures Lex(Digits(v), Digits(w))
  {
    FourDigits(v);
    FourDigits(w);
  }

  lemma {:induction false} LexTail(s: string, t: string, d: int, e: int)
    requires s != "" && t != "" && 0 <= d < 16 && 0 <= e < 16 && s[0] == Digit(d) && t[0] == Digit(e)
    requires d < e || (d == e && TextLe(s[1..], t[1..]))
    ensures TextLe(s, t)
  {
    HeadOrder(s, t);
    if d < e { DigitOrder(d, e); }
  }

  /** Hexadecimal texts of equal length order as the numbers do. */
  lemma {:induction false} HexOrder(v: int, w: int)
    requires Word16(v) && Word16(w) && v <= w
    ensures TextLe(Hex4(v), Hex4(w))
  {
    LexNumbers(v, w);
    var (s, t, a, b) := (Hex4(v), Hex4(w), Digits(v), Digits(w));
    assert s[1..][1..] == s[2..] && t[1..][1..] == t[2..] && s[2..][1..] == s[3..] && t[2..][1..] == t[3..] && s[3..][1..] == "";
    if a[0] == b[0] {
      if a[1] == b[1] {
        if a[2] == b[2] { LexTail(s[3..], t[3..], a[3], b[3]); }
        LexTail(s[2..], t[2..], a[2], b[2]);
      }
      LexTail(s[1..], t[1..], a[1], b[1]);
    }
    LexTail(s, t, a[0], b[0]);
  }

  /** So the sorted strings list the values in ascending order. */
  lemma {:induction false} HexSortsAscending(vs: seq<int>)
    requires Words16(vs)
    ensures Sort(TextLe, Gather(HexOf, vs)) == Gather(HexOf, Sort(NumLe, vs))
  {
    var r := Sort(NumLe, vs);
    OrdersAreTotal();
    SortSorts(NumLe, vs);
    SortSorts(TextLe, Gather(HexOf, vs));
    forall i | 0 <= i < |r|
      ensures Word16(r[i])
    {
      assert r[i] in multiset(r);
      assert r[i] in vs;
    }
    HexList(r);
    forall i, j | 0 <= i < j < |r|
      ensures TextLe(Gather(HexOf, r)[i], Gather(HexOf, r)[j])
    {
      assert NumLe(r[i], r[j]);
      HexOrder(r[i], r[j]);
    }
    GatherPermuted(HexOf, r, vs);
    SortedUnique(TextLe, Sort(TextLe, Gather(HexOf, vs)), Gather(HexOf, r));
  }

  /** Neither separator occurs in a hexadecimal token. */
  predicate Plain(s: string) {
    Free(',', s) && Free('_', s)
  }

  lemma DigitPlain(d: int)
    requires 0 <= d < 16
    ensures Digit(d) != ',' && Digit(d) != '_'
  {
    assert DigitValue(',') == -1 && DigitValue('_') == -1;
  }

  lemma HexPlain(v: int)
    requires Word16(v)
    ensures Plain(Hex4(v)) && |Hex4(v)| == 4
  {
    DigitPlain(v / 4096);
    DigitPlain(v / 256 % 16);
    DigitPlain(v / 16 % 16);
    DigitPlain(v % 16);
  }

  predicate AllPlain(parts: seq<string>) {
    forall i | 0 <= i < |parts| :: parts[i] != "" && Plain(parts[i])
  }

  lemma {:induction false} HexList(vs: seq<int>)
    requires Words16(vs)
    ensures |Gather(HexOf, vs)| == |vs| && AllPlain(Gather(HexOf, vs))
    ensures forall i | 0 <= i < |vs| :: Gather(HexOf, vs)[i] == Hex4(vs[i])
    decreases |vs|
  {
    if vs != [] {
      HexList(vs[1..]);
      HexPlain(vs[0]);
      assert Gather(HexOf, vs) == [Hex4(vs[0])] + Gather(HexOf, vs[1..]);
    }
  }

  lemma {:induction false} HexListInjective(a: seq<int>, b: seq<int>)
    requires Words16(a) && Words16(b) && Gather(HexOf, a) == Gather(HexOf, b)
    ensures a == b
  {
    HexList(a);
    HexList(b);
    forall i | 0 <= i < |a|
      ensures a[i] == b[i]
    {
      HexInjective(a[i], b[i]);
    }
  }

  function Commas(parts: seq<string>): (s: string) {
    Join(',', parts)
  }

  lemma CommasInjective(p: seq<string>, q: seq<string>)
    requires AllPlain(p) && AllPlain(q) && Commas(p) == Commas(q)
    ensures p == q
  {
    JoinInjective(',', p, q);
  }

  lemma CommasFree(p: seq<string>)
    requires AllPlain(p)
    ensures Free('_', Commas(p))
  {
    JoinFree('_', ',', p);
  }

  // ---- The part behind the ciphers ----

  lemma HasBar(x: string, y: string, z: string)
    requires Free('_', z)
    ensures x + "_" + y != z
  {
    assert (x + "_" + y)[|x|] == '_';
  }

  /** Types and signature algorithms can be taken apart: an absent list leaves no bar. */
  lemma PartedExactly(p: seq<string>, s: seq<int>, q: seq<string>, t: seq<int>)
    requires AllPlain(p) && AllPlain(q) && Words16(s) && Words16(t)
    requires Parted(Commas(p), s) == Parted(Commas(q), t)
    ensures p == q && s == t
  {
    CommasFree(p);
    CommasFree(q);
    HexList(s);
    HexList(t);
    var x, y := Commas(Gather(HexOf, s)), Commas(Gather(HexOf, t));
    if s == [] && t == [] {
      CommasInjective(p, q);
    } else if s == [] {
      HasBar(Commas(q), y, Commas(p));
    } else if t == [] {
      HasBar(Commas(p), x, Commas(q));
    } else {
      CutUnique('_', Commas(p), x, Commas(q), y);
      CommasInjective(p, q);
      CommasInjective(Gather(HexOf, s), Gather(HexOf, t));
      HexListInjective(s, t);
    }
  }

  /** Prefix, ciphers and the rest of a raw string can be taken apart. */
  lemma RawParts(a: string, p: seq<string>, x: string, b: string, q: seq<string>, y: string)
    requires |a| == |b| && AllPlain(p) && AllPlain(q)
    requires a + "_" + Commas(p) + "_" + x == b + "_" + Commas(q) + "_" + y
    ensures a == b && p == q && x == y
  {
    var s := a + "_" + Commas(p) + "_" + x;
    assert s == a + "_" + (Commas(p) + "_" + x) == b + "_" + (Commas(q) + "_" + y);
    assert s[..|a|] == a && s[..|b|] == b;
    assert s[|a| + 1..] == Commas(p) + "_" + x && s[|b| + 1..] == Commas(q) + "_" + y;
    CommasFree(p);
    CommasFree(q);
    CutUnique('_', Commas(p), x, Commas(q), y);
    CommasInjective(p, q);
  }

  /** Two hellos share the wire-order string exactly if prefix, ciphers, types and signature
      algorithms are the same, in the same order. */
  lemma WireOrderExactly(sha: string -> string, j: Ja4, k: Ja4)
    requires InRange(j) && InRange(k)
    ensures Ja4RawO(sha, j) == Ja4RawO(sha, k) <==>
      (Ja4Compute(sha, j).ja4a == Ja4Compute(sha, k).ja4a && j.ciphers == k.ciphers
       && j.extTypes == k.extTypes && j.sigAlgs == k.sigAlgs)
  {
    if Ja4RawO(sha, j) == Ja4RawO(sha, k) {
      PrefixReads(sha, j);
      PrefixReads(sha, k);
      HexList(j.ciphers);
      HexList(k.ciphers);
      HexList(j.extTypes);
      HexList(k.extTypes);
      RawParts(Ja4Compute(sha, j).ja4a, Gather(HexOf, j.ciphers), Parted(Commas(Gather(HexOf, j.extTypes)), j.sigAlgs),
               Ja4Compute(sha, k).ja4a, Gather(HexOf, k.ciphers), Parted(Commas(Gather(HexOf, k.extTypes)), k.sigAlgs));
      PartedExactly(Gather(HexOf, j.extTypes), j.sigAlgs, Gather(HexOf, k.extTypes), k.sigAlgs);
      HexListInjective(j.ciphers, k.ciphers);
      HexListInjective(j.extTypes, k.extTypes);
    }
  }

  // ---- The sorted string ----

  lemma {:induction false} SortPlain(p: seq<string>)
    requires AllPlain(p)
    ensures AllPlain(Sort(TextLe, p))
  {
    var q := Sort(TextLe, p);
    OrdersAreTotal();
    SortSorts(TextLe, p);
    forall i | 0 <= i < |q|
      ensures q[i] != "" && Plain(q[i])
    {
      assert q[i] in multiset(q);
      assert q[i] in p;
    }
  }

  lemma {:induction false} SortDetermines(p: seq<string>, q: seq<string>)
    requires Sort(TextLe, p) == Sort(TextLe, q)
    ensures multiset(p) == multiset(q)
  {
    OrdersAreTotal();
    SortSorts(TextLe, p);
    SortSorts(TextLe, q);
  }

  lemma {:induction false} HexTally(a: seq<int>, x: int)
    requires Words16(a) && Word16(x)
    ensures Tally(Gather(HexOf, a), Hex4(x)) == Tally(a, x)
    decreases |a|
  {
    if a != [] {
      var init, last := a[..|a| - 1], a[|a| - 1];
      HexTally(init, x);
      assert a == init + [last];
      GatherSnoc(HexOf, init, last);
      TallySnoc(Gather(HexOf, init), Hex4(last), Hex4(x));
      if Hex4(last) == Hex4(x) { HexInjective(last, x); }
    }
  }

  lemma {:induction false} TallyWord(a: seq<int>, x: int)
    requires Words16(a)
    ensures Tally(a, x) > 0 ==> Word16(x)
    decreases |a|
  {
    if a != [] { TallyWord(a[..|a| - 1], x); }
  }

  lemma {:induction false} HexMultiset(a: seq<int>, b: seq<int>)
    requires Words16(a) && Words16(b) && multiset(Gather(HexOf, a)) == multiset(Gather(HexOf, b))
    ensures multiset(a) == multiset(b)
  {
    forall x
      ensures multiset(a)[x] == multiset(b)[x]
    {
      TallyIsMultiset(a, x);
      TallyIsMultiset(b, x);
      TallyWord(a, x);
      TallyWord(b, x);
      if Word16(x) {
        TallyIsMultiset(Gather(HexOf, a), Hex4(x));
        TallyIsMultiset(Gather(HexOf, b), Hex4(x));
        HexTally(a, x);
        HexTally(b, x);
      }
    }
  }

  /** The extension types without ALPN. */
  function ButAlpn(vs: seq<int>): (r: seq<int>)
    decreases |vs|
  {
    if vs == [] then [] else (if vs[0] == 16 then [] else [vs[0]]) + ButAlpn(vs[1..])
  }

  lemma {:induction false} ButAlpnHex(vs: seq<int>)
    requires Words16(vs)
    ensures Gather(HexButAlpn, vs) == Gather(HexOf, ButAlpn(vs)) && Words16(ButAlpn(vs))
    decreases |vs|
  {
    if vs != [] {
      ButAlpnHex(vs[1..]);
      var first := if vs[0] == 16 then [] else [vs[0]];
      GatherAppend(HexOf, first, ButAlpn(vs[1..]));
      if vs[0] != 16 { GatherOne(HexOf, vs[0]); }
    }
  }

  lemma {:induction false} SortedPlain(vs: seq<int>)
    requires Words16(vs)
    ensures AllPlain(Sort(TextLe, Gather(HexOf, vs)))
  {
    HexList(vs);
    SortPlain(Gather(HexOf, vs));
  }

  lemma {:induction false} SortedHexExactly(a: seq<int>, b: seq<int>)
    requires Words16(a) && Words16(b)
    ensures Sort(TextLe, Gather(HexOf, a)) == Sort(TextLe, Gather(HexOf, b)) <==> multiset(a) == multiset(b)
  {
    if Sort(TextLe, Gather(HexOf, a)) == Sort(TextLe, Gather(HexOf, b)) {
      SortDetermines(Gather(HexOf, a), Gather(HexOf, b));
      HexMultiset(a, b);
    } else if multiset(a) == multiset(b) {
      HexSorted(HexOf, a, b);
    }
  }

  // ---- The payloads behind the hashes ----

  /** Values in sorted hexadecimal, then the signature algorithms in their own order. */
  function Payload(vs: seq<int>, sigs: seq<int>): (s: string) {
    Parted(Commas(Sort(TextLe, Gather(HexOf, vs))), sigs)
  }

  /** Spelled out: the values ascending, a comma between them, then a bar and the algorithms. */
  lemma {:induction false} PayloadAscends(vs: seq<int>, sigs: seq<int>)
    requires Words16(vs)
    ensures var values := Join(',', Gather(HexOf, Sort(NumLe, vs)));
      Payload(vs, sigs) == if sigs == [] then values else values + "_" + Join(',', Gather(HexOf, sigs))
  {
    HexSortsAscending(vs);
  }

  /** It tells exactly the multiset of values and the list of algorithms. */
  lemma PayloadExactly(a: seq<int>, s: seq<int>, b: seq<int>, t: seq<int>)
    requires Words16(a) && Words16(b) && Words16(s) && Words16(t)
    ensures Payload(a, s) == Payload(b, t) <==> multiset(a) == multiset(b) && s == t
  {
    SortedHexExactly(a, b);
    if Payload(a, s) == Payload(b, t) {
      SortedPlain(a);
      SortedPlain(b);
      PartedExactly(Sort(TextLe, Gather(HexOf, a)), s, Sort(TextLe, Gather(HexOf, b)), t);
    }
  }

  /** The extension types without SNI and ALPN. */
  function ButSniAlpn(vs: seq<int>): (r: seq<int>)
    decreases |vs|
  {
    if vs == [] then [] else (if vs[0] == 0 || vs[0] == 16 then [] else [vs[0]]) + ButSniAlpn(vs[1..])
  }

  lemma {:induction false} ButSniAlpnHex(vs: seq<int>)
    requires Words16(vs)
    ensures Gather(HexButNamesAlpn, vs) == Gather(HexOf, ButSniAlpn(vs)) && Words16(ButSniAlpn(vs))
    decreases |vs|
  {
    if vs != [] {
      ButSniAlpnHex(vs[1..]);
      var first := if vs[0] == 0 || vs[0] == 16 then [] else [vs[0]];
      GatherAppend(HexOf, first, ButSniAlpn(vs[1..]));
      if first != [] { GatherOne(HexOf, vs[0]); }
    }
  }

  lemma {:induction false} SortedHexEmpty(vs: seq<int>)
    requires Words16(vs)
    ensures Sort(TextLe, Gather(HexOf, vs)) == [] <==> vs == []
  {
    HexList(vs);
    OrdersAreTotal();
    SortSorts(TextLe, Gather(HexOf, vs));
    assert |multiset(Gather(HexOf, vs))| == |vs|;
    assert |multiset(Sort(TextLe, Gather(HexOf, vs)))| == |Sort(TextLe, Gather(HexOf, vs))|;
  }

  const ZEROS: string := "000000000000"

  function HashOf(sha: string -> string, vs: seq<int>, sigs: seq<int>): (s: string) {
    if vs == [] then ZEROS else sha(Payload(vs, sigs))
  }

  /** What each computed string is a string of. */
  lemma ComputeIs(sha: string -> string, j: Ja4)
    requires InRange(j)
    ensures var c := Ja4Compute(sha, j);
      && Words16(ButSniAlpn(j.extTypes)) && Words16(ButAlpn(j.extTypes))
      && c.ja4b == HashOf(sha, j.ciphers, [])
      && c.ja4c == HashOf(sha, ButSniAlpn(j.extTypes), j.sigAlgs)
      && c.ja4cAlt == HashOf(sha, ButAlpn(j.extTypes), j.sigAlgs)
      && c.rawR == c.ja4a + "_" + Payload(j.ciphers, []) + "_" + Payload(ButSniAlpn(j.extTypes), j.sigAlgs)
      && c.rawRAlt == c.ja4a + "_" + Payload(j.ciphers, []) + "_" + Payload(ButAlpn(j.extTypes), j.sigAlgs)
  {
    ButSniAlpnHex(j.extTypes);
    ButAlpnHex(j.extTypes);
    SortedHexEmpty(j.ciphers);
    SortedHexEmpty(ButSniAlpn(j.extTypes));
    SortedHexEmpty(ButAlpn(j.extTypes));
  }

  /** The hash tells these payloads from each other and from no payload at all. */
  predicate Apart(sha: string -> string, x: string, y: string) {
    sha(x) != ZEROS && sha(y) != ZEROS && (sha(x) == sha(y) ==> x == y)
  }

  /** The same values up to order, and the same algorithms if there are values at all. */
  predicate SameHashed(a: seq<int>, s: seq<int>, b: seq<int>, t: seq<int>) {
    multiset(a) == multiset(b) && (a != [] ==> s == t)
  }

  lemma {:induction false} HashExactly(sha: string -> string, a: seq<int>, s: seq<int>, b: seq<int>, t: seq<int>)
    requires Words16(a) && Words16(b) && Words16(s) && Words16(t) && Apart(sha, Payload(a, s), Payload(b, t))
    ensures HashOf(sha, a, s) == HashOf(sha, b, t) <==> SameHashed(a, s, b, t)
  {
    PayloadExactly(a, s, b, t);
    assert |multiset(a)| == |a| && |multiset(b)| == |b|;
  }

  /** The cipher hash tells exactly the multiset of ciphers, unless the hash function itself
      collides on the two payloads. */
  lemma CipherHashExactly(sha: string -> string, j: Ja4, k: Ja4)
    requires InRange(j) && InRange(k) && Apart(sha, Payload(j.ciphers, []), Payload(k.ciphers, []))
    ensures Ja4Compute(sha, j).ja4b == Ja4Compute(sha, k).ja4b <==> multiset(j.ciphers) == multiset(k.ciphers)
  {
    ComputeIs(sha, j);
    ComputeIs(sha, k);
    HashExactly(sha, j.ciphers, [], k.ciphers, []);
  }

  /** The extension hash tells exactly the multiset of types other than SNI and ALPN and, if
      there are any, the signature algorithms in order. */
  lemma ExtensionHashExactly(sha: string -> string, j: Ja4, k: Ja4)
    requires InRange(j) && InRange(k)
    requires Apart(sha, Payload(ButSniAlpn(j.extTypes), j.sigAlgs), Payload(ButSniAlpn(k.extTypes), k.sigAlgs))
    ensures Ja4Compute(sha, j).ja4c == Ja4Compute(sha, k).ja4c <==>
      SameHashed(ButSniAlpn(j.extTypes), j.sigAlgs, ButSniAlpn(k.extTypes), k.sigAlgs)
  {
    ComputeIs(sha, j);
    ComputeIs(sha, k);
    HashExactly(sha, ButSniAlpn(j.extTypes), j.sigAlgs, ButSniAlpn(k.extTypes), k.sigAlgs);
  }

  /** The alternative hash counts SNI among the types. */
  lemma AltHashExactly(sha: string -> string, j: Ja4, k: Ja4)
    requires InRange(j) && InRange(k)
    requires Apart(sha, Payload(ButAlpn(j.extTypes), j.sigAlgs), Payload(ButAlpn(k.extTypes), k.sigAlgs))
    ensures Ja4Compute(sha, j).ja4cAlt == Ja4Compute(sha, k).ja4cAlt <==>
      SameHashed(ButAlpn(j.extTypes), j.sigAlgs, ButAlpn(k.extTypes), k.sigAlgs)
  {
    ComputeIs(sha, j);
    ComputeIs(sha, k);
    HashExactly(sha, ButAlpn(j.extTypes), j.sigAlgs, ButAlpn(k.extTypes), k.sigAlgs);
  }

  /** For a hash without collisions all three hold of any two hellos. */
  lemma HashesExactly(sha: string -> string, j: Ja4, k: Ja4)
    requires InRange(j) && InRange(k)
    requires forall x: string :: sha(x) != ZEROS
    requires forall x: string, y: string :: sha(x) == sha(y) ==> x == y
    ensures var (c, d) := (Ja4Compute(sha, j), Ja4Compute(sha, k));
      && (c.ja4b == d.ja4b <==> multiset(j.ciphers) == multiset(k.ciphers))
      && (c.ja4c == d.ja4c <==> SameHashed(ButSniAlpn(j.extTypes), j.sigAlgs, ButSniAlpn(k.extTypes), k.sigAlgs))
      && (c.ja4cAlt == d.ja4cAlt <==> SameHashed(ButAlpn(j.extTypes), j.sigAlgs, ButAlpn(k.extTypes), k.sigAlgs))
  {
    CipherHashExactly(sha, j, k);
    ExtensionHashExactly(sha, j, k);
    AltHashExactly(sha, j, k);
  }

  // ---- What the prefix tells ----

  /** Two hellos have the same prefix exactly if its fields agree: the two characters of the
      version, SNI or none, both counts capped at 99, and the ALPN pair. */
  lemma PrefixExactly(sha: string -> string, j: Ja4, k: Ja4)
    ensures Ja4Compute(sha, j).ja4a == Ja4Compute(sha, k).ja4a <==> SamePrefix(j, k)
  {
    PrefixReads(sha, j);
    PrefixReads(sha, k);
  }

  predicate SamePrefix(j: Ja4, k: Ja4) {
    && Resolved(j.versions, j.legacy) == Resolved(k.versions, k.legacy) && j.hasSni == k.hasSni
    && Min(|j.ciphers|, 99) == Min(|k.ciphers|, 99) && Min(|j.extTypes|, 99) == Min(|k.extTypes|, 99)
    && AlpnPair(j.firstAlpn) == AlpnPair(k.firstAlpn)
  }

  /** With hashes of twelve characters that do not collide on the two hellos, two fingerprints
      are equal exactly if the prefixes are, the ciphers are permutations of each other, the
      types other than SNI and ALPN are too and, if there are any, the signature algorithms
      are the same. */
  lemma FingerprintExactly(sha: string -> string, j: Ja4, k: Ja4)
    requires InRange(j) && InRange(k) && forall s :: |sha(s)| == 12
    requires Apart(sha, Payload(j.ciphers, []), Payload(k.ciphers, []))
    requires Apart(sha, Payload(ButSniAlpn(j.extTypes), j.sigAlgs), Payload(ButSniAlpn(k.extTypes), k.sigAlgs))
    ensures Ja4Fingerprint(Ja4Compute(sha, j)) == Ja4Fingerprint(Ja4Compute(sha, k)) <==>
      (SamePrefix(j, k) && multiset(j.ciphers) == multiset(k.ciphers)
       && SameHashed(ButSniAlpn(j.extTypes), j.sigAlgs, ButSniAlpn(k.extTypes), k.sigAlgs))
  {
    PrefixReads(sha, j);
    PrefixReads(sha, k);
    PrefixExactly(sha, j, k);
    CipherHashExactly(sha, j, k);
    ExtensionHashExactly(sha, j, k);
    ThreeParts(Ja4Compute(sha, j));
    ThreeParts(Ja4Compute(sha, k));
  }

  // ---- The sorted raw strings ----

  lemma RawExactly(a: string, cs: seq<int>, vs: seq<int>, s: seq<int>, b: string, ds: seq<int>, ws: seq<int>, t: seq<int>)
    requires |a| == |b| && Words16(cs) && Words16(vs) && Words16(s) && Words16(ds) && Words16(ws) && Words16(t)
    ensures a + "_" + Payload(cs, []) + "_" + Payload(vs, s) == b + "_" + Payload(ds, []) + "_" + Payload(ws, t) <==>
      (a == b && multiset(cs) == multiset(ds) && multiset(vs) == multiset(ws) && s == t)
  {
    PayloadExactly(cs, [], ds, []);
    PayloadExactly(vs, s, ws, t);
    if a + "_" + Payload(cs, []) + "_" + Payload(vs, s) == b + "_" + Payload(ds, []) + "_" + Payload(ws, t) {
      SortedPlain(cs);
      SortedPlain(ds);
      RawParts(a, Sort(TextLe, Gather(HexOf, cs)), Payload(vs, s), b, Sort(TextLe, Gather(HexOf, ds)), Payload(ws, t));
    }
  }

  /** Two hellos share a sorted raw string exactly if prefix and signature algorithms are the
      same and the ciphers, and the types it lists, are permutations of each other: all types
      but ALPN in the alternative string, all but SNI and ALPN in the other. */
  lemma SortedExactly(sha: string -> string, j: Ja4, k: Ja4)
    requires InRange(j) && InRange(k)
    ensures var (c, d) := (Ja4Compute(sha, j), Ja4Compute(sha, k));
      var same := SamePrefix(j, k) && multiset(j.ciphers) == multiset(k.ciphers) && j.sigAlgs == k.sigAlgs;
      && (c.rawRAlt == d.rawRAlt <==> same && multiset(ButAlpn(j.extTypes)) == multiset(ButAlpn(k.extTypes)))
      && (c.rawR == d.rawR <==> same && multiset(ButSniAlpn(j.extTypes)) == multiset(ButSniAlpn(k.extTypes)))
  {
    var c, d := Ja4Compute(sha, j), Ja4Compute(sha, k);
    ComputeIs(sha, j);
    ComputeIs(sha, k);
    PrefixReads(sha, j);
    PrefixReads(sha, k);
    PrefixExactly(sha, j, k);
    RawExactly(c.ja4a, j.ciphers, ButAlpn(j.extTypes), j.sigAlgs, d.ja4a, k.ciphers, ButAlpn(k.extTypes), k.sigAlgs);
    RawExactly(c.ja4a, j.ciphers, ButSniAlpn(j.extTypes), j.sigAlgs, d.ja4a, k.ciphers, ButSniAlpn(k.extTypes), k.sigAlgs);
  }
}
