/** The JA3 and JA4 fingerprints of a ClientHello, and what they do and do not depend on. */
module Fingerprint {
  import opened Bytes
  import opened Text
  import opened HelloLayout
  import opened HelloParsers
  import opened HelloPrinter

  // ---- JA3 ----

  function Dec(v: int): (s: seq<string>) {
    [Decimal(if v >= 0 then v else 0)]
  }

  /** `JoinDashDec16`, `JoinDashDec8` */
  function Dashed(vs: seq<int>): (s: string) {
    Join('-', Gather(Dec, vs))
  }

  function Ja3Text(legacy: int, ciphers: seq<int>, extTypes: seq<int>, curves: seq<int>, formats: seq<int>): (s: string) {
    Dec(legacy)[0] + "," + (Dashed(ciphers) + "," + (Dashed(extTypes) + "," + (Dashed(curves) + "," + Dashed(formats))))
  }

  function Ja3String(j: Ja3): (s: string) {
    Ja3Text(j.legacy, j.ciphers, j.extTypes, j.curves, j.formats)
  }

  function Ja3SortedString(j: Ja3): (s: string) {
    Ja3Text(j.legacy, Sort(NumLe, j.ciphers), Sort(NumLe, j.extTypes), Sort(NumLe, j.curves), Sort(NumLe, j.formats))
  }

  // ---- JA4; `sha` is the truncated SHA-256, about which nothing is assumed ----

  function Hex4(v: int): (s: string)
    requires 0 <= v < 0x1_0000
  {
    [Digit(v / 4096), Digit(v / 256 % 16), Digit(v / 16 % 16), Digit(v % 16)]
  }

  function HexOf(v: int): (s: seq<string>) {
    if 0 <= v < 0x1_0000 then [Hex4(v)] else []
  }

  function HexButNamesAlpn(v: int): (s: seq<string>) {
    if v == 0 || v == 16 then [] else HexOf(v)
  }

  function HexButAlpn(v: int): (s: seq<string>) {
    if v == 16 then [] else HexOf(v)
  }

  function Count99(n: nat): (s: string) {
    var c := if n > 99 then 99 else n;
    [Digit(c / 10), Digit(c % 10)]
  }

  function VersionText(v: int): (s: string) {
    if v == 0x0304 then "13" else if v == 0x0303 then "12" else if v == 0x0302 then "11"
    else if v == 0x0301 then "10" else if v == 0x0300 then "s3" else if v == 0x0002 then "s2"
    else if v == 0xfeff then "d1" else if v == 0xfefd then "d2" else if v == 0xfefc then "d3" else "00"
  }

  /** The largest of some values, 0 for none. */
  function Best(vs: seq<int>): (b: int)
    decreases |vs|
  {
    if vs == [] then 0
    else
      var b := Best(vs[..|vs| - 1]);
      if vs[|vs| - 1] > b then vs[|vs| - 1] else b
  }

  function Resolved(versions: seq<int>, legacy: int): (s: string) {
    var vs := Ungreased(versions);
    VersionText(if vs != [] then Best(vs) else legacy)
  }

  lemma {:induction false} UngreasedSnoc(vs: seq<int>, x: int)
    ensures Ungreased(vs + [x]) == if IsGrease(x) then Ungreased(vs) else Ungreased(vs) + [x]
  {
    UngreasedAppend(vs, [x]);
    assert Ungreased([x]) == (if IsGrease(x) then [] else [x]) + Ungreased([]);
    AddNothing(Ungreased(vs));
  }

  lemma {:induction false} BestSnoc(vs: seq<int>, x: int)
    ensures Best(vs + [x]) == if x > Best(vs) then x else Best(vs)
  {
    assert (vs + [x])[..|vs|] == vs;
  }

  method Ja4ResolvedTlsVersion(versions: seq<int>, legacy: int) returns (s: string)
    ensures s == Resolved(versions, legacy)
  {
    var best, any := 0, false;
    for i := 0 to |versions|
      invariant any == (Ungreased(versions[..i]) != []) && best == Best(Ungreased(versions[..i]))
    {
      var x := versions[i];
      assert versions[..i + 1] == versions[..i] + [x];
      UngreasedSnoc(versions[..i], x);
      if IsGrease(x) { continue; }
      BestSnoc(Ungreased(versions[..i]), x);
      any := true;
      if x > best { best := x; }
    }
    assert versions[..|versions|] == versions;
    return if any then VersionText(best) else VersionText(legacy);
  }

  predicate Alnum(b: byte) {
    0x30 <= b <= 0x39 || 0x41 <= b <= 0x5a || 0x61 <= b <= 0x7a
  }

  function AlpnPair(proto: seq<byte>): (s: string) {
    if proto == [] then "00"
    else
      var f, l := proto[0], proto[|proto| - 1];
      if Alnum(f) && Alnum(l) then [f as int as char, l as int as char]
      else [Digit(f as int / 16), Digit(l as int % 16)]
  }

  datatype Computed = Computed(ja4a: string, ja4b: string, ja4c: string, ja4cAlt: string,
                               rawR: string, rawRAlt: string, sigAlgs: seq<int>)

  function Parted(exts: string, sigAlgs: seq<int>): (s: string) {
    if sigAlgs == [] then exts else exts + "_" + Join(',', Gather(HexOf, sigAlgs))
  }

  function Hashed(sha: string -> string, parts: seq<string>, text: string): (s: string) {
    if parts == [] then "000000000000" else sha(text)
  }

  function Ja4Compute(sha: string -> string, j: Ja4): (c: Computed) {
    var a := "t" + Resolved(j.versions, j.legacy) + (if j.hasSni then "d" else "i")
               + Count99(|j.ciphers|) + Count99(|j.extTypes|) + AlpnPair(j.firstAlpn);
    var ciphers := Sort(TextLe, Gather(HexOf, j.ciphers));
    var exts := Sort(TextLe, Gather(HexButNamesAlpn, j.extTypes));
    var extsAlt := Sort(TextLe, Gather(HexButAlpn, j.extTypes));
    var sorted := Join(',', ciphers);
    Computed(
      a,
      Hashed(sha, ciphers, sorted),
      Hashed(sha, exts, Parted(Join(',', exts), j.sigAlgs)),
      Hashed(sha, extsAlt, Parted(Join(',', extsAlt), j.sigAlgs)),
      a + "_" + sorted + "_" + Parted(Join(',', exts), j.sigAlgs),
      a + "_" + sorted + "_" + Parted(Join(',', extsAlt), j.sigAlgs),
      j.sigAlgs)
  }

  function Ja4Fingerprint(c: Computed): (s: string) {
    c.ja4a + "_" + c.ja4b + "_" + c.ja4c
  }

  /** The wire-order variant, the only field that keeps the order of ciphers and types. */
  function Ja4RawO(sha: string -> string, j: Ja4): (s: string) {
    Ja4Compute(sha, j).ja4a + "_" + Join(',', Gather(HexOf, j.ciphers)) + "_"
      + Parted(Join(',', Gather(HexOf, j.extTypes)), j.sigAlgs)
  }

  // ---- The JA3 string determines exactly its five lists ----

  predicate Word16(v: int) {
    0 <= v < 0x1_0000
  }

  predicate Words16(vs: seq<int>) {
    forall i | 0 <= i < |vs| :: Word16(vs[i])
  }

  lemma {:induction false} DashedTokens(vs: seq<int>)
    requires Words16(vs)
    ensures |Gather(Dec, vs)| == |vs| && Tokens('-', Gather(Dec, vs))
    ensures forall i | 0 <= i < |vs| :: Gather(Dec, vs)[i] == Decimal(vs[i])
    ensures forall i | 0 <= i < |vs| :: Free(',', Gather(Dec, vs)[i])
    decreases |vs|
  {
    if vs != [] {
      DashedTokens(vs[1..]);
      var d := Decimal(vs[0]);
      assert Free('-', d) && Free(',', d) by {
        assert forall i | 0 <= i < |d| :: IsDigit(d[i]);
      }
    }
  }

  lemma DashedInjective(a: seq<int>, b: seq<int>)
    requires Words16(a) && Words16(b) && Dashed(a) == Dashed(b)
    ensures a == b
  {
    DashedTokens(a);
    DashedTokens(b);
    JoinInjective('-', Gather(Dec, a), Gather(Dec, b));
    forall i | 0 <= i < |a|
      ensures a[i] == b[i]
    {
      DecimalInjective(a[i], b[i]);
    }
  }

  lemma DashedNoComma(a: seq<int>)
    requires Words16(a)
    ensures Free(',', Dashed(a))
  {
    DashedTokens(a);
    JoinFree(',', '-', Gather(Dec, a));
  }

  predicate WellRanged(j: Ja3) {
    j.legacy >= 0 && Words16(j.ciphers) && Words16(j.extTypes) && Words16(j.curves) && Words16(j.formats)
  }

  /** Two hellos have the same JA3 string exactly when version, ciphers, extension types,
      groups and point formats are the same lists. */
  lemma Ja3Exactly(j: Ja3, k: Ja3)
    requires WellRanged(j) && WellRanged(k)
    ensures Ja3String(j) == Ja3String(k) <==>
      (j.legacy == k.legacy && j.ciphers == k.ciphers && j.extTypes == k.extTypes
       && j.curves == k.curves && j.formats == k.formats)
  {
    if Ja3String(j) == Ja3String(k) {
      var j4, k4 := Dashed(j.curves) + "," + Dashed(j.formats), Dashed(k.curves) + "," + Dashed(k.formats);
      var j3, k3 := Dashed(j.extTypes) + "," + j4, Dashed(k.extTypes) + "," + k4;
      var j2, k2 := Dashed(j.ciphers) + "," + j3, Dashed(k.ciphers) + "," + k3;
      DecimalNoComma(j.legacy);
      DecimalNoComma(k.legacy);
      CutUnique(',', Decimal(j.legacy), j2, Decimal(k.legacy), k2);
      DecimalInjective(j.legacy, k.legacy);
      CutDashed(j.ciphers, j3, k.ciphers, k3);
      CutDashed(j.extTypes, j4, k.extTypes, k4);
      CutDashed(j.curves, Dashed(j.formats), k.curves, Dashed(k.formats));
      DashedInjective(j.formats, k.formats);
    }
  }

  lemma {:induction false} WordsInRange(b: seq<byte>, o: nat, end: nat, budget: int)
    ensures end <= |b| ==> Words16(Words(b, o, end))
    ensures Words16(WordsWithin(b, o, budget))
    decreases |b| - o
  {
    if o + 2 <= |b| {
      WordsInRange(b, o + 2, end, budget - 2);
    }
  }

  lemma {:induction false} UngreasedInRange(vs: seq<int>)
    requires Words16(vs)
    ensures Words16(Ungreased(vs))
    decreases |vs|
  {
    if vs != [] {
      UngreasedInRange(vs[1..]);
    }
  }

  lemma {:induction false} GatherInRange(f: Ext -> seq<int>, exts: seq<Ext>)
    requires forall i | 0 <= i < |exts| :: Words16(f(exts[i]))
    ensures Words16(Gather(f, exts))
    decreases |exts|
  {
    if exts != [] {
      GatherInRange(f, exts[1..]);
    }
  }

  predicate TypesInRange(exts: seq<Ext>) {
    forall i | 0 <= i < |exts| :: Word16(exts[i].typ)
  }

  lemma {:induction false} SplitInRange(b: seq<byte>, o: nat)
    requires o <= |b|
    ensures TypesInRange(SplitExts(b, o).exts)
    decreases |b| - o
  {
    if o + 4 <= |b| && o + 4 + U16(b, o + 2) <= |b| {
      SplitInRange(b, o + 4 + U16(b, o + 2));
    }
  }

  lemma {:induction false} KeptInRange(exts: seq<Ext>)
    requires TypesInRange(exts)
    ensures TypesInRange(Kept(exts))
    decreases |exts|
  {
    if exts != [] {
      KeptInRange(exts[1..]);
    }
  }

  lemma ListsInRange(legacy: nat, ciphers: seq<int>, exts: seq<Ext>)
    requires Words16(ciphers) && TypesInRange(exts)
    ensures WellRanged(Ja3Lists(legacy, ciphers, exts))
  {
    var kept := Kept(exts);
    KeptInRange(exts);
    forall i | 0 <= i < |kept|
      ensures Words16(GroupsIn(kept[i])) && Words16(FormatsIn(kept[i]))
    {
      var d := kept[i].data;
      WordsInRange(d, 2, 0, if |d| >= 2 then U16(d, 0) else 0);
    }
    GatherInRange(TypeOf, kept);
    GatherInRange(GroupsIn, kept);
    GatherInRange(FormatsIn, kept);
    UngreasedInRange(Gather(GroupsIn, kept));
  }

  predicate InRange(j: Ja4) {
    Words16(j.ciphers) && Words16(j.extTypes) && Words16(j.sigAlgs)
  }

  lemma Ja4ListsInRange(legacy: int, ciphers: seq<int>, exts: seq<Ext>)
    requires Words16(ciphers) && TypesInRange(exts)
    ensures InRange(Ja4Lists(legacy, ciphers, exts))
  {
    var kept := Kept(exts);
    KeptInRange(exts);
    forall i | 0 <= i < |kept|
      ensures Words16(SigAlgsIn(kept[i]))
    {
      var d := kept[i].data;
      WordsInRange(d, 2, 0, if |d| >= 2 then U16(d, 0) else 0);
    }
    GatherInRange(TypeOf, kept);
    GatherInRange(SigAlgsIn, kept);
    UngreasedInRange(Gather(SigAlgsIn, kept));
  }

  /** What the parsers report is always in range, so the theorems about the strings speak of
      every body. */
  lemma ParsedWellRanged(b: seq<byte>)
    requires Ja3Spec(b).Some?
    ensures WellRanged(Ja3Spec(b).value)
    ensures Ja4Spec(b).Some? ==> InRange(Ja4Spec(b).value)
  {
    var l := Skeleton(b).value;
    WordsInRange(l.ciphers, 0, |l.ciphers|, 0);
    UngreasedInRange(Words(l.ciphers, 0, |l.ciphers|));
    SplitInRange(l.extensions, 0);
    ListsInRange(l.legacy, Ungreased(Words(l.ciphers, 0, |l.ciphers|)), SplitExts(l.extensions, 0).exts);
    Ja4ListsInRange(l.legacy, Ungreased(Words(l.ciphers, 0, |l.ciphers|)), SplitExts(l.extensions, 0).exts);
  }

  lemma {:induction false} DecimalNoComma(n: nat)
    ensures Free(',', Decimal(n))
  {
    assert AllDigits(Decimal(n));
    assert forall i | 0 <= i < |Decimal(n)| :: IsDigit(Decimal(n)[i]);
  }

  lemma CutDashed(a: seq<int>, x: string, b: seq<int>, y: string)
    requires Words16(a) && Words16(b) && Dashed(a) + "," + x == Dashed(b) + "," + y
    ensures a == b && x == y
  {
    DashedNoComma(a);
    DashedNoComma(b);
    CutUnique(',', Dashed(a), x, Dashed(b), y);
    DashedInjective(a, b);
  }

  // ---- Order does not matter ----

  function UngreaseOne(v: int): (r: seq<int>) {
    if IsGrease(v) then [] else [v]
  }

  lemma {:induction false} UngreasedGathers(vs: seq<int>)
    ensures Ungreased(vs) == Gather(UngreaseOne, vs)
    decreases |vs|
  {
    if vs != [] {
      UngreasedGathers(vs[1..]);
    }
  }

  lemma {:induction false} UngreasedPermuted(a: seq<int>, b: seq<int>)
    requires multiset(a) == multiset(b)
    ensures multiset(Ungreased(a)) == multiset(Ungreased(b))
  {
    UngreasedGathers(a);
    UngreasedGathers(b);
    GatherPermuted(UngreaseOne, a, b);
  }

  lemma {:induction false} BestIs(vs: seq<int>, w: int)
    ensures w in vs ==> w <= Best(vs)
    ensures Best(vs) == 0 || Best(vs) in vs
    ensures Best(vs) >= 0
    decreases |vs|
  {
    if vs != [] {
      BestIs(vs[..|vs| - 1], w);
      assert vs == vs[..|vs| - 1] + [vs[|vs| - 1]];
    }
  }

  lemma {:induction false} BestPermuted(a: seq<int>, b: seq<int>)
    requires multiset(a) == multiset(b)
    ensures Best(a) == Best(b) && |a| == |b|
  {
    BestIs(a, Best(b));
    BestIs(b, Best(a));
    assert |multiset(a)| == |a| && |multiset(b)| == |b|;
    assert forall x :: x in a <==> x in multiset(a);
    assert forall x :: x in b <==> x in multiset(b);
  }

  /** Which extension lists keep their order: signature algorithms, and ALPN. */
  function OnlySigs(e: Ext): (r: seq<Ext>) {
    if e.typ == 13 || e.typ == 50 then [e] else []
  }

  function OnlyAlpn(e: Ext): (r: seq<Ext>) {
    if e.typ == 16 then [e] else []
  }

  /** The same extensions in another order, types 13 and 50 among themselves, and type 16
      among itself, in the same order. */
  predicate Reordered(a: seq<Ext>, b: seq<Ext>) {
    && multiset(a) == multiset(b)
    && Gather(OnlySigs, a) == Gather(OnlySigs, b)
    && Gather(OnlyAlpn, a) == Gather(OnlyAlpn, b)
  }

  predicate DistinctTypes(a: seq<Ext>) {
    forall i, j | 0 <= i < j < |a| :: a[i].typ != a[j].typ
  }

  lemma {:induction false} SomeAlpn(a: seq<Ext>)
    ensures Gather(OnlyAlpn, a) != [] ==> exists i | 0 <= i < |a| :: a[i].typ == 16
    ensures DistinctTypes(a) ==> |Gather(OnlyAlpn, a)| <= 1
    decreases |a|
  {
    if a != [] {
      SomeAlpn(a[1..]);
      if DistinctTypes(a) {
        assert DistinctTypes(a[1..]);
      }
      if Gather(OnlyAlpn, a[1..]) != [] {
        var i :| 0 <= i < |a[1..]| && a[1..][i].typ == 16;
        assert a[i + 1].typ == 16;
      }
    }
  }

  /** Extensions of pairwise different types, permuted with types 13 and 50 in their relative
      order, are reordered in this sense. */
  lemma {:induction false} DistinctReordered(a: seq<Ext>, b: seq<Ext>)
    requires multiset(a) == multiset(b) && DistinctTypes(a) && Gather(OnlySigs, a) == Gather(OnlySigs, b)
    ensures Reordered(a, b)
  {
    SomeAlpn(a);
    GatherPermuted(OnlyAlpn, a, b);
    AtMostOne(Gather(OnlyAlpn, a), Gather(OnlyAlpn, b));
  }

  lemma AtMostOne<T>(x: seq<T>, y: seq<T>)
    requires |x| <= 1 && multiset(x) == multiset(y)
    ensures x == y
  {
    assert |multiset(x)| == |x| && |multiset(y)| == |y|;
    if x != [] {
      assert y[0] in multiset(x);
    }
  }

  lemma {:induction false} GatherOnly<T>(f: Ext -> seq<T>, only: Ext -> seq<Ext>, exts: seq<Ext>)
    requires forall e: Ext :: only(e) == [e] || (only(e) == [] && f(e) == [])
    ensures Gather(f, exts) == Gather(f, Gather(only, exts))
    decreases |exts|
  {
    if exts != [] {
      GatherOnly(f, only, exts[1..]);
      GatherAppend(f, only(exts[0]), Gather(only, exts[1..]));
      GatherOne(f, exts[0]);
    }
  }

  function KeptType(e: Ext): (r: seq<int>) {
    if IsGrease(e.typ) then [] else [e.typ]
  }

  lemma {:induction false} KeptTypes(exts: seq<Ext>)
    ensures Gather(TypeOf, Kept(exts)) == Gather(KeptType, exts)
    decreases |exts|
  {
    if exts != [] {
      KeptTypes(exts[1..]);
      if !IsGrease(exts[0].typ) {
        GatherAppend(TypeOf, [exts[0]], Kept(exts[1..]));
        GatherOne(TypeOf, exts[0]);
      }
      var first := if IsGrease(exts[0].typ) then [] else [exts[0]];
      assert Kept(exts) == first + Kept(exts[1..]);
      AddNothing(Kept(exts[1..]));
      assert [] + Kept(exts[1..]) == Kept(exts[1..]);
    }
  }

  lemma {:induction false} TypesPermuted(a: seq<Ext>, b: seq<Ext>)
    requires multiset(a) == multiset(b)
    ensures multiset(Gather(TypeOf, Kept(a))) == multiset(Gather(TypeOf, Kept(b)))
  {
    KeptTypes(a);
    KeptTypes(b);
    GatherPermuted(KeptType, a, b);
  }

  lemma {:induction false} ListPermuted(f: Ext -> seq<int>, a: seq<Ext>, b: seq<Ext>)
    requires multiset(a) == multiset(b) && forall e: Ext :: IsGrease(e.typ) ==> f(e) == []
    ensures multiset(Gather(f, Kept(a))) == multiset(Gather(f, Kept(b)))
    ensures multiset(Ungreased(Gather(f, Kept(a)))) == multiset(Ungreased(Gather(f, Kept(b))))
  {
    KeptGathers(f, a);
    KeptGathers(f, b);
    GatherPermuted(f, a, b);
    UngreasedPermuted(Gather(f, a), Gather(f, b));
  }

  /** The sorted JA3 string is unchanged by any order of ciphers and extensions. */
  lemma Ja3SortedPermuted(legacy: int, c: seq<int>, a: seq<Ext>, c': seq<int>, b: seq<Ext>)
    requires multiset(c) == multiset(c') && multiset(a) == multiset(b)
    ensures Ja3SortedString(Ja3Lists(legacy, c, a)) == Ja3SortedString(Ja3Lists(legacy, c', b))
  {
    SortedDash(c, c');
    SortedTypes(a, b);
    SortedGroups(a, b);
    SortedFormats(a, b);
  }

  lemma {:induction false} SortedTypes(a: seq<Ext>, b: seq<Ext>)
    requires multiset(a) == multiset(b)
    ensures Dashed(Sort(NumLe, Gather(TypeOf, Kept(a)))) == Dashed(Sort(NumLe, Gather(TypeOf, Kept(b))))
  {
    TypesPermuted(a, b);
    SortedDash(Gather(TypeOf, Kept(a)), Gather(TypeOf, Kept(b)));
  }

  lemma {:induction false} SortedGroups(a: seq<Ext>, b: seq<Ext>)
    requires multiset(a) == multiset(b)
    ensures Dashed(Sort(NumLe, Ungreased(Gather(GroupsIn, Kept(a))))) == Dashed(Sort(NumLe, Ungreased(Gather(GroupsIn, Kept(b)))))
  {
    ListPermuted(GroupsIn, a, b);
    SortedDash(Ungreased(Gather(GroupsIn, Kept(a))), Ungreased(Gather(GroupsIn, Kept(b))));
  }

  lemma {:induction false} SortedFormats(a: seq<Ext>, b: seq<Ext>)
    requires multiset(a) == multiset(b)
    ensures Dashed(Sort(NumLe, Gather(FormatsIn, Kept(a)))) == Dashed(Sort(NumLe, Gather(FormatsIn, Kept(b))))
  {
    ListPermuted(FormatsIn, a, b);
    SortedDash(Gather(FormatsIn, Kept(a)), Gather(FormatsIn, Kept(b)));
  }

  lemma {:induction false} SortedDash(a: seq<int>, b: seq<int>)
    requires multiset(a) == multiset(b)
    ensures Dashed(Sort(NumLe, a)) == Dashed(Sort(NumLe, b))
  {
    OrdersAreTotal();
    SortPermuted(NumLe, a, b);
  }

  lemma {:induction false} HexSorted(f: int -> seq<string>, a: seq<int>, b: seq<int>)
    requires multiset(a) == multiset(b)
    ensures Sort(TextLe, Gather(f, a)) == Sort(TextLe, Gather(f, b))
  {
    OrdersAreTotal();
    GatherPermuted(f, a, b);
    SortPermuted(TextLe, Gather(f, a), Gather(f, b));
  }

  /** Two hellos whose lists are permutations of each other where JA4 sorts or maximises. */
  predicate SameUpToOrder(j: Ja4, k: Ja4) {
    && j.legacy == k.legacy && multiset(j.ciphers) == multiset(k.ciphers)
    && multiset(j.extTypes) == multiset(k.extTypes) && j.hasSni == k.hasSni && j.firstAlpn == k.firstAlpn
    && multiset(Ungreased(j.versions)) == multiset(Ungreased(k.versions)) && j.sigAlgs == k.sigAlgs
  }

  lemma Ja4ComputePermuted(sha: string -> string, j: Ja4, k: Ja4)
    requires SameUpToOrder(j, k)
    ensures Ja4Compute(sha, j) == Ja4Compute(sha, k)
  {
    BestPermuted(Ungreased(j.versions), Ungreased(k.versions));
    assert |multiset(j.ciphers)| == |j.ciphers| && |multiset(k.ciphers)| == |k.ciphers|;
    assert |multiset(j.extTypes)| == |j.extTypes| && |multiset(k.extTypes)| == |k.extTypes|;
    HexSorted(HexOf, j.ciphers, k.ciphers);
    HexSorted(HexButNamesAlpn, j.extTypes, k.extTypes);
    HexSorted(HexButAlpn, j.extTypes, k.extTypes);
  }

  lemma {:induction false} AlpnReordered(a: seq<Ext>, b: seq<Ext>)
    requires Gather(OnlyAlpn, a) == Gather(OnlyAlpn, b)
    ensures Gather(AlpnIn, Kept(a)) == Gather(AlpnIn, Kept(b))
  {
    KeptGathers(AlpnIn, a);
    KeptGathers(AlpnIn, b);
    GatherOnly(AlpnIn, OnlyAlpn, a);
    GatherOnly(AlpnIn, OnlyAlpn, b);
  }

  lemma {:induction false} SigsReordered(a: seq<Ext>, b: seq<Ext>)
    requires Gather(OnlySigs, a) == Gather(OnlySigs, b)
    ensures Gather(SigAlgsIn, Kept(a)) == Gather(SigAlgsIn, Kept(b))
  {
    KeptGathers(SigAlgsIn, a);
    KeptGathers(SigAlgsIn, b);
    GatherOnly(SigAlgsIn, OnlySigs, a);
    GatherOnly(SigAlgsIn, OnlySigs, b);
  }

  lemma MemberPermuted(x: int, a: seq<int>, b: seq<int>)
    requires multiset(a) == multiset(b)
    ensures x in a <==> x in b
  {
    assert x in a <==> x in multiset(a);
    assert x in b <==> x in multiset(b);
  }

  lemma Ja4ListsReordered(legacy: int, c: seq<int>, a: seq<Ext>, c': seq<int>, b: seq<Ext>)
    requires multiset(c) == multiset(c') && Reordered(a, b)
    ensures SameUpToOrder(Ja4Lists(legacy, c, a), Ja4Lists(legacy, c', b))
  {
    TypesPermuted(a, b);
    MemberPermuted(0, Gather(TypeOf, Kept(a)), Gather(TypeOf, Kept(b)));
    ListPermuted(VersionsIn, a, b);
    AlpnReordered(a, b);
    SigsReordered(a, b);
  }

  /** For any two bodies both parsers accept, with the same version, the same ciphers in any
      order and the same extensions reordered: same sorted JA3, same JA4 in every field but
      the wire-order one. */
  lemma ReorderingInvisible(sha: string -> string, x: seq<byte>, y: seq<byte>)
    requires Ja4Spec(x).Some? && Ja4Spec(y).Some?
    requires var l, m := Skeleton(x).value, Skeleton(y).value;
      && l.legacy == m.legacy
      && multiset(Words(l.ciphers, 0, |l.ciphers|)) == multiset(Words(m.ciphers, 0, |m.ciphers|))
      && Reordered(SplitExts(l.extensions, 0).exts, SplitExts(m.extensions, 0).exts)
    ensures Ja3SortedString(Ja3Spec(x).value) == Ja3SortedString(Ja3Spec(y).value)
    ensures var c, d := Ja4Compute(sha, Ja4Spec(x).value), Ja4Compute(sha, Ja4Spec(y).value);
      c == d && Ja4Fingerprint(c) == Ja4Fingerprint(d)
  {
    var l, m := Skeleton(x).value, Skeleton(y).value;
    var c, c' := Words(l.ciphers, 0, |l.ciphers|), Words(m.ciphers, 0, |m.ciphers|);
    var a, b := SplitExts(l.extensions, 0).exts, SplitExts(m.extensions, 0).exts;
    UngreasedPermuted(c, c');
    Ja3SortedPermuted(l.legacy, Ungreased(c), a, Ungreased(c'), b);
    Ja4ListsReordered(l.legacy, Ungreased(c), a, Ungreased(c'), b);
    Ja4ComputePermuted(sha, Ja4Spec(x).value, Ja4Spec(y).value);
  }

  // ---- GREASE does not matter ----

  function Degrease(x: Extension): (y: Extension) {
    match x
    case Groups(gs) => Groups(Ungreased(gs))
    case SigAlgs(ss) => SigAlgs(Ungreased(ss))
    case SigAlgsCert(ss) => SigAlgsCert(Ungreased(ss))
    case Versions(vs) => Versions(Ungreased(vs))
    case _ => x
  }

  function DegreaseOne(x: Extension): (r: seq<Extension>) {
    if x.Raw? && IsGrease(x.typ) then [] else [Degrease(x)]
  }

  function Degreased(xs: seq<Extension>): (r: seq<Extension>) {
    Gather(DegreaseOne, xs)
  }

  /** Two hellos that differ only in GREASE values (and in random, session id, compression). */
  predicate GreaseTwins(h: Hello, k: Hello) {
    h.legacy == k.legacy && Ungreased(h.ciphers) == Ungreased(k.ciphers) && Degreased(h.exts) == Degreased(k.exts)
  }

  function TypeNumber(x: Extension): (r: seq<int>) {
    [ToWire(x).typ]
  }

  function GroupsOf(x: Extension): (r: seq<int>) {
    if x.Groups? then x.groups else []
  }

  function FormatsOf(x: Extension): (r: seq<int>) {
    if x.Formats? then Octets(x.formats) else []
  }

  function ProtocolsOf(x: Extension): (r: seq<seq<byte>>) {
    if x.Alpn? then x.protocols else []
  }

  function VersionsOf(x: Extension): (r: seq<int>) {
    if x.Versions? then x.versions else []
  }

  function AlgsOf(x: Extension): (r: seq<int>) {
    if x.SigAlgs? then x.algs else if x.SigAlgsCert? then x.certAlgs else []
  }

  lemma KeptOne<T>(f: Ext -> seq<T>, e: Ext)
    ensures Gather(f, Kept([e])) == if IsGrease(e.typ) then [] else f(e)
  {
    var first := if IsGrease(e.typ) then [] else [e];
    assert Kept([e]) == first + Kept([]) == first;
    if !IsGrease(e.typ) { GatherOne(f, e); }
  }

  lemma DegreasedOne<T>(g: Extension -> seq<T>, x: Extension)
    ensures Gather(g, DegreaseOne(x)) == if x.Raw? && IsGrease(x.typ) then [] else g(Degrease(x))
  {
    if !(x.Raw? && IsGrease(x.typ)) { GatherOne(g, Degrease(x)); }
  }

  /** A printed extension has a GREASE type exactly if it is a raw one of that type. */
  lemma WireGrease(x: Extension)
    ensures IsGrease(ToWire(x).typ) <==> x.Raw? && IsGrease(x.typ)
    ensures ToWire(Degrease(x)).typ == ToWire(x).typ
  {}

  /** What a parser keeps of one printed extension is what its degreased form lists. */
  lemma OneKept(x: Extension)
    requires FitsExtension(x)
    ensures Gather(TypeOf, Kept([ToWire(x)])) == Gather(TypeNumber, DegreaseOne(x))
    ensures Ungreased(Gather(GroupsIn, Kept([ToWire(x)]))) == Gather(GroupsOf, DegreaseOne(x))
    ensures Gather(FormatsIn, Kept([ToWire(x)])) == Gather(FormatsOf, DegreaseOne(x))
  {
    ExtensionBack(x);
    WireGrease(x);
    KeptOne(TypeOf, ToWire(x));
    KeptOne(GroupsIn, ToWire(x));
    KeptOne(FormatsIn, ToWire(x));
    DegreasedOne(TypeNumber, x);
    DegreasedOne(GroupsOf, x);
    DegreasedOne(FormatsOf, x);
  }

  lemma OneKeptMore(x: Extension)
    requires FitsExtension(x)
    ensures Gather(AlpnIn, Kept([ToWire(x)])) == Gather(ProtocolsOf, DegreaseOne(x))
    ensures Ungreased(Gather(VersionsIn, Kept([ToWire(x)]))) == Gather(VersionsOf, DegreaseOne(x))
    ensures Ungreased(Gather(SigAlgsIn, Kept([ToWire(x)]))) == Gather(AlgsOf, DegreaseOne(x))
  {
    ExtensionBack(x);
    WireGrease(x);
    KeptOne(AlpnIn, ToWire(x));
    KeptOne(VersionsIn, ToWire(x));
    KeptOne(SigAlgsIn, ToWire(x));
    DegreasedOne(ProtocolsOf, x);
    DegreasedOne(VersionsOf, x);
    DegreasedOne(AlgsOf, x);
  }

  /** Lists of a whole extension block, split after the first extension. */
  lemma {:induction false} KeptCons<T>(f: Ext -> seq<T>, e: Ext, es: seq<Ext>)
    ensures Gather(f, Kept([e] + es)) == Gather(f, Kept([e])) + Gather(f, Kept(es))
  {
    var first := if IsGrease(e.typ) then [] else [e];
    assert ([e] + es)[1..] == es;
    assert Kept([e]) == first + Kept([]) == first;
    GatherAppend(f, first, Kept(es));
  }

  lemma DegreasedCons<T>(g: Extension -> seq<T>, xs: seq<Extension>)
    requires xs != []
    ensures Gather(g, Degreased(xs)) == Gather(g, DegreaseOne(xs[0])) + Gather(g, Degreased(xs[1..]))
  {
    GatherAppend(g, DegreaseOne(xs[0]), Degreased(xs[1..]));
  }

  /** The parsers' lists over a printed block are lists of the degreased extensions. */
  lemma {:induction false} ListKept<T>(f: Ext -> seq<T>, g: Extension -> seq<T>, xs: seq<Extension>)
    requires forall x: Extension :: FitsExtension(x) ==> Gather(f, Kept([ToWire(x)])) == Gather(g, DegreaseOne(x))
    requires AllFit(xs)
    ensures Gather(f, Kept(WireAll(xs))) == Gather(g, Degreased(xs))
    decreases |xs|
  {
    if xs != [] {
      assert FitsExtension(xs[0]);
      ListKept(f, g, xs[1..]);
      KeptCons(f, ToWire(xs[0]), WireAll(xs[1..]));
      DegreasedCons(g, xs);
    }
  }

  lemma {:induction false} ListUngreased(f: Ext -> seq<int>, g: Extension -> seq<int>, xs: seq<Extension>)
    requires forall x: Extension :: FitsExtension(x) ==>
               Ungreased(Gather(f, Kept([ToWire(x)]))) == Gather(g, DegreaseOne(x))
    requires AllFit(xs)
    ensures Ungreased(Gather(f, Kept(WireAll(xs)))) == Gather(g, Degreased(xs))
    decreases |xs|
  {
    if xs != [] {
      assert FitsExtension(xs[0]);
      ListUngreased(f, g, xs[1..]);
      KeptCons(f, ToWire(xs[0]), WireAll(xs[1..]));
      UngreasedAppend(Gather(f, Kept([ToWire(xs[0])])), Gather(f, Kept(WireAll(xs[1..]))));
      DegreasedCons(g, xs);
    }
  }

  lemma {:induction false} PrintedTypes(xs: seq<Extension>)
    requires AllFit(xs)
    ensures Gather(TypeOf, Kept(WireAll(xs))) == Gather(TypeNumber, Degreased(xs))
  {
    forall x: Extension | FitsExtension(x)
      ensures Gather(TypeOf, Kept([ToWire(x)])) == Gather(TypeNumber, DegreaseOne(x))
    {
      OneKept(x);
    }
    ListKept(TypeOf, TypeNumber, xs);
  }

  lemma {:induction false} PrintedGroups(xs: seq<Extension>)
    requires AllFit(xs)
    ensures Ungreased(Gather(GroupsIn, Kept(WireAll(xs)))) == Gather(GroupsOf, Degreased(xs))
  {
    forall x: Extension | FitsExtension(x)
      ensures Ungreased(Gather(GroupsIn, Kept([ToWire(x)]))) == Gather(GroupsOf, DegreaseOne(x))
    {
      OneKept(x);
    }
    ListUngreased(GroupsIn, GroupsOf, xs);
  }

  lemma {:induction false} PrintedFormats(xs: seq<Extension>)
    requires AllFit(xs)
    ensures Gather(FormatsIn, Kept(WireAll(xs))) == Gather(FormatsOf, Degreased(xs))
  {
    forall x: Extension | FitsExtension(x)
      ensures Gather(FormatsIn, Kept([ToWire(x)])) == Gather(FormatsOf, DegreaseOne(x))
    {
      OneKept(x);
    }
    ListKept(FormatsIn, FormatsOf, xs);
  }

  lemma {:induction false} PrintedAlpn(xs: seq<Extension>)
    requires AllFit(xs)
    ensures Gather(AlpnIn, Kept(WireAll(xs))) == Gather(ProtocolsOf, Degreased(xs))
  {
    forall x: Extension | FitsExtension(x)
      ensures Gather(AlpnIn, Kept([ToWire(x)])) == Gather(ProtocolsOf, DegreaseOne(x))
    {
      OneKeptMore(x);
    }
    ListKept(AlpnIn, ProtocolsOf, xs);
  }

  lemma {:induction false} PrintedVersions(xs: seq<Extension>)
    requires AllFit(xs)
    ensures Ungreased(Gather(VersionsIn, Kept(WireAll(xs)))) == Gather(VersionsOf, Degreased(xs))
  {
    forall x: Extension | FitsExtension(x)
      ensures Ungreased(Gather(VersionsIn, Kept([ToWire(x)]))) == Gather(VersionsOf, DegreaseOne(x))
    {
      OneKeptMore(x);
    }
    ListUngreased(VersionsIn, VersionsOf, xs);
  }

  lemma {:induction false} PrintedAlgs(xs: seq<Extension>)
    requires AllFit(xs)
    ensures Ungreased(Gather(SigAlgsIn, Kept(WireAll(xs)))) == Gather(AlgsOf, Degreased(xs))
  {
    forall x: Extension | FitsExtension(x)
      ensures Ungreased(Gather(SigAlgsIn, Kept([ToWire(x)]))) == Gather(AlgsOf, DegreaseOne(x))
    {
      OneKeptMore(x);
    }
    ListUngreased(SigAlgsIn, AlgsOf, xs);
  }

  /** Both helper parsers accept every printed hello. */
  lemma PrintedParses(h: Hello)
    requires Fits(h)
    ensures Ja3Spec(Print(h)) == Some(Ja3Lists(h.legacy, Ungreased(h.ciphers), WireAll(h.exts)))
    ensures Ja4Spec(Print(h)) == Some(Ja4Lists(h.legacy, Ungreased(h.ciphers), WireAll(h.exts)))
  {
    PrintBack(h);
    SpecsOf(Layout(h.legacy, PrintWords(h.ciphers), PrintExts(WireAll(h.exts))), h.ciphers, WireAll(h.exts));
  }

  lemma {:induction false} SpecsOf(l: Layout, ciphers: seq<int>, exts: seq<Ext>)
    requires |l.ciphers| == 2 * |ciphers| && Words(l.ciphers, 0, |l.ciphers|) == ciphers
    requires SplitExts(l.extensions, 0) == Split(exts, |l.extensions|, false)
    ensures Ja3Of(l) == Some(Ja3Lists(l.legacy, Ungreased(ciphers), exts))
    ensures Ja4Of(l) == Some(Ja4Lists(l.legacy, Ungreased(ciphers), exts))
  {
    Ja3SpecOf(l, ciphers, exts);
    Ja4SpecOf(l, ciphers, exts);
  }

  lemma {:induction false} Ja3SpecOf(l: Layout, ciphers: seq<int>, exts: seq<Ext>)
    requires |l.ciphers| % 2 == 0 && Words(l.ciphers, 0, |l.ciphers|) == ciphers
    requires SplitExts(l.extensions, 0) == Split(exts, |l.extensions|, false)
    ensures Ja3Of(l) == Some(Ja3Lists(l.legacy, Ungreased(ciphers), exts))
  {}

  lemma {:induction false} Ja4SpecOf(l: Layout, ciphers: seq<int>, exts: seq<Ext>)
    requires |l.ciphers| % 2 == 0 && Words(l.ciphers, 0, |l.ciphers|) == ciphers
    requires SplitExts(l.extensions, 0) == Split(exts, |l.extensions|, false)
    ensures Ja4Of(l) == Some(Ja4Lists(l.legacy, Ungreased(ciphers), exts))
  {}

  /** GREASE in ciphers, extensions, groups, versions or signature algorithms leaves both JA3
      strings and every JA4 field as they were; so do random, session id and compression. */
  lemma GreaseInvisible(sha: string -> string, h: Hello, k: Hello)
    requires Fits(h) && Fits(k) && GreaseTwins(h, k)
    ensures var a, b := Ja3Spec(Print(h)), Ja3Spec(Print(k));
      && a.Some? && b.Some?
      && Ja3String(a.value) == Ja3String(b.value) && Ja3SortedString(a.value) == Ja3SortedString(b.value)
    ensures var c, d := Ja4Spec(Print(h)), Ja4Spec(Print(k));
      && c.Some? && d.Some?
      && Ja4Compute(sha, c.value) == Ja4Compute(sha, d.value) && Ja4RawO(sha, c.value) == Ja4RawO(sha, d.value)
      && Ja4Fingerprint(Ja4Compute(sha, c.value)) == Ja4Fingerprint(Ja4Compute(sha, d.value))
  {
    PrintedParses(h);
    PrintedParses(k);
    TwinsJa3(h, k);
    TwinsJa4(sha, h, k);
  }

  lemma TwinsJa3(h: Hello, k: Hello)
    requires AllFit(h.exts) && AllFit(k.exts) && GreaseTwins(h, k)
    ensures var j, l := Ja3Lists(h.legacy, Ungreased(h.ciphers), WireAll(h.exts)),
                        Ja3Lists(k.legacy, Ungreased(k.ciphers), WireAll(k.exts));
      Ja3String(j) == Ja3String(l) && Ja3SortedString(j) == Ja3SortedString(l)
  {
    PrintedTypes(h.exts);
    PrintedTypes(k.exts);
    PrintedGroups(h.exts);
    PrintedGroups(k.exts);
    PrintedFormats(h.exts);
    PrintedFormats(k.exts);
    GreaseJa3(h.legacy, Ungreased(h.ciphers), WireAll(h.exts), WireAll(k.exts));
  }

  lemma TwinsJa4(sha: string -> string, h: Hello, k: Hello)
    requires AllFit(h.exts) && AllFit(k.exts) && GreaseTwins(h, k)
    ensures var j, l := Ja4Lists(h.legacy, Ungreased(h.ciphers), WireAll(h.exts)),
                        Ja4Lists(k.legacy, Ungreased(k.ciphers), WireAll(k.exts));
      Ja4Compute(sha, j) == Ja4Compute(sha, l) && Ja4RawO(sha, j) == Ja4RawO(sha, l)
  {
    PrintedTypes(h.exts);
    PrintedTypes(k.exts);
    PrintedAlpn(h.exts);
    PrintedAlpn(k.exts);
    PrintedVersions(h.exts);
    PrintedVersions(k.exts);
    PrintedAlgs(h.exts);
    PrintedAlgs(k.exts);
    GreaseJa4(sha, h.legacy, Ungreased(h.ciphers), WireAll(h.exts), WireAll(k.exts));
  }

  lemma {:induction false} GreaseJa3(legacy: int, c: seq<int>, a: seq<Ext>, b: seq<Ext>)
    requires Gather(TypeOf, Kept(a)) == Gather(TypeOf, Kept(b))
    requires Ungreased(Gather(GroupsIn, Kept(a))) == Ungreased(Gather(GroupsIn, Kept(b)))
    requires Gather(FormatsIn, Kept(a)) == Gather(FormatsIn, Kept(b))
    ensures Ja3String(Ja3Lists(legacy, c, a)) == Ja3String(Ja3Lists(legacy, c, b))
    ensures Ja3SortedString(Ja3Lists(legacy, c, a)) == Ja3SortedString(Ja3Lists(legacy, c, b))
  {}

  lemma {:induction false} GreaseJa4(sha: string -> string, legacy: int, c: seq<int>, a: seq<Ext>, b: seq<Ext>)
    requires Gather(TypeOf, Kept(a)) == Gather(TypeOf, Kept(b))
    requires Gather(AlpnIn, Kept(a)) == Gather(AlpnIn, Kept(b))
    requires Ungreased(Gather(VersionsIn, Kept(a))) == Ungreased(Gather(VersionsIn, Kept(b)))
    requires Ungreased(Gather(SigAlgsIn, Kept(a))) == Ungreased(Gather(SigAlgsIn, Kept(b)))
    ensures Ja4Compute(sha, Ja4Lists(legacy, c, a)) == Ja4Compute(sha, Ja4Lists(legacy, c, b))
    ensures Ja4RawO(sha, Ja4Lists(legacy, c, a)) == Ja4RawO(sha, Ja4Lists(legacy, c, b))
  {
    var j, k := Ja4Lists(legacy, c, a), Ja4Lists(legacy, c, b);
    assert SameUpToOrder(j, k);
    Ja4ComputePermuted(sha, j, k);
  }

  /** Inserting one GREASE value anywhere makes a twin: among the ciphers, as an extension,
      or inside the list of an extension. */
  lemma InsertionsMakeTwins(h: Hello, g: int, i: nat, data: seq<byte>)
    requires IsGrease(g)
    ensures i <= |h.ciphers| ==> GreaseTwins(h, h.(ciphers := h.ciphers[..i] + [g] + h.ciphers[i..]))
    ensures i <= |h.exts| ==> GreaseTwins(h, h.(exts := h.exts[..i] + [Raw(g, data)] + h.exts[i..]))
  {
    if i <= |h.ciphers| {
      InsertUngreased(h.ciphers, g, i);
    }
    if i <= |h.exts| {
      var x := Raw(g, data);
      GatherAppend(DegreaseOne, h.exts[..i] + [x], h.exts[i..]);
      GatherSnoc(DegreaseOne, h.exts[..i], x);
      GatherAppend(DegreaseOne, h.exts[..i], h.exts[i..]);
      assert h.exts[..i] + h.exts[i..] == h.exts;
      AddNothing(Gather(DegreaseOne, h.exts[..i]));
    }
  }

  lemma {:induction false} InsertUngreased(vs: seq<int>, g: int, i: nat)
    requires IsGrease(g) && i <= |vs|
    ensures Ungreased(vs[..i] + [g] + vs[i..]) == Ungreased(vs)
  {
    InsertBetween(vs[..i], g, vs[i..]);
    assert vs[..i] + vs[i..] == vs;
  }

  lemma {:induction false} InsertBetween(a: seq<int>, g: int, b: seq<int>)
    requires IsGrease(g)
    ensures Ungreased(a + [g] + b) == Ungreased(a + b)
  {
    UngreasedAppend(a + [g], b);
    UngreasedSnoc(a, g);
    UngreasedAppend(a, b);
  }

  /** An extension whose list differs by GREASE only may take the place of extension `i`. */
  lemma InsideMakesTwins(h: Hello, i: nat, x: Extension)
    requires i < |h.exts| && DegreaseOne(x) == DegreaseOne(h.exts[i])
    ensures GreaseTwins(h, h.(exts := h.exts[i := x]))
  {
    ReplacedDegreased(h.exts, i, x);
    ReplacedDegreased(h.exts, i, h.exts[i]);
    assert h.exts[i := h.exts[i]] == h.exts;
  }

  lemma ReplacedDegreased(xs: seq<Extension>, i: nat, x: Extension)
    requires i < |xs|
    ensures Degreased(xs[i := x]) == Degreased(xs[..i]) + (DegreaseOne(x) + Degreased(xs[i + 1..]))
  {
    assert xs[i := x] == xs[..i] + ([x] + xs[i + 1..]);
    GatherAppend(DegreaseOne, xs[..i], [x] + xs[i + 1..]);
    GatherAppend(DegreaseOne, [x], xs[i + 1..]);
    GatherOne(DegreaseOne, x);
  }
}
