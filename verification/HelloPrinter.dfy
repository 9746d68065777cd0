/** A specification serialiser for ClientHello bodies (section 4.1.2 of RFC 8446), and
    parse-after-print for the skeleton, the extensions and the lists inside them. */
module HelloPrinter {
  import opened Bytes
  import opened Lists
  import opened HelloLayout

  /** An entry of a server name list; only type 0 is a host name (section 3 of RFC 6066). */
  datatype Name = Name(typ: byte, text: seq<byte>)

  /** The host names of a list, in order. */
  function HostNames(ns: seq<Name>): (hs: seq<seq<byte>>)
    decreases |ns|
  {
    if ns == [] then [] else (if ns[0].typ == 0 then [ns[0].text] else []) + HostNames(ns[1..])
  }

  /** An extension with its contents; `Raw` stands for the types no parser looks into. */
  datatype Extension =
    | Names(names: seq<Name>)
    | Groups(groups: seq<int>)
    | Formats(formats: seq<byte>)
    | SigAlgs(algs: seq<int>)
    | Alpn(protocols: seq<seq<byte>>)
    | Versions(versions: seq<int>)
    | SigAlgsCert(certAlgs: seq<int>)
    | Raw(typ: int, data: seq<byte>)

  datatype Hello = Hello(
    legacy: int, random: seq<byte>, sessionId: seq<byte>, ciphers: seq<int>, compression: seq<byte>,
    exts: seq<Extension>)

  // ---- Printing ----

  function PrintWords(ws: seq<int>): (b: seq<byte>)
    ensures |b| == 2 * |ws|
    decreases |ws|
  {
    if ws == [] then [] else Field(ws[0]) + PrintWords(ws[1..])
  }

  function PrintProtocols(ps: seq<seq<byte>>): (b: seq<byte>)
    decreases |ps|
  {
    if ps == [] then [] else Octet(|ps[0]|) + ps[0] + PrintProtocols(ps[1..])
  }

  function PrintNames(ns: seq<Name>): (b: seq<byte>)
    decreases |ns|
  {
    if ns == [] then [] else [ns[0].typ] + Field(|ns[0].text|) + ns[0].text + PrintNames(ns[1..])
  }

  function Long(b: seq<byte>): seq<byte> {
    Field(|b|) + b
  }

  function Short(b: seq<byte>): seq<byte> {
    Octet(|b|) + b
  }

  /** The extension on the wire: its type and its data. */
  function ToWire(x: Extension): (e: Ext) {
    match x
    case Names(ns) => Ext(0, Long(PrintNames(ns)))
    case Groups(gs) => Ext(10, Long(PrintWords(gs)))
    case Formats(fs) => Ext(11, Short(fs))
    case SigAlgs(ss) => Ext(13, Long(PrintWords(ss)))
    case Alpn(ps) => Ext(16, Long(PrintProtocols(ps)))
    case Versions(vs) => Ext(43, Short(PrintWords(vs)))
    case SigAlgsCert(ss) => Ext(50, Long(PrintWords(ss)))
    case Raw(typ, data) => Ext(typ, data)
  }

  function WireAll(xs: seq<Extension>): (es: seq<Ext>)
    ensures |es| == |xs|
    decreases |xs|
  {
    if xs == [] then [] else [ToWire(xs[0])] + WireAll(xs[1..])
  }

  function PrintExt(e: Ext): (b: seq<byte>) {
    Field(e.typ) + Long(e.data)
  }

  function PrintExts(es: seq<Ext>): (b: seq<byte>)
    decreases |es|
  {
    if es == [] then [] else PrintExt(es[0]) + PrintExts(es[1..])
  }

  function Print(h: Hello): (b: seq<byte>) {
    Field(h.legacy) + (h.random + (Short(h.sessionId) + (Long(PrintWords(h.ciphers))
      + (Short(h.compression) + Long(PrintExts(WireAll(h.exts)))))))
  }

  // ---- Which hellos fit their length fields ----

  predicate AreWords(ws: seq<int>) {
    forall i | 0 <= i < |ws| :: 0 <= ws[i] < 0x1_0000
  }

  predicate Shorter(n: int, bs: seq<seq<byte>>) {
    forall i | 0 <= i < |bs| :: |bs[i]| < n
  }

  predicate ShortNames(ns: seq<Name>) {
    forall i | 0 <= i < |ns| :: |ns[i].text| < 0x1_0000
  }

  predicate FitsExtension(x: Extension) {
    && |ToWire(x).data| < 0x1_0000
    && match x
       case Names(ns) => ShortNames(ns)
       case Groups(gs) => AreWords(gs)
       case Formats(fs) => |fs| < 256
       case SigAlgs(ss) => AreWords(ss)
       case Alpn(ps) => Shorter(256, ps)
       case Versions(vs) => AreWords(vs) && |vs| < 128
       case SigAlgsCert(ss) => AreWords(ss)
       case Raw(typ, _) => 0 <= typ < 0x1_0000 && typ !in {0, 10, 11, 13, 16, 43, 50}
  }

  predicate AllFit(xs: seq<Extension>) {
    forall i | 0 <= i < |xs| :: FitsExtension(xs[i])
  }

  predicate Fits(h: Hello) {
    && 0 <= h.legacy < 0x1_0000 && |h.random| == 32 && |h.sessionId| < 256
    && AreWords(h.ciphers) && |h.ciphers| < 0x8000
    && |h.compression| < 256
    && |PrintExts(WireAll(h.exts))| < 0x1_0000
    && AllFit(h.exts)
  }

  // ---- Reading back lists ----

  lemma {:induction false} WordsBack(b: seq<byte>, o: nat, ws: seq<int>)
    requires AreWords(ws) && At(b, o, PrintWords(ws))
    ensures Words(b, o, o + 2 * |ws|) == ws
    decreases |ws|
  {
    if ws != [] {
      AtSplit(b, o, Field(ws[0]), PrintWords(ws[1..]));
      AtU16(b, o, ws[0]);
      WordsBack(b, o + 2, ws[1..]);
    }
  }

  lemma {:induction false} WordsWithinBack(b: seq<byte>, o: nat, ws: seq<int>)
    requires AreWords(ws) && At(b, o, PrintWords(ws))
    ensures WordsWithin(b, o, 2 * |ws|) == ws
    decreases |ws|
  {
    if ws != [] {
      AtSplit(b, o, Field(ws[0]), PrintWords(ws[1..]));
      AtU16(b, o, ws[0]);
      WordsWithinBack(b, o + 2, ws[1..]);
    }
  }

  lemma AlpnHead(b: seq<byte>, o: nat, p: seq<byte>, rest: seq<byte>)
    requires |p| < 256 && At(b, o, Octet(|p|) + p + rest)
    ensures At(b, o + 1, p) && At(b, o + 1 + |p|, rest) && b[o] as int == |p|
  {
    assert Octet(|p|) + p + rest == Octet(|p|) + (p + rest);
    AtSplit(b, o, Octet(|p|), p + rest);
    AtSplit(b, o + 1, p, rest);
    AtElement(b, o, Octet(|p|), 0);
  }

  lemma {:induction false} AlpnBack(b: seq<byte>, o: nat, ps: seq<seq<byte>>)
    requires Shorter(256, ps) && At(b, o, PrintProtocols(ps))
    ensures AlpnList(b, o, |PrintProtocols(ps)|) == ps
    decreases |ps|
  {
    if ps != [] {
      AlpnHead(b, o, ps[0], PrintProtocols(ps[1..]));
      AlpnBack(b, o + 1 + |ps[0]|, ps[1..]);
    }
  }

  /** The entries `ns` stand at `o`. */
  predicate NamesStand(b: seq<byte>, o: nat, ns: seq<Name>)
    decreases |ns|
  {
    ns == [] ||
    var n := |ns[0].text|;
    && o + 3 + n <= |b| && b[o] == ns[0].typ && U16(b, o + 1) == n && b[o + 3..o + 3 + n] == ns[0].text
    && NamesStand(b, o + 3 + n, ns[1..])
  }

  function NamesSize(ns: seq<Name>): (n: nat)
    decreases |ns|
  {
    if ns == [] then 0 else 3 + |ns[0].text| + NamesSize(ns[1..])
  }

  /** One entry is read, and the walk goes on behind it. */
  lemma NameRead(b: seq<byte>, o: nat, n: Name, budget: int)
    requires At(b, o + 3, n.text) && b[o] == n.typ && U16(b, o + 1) == |n.text| && budget >= 3
    ensures SniList(b, o, budget)
         == (if n.typ == 0 then [n.text] else []) + SniList(b, o + 3 + |n.text|, budget - (3 + |n.text|))
  {}

  lemma {:induction false} NamesRead(b: seq<byte>, o: nat, ns: seq<Name>)
    requires NamesStand(b, o, ns)
    ensures SniList(b, o, NamesSize(ns)) == HostNames(ns)
    decreases |ns|
  {
    if ns != [] {
      NameRead(b, o, ns[0], NamesSize(ns));
      NamesRead(b, o + 3 + |ns[0].text|, ns[1..]);
    }
  }

  lemma {:induction false} NamesPrinted(b: seq<byte>, o: nat, ns: seq<Name>)
    requires ShortNames(ns) && At(b, o, PrintNames(ns))
    ensures NamesStand(b, o, ns) && |PrintNames(ns)| == NamesSize(ns)
    decreases |ns|
  {
    if ns != [] {
      NameHead(b, o, ns[0], PrintNames(ns[1..]));
      NamesPrinted(b, o + 3 + |ns[0].text|, ns[1..]);
    }
  }

  lemma {:induction false} NamesBack(b: seq<byte>, o: nat, ns: seq<Name>)
    requires ShortNames(ns) && At(b, o, PrintNames(ns))
    ensures SniList(b, o, |PrintNames(ns)|) == HostNames(ns)
  {
    NamesPrinted(b, o, ns);
    NamesRead(b, o, ns);
  }

  lemma NameHead(b: seq<byte>, o: nat, n: Name, rest: seq<byte>)
    requires |n.text| < 0x1_0000 && At(b, o, [n.typ] + Field(|n.text|) + n.text + rest)
    ensures At(b, o + 3, n.text) && At(b, o + 3 + |n.text|, rest) && b[o] == n.typ && U16(b, o + 1) == |n.text|
  {
    assert [n.typ] + Field(|n.text|) + n.text + rest == [n.typ] + (Field(|n.text|) + (n.text + rest));
    AtSplit(b, o, [n.typ], Field(|n.text|) + (n.text + rest));
    AtSplit(b, o + 1, Field(|n.text|), n.text + rest);
    AtSplit(b, o + 3, n.text, rest);
    AtElement(b, o, [n.typ], 0);
    AtU16(b, o + 1, |n.text|);
  }

  // ---- Reading back extensions ----

  predicate FitsWire(es: seq<Ext>) {
    forall i | 0 <= i < |es| :: 0 <= es[i].typ < 0x1_0000 && |es[i].data| < 0x1_0000
  }

  /** The extensions `es` stand at `o` and fill the rest of `b`. */
  predicate Stand(b: seq<byte>, o: nat, es: seq<Ext>)
    decreases |es|
  {
    if es == [] then o == |b|
    else
      var n := |es[0].data|;
      && o + 4 + n <= |b| && U16(b, o) == es[0].typ && U16(b, o + 2) == n
      && b[o + 4..o + 4 + n] == es[0].data && Stand(b, o + 4 + n, es[1..])
  }

  lemma {:induction false} StandRead(b: seq<byte>, o: nat, es: seq<Ext>)
    requires Stand(b, o, es)
    ensures o <= |b| && SplitExts(b, o) == Split(es, |b|, false)
    decreases |es|
  {
    if es != [] {
      StandRead(b, o + 4 + |es[0].data|, es[1..]);
      assert es == [es[0]] + es[1..];
    }
  }

  lemma {:induction false} PrintedStand(b: seq<byte>, o: nat, es: seq<Ext>)
    requires FitsWire(es) && At(b, o, PrintExts(es)) && o + |PrintExts(es)| == |b|
    ensures Stand(b, o, es)
    decreases |es|
  {
    if es != [] {
      ExtHead(b, o, es[0], PrintExts(es[1..]));
      PrintedStand(b, o + 4 + |es[0].data|, es[1..]);
    }
  }

  lemma ExtHead(b: seq<byte>, o: nat, e: Ext, rest: seq<byte>)
    requires 0 <= e.typ < 0x1_0000 && |e.data| < 0x1_0000 && At(b, o, PrintExt(e) + rest)
    ensures |PrintExt(e)| == 4 + |e.data| && At(b, o + 4 + |e.data|, rest) && At(b, o + 4, e.data)
    ensures U16(b, o) == e.typ && U16(b, o + 2) == |e.data|
  {
    AtSplit(b, o, PrintExt(e), rest);
    AtSplit(b, o, Field(e.typ), Long(e.data));
    AtU16(b, o, e.typ);
    AtSplit(b, o + 2, Field(|e.data|), e.data);
    AtU16(b, o + 2, |e.data|);
  }

  lemma LongData(p: seq<byte>)
    requires |p| < 0x1_0000
    ensures |Long(p)| == 2 + |p| && U16(Long(p), 0) == |p| && At(Long(p), 2, p)
  {
    AtAll(Long(p));
    AtSplit(Long(p), 0, Field(|p|), p);
    AtU16(Long(p), 0, |p|);
  }

  /** Every list comes back from the extension that carries it, and from no other. */
  lemma ExtensionBack(x: Extension)
    requires FitsExtension(x)
    ensures var e := ToWire(x);
      && NamesIn(e) == (if x.Names? then HostNames(x.names) else [])
      && GroupsIn(e) == (if x.Groups? then x.groups else [])
      && FormatsIn(e) == (if x.Formats? then Octets(x.formats) else [])
      && AlpnIn(e) == (if x.Alpn? then x.protocols else [])
      && VersionsIn(e) == (if x.Versions? then x.versions else [])
      && SigAlgsIn(e) == (if x.SigAlgs? then x.algs else if x.SigAlgsCert? then x.certAlgs else [])
  {
    match x
    case Names(ns) =>
      LongData(PrintNames(ns));
      NamesBack(ToWire(x).data, 2, ns);
    case Groups(gs) => LongWordsBack(gs);
    case Formats(fs) => FormatsBack(fs);
    case SigAlgs(ss) => LongWordsBack(ss);
    case Alpn(ps) =>
      LongData(PrintProtocols(ps));
      AlpnBack(ToWire(x).data, 2, ps);
    case Versions(vs) => VersionsBack(vs);
    case SigAlgsCert(ss) => LongWordsBack(ss);
    case Raw(_, _) =>
  }

  lemma {:induction false} FormatsBack(fs: seq<byte>)
    requires |fs| < 256
    ensures FormatsIn(Ext(11, Short(fs))) == Octets(fs)
  {
    var d := Short(fs);
    assert d[1..] == fs && d[1..Min(|d|, 1 + d[0] as int)] == fs;
  }

  lemma {:induction false} VersionsBack(vs: seq<int>)
    requires AreWords(vs) && |vs| < 128
    ensures VersionsIn(Ext(43, Short(PrintWords(vs)))) == vs
  {
    var d := Short(PrintWords(vs));
    AtAll(d);
    AtSplit(d, 0, Octet(2 * |vs|), PrintWords(vs));
    WordsBack(d, 1, vs);
  }

  lemma {:induction false} LongWordsBack(ws: seq<int>)
    requires AreWords(ws) && |Long(PrintWords(ws))| < 0x1_0000
    ensures |Long(PrintWords(ws))| >= 2
    ensures WordsWithin(Long(PrintWords(ws)), 2, U16(Long(PrintWords(ws)), 0)) == ws
  {
    LongData(PrintWords(ws));
    WordsWithinBack(Long(PrintWords(ws)), 2, ws);
  }

  lemma {:induction false} WireFits(xs: seq<Extension>)
    requires AllFit(xs)
    ensures FitsWire(WireAll(xs))
    decreases |xs|
  {
    if xs != [] {
      WireFits(xs[1..]);
    }
  }

  // ---- Reading back the skeleton ----

  lemma PartsAt(b: seq<byte>, p1: seq<byte>, p2: seq<byte>, p3: seq<byte>, p4: seq<byte>, p5: seq<byte>, p6: seq<byte>)
    requires b == p1 + (p2 + (p3 + (p4 + (p5 + p6))))
    ensures At(b, 0, p1) && At(b, |p1| + |p2|, p3) && At(b, |p1| + |p2| + |p3|, p4)
    ensures At(b, |p1| + |p2| + |p3| + |p4|, p5) && At(b, |p1| + |p2| + |p3| + |p4| + |p5|, p6)
    ensures |b| == |p1| + |p2| + |p3| + |p4| + |p5| + |p6|
  {
    AtAll(b);
    AtSplit(b, 0, p1, p2 + (p3 + (p4 + (p5 + p6))));
    AtSplit(b, |p1|, p2, p3 + (p4 + (p5 + p6)));
    AtSplit(b, |p1| + |p2|, p3, p4 + (p5 + p6));
    AtSplit(b, |p1| + |p2| + |p3|, p4, p5 + p6);
    AtSplit(b, |p1| + |p2| + |p3| + |p4|, p5, p6);
  }

  lemma SkeletonOf(b: seq<byte>, legacy: int, sid: seq<byte>, cs: seq<byte>, xs: seq<byte>)
    requires 0 <= legacy < 0x1_0000 && |sid| < 256 && |cs| < 0x1_0000
    requires var c, m := 35 + |sid|, 37 + |sid| + |cs|;
      && At(b, 0, Field(legacy)) && At(b, 34, Short(sid)) && At(b, c, Long(cs))
      && m <= |b| && ExtensionBlock(b, m) == Some(xs)
    ensures Skeleton(b) == Some(Layout(legacy, cs, xs))
  {
    AtU16(b, 0, legacy);
    ShortAt(b, 34, sid);
    LongAt(b, 35 + |sid|, cs);
  }

  lemma BlockOf(b: seq<byte>, m: nat, comp: seq<byte>, xs: seq<byte>)
    requires |comp| < 256 && |xs| < 0x1_0000
    requires At(b, m, Short(comp)) && At(b, m + 1 + |comp|, Long(xs)) && |b| == m + 3 + |comp| + |xs|
    ensures ExtensionBlock(b, m) == Some(xs)
  {
    ShortAt(b, m, comp);
    LongAt(b, m + 1 + |comp|, xs);
  }

  lemma ShortAt(b: seq<byte>, o: nat, p: seq<byte>)
    requires |p| < 256 && At(b, o, Short(p))
    ensures b[o] as int == |p|
  {
    AtElement(b, o, Short(p), 0);
  }

  lemma LongAt(b: seq<byte>, o: nat, p: seq<byte>)
    requires |p| < 0x1_0000 && At(b, o, Long(p))
    ensures U16(b, o) == |p| && b[o + 2..o + 2 + |p|] == p
  {
    AtSplit(b, o, Field(|p|), p);
    AtU16(b, o, |p|);
  }

  lemma PartsBack(b: seq<byte>, legacy: int, sid: seq<byte>, cs: seq<byte>, comp: seq<byte>, xs: seq<byte>)
    requires 0 <= legacy < 0x1_0000 && |sid| < 256
    requires |cs| < 0x1_0000 && |comp| < 256 && |xs| < 0x1_0000
    requires At(b, 0, Field(legacy)) && At(b, 34, Short(sid)) && At(b, 35 + |sid|, Long(cs))
    requires At(b, 37 + |sid| + |cs|, Short(comp)) && At(b, 38 + |sid| + |cs| + |comp|, Long(xs))
    requires |b| == 40 + |sid| + |cs| + |comp| + |xs|
    ensures Skeleton(b) == Some(Layout(legacy, cs, xs))
  {
    BlockOf(b, 37 + |sid| + |cs|, comp, xs);
    SkeletonOf(b, legacy, sid, cs, xs);
  }

  /** Where the parts of a printed hello stand. */
  lemma PrintedAt(h: Hello)
    requires Fits(h)
    ensures var (b, cs, xs) := (Print(h), PrintWords(h.ciphers), PrintExts(WireAll(h.exts)));
      var (c, m) := (35 + |h.sessionId|, 37 + |h.sessionId| + |cs|);
      && At(b, 0, Field(h.legacy)) && At(b, 34, Short(h.sessionId)) && At(b, c, Long(cs)) && At(b, m, Short(h.compression))
      && At(b, m + 1 + |h.compression|, Long(xs)) && |b| == m + 3 + |h.compression| + |xs|
  {
    var cs, xs := PrintWords(h.ciphers), PrintExts(WireAll(h.exts));
    PartsAt(Print(h), Field(h.legacy), h.random, Short(h.sessionId), Long(cs), Short(h.compression), Long(xs));
  }

  lemma LayoutBack(h: Hello)
    requires Fits(h)
    ensures Skeleton(Print(h)) == Some(Layout(h.legacy, PrintWords(h.ciphers), PrintExts(WireAll(h.exts))))
  {
    PrintedAt(h);
    PartsBack(Print(h), h.legacy, h.sessionId, PrintWords(h.ciphers), h.compression, PrintExts(WireAll(h.exts)));
  }

  lemma CiphersBack(h: Hello)
    requires Fits(h)
    ensures Words(PrintWords(h.ciphers), 0, |PrintWords(h.ciphers)|) == h.ciphers
  {
    AtAll(PrintWords(h.ciphers));
    WordsBack(PrintWords(h.ciphers), 0, h.ciphers);
  }

  lemma {:induction false} ExtensionsBack(es: seq<Ext>)
    requires FitsWire(es)
    ensures SplitExts(PrintExts(es), 0) == Split(es, |PrintExts(es)|, false)
  {
    AtAll(PrintExts(es));
    PrintedStand(PrintExts(es), 0, es);
    StandRead(PrintExts(es), 0, es);
  }

  /** Parse after print: the layout, the ciphers and the extensions come back. */
  lemma PrintBack(h: Hello)
    requires Fits(h)
    ensures Skeleton(Print(h)) == Some(Layout(h.legacy, PrintWords(h.ciphers), PrintExts(WireAll(h.exts))))
    ensures Words(PrintWords(h.ciphers), 0, |PrintWords(h.ciphers)|) == h.ciphers
    ensures SplitExts(PrintExts(WireAll(h.exts)), 0) == Split(WireAll(h.exts), |PrintExts(WireAll(h.exts))|, false)
  {
    LayoutBack(h);
    CiphersBack(h);
    WireFits(h.exts);
    ExtensionsBack(WireAll(h.exts));
  }
}
