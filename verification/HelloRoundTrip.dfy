/** From a ClientHello to its bytes, through every parser and back to its own lists: what is
    reported is what the extensions carry, in order, and nothing else. */
module HelloRoundTrip {
  import opened Bytes
  import opened HelloLayout
  import opened HelloParsers
  import opened HelloPrinter
  import Fingerprint
  import opened HelloRecords

  /** Everything the extensions of a hello carry, in order; `types` are their type numbers. */
  datatype Lists = Lists(types: seq<int>, names: seq<seq<byte>>, protocols: seq<seq<byte>>, versions: seq<int>,
                         groups: seq<int>, formats: seq<int>, algs: seq<int>)

  function Carried(xs: seq<Extension>): (l: Lists)
    decreases |xs|
  {
    if xs == [] then Lists([], [], [], [], [], [], [])
    else
      var l := Carried(xs[1..]);
      match xs[0]
      case Names(ns) => l.(types := [0] + l.types, names := HostNames(ns) + l.names)
      case Groups(gs) => l.(types := [10] + l.types, groups := gs + l.groups)
      case Formats(fs) => l.(types := [11] + l.types, formats := Octets(fs) + l.formats)
      case SigAlgs(ss) => l.(types := [13] + l.types, algs := ss + l.algs)
      case Alpn(ps) => l.(types := [16] + l.types, protocols := ps + l.protocols)
      case Versions(vs) => l.(types := [43] + l.types, versions := vs + l.versions)
      case SigAlgsCert(ss) => l.(types := [50] + l.types, algs := ss + l.algs)
      case Raw(typ, _) => l.(types := [typ] + l.types)
  }

  lemma {:induction false} GatherWire<T>(f: Ext -> seq<T>, xs: seq<Extension>)
    requires xs != []
    ensures Gather(f, WireAll(xs)) == f(ToWire(xs[0])) + Gather(f, WireAll(xs[1..]))
  {
    assert WireAll(xs)[1..] == WireAll(xs[1..]);
  }

  lemma {:induction false} GatherAll(xs: seq<Extension>)
    requires AllFit(xs)
    ensures var l, es := Carried(xs), WireAll(xs);
      && Gather(NamesIn, es) == l.names && Gather(AlpnIn, es) == l.protocols && Gather(VersionsIn, es) == l.versions
      && Gather(GroupsIn, es) == l.groups && Gather(FormatsIn, es) == l.formats && Gather(SigAlgsIn, es) == l.algs
      && Gather(TypeOf, es) == l.types
    decreases |xs|
  {
    if xs != [] {
      assert FitsExtension(xs[0]);
      ExtensionBack(xs[0]);
      GatherAll(xs[1..]);
      GatherWire(NamesIn, xs);
      GatherWire(AlpnIn, xs);
      GatherWire(VersionsIn, xs);
      GatherWire(GroupsIn, xs);
      GatherWire(FormatsIn, xs);
      GatherWire(SigAlgsIn, xs);
      GatherWire(TypeOf, xs);
    }
  }

  lemma {:induction false} KeptTypes(es: seq<Ext>)
    ensures Gather(TypeOf, Kept(es)) == Ungreased(Gather(TypeOf, es))
    decreases |es|
  {
    if es != [] {
      KeptTypes(es[1..]);
      var first := if IsGrease(es[0].typ) then [] else [es[0]];
      GatherAppend(TypeOf, first, Kept(es[1..]));
      GatherOne(TypeOf, es[0]);
      UngreasedStep([], es[0].typ, Gather(TypeOf, es[1..]));
    }
  }

  /** What the helper's parsers see, who skip GREASE extensions. */
  lemma {:induction false} KeptAll(xs: seq<Extension>)
    requires AllFit(xs)
    ensures var l, kept := Carried(xs), Kept(WireAll(xs));
      && Gather(AlpnIn, kept) == l.protocols && Gather(VersionsIn, kept) == l.versions
      && Gather(TypeOf, kept) == Ungreased(l.types)
  {
    var es := WireAll(xs);
    GatherAll(xs);
    KeptTypes(es);
    KeptGathers(AlpnIn, es);
    KeptGathers(VersionsIn, es);
  }

  lemma {:induction false} KeptMore(xs: seq<Extension>)
    requires AllFit(xs)
    ensures var l, kept := Carried(xs), Kept(WireAll(xs));
      Gather(GroupsIn, kept) == l.groups && Gather(FormatsIn, kept) == l.formats && Gather(SigAlgsIn, kept) == l.algs
  {
    var es := WireAll(xs);
    GatherAll(xs);
    KeptGathers(GroupsIn, es);
    KeptGathers(FormatsIn, es);
    KeptGathers(SigAlgsIn, es);
  }

  /** The JavaScript parser reports the host names, protocols and versions of a hello. */
  lemma JsBack(h: Hello)
    requires Fits(h)
    ensures JsSpec(Print(h)) == JsOk(Carried(h.exts).names, Carried(h.exts).protocols, Carried(h.exts).versions)
  {
    PrintBack(h);
    GatherAll(h.exts);
  }

  /** The helper's JA3 parser reports version, ciphers, types, groups and formats, GREASE left
      out where JA3 leaves it out. */
  lemma Ja3Back(h: Hello)
    requires Fits(h)
    ensures var l := Carried(h.exts);
      Ja3Spec(Print(h)) == Some(Ja3(h.legacy, Ungreased(h.ciphers), Ungreased(l.types), Ungreased(l.groups), l.formats,
                                    l.protocols, l.versions))
  {
    Fingerprint.PrintedParses(h);
    KeptAll(h.exts);
    KeptMore(h.exts);
  }

  /** `p` is the first protocol that is not empty, or empty if there is none. */
  predicate FirstProtocol(ps: seq<seq<byte>>, p: seq<byte>) {
    if p == [] then forall i | 0 <= i < |ps| :: ps[i] == []
    else exists i | 0 <= i < |ps| :: ps[i] == p && forall j | 0 <= j < i :: ps[j] == []
  }

  lemma {:induction false} FirstNonEmptyIs(ps: seq<seq<byte>>)
    ensures FirstProtocol(ps, FirstNonEmpty(ps))
    decreases |ps|
  {
    if ps != [] && ps[0] == [] {
      FirstNonEmptyIs(ps[1..]);
      var p := FirstNonEmpty(ps[1..]);
      if p != [] {
        var i :| 0 <= i < |ps[1..]| && ps[1..][i] == p && forall j | 0 <= j < i :: ps[1..][j] == [];
        assert ps[i + 1] == p && forall j | 1 <= j < i + 1 :: ps[j] == ps[1..][j - 1];
      } else {
        assert forall j | 1 <= j < |ps| :: ps[j] == ps[1..][j - 1];
      }
    }
  }

  /** The helper's JA4 parser reports the same, whether a server name is there, the first
      protocol and the signature algorithms of both extensions. */
  lemma Ja4Back(h: Hello)
    requires Fits(h)
    ensures var l, j := Carried(h.exts), Ja4Spec(Print(h));
      && j.Some? && j.value.legacy == h.legacy && j.value.ciphers == Ungreased(h.ciphers)
      && j.value.extTypes == Ungreased(l.types) && j.value.hasSni == HasNames(h.exts)
      && FirstProtocol(l.protocols, j.value.firstAlpn) && j.value.versions == l.versions
      && j.value.sigAlgs == Ungreased(l.algs)
  {
    Fingerprint.PrintedParses(h);
    Ja4ListsBack(h.legacy, Ungreased(h.ciphers), h.exts);
    FirstNonEmptyIs(Carried(h.exts).protocols);
  }

  function HasNames(xs: seq<Extension>): (r: bool)
    decreases |xs|
  {
    xs != [] && (xs[0].Names? || HasNames(xs[1..]))
  }

  lemma {:induction false} Ja4ListsBack(legacy: int, ciphers: seq<int>, xs: seq<Extension>)
    requires AllFit(xs)
    ensures var l := Carried(xs);
      Ja4Lists(legacy, ciphers, WireAll(xs))
      == Ja4(legacy, ciphers, Ungreased(l.types), HasNames(xs), FirstNonEmpty(l.protocols), l.versions, Ungreased(l.algs))
  {
    KeptAll(xs);
    KeptMore(xs);
    ZeroIsNames(xs);
    UngreasedHas(Carried(xs).types, 0);
  }

  lemma {:induction false} ZeroIsNames(xs: seq<Extension>)
    requires AllFit(xs)
    ensures 0 in Carried(xs).types <==> HasNames(xs)
    decreases |xs|
  {
    if xs != [] {
      assert FitsExtension(xs[0]);
      ZeroIsNames(xs[1..]);
    }
  }

  lemma {:induction false} UngreasedHas(vs: seq<int>, x: int)
    requires !IsGrease(x)
    ensures x in Ungreased(vs) <==> x in vs
    decreases |vs|
  {
    if vs != [] { UngreasedHas(vs[1..], x); }
  }

  /** The outcome for the first `n` bytes of a body with a session id, ciphers and compression
      methods of these lengths. */
  function CutAt(n: nat, sid: nat, ciphers: nat, comp: nat): (r: JsHello) {
    if n < 34 then JsFail("short_ch") else if n == 34 then JsThrows
    else if n < 37 + sid then JsFail("short_ch2")
    else if n < 38 + sid + ciphers then JsFail("short_ch3")
    else if n < 40 + sid + ciphers + comp then JsFail("short_ch4")
    else JsFail("short_ext")
  }

  /** A hello cut short anywhere is refused, and the reason names the field where it was cut;
      cut at 34 bytes it makes the parser throw. */
  lemma Truncated(h: Hello, n: nat)
    requires Fits(h) && n < |Print(h)|
    ensures JsSpec(Print(h)[..n]) == CutAt(n, |h.sessionId|, 2 * |h.ciphers|, |h.compression|)
  {
    PrintedAt(h);
    PartsCut(Print(h), n, h.sessionId, PrintWords(h.ciphers), h.compression, PrintExts(WireAll(h.exts)));
  }

  lemma PartsCut(b: seq<byte>, n: nat, sid: seq<byte>, cs: seq<byte>, comp: seq<byte>, xs: seq<byte>)
    requires |sid| < 256 && |cs| < 0x1_0000 && |comp| < 256 && |xs| < 0x1_0000
    requires At(b, 34, HelloPrinter.Short(sid)) && At(b, 35 + |sid|, Long(cs))
    requires At(b, 37 + |sid| + |cs|, HelloPrinter.Short(comp)) && At(b, 38 + |sid| + |cs| + |comp|, Long(xs))
    requires |b| == 40 + |sid| + |cs| + |comp| + |xs| && n < |b|
    ensures JsSpec(b[..n]) == CutAt(n, |sid|, |cs|, |comp|)
  {
    LengthsRead(b, sid, cs, comp, xs);
    CutShort(b, n, |sid|, |cs|, |comp|, |xs|);
  }

  lemma LengthsRead(b: seq<byte>, sid: seq<byte>, cs: seq<byte>, comp: seq<byte>, xs: seq<byte>)
    requires |sid| < 256 && |cs| < 0x1_0000 && |comp| < 256 && |xs| < 0x1_0000
    requires At(b, 34, HelloPrinter.Short(sid)) && At(b, 35 + |sid|, Long(cs))
    requires At(b, 37 + |sid| + |cs|, HelloPrinter.Short(comp)) && At(b, 38 + |sid| + |cs| + |comp|, Long(xs))
    ensures b[34] as int == |sid| && U16(b, 35 + |sid|) == |cs|
    ensures b[37 + |sid| + |cs|] as int == |comp| && U16(b, 38 + |sid| + |cs| + |comp|) == |xs|
  {
    ShortAt(b, 34, sid);
    LongAt(b, 35 + |sid|, cs);
    ShortAt(b, 37 + |sid| + |cs|, comp);
    LongAt(b, 38 + |sid| + |cs| + |comp|, xs);
  }

  /** Only the four lengths of a body matter for where it is found short. */
  lemma CutShort(b: seq<byte>, n: nat, sid: nat, cs: nat, comp: nat, xs: nat)
    requires |b| == 40 + sid + cs + comp + xs && n < |b|
    requires b[34] as int == sid && U16(b, 35 + sid) == cs && b[37 + sid + cs] as int == comp && U16(b, 38 + sid + cs + comp) == xs
    ensures JsSpec(b[..n]) == CutAt(n, sid, cs, comp)
  {
    var ch := b[..n];
    assert forall i | 0 <= i < n :: ch[i] == b[i];
  }

  /** To the routing decision: a hello in any non-empty records, with any bytes behind them, is
      accepted with its host names, protocols and versions, and the records are consumed. */
  lemma {:induction false} RoutedBack(h: Hello, fs: seq<Fragment>, trailing: seq<byte>)
    requires Fits(h) && ValidFragments(fs) && |Print(h)| < 0x100_0000 && Payloads(fs) == Message(Print(h))
    requires |PrintRecords(fs) + trailing| <= MAX_CLIENT_BUF
    ensures var l := Carried(h.exts);
      HelloRecords.Parse(PrintRecords(fs) + trailing)
      == Accept(JsOk(l.names, l.protocols, l.versions), |PrintRecords(fs)|)
  {
    JsBack(h);
    FragmentationInvisible(fs, Print(h), trailing);
  }
}
