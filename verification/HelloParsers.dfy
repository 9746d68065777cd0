/** The three hand-written parsers of the ClientHello body as loops, each proved equal to a
    function of the shared layout, and the theorem that they agree. */
module HelloParsers {
  import opened Bytes
  import opened Lists
  import opened HelloLayout

  // ---- Results ----

  datatype JsHello = JsOk(sni: seq<seq<byte>>, alpn: seq<seq<byte>>, versions: seq<int>)
                   | JsFail(reason: string)
                   | JsThrows

  datatype Ja3 = Ja3(legacy: int, ciphers: seq<int>, extTypes: seq<int>, curves: seq<int>, formats: seq<int>,
                     alpn: seq<seq<byte>>, versions: seq<int>)

  datatype Ja4 = Ja4(legacy: int, ciphers: seq<int>, extTypes: seq<int>, hasSni: bool, firstAlpn: seq<byte>,
                     versions: seq<int>, sigAlgs: seq<int>)

  // ---- What the loops must compute ----

  function JsLists(exts: seq<Ext>): (r: JsHello) {
    JsOk(Gather(NamesIn, exts), Gather(AlpnIn, exts), Gather(VersionsIn, exts))
  }

  /** Which length field does not fit, in the order they are read. */
  function JsReason(ch: seq<byte>): (reason: string)
    requires |ch| >= 35
  {
    var c := 35 + ch[34] as int;
    if |ch| < c + 2 then "short_ch2" else
    var m := c + 2 + U16(ch, c);
    if |ch| < m + 1 then "short_ch3" else
    var x := m + 1 + ch[m] as int;
    if |ch| < x + 2 then "short_ch4" else "short_ext"
  }

  function JsSpec(ch: seq<byte>): (r: JsHello) {
    if |ch| < 34 then JsFail("short_ch")
    else if |ch| == 34 then JsThrows
    else match Skeleton(ch)
      case None => JsFail(JsReason(ch))
      case Some(l) => JsLists(SplitExts(l.extensions, 0).exts)
  }

  /** The extensions the helper reads: GREASE types are skipped. */
  function Kept(exts: seq<Ext>): (r: seq<Ext>)
    decreases |exts|
  {
    if exts == [] then []
    else (if IsGrease(exts[0].typ) then [] else [exts[0]]) + Kept(exts[1..])
  }

  function Ja3Lists(legacy: int, ciphers: seq<int>, exts: seq<Ext>): (r: Ja3) {
    var kept := Kept(exts);
    Ja3(legacy, ciphers, Gather(TypeOf, kept), Ungreased(Gather(GroupsIn, kept)), Gather(FormatsIn, kept),
        Gather(AlpnIn, kept), Gather(VersionsIn, kept))
  }

  function Ja3Of(l: Layout): (r: Option<Ja3>) {
    var x := SplitExts(l.extensions, 0);
    if |l.ciphers| % 2 != 0 || x.overflow then None
    else Some(Ja3Lists(l.legacy, Ungreased(Words(l.ciphers, 0, |l.ciphers|)), x.exts))
  }

  function Ja3Spec(b: seq<byte>): (r: Option<Ja3>) {
    match Skeleton(b)
    case None => None
    case Some(l) => Ja3Of(l)
  }

  /** The first non-empty protocol, as the helper's `first_alpn_bytes` ends up. */
  function FirstNonEmpty(ps: seq<seq<byte>>): (p: seq<byte>)
    decreases |ps|
  {
    if ps == [] then [] else if ps[0] != [] then ps[0] else FirstNonEmpty(ps[1..])
  }

  function Ja4Lists(legacy: int, ciphers: seq<int>, exts: seq<Ext>): (r: Ja4) {
    var kept := Kept(exts);
    Ja4(legacy, ciphers, Gather(TypeOf, kept), 0 in Gather(TypeOf, kept), FirstNonEmpty(Gather(AlpnIn, kept)),
        Gather(VersionsIn, kept), Ungreased(Gather(SigAlgsIn, kept)))
  }

  function Ja4Of(l: Layout): (r: Option<Ja4>) {
    var x := SplitExts(l.extensions, 0);
    if |l.ciphers| % 2 != 0 || x.overflow || x.end != |l.extensions| then None
    else Some(Ja4Lists(l.legacy, Ungreased(Words(l.ciphers, 0, |l.ciphers|)), x.exts))
  }

  function Ja4Spec(b: seq<byte>): (r: Option<Ja4>) {
    match Skeleton(b)
    case None => None
    case Some(l) => Ja4Of(l)
  }

  // ---- Loops over one extension's payload ----

  /** `for (pos = 1; pos + 1 < end; pos += 2)`, in JavaScript and in the helper */
  method VersionLoop(ed: seq<byte>) returns (vs: seq<int>)
    requires |ed| >= 1
    ensures vs == Words(ed, 1, Min(|ed|, 1 + ed[0] as int))
  {
    var end := Min(|ed|, 1 + ed[0] as int);
    var pos := 1;
    vs := [];
    while pos + 1 < end
      invariant 1 <= pos <= end
      invariant vs + Words(ed, pos, end) == Words(ed, 1, end)
    {
      vs := vs + [U16(ed, pos)];
      pos := pos + 2;
    }
  }

  /** `for (i = 2; i < 2 + glen && i + 2 <= elen; i += 2)`, keeping non-GREASE words */
  method WordLoop(ed: seq<byte>) returns (ws: seq<int>)
    requires |ed| >= 2
    ensures ws == Ungreased(WordsWithin(ed, 2, U16(ed, 0)))
  {
    var glen := U16(ed, 0);
    var i := 2;
    ws := [];
    while i < 2 + glen && i + 2 <= |ed|
      invariant 2 <= i <= |ed|
      invariant ws + Ungreased(WordsWithin(ed, i, 2 + glen - i)) == Ungreased(WordsWithin(ed, 2, glen))
    {
      var g := U16(ed, i);
      UngreasedStep(ws, g, WordsWithin(ed, i + 2, glen - i));
      if !IsGrease(g) { ws := ws + [g]; }
      i := i + 2;
    }
  }

  lemma {:induction false} UngreasedStep(acc: seq<int>, g: int, rest: seq<int>)
    ensures acc + Ungreased([g] + rest) == (if IsGrease(g) then acc else acc + [g]) + Ungreased(rest)
  {
    assert ([g] + rest)[1..] == rest;
  }

  method FormatLoop(ed: seq<byte>) returns (fs: seq<int>)
    requires |ed| >= 1
    ensures fs == Octets(ed[1..Min(|ed|, 1 + ed[0] as int)])
  {
    var flen := ed[0] as int;
    var i := 1;
    fs := [];
    while i < 1 + flen && i < |ed|
      invariant 1 <= i <= Min(|ed|, 1 + flen)
      invariant fs == Octets(ed[1..i])
    {
      fs := fs + [ed[i] as int];
      i := i + 1;
    }
  }

  /** JavaScript: the budget may go negative. */
  method JsAlpnLoop(ed: seq<byte>) returns (ps: seq<seq<byte>>)
    requires |ed| >= 2
    ensures ps == AlpnList(ed, 2, U16(ed, 0))
  {
    var listLen := U16(ed, 0);
    var ao := 2;
    ps := [];
    while ao + 1 <= |ed| && listLen > 0
      invariant 2 <= ao <= |ed|
      invariant ps + AlpnList(ed, ao, listLen) == AlpnList(ed, 2, U16(ed, 0))
      decreases |ed| - ao
    {
      var pl := ed[ao] as int;
      ao := ao + 1;
      if ao + pl > |ed| { return; }
      ps := ps + [ed[ao..ao + pl]];
      ao := ao + pl;
      listLen := listLen - (1 + pl);
    }
  }

  /** The helper: an unsigned budget that is compared before it is reduced. */
  method CppAlpnLoop(ed: seq<byte>) returns (ps: seq<seq<byte>>)
    requires |ed| >= 2
    ensures ps == AlpnList(ed, 2, U16(ed, 0))
  {
    var listLen := U16(ed, 0);
    var ao := 2;
    ps := [];
    while ao + 1 <= |ed| && listLen > 0
      invariant 2 <= ao <= |ed| && 0 <= listLen <= 0xffff
      invariant ps + AlpnList(ed, ao, listLen) == AlpnList(ed, 2, U16(ed, 0))
      decreases |ed| - ao
    {
      var pl := ed[ao] as int;
      ao := ao + 1;
      if ao + pl > |ed| { return; }
      ps := ps + [ed[ao..ao + pl]];
      ao := ao + pl;
      var consumed := (1 + pl) % 0x1_0000;
      assert consumed == 1 + pl;
      if listLen < consumed { return; }
      listLen := listLen - consumed;
    }
  }

  method JsNameLoop(ed: seq<byte>) returns (ns: seq<seq<byte>>)
    requires |ed| >= 2
    ensures ns == SniList(ed, 2, U16(ed, 0))
  {
    var listLen := U16(ed, 0);
    var so := 2;
    ns := [];
    while so + 3 <= |ed| && listLen >= 3
      invariant 2 <= so <= |ed|
      invariant ns + SniList(ed, so, listLen) == SniList(ed, 2, U16(ed, 0))
      decreases |ed| - so
    {
      var nt := ed[so];
      var nl := U16(ed, so + 1);
      so := so + 3;
      if so + nl > |ed| { return; }
      if nt == 0 { ns := ns + [ed[so..so + nl]]; }
      so := so + nl;
      listLen := listLen - (3 + nl);
    }
  }

  // ---- One extension added to the lists ----

  function JsWith(acc: JsHello, e: Ext): (r: JsHello)
    requires acc.JsOk?
  {
    JsOk(acc.sni + NamesIn(e), acc.alpn + AlpnIn(e), acc.versions + VersionsIn(e))
  }

  lemma JsListsSnoc(done: seq<Ext>, e: Ext)
    ensures JsLists(done + [e]) == JsWith(JsLists(done), e)
  {
    GatherSnoc(NamesIn, done, e);
    GatherSnoc(AlpnIn, done, e);
    GatherSnoc(VersionsIn, done, e);
  }

  method JsExtension(acc: JsHello, e: Ext) returns (r: JsHello)
    requires acc.JsOk?
    ensures r == JsWith(acc, e)
  {
    AddNothing(acc.sni);
    AddNothing(acc.alpn);
    AddNothing(acc.versions);
    r := acc;
    if e.typ == 0 && |e.data| >= 2 {
      var ns := JsNameLoop(e.data);
      r := acc.(sni := acc.sni + ns);
    } else if e.typ == 16 && |e.data| >= 2 {
      var ps := JsAlpnLoop(e.data);
      r := acc.(alpn := acc.alpn + ps);
    } else if e.typ == 43 && |e.data| >= 1 {
      var vs := VersionLoop(e.data);
      r := acc.(versions := acc.versions + vs);
    }
  }

  lemma {:induction false} KeptSnoc(done: seq<Ext>, e: Ext)
    ensures Kept(done + [e]) == Kept(done) + if IsGrease(e.typ) then [] else [e]
    decreases |done|
  {
    if done != [] {
      KeptSnoc(done[1..], e);
      assert (done + [e])[1..] == done[1..] + [e];
    }
  }

  /** The lists with what one extension contributes to each. */
  function Ja3With(acc: Ja3, e: Ext): (r: Ja3) {
    acc.(extTypes := acc.extTypes + [e.typ], curves := acc.curves + Ungreased(GroupsIn(e)),
         formats := acc.formats + FormatsIn(e), alpn := acc.alpn + AlpnIn(e), versions := acc.versions + VersionsIn(e))
  }

  lemma Ja3ListsSnoc(legacy: int, ciphers: seq<int>, done: seq<Ext>, e: Ext)
    ensures Ja3Lists(legacy, ciphers, done + [e])
         == if IsGrease(e.typ) then Ja3Lists(legacy, ciphers, done) else Ja3With(Ja3Lists(legacy, ciphers, done), e)
  {
    KeptSnoc(done, e);
    var kept := Kept(done);
    if IsGrease(e.typ) {
      assert kept + [] == kept;
    } else {
      GatherSnoc(TypeOf, kept, e);
      GatherSnoc(GroupsIn, kept, e);
      GatherSnoc(FormatsIn, kept, e);
      GatherSnoc(AlpnIn, kept, e);
      GatherSnoc(VersionsIn, kept, e);
      UngreasedAppend(Gather(GroupsIn, kept), GroupsIn(e));
    }
  }

  /** The helper's accumulation, extension by extension. */
  function Ja3Fold(init: Ja3, exts: seq<Ext>): (r: Ja3)
    decreases |exts|
  {
    if exts == [] then init
    else
      var e, acc := exts[|exts| - 1], Ja3Fold(init, exts[..|exts| - 1]);
      if IsGrease(e.typ) then acc else Ja3With(acc, e)
  }

  lemma {:induction false} Ja3FoldSnoc(init: Ja3, done: seq<Ext>, e: Ext)
    ensures Ja3Fold(init, done + [e]) == if IsGrease(e.typ) then Ja3Fold(init, done) else Ja3With(Ja3Fold(init, done), e)
  {
    assert (done + [e])[..|done|] == done;
  }

  lemma Ja3ListsLast(legacy: int, ciphers: seq<int>, exts: seq<Ext>)
    requires exts != []
    ensures var e, acc := exts[|exts| - 1], Ja3Lists(legacy, ciphers, exts[..|exts| - 1]);
      Ja3Lists(legacy, ciphers, exts) == if IsGrease(e.typ) then acc else Ja3With(acc, e)
  {
    Ja3ListsSnoc(legacy, ciphers, exts[..|exts| - 1], exts[|exts| - 1]);
    assert exts[..|exts| - 1] + [exts[|exts| - 1]] == exts;
  }

  lemma {:induction false} Ja3FoldLists(legacy: int, ciphers: seq<int>, exts: seq<Ext>)
    ensures Ja3Fold(Ja3(legacy, ciphers, [], [], [], [], []), exts) == Ja3Lists(legacy, ciphers, exts)
    decreases |exts|
  {
    if exts != [] {
      Ja3FoldLists(legacy, ciphers, exts[..|exts| - 1]);
      Ja3ListsLast(legacy, ciphers, exts);
    }
  }

  lemma AddNothing<T>(a: seq<T>)
    ensures a + [] == a
  {}

  method Ja3Extension(acc: Ja3, e: Ext) returns (r: Ja3)
    requires 0 <= e.typ < 0x1_0000
    ensures r == if IsGrease(e.typ) then acc else Ja3With(acc, e)
  {
    GreaseTestsAgree(e.typ);
    if IsGrease(e.typ) || ExtensionIsGrease(e.typ) { return acc; }
    AddNothing(acc.curves);
    AddNothing(acc.formats);
    AddNothing(acc.alpn);
    AddNothing(acc.versions);
    r := acc.(extTypes := acc.extTypes + [e.typ]);
    if e.typ == 10 && |e.data| >= 2 {
      var gs := WordLoop(e.data);
      r := r.(curves := r.curves + gs);
    } else if e.typ == 11 && |e.data| >= 1 {
      var fs := FormatLoop(e.data);
      r := r.(formats := r.formats + fs);
    } else if e.typ == 16 && |e.data| >= 2 {
      var ps := CppAlpnLoop(e.data);
      r := r.(alpn := r.alpn + ps);
    } else if e.typ == 43 && |e.data| >= 1 {
      var vs := VersionLoop(e.data);
      r := r.(versions := r.versions + vs);
    }
  }

  lemma {:induction false} FirstNonEmptyAppend(a: seq<seq<byte>>, b: seq<seq<byte>>)
    ensures FirstNonEmpty(a + b) == if FirstNonEmpty(a) != [] then FirstNonEmpty(a) else FirstNonEmpty(b)
    decreases |a|
  {
    if a == [] {
      assert a + b == b;
    } else {
      FirstNonEmptyAppend(a[1..], b);
      assert (a + b)[1..] == a[1..] + b;
    }
  }

  function Ja4With(acc: Ja4, e: Ext): (r: Ja4) {
    acc.(extTypes := acc.extTypes + [e.typ], hasSni := acc.hasSni || e.typ == 0,
         firstAlpn := if acc.firstAlpn != [] then acc.firstAlpn else FirstNonEmpty(AlpnIn(e)),
         versions := acc.versions + VersionsIn(e), sigAlgs := acc.sigAlgs + Ungreased(SigAlgsIn(e)))
  }

  lemma Ja4ListsSnoc(legacy: int, ciphers: seq<int>, done: seq<Ext>, e: Ext)
    ensures Ja4Lists(legacy, ciphers, done + [e])
         == if IsGrease(e.typ) then Ja4Lists(legacy, ciphers, done) else Ja4With(Ja4Lists(legacy, ciphers, done), e)
  {
    KeptSnoc(done, e);
    var kept := Kept(done);
    if IsGrease(e.typ) {
      assert kept + [] == kept;
    } else {
      GatherSnoc(TypeOf, kept, e);
      GatherSnoc(AlpnIn, kept, e);
      GatherSnoc(VersionsIn, kept, e);
      GatherSnoc(SigAlgsIn, kept, e);
      UngreasedAppend(Gather(SigAlgsIn, kept), SigAlgsIn(e));
      FirstNonEmptyAppend(Gather(AlpnIn, kept), AlpnIn(e));
    }
  }

  function Ja4Fold(init: Ja4, exts: seq<Ext>): (r: Ja4)
    decreases |exts|
  {
    if exts == [] then init
    else
      var e, acc := exts[|exts| - 1], Ja4Fold(init, exts[..|exts| - 1]);
      if IsGrease(e.typ) then acc else Ja4With(acc, e)
  }

  lemma {:induction false} Ja4FoldSnoc(init: Ja4, done: seq<Ext>, e: Ext)
    ensures Ja4Fold(init, done + [e]) == if IsGrease(e.typ) then Ja4Fold(init, done) else Ja4With(Ja4Fold(init, done), e)
  {
    assert (done + [e])[..|done|] == done;
  }

  lemma Ja4ListsLast(legacy: int, ciphers: seq<int>, exts: seq<Ext>)
    requires exts != []
    ensures var e, acc := exts[|exts| - 1], Ja4Lists(legacy, ciphers, exts[..|exts| - 1]);
      Ja4Lists(legacy, ciphers, exts) == if IsGrease(e.typ) then acc else Ja4With(acc, e)
  {
    Ja4ListsSnoc(legacy, ciphers, exts[..|exts| - 1], exts[|exts| - 1]);
    assert exts[..|exts| - 1] + [exts[|exts| - 1]] == exts;
  }

  lemma {:induction false} Ja4FoldLists(legacy: int, ciphers: seq<int>, exts: seq<Ext>)
    ensures Ja4Fold(Ja4(legacy, ciphers, [], false, [], [], []), exts) == Ja4Lists(legacy, ciphers, exts)
    decreases |exts|
  {
    if exts != [] {
      Ja4FoldLists(legacy, ciphers, exts[..|exts| - 1]);
      Ja4ListsLast(legacy, ciphers, exts);
    }
  }

  method Ja4Extension(acc: Ja4, e: Ext) returns (r: Ja4)
    requires 0 <= e.typ < 0x1_0000
    ensures r == if IsGrease(e.typ) then acc else Ja4With(acc, e)
  {
    GreaseTestsAgree(e.typ);
    if IsGrease(e.typ) || ExtensionIsGrease(e.typ) { return acc; }
    AddNothing(acc.versions);
    AddNothing(acc.sigAlgs);
    r := acc.(extTypes := acc.extTypes + [e.typ]);
    if e.typ == 0 {
      r := r.(hasSni := true);
    } else if e.typ == 16 && |e.data| >= 2 {
      var ps := CppAlpnLoop(e.data);
      if r.firstAlpn == [] { r := r.(firstAlpn := FirstNonEmpty(ps)); }
    } else if e.typ == 43 && |e.data| >= 1 {
      var vs := VersionLoop(e.data);
      r := r.(versions := r.versions + vs);
    } else if e.typ == 13 && |e.data| >= 2 {
      var ss := WordLoop(e.data);
      r := r.(sigAlgs := r.sigAlgs + ss);
    } else if e.typ == 50 && |e.data| >= 2 {
      var ss := WordLoop(e.data);
      r := r.(sigAlgs := r.sigAlgs + ss);
    }
  }

  // ---- The walks over the extension block ----

  /** A walk of block `b` that has read `done` and stands at `o`. */
  predicate Walked(b: seq<byte>, done: seq<Ext>, o: nat)
    requires o <= |b|
  {
    var r := SplitExts(b, o);
    SplitExts(b, 0) == Split(done + r.exts, r.end, r.overflow)
  }

  lemma WalkStarts(b: seq<byte>)
    ensures Walked(b, [], 0)
  {
    assert [] + SplitExts(b, 0).exts == SplitExts(b, 0).exts;
  }

  /** Advancing over one extension. */
  lemma WalkStep(b: seq<byte>, done: seq<Ext>, o: nat)
    requires o + 4 <= |b| && o + 4 + U16(b, o + 2) <= |b| && Walked(b, done, o)
    ensures var n := o + 4 + U16(b, o + 2);
      Walked(b, done + [Ext(U16(b, o), b[o + 4..n])], n)
  {
    var n := o + 4 + U16(b, o + 2);
    var e := Ext(U16(b, o), b[o + 4..n]);
    assert done + ([e] + SplitExts(b, n).exts) == done + [e] + SplitExts(b, n).exts;
  }

  /** Where a walk stops: the rest yields no extension. */
  lemma {:induction false} WalkStops(b: seq<byte>, done: seq<Ext>, o: nat)
    requires o <= |b| && Walked(b, done, o) && (o + 4 > |b| || o + 4 + U16(b, o + 2) > |b|)
    ensures SplitExts(b, 0) == Split(done, o, o + 4 <= |b|)
  {
    AddNothing(done);
  }

  /** One turn of the walk: type and length, then the data if it fits the block. */
  method ReadExt(block: seq<byte>, o: nat, ghost done: seq<Ext>) returns (fits: bool, e: Ext, n: nat)
    requires o + 4 <= |block| && Walked(block, done, o)
    ensures fits ==> o < n <= |block| && Walked(block, done + [e], n) && 0 <= e.typ < 0x1_0000
    ensures !fits ==> SplitExts(block, 0) == Split(done, o, true)
  {
    var et, elen := U16(block, o), U16(block, o + 2);
    n := o + 4 + elen;
    if n > |block| {
      WalkStops(block, done, o);
      return false, Ext(et, []), n;
    }
    WalkStep(block, done, o);
    return true, Ext(et, block[o + 4..n]), n;
  }

  /** The JavaScript walk stops silently at an extension that runs over the end. */
  method JsWalk(extBlock: seq<byte>) returns (r: JsHello)
    ensures r == JsLists(SplitExts(extBlock, 0).exts)
  {
    r := JsOk([], [], []);
    var eo := 0;
    ghost var done: seq<Ext> := [];
    WalkStarts(extBlock);
    while eo + 4 <= |extBlock|
      invariant 0 <= eo <= |extBlock| && r == JsLists(done) && Walked(extBlock, done, eo)
    {
      var fits, e, n := ReadExt(extBlock, eo, done);
      if !fits { return; }
      JsListsSnoc(done, e);
      r := JsExtension(r, e);
      done := done + [e];
      eo := n;
    }
    WalkStops(extBlock, done, eo);
  }

  method Ja3Walk(legacy: int, ciphers: seq<int>, block: seq<byte>) returns (ok: bool, r: Ja3)
    ensures ok == !SplitExts(block, 0).overflow
    ensures ok ==> r == Ja3Lists(legacy, ciphers, SplitExts(block, 0).exts)
  {
    r := Ja3(legacy, ciphers, [], [], [], [], []);
    var o := 0;
    ghost var init, done: seq<Ext> := r, [];
    WalkStarts(block);
    while o + 4 <= |block|
      invariant 0 <= o <= |block| && r == Ja3Fold(init, done) && Walked(block, done, o)
    {
      var fits, e, n := ReadExt(block, o, done);
      if !fits { return false, r; }
      Ja3FoldSnoc(init, done, e);
      r := Ja3Extension(r, e);
      done := done + [e];
      o := n;
    }
    WalkStops(block, done, o);
    Ja3FoldLists(legacy, ciphers, done);
    return true, r;
  }

  /** The JA4 walk must end exactly at the end of the block. */
  method Ja4Walk(legacy: int, ciphers: seq<int>, block: seq<byte>) returns (ok: bool, r: Ja4)
    ensures ok == (!SplitExts(block, 0).overflow && SplitExts(block, 0).end == |block|)
    ensures ok ==> r == Ja4Lists(legacy, ciphers, SplitExts(block, 0).exts)
  {
    r := Ja4(legacy, ciphers, [], false, [], [], []);
    var o := 0;
    ghost var init, done: seq<Ext> := r, [];
    WalkStarts(block);
    while o + 4 <= |block|
      invariant 0 <= o <= |block| && r == Ja4Fold(init, done) && Walked(block, done, o)
    {
      var fits, e, n := ReadExt(block, o, done);
      if !fits { return false, r; }
      Ja4FoldSnoc(init, done, e);
      r := Ja4Extension(r, e);
      done := done + [e];
      o := n;
    }
    WalkStops(block, done, o);
    Ja4FoldLists(legacy, ciphers, done);
    ok := o == |block|;
  }

  // ---- The bodies ----

  method ParseTlsClientHelloExtensions(ch: seq<byte>) returns (r: JsHello)
    ensures r == JsSpec(ch)
  {
    if |ch| < 34 { return JsFail("short_ch"); }
    var o := 34;
    // `ch[34]` is undefined: every later offset is NaN and the next read throws.
    if o == |ch| { return JsThrows; }
    var sidLen := ch[o] as int;
    o := o + 1;
    if |ch| < o + sidLen + 2 { return JsFail("short_ch2"); }
    o := o + sidLen;
    var csLen := U16(ch, o);
    o := o + 2;
    if |ch| < o + csLen + 1 { return JsFail("short_ch3"); }
    o := o + csLen;
    var compLen := ch[o] as int;
    o := o + 1;
    if |ch| < o + compLen + 2 { return JsFail("short_ch4"); }
    o := o + compLen;
    var extLen := U16(ch, o);
    o := o + 2;
    if |ch| < o + extLen { return JsFail("short_ext"); }
    r := JsWalk(ch[o..o + extLen]);
  }

  /** The part both helper functions repeat: the fixed fields, then the cipher list. */
  method CppPrefix(body: seq<byte>) returns (l: Option<Layout>, ciphers: seq<int>)
    ensures var s := Skeleton(body);
      l == if s.Some? && |s.value.ciphers| % 2 == 0 then s else None
    ensures l.Some? ==> ciphers == Ungreased(Words(l.value.ciphers, 0, |l.value.ciphers|))
  {
    var n := |body|;
    ciphers := [];
    if n < 2 { return None, []; }
    var o := 2 + 32;
    if o >= n { return None, []; }
    var sidLen := body[o] as int;
    o := o + 1;
    if o + sidLen > n { return None, []; }
    o := o + sidLen;
    if o + 2 > n { return None, []; }
    var cipherLen := U16(body, o);
    o := o + 2;
    if cipherLen % 2 != 0 || o + cipherLen > n { return None, []; }
    var cipherStart, cipherEnd := o, o + cipherLen;
    ciphers := CipherLoop(body[cipherStart..cipherEnd]);
    var exts := CppExtensionBlock(body, cipherEnd);
    if exts.None? { return None, []; }
    l := Some(Layout(U16(body, 0), body[cipherStart..cipherEnd], exts.value));
  }

  method CppExtensionBlock(body: seq<byte>, start: nat) returns (r: Option<seq<byte>>)
    ensures r == ExtensionBlock(body, start)
  {
    var n, o := |body|, start;
    if o >= n { return None; }
    var compLen := body[o] as int;
    o := o + 1;
    if o + compLen > n { return None; }
    o := o + compLen;
    if o + 2 > n { return None; }
    var extTotal := U16(body, o);
    o := o + 2;
    if o + extTotal > n { return None; }
    r := Some(body[o..o + extTotal]);
  }

  method CipherLoop(b: seq<byte>) returns (cs: seq<int>)
    requires |b| % 2 == 0
    ensures cs == Ungreased(Words(b, 0, |b|))
  {
    cs := [];
    var o := 0;
    while o < |b|
      invariant 0 <= o <= |b| && o % 2 == 0
      invariant cs + Ungreased(Words(b, o, |b|)) == Ungreased(Words(b, 0, |b|))
    {
      var c := U16(b, o);
      o := o + 2;
      UngreasedStep(cs, c, Words(b, o, |b|));
      if !IsGrease(c) { cs := cs + [c]; }
    }
  }

  method ComputeJa3FromClientHelloBody(body: seq<byte>) returns (r: Option<Ja3>)
    ensures r == Ja3Spec(body)
  {
    var l, ciphers := CppPrefix(body);
    if l.None? { return None; }
    var ok, j := Ja3Walk(l.value.legacy, ciphers, l.value.extensions);
    if !ok { return None; }
    return Some(j);
  }

  method ComputeJa4FromClientHelloBody(body: seq<byte>) returns (r: Option<Ja4>)
    ensures r == Ja4Spec(body)
  {
    var l, ciphers := CppPrefix(body);
    if l.None? { return None; }
    var ok, j := Ja4Walk(l.value.legacy, ciphers, l.value.extensions);
    if !ok { return None; }
    return Some(j);
  }

  // ---- Agreement ----

  lemma {:induction false} KeptGathers<T>(f: Ext -> seq<T>, exts: seq<Ext>)
    requires forall e: Ext :: IsGrease(e.typ) ==> f(e) == []
    ensures Gather(f, Kept(exts)) == Gather(f, exts)
    decreases |exts|
  {
    if exts != [] {
      KeptGathers(f, exts[1..]);
      var first := if IsGrease(exts[0].typ) then [] else [exts[0]];
      GatherAppend(f, first, Kept(exts[1..]));
      GatherOne(f, exts[0]);
    }
  }

  /** Exactly when each parser accepts a body, and that they then report the same lists:
      the JA4 parser is the strictest, then JA3, then JavaScript, and whatever two accept
      they read alike. */
  lemma ParsersAgree(b: seq<byte>)
    ensures JsSpec(b).JsOk? <==> Skeleton(b).Some?
    ensures JsSpec(b).JsThrows? <==> |b| == 34
    ensures Ja3Spec(b).Some? <==>
              (JsSpec(b).JsOk? && |Skeleton(b).value.ciphers| % 2 == 0
               && !SplitExts(Skeleton(b).value.extensions, 0).overflow)
    ensures Ja4Spec(b).Some? <==> (Ja3Spec(b).Some? && SplitExts(Skeleton(b).value.extensions, 0).end == |Skeleton(b).value.extensions|)
    ensures Ja3Spec(b).Some? ==>
              JsSpec(b).versions == Ja3Spec(b).value.versions && JsSpec(b).alpn == Ja3Spec(b).value.alpn
    ensures Ja4Spec(b).Some? ==>
              var j3, j4 := Ja3Spec(b).value, Ja4Spec(b).value;
              && j4.ciphers == j3.ciphers && j4.extTypes == j3.extTypes && j4.versions == j3.versions
              && j4.legacy == j3.legacy && j4.firstAlpn == FirstNonEmpty(JsSpec(b).alpn)
  {
    if Skeleton(b).Some? {
      var exts := SplitExts(Skeleton(b).value.extensions, 0).exts;
      KeptGathers(AlpnIn, exts);
      KeptGathers(VersionsIn, exts);
    }
  }
}
