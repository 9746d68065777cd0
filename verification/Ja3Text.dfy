/** Reading a JA3 string back into its version and its four lists. */
module Ja3Text {
  import opened Text
  import opened HelloLayout
  import opened HelloParsers
  import opened HelloPrinter
  import opened HelloRoundTrip
  import opened Fingerprint

  /** The text before the first separator, all of it if there is none. */
  function Before(c: char, s: string): (t: string)
    ensures |t| <= |s| && Free(c, t)
    decreases |s|
  {
    if s == "" || s[0] == c then "" else [s[0]] + Before(c, s[1..])
  }

  /** The text behind the first separator, nothing if there is none. */
  function Behind(c: char, s: string): (t: string) {
    var n := |Before(c, s)|;
    if n < |s| then s[n + 1..] else ""
  }

  lemma {:induction false} CutHere(c: char, p: string, rest: string)
    requires Free(c, p)
    ensures Before(c, p + [c] + rest) == p && Behind(c, p + [c] + rest) == rest
    decreases |p|
  {
    var s := p + [c] + rest;
    if p == "" {
      assert s[1..] == rest;
    } else {
      assert s[1..] == p[1..] + [c] + rest && s[0] == p[0];
      CutHere(c, p[1..], rest);
      assert p == [p[0]] + p[1..];
      assert s[|p| + 1..] == rest;
    }
  }

  lemma {:induction false} NoCut(c: char, p: string)
    requires Free(c, p)
    ensures Before(c, p) == p && Behind(c, p) == ""
    decreases |p|
  {
    if p != "" {
      NoCut(c, p[1..]);
      assert p == [p[0]] + p[1..];
    }
  }

  /** The numbers of a list joined by dashes. */
  function Numbers(s: string): (vs: seq<int>)
    decreases |s|
  {
    if s == "" then []
    else [Value(Before('-', s))] + Numbers(Behind('-', s))
  }

  lemma {:induction false} NumbersBack(vs: seq<int>)
    requires Words16(vs)
    ensures Numbers(Dashed(vs)) == vs
    decreases |vs|
  {
    if vs != [] {
      DashedTokens(vs);
      DecimalRoundTrip(vs[0]);
      NumbersBack(vs[1..]);
      DashedCons(vs);
      if |vs| == 1 {
        NoCut('-', Decimal(vs[0]));
        assert vs == [vs[0]];
      } else {
        CutHere('-', Decimal(vs[0]), Dashed(vs[1..]));
        assert vs == [vs[0]] + vs[1..];
      }
    }
  }

  lemma {:induction false} DashedCons(vs: seq<int>)
    requires Words16(vs) && vs != []
    ensures Dashed(vs) == if |vs| == 1 then Decimal(vs[0]) else Decimal(vs[0]) + ['-'] + Dashed(vs[1..])
    ensures Dashed(vs) != "" && Free('-', Decimal(vs[0]))
  {
    DashedTokens(vs);
    DashedTokens(vs[1..]);
    assert Gather(Dec, vs) == [Decimal(vs[0])] + Gather(Dec, vs[1..]);
    assert Gather(Dec, vs)[1..] == Gather(Dec, vs[1..]);
    assert Gather(Dec, vs)[0] == Decimal(vs[0]);
  }

  /** Version, ciphers, types, groups and formats, as a reader of the string finds them. */
  function Read(s: string): (r: (int, seq<int>, seq<int>, seq<int>, seq<int>)) {
    var s1 := Behind(',', s);
    var s2 := Behind(',', s1);
    var s3 := Behind(',', s2);
    var s4 := Behind(',', s3);
    (Value(Before(',', s)), Numbers(Before(',', s1)), Numbers(Before(',', s2)), Numbers(Before(',', s3)), Numbers(Before(',', s4)))
  }

  lemma {:induction false} TextReads(v: int, c: seq<int>, t: seq<int>, g: seq<int>, f: seq<int>)
    requires v >= 0 && Words16(c) && Words16(t) && Words16(g) && Words16(f)
    ensures Read(Ja3Text(v, c, t, g, f)) == (v, c, t, g, f)
  {
    DecimalRoundTrip(v);
    DecimalNoComma(v);
    DashedNoComma(c);
    DashedNoComma(t);
    DashedNoComma(g);
    DashedNoComma(f);
    NumbersBack(c);
    NumbersBack(t);
    NumbersBack(g);
    NumbersBack(f);
    CutHere(',', Decimal(v), Dashed(c) + "," + (Dashed(t) + "," + (Dashed(g) + "," + Dashed(f))));
    CutHere(',', Dashed(c), Dashed(t) + "," + (Dashed(g) + "," + Dashed(f)));
    CutHere(',', Dashed(t), Dashed(g) + "," + Dashed(f));
    CutHere(',', Dashed(g), Dashed(f));
    NoCut(',', Dashed(f));
  }

  /** The JA3 string reads back to the five lists it is built from, in their places. */
  lemma Ja3Reads(j: Ja3)
    requires WellRanged(j)
    ensures Read(Ja3String(j)) == (j.legacy, j.ciphers, j.extTypes, j.curves, j.formats)
  {
    TextReads(j.legacy, j.ciphers, j.extTypes, j.curves, j.formats);
  }

  /** The sorted string reads back to the same lists in ascending order. */
  lemma Ja3SortedReads(j: Ja3)
    requires WellRanged(j)
    ensures var r := Read(Ja3SortedString(j));
      && r.0 == j.legacy && Ascends(r.1, j.ciphers) && Ascends(r.2, j.extTypes) && Ascends(r.3, j.curves) && Ascends(r.4, j.formats)
  {
    SortedWords(j.ciphers);
    SortedWords(j.extTypes);
    SortedWords(j.curves);
    SortedWords(j.formats);
    TextReads(j.legacy, Sort(NumLe, j.ciphers), Sort(NumLe, j.extTypes), Sort(NumLe, j.curves), Sort(NumLe, j.formats));
  }

  predicate Ascends(r: seq<int>, vs: seq<int>) {
    multiset(r) == multiset(vs) && forall i, j | 0 <= i < j < |r| :: r[i] <= r[j]
  }

  lemma {:induction false} SortedWords(vs: seq<int>)
    requires Words16(vs)
    ensures Words16(Sort(NumLe, vs)) && Ascends(Sort(NumLe, vs), vs)
  {
    var r := Sort(NumLe, vs);
    OrdersAreTotal();
    SortSorts(NumLe, vs);
    forall i | 0 <= i < |r|
      ensures Word16(r[i])
    {
      assert r[i] in multiset(r);
      assert r[i] in vs;
    }
    assert forall i, j | 0 <= i < j < |r| :: NumLe(r[i], r[j]);
  }

  /** From a ClientHello through its bytes, the parser and the string back to its own lists,
      GREASE left out where JA3 leaves it out. */
  lemma Ja3OfHello(h: Hello)
    requires Fits(h)
    ensures var l, j := Carried(h.exts), Ja3Spec(Print(h));
      && j.Some?
      && Read(Ja3String(j.value)) == (h.legacy, Ungreased(h.ciphers), Ungreased(l.types), Ungreased(l.groups), l.formats)
  {
    Ja3Back(h);
    ParsedWellRanged(Print(h));
    Ja3Reads(Ja3Spec(Print(h)).value);
  }
}
