/** Helpers of the TLS helper on lists of 16-bit values: removal of repeats, and the report of
    what one list has more of than another. */
module WireLists {
  import opened Lists
  import opened Text
  import opened HelloLayout
  import Fingerprint

  // ---- Repeats ----

  /** Every value once, where it first occurs. */
  function Firsts(v: seq<int>): (r: seq<int>)
    decreases |v|
  {
    if v == [] then []
    else
      var init, x := Firsts(v[..|v| - 1]), v[|v| - 1];
      if x in v[..|v| - 1] then init else init + [x]
  }

  method DedupeU16PreserveOrder(v: seq<int>) returns (out: seq<int>, removed: nat)
    ensures out == Firsts(v) && removed == |v| - |out|
  {
    out := [];
    var seen: set<int> := {};
    for i := 0 to |v|
      invariant out == Firsts(v[..i]) && seen == (set x | x in v[..i]) && |out| <= i
    {
      assert v[..i + 1][..i] == v[..i] && v[..i + 1] == v[..i] + [v[i]];
      if v[i] !in seen { out := out + [v[i]]; }
      seen := seen + {v[i]};
    }
    assert v[..|v|] == v;
    removed := |v| - |out|;
  }

  /** The first position of a value. */
  function Position(v: seq<int>, x: int): (i: nat)
    ensures i <= |v| && (i < |v| ==> v[i] == x) && (i < |v| <==> x in v)
    ensures forall k | 0 <= k < i :: v[k] != x
    decreases |v|
  {
    if v == [] then 0
    else
      var i := Position(v[..|v| - 1], x);
      if i < |v| - 1 then i else if v[|v| - 1] == x then |v| - 1 else |v|
  }

  /** Two values of the result are different, and first occur in this order in the list. */
  predicate Apart(v: seq<int>, r: seq<int>, i: int, j: int) {
    0 <= i < j < |r| ==> r[i] != r[j] && Position(v, r[i]) < Position(v, r[j])
  }

  lemma {:induction false} PositionSnoc(v: seq<int>, x: int, y: int)
    ensures y in v ==> Position(v + [x], y) == Position(v, y)
    ensures x !in v ==> Position(v + [x], x) == |v|
  {
    assert (v + [x])[..|v|] == v;
  }

  /** The result has the same values, none twice, in the order of their first occurrences. */
  lemma {:induction false} FirstsKeepOrder(v: seq<int>)
    ensures forall x :: x in Firsts(v) <==> x in v
    ensures forall i, j :: Apart(v, Firsts(v), i, j)
    decreases |v|
  {
    if v != [] {
      var init, x := v[..|v| - 1], v[|v| - 1];
      var f := Firsts(init);
      FirstsKeepOrder(init);
      assert v == init + [x];
      forall i, j
        ensures Apart(v, Firsts(v), i, j)
      {
        assert Apart(init, f, i, j);
        if 0 <= i < |f| {
          assert f[i] in f;
          PositionSnoc(init, x, f[i]);
        }
        if 0 <= j < |f| {
          assert f[j] in f;
          PositionSnoc(init, x, f[j]);
        }
        PositionSnoc(init, x, x);
      }
    }
  }

  /** A list without repeats is left alone. */
  lemma {:induction false} FirstsFixed(v: seq<int>)
    requires forall i, j | 0 <= i < j < |v| :: v[i] != v[j]
    ensures Firsts(v) == v
    decreases |v|
  {
    if v != [] {
      FirstsFixed(v[..|v| - 1]);
      assert v == v[..|v| - 1] + [v[|v| - 1]];
    }
  }

  lemma {:induction false} DedupeIdempotent(v: seq<int>)
    ensures Firsts(Firsts(v)) == Firsts(v)
  {
    FirstsKeepOrder(v);
    var r := Firsts(v);
    forall i, j | 0 <= i < j < |r|
      ensures r[i] != r[j]
    {
      assert Apart(v, r, i, j);
    }
    FirstsFixed(r);
  }

  // ---- Surplus ----

  function Surplus(a: seq<int>, b: seq<int>, x: int): (n: nat) {
    if Tally(a, x) > Tally(b, x) then Tally(a, x) - Tally(b, x) else 0
  }

  function CountOf(m: map<int, int>, x: int): (n: int) {
    if x in m then m[x] else 0
  }

  method CountAll(v: seq<int>) returns (m: map<int, int>)
    ensures forall x :: CountOf(m, x) == Tally(v, x)
    ensures forall x :: x in m <==> x in v
  {
    m := map[];
    for i := 0 to |v|
      invariant forall x :: CountOf(m, x) == Tally(v[..i], x)
      invariant forall x :: x in m <==> x in v[..i]
    {
      assert v[..i + 1][..i] == v[..i] && v[..i + 1] == v[..i] + [v[i]];
      m := m[v[i] := CountOf(m, v[i]) + 1];
    }
    assert v[..|v|] == v;
  }

  function Repeat(x: int, n: int): (r: seq<int>) {
    if n <= 0 then [] else Repeat(x, n - 1) + [x]
  }

  lemma {:induction false} TallyAppend(a: seq<int>, b: seq<int>, x: int)
    ensures Tally(a + b, x) == Tally(a, x) + Tally(b, x)
    decreases |b|
  {
    if b == [] {
      assert a + b == a;
    } else {
      TallyAppend(a, b[..|b| - 1], x);
      assert (a + b)[..|a + b| - 1] == a + b[..|b| - 1];
    }
  }

  lemma {:induction false} TallyRepeat(y: int, n: int, x: int)
    ensures Tally(Repeat(y, n), x) == if x == y && n > 0 then n else 0
    decreases n
  {
    if n > 0 {
      TallyRepeat(y, n - 1, x);
      TallySnoc(Repeat(y, n - 1), y, x);
    }
  }

  lemma {:induction false} TallyIn(v: seq<int>, x: int)
    ensures Tally(v, x) > 0 <==> x in v
    decreases |v|
  {
    if v != [] {
      TallyIn(v[..|v| - 1], x);
      assert v == v[..|v| - 1] + [v[|v| - 1]];
    }
  }

  /** The values `a` has more often than `b`, each as often as it is in surplus, sorted. */
  ghost predicate IsExtra(extra: seq<int>, a: seq<int>, b: seq<int>) {
    SortedBy(NumLe, extra) && forall x :: Tally(extra, x) == Surplus(a, b, x)
  }

  /** `JoinCommaDec16` */
  function CommaDec(vs: seq<int>): (s: string) {
    Join(',', Gather(Fingerprint.Dec, vs))
  }

  lemma {:induction false} CommaDecEmpty(vs: seq<int>)
    requires Fingerprint.Words16(vs)
    ensures CommaDec(vs) == "" <==> vs == []
  {
    Fingerprint.DashedTokens(vs);
    if vs != [] {
      assert Tokens(',', Gather(Fingerprint.Dec, vs));
      JoinNonEmpty(',', Gather(Fingerprint.Dec, vs));
    }
  }

  lemma {:induction false} ExtraEmpty(extra: seq<int>, a: seq<int>, b: seq<int>)
    requires IsExtra(extra, a, b) && Fingerprint.Words16(a)
    ensures Fingerprint.Words16(extra)
    ensures extra == [] <==> forall x :: Surplus(a, b, x) == 0
  {
    forall i | 0 <= i < |extra|
      ensures extra[i] in a && Surplus(a, b, extra[i]) > 0
    {
      TallyIn(extra, extra[i]);
      TallyIn(a, extra[i]);
    }
    if extra != [] {
      assert Surplus(a, b, extra[0]) > 0;
    }
  }

  /** The report: the surplus as comma-joined decimal text, empty exactly if there is none. */
  method MultisetExtraInFirst(a: seq<int>, b: seq<int>) returns (text: string)
    requires Fingerprint.Words16(a)
    ensures exists extra :: IsExtra(extra, a, b) && text == CommaDec(extra)
    ensures text == "" <==> forall x :: Surplus(a, b, x) == 0
  {
    var extra := ExtraInFirst(a, b);
    ExtraEmpty(extra, a, b);
    CommaDecEmpty(extra);
    text := JoinLoop(',', Gather(Fingerprint.Dec, extra));
  }

  method ExtraInFirst(a: seq<int>, b: seq<int>) returns (extra: seq<int>)
    ensures IsExtra(extra, a, b)
  {
    var ca := CountAll(a);
    var cb := CountAll(b);
    extra := [];
    // The counts are visited once per key; the order is immaterial, as the result is sorted.
    var keys, _ := DedupeU16PreserveOrder(a);
    FirstsKeepOrder(a);
    for i := 0 to |keys|
      invariant forall x :: Tally(extra, x) == if x in keys[..i] then Surplus(a, b, x) else 0
    {
      var k := keys[i];
      assert k in keys;
      forall j | 0 <= j < i
        ensures keys[j] != k
      {
        assert Apart(a, keys, j, i);
      }
      var more := Repeat(k, CountOf(ca, k) - CountOf(cb, k));
      forall x
        ensures Tally(extra + more, x) == Tally(extra, x) + if x == k then Surplus(a, b, k) else 0
      {
        TallyAppend(extra, more, x);
        TallyRepeat(k, CountOf(ca, k) - CountOf(cb, k), x);
      }
      extra := extra + more;
      assert keys[..i + 1] == keys[..i] + [k];
    }
    assert keys[..|keys|] == keys;
    forall x
      ensures Tally(extra, x) == Surplus(a, b, x)
    {
      TallyIn(a, x);
    }
    ghost var unsorted := extra;
    OrdersAreTotal();
    SortSorts(NumLe, extra);
    extra := Sort(NumLe, extra);
    forall x
      ensures Tally(extra, x) == Tally(unsorted, x)
    {
      TallyIsMultiset(extra, x);
      TallyIsMultiset(unsorted, x);
    }
  }

  /** Nothing is in surplus either way exactly if the lists are permutations of each other, so
      that an empty report both ways means the wire list is the profile's up to order. */
  lemma SurplusEmptyExactly(a: seq<int>, b: seq<int>)
    ensures (forall x :: Surplus(a, b, x) == 0 && Surplus(b, a, x) == 0) <==> multiset(a) == multiset(b)
  {
    forall x
      ensures Tally(a, x) == multiset(a)[x] && Tally(b, x) == multiset(b)[x]
    {
      TallyIsMultiset(a, x);
      TallyIsMultiset(b, x);
    }
    if forall x :: Surplus(a, b, x) == 0 && Surplus(b, a, x) == 0 {
      forall x
        ensures multiset(a)[x] == multiset(b)[x]
      {
        assert Surplus(a, b, x) == 0 && Surplus(b, a, x) == 0;
      }
    } else {
      var x :| !(Surplus(a, b, x) == 0 && Surplus(b, a, x) == 0);
      assert multiset(a)[x] != multiset(b)[x];
    }
  }
}
