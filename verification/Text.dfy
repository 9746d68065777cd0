/** Decimal and hexadecimal text, joining and splitting, and sorting: what the fingerprint
    strings, the virtual addresses and the flow keys are built from. */
module Text {

  const DIGITS: string := "0123456789abcdef"

  function Digit(d: int): (c: char)
    requires 0 <= d < 16
    ensures d < 10 <==> IsDigit(c)
    ensures DigitValue(c) == d
  {
    DIGITS[d]
  }

  predicate IsDigit(c: char) {
    '0' <= c <= '9'
  }

  function DigitValue(c: char): (d: int) {
    if '0' <= c <= '9' then c as int - '0' as int else if 'a' <= c <= 'f' then c as int - 'a' as int + 10 else -1
  }

  function Decimal(n: nat): (s: string)
    ensures s != [] && AllDigits(s)
  {
    if n < 10 then [Digit(n)] else Decimal(n / 10) + [Digit(n % 10)]
  }

  predicate AllDigits(s: string) {
    forall i | 0 <= i < |s| :: IsDigit(s[i])
  }

  /** The number a string of digits denotes. */
  function Value(s: string): (n: int)
    decreases |s|
  {
    if s == [] then 0 else Value(s[..|s| - 1]) * 10 + DigitValue(s[|s| - 1])
  }

  lemma {:induction false} DecimalRoundTrip(n: nat)
    ensures Value(Decimal(n)) == n
  {
    if n >= 10 {
      DecimalRoundTrip(n / 10);
      var s := Decimal(n);
      assert s[..|s| - 1] == Decimal(n / 10) && s[|s| - 1] == Digit(n % 10);
    } else {
      assert [Digit(n)][..0] == [];
    }
  }

  lemma {:induction false} DecimalInjective(a: nat, b: nat)
    requires Decimal(a) == Decimal(b)
    ensures a == b
  {
    DecimalRoundTrip(a);
    DecimalRoundTrip(b);
  }

  // ---- Joining ----

  /** `parts` with `sep` between them. */
  function Join(sep: char, parts: seq<string>): (s: string)
    decreases |parts|
  {
    if parts == [] then "" else if |parts| == 1 then parts[0]
    else parts[0] + [sep] + Join(sep, parts[1..])
  }

  predicate Free(c: char, s: string) {
    forall i | 0 <= i < |s| :: s[i] != c
  }

  /** The text before the first separator is determined. */
  lemma CutUnique(sep: char, a: string, x: string, b: string, y: string)
    requires Free(sep, a) && Free(sep, b) && a + [sep] + x == b + [sep] + y
    ensures a == b && x == y
  {
    var s := a + [sep] + x;
    assert s[|a|] == sep && s[|b|] == sep;
    assert forall k | 0 <= k < |a| :: s[k] == a[k];
    assert forall k | 0 <= k < |b| :: s[k] == b[k];
    assert |a| == |b|;
    assert s[..|a|] == a && s[..|b|] == b && s[|a| + 1..] == x && s[|b| + 1..] == y;
  }

  predicate Tokens(sep: char, parts: seq<string>) {
    forall i | 0 <= i < |parts| :: parts[i] != "" && Free(sep, parts[i])
  }

  /** Joined non-empty tokens can be taken apart in one way only. */
  lemma {:induction false} JoinInjective(sep: char, p: seq<string>, q: seq<string>)
    requires Tokens(sep, p) && Tokens(sep, q) && Join(sep, p) == Join(sep, q)
    ensures p == q
    decreases |p|
  {
    if p == [] {
      if q != [] { JoinNonEmpty(sep, q); }
    } else if q == [] {
      JoinNonEmpty(sep, p);
    } else if |p| == 1 && |q| == 1 {
      assert p[0] == q[0];
    } else if |p| == 1 {
      JoinHasSep(sep, q, p[0]);
    } else if |q| == 1 {
      JoinHasSep(sep, p, q[0]);
    } else {
      CutUnique(sep, p[0], Join(sep, p[1..]), q[0], Join(sep, q[1..]));
      JoinInjective(sep, p[1..], q[1..]);
      assert p == [p[0]] + p[1..] && q == [q[0]] + q[1..];
    }
  }

  lemma {:induction false} JoinNonEmpty(sep: char, p: seq<string>)
    requires Tokens(sep, p) && p != []
    ensures Join(sep, p) != ""
  {
    assert p[0] != "";
  }

  lemma {:induction false} JoinHasSep(sep: char, p: seq<string>, s: string)
    requires |p| >= 2 && Free(sep, s)
    ensures Join(sep, p) != s
  {
    assert Join(sep, p)[|p[0]|] == sep;
  }

  lemma {:induction false} JoinFree(c: char, sep: char, p: seq<string>)
    requires c != sep && forall i | 0 <= i < |p| :: Free(c, p[i])
    ensures Free(c, Join(sep, p))
    decreases |p|
  {
    if |p| > 1 {
      JoinFree(c, sep, p[1..]);
    }
  }

  /** The loop the source writes out for each element type. */
  method JoinLoop(sep: char, parts: seq<string>) returns (out: string)
    ensures out == Join(sep, parts)
  {
    out := "";
    for i := 0 to |parts|
      invariant out == Join(sep, parts[..i])
    {
      JoinSnoc(sep, parts[..i], parts[i]);
      assert parts[..i + 1] == parts[..i] + [parts[i]];
      if i > 0 { out := out + [sep]; }
      out := out + parts[i];
    }
    assert parts[..|parts|] == parts;
  }

  lemma {:induction false} JoinSnoc(sep: char, p: seq<string>, t: string)
    ensures Join(sep, p + [t]) == if p == [] then t else Join(sep, p) + [sep] + t
    decreases |p|
  {
    if |p| >= 1 {
      JoinSnoc(sep, p[1..], t);
      assert (p + [t])[1..] == p[1..] + [t];
    }
  }

  // ---- Sorting ----

  ghost predicate TotalOrder<T(!new)>(le: (T, T) -> bool) {
    && (forall x, y :: le(x, y) || le(y, x))
    && (forall x, y :: le(x, y) && le(y, x) ==> x == y)
    && (forall x, y, z :: le(x, y) && le(y, z) ==> le(x, z))
  }

  ghost predicate SortedBy<T>(le: (T, T) -> bool, xs: seq<T>) {
    forall i, j | 0 <= i < j < |xs| :: le(xs[i], xs[j])
  }

  function Insert<T>(le: (T, T) -> bool, x: T, xs: seq<T>): (ys: seq<T>)
    decreases |xs|
  {
    if xs == [] || le(x, xs[0]) then [x] + xs else [xs[0]] + Insert(le, x, xs[1..])
  }

  /** `std::sort` on values where equal means identical. */
  function Sort<T>(le: (T, T) -> bool, xs: seq<T>): (ys: seq<T>)
    decreases |xs|
  {
    if xs == [] then [] else Insert(le, xs[0], Sort(le, xs[1..]))
  }

  lemma {:induction false} InsertSorted<T(!new)>(le: (T, T) -> bool, x: T, xs: seq<T>)
    requires TotalOrder(le) && SortedBy(le, xs)
    ensures SortedBy(le, Insert(le, x, xs)) && multiset(Insert(le, x, xs)) == multiset{x} + multiset(xs)
    decreases |xs|
  {
    if xs == [] || le(x, xs[0]) {
      assert multiset([x] + xs) == multiset{x} + multiset(xs);
    } else {
      var rest := Insert(le, x, xs[1..]);
      InsertSorted(le, x, xs[1..]);
      assert xs == [xs[0]] + xs[1..];
      forall j | 0 <= j < |rest|
        ensures le(xs[0], rest[j])
      {
        assert rest[j] in multiset(rest);
        assert rest[j] == x || rest[j] in multiset(xs[1..]);
        if rest[j] != x {
          assert rest[j] in xs[1..];
        }
      }
    }
  }

  lemma {:induction false} SortSorts<T(!new)>(le: (T, T) -> bool, xs: seq<T>)
    requires TotalOrder(le)
    ensures SortedBy(le, Sort(le, xs)) && multiset(Sort(le, xs)) == multiset(xs)
    decreases |xs|
  {
    if xs != [] {
      SortSorts(le, xs[1..]);
      InsertSorted(le, xs[0], Sort(le, xs[1..]));
      assert xs == [xs[0]] + xs[1..];
    }
  }

  lemma TailElements<T>(xs: seq<T>)
    requires xs != []
    ensures xs == [xs[0]] + xs[1..]
    ensures multiset(xs[1..]) == multiset(xs) - multiset{xs[0]}
  {
    assert xs == [xs[0]] + xs[1..];
  }

  lemma LeastFirst<T(!new)>(le: (T, T) -> bool, xs: seq<T>, y: T)
    requires TotalOrder(le) && SortedBy(le, xs) && xs != []
    ensures y in multiset(xs) ==> le(xs[0], y)
    ensures xs[0] in multiset(xs)
  {
    assert xs[0] in xs;
    if y in multiset(xs) {
      assert y in xs;
    }
  }

  /** Sorted sequences with the same elements are the same sequence. */
  lemma {:induction false} SortedUnique<T(!new)>(le: (T, T) -> bool, xs: seq<T>, ys: seq<T>)
    requires TotalOrder(le) && SortedBy(le, xs) && SortedBy(le, ys) && multiset(xs) == multiset(ys)
    ensures xs == ys
    decreases |xs|
  {
    if xs == [] || ys == [] {
      assert |multiset(xs)| == |xs| && |multiset(ys)| == |ys|;
    } else {
      LeastFirst(le, xs, ys[0]);
      LeastFirst(le, ys, xs[0]);
      TailElements(xs);
      TailElements(ys);
      SortedUnique(le, xs[1..], ys[1..]);
    }
  }

  /** Sorting depends on the elements only, not on their order. */
  lemma {:induction false} SortPermuted<T(!new)>(le: (T, T) -> bool, xs: seq<T>, ys: seq<T>)
    requires TotalOrder(le) && multiset(xs) == multiset(ys)
    ensures Sort(le, xs) == Sort(le, ys)
  {
    SortSorts(le, xs);
    SortSorts(le, ys);
    SortedUnique(le, Sort(le, xs), Sort(le, ys));
  }

  predicate NumLe(a: int, b: int) {
    a <= b
  }

  /** Lexicographic order on strings: `std::string`'s `<=` and JavaScript's. */
  predicate TextLe(a: string, b: string)
    decreases |a|
  {
    a == "" || (b != "" && (a[0] < b[0] || (a[0] == b[0] && TextLe(a[1..], b[1..]))))
  }

  lemma {:induction false} TextLeTotal(a: string, b: string)
    ensures TextLe(a, b) || TextLe(b, a)
    ensures TextLe(a, b) && TextLe(b, a) ==> a == b
    decreases |a|
  {
    if a != "" && b != "" {
      TextLeTotal(a[1..], b[1..]);
      assert a == [a[0]] + a[1..] && b == [b[0]] + b[1..];
    }
  }

  lemma {:induction false} TextLeTransitive(a: string, b: string, c: string)
    requires TextLe(a, b) && TextLe(b, c)
    ensures TextLe(a, c)
    decreases |a|
  {
    if a != "" && a[0] == b[0] && b[0] == c[0] {
      TextLeTransitive(a[1..], b[1..], c[1..]);
    }
  }

  lemma OrdersAreTotal()
    ensures TotalOrder(NumLe) && TotalOrder(TextLe)
  {
    forall x, y
      ensures TextLe(x, y) || TextLe(y, x)
      ensures TextLe(x, y) && TextLe(y, x) ==> x == y
    {
      TextLeTotal(x, y);
    }
    forall x, y, z | TextLe(x, y) && TextLe(y, z)
      ensures TextLe(x, z)
    {
      TextLeTransitive(x, y, z);
    }
  }
}
