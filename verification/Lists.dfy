/** Small vocabulary on numbers and sequences. */
module Lists {

  function Min(a: int, b: int): int {
    if a < b then a else b
  }

  function Max(a: int, b: int): int {
    if a > b then a else b
  }

  /** `splice(i, 1)`: the list without its element `i`. */
  function Without<T>(xs: seq<T>, i: nat): (r: seq<T>)
    requires i < |xs|
  {
    xs[..i] + xs[i + 1..]
  }

  lemma TakeNext<T>(xs: seq<T>, i: nat)
    requires i < |xs|
    ensures xs[..i + 1] == xs[..i] + [xs[i]]
  {}

  /** How often a value occurs. */
  function Tally<T(==)>(v: seq<T>, x: T): (n: nat)
    decreases |v|
  {
    if v == [] then 0 else Tally(v[..|v| - 1], x) + if v[|v| - 1] == x then 1 else 0
  }

  lemma {:induction false} TallyIsMultiset<T>(v: seq<T>, x: T)
    ensures Tally(v, x) == multiset(v)[x]
    decreases |v|
  {
    if v != [] {
      TallyIsMultiset(v[..|v| - 1], x);
      assert v == v[..|v| - 1] + [v[|v| - 1]];
    }
  }

  lemma {:induction false} TallySnoc<T>(v: seq<T>, y: T, x: T)
    ensures Tally(v + [y], x) == Tally(v, x) + if y == x then 1 else 0
  {
    assert (v + [y])[..|v|] == v;
  }
}
