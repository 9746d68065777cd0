/** IPv4 addresses in dotted decimal. */
module Addresses {
  import opened Bytes
  import opened Text

  datatype Ipv4 = Ipv4(a: byte, b: byte, c: byte, d: byte)

  function Dotted(ip: Ipv4): (s: string) {
    Decimal(ip.a as int) + "." + (Decimal(ip.b as int) + "." + (Decimal(ip.c as int) + "." + Decimal(ip.d as int)))
  }

  /** Every character is a digit or one of `others`. */
  predicate Numeric(s: string, others: set<char>) {
    forall i | 0 <= i < |s| :: IsDigit(s[i]) || s[i] in others
  }

  lemma {:induction false} DecimalNumeric(n: nat)
    ensures Numeric(Decimal(n), {})
  {}

  lemma NumericFree(s: string, others: set<char>, c: char)
    requires Numeric(s, others) && !IsDigit(c) && c !in others
    ensures Free(c, s)
  {}

  lemma {:induction false} DecimalFree(n: nat, c: char)
    requires !IsDigit(c)
    ensures Free(c, Decimal(n))
  {
    DecimalNumeric(n);
    NumericFree(Decimal(n), {}, c);
  }

  lemma DottedNumeric(ip: Ipv4)
    ensures Numeric(Dotted(ip), {'.'})
  {
    DecimalNumeric(ip.a as int);
    DecimalNumeric(ip.b as int);
    DecimalNumeric(ip.c as int);
    DecimalNumeric(ip.d as int);
  }

  lemma {:induction false} CutDecimal(a: nat, x: string, b: nat, y: string)
    requires Decimal(a) + "." + x == Decimal(b) + "." + y
    ensures a == b && x == y
  {
    DecimalFree(a, '.');
    DecimalFree(b, '.');
    CutUnique('.', Decimal(a), x, Decimal(b), y);
    DecimalInjective(a, b);
  }

  /** Different addresses have different texts. */
  lemma DottedInjective(x: Ipv4, y: Ipv4)
    requires Dotted(x) == Dotted(y)
    ensures x == y
  {
    var xc, yc := Decimal(x.c as int) + "." + Decimal(x.d as int), Decimal(y.c as int) + "." + Decimal(y.d as int);
    CutDecimal(x.a as int, Decimal(x.b as int) + "." + xc, y.a as int, Decimal(y.b as int) + "." + yc);
    CutDecimal(x.b as int, xc, y.b as int, yc);
    CutDecimal(x.c as int, Decimal(x.d as int), y.c as int, Decimal(y.d as int));
    DecimalInjective(x.d as int, y.d as int);
  }
}
