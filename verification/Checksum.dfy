/** The Internet checksum, twice: on big-endian words in JavaScript numbers, whose shifts
    are 32-bit signed, and on native little-endian words in C's `uint32_t`. */
module Checksum {
  import opened Bytes

  /** The two ways a program can read a pair of octets as a word; a last lone octet is
      the word's first one. */
  function WordSum(s: seq<byte>, big: bool): (n: nat)
    decreases |s|
  {
    if s == [] then 0
    else
      var hi := s[0] as int;
      var lo := if |s| == 1 then 0 else s[1] as int;
      (if big then hi * 256 + lo else hi + lo * 256) + WordSum(if |s| == 1 then [] else s[2..], big)
  }

  /** The reference: the representative of `n` modulo 65535 that is zero only for zero,
      which is what one's complement addition (section 1 of RFC 1071) computes. */
  function Ones(n: nat): (r: nat)
    ensures r <= 65535 && (r == 0 <==> n == 0)
  {
    if n == 0 then 0 else (n - 1) % 65535 + 1
  }

  /** How many times 65535 was cast out. */
  function Cast(n: nat): (k: nat)
    ensures n == Ones(n) + k * 65535
  {
    if n == 0 then 0 else (n - 1) / 65535
  }

  function Reference(s: seq<byte>): (r: nat)
    ensures r <= 65535
  {
    65535 - Ones(WordSum(s, true))
  }

  lemma OnesUnique(n: nat, r: nat, k: int)
    requires r <= 65535 && (r == 0 <==> n == 0) && n == r + k * 65535
    ensures r == Ones(n)
  {
    assert n == Ones(n) + Cast(n) * 65535;
  }

  // ---- JavaScript ----

  function ToInt32(x: int): (r: int)
    ensures -0x8000_0000 <= r < 0x8000_0000
  {
    var m := x % 0x1_0000_0000;
    if m < 0x8000_0000 then m else m - 0x1_0000_0000
  }

  /** `x >> 16`: arithmetic shift of the 32-bit value. */
  function Shr16(x: int): int {
    ToInt32(x) / 0x1_0000
  }

  /** How many more rounds the fold can take. */
  function Rounds(x: int): nat {
    if Shr16(x) == 0 then 0 else if -0x8000 <= x < 0x1_8000 then 1 else 2
  }

  /** The value of `sum` after the fold loop. */
  function JsFold(sum: int): (r: int)
    decreases Rounds(sum)
  {
    if Shr16(sum) == 0 then sum else
      RoundsDrop(sum);
      JsFold(sum % 0x1_0000 + Shr16(sum))
  }

  lemma RoundsDrop(x: int)
    requires Shr16(x) != 0
    ensures Rounds(x % 0x1_0000 + Shr16(x)) < Rounds(x)
  {
    var t := ToInt32(x);
    assert x % 0x1_0000 == t % 0x1_0000;
    assert t == Shr16(x) * 0x1_0000 + t % 0x1_0000;
    assert -0x8000 <= Shr16(x) < 0x8000;
  }

  /** `(~sum) & 0xffff` after the loop. */
  function JsChecksum(s: seq<byte>): (r: int)
    ensures 0 <= r <= 0xffff
  {
    0xffff - JsFold(WordSum(s, true)) % 0x1_0000
  }

  method InternetChecksum16(buf: seq<byte>, off: nat, len: nat) returns (r: int)
    requires off + len <= |buf|
    ensures r == JsChecksum(buf[off..off + len])
  {
    var sum := 0;
    var i := 0;
    ghost var s := buf[off..off + len];
    assert s[0..] == s;
    while i < len
      invariant 0 <= i && (i < len ==> i % 2 == 0)
      invariant sum + WordSum(if i <= len then s[i..] else [], true) == WordSum(s, true)
      decreases len - i
    {
      assert i + 1 < len ==> s[i..][2..] == s[i + 2..];
      if i + 1 < len {
        sum := sum + U16(buf, off + i);
      } else {
        sum := sum + buf[off + i] as int * 256;
      }
      i := i + 2;
    }
    while Shr16(sum) != 0
      invariant JsFold(sum) == JsFold(WordSum(s, true))
      decreases Rounds(sum)
    {
      RoundsDrop(sum);
      sum := sum % 0x1_0000 + Shr16(sum);
    }
    r := 0xffff - sum % 0x1_0000;
  }

  // ---- C ----

  /** The value of `sum` after the fold loop on a 32-bit unsigned accumulator. */
  function CFold(sum: nat): (r: nat)
    requires sum < 0x1_0000_0000
    ensures r < 0x1_0000
  {
    if sum / 0x1_0000 == 0 then sum else CFold(sum % 0x1_0000 + sum / 0x1_0000)
  }

  function CChecksum(s: seq<byte>): (r: nat)
    ensures r <= 0xffff
  {
    0xffff - CFold(WordSum(s, false) % 0x1_0000_0000)
  }

  /** Wrapping at every addition is wrapping once. */
  lemma WrapsOnce(total: nat, word: nat)
    ensures (total % 0x1_0000_0000 + word) % 0x1_0000_0000 == (total + word) % 0x1_0000_0000
  {}

  method ChecksumC(data: seq<byte>) returns (r: nat)
    ensures r == CChecksum(data)
  {
    var sum, ptr, len := 0, 0, |data|;
    ghost var total: nat := 0;
    assert data[0..] == data;
    while len > 1
      invariant 0 <= len && 0 <= ptr && ptr + len == |data|
      invariant sum == total % 0x1_0000_0000 && total + WordSum(data[ptr..], false) == WordSum(data, false)
    {
      assert data[ptr..][2..] == data[ptr + 2..];
      var word := data[ptr] as int + data[ptr + 1] as int * 256;
      WrapsOnce(total, word);
      total := total + word;
      sum := (sum + word) % 0x1_0000_0000;
      ptr := ptr + 2;
      len := len - 2;
    }
    assert len == 1 ==> data[ptr..] == [data[ptr]];
    if len == 1 {
      WrapsOnce(total, data[ptr] as int);
      total := total + data[ptr] as int;
      sum := (sum + data[ptr] as int) % 0x1_0000_0000;
    }
    assert total == WordSum(data, false);
    while sum / 0x1_0000 != 0
      invariant 0 <= sum < 0x1_0000_0000
      invariant CFold(sum) == CFold(WordSum(data, false) % 0x1_0000_0000)
      decreases sum
    {
      sum := sum % 0x1_0000 + sum / 0x1_0000;
    }
    r := 0xffff - sum;
  }

  // ---- Both compute the reference, inside their bounds ----

  lemma {:induction false} WordSumBound(s: seq<byte>, big: bool)
    ensures 2 * WordSum(s, big) <= (|s| + |s| % 2) * 65535
    decreases |s|
  {
    if |s| > 1 {
      WordSumBound(s[2..], big);
    }
  }

  lemma {:induction false} JsFoldOnes(n: nat)
    requires n < 0x8000_0000
    ensures JsFold(n) == Ones(n)
    decreases Rounds(n)
  {
    assert ToInt32(n) == n;
    if Shr16(n) != 0 {
      var m := n % 0x1_0000 + Shr16(n);
      RoundsDrop(n);
      JsFoldOnes(m);
      OnesUnique(n, Ones(m), Shr16(n) + Cast(m));
    }
  }

  lemma {:induction false} CFoldOnes(n: nat)
    requires n < 0x1_0000_0000
    ensures CFold(n) == Ones(n)
    decreases n
  {
    if n / 0x1_0000 != 0 {
      var m := n % 0x1_0000 + n / 0x1_0000;
      CFoldOnes(m);
      OnesUnique(n, Ones(m), n / 0x1_0000 + Cast(m));
    }
  }

  /** The JavaScript sum of up to 65536 bytes stays inside a signed 32-bit word. */
  lemma {:induction false} JsMeetsReference(s: seq<byte>)
    requires |s| <= 65536
    ensures WordSum(s, true) < 0x8000_0000
    ensures JsChecksum(s) == Reference(s)
  {
    var n := WordSum(s, true);
    assert n < 0x8000_0000 by { WordSumBound(s, true); }
    JsFoldOnes(n);
    assert JsFold(n) % 0x1_0000 == Ones(n);
  }

  lemma {:induction false} CMeetsOnes(s: seq<byte>)
    requires |s| <= 65536
    ensures WordSum(s, false) < 0x8000_0000
    ensures CChecksum(s) == 65535 - Ones(WordSum(s, false))
  {
    var n := WordSum(s, false);
    assert n < 0x8000_0000 by { WordSumBound(s, false); }
    CFoldOnes(n);
    assert n % 0x1_0000_0000 == n;
  }

  /** Exchanging the octets of every word multiplies the sum by 256 modulo 65535. */
  lemma {:induction false} SumsAgree(s: seq<byte>) returns (k: int)
    ensures WordSum(s, true) == 256 * WordSum(s, false) + k * 65535
    ensures WordSum(s, true) == 0 <==> WordSum(s, false) == 0
    decreases |s|
  {
    k := 0;
    if s != [] {
      k := SumsAgree(if |s| == 1 then [] else s[2..]);
      k := k - if |s| == 1 then 0 else s[1] as int;
    }
  }

  function Swap(v: nat): (r: nat)
    requires v <= 65535
    ensures r <= 65535
  {
    v % 256 * 256 + v / 256
  }

  lemma SwapOnes(big: nat, little: nat, k: int)
    requires big == 256 * little + k * 65535 && (big == 0 <==> little == 0)
    ensures Ones(big) == Swap(Ones(little))
  {
    var v := Ones(little);
    assert 256 * v == Swap(v) + v / 256 * 65535;
    OnesUnique(big, Swap(v), v / 256 + 256 * Cast(little) + k);
  }

  /** Byte-order independence (section 2 (B) of RFC 1071): for every buffer, odd lengths
      included, the C checksum stored natively and the JavaScript checksum stored
      big-endian are the same two octets. */
  lemma ByteOrderIndependence(s: seq<byte>)
    requires |s| <= 65536
    ensures [(CChecksum(s) % 256) as byte, (CChecksum(s) / 256) as byte] == PutU16(JsChecksum(s))
  {
    JsMeetsReference(s);
    CMeetsOnes(s);
    var k := SumsAgree(s);
    SwapOnes(WordSum(s, true), WordSum(s, false), k);
    StoredSwapped(Ones(WordSum(s, false)));
  }

  lemma StoredSwapped(v: nat)
    requires v <= 65535
    ensures [((65535 - v) % 256) as byte, ((65535 - v) / 256) as byte] == PutU16(65535 - Swap(v))
  {
    var hi, lo := v / 256, v % 256;
    Octets2(hi, lo);
    Octets2(255 - hi, 255 - lo);
    Octets2(255 - lo, 255 - hi);
    assert v == hi * 256 + lo && Swap(v) == lo * 256 + hi;
    assert 65535 - v == (255 - hi) * 256 + (255 - lo) && 65535 - Swap(v) == (255 - lo) * 256 + (255 - hi);
  }

  lemma Octets2(hi: int, lo: int)
    requires 0 <= hi < 256 && 0 <= lo < 256
    ensures (hi * 256 + lo) / 256 == hi && (hi * 256 + lo) % 256 == lo
  {}

  // ---- The bound is exact ----

  function Repeat(b: byte, n: nat): (s: seq<byte>)
    ensures |s| == n
  {
    seq(n, _ => b)
  }

  lemma {:induction false} WordSumConcat(a: seq<byte>, b: seq<byte>, big: bool)
    requires |a| % 2 == 0
    ensures WordSum(a + b, big) == WordSum(a, big) + WordSum(b, big)
    decreases |a|
  {
    if a == [] {
      assert a + b == b;
    } else {
      assert (a + b)[2..] == a[2..] + b;
      WordSumConcat(a[2..], b, big);
    }
  }

  lemma {:induction false} WordSumRepeat(b: byte, k: nat)
    ensures WordSum(Repeat(b, 2 * k), true) == k * (b as int * 257)
    decreases k
  {
    if k > 0 {
      WordSumRepeat(b, k - 1);
      assert Repeat(b, 2 * k)[2..] == Repeat(b, 2 * (k - 1));
    }
  }

  lemma {:induction false} WordSumZeros(n: nat)
    ensures WordSum(Repeat(0, n), true) == 0
    decreases n
  {
    if n > 1 {
      WordSumZeros(n - 2);
      assert Repeat(0, n)[2..] == Repeat(0, n - 2);
    }
  }

  function TooLong(n: nat): (s: seq<byte>)
    requires n >= 65537
    ensures |s| == n
  {
    Repeat(255, 65536) + ([255] + Repeat(0, n - 65537))
  }

  lemma TooLongSum(k: nat, zeros: nat)
    ensures WordSum(Repeat(255, 2 * k) + ([255] + Repeat(0, zeros)), true) == k * 65535 + 65280
  {
    var tail := [255 as byte] + Repeat(0, zeros);
    WordSumConcat(Repeat(255, 2 * k), tail, true);
    WordSumRepeat(255, k);
    if zeros > 0 {
      assert tail[2..] == Repeat(0, zeros - 1);
      WordSumZeros(zeros - 1);
    }
  }

  /** 65537 octets 255 overflow the signed word: the fold then sees a negative shift. */
  lemma TooLongFails(n: nat)
    requires n >= 65537
    ensures JsChecksum(TooLong(n)) == 256 && Reference(TooLong(n)) == 255
  {
    TooLongSum(32768, n - 65537);
    var sum := WordSum(TooLong(n), true);
    assert Ones(sum) == 65280 by { OnesUnique(sum, 65280, 32768); }
    assert JsFold(sum) == 65279 by { FoldOverflow(sum); }
  }

  lemma {:induction false} FoldOverflow(n: nat)
    requires n == 0x8000_7F00
    ensures JsFold(n) == 65279
  {
    FoldStep(n, -0x8000, 0x7F00);
    FoldNegative(-256);
  }

  lemma FoldStep(x: int, hi: int, lo: nat)
    requires ToInt32(x) == hi * 0x1_0000 + lo && lo < 0x1_0000
    ensures JsFold(x) == if hi == 0 then x else JsFold(lo + hi)
  {
    assert x % 0x1_0000 == lo;
  }

  lemma {:induction false} FoldNegative(x: int)
    requires -0x1_0000 < x < 0
    ensures JsFold(x) == x + 0xffff
  {
    assert ToInt32(x) == x && Shr16(x) == -1;
  }

  /** The JavaScript checksum is the reference on every buffer of a length exactly when
      that length is at most 65536. */
  lemma JsExactBound(n: nat)
    ensures n <= 65536 <==> forall s: seq<byte> | |s| == n :: JsChecksum(s) == Reference(s)
  {
    if n <= 65536 {
      forall s: seq<byte> | |s| == n
        ensures JsChecksum(s) == Reference(s)
      {
        JsMeetsReference(s);
      }
    } else {
      TooLongFails(n);
    }
  }

  /** A checksum written over a zeroed word makes the buffer verify to zero. */
  lemma ChecksumVerifies(a: seq<byte>, b: seq<byte>)
    requires |a| % 2 == 0 && |a| + 2 + |b| <= 65536
    ensures JsChecksum(a + (PutU16(JsChecksum(a + ([0, 0] + b))) + b)) == 0
  {
    var zeroed := a + ([0, 0] + b);
    var c := JsChecksum(zeroed);
    var filled := a + (PutU16(c) + b);
    JsMeetsReference(zeroed);
    JsMeetsReference(filled);
    WordSumConcat(a, [0, 0] + b, true);
    WordSumConcat(a, PutU16(c) + b, true);
    assert ([0, 0] + b)[2..] == b && (PutU16(c) + b)[2..] == b;
    var n := WordSum(zeroed, true);
    assert WordSum(filled, true) == n + c;
    OnesUnique(n + c, 65535, Cast(n));
  }
}
