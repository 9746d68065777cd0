/** What the record loop's verdicts mean: an accepted hello really stands in handshake records,
    and every other outcome names the first thing that is wrong or missing. */
module HelloVerdicts {
  import opened Bytes
  import opened HelloLayout
  import opened HelloParsers
  import opened HelloPrinter
  import opened HelloRecords

  // ---- Accepted means there ----

  /** A record that settles the matter, or is followed by one that does. */
  lemma SettledHead(buf: seq<byte>, o: nat, acc: seq<byte>)
    requires o <= |buf| && Assemble(buf, o, acc).Settled?
    ensures o + 5 <= |buf| && buf[o] == 0x16
    ensures var n := U16(buf, o + 3);
      && n >= 1 && o + 5 + n <= |buf|
      && var all := acc + buf[o + 5..o + 5 + n];
      Assemble(buf, o, acc) == if Complete(all) then Settled(all, o + 5 + n) else Assemble(buf, o + 5 + n, all)
  {}

  /** Non-empty records of type handshake stand at `o`, whatever their versions, and none but
      the last makes `acc` and their payloads a complete message. */
  lemma {:induction false} SettledStands(buf: seq<byte>, o: nat, acc: seq<byte>) returns (fs: seq<Fragment>)
    requires o <= |buf| && Assemble(buf, o, acc).Settled?
    ensures HelloRecords.Stand(buf, o, fs) && LastCompletes(acc, fs) && ValidFragments(fs)
    decreases |buf| - o
  {
    SettledHead(buf, o, acc);
    var n := U16(buf, o + 3);
    var f := Fragment(U16(buf, o + 1), buf[o + 5..o + 5 + n]);
    if Complete(acc + f.payload) {
      fs := [f];
      StandCons(buf, o, acc, f, []);
    } else {
      var rest := SettledStands(buf, o + 5 + n, acc + f.payload);
      fs := [f] + rest;
      StandCons(buf, o, acc, f, rest);
    }
  }

  /** One more record in front. */
  lemma {:induction false} StandCons(buf: seq<byte>, o: nat, acc: seq<byte>, f: Fragment, rest: seq<Fragment>)
    requires var n := |f.payload|;
      && 1 <= n && o + 5 + n <= |buf| && buf[o] == 0x16 && U16(buf, o + 3) == n && buf[o + 5..o + 5 + n] == f.payload
      && HelloRecords.Stand(buf, o + 5 + n, rest)
    requires if rest == [] then Complete(acc + f.payload) else !Complete(acc + f.payload) && LastCompletes(acc + f.payload, rest)
    requires ValidFragment(f) && ValidFragments(rest)
    ensures HelloRecords.Stand(buf, o, [f] + rest) && LastCompletes(acc, [f] + rest) && ValidFragments([f] + rest)
  {
    assert ([f] + rest)[1..] == rest;
  }

  /** An accepted buffer begins with records whose payloads together begin with a ClientHello
      message, which no shorter run of records completes, and what is reported is what the
      parser of bodies says of that message. */
  lemma {:induction false} AcceptedIsThere(buf: seq<byte>) returns (fs: seq<Fragment>)
    requires HelloRecords.Parse(buf).Accept?
    ensures var msg, out := Payloads(fs), HelloRecords.Parse(buf);
      && |buf| <= 512 * 1024
      && ValidFragments(fs) && HelloRecords.Stand(buf, 0, fs) && End(0, fs) == out.bytesConsumed
      && LastCompletes([], fs)
      && |msg| >= 4 && msg[0] == 1 && |msg| >= 4 + U24(msg, 1)
      && out.hello == JsSpec(msg[4..4 + U24(msg, 1)]) && out.hello.JsOk?
  {
    fs := SettledStands(buf, 0, []);
    FragmentsFrom(buf, 0, [], fs);
    CollectedIs([], fs);
    assert [] + Payloads(fs) == Payloads(fs);
    LastComplete([], fs);
  }

  lemma {:induction false} LastComplete(acc: seq<byte>, fs: seq<Fragment>)
    requires LastCompletes(acc, fs)
    ensures Complete(Collected(acc, fs))
    decreases |fs|
  {
    if |fs| > 1 {
      LastComplete(acc + fs[0].payload, fs[1..]);
    } else {
      assert fs[1..] == [];
    }
  }

  // ---- The first thing wrong or missing ----

  /** No run of these records completes a message. */
  predicate Open(acc: seq<byte>, fs: seq<Fragment>)
    decreases |fs|
  {
    fs == [] || (fs[0].payload != [] && !Complete(acc + fs[0].payload) && Open(acc + fs[0].payload, fs[1..]))
  }

  lemma {:induction false} OpenGoesOn(buf: seq<byte>, o: nat, acc: seq<byte>, fs: seq<Fragment>)
    requires HelloRecords.Stand(buf, o, fs) && Open(acc, fs) && o <= |buf| <= MAX_CLIENT_BUF
    ensures End(o, fs) <= |buf| && Assemble(buf, o, acc) == Assemble(buf, End(o, fs), Collected(acc, fs))
    decreases |fs|
  {
    if fs != [] {
      OpenGoesOn(buf, o + 5 + |fs[0].payload|, acc + fs[0].payload, fs[1..]);
    }
  }

  /** The verdict at one header. */
  predicate HeaderSays(buf: seq<byte>, o: nat, acc: seq<byte>, out: Outcome)
    requires o <= |buf|
  {
    if |buf| < o + 5 then out == NeedMore(o + 5)
    else if buf[o] != 22 then out == Reject(if o == 0 then "not_tls_handshake" else "non_handshake_record")
    else
      var n := U16(buf, o + 3);
      if n == 0 || o + 5 + n > 512 * 1024 then out == Reject("record_oversize")
      else if |buf| < o + 5 + n then out == NeedMore(o + 5 + n)
      else
        var msg := acc + buf[o + 5..o + 5 + n];
        |msg| >= 4 && msg[0] != 1 ==> out == Reject("not_client_hello")
  }

  lemma {:induction false} HeaderDecides(buf: seq<byte>, o: nat, acc: seq<byte>)
    requires o <= |buf|
    ensures HeaderSays(buf, o, acc, Conclude(Assemble(buf, o, acc)))
  {}

  /** Behind records that complete nothing, the next header decides: with fewer than 5 bytes
      left more are asked for; another type or a length of 0 or past 512 KiB is refused; a
      record not all there is asked for; and a message of another type is refused. */
  lemma {:induction false} NextHeader(buf: seq<byte>, fs: seq<Fragment>)
    requires |buf| <= 512 * 1024 && HelloRecords.Stand(buf, 0, fs) && Open([], fs)
    ensures End(0, fs) <= |buf| && HeaderSays(buf, End(0, fs), Payloads(fs), HelloRecords.Parse(buf))
  {
    OpenGoesOn(buf, 0, [], fs);
    CollectedIs([], fs);
    assert [] + Payloads(fs) == Payloads(fs);
    HeaderDecides(buf, End(0, fs), Payloads(fs));
  }

  /** A buffer past the limit is refused whatever it holds. */
  lemma TooLong(buf: seq<byte>)
    ensures HelloRecords.Parse(buf) == Reject("buffer_max") <==> |buf| > 512 * 1024
  {
    if |buf| <= 512 * 1024 { NeverBufferMax(buf, 0, []); }
  }

  lemma {:induction false} NeverBufferMax(buf: seq<byte>, o: nat, acc: seq<byte>)
    requires o <= |buf|
    ensures Conclude(Assemble(buf, o, acc)) != Reject("buffer_max")
    decreases |buf| - o
  {
    if |buf| - o >= 5 && buf[o] == 22 {
      var end := o + 5 + U16(buf, o + 3);
      if end > o + 5 && end <= |buf| && end <= MAX_CLIENT_BUF && !Complete(acc + buf[o + 5..end]) {
        NeverBufferMax(buf, end, acc + buf[o + 5..end]);
      }
    }
    NoSuchReason(acc);
  }

  /** The parser of bodies has reasons of its own. */
  lemma NoSuchReason(ch: seq<byte>)
    ensures JsSpec(ch) != JsFail("buffer_max")
  {}
}
