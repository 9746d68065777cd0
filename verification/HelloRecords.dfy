/** Reassembly of the first ClientHello from TLS records (section 5.1 of RFC 8446), and the
    routing decision taken while its bytes are still arriving. */
module HelloRecords {
  import opened Bytes
  import opened HelloParsers

  const MAX_CLIENT_BUF: nat := 512 * 1024

  datatype Outcome =
    | NeedMore(minTotal: nat)
    | Reject(reason: string)
    | Accept(hello: JsHello, bytesConsumed: nat)
    | Throws

  function U24(b: seq<byte>, o: nat): (n: nat)
    requires o + 3 <= |b|
  {
    b[o] as int * 0x1_0000 + U16(b, o + 1)
  }

  function Judge(r: JsHello, consumed: nat): (out: Outcome) {
    match r
    case JsFail(reason) => Reject(reason)
    case JsThrows => Throws
    case JsOk(_, _, _) => Accept(r, consumed)
  }

  /** What the record loop comes to: the bytes collected at `end` settle the matter. */
  datatype Assembly = Short(minTotal: nat) | Refused(reason: string) | Settled(combined: seq<byte>, end: nat)

  /** The record loop, standing at offset `o` with `acc` the payload bytes collected. */
  function Assemble(buf: seq<byte>, o: nat, acc: seq<byte>): (r: Assembly)
    requires o <= |buf|
    decreases |buf| - o
  {
    if |buf| - o < 5 then Short(o + 5)
    else if buf[o] != 0x16 then Refused(if o == 0 then "not_tls_handshake" else "non_handshake_record")
    else
      var recLen := U16(buf, o + 3);
      var end := o + 5 + recLen;
      if recLen < 1 || end > MAX_CLIENT_BUF then Refused("record_oversize")
      else if end > |buf| then Short(end)
      else
        var combined := acc + buf[o + 5..end];
        if Complete(combined) then Settled(combined, end) else Assemble(buf, end, combined)
  }

  /** Whether the bytes collected settle the matter: a wrong type, or a whole message. */
  predicate Complete(combined: seq<byte>) {
    |combined| >= 4 && (combined[0] != 1 || |combined| >= 4 + U24(combined, 1))
  }

  function Conclude(a: Assembly): (r: Outcome) {
    match a
    case Short(n) => NeedMore(n)
    case Refused(reason) => Reject(reason)
    case Settled(c, end) =>
      if !Complete(c) || c[0] != 1 then Reject("not_client_hello")
      else Judge(JsSpec(c[4..4 + U24(c, 1)]), end)
  }

  function Parse(buf: seq<byte>): (r: Outcome) {
    if |buf| > MAX_CLIENT_BUF then Reject("buffer_max") else Conclude(Assemble(buf, 0, []))
  }

  /** The loop goes on with a whole record's payload, or is done. */
  lemma RecordTaken(buf: seq<byte>, o: nat, acc: seq<byte>)
    requires o + 5 <= |buf| && buf[o] == 0x16 && U16(buf, o + 3) >= 1
    requires var end := o + 5 + U16(buf, o + 3); end <= |buf| && end <= MAX_CLIENT_BUF
    ensures var end := o + 5 + U16(buf, o + 3);
      var combined := acc + buf[o + 5..end];
      Assemble(buf, o, acc) == if Complete(combined) then Settled(combined, end) else Assemble(buf, end, combined)
  {}

  method ParseFirstTlsClientHello(buf: seq<byte>) returns (r: Outcome)
    ensures r == Parse(buf)
  {
    if |buf| > MAX_CLIENT_BUF { return Reject("buffer_max"); }
    if |buf| < 5 { return NeedMore(5); }
    if buf[0] != 0x16 { return Reject("not_tls_handshake"); }
    var payloads: seq<seq<byte>> := [];
    var offset := 0;
    while true
      invariant 0 <= offset <= |buf|
      invariant Parse(buf) == Conclude(Assemble(buf, offset, Flatten(payloads)))
      decreases |buf| - offset
    {
      if |buf| - offset < 5 { return NeedMore(offset + 5); }
      if buf[offset] != 0x16 {
        return if offset == 0 then Reject("not_tls_handshake") else Reject("non_handshake_record");
      }
      var recLen := U16(buf, offset + 3);
      var recordEnd := offset + 5 + recLen;
      if recLen < 1 || recordEnd > MAX_CLIENT_BUF { return Reject("record_oversize"); }
      if recordEnd > |buf| { return NeedMore(recordEnd); }
      RecordTaken(buf, offset, Flatten(payloads));
      FlattenSnoc(payloads, buf[offset + 5..recordEnd]);
      payloads := payloads + [buf[offset + 5..recordEnd]];
      offset := recordEnd;
      var combined := Flatten(payloads);
      if |combined| < 4 { continue; }
      if combined[0] != 1 { return Reject("not_client_hello"); }
      var totalHs := 4 + U24(combined, 1);
      if |combined| < totalHs { continue; }
      var ext := ParseTlsClientHelloExtensions(combined[4..totalHs]);
      return Judge(ext, offset);
    }
  }

  // ---- Decisions are final, and NeedMore is tight ----

  lemma {:induction false} ExtendFrom(buf: seq<byte>, more: seq<byte>, o: nat, acc: seq<byte>)
    requires o <= |buf|
    ensures var r := Assemble(buf, o, acc);
      && (r.Short? ==> r.minTotal > |buf|)
      && (!r.Short? || |buf + more| < r.minTotal ==> Assemble(buf + more, o, acc) == r)
    decreases |buf| - o
  {
    var b := buf + more;
    if |buf| - o >= 5 {
      assert b[o] == buf[o] && U16(b, o + 3) == U16(buf, o + 3);
      var end := o + 5 + U16(buf, o + 3);
      if end <= |buf| {
        assert b[o + 5..end] == buf[o + 5..end];
        if end > o + 5 {
          ExtendFrom(buf, more, end, acc + buf[o + 5..end]);
        }
      }
    }
  }

  /** A decision is unchanged by bytes that arrive later, up to 512 KiB. */
  lemma DecisionFinal(buf: seq<byte>, more: seq<byte>)
    requires |buf + more| <= MAX_CLIENT_BUF && !Parse(buf).NeedMore?
    ensures Parse(buf + more) == Parse(buf)
  {
    ExtendFrom(buf, more, 0, []);
  }

  /** `minTotal` is more than there is, nothing shorter within the limit can decide, and
      nothing as long asks for the same again. */
  lemma NeedMoreTight(buf: seq<byte>, more: seq<byte>)
    requires |buf + more| <= MAX_CLIENT_BUF && Parse(buf).NeedMore?
    ensures Parse(buf).minTotal > |buf|
    ensures |buf + more| < Parse(buf).minTotal ==> Parse(buf + more) == Parse(buf)
    ensures |buf + more| >= Parse(buf).minTotal ==> Parse(buf + more) != Parse(buf)
  {
    ExtendFrom(buf, more, 0, []);
    ExtendFrom(buf + more, [], 0, []);
  }

  // ---- The connection's data handler ----

  /** The routing decision: a parser that asks for more or throws takes none, and the
      handler stays on. */
  function Decided(p: Outcome): (d: Option<Outcome>) {
    if p.NeedMore? || p.Throws? then None else Some(p)
  }

  /** `onData` of the multiplexed listener: chunks are kept until a decision is taken. */
  class HelloReader {
    var chunks: seq<seq<byte>>
    var decision: Option<Outcome>

    ghost function State(): (Option<Outcome>, seq<byte>)
      reads this
    {
      (decision, Flatten(chunks))
    }

    constructor ()
      ensures State() == (None, [])
    {
      chunks, decision := [], None;
    }

    /** `threw` is whether the parser's exception leaves the handler. */
    method OnData(c: seq<byte>) returns (threw: bool)
      requires decision.None?
      modifies this
      ensures State() == Fed(old(State()), c)
      ensures threw == Parse(State().1).Throws?
    {
      FlattenSnoc(chunks, c);
      chunks := chunks + [c];
      var p := ParseFirstTlsClientHello(Flatten(chunks));
      if p.Throws? { return true; }
      if !p.NeedMore? { decision := Some(p); }
      threw := false;
    }
  }

  /** One chunk; once decided the handler is off. */
  function Fed(s: (Option<Outcome>, seq<byte>), c: seq<byte>): (s': (Option<Outcome>, seq<byte>)) {
    if s.0.Some? then s else (Decided(Parse(s.1 + c)), s.1 + c)
  }

  function FedAll(s: (Option<Outcome>, seq<byte>), chunks: seq<seq<byte>>): (s': (Option<Outcome>, seq<byte>))
    decreases |chunks|
  {
    if chunks == [] then s else FedAll(Fed(s, chunks[0]), chunks[1..])
  }

  lemma {:induction false} FedAllDecides(s: (Option<Outcome>, seq<byte>), chunks: seq<seq<byte>>)
    requires |s.1 + Flatten(chunks)| <= MAX_CLIENT_BUF
    requires s.0 == Decided(Parse(s.1))
    ensures FedAll(s, chunks).0 == Decided(Parse(s.1 + Flatten(chunks)))
    decreases |chunks|
  {
    if s.0.Some? {
      DecisionFinal(s.1, Flatten(chunks));
      FedAllDecided(s, chunks);
    } else if chunks == [] {
      assert s.1 + Flatten(chunks) == s.1;
    } else {
      assert s.1 + Flatten(chunks) == (s.1 + chunks[0]) + Flatten(chunks[1..]);
      FedAllDecides(Fed(s, chunks[0]), chunks[1..]);
    }
  }

  lemma {:induction false} FedAllDecided(s: (Option<Outcome>, seq<byte>), chunks: seq<seq<byte>>)
    requires s.0.Some?
    ensures FedAll(s, chunks) == s
    decreases |chunks|
  {
    if chunks != [] {
      FedAllDecided(s, chunks[1..]);
    }
  }

  /** For every chunking of the bytes a client sends, up to 512 KiB, the connection is routed
      as if they had arrived at once. */
  lemma {:induction false} ChunkingIrrelevant(chunks: seq<seq<byte>>)
    requires |Flatten(chunks)| <= MAX_CLIENT_BUF
    ensures FedAll((None, []), chunks).0 == Decided(Parse(Flatten(chunks)))
  {
    assert [] + Flatten(chunks) == Flatten(chunks);
    FedAllDecides((None, []), chunks);
  }

  // ---- Fragmentation into records ----

  datatype Fragment = Fragment(version: int, payload: seq<byte>)

  predicate ValidFragment(f: Fragment) {
    0 <= f.version < 0x1_0000 && 1 <= |f.payload| < 0x1_0000
  }

  predicate ValidFragments(fs: seq<Fragment>) {
    forall i | 0 <= i < |fs| :: ValidFragment(fs[i])
  }

  function PrintRecord(f: Fragment): (b: seq<byte>) {
    [0x16] + (Field(f.version) + (Field(|f.payload|) + f.payload))
  }

  function PrintRecords(fs: seq<Fragment>): (b: seq<byte>)
    decreases |fs|
  {
    if fs == [] then [] else PrintRecord(fs[0]) + PrintRecords(fs[1..])
  }

  function Payloads(fs: seq<Fragment>): (b: seq<byte>)
    decreases |fs|
  {
    if fs == [] then [] else fs[0].payload + Payloads(fs[1..])
  }

  /** A ClientHello message: type 1 and a 24-bit length. */
  function Message(body: seq<byte>): (b: seq<byte>)
    requires |body| < 0x100_0000
    ensures |b| == 4 + |body| && b[0] == 1 && U24(b, 1) == |body| && b[4..] == body && Complete(b)
  {
    [1, (|body| / 0x1_0000) as byte] + PutU16(|body| % 0x1_0000) + body
  }

  lemma RecordHead(buf: seq<byte>, o: nat, f: Fragment, rest: seq<byte>)
    requires ValidFragment(f) && At(buf, o, PrintRecord(f) + rest)
    ensures |PrintRecord(f)| == 5 + |f.payload|
    ensures o + 5 + |f.payload| <= |buf| && buf[o] == 0x16 && U16(buf, o + 3) == |f.payload|
    ensures buf[o + 5..o + 5 + |f.payload|] == f.payload && At(buf, o + 5 + |f.payload|, rest)
  {
    var v, l := Field(f.version), Field(|f.payload|);
    AtSplit(buf, o, PrintRecord(f), rest);
    AtSplit(buf, o, [0x16], v + (l + f.payload));
    AtSplit(buf, o + 1, v, l + f.payload);
    AtSplit(buf, o + 3, l, f.payload);
    AtElement(buf, o, [0x16], 0);
    AtElement(buf, o + 3, l, 0);
    AtElement(buf, o + 3, l, 1);
  }

  /** The records of `fs` stand at `o`, whatever the versions in their headers. */
  predicate Stand(buf: seq<byte>, o: nat, fs: seq<Fragment>)
    decreases |fs|
  {
    fs == [] ||
    var n := |fs[0].payload|;
    && 1 <= n && o + 5 + n <= |buf| && buf[o] == 0x16 && U16(buf, o + 3) == n
    && buf[o + 5..o + 5 + n] == fs[0].payload && Stand(buf, o + 5 + n, fs[1..])
  }

  /** Where the records at `o` end, and the bytes collected then. */
  function End(o: nat, fs: seq<Fragment>): (end: nat)
    decreases |fs|
  {
    if fs == [] then o else End(o + 5 + |fs[0].payload|, fs[1..])
  }

  function Collected(acc: seq<byte>, fs: seq<Fragment>): (b: seq<byte>)
    decreases |fs|
  {
    if fs == [] then acc else Collected(acc + fs[0].payload, fs[1..])
  }

  /** Only the last record completes what is collected. */
  predicate LastCompletes(acc: seq<byte>, fs: seq<Fragment>)
    decreases |fs|
  {
    fs != [] && (Complete(acc + fs[0].payload) <==> |fs| == 1)
    && (|fs| > 1 ==> LastCompletes(acc + fs[0].payload, fs[1..]))
  }

  lemma {:induction false} FragmentsFrom(buf: seq<byte>, o: nat, acc: seq<byte>, fs: seq<Fragment>)
    requires Stand(buf, o, fs) && LastCompletes(acc, fs) && |buf| <= MAX_CLIENT_BUF
    ensures Assemble(buf, o, acc) == Settled(Collected(acc, fs), End(o, fs))
    decreases |fs|
  {
    if |fs| > 1 {
      FragmentsFrom(buf, o + 5 + |fs[0].payload|, acc + fs[0].payload, fs[1..]);
    } else {
      assert fs[1..] == [];
    }
  }

  lemma {:induction false} RecordsStand(buf: seq<byte>, o: nat, fs: seq<Fragment>)
    requires ValidFragments(fs) && At(buf, o, PrintRecords(fs))
    ensures Stand(buf, o, fs) && End(o, fs) == o + |PrintRecords(fs)|
    decreases |fs|
  {
    if fs != [] {
      assert ValidFragment(fs[0]);
      RecordHead(buf, o, fs[0], PrintRecords(fs[1..]));
      RecordsStand(buf, o + 5 + |fs[0].payload|, fs[1..]);
    }
  }

  lemma {:induction false} CollectedIs(acc: seq<byte>, fs: seq<Fragment>)
    ensures Collected(acc, fs) == acc + Payloads(fs)
    decreases |fs|
  {
    if fs != [] {
      CollectedIs(acc + fs[0].payload, fs[1..]);
      assert acc + (fs[0].payload + Payloads(fs[1..])) == acc + fs[0].payload + Payloads(fs[1..]);
    } else {
      assert acc + [] == acc;
    }
  }

  lemma {:induction false} MessageCompletes(acc: seq<byte>, fs: seq<Fragment>, body: seq<byte>)
    requires ValidFragments(fs) && fs != [] && |body| < 0x100_0000
    requires Collected(acc, fs) == Message(body)
    ensures LastCompletes(acc, fs)
    decreases |fs|
  {
    var next := acc + fs[0].payload;
    if |fs| == 1 {
      assert fs[1..] == [];
    } else {
      CollectedIs(next, fs[1..]);
      PayloadsNonEmpty(fs[1..]);
      assert next == Message(body)[..|next|];
      PartialIncomplete(body, |next|);
      MessageCompletes(next, fs[1..], body);
    }
  }

  lemma {:induction false} PayloadsNonEmpty(fs: seq<Fragment>)
    requires fs != [] && ValidFragment(fs[0])
    ensures Payloads(fs) != []
  {}

  /** A proper prefix of a message settles nothing. */
  lemma PartialIncomplete(body: seq<byte>, k: nat)
    requires |body| < 0x100_0000 && k < |Message(body)|
    ensures !Complete(Message(body)[..k])
  {
    var msg := Message(body);
    if k >= 4 {
      assert forall i | 0 <= i < 4 :: msg[..k][i] == msg[i];
      assert U24(msg[..k], 1) == U24(msg, 1);
    }
  }

  /** Splitting one ClientHello message into any non-empty records, with any record versions
      and any bytes after them, leads to the same parse of its body. */
  lemma {:induction false} FragmentationInvisible(fs: seq<Fragment>, body: seq<byte>, trailing: seq<byte>)
    requires ValidFragments(fs)
    requires |body| < 0x100_0000 && Payloads(fs) == Message(body)
    requires |PrintRecords(fs) + trailing| <= MAX_CLIENT_BUF
    ensures Parse(PrintRecords(fs) + trailing) == Judge(JsSpec(body), |PrintRecords(fs)|)
  {
    var buf := PrintRecords(fs) + trailing;
    assert At(buf, 0, PrintRecords(fs)) by {
      AtAll(buf);
      AtSplit(buf, 0, PrintRecords(fs), trailing);
    }
    RecordsStand(buf, 0, fs);
    CollectedIs([], fs);
    assert [] + Payloads(fs) == Message(body) && fs != [];
    MessageCompletes([], fs, body);
    FragmentsFrom(buf, 0, [], fs);
    ConcludeMessage(body, |PrintRecords(fs)|);
  }

  lemma ConcludeMessage(body: seq<byte>, end: nat)
    requires |body| < 0x100_0000
    ensures Conclude(Settled(Message(body), end)) == Judge(JsSpec(body), end)
  {
    assert Message(body)[4..4 + |body|] == body;
  }
}
