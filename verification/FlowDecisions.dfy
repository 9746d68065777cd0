/** Decisions about flows: a stronger or equally strong source replaces a decision, a weaker
    one does not. "" stands for an absent host. */
module FlowDecisions {
  import opened Bytes

  datatype Decision = Decision(category: string, source: string, confidence: int, host: string, dst: string)

  datatype Record = Record(flow: string, dst: string, category: string, source: string, host: string)

  datatype Emitted = FirstDecision(flow: string, decision: Decision) | CategoryChange(flow: string, decision: Decision)

  function Confidence(source: string): (c: int)
    ensures 0 <= c <= 100
  {
    if source == "rule" then 100 else if source == "early-strong" then 80 else if source == "cache" then 60
    else if source == "stat" then 50 else if source == "early-weak" then 30 else 0
  }

  /** The table of decisions and the events written out. */
  datatype State = State(decisions: map<string, Decision>, log: seq<Emitted>)

  const INIT := State(map[], [])

  function Get(m: map<string, Decision>, flow: string): (d: Option<Decision>) {
    if flow in m then Some(m[flow]) else None
  }

  predicate Kept(prev: Decision, r: Record) {
    || Confidence(r.source) < prev.confidence
    || (prev.category == r.category && prev.source == r.source && (r.host == "" || prev.host == r.host))
  }

  function Replacement(prev: Option<Decision>, r: Record): (d: Decision) {
    Decision(r.category, r.source, Confidence(r.source),
             if r.host != "" then r.host else if prev.Some? then prev.value.host else "", r.dst)
  }

  function Step(s: State, r: Record): (t: State) {
    var prev := Get(s.decisions, r.flow);
    if prev.Some? && Kept(prev.value, r) then s
    else
      var next := Replacement(prev, r);
      State(s.decisions[r.flow := next],
            s.log + if prev.None? then [FirstDecision(r.flow, next)]
                    else if prev.value.category != r.category then [CategoryChange(r.flow, next)] else [])
  }

  function Run(s: State, rs: seq<Record>): (t: State)
    decreases |rs|
  {
    if rs == [] then s else Run(Step(s, rs[0]), rs[1..])
  }

  class Classifier {
    var flowDecisions: map<string, Decision>
    var emitted: seq<Emitted>

    ghost function Now(): (s: State)
      reads this
    {
      State(flowDecisions, emitted)
    }

    constructor ()
      ensures Now() == INIT
    {
      flowDecisions, emitted := map[], [];
    }

    method RecordDecision(r: Record) returns (d: Decision)
      modifies this
      ensures Now() == Step(old(Now()), r)
      ensures Get(flowDecisions, r.flow) == Some(d)
    {
      var conf := Confidence(r.source);
      var host := r.host;
      if r.flow in flowDecisions {
        var prev := flowDecisions[r.flow];
        if conf < prev.confidence { return prev; }
        if prev.category == r.category && prev.source == r.source && (r.host == "" || prev.host == r.host) {
          return prev;
        }
        if host == "" { host := prev.host; }
      }
      d := Decision(r.category, r.source, conf, host, r.dst);
      if r.flow !in flowDecisions {
        emitted := emitted + [FirstDecision(r.flow, d)];
      } else if flowDecisions[r.flow].category != r.category {
        emitted := emitted + [CategoryChange(r.flow, d)];
      }
      flowDecisions := flowDecisions[r.flow := d];
    }
  }

  // ---- What a run decides ----

  /** The last of the strongest records about a flow. */
  function Winner(rs: seq<Record>, flow: string): (w: Option<Record>)
    decreases |rs|
  {
    if rs == [] then None
    else
      var r, w := rs[|rs| - 1], Winner(rs[..|rs| - 1], flow);
      if r.flow == flow && (w.None? || Confidence(r.source) >= Confidence(w.value.source)) then Some(r) else w
  }

  lemma {:induction false} WinnerIs(rs: seq<Record>, flow: string, i: nat)
    requires i < |rs| && rs[i].flow == flow
    ensures var w := Winner(rs, flow);
      && w.Some? && w.value in rs && w.value.flow == flow
      && Confidence(rs[i].source) <= Confidence(w.value.source)
    decreases |rs|
  {
    var init := rs[..|rs| - 1];
    assert forall r | r in init :: r in rs;
    if i < |rs| - 1 {
      WinnerIs(init, flow, i);
    } else {
      WinnerFlow(init, flow);
    }
  }

  lemma {:induction false} WinnerFlow(rs: seq<Record>, flow: string)
    ensures Winner(rs, flow).Some? ==> Winner(rs, flow).value in rs && Winner(rs, flow).value.flow == flow
    decreases |rs|
  {
    if rs != [] {
      WinnerFlow(rs[..|rs| - 1], flow);
    }
  }

  /** Record `i` is about the flow and no weaker than the earlier ones about it. */
  predicate Counting(rs: seq<Record>, i: int, flow: string) {
    0 <= i < |rs| && rs[i].flow == flow &&
    forall j | 0 <= j < i :: rs[j].flow == flow ==> Confidence(rs[j].source) <= Confidence(rs[i].source)
  }

  /** The last host a counting record names. */
  function LastHost(rs: seq<Record>, flow: string): (host: string)
    decreases |rs|
  {
    if rs == [] then ""
    else
      var n := |rs| - 1;
      if Counting(rs, n, flow) && rs[n].host != "" then rs[n].host else LastHost(rs[..n], flow)
  }

  /** The last record counts exactly if it wins. */
  lemma {:induction false} LastCounts(rs: seq<Record>, flow: string)
    requires rs != []
    ensures var (w, r) := (Winner(rs[..|rs| - 1], flow), rs[|rs| - 1]);
      Counting(rs, |rs| - 1, flow) <==> r.flow == flow && (w.None? || Confidence(r.source) >= Confidence(w.value.source))
  {
    var n := |rs| - 1;
    var init := rs[..n];
    WinnerFlow(init, flow);
    forall j | 0 <= j < n && rs[j].flow == flow
      ensures Winner(init, flow).Some? && Confidence(rs[j].source) <= Confidence(Winner(init, flow).value.source)
    {
      assert init[j] == rs[j];
      WinnerIs(init, flow, j);
    }
    if w: Record :| Winner(init, flow) == Some(w) {
      var j :| 0 <= j < n && init[j] == w;
      assert rs[j] == w;
    }
  }

  /** A decision says what a record says, with a host of its own. */
  predicate Says(d: Option<Decision>, w: Option<Record>, host: string) {
    match w
    case None => d == None && host == ""
    case Some(r) =>
      && d.Some? && d.value.category == r.category && d.value.source == r.source
      && d.value.confidence == Confidence(r.source) && d.value.host == host
  }

  lemma {:induction false} RunSnoc(s: State, rs: seq<Record>, r: Record)
    ensures Run(s, rs + [r]) == Step(Run(s, rs), r)
    decreases |rs|
  {
    if rs == [] {
      assert ([] + [r])[1..] == [];
    } else {
      RunSnoc(Step(s, rs[0]), rs[1..], r);
      assert (rs + [r])[1..] == rs[1..] + [r];
    }
  }

  lemma SaysStep(s: State, r: Record, flow: string, w: Option<Record>, host: string)
    requires Says(Get(s.decisions, flow), w, host)
    ensures var wins := r.flow == flow && (w.None? || Confidence(r.source) >= Confidence(w.value.source));
      Says(Get(Step(s, r).decisions, flow), if wins then Some(r) else w, if wins && r.host != "" then r.host else host)
  {}

  lemma {:induction false} Decides(rs: seq<Record>, flow: string)
    ensures Says(Get(Run(INIT, rs).decisions, flow), Winner(rs, flow), LastHost(rs, flow))
    decreases |rs|
  {
    if rs != [] {
      var init, r := rs[..|rs| - 1], rs[|rs| - 1];
      Decides(init, flow);
      RunSnoc(INIT, init, r);
      assert rs == init + [r];
      LastCounts(rs, flow);
      SaysStep(Run(INIT, init), r, flow, Winner(init, flow), LastHost(init, flow));
    }
  }

  /** After any run, each flow's category, source and confidence are those of the last of its
      strongest records, no record about it is stronger, and its host is the last one named by
      a record that was no weaker than those before it. */
  lemma {:induction false} StrongestWins(rs: seq<Record>, flow: string)
    ensures var d := Get(Run(INIT, rs).decisions, flow);
      && Says(d, Winner(rs, flow), LastHost(rs, flow))
      && (d.Some? <==> exists i | 0 <= i < |rs| :: rs[i].flow == flow)
      && (forall i | 0 <= i < |rs| :: rs[i].flow == flow ==> Confidence(rs[i].source) <= d.value.confidence)
  {
    Decides(rs, flow);
    WinnerFlow(rs, flow);
    forall i | 0 <= i < |rs| && rs[i].flow == flow
      ensures Winner(rs, flow).Some? && Confidence(rs[i].source) <= Confidence(Winner(rs, flow).value.source)
    {
      WinnerIs(rs, flow, i);
    }
  }

  /** Sources in order of confidence; an unknown one has none. */
  lemma ConfidenceOrder(source: string)
    ensures Confidence("rule") > Confidence("early-strong") > Confidence("cache") > Confidence("stat")
            > Confidence("early-weak") > 0
    ensures Confidence(source) > 0 <==> source in {"rule", "early-strong", "cache", "stat", "early-weak"}
  {}

  predicate FromRecord(rs: seq<Record>, flow: string, d: Decision, i: int) {
    0 <= i < |rs| && rs[i].flow == flow && rs[i].dst == d.dst && rs[i].category == d.category && rs[i].source == d.source
  }

  /** The destination comes from a record that decided so. */
  lemma {:induction false} DestinationIsTold(rs: seq<Record>, flow: string)
    ensures var d := Get(Run(INIT, rs).decisions, flow); d.Some? ==> exists i :: FromRecord(rs, flow, d.value, i)
    decreases |rs|
  {
    if rs != [] {
      var init, r := rs[..|rs| - 1], rs[|rs| - 1];
      DestinationIsTold(init, flow);
      RunSnoc(INIT, init, r);
      assert rs == init + [r];
      var d, e := Get(Run(INIT, init).decisions, flow), Get(Run(INIT, rs).decisions, flow);
      if e == d && d.Some? {
        var i :| FromRecord(init, flow, d.value, i);
        assert FromRecord(rs, flow, d.value, i);
      } else if e.Some? {
        assert FromRecord(rs, flow, e.value, |rs| - 1);
      }
    }
  }

  /** A flow once decided stays decided, and its confidence never goes down. */
  lemma {:induction false} NeverWeaker(before: seq<Record>, after: seq<Record>, flow: string)
    ensures var (d, e) := (Get(Run(INIT, before).decisions, flow), Get(Run(INIT, before + after).decisions, flow));
      d.Some? ==> e.Some? && d.value.confidence <= e.value.confidence
  {
    StrongestWins(before, flow);
    StrongestWins(before + after, flow);
    WinnerFlow(before, flow);
    if Winner(before, flow).Some? {
      var i :| 0 <= i < |before| && before[i] == Winner(before, flow).value;
      assert (before + after)[i] == before[i];
    }
  }

  // ---- What the events tell ----

  /** The categories a reader of the events knows, and whether the events are well formed: a
      first decision for a new flow only, a change to another category for a known one. */
  function Told(log: seq<Emitted>): (r: (bool, map<string, string>))
    decreases |log|
  {
    if log == [] then (true, map[])
    else
      var (ok, m), e := Told(log[..|log| - 1]), log[|log| - 1];
      match e
      case FirstDecision(f, d) => (ok && f !in m, m[f := d.category])
      case CategoryChange(f, d) => (ok && f in m && m[f] != d.category, m[f := d.category])
  }

  /** A record emits at most one event, which carries the decision now in force for its flow:
      a first decision for an undecided flow, a change if the category changes, else none. */
  lemma EmitsExactly(s: State, r: Record)
    ensures var (t, prev) := (Step(s, r), Get(s.decisions, r.flow));
      && r.flow in t.decisions
      && var d := t.decisions[r.flow];
      t.log == s.log + if prev.None? then [FirstDecision(r.flow, d)]
                       else if prev.value.category != d.category then [CategoryChange(r.flow, d)] else []
  {
    assert s.log + [] == s.log;
  }

  /** The events tell every flow's category. */
  predicate Tells(s: State) {
    && Told(s.log).0 && Told(s.log).1.Keys == s.decisions.Keys
    && forall f | f in s.decisions :: Told(s.log).1[f] == s.decisions[f].category
  }

  lemma {:induction false} ToldSnoc(log: seq<Emitted>, e: Emitted)
    ensures Told(log + [e]) == (match e
      case FirstDecision(f, d) => (Told(log).0 && f !in Told(log).1, Told(log).1[f := d.category])
      case CategoryChange(f, d) => (Told(log).0 && f in Told(log).1 && Told(log).1[f] != d.category, Told(log).1[f := d.category]))
  {
    assert (log + [e])[..|log|] == log;
  }

  lemma StepTells(s: State, r: Record)
    requires Tells(s)
    ensures Tells(Step(s, r))
  {
    var next := Replacement(Get(s.decisions, r.flow), r);
    ToldSnoc(s.log, FirstDecision(r.flow, next));
    ToldSnoc(s.log, CategoryChange(r.flow, next));
    assert s.log + [] == s.log;
  }

  lemma {:induction false} RunTells(s: State, rs: seq<Record>)
    requires Tells(s)
    ensures Tells(Run(s, rs))
    decreases |rs|
  {
    if rs != [] {
      StepTells(s, rs[0]);
      RunTells(Step(s, rs[0]), rs[1..]);
    }
  }

  /** The event stream of any run is well formed and always replays to the current categories. */
  lemma {:induction false} EventsReplay(rs: seq<Record>)
    ensures Tells(Run(INIT, rs))
  {
    RunTells(INIT, rs);
  }
}
