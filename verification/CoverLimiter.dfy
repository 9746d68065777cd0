/** The rate limiter of the TLS cover page: one window per address, opened by the first cover
    reply and replaced by the first one after it has run out, and a periodic sweep. */
module CoverLimiter {
  import opened Bytes
  import opened Lists

  datatype Entry = Entry(count: int, windowStart: int)

  datatype Event = Hit(ip: string, now: int) | Sweep(now: int)

  /** Window length in milliseconds and limit, both positive. */
  datatype Config = Config(window: int, limit: int)

  predicate Positive(c: Config) {
    c.window >= 1 && c.limit >= 1
  }

  type Table = map<string, Entry>

  function Get(m: Table, ip: string): (e: Option<Entry>) {
    if ip in m then Some(m[ip]) else None
  }

  /** The entry after one more cover reply. */
  function Next(c: Config, e: Option<Entry>, now: int): (n: Entry) {
    if e.None? || now - e.value.windowStart >= c.window then Entry(1, now)
    else e.value.(count := e.value.count + 1)
  }

  predicate Expired(c: Config, e: Entry, now: int) {
    e.windowStart < now - 2 * c.window
  }

  function Step(c: Config, m: Table, e: Event): (r: Table) {
    match e
    case Hit(ip, now) => m[ip := Next(c, Get(m, ip), now)]
    case Sweep(now) => map ip | ip in m && !Expired(c, m[ip], now) :: m[ip]
  }

  /** Whether a hit is throttled. */
  predicate Throttles(c: Config, m: Table, ip: string, now: int) {
    Next(c, Get(m, ip), now).count > c.limit
  }

  class Limiter {
    const config: Config
    var rateState: Table

    constructor (config: Config)
      ensures rateState == map[] && this.config == config
    {
      this.config, rateState := config, map[];
    }

    method ShouldThrottle(ip: string, now: int) returns (r: bool)
      modifies this
      ensures rateState == Step(config, old(rateState), Hit(ip, now))
      ensures r == Throttles(config, old(rateState), ip, now)
    {
      var entry;
      if ip !in rateState || now - rateState[ip].windowStart >= config.window {
        entry := Entry(1, now);
      } else {
        entry := rateState[ip].(count := rateState[ip].count + 1);
      }
      rateState := rateState[ip := entry];
      return entry.count > config.limit;
    }

    method Cleanup(now: int)
      modifies this
      ensures rateState == Step(config, old(rateState), Sweep(now))
    {
      var cutoff := now - 2 * config.window;
      var rest := rateState.Keys;
      while rest != {}
        invariant rest <= rateState.Keys
        invariant forall ip :: ip in rateState <==>
                    ip in old(rateState) && (ip in rest || !Expired(config, old(rateState)[ip], now))
        invariant forall ip | ip in rateState :: rateState[ip] == old(rateState)[ip]
        decreases |rest|
      {
        var ip :| ip in rest;
        rest := rest - {ip};
        if rateState[ip].windowStart < cutoff { rateState := rateState - {ip}; }
      }
    }
  }

  // ---- Runs ----

  predicate Monotone(es: seq<Event>, last: int)
    decreases |es|
  {
    es == [] || (last <= es[0].now && Monotone(es[1..], es[0].now))
  }

  /** Hits of one address in [a, b) that got the cover page. */
  function Served(c: Config, m: Table, es: seq<Event>, ip: string, a: int, b: int): (n: int)
    decreases |es|
  {
    if es == [] then 0
    else
      var e := es[0];
      (if e.Hit? && e.ip == ip && a <= e.now < b && !Throttles(c, m, ip, e.now) then 1 else 0)
      + Served(c, Step(c, m, e), es[1..], ip, a, b)
  }

  /** What `used` replies in the interval that starts at `a` mean for the current entry. */
  predicate Within(c: Config, e: Option<Entry>, last: int, a: int, used: int) {
    && 0 <= used <= 2 * c.limit - 1 && (last < a ==> used == 0)
    && match e
       case None => used <= c.limit - 1 || last >= a + c.window
       case Some(x) =>
         && x.count >= 1 && x.windowStart <= last
         && (x.windowStart < a ==> used <= Min(x.count, c.limit) - 1)
         && (a <= x.windowStart < a + c.window ==> used <= c.limit - 1 + Min(x.count, c.limit))
  }

  lemma StepWithin(c: Config, m: Table, e: Event, ip: string, last: int, a: int, used: int)
    requires Positive(c) && Within(c, Get(m, ip), last, a, used) && last <= e.now
    ensures var more := if e.Hit? && e.ip == ip && a <= e.now < a + c.window && !Throttles(c, m, ip, e.now) then 1 else 0;
      Within(c, Get(Step(c, m, e), ip), e.now, a, used + more)
  {}

  lemma {:induction false} ServedWithin(c: Config, m: Table, es: seq<Event>, ip: string, last: int, a: int, used: int)
    requires Positive(c) && Within(c, Get(m, ip), last, a, used) && Monotone(es, last)
    ensures used + Served(c, m, es, ip, a, a + c.window) <= 2 * c.limit - 1
    decreases |es|
  {
    if es != [] {
      var e := es[0];
      var more := if e.Hit? && e.ip == ip && a <= e.now < a + c.window && !Throttles(c, m, ip, e.now) then 1 else 0;
      StepWithin(c, m, e, ip, last, a, used);
      ServedWithin(c, Step(c, m, e), es[1..], ip, e.now, a, used + more);
    }
  }

  /** Over any run whose clock does not go back, no interval of one window's length serves an
      address the cover page more than 2 * limit - 1 times. */
  lemma BurstBound(c: Config, es: seq<Event>, ip: string, last: int, a: int)
    requires Positive(c) && Monotone(es, last)
    ensures Served(c, map[], es, ip, a, a + c.window) <= 2 * c.limit - 1
  {
    ServedWithin(c, map[], es, ip, last, a, 0);
  }

  /** `n` hits at one moment. */
  function Hits(ip: string, now: int, n: nat): (es: seq<Event>) {
    if n == 0 then [] else [Hit(ip, now)] + Hits(ip, now, n - 1)
  }

  /** The run that reaches the bound: one hit opens the window, the others of its allowance
      come at its last moment, and the next window opens at once. */
  function Burst(c: Config, ip: string): (es: seq<Event>)
    requires Positive(c)
  {
    [Hit(ip, 0)] + (Hits(ip, c.window - 1, c.limit - 1) + Hits(ip, c.window, c.limit))
  }

  lemma {:induction false} HitsServed(c: Config, m: Table, ip: string, now: int, n: nat, rest: seq<Event>, a: int, b: int, e: Entry)
    requires Get(m, ip) == Some(e) && 0 <= now - e.windowStart < c.window && e.count + n <= c.limit && a <= now < b
    ensures Served(c, m, Hits(ip, now, n) + rest, ip, a, b)
         == n + Served(c, m[ip := e.(count := e.count + n)], rest, ip, a, b)
    decreases n
  {
    if n == 0 {
      assert Hits(ip, now, n) + rest == rest;
      assert m[ip := e] == m;
    } else {
      var m' := m[ip := e.(count := e.count + 1)];
      assert (Hits(ip, now, n) + rest)[1..] == Hits(ip, now, n - 1) + rest;
      HitsServed(c, m', ip, now, n - 1, rest, a, b, e.(count := e.count + 1));
      assert m'[ip := e.(count := e.count + n)] == m[ip := e.(count := e.count + n)];
    }
  }

  lemma {:induction false} HitsMonotone(ip: string, now: int, n: nat, rest: seq<Event>, last: int)
    requires last <= now && Monotone(rest, now)
    ensures Monotone(Hits(ip, now, n) + rest, last)
    decreases n
  {
    if n == 0 {
      assert Hits(ip, now, n) + rest == rest;
    } else {
      assert (Hits(ip, now, n) + rest)[1..] == Hits(ip, now, n - 1) + rest;
      HitsMonotone(ip, now, n - 1, rest, now);
    }
  }

  lemma {:induction false} NextWindow(c: Config, m: Table, ip: string)
    requires Positive(c) && c.window >= 2 && Get(m, ip) == Some(Entry(c.limit, 0))
    ensures Served(c, m, Hits(ip, c.window, c.limit), ip, 1, 1 + c.window) == c.limit
  {
    var w, rest := c.window, Hits(ip, c.window, c.limit - 1);
    var m' := m[ip := Entry(1, w)];
    assert Hits(ip, w, c.limit)[1..] == rest && Hits(ip, w, c.limit)[0] == Hit(ip, w);
    HitsServed(c, m', ip, w, c.limit - 1, [], 1, 1 + w, Entry(1, w));
    assert rest + [] == rest;
  }

  /** With a window of at least two milliseconds the bound is reached. */
  lemma {:induction false} BurstTight(c: Config, ip: string)
    requires Positive(c) && c.window >= 2
    ensures Monotone(Burst(c, ip), 0)
    ensures Served(c, map[], Burst(c, ip), ip, 1, 1 + c.window) == 2 * c.limit - 1
  {
    var w, more := c.window, Hits(ip, c.window, c.limit);
    var tail := Hits(ip, w - 1, c.limit - 1) + more;
    assert Burst(c, ip)[1..] == tail && Burst(c, ip)[0] == Hit(ip, 0);
    assert more + [] == more;
    HitsMonotone(ip, w, c.limit, [], w - 1);
    HitsMonotone(ip, w - 1, c.limit - 1, more, 0);
    var m: Table := map[ip := Entry(1, 0)];
    assert Step(c, map[], Hit(ip, 0)) == m;
    HitsServed(c, m, ip, w - 1, c.limit - 1, more, 1, 1 + w, Entry(1, 0));
    NextWindow(c, m[ip := Entry(c.limit, 0)], ip);
  }

  // ---- The sweep ----

  function Run(c: Config, m: Table, es: seq<Event>): (r: Table)
    decreases |es|
  {
    if es == [] then m else Step(c, Run(c, m, es[..|es| - 1]), es[|es| - 1])
  }

  /** Every entry is of a real hit: one at its start opened the window. */
  predicate Opened(es: seq<Event>, ip: string, start: int) {
    exists i | 0 <= i < |es| :: es[i] == Hit(ip, start)
  }

  lemma {:induction false} EntriesAreHits(c: Config, es: seq<Event>, ip: string)
    ensures var m := Run(c, map[], es); ip in m ==> Opened(es, ip, m[ip].windowStart)
    decreases |es|
  {
    if es != [] {
      var init, e := es[..|es| - 1], es[|es| - 1];
      EntriesAreHits(c, init, ip);
      var m := Run(c, map[], init);
      if ip in m {
        var i :| 0 <= i < |init| && init[i] == Hit(ip, m[ip].windowStart);
        assert es[i] == Hit(ip, m[ip].windowStart);
      }
    }
  }

  /** A sweep leaves exactly the entries whose window opened at most two windows ago. */
  lemma SweepExactly(c: Config, m: Table, now: int, ip: string)
    ensures var r := Step(c, m, Sweep(now));
      (ip in r <==> ip in m && now - m[ip].windowStart <= 2 * c.window) && (ip in r ==> r[ip] == m[ip])
  {}

  /** So after any run that ends with a sweep only addresses with a hit in the last two windows
      are left. */
  lemma {:induction false} SweptAreRecent(c: Config, es: seq<Event>, now: int, ip: string)
    ensures ip in Run(c, map[], es + [Sweep(now)]) ==>
      exists i | 0 <= i < |es| :: es[i].Hit? && es[i].ip == ip && now - es[i].now <= 2 * c.window
  {
    var all := es + [Sweep(now)];
    assert all[..|es|] == es;
    EntriesAreHits(c, es, ip);
    SweepExactly(c, Run(c, map[], es), now, ip);
  }

  function Decisions(c: Config, m: Table, es: seq<Event>): (ds: seq<bool>)
    decreases |es|
  {
    if es == [] then []
    else
      var e := es[0];
      (if e.Hit? then [Throttles(c, m, e.ip, e.now)] else []) + Decisions(c, Step(c, m, e), es[1..])
  }

  function HitsOnly(es: seq<Event>): (hs: seq<Event>)
    decreases |es|
  {
    if es == [] then [] else (if es[0].Hit? then [es[0]] else []) + HitsOnly(es[1..])
  }

  /** The swept table lacks entries that have run out, and nothing else. */
  predicate SweptAt(c: Config, m: Table, full: Table, last: int, ip: string) {
    Get(m, ip) == Get(full, ip) || (ip !in m && ip in full && full[ip].windowStart + c.window <= last)
  }

  ghost predicate Swept(c: Config, m: Table, full: Table, last: int) {
    forall ip: string :: SweptAt(c, m, full, last, ip)
  }

  lemma StepSwept(c: Config, m: Table, full: Table, last: int, e: Event)
    requires Positive(c) && Swept(c, m, full, last) && last <= e.now
    ensures Swept(c, Step(c, m, e), if e.Hit? then Step(c, full, e) else full, e.now)
    ensures e.Hit? ==> Throttles(c, m, e.ip, e.now) == Throttles(c, full, e.ip, e.now)
  {
    if e.Hit? { assert SweptAt(c, m, full, last, e.ip); }
    var full' := if e.Hit? then Step(c, full, e) else full;
    forall ip: string
      ensures SweptAt(c, Step(c, m, e), full', e.now, ip)
    {
      assert SweptAt(c, m, full, last, ip);
    }
  }

  lemma {:induction false} SweptDecisions(c: Config, m: Table, full: Table, es: seq<Event>, last: int)
    requires Positive(c) && Swept(c, m, full, last) && Monotone(es, last)
    ensures Decisions(c, m, es) == Decisions(c, full, HitsOnly(es))
    decreases |es|
  {
    if es != [] {
      var e := es[0];
      var full' := if e.Hit? then Step(c, full, e) else full;
      StepSwept(c, m, full, last, e);
      SweptDecisions(c, Step(c, m, e), full', es[1..], e.now);
      if e.Hit? {
        assert HitsOnly(es) == [e] + HitsOnly(es[1..]);
      } else {
        assert HitsOnly(es) == [] + HitsOnly(es[1..]) == HitsOnly(es[1..]);
        assert [] + Decisions(c, Step(c, m, e), es[1..]) == Decisions(c, Step(c, m, e), es[1..]);
      }
    }
  }

  /** The sweep never changes a decision. */
  lemma {:induction false} SweepInvisible(c: Config, es: seq<Event>, last: int)
    requires Positive(c) && Monotone(es, last)
    ensures Decisions(c, map[], es) == Decisions(c, map[], HitsOnly(es))
  {
    assert forall ip: string :: SweptAt(c, map[], map[], last, ip);
    SweptDecisions(c, map[], map[], es, last);
  }
}
