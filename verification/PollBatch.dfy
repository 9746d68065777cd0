/** One poll of the native TUN reader as the system's answers determine it: which packets it
    can take and what the JavaScript callback gets. */
module PollBatch {
  import opened Bytes
  import opened Lists

  const MAX_BATCH := 32

  /** One `read` on the TUN descriptor. */
  datatype Read = Data(bytes: seq<byte>) | Interrupted | Nothing

  /** What the system answers during one poll: whether the session is active and readable,
      each allocation, each read, and each call into the JavaScript engine. Answers not
      listed are success for allocations and engine calls, `Nothing` for reads. */
  datatype Io = Io(ready: bool, memory: seq<bool>, input: seq<Read>, scope: bool, reference: bool,
                   arr: bool, buffers: seq<bool>, elements: seq<bool>)

  function Ok(answers: seq<bool>, i: int): (ok: bool) {
    0 <= i < |answers| ==> answers[i]
  }

  function ReadAt(input: seq<Read>, r: nat): (x: Read) {
    if r < |input| then input[r] else Nothing
  }

  /** The first read from `r` on that was not interrupted. */
  function Settle(input: seq<Read>, r: nat): (q: nat)
    ensures !ReadAt(input, q).Interrupted?
    decreases |input| - r
  {
    if ReadAt(input, r).Interrupted? then Settle(input, r + 1) else r
  }

  /** Where the reads stand after `k` packets. */
  function After(input: seq<Read>, k: nat): (r: nat) {
    if k == 0 then 0 else Settle(input, After(input, k - 1)) + 1
  }

  /** The read that would bring packet `k`. */
  function Attempt(input: seq<Read>, k: nat): (x: Read) {
    ReadAt(input, Settle(input, After(input, k)))
  }

  predicate Brings(x: Read) {
    x.Data? && x.bytes != []
  }

  /** How many packets one poll reads, given that it has `k` already, when the free list held
      `free` slabs at its start. */
  function Count(io: Io, free: nat, k: nat): (c: nat)
    requires k <= MAX_BATCH
    ensures k <= c <= MAX_BATCH
    decreases MAX_BATCH - k
  {
    if k < MAX_BATCH && (k < free || Ok(io.memory, k - free)) && Brings(Attempt(io.input, k))
    then Count(io, free, k + 1) else k
  }

  function Packets(input: seq<Read>, k: nat): (ps: seq<seq<byte>>)
    ensures |ps| == k
  {
    if k == 0 then []
    else Packets(input, k - 1) + [if Attempt(input, k - 1).Data? then Attempt(input, k - 1).bytes else []]
  }

  /** One more packet in the batch. */
  lemma PacketNext(io: Io, free: nat, k: nat)
    requires k < MAX_BATCH && (k < free || Ok(io.memory, k - free)) && Brings(Attempt(io.input, k))
    ensures Packets(io.input, k + 1) == Packets(io.input, k) + [Attempt(io.input, k).bytes]
    ensures Count(io, free, k) == Count(io, free, k + 1)
    ensures After(io.input, k + 1) == Settle(io.input, After(io.input, k)) + 1
  {}

  function Batch(io: Io, free: nat): (ps: seq<seq<byte>>) {
    Packets(io.input, Count(io, free, 0))
  }

  /** The batch is full, out of memory, or without a further packet. */
  lemma {:induction false} BatchEnds(io: Io, free: nat, k: nat)
    requires k <= MAX_BATCH && Count(io, free, k) == Count(io, free, 0)
    requires k == MAX_BATCH || !(k < free || Ok(io.memory, k - free)) || !Brings(Attempt(io.input, k))
    ensures Batch(io, free) == Packets(io.input, k)
  {}

  predicate AllOk(answers: seq<bool>, n: nat) {
    forall i | 0 <= i < n :: Ok(answers, i)
  }

  lemma AllOkNext(answers: seq<bool>, i: nat)
    requires AllOk(answers, i)
    ensures AllOk(answers, i + 1) <==> Ok(answers, i)
  {}

  /** What the callback receives: all packets of the batch, or no call at all. */
  function Delivered(io: Io, free: nat): (r: Option<seq<seq<byte>>>) {
    var ps := Batch(io, free);
    if io.ready && ps != [] && io.scope && io.reference && io.arr && AllOk(io.buffers, |ps|) && AllOk(io.elements, |ps|)
    then Some(ps) else None
  }

  lemma {:induction false} CountInvisible(io: Io, f: nat, g: nat, k: nat)
    requires k <= MAX_BATCH && io.memory == []
    ensures Count(io, f, k) == Count(io, g, k)
    decreases MAX_BATCH - k
  {
    if k < MAX_BATCH { CountInvisible(io, f, g, k + 1); }
  }

  /** While allocations succeed, what the pool holds makes no difference to JavaScript. */
  lemma PoolInvisible(io: Io, f: nat, g: nat)
    requires io.memory == []
    ensures Delivered(io, f) == Delivered(io, g)
  {
    CountInvisible(io, f, g, 0);
  }

  // ---- What the callback gets, told on what the system answers ----

  /** The longest run of non-empty data reads from `r` on, interrupted reads left out. */
  function Front(input: seq<Read>, r: nat): (ps: seq<seq<byte>>)
    decreases |input| - r
  {
    if r >= |input| then []
    else match input[r]
      case Interrupted => Front(input, r + 1)
      case Nothing => []
      case Data(bytes) => if bytes == [] then [] else [bytes] + Front(input, r + 1)
  }

  /** How many allocations succeed before the first that fails; answers not listed succeed,
      and no poll needs more than 32. */
  function Granted(memory: seq<bool>): (n: nat)
    decreases |memory|
  {
    if memory == [] then 32 else if memory[0] then 1 + Granted(memory[1..]) else 0
  }

  /** The packets one poll can take: at most 32, and no more than there are slabs. */
  function Takeable(io: Io, free: nat): (ps: seq<seq<byte>>) {
    var all := Front(io.input, 0);
    all[..Min(|all|, Min(32, free + Granted(io.memory)))]
  }

  lemma {:induction false} GrantedIs(memory: seq<bool>, i: nat)
    requires i <= Granted(memory) && i < 32
    ensures i < Granted(memory) <==> Ok(memory, i)
    decreases |memory|
  {
    if memory != [] && memory[0] && i > 0 {
      GrantedIs(memory[1..], i - 1);
      if i < |memory| { assert memory[1..][i - 1] == memory[i]; }
    }
  }

  lemma {:induction false} FrontSettles(input: seq<Read>, r: nat)
    ensures var q := Settle(input, r);
      Front(input, r) == if Brings(ReadAt(input, q)) then [ReadAt(input, q).bytes] + Front(input, q + 1) else []
    decreases |input| - r
  {
    if ReadAt(input, r).Interrupted? { FrontSettles(input, r + 1); }
  }

  /** Packet `k` is taken exactly if a slab is left for it and the run goes on. */
  lemma {:induction false} OneTaken(io: Io, free: nat, k: nat)
    requires k < Min(32, free + Granted(io.memory))
    ensures k < free || Ok(io.memory, k - free)
    ensures var front := Front(io.input, After(io.input, k));
      if Brings(Attempt(io.input, k)) then
        front == [Attempt(io.input, k).bytes] + Front(io.input, After(io.input, k + 1))
      else front == []
  {
    FrontSettles(io.input, After(io.input, k));
    if k >= free { GrantedIs(io.memory, k - free); }
  }

  lemma {:induction false} NoneTaken(io: Io, free: nat, k: nat)
    requires k == Min(32, free + Granted(io.memory))
    ensures Count(io, free, k) == k
  {
    if k < 32 { GrantedIs(io.memory, k - free); }
  }

  /** Counting on from `k` packets takes the run on, up to the limit. */
  lemma {:induction false} CountTakes(io: Io, free: nat, k: nat, limit: nat)
    requires k + limit == Min(32, free + Granted(io.memory))
    ensures var front := Front(io.input, After(io.input, k));
      Packets(io.input, Count(io, free, k)) == Packets(io.input, k) + front[..Min(|front|, limit)]
    decreases limit
  {
    if limit == 0 {
      NoneTaken(io, free, k);
    } else {
      OneTaken(io, free, k);
      if Brings(Attempt(io.input, k)) {
        PacketNext(io, free, k);
        CountTakes(io, free, k + 1, limit - 1);
        ConsTaken(Packets(io.input, k), Attempt(io.input, k).bytes, Front(io.input, After(io.input, k + 1)), limit - 1);
      }
    }
  }

  lemma ConsTaken(a: seq<seq<byte>>, x: seq<byte>, rest: seq<seq<byte>>, limit: nat)
    ensures var front := [x] + rest;
      a + [x] + rest[..Min(|rest|, limit)] == a + front[..Min(|front|, limit + 1)]
  {}

  /** The callback gets all packets that can be taken, whole and in order, or is not called at
      all: exactly if the session is not readable, there is no packet, or the engine refuses. */
  lemma DeliveredExactly(io: Io, free: nat)
    ensures var ps := Takeable(io, free);
      Delivered(io, free)
      == if io.ready && ps != [] && io.scope && io.reference && io.arr
            && (forall i | 0 <= i < |ps| :: Ok(io.buffers, i) && Ok(io.elements, i)) then Some(ps) else None
  {
    CountTakes(io, free, 0, Min(32, free + Granted(io.memory)));
    var ps := Takeable(io, free);
    assert [] + ps == ps;
    assert Batch(io, free) == ps;
    assert (forall i | 0 <= i < |ps| :: Ok(io.buffers, i) && Ok(io.elements, i))
      <==> AllOk(io.buffers, |ps|) && AllOk(io.elements, |ps|);
  }

  /** While every call succeeds, that is the whole run, cut at 32. */
  lemma {:induction false} DeliveredWhole(io: Io, free: nat)
    requires io.ready && io.scope && io.reference && io.arr
    requires forall i :: Ok(io.memory, i) && Ok(io.buffers, i) && Ok(io.elements, i)
    ensures var all := Front(io.input, 0);
      Delivered(io, free) == if all == [] then None else Some(all[..Min(|all|, 32)])
  {
    DeliveredExactly(io, free);
    AllGranted(io.memory);
  }

  lemma {:induction false} AllGranted(memory: seq<bool>)
    requires forall i :: Ok(memory, i)
    ensures Granted(memory) >= 32
    decreases |memory|
  {
    if memory != [] {
      assert Ok(memory, 0);
      forall i
        ensures Ok(memory[1..], i)
      {
        assert Ok(memory, i + 1);
      }
      AllGranted(memory[1..]);
    }
  }
}
