/** The packet slabs of the native TUN reader: a global free list of buffers, and the poll
    callback that borrows up to 32 of them, copies the packets out and gives them back. Slabs
    are numbered by the allocation that made them. */
module SlabPool {
  import opened Bytes
  import opened Lists
  import opened PollBatch

  const POOL_CAP := 64

  predicate NoDup(xs: seq<int>) {
    forall i, j | 0 <= i < j < |xs| :: xs[i] != xs[j]
  }

  /** `k` packets are in the batch, and the next read is at `r`. */
  predicate Reached(io: Io, free: nat, k: nat, r: nat)
  {
    k <= MAX_BATCH && r == After(io.input, k) && Count(io, free, k) == Count(io, free, 0)
  }

  lemma ReachedNext(io: Io, free: nat, k: nat, r: nat, q: nat)
    requires Reached(io, free, k, r) && k < MAX_BATCH && (k < free || Ok(io.memory, k - free))
    requires q == Settle(io.input, r) && Brings(ReadAt(io.input, q))
    ensures Reached(io, free, k + 1, q + 1)
    ensures Packets(io.input, k + 1) == Packets(io.input, k) + [ReadAt(io.input, q).bytes]
  {
    PacketNext(io, free, k);
  }

  lemma {:induction false} ReachedEnd(io: Io, free: nat, k: nat, r: nat)
    requires Reached(io, free, k, r)
    requires k == MAX_BATCH || !(k < free || Ok(io.memory, k - free)) || !Brings(ReadAt(io.input, Settle(io.input, r)))
    ensures Batch(io, free) == Packets(io.input, k)
  {
    BatchEnds(io, free, k);
  }

  /** Slabs `ptrs[i..]`, all different, are lent on top of those in `before`. */
  predicate Lent(ptrs: seq<int>, i: nat, before: set<int>, held: set<int>)
    decreases |ptrs| - i
  {
    if i >= |ptrs| then i == |ptrs| && held == before
    else ptrs[i] in held && Lent(ptrs, i + 1, before, held - {ptrs[i]})
  }

  lemma {:induction false} LendOne(ptrs: seq<int>, p: int, i: nat, before: set<int>, held: set<int>)
    requires Lent(ptrs, i, before, held) && p !in held
    ensures Lent(ptrs + [p], i, before, held + {p})
    decreases |ptrs| - i
  {
    if i < |ptrs| {
      LendOne(ptrs, p, i + 1, before, held - {ptrs[i]});
      assert held + {p} - {ptrs[i]} == held - {ptrs[i]} + {p};
    } else {
      assert held + {p} - {p} == held;
      assert Lent(ptrs + [p], i + 1, before, held);
    }
  }

  predicate HoldsAt(mem: map<int, seq<byte>>, p: int, len: int, packet: seq<byte>) {
    p in mem && 0 <= len <= |mem[p]| && mem[p][..len] == packet
  }

  /** The batch holds the packets from `i` on, each at the start of its slab. */
  predicate Holds(mem: map<int, seq<byte>>, ptrs: seq<int>, lens: seq<int>, ps: seq<seq<byte>>, i: nat)
    decreases |ptrs| - i
  {
    |ptrs| == |lens| == |ps| && (i >= |ptrs| || (HoldsAt(mem, ptrs[i], lens[i], ps[i]) && Holds(mem, ptrs, lens, ps, i + 1)))
  }

  /** Slabs in `held` have kept their contents. */
  predicate Same(held: set<int>, mem: map<int, seq<byte>>, mem': map<int, seq<byte>>) {
    forall h | h in held :: h in mem && h in mem' && mem[h] == mem'[h]
  }

  lemma {:induction false} HoldsSame(mem: map<int, seq<byte>>, mem': map<int, seq<byte>>, held: set<int>, before: set<int>,
                                     ptrs: seq<int>, lens: seq<int>, ps: seq<seq<byte>>, i: nat)
    requires Lent(ptrs, i, before, held) && Same(held, mem, mem') && Holds(mem, ptrs, lens, ps, i)
    ensures Holds(mem', ptrs, lens, ps, i)
    decreases |ptrs| - i
  {
    if i < |ptrs| {
      HoldsSame(mem, mem', held - {ptrs[i]}, before, ptrs, lens, ps, i + 1);
    }
  }

  lemma {:induction false} HoldsMore(mem: map<int, seq<byte>>, ptrs: seq<int>, lens: seq<int>, ps: seq<seq<byte>>, i: nat,
                                     p: int, len: int, d: seq<byte>)
    requires i <= |ptrs| && Holds(mem, ptrs, lens, ps, i) && HoldsAt(mem, p, len, d)
    ensures Holds(mem, ptrs + [p], lens + [len], ps + [d], i)
    decreases |ptrs| - i
  {
    if i < |ptrs| {
      HoldsMore(mem, ptrs, lens, ps, i + 1, p, len, d);
    } else {
      assert Holds(mem, ptrs + [p], lens + [len], ps + [d], i + 1);
    }
  }

  class PktPool {
    const pool: array<int>
    var n: nat
    /** Slabs ever allocated, and how many of them were freed. */
    var made: nat
    var freed: nat
    var mem: map<int, seq<byte>>
    /** Slabs handed out and not yet released. */
    ghost var held: set<int>

    /** The free list has no duplicate and no handed-out slab, and every slab ever allocated
        is on the list, handed out or freed. */
    ghost predicate Valid()
      reads this, pool
    {
      && pool.Length == POOL_CAP && n <= POOL_CAP && NoDup(pool[..n])
      && (forall i | 0 <= i < n :: 0 <= pool[i] < made && pool[i] !in held && pool[i] in mem)
      && (forall h | h in held :: 0 <= h < made && h in mem)
      && made == n + |held| + freed
    }

    constructor ()
      ensures Valid() && fresh(pool) && n == made == freed == 0 && held == {}
    {
      pool := new int[POOL_CAP];
      n, made, freed, mem, held := 0, 0, 0, map[], {};
    }

    method Acquire(memory: bool) returns (p: Option<int>)
      requires Valid()
      modifies this
      ensures Valid() && freed == old(freed)
      ensures p == (if old(n) > 0 then Some(pool[old(n) - 1]) else if memory then Some(old(made)) else None)
      ensures p.None? ==> n == old(n) && held == old(held) && mem == old(mem)
      ensures p.Some? ==> p.value !in old(held) && held == old(held) + {p.value} && n == (if old(n) > 0 then old(n) - 1 else 0)
      ensures Same(old(held), old(mem), mem)
    {
      if n > 0 {
        var top := TakeTop();
        return Some(top);
      }
      if !memory { return None; }
      var slab := Allocate();
      return Some(slab);
    }

    method TakeTop() returns (p: int)
      requires Valid() && n > 0
      modifies this`n, this`held
      ensures Valid() && n == old(n) - 1 && p == pool[n]
      ensures p !in old(held) && held == old(held) + {p}
    {
      n := n - 1;
      p := pool[n];
      held := held + {p};
    }

    method Allocate() returns (p: int)
      requires Valid()
      modifies this`made, this`mem, this`held
      ensures Valid() && p == old(made) && made == old(made) + 1
      ensures p !in old(held) && held == old(held) + {p} && Same(old(held), old(mem), mem)
    {
      p := made;
      mem := mem[p := []];
      held := held + {p};
      made := made + 1;
    }

    method Release(p: int)
      requires Valid() && p in held
      modifies this, pool
      ensures Valid() && held == old(held) - {p} && made == old(made)
      ensures Same(held, old(mem), mem)
      ensures old(n) < POOL_CAP ==> n == old(n) + 1 && freed == old(freed) && pool[..n] == old(pool[..n]) + [p]
      ensures old(n) == POOL_CAP ==> n == old(n) && freed == old(freed) + 1 && pool[..] == old(pool[..])
    {
      held := held - {p};
      if n < POOL_CAP {
        pool[n] := p;
        n := n + 1;
      } else {
        freed := freed + 1;
      }
    }

    /** `read`, retried while interrupted: the length read, 0 or less to stop. */
    method ReadRetry(raw: int, input: seq<Read>, r: nat) returns (len: int, q: nat)
      requires Valid() && raw in held
      modifies this`mem
      ensures Valid() && q == Settle(input, r)
      ensures Same(held - {raw}, old(mem), mem)
      ensures len > 0 <==> Brings(ReadAt(input, q))
      ensures len > 0 ==> HoldsAt(mem, raw, len, ReadAt(input, q).bytes)
    {
      q := r;
      while ReadAt(input, q).Interrupted?
        invariant Settle(input, q) == Settle(input, r)
        decreases |input| - q
      {
        q := q + 1;
      }
      if ReadAt(input, q).Nothing? { return -1, q; }
      var d, was := ReadAt(input, q).bytes, mem[raw];
      mem := mem[raw := d + if |d| < |was| then was[|d|..] else []];
      return |d|, q;
    }

    /** One turn of the read loop: a slab, and what was read into it. */
    method Borrow(memory: bool, input: seq<Read>, r: nat) returns (p: Option<int>, len: int, q: nat)
      requires Valid() && n <= POOL_CAP
      modifies this, pool
      ensures Valid() && freed == old(freed) && q == Settle(input, r)
      ensures Same(old(held), old(mem), mem)
      ensures p.Some? <==> (old(n) > 0 || memory) && Brings(ReadAt(input, q))
      ensures p.Some? ==> p.value !in old(held) && held == old(held) + {p.value} && n == Max(old(n) - 1, 0)
      ensures p.Some? ==> len > 0 && HoldsAt(mem, p.value, len, ReadAt(input, q).bytes)
      ensures p.None? ==> held == old(held) && n <= Max(old(n), 1)
    {
      p := Acquire(memory);
      if p.None? { return None, 0, Settle(input, r); }
      len, q := ReadRetry(p.value, input, r);
      if len <= 0 {
        Release(p.value);
        p := None;
      }
    }

    /** The same, on top of a batch under way. */
    method BorrowNext(memory: bool, input: seq<Read>, r: nat, ptrs: seq<int>, lens: seq<int>,
                      ghost got: seq<seq<byte>>, ghost before: set<int>)
      returns (p: Option<int>, len: int, q: nat)
      requires Valid() && Lent(ptrs, 0, before, held) && Holds(mem, ptrs, lens, got, 0)
      modifies this, pool
      ensures Valid() && freed == old(freed) && q == Settle(input, r)
      ensures p.Some? <==> (old(n) > 0 || memory) && Brings(ReadAt(input, q))
      ensures p.Some? ==> n == Max(old(n) - 1, 0) && Lent(ptrs + [p.value], 0, before, held)
      ensures p.Some? ==> Holds(mem, ptrs + [p.value], lens + [len], got + [ReadAt(input, q).bytes], 0)
      ensures p.None? ==> n <= Max(old(n), 1) && Lent(ptrs, 0, before, held) && Holds(mem, ptrs, lens, got, 0)
    {
      ghost var mem0, held0 := mem, held;
      p, len, q := Borrow(memory, input, r);
      HoldsSame(mem0, mem, held0, before, ptrs, lens, got, 0);
      if p.None? { return; }
      LendOne(ptrs, p.value, 0, before, held0);
      HoldsMore(mem, ptrs, lens, got, 0, p.value, len, ReadAt(input, q).bytes);
    }

    /** The read loop of the callback. */
    method Fill(io: Io) returns (ptrs: seq<int>, lens: seq<int>)
      requires Valid()
      modifies this, pool
      ensures Valid() && Lent(ptrs, 0, old(held), held) && Holds(mem, ptrs, lens, Batch(io, old(n)), 0)
      ensures n + |ptrs| <= Max(old(n), MAX_BATCH) && freed == old(freed)
    {
      ptrs, lens := [], [];
      var r, free, nbatch := 0, n, 0;
      while nbatch < MAX_BATCH
        invariant Valid() && nbatch == |ptrs| && n == Max(free - nbatch, 0) && freed == old(freed)
        invariant Reached(io, free, nbatch, r)
        invariant Lent(ptrs, 0, old(held), held)
        invariant Holds(mem, ptrs, lens, Packets(io.input, nbatch), 0)
      {
        ghost var got := Packets(io.input, nbatch);
        var raw, len, q := BorrowNext(Ok(io.memory, nbatch - free), io.input, r, ptrs, lens, got, old(held));
        if raw.None? { break; }
        ReachedNext(io, free, nbatch, r, q);
        ptrs, lens := ptrs + [raw.value], lens + [len];
        nbatch, r := nbatch + 1, q + 1;
      }
      ReachedEnd(io, free, nbatch, r);
    }

    /** The release loops of the failure paths. */
    method ReleaseFrom(ptrs: seq<int>, i: nat, ghost before: set<int>)
      requires Valid() && Lent(ptrs, i, before, held) && n + |ptrs| - i <= POOL_CAP
      modifies this, pool
      ensures Valid() && held == before && n == old(n) + |ptrs| - i && freed == old(freed)
    {
      for j := i to |ptrs|
        invariant Valid() && Lent(ptrs, j, before, held) && n == old(n) + j - i && freed == old(freed)
      {
        Release(ptrs[j]);
      }
    }

    /** The copy loop: every packet into a buffer of its own, its slab back at once. */
    method Deliver(io: Io, ptrs: seq<int>, lens: seq<int>, ghost ps: seq<seq<byte>>, ghost before: set<int>)
      returns (ok: bool, arr: seq<seq<byte>>)
      requires Valid() && Lent(ptrs, 0, before, held) && Holds(mem, ptrs, lens, ps, 0) && n + |ptrs| <= POOL_CAP
      modifies this, pool
      ensures Valid() && held == before && n == old(n) + |ptrs| && freed == old(freed)
      ensures ok <==> AllOk(io.buffers, |ptrs|) && AllOk(io.elements, |ptrs|)
      ensures ok ==> arr == ps
    {
      arr := [];
      for i := 0 to |ptrs|
        invariant Valid() && Lent(ptrs, i, before, held) && n == old(n) + i && freed == old(freed)
        invariant Holds(mem, ptrs, lens, ps, i)
        invariant AllOk(io.buffers, i) && AllOk(io.elements, i) && arr == ps[..i]
      {
        if !Ok(io.buffers, i) {
          ReleaseFrom(ptrs, i, before);
          return false, arr;
        }
        var payload := mem[ptrs[i]][..lens[i]];
        ghost var mem0 := mem;
        Release(ptrs[i]);
        HoldsSame(mem0, mem, held, before, ptrs, lens, ps, i + 1);
        if !Ok(io.elements, i) {
          ReleaseFrom(ptrs, i + 1, before);
          return false, arr;
        }
        AllOkNext(io.buffers, i);
        AllOkNext(io.elements, i);
        TakeNext(ps, i);
        arr := arr + [payload];
      }
      return true, arr;
    }

    /** The poll callback: the array handed to JavaScript, if it is called at all. */
    method OnPoll(io: Io) returns (called: Option<seq<seq<byte>>>)
      requires Valid()
      modifies this, pool
      ensures Valid() && called == Delivered(io, old(n))
      ensures called.Some? ==> called.value == Takeable(io, old(n))
      ensures held == old(held) && freed == old(freed) && n <= Max(old(n), MAX_BATCH)
    {
      DeliveredExactly(io, n);
      if !io.ready { return None; }
      ghost var ps := Batch(io, n);
      var ptrs, lens := Fill(io);
      if |ptrs| == 0 { return None; }
      if !io.scope || !io.reference || !io.arr {
        ReleaseFrom(ptrs, 0, old(held));
        return None;
      }
      var ok, arr := Deliver(io, ptrs, lens, ps, old(held));
      return if ok then Some(arr) else None;
    }
  }

  /** Any run of poll callbacks on one event loop: no slab is ever handed out between two
      callbacks, at most 32 slabs are ever allocated, and none is freed. */
  method EventLoop(polls: seq<Io>) returns (p: PktPool)
    ensures p.Valid() && p.held == {} && p.made == p.n <= MAX_BATCH && p.freed == 0
  {
    p := new PktPool();
    for i := 0 to |polls|
      invariant fresh(p) && fresh(p.pool) && p.Valid() && p.held == {} && p.n <= MAX_BATCH && p.freed == 0
    {
      var called := p.OnPoll(polls[i]);
    }
  }
}
