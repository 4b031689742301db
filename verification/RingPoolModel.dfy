/** The slot pool of objectpool2/object_pool.cpp as a queue: slots are taken from the front and, in whatever
    order they are released, put at the back. The last queued slot is never taken. */
module RingPoolModel {
  import opened Basics

  datatype Pool = Pool(free: seq<nat>, live: set<nat>)

  datatype Op = Get | Release(slot: nat)

  function Initial(size: nat): Pool {
    Pool(seq(size, i => i), {})
  }

  /** Whether `Get` takes a slot; otherwise it allocates from the heap. */
  predicate Pooled(p: Pool) {
    |p.free| > 1
  }

  predicate Enabled(p: Pool, op: Op) {
    op.Release? ==> op.slot in p.live
  }

  function Apply(p: Pool, op: Op): Pool {
    match op
    case Get => if Pooled(p) then Pool(p.free[1..], p.live + {p.free[0]}) else p
    case Release(slot) => Pool(p.free + [slot], p.live - {slot})
  }

  predicate Runs(p: Pool, ops: seq<Op>)
    decreases |ops|
  {
    ops == [] || (Enabled(p, ops[0]) && Runs(Apply(p, ops[0]), ops[1..]))
  }

  function After(p: Pool, ops: seq<Op>): Pool
    decreases |ops|
  {
    if ops == [] then p else After(Apply(p, ops[0]), ops[1..])
  }

  function PooledGets(p: Pool, ops: seq<Op>): nat
    decreases |ops|
  {
    if ops == [] then 0
    else (if ops[0].Get? && Pooled(p) then 1 else 0) + PooledGets(Apply(p, ops[0]), ops[1..])
  }

  function Elements(free: seq<nat>): set<nat> {
    set slot | slot in free
  }

  /** Free and live slots partition the slots below `size`. */
  ghost predicate Partition(p: Pool, size: nat) {
    && Distinct(p.free)
    && (forall i :: i in p.free ==> i !in p.live)
    && (forall i: nat :: i < size <==> i in p.free || i in p.live)
  }

  ghost predicate Inv(p: Pool, size: nat) {
    |p.free| >= 1 && Partition(p, size)
  }

  lemma InitialInv(size: nat)
    requires size >= 1
    ensures Inv(Initial(size), size)
  {
    var free := Initial(size).free;
    forall i: nat | i < size ensures i in free {
      assert free[i] == i;
    }
  }

  lemma StepInv(p: Pool, op: Op, size: nat)
    requires Inv(p, size) && Enabled(p, op)
    ensures Inv(Apply(p, op), size)
    ensures op.Get? && Pooled(p) ==> p.free[0] !in p.live
  {
    if op.Get? && Pooled(p) {
      assert p.free == [p.free[0]] + p.free[1..];
    }
  }

  lemma {:induction false} RunInv(p: Pool, ops: seq<Op>, size: nat)
    requires Inv(p, size) && Runs(p, ops)
    ensures Inv(After(p, ops), size)
    decreases |ops|
  {
    if ops != [] {
      StepInv(p, ops[0], size);
      RunInv(Apply(p, ops[0]), ops[1..], size);
    }
  }

  lemma {:induction false} DistinctSize(free: seq<nat>)
    requires Distinct(free)
    ensures |Elements(free)| == |free|
  {
    if free == [] {
      assert Elements(free) == {};
    } else {
      DistinctSize(free[1..]);
      assert Elements(free) == {free[0]} + Elements(free[1..]);
    }
  }

  lemma PartitionSize(p: Pool, size: nat)
    requires Partition(p, size)
    ensures |p.free| + |p.live| == size
  {
    var all := Initial(size).free;
    DistinctSize(all);
    DistinctSize(p.free);
    forall i | i in Elements(all) ensures i in Elements(p.free) + p.live {
    }
    forall i | i in Elements(p.free) + p.live ensures i in Elements(all) {
      assert all[i] == i;
    }
    assert Elements(all) == Elements(p.free) + p.live;
  }

  /** After every run of gets and releases, in any order: free and live slots partition the pool, at most
      size - 1 slots are live, and the slot the next `Get` hands out is not among them. */
  lemma LiveSlots(size: nat, ops: seq<Op>)
    requires size >= 1 && Runs(Initial(size), ops)
    ensures var p := After(Initial(size), ops);
      && Partition(p, size)
      && |p.free| + |p.live| == size
      && |p.live| <= size - 1
      && p.free[0] !in p.live
  {
    InitialInv(size);
    RunInv(Initial(size), ops, size);
    PartitionSize(After(Initial(size), ops), size);
  }

  /** After every run, `Get` takes a slot if and only if fewer than size - 1 are live; the slot becomes live and
      leaves the queue. Otherwise nothing changes: the object is built on the heap. */
  lemma PooledExactly(size: nat, ops: seq<Op>)
    requires size >= 1 && Runs(Initial(size), ops)
    ensures var p := After(Initial(size), ops); var q := Apply(p, Get);
      if |p.live| < size - 1 then
        p.free != [] && p.free[0] !in p.live && q.live == p.live + {p.free[0]} && p.free == [p.free[0]] + q.free
      else q == p
  {
    LiveSlots(size, ops);
  }

  /** A queued slot moves up by one with every pooled `Get`, and with nothing else. */
  lemma {:induction false} MovesUp(p: Pool, ops: seq<Op>, size: nat, k: nat)
    requires Inv(p, size) && Runs(p, ops) && k < |p.free|
    requires PooledGets(p, ops) <= k
    ensures var q := After(p, ops); var j := k - PooledGets(p, ops);
      j < |q.free| && q.free[j] == p.free[k]
    decreases |ops|
  {
    if ops != [] {
      StepInv(p, ops[0], size);
      MovesUp(Apply(p, ops[0]), ops[1..], size, if ops[0].Get? && Pooled(p) then k - 1 else k);
    }
  }

  /** A slot released when `k` slots are queued is handed out again by the pooled `Get` that comes after
      exactly `k` other pooled ones: not before, and then for certain. */
  lemma ReissuedAfterExactly(p: Pool, slot: nat, ops: seq<Op>, size: nat)
    requires Inv(p, size) && slot in p.live
    requires Runs(Apply(p, Release(slot)), ops)
    requires PooledGets(Apply(p, Release(slot)), ops) <= |p.free|
    ensures var q := After(Apply(p, Release(slot)), ops);
      |q.free| >= 1 && (q.free[0] == slot <==> PooledGets(Apply(p, Release(slot)), ops) == |p.free|)
  {
    var r := Apply(p, Release(slot));
    StepInv(p, Release(slot), size);
    MovesUp(r, ops, size, |p.free|);
    RunInv(r, ops, size);
  }
}
