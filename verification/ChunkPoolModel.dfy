/** The growing pool of objectpool/objectpool.h, as functions on its fields. An object is its address in units
    of the object size; the system allocator's answers are arguments. */
module ChunkPoolModel {
  import opened Basics

  datatype Chunk = Chunk(base: int, count: nat)

  datatype State = State(free: seq<int>, chunks: seq<Chunk>, currNum: nat, maxNum: nat, incNum: nat)

  /** What `Create` does: it returns nothing, or an object, or reads the front of an empty list. */
  datatype Outcome = Null | Object(address: int) | FrontOfEmpty

  function Range(base: int, count: nat): (r: seq<int>)
    ensures |r| == count
    ensures forall i :: 0 <= i < count ==> r[i] == base + i
  {
    seq(count, i => base + i)
  }

  /** How many objects a request for `inc` more would bring. */
  function Growth(s: State, inc: nat): nat {
    if s.currNum >= s.maxNum then 0
    else if s.currNum + inc > s.maxNum then s.maxNum - s.currNum
    else inc
  }

  predicate CanGrow(s: State, memory: Option<int>) {
    s.currNum < s.maxNum && memory.Some?
  }

  function Grown(s: State, inc: nat, memory: Option<int>): State {
    if !CanGrow(s, memory) then s
    else
      var n := Growth(s, inc);
      s.(free := s.free + Range(memory.value, n), chunks := s.chunks + [Chunk(memory.value, n)],
         currNum := s.currNum + n)
  }

  /** The pool as constructed: a maximum below the initial number is raised to it, and growing is off. */
  function Constructed(initNum: nat, maxNum: nat, incNum: nat, memory: Option<int>): State {
    var s := if maxNum < initNum then State([], [], 0, initNum, 0) else State([], [], 0, maxNum, incNum);
    Grown(s, initNum, memory)
  }

  // ---- Operations, with the set of objects outstanding ----

  datatype Op =
    | Create(locked: bool, memory: Option<int>)
    | Destroy(locked: bool, address: Option<int>)
    | SetMaxNum(n: nat)
    | SetIncNum(n: nat)

  datatype Pool = Pool(s: State, out: set<int>)

  function Stocked(s: State, op: Op): State
    requires op.Create?
  {
    if op.locked && s.free == [] then Grown(s, s.incNum, op.memory) else s
  }

  function Result(s: State, op: Op): Outcome
    requires op.Create?
  {
    if !op.locked || (s.free == [] && !CanGrow(s, op.memory)) then Null
    else if Stocked(s, op).free == [] then FrontOfEmpty
    else Object(Stocked(s, op).free[0])
  }

  function Apply(p: Pool, op: Op): Pool {
    var s := p.s;
    match op
    case Create(_, _) =>
      if Result(s, op).Object? then
        var t := Stocked(s, op);
        Pool(t.(free := t.free[1..]), p.out + {t.free[0]})
      else Pool(Stocked(s, op), p.out)
    case Destroy(locked, address) =>
      if locked && address.Some? then Pool(s.(free := [address.value] + s.free), p.out - {address.value}) else p
    case SetMaxNum(n) => Pool(s.(maxNum := if s.currNum >= n then s.currNum else n), p.out)
    case SetIncNum(n) => Pool(s.(incNum := n), p.out)
  }

  predicate Owned(chunks: seq<Chunk>, address: int) {
    exists k :: 0 <= k < |chunks| && chunks[k].base <= address < chunks[k].base + chunks[k].count
  }

  /** The allocator's memory holds none of the objects there are. */
  ghost predicate FreshMemory(chunks: seq<Chunk>, memory: Option<int>, count: nat) {
    memory.Some? ==> forall address :: memory.value <= address < memory.value + count ==> !Owned(chunks, address)
  }

  /** A caller destroys only what is outstanding, and `Create` does not run into its empty list. */
  ghost predicate Admissible(p: Pool, op: Op) {
    match op
    case Create(_, memory) =>
      FreshMemory(p.s.chunks, memory, Growth(p.s, p.s.incNum)) && !Result(p.s, op).FrontOfEmpty?
    case Destroy(_, address) => address.Some? ==> address.value in p.out
    case _ => true
  }

  ghost predicate Runs(p: Pool, ops: seq<Op>)
    decreases |ops|
  {
    ops == [] || (Admissible(p, ops[0]) && Runs(Apply(p, ops[0]), ops[1..]))
  }

  function After(p: Pool, ops: seq<Op>): Pool
    decreases |ops|
  {
    if ops == [] then p else After(Apply(p, ops[0]), ops[1..])
  }

  // ---- Invariants ----

  function Total(chunks: seq<Chunk>): nat {
    if chunks == [] then 0 else Total(chunks[..|chunks| - 1]) + chunks[|chunks| - 1].count
  }

  /** Every object of every chunk is free or outstanding, never both, and none is free twice. */
  ghost predicate Partition(p: Pool) {
    && Distinct(p.s.free)
    && (forall a :: a in p.s.free ==> a !in p.out && Owned(p.s.chunks, a))
    && (forall a :: a in p.out ==> Owned(p.s.chunks, a))
    && (forall a :: Owned(p.s.chunks, a) ==> a in p.s.free || a in p.out)
  }

  predicate Counts(p: Pool) {
    |p.s.free| + |p.out| == p.s.currNum == Total(p.s.chunks) <= p.s.maxNum
  }

  ghost predicate Inv(p: Pool) {
    Partition(p) && Counts(p)
  }

  lemma OwnedSnoc(chunks: seq<Chunk>, c: Chunk, a: int)
    ensures Owned(chunks + [c], a) <==> Owned(chunks, a) || c.base <= a < c.base + c.count
  {
    var all := chunks + [c];
    if Owned(chunks, a) {
      var k :| 0 <= k < |chunks| && chunks[k].base <= a < chunks[k].base + chunks[k].count;
      assert all[k] == chunks[k];
    }
    assert all[|chunks|] == c;
  }

  lemma GrowStep(p: Pool, inc: nat, memory: Option<int>)
    requires Inv(p) && FreshMemory(p.s.chunks, memory, Growth(p.s, inc))
    ensures Inv(p.(s := Grown(p.s, inc, memory)))
  {
    if CanGrow(p.s, memory) {
      var n := Growth(p.s, inc);
      var c := Chunk(memory.value, n);
      var t := Grown(p.s, inc, memory);
      forall a ensures Owned(t.chunks, a) <==> Owned(p.s.chunks, a) || c.base <= a < c.base + n {
        OwnedSnoc(p.s.chunks, c, a);
      }
      assert t.chunks[..|p.s.chunks|] == p.s.chunks;
      assert p.s.currNum + n <= p.s.maxNum;
      hide Owned, Growth;
      forall j, k | 0 <= j < k < |t.free| ensures t.free[j] != t.free[k] {
        if j < |p.s.free| <= k {
          assert p.s.free[j] in p.s.free;
        }
      }
      forall a | a in t.free ensures a !in p.out && Owned(t.chunks, a) {
        if a !in p.s.free {
          assert a in Range(c.base, n);
        }
      }
      forall a | c.base <= a < c.base + n ensures a in t.free {
        assert Range(c.base, n)[a - c.base] == a;
        assert t.free[|p.s.free| + (a - c.base)] == a;
      }
    }
  }

  lemma TakeStep(p: Pool)
    requires Inv(p) && p.s.free != []
    ensures p.s.free[0] !in p.out
    ensures Inv(Pool(p.s.(free := p.s.free[1..]), p.out + {p.s.free[0]}))
  {
    DistinctTail(p.s.free);
    hide Owned, Distinct;
    var first, rest := p.s.free[0], p.s.free[1..];
    assert p.s.free == [first] + rest;
    assert first in p.s.free && first !in p.out;
    assert forall a :: a in p.s.free <==> a == first || a in rest;
  }

  lemma StepInv(p: Pool, op: Op)
    requires Inv(p) && Admissible(p, op)
    ensures Inv(Apply(p, op))
  {
    hide Owned, FreshMemory, Growth, Grown, CanGrow, Distinct;
    match op {
      case Create(locked, memory) =>
        GrowStep(p, p.s.incNum, memory);
        if Result(p.s, op).Object? {
          TakeStep(p.(s := Stocked(p.s, op)));
        }
      case Destroy(locked, address) =>
        if locked && address.Some? {
          DistinctCons(address.value, p.s.free);
          assert p.out == (p.out - {address.value}) + {address.value};
        }
      case _ =>
    }
  }

  lemma {:induction false} RunInv(p: Pool, ops: seq<Op>)
    requires Inv(p) && Runs(p, ops)
    ensures Inv(After(p, ops))
    decreases |ops|
  {
    hide Inv, Admissible, Apply;
    if ops != [] {
      StepInv(p, ops[0]);
      RunInv(Apply(p, ops[0]), ops[1..]);
    }
  }

  lemma ConstructedInv(initNum: nat, maxNum: nat, incNum: nat, memory: Option<int>)
    ensures Inv(Pool(Constructed(initNum, maxNum, incNum, memory), {}))
  {
    var s := if maxNum < initNum then State([], [], 0, initNum, 0) else State([], [], 0, maxNum, incNum);
    GrowStep(Pool(s, {}), initNum, memory);
  }

  // ---- The main statements ----

  /** Conservation, after any run of operations on a constructed pool: objects free and objects outstanding
      make up the current number, which is the sum of the chunks and never above the maximum; every object of
      every chunk is exactly one of the two. */
  lemma Conserved(initNum: nat, maxNum: nat, incNum: nat, memory: Option<int>, ops: seq<Op>)
    requires Runs(Pool(Constructed(initNum, maxNum, incNum, memory), {}), ops)
    ensures var p := After(Pool(Constructed(initNum, maxNum, incNum, memory), {}), ops);
      && |p.s.free| + |p.out| == p.s.currNum == Total(p.s.chunks) <= p.s.maxNum
      && Partition(p)
  {
    ConstructedInv(initNum, maxNum, incNum, memory);
    RunInv(Pool(Constructed(initNum, maxNum, incNum, memory), {}), ops);
  }

  /** A pool constructed with memory holds exactly the initial number of objects, at consecutive addresses and in
      order, whatever maximum was asked for; a smaller maximum is raised to it, and growing is turned off. */
  lemma ConstructedExactly(initNum: nat, maxNum: nat, incNum: nat, memory: int)
    ensures var s := Constructed(initNum, maxNum, incNum, Some(memory));
      && s.currNum == |s.free| == initNum
      && (forall i :: 0 <= i < initNum ==> s.free[i] == memory + i)
      && s.maxNum == (if maxNum < initNum then initNum else maxNum)
      && s.incNum == (if maxNum < initNum then 0 else incNum)
  {
  }

  /** `Create` on an exhausted pool below its maximum brings `incNum` more objects, or as many as are missing to
      the maximum if that is less. The first of them is handed out, and the others are free, in order. */
  lemma CreateGrows(p: Pool, memory: int)
    requires Inv(p) && p.s.free == [] && p.s.currNum < p.s.maxNum && p.s.incNum > 0
    ensures var missing, t := p.s.maxNum - p.s.currNum, Apply(p, Create(true, Some(memory))).s;
      var n := if p.s.incNum < missing then p.s.incNum else missing;
      && Result(p.s, Create(true, Some(memory))) == Object(memory)
      && t.currNum == p.s.currNum + n && |t.free| == n - 1
      && (forall i :: 0 <= i < n - 1 ==> t.free[i] == memory + 1 + i)
      && t.maxNum == p.s.maxNum && t.incNum == p.s.incNum
  {
  }

  /** With objects free, `Create` hands out the front one and changes nothing else. */
  lemma CreateTakes(p: Pool, memory: Option<int>)
    requires p.s.free != []
    ensures var q := Apply(p, Create(true, memory));
      && Result(p.s, Create(true, memory)) == Object(p.s.free[0])
      && p.s.free == [p.s.free[0]] + q.s.free && q.s == p.s.(free := q.s.free) && q.out == p.out + {p.s.free[0]}
  {
  }

  /** Without the lock, or with nothing free and no way to grow, nothing is handed out and nothing changes. */
  lemma NothingHappens(p: Pool, locked: bool, memory: Option<int>, address: Option<int>)
    ensures !locked || (p.s.free == [] && (p.s.currNum >= p.s.maxNum || memory.None?)) ==>
      Result(p.s, Create(locked, memory)) == Null && Apply(p, Create(locked, memory)) == p
    ensures !locked || address.None? ==> Apply(p, Destroy(locked, address)) == p
  {
  }

  /** The maximum is set as asked, but never below the number of objects there are. */
  lemma MaximumExactly(p: Pool, n: nat)
    ensures var q := Apply(p, SetMaxNum(n));
      q.s.maxNum >= n && q.s.maxNum >= p.s.currNum && (q.s.maxNum == n || q.s.maxNum == p.s.currNum)
    ensures Apply(p, SetMaxNum(n)) == p.(s := p.s.(maxNum := Apply(p, SetMaxNum(n)).s.maxNum))
  {
  }

  /** `Create` never hands out an object that is outstanding. */
  lemma CreateIsFresh(p: Pool, op: Op)
    requires Inv(p) && op.Create? && Admissible(p, op) && Result(p.s, op).Object?
    ensures Result(p.s, op).address !in p.out && Result(p.s, op).address in Apply(p, op).out
  {
    GrowStep(p, p.s.incNum, op.memory);
    TakeStep(p.(s := Stocked(p.s, op)));
  }

  /** A pool that may grow, with an allocator that has memory, refuses exactly when the maximum is out. */
  lemma NullExactlyWhenExhausted(p: Pool, memory: Option<int>)
    requires Inv(p) && p.s.incNum > 0 && memory.Some?
    ensures Result(p.s, Create(true, memory)).Null? <==> |p.out| == p.s.maxNum
    ensures !Result(p.s, Create(true, memory)).FrontOfEmpty?
  {
  }

  /** The one way into the empty list: nothing free, room to grow, but growing by nothing. */
  lemma FrontOfEmptyExactly(s: State, op: Op)
    requires op.Create?
    ensures Result(s, op).FrontOfEmpty? <==>
      op.locked && s.free == [] && s.incNum == 0 && s.currNum < s.maxNum && op.memory.Some?
  {
  }

  /** It can happen right after construction, with the default increment. */
  lemma FrontOfEmptyExample(memory: int)
    ensures Result(Constructed(0, 5, 0, Some(memory)), Create(true, Some(memory))).FrontOfEmpty?
  {
  }

  /** What was destroyed last is created next. */
  lemma DestroyThenCreate(p: Pool, address: int, memory: Option<int>)
    requires Inv(p) && address in p.out
    ensures var q := Apply(p, Destroy(true, Some(address)));
      Result(q.s, Create(true, memory)) == Object(address) && Apply(q, Create(true, memory)) == p
  {
    var q := Apply(p, Destroy(true, Some(address)));
    assert q.s.free[1..] == p.s.free;
    assert p.out == (p.out - {address}) + {address};
  }
}
