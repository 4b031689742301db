/** The bump allocator of statusandslice/arena.h and arena.cpp, as functions on its fields, with what is true
    after every sequence of calls. Addresses are integers and 0 is the null pointer. */
module ArenaModel {
  const BLOCK_SIZE: nat := 4096
  const POINTER_SIZE: nat := 8
  const ALIGN: nat := 8

  datatype Block = Block(base: int, size: nat)

  datatype State = State(ptr: int, remaining: nat, blocks: seq<Block>, usage: nat)

  const EMPTY: State := State(0, 0, [], 0)

  /** One call. `base` is the address `new char[]` would return if the call asks for a block. */
  datatype Call =
    | Allocate(bytes: nat, base: int)
    | AllocateAligned(bytes: nat, base: int)

  function Slop(s: State, call: Call): nat {
    if call.Allocate? || s.ptr % ALIGN == 0 then 0 else ALIGN - s.ptr % ALIGN
  }

  predicate Fits(s: State, call: Call) {
    call.bytes + Slop(s, call) <= s.remaining
  }

  predicate IsLarge(call: Call) {
    call.bytes > BLOCK_SIZE / 4
  }

  function NewBlock(s: State, size: nat, base: int): State {
    s.(blocks := s.blocks + [Block(base, size)], usage := s.usage + size + POINTER_SIZE)
  }

  function Result(s: State, call: Call): int {
    if Fits(s, call) then s.ptr + Slop(s, call) else call.base
  }

  function Next(s: State, call: Call): State {
    if Fits(s, call) then
      var needed := call.bytes + Slop(s, call);
      s.(ptr := s.ptr + needed, remaining := s.remaining - needed)
    else if IsLarge(call) then
      NewBlock(s, call.bytes, call.base)
    else
      NewBlock(s, BLOCK_SIZE, call.base).(ptr := call.base + call.bytes, remaining := BLOCK_SIZE - call.bytes)
  }

  // ---- What one call does ----

  /** The bytes skipped in front of a request: none, or up to the next multiple of eight. */
  predicate Gap(ptr: int, call: Call, gap: nat) {
    if call.Allocate? then gap == 0 else gap < 8 && (ptr + gap) % 8 == 0
  }

  /** A request that fits behind its gap, large or small, is carved from the current block: it starts right
      there, and no block is taken. */
  lemma CarvedIfItFits(s: State, call: Call, gap: nat)
    requires Gap(s.ptr, call, gap) && call.bytes + gap <= s.remaining
    ensures Result(s, call) == s.ptr + gap
    ensures Next(s, call) == s.(ptr := s.ptr + gap + call.bytes, remaining := s.remaining - (gap + call.bytes))
  {
    assert gap == Slop(s, call);
  }

  /** Any other request takes exactly one block: of its own size if it is over 1024 bytes, which leaves the
      current block in use, and of 4096 bytes otherwise, from which it is carved. */
  lemma OneBlockIfNot(s: State, call: Call, gap: nat)
    requires Gap(s.ptr, call, gap) && call.bytes + gap > s.remaining
    ensures Result(s, call) == call.base
    ensures var t, size := Next(s, call), if call.bytes > 1024 then call.bytes else 4096;
      && t.blocks == s.blocks + [Block(call.base, size)]
      && t.usage == s.usage + size + 8
      && if call.bytes > 1024 then t.ptr == s.ptr && t.remaining == s.remaining
         else t.ptr == call.base + call.bytes && t.remaining == 4096 - call.bytes
  {
    assert gap == Slop(s, call);
  }

  // ---- What the system allocator is relied on for ----

  predicate Apart(b: Block, c: Block) {
    b.base + b.size <= c.base || c.base + c.size <= b.base
  }

  /** A fresh block is not null, is aligned, and overlaps no block handed out before. */
  predicate FreshBlock(blocks: seq<Block>, b: Block) {
    b.base > 0 && b.base % ALIGN == 0 && forall c <- blocks :: Apart(b, c)
  }

  /** The call meets the source's assertion, and `new char[]`, if called, behaves. */
  predicate Admissible(s: State, call: Call) {
    && (call.Allocate? ==> call.bytes > 0)
    && (!Fits(s, call) ==> FreshBlock(s.blocks, Block(call.base, if IsLarge(call) then call.bytes else BLOCK_SIZE)))
  }

  // ---- Histories ----

  /** A returned region: where it lies, and which block it was cut from. */
  datatype Region = Region(start: int, size: nat, aligned: bool, home: nat)

  /** An arena with the record of what it did: the regions it returned, the index of the block it carves
      from, the number of standard blocks, the bytes carved from them, and the bytes of large blocks. */
  datatype History = History(
    s: State, regions: seq<Region>, current: nat, standard: nat, carved: nat, largeBytes: nat)

  const START: History := History(EMPTY, [], 0, 0, 0, 0)

  function Record(h: History, call: Call): History {
    var s := h.s;
    var region := Region(Result(s, call), call.bytes, call.AllocateAligned?,
                         if Fits(s, call) then h.current else |s.blocks|);
    var h' := h.(s := Next(s, call), regions := h.regions + [region]);
    if Fits(s, call) then h'.(carved := h.carved + call.bytes + Slop(s, call))
    else if IsLarge(call) then h'.(largeBytes := h.largeBytes + call.bytes)
    else h'.(current := |s.blocks|, standard := h.standard + 1, carved := h.carved + call.bytes)
  }

  predicate Runs(h: History, calls: seq<Call>)
    decreases |calls|
  {
    calls == [] || (Admissible(h.s, calls[0]) && Runs(Record(h, calls[0]), calls[1..]))
  }

  function After(h: History, calls: seq<Call>): History
    decreases |calls|
  {
    if calls == [] then h else After(Record(h, calls[0]), calls[1..])
  }

  // ---- Invariants ----

  predicate BlocksInv(blocks: seq<Block>) {
    && (forall k :: 0 <= k < |blocks| ==> blocks[k].base > 0 && blocks[k].base % ALIGN == 0)
    && (forall j, k :: 0 <= j < k < |blocks| ==> Apart(blocks[k], blocks[j]))
  }

  /** The unused tail of the current block is exactly what `ptr` and `remaining` describe. */
  predicate CurrentInv(h: History) {
    if h.standard == 0 then h.s.ptr == 0 && h.s.remaining == 0
    else
      && h.current < |h.s.blocks|
      && h.s.blocks[h.current].size == BLOCK_SIZE
      && h.s.remaining <= BLOCK_SIZE
      && h.s.ptr + h.s.remaining == h.s.blocks[h.current].base + BLOCK_SIZE
  }

  predicate Inside(r: Region, blocks: seq<Block>) {
    && r.home < |blocks|
    && blocks[r.home].base <= r.start
    && r.start + r.size <= blocks[r.home].base + blocks[r.home].size
  }

  predicate Disjoint(r: Region, q: Region) {
    r.size == 0 || q.size == 0 || r.start + r.size <= q.start || q.start + q.size <= r.start
  }

  /** Nothing returned so far reaches into the unused tail. */
  predicate BehindPointer(h: History, r: Region) {
    r.home == h.current && h.standard > 0 ==> r.start + r.size <= h.s.ptr
  }

  predicate RegionInv(h: History, r: Region) {
    && (r.size > 0 ==> Inside(r, h.s.blocks) && BehindPointer(h, r))
    && (r.aligned ==> r.start % ALIGN == 0)
  }

  predicate RegionsInv(h: History) {
    && (forall k :: 0 <= k < |h.regions| ==> RegionInv(h, h.regions[k]))
    && (forall j, k :: 0 <= j < k < |h.regions| ==> Disjoint(h.regions[k], h.regions[j]))
  }

  /** `MIN_USE` bytes at least are carved from a block before it is given up. A request of at most 1024 bytes
      missed; its slop brings `ptr` to a multiple of eight, and the block ends at one, so at most 1023 bytes
      are left. */
  const MIN_USE: nat := 3073

  predicate AccountInv(h: History) {
    && h.s.usage == BLOCK_SIZE * h.standard + h.largeBytes + POINTER_SIZE * |h.s.blocks|
    && (h.standard >= 1 ==> MIN_USE * (h.standard - 1) + BLOCK_SIZE - h.s.remaining <= h.carved)
    && h.carved + h.s.remaining <= BLOCK_SIZE * h.standard
  }

  predicate Inv(h: History) {
    BlocksInv(h.s.blocks) && CurrentInv(h) && RegionsInv(h) && AccountInv(h)
  }

  lemma AccountStep(h: History, call: Call)
    requires AccountInv(h) && CurrentInv(h) && BlocksInv(h.s.blocks) && Admissible(h.s, call)
    ensures AccountInv(Record(h, call)) && CurrentInv(Record(h, call))
  {
    if !Fits(h.s, call) && !IsLarge(call) {
      WasteBound(h, call);
    }
  }

  lemma WasteBound(h: History, call: Call)
    requires CurrentInv(h) && BlocksInv(h.s.blocks) && !Fits(h.s, call) && !IsLarge(call)
    ensures h.s.remaining <= BLOCK_SIZE - MIN_USE
  {
    if h.standard > 0 {
      var end := h.s.blocks[h.current].base + BLOCK_SIZE;
      assert end % ALIGN == 0;
      assert call.AllocateAligned? ==> (h.s.ptr + Slop(h.s, call)) % ALIGN == 0;
    }
  }

  lemma BlocksStep(h: History, call: Call)
    requires BlocksInv(h.s.blocks) && Admissible(h.s, call)
    ensures BlocksInv(Next(h.s, call).blocks) && h.s.blocks <= Next(h.s, call).blocks
  {
  }

  /** An earlier region keeps its place. */
  lemma OldRegionStep(h: History, call: Call, r: Region)
    requires Inv(h) && Admissible(h.s, call) && RegionInv(h, r)
    ensures RegionInv(Record(h, call), r)
  {
  }

  lemma NewRegionStep(h: History, call: Call)
    requires Inv(h) && Admissible(h.s, call)
    ensures var h' := Record(h, call); RegionInv(h', h'.regions[|h.regions|])
  {
  }

  lemma NewRegionDisjoint(h: History, call: Call, r: Region)
    requires Inv(h) && Admissible(h.s, call) && RegionInv(h, r)
    ensures Disjoint(Record(h, call).regions[|h.regions|], r)
  {
    if !Fits(h.s, call) && r.size > 0 {
      var b := Block(call.base, if IsLarge(call) then call.bytes else BLOCK_SIZE);
      assert Apart(b, h.s.blocks[r.home]);
    } else if r.size > 0 && r.home != h.current && h.standard > 0 {
      BlocksApart(h.s.blocks, r.home, h.current);
    }
  }

  lemma BlocksApart(blocks: seq<Block>, j: nat, k: nat)
    requires BlocksInv(blocks) && j < |blocks| && k < |blocks| && j != k
    ensures Apart(blocks[j], blocks[k])
  {
    if j < k {
      assert Apart(blocks[k], blocks[j]);
    }
  }

  lemma StepInv(h: History, call: Call)
    requires Inv(h) && Admissible(h.s, call)
    ensures Inv(Record(h, call))
  {
    hide RegionInv, AccountInv, CurrentInv, BlocksInv, Disjoint, Admissible, Next;
    var h' := Record(h, call);
    AccountStep(h, call);
    BlocksStep(h, call);
    NewRegionStep(h, call);
    forall k | 0 <= k < |h.regions|
      ensures RegionInv(h', h.regions[k]) && Disjoint(h'.regions[|h.regions|], h.regions[k])
    {
      OldRegionStep(h, call, h.regions[k]);
      NewRegionDisjoint(h, call, h.regions[k]);
    }
  }

  lemma {:induction false} RunInv(h: History, calls: seq<Call>)
    requires Inv(h) && Runs(h, calls)
    ensures Inv(After(h, calls))
    decreases |calls|
  {
    hide Inv, Admissible, Record;
    if calls != [] {
      StepInv(h, calls[0]);
      RunInv(Record(h, calls[0]), calls[1..]);
    }
  }

  lemma StartInv()
    ensures Inv(START)
  {
  }

  // ---- The main statements, over any sequence of calls ----

  lemma {:induction false} OneRegionPerCall(h: History, calls: seq<Call>, k: nat)
    requires k < |calls|
    ensures |After(h, calls).regions| == |h.regions| + |calls|
    ensures var r := After(h, calls).regions[|h.regions| + k];
      r.size == calls[k].bytes && r.aligned == calls[k].AllocateAligned?
    ensures h.regions <= After(h, calls).regions
    decreases |calls|
  {
    var h' := Record(h, calls[0]);
    assert h'.regions == h.regions + [h'.regions[|h.regions|]];
    if |calls| > 1 {
      OneRegionPerCall(h', calls[1..], if k == 0 then 0 else k - 1);
    } else {
      assert After(h, calls) == h';
    }
  }

  /** The region every call returned has the size asked for, lies inside one block the arena owns, and starts
      at a multiple of eight if it was to be aligned. */
  lemma RegionsAreSound(calls: seq<Call>, k: nat)
    requires Runs(START, calls) && k < |calls|
    ensures var h := After(START, calls);
      && |h.regions| == |calls|
      && h.regions[k].size == calls[k].bytes
      && (calls[k].bytes > 0 ==> Inside(h.regions[k], h.s.blocks))
      && (calls[k].AllocateAligned? ==> h.regions[k].start % ALIGN == 0)
  {
    StartInv();
    RunInv(START, calls);
    OneRegionPerCall(START, calls, k);
    assert RegionInv(After(START, calls), After(START, calls).regions[k]);
  }

  /** No two calls of a run returned regions that overlap. */
  lemma RegionsAreDisjoint(calls: seq<Call>, j: nat, k: nat)
    requires Runs(START, calls) && j < k < |calls|
    ensures var h := After(START, calls);
      |h.regions| == |calls| && Disjoint(h.regions[k], h.regions[j])
  {
    StartInv();
    RunInv(START, calls);
    OneRegionPerCall(START, calls, k);
  }

  /** All but the current standard block are at least three quarters used, whatever mix of calls was made,
      and the reported usage is exact. */
  lemma FragmentationBound(calls: seq<Call>)
    requires Runs(START, calls)
    ensures var h := After(START, calls);
      && (h.standard >= 1 ==> (h.standard - 1) * MIN_USE <= h.carved <= h.standard * BLOCK_SIZE)
      && h.s.usage == BLOCK_SIZE * h.standard + h.largeBytes + POINTER_SIZE * |h.s.blocks|
  {
    StartInv();
    RunInv(START, calls);
  }

  /** The bound is tight: here a block is given up with exactly `MIN_USE` bytes carved from it. */
  lemma FragmentationBoundIsTight() returns (calls: seq<Call>, last: Call)
    ensures Runs(START, calls) && After(START, calls).carved == MIN_USE && After(START, calls).standard == 1
    ensures Admissible(After(START, calls).s, last) && Record(After(START, calls), last).standard == 2
  {
    hide Runs, After;
    Nothing(START);
    var h;
    calls, h := Extend([], START, Allocate(1024, 8));
    calls, h := Extend(calls, h, Allocate(1024, 0));
    calls, h := Extend(calls, h, Allocate(1024, 0));
    calls, h := Extend(calls, h, Allocate(1, 0));
    last := Allocate(1024, 8 + BLOCK_SIZE);
    assert h.s.blocks == [Block(8, BLOCK_SIZE)];
  }

  lemma Nothing(h: History)
    ensures Runs(h, []) && After(h, []) == h
  {
  }

  lemma Extend(calls: seq<Call>, h: History, call: Call) returns (longer: seq<Call>, h': History)
    requires Runs(START, calls) && After(START, calls) == h && Admissible(h.s, call)
    ensures Runs(START, longer) && After(START, longer) == h' && h' == Record(h, call)
  {
    longer, h' := calls + [call], Record(h, call);
    RunsSnoc(START, calls, call);
  }

  lemma {:induction false} RunsSnoc(h: History, calls: seq<Call>, call: Call)
    requires Runs(h, calls) && Admissible(After(h, calls).s, call)
    ensures Runs(h, calls + [call]) && After(h, calls + [call]) == Record(After(h, calls), call)
    decreases |calls|
  {
    hide Record, Admissible;
    if calls == [] {
      assert [] + [call] == [call];
      assert [call][1..] == [];
    } else {
      assert (calls + [call])[1..] == calls[1..] + [call];
      RunsSnoc(Record(h, calls[0]), calls[1..], call);
    }
  }
}
