/** The id generator of snowflake_demo/snowflake.h. Time enters as the sequence of readings of the system
    clock, in microseconds, that the calls make one after another. */
module SnowflakeModel {
  datatype State = State(epoch: int, machine: nat, lastMs: int, sequence: nat)

  function Initial(epoch: int, machine: nat): State {
    State(epoch, machine, 0, 0)
  }

  const SEQUENCES: nat := 0x1000
  const MACHINES: nat := 0x400

  /** `duration_cast` to milliseconds: division truncating toward zero. */
  function Millis(us: int): int {
    if us >= 0 then us / 1000 else -((-us) / 1000)
  }

  function Ms(s: State, us: int): int {
    Millis(us) - s.epoch
  }

  /** The start of the next millisecond, past which a call sleeps. */
  function WakeTime(us: int): int {
    (Millis(us) + 1) * 1000
  }

  // ---- The id word ----

  datatype Stamp = Stamp(ms: int, seqNo: nat)

  /** The fields of an id side by side: 41 bits of time, 10 of machine, 12 of sequence. */
  function Pack(ms: int, machine: nat, seqNo: nat): int {
    ms * 0x40_0000 + machine % MACHINES * 0x1000 + seqNo % SEQUENCES
  }

  function TimeOf(id: int): int { id / 0x40_0000 }

  function MachineOf(id: int): int { id / 0x1000 % MACHINES }

  function SequenceOf(id: int): int { id % SEQUENCES }

  // What a machine word counts.
  function Value64(w: bv64): nat { w as int }

  function Value41(w: bv41): nat { w as int }

  function Value32(w: bv32): nat { w as int }

  function Value22(w: bv22): nat { w as int }

  function Value20(w: bv20): nat { w as int }

  function Value12(w: bv12): (n: nat)
    ensures n < SEQUENCES
  {
    w as int
  }

  function Value10(w: bv10): (n: nat)
    ensures n < MACHINES
  {
    w as int
  }

  /** The id as the source puts it together: masks on the 32-bit machine and sequence words, shifts, and ORs. */
  function Word(ms: bv41, machine: bv32, sequence: bv32): bv64 {
    ((ms as bv64) << 22) | (((machine & 0x3FF) << 12) as bv64) | ((sequence & 0xFFF) as bv64)
  }

  function LowTen(w: bv32): bv10 {
    (w & 0x3FF) as bv10
  }

  function LowTwelve(w: bv32): bv12 {
    (w & 0xFFF) as bv12
  }

  lemma WordValue(ms: bv41, machine: bv32, sequence: bv32)
    ensures Value64(Word(ms, machine, sequence))
         == Value41(ms) * 0x40_0000 + Value10(LowTen(machine)) * 0x1000 + Value12(LowTwelve(sequence))
  {
  }

  lemma TwentyTwoAndTen(w: bv32, high: bv22, low: bv10)
    requires w == ((high as bv32) << 10) | (low as bv32)
    ensures Value32(w) == Value22(high) * 0x400 + Value10(low)
  {
  }

  lemma TwentyAndTwelve(w: bv32, high: bv20, low: bv12)
    requires w == ((high as bv32) << 12) | (low as bv32)
    ensures Value32(w) == Value20(high) * 0x1000 + Value12(low)
  {
  }

  lemma SplitAtTen(w: bv32)
    ensures w == (((w >> 10) as bv22 as bv32) << 10) | (LowTen(w) as bv32)
  {
  }

  lemma SplitAtTwelve(w: bv32)
    ensures w == (((w >> 12) as bv20 as bv32) << 12) | (LowTwelve(w) as bv32)
  {
  }

  /** Masking the low bits is taking the remainder. */
  lemma LowTenBits(w: bv32)
    ensures Value10(LowTen(w)) == Value32(w) % MACHINES
  {
    hide Value32, Value22, Value10;
    SplitAtTen(w);
    TwentyTwoAndTen(w, (w >> 10) as bv22, LowTen(w));
  }

  lemma LowTwelveBits(w: bv32)
    ensures Value12(LowTwelve(w)) == Value32(w) % SEQUENCES
  {
    hide Value32, Value20, Value12;
    SplitAtTwelve(w);
    TwentyAndTwelve(w, (w >> 12) as bv20, LowTwelve(w));
  }

  /** The word is the arithmetic of `Pack`: the masks are remainders, and the fields do not overlap. */
  lemma ShiftsAndOrs(ms: bv41, machine: bv32, sequence: bv32)
    ensures Value64(Word(ms, machine, sequence)) == Pack(Value41(ms), Value32(machine), Value32(sequence))
  {
    hide Value64, Value41, Value32, Value12, Value10, Word, LowTen, LowTwelve;
    WordValue(ms, machine, sequence);
    LowTenBits(machine);
    LowTwelveBits(sequence);
  }

  /** Every id decodes to the fields it was made of, and for 41-bit times it fits a non-negative `int64_t`. */
  lemma PackDecodes(ms: int, machine: nat, seqNo: nat)
    ensures var id := Pack(ms, machine, seqNo);
      && TimeOf(id) == ms && MachineOf(id) == machine % MACHINES && SequenceOf(id) == seqNo % SEQUENCES
      && (0 <= ms < 0x200_0000_0000 ==> 0 <= id < 0x8000_0000_0000_0000)
  {
    var id := Pack(ms, machine, seqNo);
    var low := machine % MACHINES * 0x1000 + seqNo % SEQUENCES;
    assert 0 <= low < 0x40_0000;
    assert id == ms * 0x40_0000 + low;
    assert id / 0x1000 == ms * MACHINES + machine % MACHINES;
  }

  // ---- One call ----

  /** The index of the first reading that is not before the last id's millisecond. */
  function FirstReady(s: State, clock: seq<int>): (i: nat)
    ensures i <= |clock|
    ensures forall k :: 0 <= k < i ==> Ms(s, clock[k]) < s.lastMs
    ensures i < |clock| ==> Ms(s, clock[i]) >= s.lastMs
  {
    if clock == [] || Ms(s, clock[0]) >= s.lastMs then 0 else 1 + FirstReady(s, clock[1..])
  }

  /** The index of the first reading past `time`. */
  function FirstPast(time: int, clock: seq<int>): (i: nat)
    ensures i <= |clock|
    ensures forall k :: 0 <= k < i ==> clock[k] <= time
    ensures i < |clock| ==> clock[i] > time
  {
    if clock == [] || clock[0] > time then 0 else 1 + FirstPast(time, clock[1..])
  }

  /** The readings after the one at index `i`. */
  function Later(clock: seq<int>, i: nat): seq<int>
    requires i < |clock|
  {
    clock[i + 1..]
  }

  /** A call that has not returned when the readings run out is waiting. */
  datatype Outcome = Waiting | Returned(s: State, stamp: Stamp, rest: seq<int>)

  /** The number a sequence counter stands for. */
  function Number(sequence: nat): nat {
    sequence % SEQUENCES
  }

  function Generate(s: State, clock: seq<int>): Outcome {
    var i := FirstReady(s, clock);
    if i == |clock| then Waiting
    else
      var ms, rest := Ms(s, clock[i]), Later(clock, i);
      if ms != s.lastMs then Returned(s.(lastMs := ms, sequence := 0), Stamp(ms, 0), rest)
      else
        var stamp := Stamp(ms, Number(s.sequence));
        if s.sequence + 1 != SEQUENCES then Returned(s.(sequence := s.sequence + 1), stamp, rest)
        else
          var j := FirstPast(WakeTime(clock[i]), rest);
          if j == |rest| then Waiting else Returned(s.(sequence := 0), stamp, Later(rest, j))
  }

  // The ways a call can go.

  lemma NotReady(s: State, clock: seq<int>)
    requires FirstReady(s, clock) == |clock|
    ensures Generate(s, clock).Waiting?
  {
    hide FirstReady, FirstPast, Later, Millis, WakeTime, Number;
  }

  lemma NewMillisecond(s: State, clock: seq<int>)
    requires FirstReady(s, clock) < |clock| && Ms(s, clock[FirstReady(s, clock)]) != s.lastMs
    ensures var i := FirstReady(s, clock); var ms := Ms(s, clock[i]);
      Generate(s, clock) == Returned(s.(lastMs := ms, sequence := 0), Stamp(ms, 0), Later(clock, i))
  {
    hide FirstReady, FirstPast, Later, Millis, WakeTime, Number;
  }

  /** In the millisecond of the call before, with another number left in it. */
  lemma NumbersLeft(s: State, clock: seq<int>)
    requires FirstReady(s, clock) < |clock| && Ms(s, clock[FirstReady(s, clock)]) == s.lastMs
    requires s.sequence + 1 != SEQUENCES
    ensures Generate(s, clock)
         == Returned(s.(sequence := s.sequence + 1), Stamp(s.lastMs, Number(s.sequence)),
                     Later(clock, FirstReady(s, clock)))
  {
    hide FirstReady, FirstPast, Later, Millis, WakeTime, Number;
  }

  /** The last number of a millisecond: the call sleeps. */
  lemma LastNumber(s: State, clock: seq<int>)
    requires FirstReady(s, clock) < |clock| && Ms(s, clock[FirstReady(s, clock)]) == s.lastMs
    requires s.sequence + 1 == SEQUENCES
    ensures var i := FirstReady(s, clock); var rest := Later(clock, i);
      var j := FirstPast(WakeTime(clock[i]), rest);
      Generate(s, clock)
        == if j == |rest| then Waiting else Returned(s.(sequence := 0), Stamp(s.lastMs, s.sequence), Later(rest, j))
  {
    hide FirstReady, FirstPast, Later, Millis, WakeTime;
  }

  lemma GenerateConsumes(s: State, clock: seq<int>)
    ensures var r := Generate(s, clock); r.Returned? ==> |r.rest| < |clock|
  {
  }

  /** The stamps of all calls that return while the clock is read as given. */
  function Stamps(s: State, clock: seq<int>): seq<Stamp>
    decreases |clock|
  {
    GenerateConsumes(s, clock);
    match Generate(s, clock)
    case Waiting => []
    case Returned(s', stamp, rest) => [stamp] + Stamps(s', rest)
  }

  function Ids(machine: nat, stamps: seq<Stamp>): (ids: seq<int>)
    ensures |ids| == |stamps|
    ensures forall i :: 0 <= i < |ids| ==> ids[i] == Pack(stamps[i].ms, machine, stamps[i].seqNo)
  {
    seq(|stamps|, i requires 0 <= i < |stamps| => Pack(stamps[i].ms, machine, stamps[i].seqNo))
  }

  predicate NonDecreasing(clock: seq<int>) {
    forall i, j :: 0 <= i < j < |clock| ==> clock[i] <= clock[j]
  }

  // ---- The law of the stamps ----

  /** Whether a call took the branch for a new millisecond, given the millisecond of the call before. */
  predicate Entered(lastMs: int, stamp: Stamp) {
    stamp.ms != lastMs
  }

  /** What comes after `p`: a later millisecond starts again at zero; within one millisecond numbers count up,
      except that the number of the call that entered it, zero, comes twice. */
  predicate Successor(p: Stamp, entered: bool, q: Stamp) {
    if q.ms == p.ms then q.seqNo == (if entered then 0 else p.seqNo + 1) && q.seqNo < SEQUENCES
    else q.ms > p.ms && q.seqNo == 0
  }

  predicate Law(p: Stamp, entered: bool, stamps: seq<Stamp>)
    decreases |stamps|
  {
    stamps == [] ||
    (Successor(p, entered, stamps[0]) && Law(stamps[0], Entered(p.ms, stamps[0]), stamps[1..]))
  }

  /** The state between calls, given the stamp returned last: after the last number of a millisecond no
      reading to come lies in it. */
  predicate Between(s: State, p: Stamp, entered: bool, clock: seq<int>) {
    && p.ms == s.lastMs && p.seqNo < SEQUENCES && (entered ==> p.seqNo == 0)
    && s.sequence == (if entered then 0 else (p.seqNo + 1) % SEQUENCES)
    && NonDecreasing(clock)
    && (forall k :: 0 <= k < |clock| ==> Ms(s, clock[k]) >= s.lastMs)
    && (p.seqNo == SEQUENCES - 1 ==> forall k :: 0 <= k < |clock| ==> Ms(s, clock[k]) > s.lastMs)
  }

  lemma MillisMonotone(a: int, b: int)
    requires a <= b
    ensures Millis(a) <= Millis(b)
  {
  }

  lemma MillisPast(a: int, b: int)
    requires b > WakeTime(a)
    ensures Millis(b) > Millis(a)
  {
  }

  /** The readings after a cut are in order, and none lies in an earlier millisecond than the one before. */
  lemma LaterReadings(s: State, clock: seq<int>, d: nat)
    requires NonDecreasing(clock) && 1 <= d <= |clock|
    ensures NonDecreasing(clock[d..])
    ensures forall k :: 0 <= k < |clock[d..]| ==> Ms(s, clock[d..][k]) >= Ms(s, clock[d - 1]) >= Ms(s, clock[0])
  {
    MillisMonotone(clock[0], clock[d - 1]);
    forall k | 0 <= k < |clock[d..]| ensures Ms(s, clock[d..][k]) >= Ms(s, clock[d - 1]) {
      assert clock[d..][k] == clock[d + k];
      MillisMonotone(clock[d - 1], clock[d + k]);
    }
  }

  /** How many readings a returning call takes, with a clock that is past the last millisecond. */
  lemma CallReads(s: State, clock: seq<int>) returns (d: nat)
    requires Generate(s, clock).Returned? && clock != [] && Ms(s, clock[0]) >= s.lastMs && s.sequence < SEQUENCES
    ensures var r := Generate(s, clock);
      && 1 <= d <= |clock| && r.rest == clock[d..]
      && r.s.lastMs == r.stamp.ms == Ms(s, clock[0]) && r.s.epoch == s.epoch
      && (r.stamp.ms != s.lastMs ==> r.stamp.seqNo == 0 && r.s.sequence == 0)
      && (r.stamp.ms == s.lastMs ==>
            r.stamp.seqNo == s.sequence && r.s.sequence == (s.sequence + 1) % SEQUENCES)
      && (r.stamp.ms == s.lastMs && s.sequence == SEQUENCES - 1 ==> Ms(s, clock[d - 1]) > r.stamp.ms)
  {
    assert FirstReady(s, clock) == 0;
    var r := Generate(s, clock);
    d := |clock| - |r.rest|;
    if r.stamp.ms == s.lastMs && s.sequence == SEQUENCES - 1 {
      assert clock[d - 1] == clock[1..][d - 2];
      MillisPast(clock[0], clock[d - 1]);
    }
  }

  lemma BetweenStep(s: State, p: Stamp, entered: bool, clock: seq<int>)
    requires Between(s, p, entered, clock) && Generate(s, clock).Returned?
    ensures var r := Generate(s, clock);
      Successor(p, entered, r.stamp) && Between(r.s, r.stamp, Entered(p.ms, r.stamp), r.rest)
  {
    hide Generate, Millis, FirstReady;
    NoReadings(s);
    var d := CallReads(s, clock);
    LaterReadings(s, clock, d);
  }

  lemma NoReadings(s: State)
    ensures Generate(s, []).Waiting?
  {
  }

  lemma {:induction false} LawHolds(s: State, p: Stamp, entered: bool, clock: seq<int>)
    requires Between(s, p, entered, clock)
    ensures Law(p, entered, Stamps(s, clock))
    decreases |clock|
  {
    hide Between, Generate;
    GenerateConsumes(s, clock);
    var r := Generate(s, clock);
    if r.Returned? {
      BetweenStep(s, p, entered, clock);
      LawHolds(r.s, r.stamp, Entered(p.ms, r.stamp), r.rest);
      assert Stamps(s, clock)[1..] == Stamps(r.s, r.rest);
    }
  }

  /** A run: the calls from the start on, with a clock that never goes back and starts no earlier than the
      epoch. */
  predicate Orderly(epoch: int, clock: seq<int>) {
    NonDecreasing(clock) && forall k :: 0 <= k < |clock| ==> Millis(clock[k]) >= epoch
  }

  /** The untouched generator behaves as if it had just entered millisecond zero. */
  const ORIGIN: Stamp := Stamp(0, 0)

  lemma RunLaw(epoch: int, machine: nat, clock: seq<int>)
    requires Orderly(epoch, clock)
    ensures Law(ORIGIN, true, Stamps(Initial(epoch, machine), clock))
  {
    LawHolds(Initial(epoch, machine), ORIGIN, true, clock);
  }

  // ---- Order and uniqueness ----

  predicate Less(p: Stamp, q: Stamp) {
    p.ms < q.ms || (p.ms == q.ms && p.seqNo < q.seqNo)
  }

  predicate EnteredAt(stamps: seq<Stamp>, i: nat)
    requires i < |stamps|
  {
    Entered(if i == 0 then ORIGIN.ms else stamps[i - 1].ms, stamps[i])
  }

  /** Against what came before, a stamp is later, unless it repeats the call that entered its millisecond. */
  lemma {:induction false} LawOrders(p: Stamp, entered: bool, stamps: seq<Stamp>, j: nat)
    requires Law(p, entered, stamps) && j < |stamps| && (entered ==> p.seqNo == 0)
    ensures if j == 0 && entered && stamps[0].ms == p.ms then stamps[0] == p else Less(p, stamps[j])
    ensures stamps[j].seqNo < SEQUENCES
    decreases j
  {
    if j > 0 {
      LawOrders(stamps[0], Entered(p.ms, stamps[0]), stamps[1..], j - 1);
    }
  }

  lemma {:induction false} LawSuffix(p: Stamp, entered: bool, stamps: seq<Stamp>, i: nat)
    requires Law(p, entered, stamps) && i < |stamps| && (entered ==> p.seqNo == 0)
    ensures var before := if i == 0 then p.ms else stamps[i - 1].ms;
      && Law(stamps[i], Entered(before, stamps[i]), stamps[i + 1..])
      && (Entered(before, stamps[i]) ==> stamps[i].seqNo == 0)
    decreases i
  {
    if i > 0 {
      LawSuffix(stamps[0], Entered(p.ms, stamps[0]), stamps[1..], i - 1);
      assert stamps[1..][i..] == stamps[i + 1..];
    }
  }

  lemma PackOrder(p: Stamp, q: Stamp, machine: nat)
    requires p.seqNo < SEQUENCES && q.seqNo < SEQUENCES
    ensures Less(p, q) ==> Pack(p.ms, machine, p.seqNo) < Pack(q.ms, machine, q.seqNo)
    ensures p == q ==> Pack(p.ms, machine, p.seqNo) == Pack(q.ms, machine, q.seqNo)
  {
    if p.ms < q.ms {
      assert q.ms * 0x40_0000 >= p.ms * 0x40_0000 + 0x40_0000;
    }
  }

  /** Ids never decrease, and exactly this makes two of them equal: the first is of the call that entered a
      new millisecond, and the second of the call right after it, in the same millisecond. */
  lemma DuplicatesExactly(epoch: int, machine: nat, clock: seq<int>, i: nat, j: nat)
    requires Orderly(epoch, clock)
    requires i < j < |Stamps(Initial(epoch, machine), clock)|
    ensures var stamps := Stamps(Initial(epoch, machine), clock); var ids := Ids(machine, stamps);
      && ids[i] <= ids[j]
      && (ids[i] == ids[j] <==> j == i + 1 && EnteredAt(stamps, i) && stamps[j].ms == stamps[i].ms)
      && (ids[i] == ids[j] ==> SequenceOf(ids[i]) == 0)
  {
    hide Pack, TimeOf, MachineOf, SequenceOf, Stamps, Orderly, Law;
    var stamps := Stamps(Initial(epoch, machine), clock);
    RunLaw(epoch, machine, clock);
    LawSuffix(ORIGIN, true, stamps, i);
    LawOrders(ORIGIN, true, stamps, i);
    LawOrders(stamps[i], EnteredAt(stamps, i), stamps[i + 1..], j - i - 1);
    assert stamps[i + 1..][j - i - 1] == stamps[j];
    PackOrder(stamps[i], stamps[j], machine);
    PackDecodes(stamps[i].ms, machine, stamps[i].seqNo);
  }

  /** No id is returned three times. */
  lemma NeverThreeEqual(epoch: int, machine: nat, clock: seq<int>, i: nat, j: nat, k: nat)
    requires Orderly(epoch, clock)
    requires i < j < k < |Stamps(Initial(epoch, machine), clock)|
    ensures var ids := Ids(machine, Stamps(Initial(epoch, machine), clock)); !(ids[i] == ids[j] == ids[k])
  {
    DuplicatesExactly(epoch, machine, clock, i, j);
    DuplicatesExactly(epoch, machine, clock, i, k);
  }

  // ---- When ids are unique, said of the clock ----

  /** The call at index `i` entered a millisecond, and the next call returned in the same one. */
  predicate RepeatedAt(lastMs: int, stamps: seq<Stamp>, i: int)
    requires 0 <= i < |stamps|
  {
    && Entered(if i == 0 then lastMs else stamps[i - 1].ms, stamps[i])
    && i + 1 < |stamps| && stamps[i + 1].ms == stamps[i].ms
  }

  predicate Repeats(lastMs: int, stamps: seq<Stamp>) {
    exists i :: 0 <= i < |stamps| && RepeatedAt(lastMs, stamps, i)
  }

  lemma UniqueByStamps(epoch: int, machine: nat, clock: seq<int>)
    requires Orderly(epoch, clock)
    ensures var stamps := Stamps(Initial(epoch, machine), clock); var ids := Ids(machine, stamps);
      (forall i, j :: 0 <= i < j < |ids| ==> ids[i] != ids[j]) <==> !Repeats(ORIGIN.ms, stamps)
  {
    hide Pack, Stamps, Orderly;
    var stamps := Stamps(Initial(epoch, machine), clock);
    var ids := Ids(machine, stamps);
    forall i, j | 0 <= i < j < |ids|
      ensures ids[i] == ids[j] <==> j == i + 1 && RepeatedAt(ORIGIN.ms, stamps, i)
    {
      DuplicatesExactly(epoch, machine, clock, i, j);
    }
    if i :| 0 <= i < |stamps| && RepeatedAt(ORIGIN.ms, stamps, i) {
      assert ids[i] == ids[i + 1];
    }
  }

  lemma RepeatsFirst(lastMs: int, first: Stamp, stamps: seq<Stamp>)
    ensures Repeats(lastMs, [first] + stamps) <==>
      (Entered(lastMs, first) && stamps != [] && stamps[0].ms == first.ms) || Repeats(first.ms, stamps)
  {
    var all := [first] + stamps;
    if i :| 0 <= i < |all| && RepeatedAt(lastMs, all, i) {
      if i > 0 {
        assert RepeatedAt(first.ms, stamps, i - 1);
      }
    }
    if Entered(lastMs, first) && stamps != [] && stamps[0].ms == first.ms {
      assert RepeatedAt(lastMs, all, 0);
    } else if i :| 0 <= i < |stamps| && RepeatedAt(first.ms, stamps, i) {
      assert RepeatedAt(lastMs, all, i + 1);
    }
  }

  /** No two readings lie in one millisecond. */
  predicate StrictlyLater(clock: seq<int>) {
    forall k :: 0 <= k < |clock| - 1 ==> Millis(clock[k]) < Millis(clock[k + 1])
  }

  lemma StrictlyLaterFirst(clock: seq<int>)
    requires |clock| > 1
    ensures StrictlyLater(clock) <==> Millis(clock[0]) < Millis(clock[1]) && StrictlyLater(clock[1..])
  {
    hide Millis;
    if Millis(clock[0]) < Millis(clock[1]) && StrictlyLater(clock[1..]) {
      forall k | 0 <= k < |clock| - 1 ensures Millis(clock[k]) < Millis(clock[k + 1]) {
        assert k > 0 ==> clock[k] == clock[1..][k - 1] && clock[k + 1] == clock[1..][k];
      }
    }
    if StrictlyLater(clock) {
      forall k | 0 <= k < |clock[1..]| - 1 ensures Millis(clock[1..][k]) < Millis(clock[1..][k + 1]) {
        assert clock[1..][k] == clock[k + 1] && clock[1..][k + 1] == clock[k + 2];
      }
    }
  }

  lemma EnteringCall(s: State, clock: seq<int>)
    requires clock != [] && Ms(s, clock[0]) > s.lastMs
    ensures var ms := Ms(s, clock[0]); var s' := s.(lastMs := ms, sequence := 0);
      && Generate(s, clock) == Returned(s', Stamp(ms, 0), clock[1..])
      && Stamps(s, clock) == [Stamp(ms, 0)] + Stamps(s', clock[1..])
  {
    hide Millis, Generate;
    assert FirstReady(s, clock) == 0;
    NewMillisecond(s, clock);
  }

  /** A call in the millisecond of the one before, not the last one that has a number there. */
  lemma CountingCall(s: State, clock: seq<int>)
    requires clock != [] && Ms(s, clock[0]) == s.lastMs && s.sequence + 1 < SEQUENCES
    ensures var s' := s.(sequence := s.sequence + 1);
      && Generate(s, clock) == Returned(s', Stamp(s.lastMs, s.sequence), clock[1..])
      && Stamps(s, clock) == [Stamp(s.lastMs, s.sequence)] + Stamps(s', clock[1..])
  {
    hide Millis, Generate;
    assert FirstReady(s, clock) == 0;
    NumbersLeft(s, clock);
  }

  /** Past the last millisecond, a run repeats an id if and only if two readings lie in one millisecond. */
  lemma {:induction false} RepeatsPast(s: State, clock: seq<int>)
    requires NonDecreasing(clock) && (clock != [] ==> Ms(s, clock[0]) > s.lastMs)
    ensures Repeats(s.lastMs, Stamps(s, clock)) <==> !StrictlyLater(clock)
    decreases |clock|
  {
    hide Generate, FirstReady, Millis, Repeats, StrictlyLater, Stamps;
    if clock == [] {
      NothingRead(s);
    } else {
      EnteringCall(s, clock);
      var ms, rest := Ms(s, clock[0]), clock[1..];
      var s' := s.(lastMs := ms, sequence := 0);
      RepeatsFirst(s.lastMs, Stamp(ms, 0), Stamps(s', rest));
      if rest == [] {
        NothingRead(s');
        OneReading(clock);
      } else {
        MillisMonotone(clock[0], clock[1]);
        StrictlyLaterFirst(clock);
        if Ms(s', rest[0]) == ms {
          CountingCall(s', rest);
        } else {
          EnteringCall(s', rest);
          RepeatsPast(s', rest);
        }
      }
    }
  }

  lemma NothingRead(s: State)
    ensures Stamps(s, []) == [] && !Repeats(s.lastMs, []) && StrictlyLater([])
  {
  }

  lemma OneReading(clock: seq<int>)
    requires |clock| == 1
    ensures StrictlyLater(clock)
  {
  }

  /** The readings left when the calls in the epoch's own millisecond have returned, the first of which takes
      number `seqNo`. In it numbers start at zero without its being entered; the call that takes the last number
      sleeps. */
  function PastEpoch(epoch: int, seqNo: nat, clock: seq<int>): seq<int>
    decreases |clock|
  {
    if clock == [] || Millis(clock[0]) != epoch then clock
    else if seqNo + 1 < SEQUENCES then PastEpoch(epoch, seqNo + 1, clock[1..])
    else
      var j := FirstPast(WakeTime(clock[0]), clock[1..]);
      if j == |clock[1..]| then [] else clock[1..][j + 1..]
  }

  lemma {:induction false} RepeatsFromEpoch(s: State, clock: seq<int>)
    requires Orderly(s.epoch, clock) && s.lastMs == 0 && s.sequence < SEQUENCES
    ensures Repeats(0, Stamps(s, clock)) <==> !StrictlyLater(PastEpoch(s.epoch, s.sequence, clock))
    decreases |clock|
  {
    hide Generate, FirstReady, Millis, Repeats, StrictlyLater, Stamps;
    if clock == [] || Ms(s, clock[0]) > 0 {
      RepeatsPast(s, clock);
    } else if s.sequence + 1 < SEQUENCES {
      CountingCall(s, clock);
      var s' := s.(sequence := s.sequence + 1);
      RepeatsFirst(0, Stamp(0, s.sequence), Stamps(s', clock[1..]));
      RepeatsFromEpoch(s', clock[1..]);
    } else {
      RepeatsAfterSleep(s, clock);
    }
  }

  lemma SleepingCall(s: State, clock: seq<int>)
    requires clock != [] && Ms(s, clock[0]) == s.lastMs && s.sequence + 1 == SEQUENCES
    ensures var rest := clock[1..]; var j := FirstPast(WakeTime(clock[0]), rest);
      Stamps(s, clock) == if j == |rest| then [] else
        [Stamp(s.lastMs, s.sequence)] + Stamps(s.(sequence := 0), rest[j + 1..])
  {
    hide Millis, FirstPast, Generate;
    assert FirstReady(s, clock) == 0;
    LastNumber(s, clock);
  }

  lemma RepeatsAfterSleep(s: State, clock: seq<int>)
    requires Orderly(s.epoch, clock) && s.lastMs == 0 && s.sequence + 1 == SEQUENCES
    requires clock != [] && Ms(s, clock[0]) == 0
    ensures Repeats(0, Stamps(s, clock)) <==> !StrictlyLater(PastEpoch(s.epoch, s.sequence, clock))
  {
    hide Generate, FirstReady, FirstPast, Millis, Repeats, StrictlyLater, Stamps;
    SleepingCall(s, clock);
    var rest := clock[1..];
    var j := FirstPast(WakeTime(clock[0]), rest);
    if j == |rest| {
      NothingRead(s);
    } else {
      var s', left := s.(sequence := 0), rest[j + 1..];
      MillisPast(clock[0], rest[j]);
      if left != [] {
        MillisMonotone(rest[j], left[0]);
      }
      RepeatsFirst(0, Stamp(0, s.sequence), Stamps(s', left));
      RepeatsPast(s', left);
    }
  }

  /** So the generator's purpose, unique ids, is met if and only if, past the epoch's own millisecond, no two
      readings of the clock lie in one millisecond. */
  lemma UniqueExactlyWhen(epoch: int, machine: nat, clock: seq<int>)
    requires Orderly(epoch, clock)
    ensures var ids := Ids(machine, Stamps(Initial(epoch, machine), clock));
      (forall i, j :: 0 <= i < j < |ids| ==> ids[i] != ids[j]) <==> StrictlyLater(PastEpoch(epoch, 0, clock))
  {
    hide Orderly, Stamps, Pack, Repeats, StrictlyLater, PastEpoch;
    UniqueByStamps(epoch, machine, clock);
    RepeatsFromEpoch(Initial(epoch, machine), clock);
  }

  /** With an epoch in the past: if and only if there is at most one call per millisecond, so that sequence
      numbers never help. */
  lemma OneCallPerMillisecond(epoch: int, machine: nat, clock: seq<int>)
    requires NonDecreasing(clock) && forall k :: 0 <= k < |clock| ==> Millis(clock[k]) > epoch
    ensures var ids := Ids(machine, Stamps(Initial(epoch, machine), clock));
      (forall i, j :: 0 <= i < j < |ids| ==> ids[i] != ids[j]) <==>
      (forall k :: 0 <= k < |clock| - 1 ==> Millis(clock[k]) < Millis(clock[k + 1]))
  {
    hide Stamps, Pack, Millis;
    UniqueExactlyWhen(epoch, machine, clock);
  }

  /** Two calls in the first millisecond after the epoch get the same id. */
  lemma DuplicateExample(machine: nat)
    ensures var ids := Ids(machine, Stamps(Initial(0, machine), [1000, 1001])); |ids| == 2 && ids[0] == ids[1]
  {
    var s := Initial(0, machine);
    assert FirstReady(s, [1000, 1001]) == 0;
    var t := s.(lastMs := 1, sequence := 0);
    assert [1000, 1001][1..] == [1001];
    assert Generate(s, [1000, 1001]) == Returned(t, Stamp(1, 0), [1001]);
    assert FirstReady(t, [1001]) == 0;
    assert [1001][1..] == [];
    assert Generate(t, [1001]) == Returned(t.(sequence := 1), Stamp(1, 0), []);
    assert Stamps(t.(sequence := 1), []) == [];
    assert Stamps(t, [1001]) == [Stamp(1, 0)];
    assert Stamps(s, [1000, 1001]) == [Stamp(1, 0), Stamp(1, 0)];
  }

  /** Every id decodes to its call's millisecond, the machine's low ten bits and its sequence number. */
  lemma IdsDecode(epoch: int, machine: nat, clock: seq<int>, i: nat)
    requires Orderly(epoch, clock) && i < |Stamps(Initial(epoch, machine), clock)|
    ensures var stamps := Stamps(Initial(epoch, machine), clock); var id := Ids(machine, stamps)[i];
      && TimeOf(id) == stamps[i].ms && MachineOf(id) == machine % MACHINES && SequenceOf(id) == stamps[i].seqNo
      && (stamps[i].ms < 0x200_0000_0000 ==> 0 <= id < 0x8000_0000_0000_0000)
  {
    hide Pack, TimeOf, MachineOf, SequenceOf, Stamps, Orderly, Law;
    var stamps := Stamps(Initial(epoch, machine), clock);
    RunLaw(epoch, machine, clock);
    LawOrders(ORIGIN, true, stamps, i);
    PackDecodes(stamps[i].ms, machine, stamps[i].seqNo);
  }

  // ---- Without trusting the clock ----

  /** Whatever the clock does, going back included, no call returns an earlier millisecond than one before. */
  lemma {:induction false} TimeNeverGoesBack(s: State, clock: seq<int>, i: nat)
    requires i < |Stamps(s, clock)|
    ensures Stamps(s, clock)[i].ms >= s.lastMs
    ensures forall j :: i < j < |Stamps(s, clock)| ==> Stamps(s, clock)[i].ms <= Stamps(s, clock)[j].ms
    decreases i
  {
    hide Millis, WakeTime, FirstPast, FirstReady;
    GenerateConsumes(s, clock);
    var r := Generate(s, clock);
    assert r.s.lastMs == r.stamp.ms;
    if i > 0 {
      TimeNeverGoesBack(r.s, r.rest, i - 1);
    } else {
      forall j | 0 < j < |Stamps(s, clock)| ensures r.stamp.ms <= Stamps(s, clock)[j].ms {
        StampsFrom(r.s, r.rest, j - 1);
      }
    }
  }

  lemma {:induction false} StampsFrom(s: State, clock: seq<int>, i: nat)
    requires i < |Stamps(s, clock)|
    ensures Stamps(s, clock)[i].ms >= s.lastMs
    decreases i
  {
    hide Millis, WakeTime, FirstPast, FirstReady;
    GenerateConsumes(s, clock);
    var r := Generate(s, clock);
    if i > 0 {
      StampsFrom(r.s, r.rest, i - 1);
    }
  }
}
