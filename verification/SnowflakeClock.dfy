/** The ids of a run told by the clock readings alone: which reading each id carries, and, as long as no
    millisecond runs out of numbers, every id in closed form. */
module SnowflakeClock {
  import opened SnowflakeModel

  /** Whole milliseconds, truncated toward zero. */
  lemma MillisTruncates(us: int)
    ensures us >= 0 ==> Millis(us) == us / 1000
    ensures us >= 0 ==> 1000 * Millis(us) <= us < 1000 * Millis(us) + 1000
    ensures us < 0 ==> 1000 * Millis(us) - 1000 < us <= 1000 * Millis(us) <= 0
  {
  }

  // ---- Which readings a call takes ----

  /** A call that reads from index `from` on, after one that returned `last`: it passes over readings before
      that millisecond, returns the millisecond of the reading at `at`, and leaves the readings from `next` on.
      These are the following ones, unless it took the last number: then it slept until the reading before
      `next`, the first that is past the start of the next millisecond. */
  predicate Took(epoch: int, last: int, clock: seq<int>, from: nat, at: nat, next: nat, ms: int, seqNo: int) {
    && from <= at < next <= |clock|
    && (forall i :: from <= i < at ==> Millis(clock[i]) - epoch < last)
    && ms == Millis(clock[at]) - epoch >= last
    && if seqNo != 0xFFF then next == at + 1
       else at + 1 < next && clock[next - 1] > (Millis(clock[at]) + 1) * 1000
            && forall i :: at < i < next - 1 ==> clock[i] <= (Millis(clock[at]) + 1) * 1000
  }

  /** A call that is still waiting: for the clock to catch up, or, from the reading at `at` on, asleep with the
      last number. */
  predicate StuckAt(epoch: int, last: int, clock: seq<int>, from: nat, lastNumber: bool, at: nat) {
    && from <= at <= |clock|
    && (forall i :: from <= i < at ==> Millis(clock[i]) - epoch < last)
    && (at < |clock| ==>
          && lastNumber && Millis(clock[at]) - epoch == last
          && forall i :: at < i < |clock| ==> clock[i] <= (Millis(clock[at]) + 1) * 1000)
  }

  /** A call's own readings start at index 0; as part of a run they start at `from`. */
  lemma Shifted(s: State, clock: seq<int>, from: nat) returns (at: nat)
    requires from <= |clock|
    ensures at == from + FirstReady(s, clock[from..]) <= |clock|
    ensures forall i :: from <= i < at ==> Millis(clock[i]) - s.epoch < s.lastMs
    ensures at < |clock| ==>
      && clock[from..][at - from] == clock[at] && Later(clock[from..], at - from) == clock[at + 1..]
      && Millis(clock[at]) - s.epoch >= s.lastMs
  {
    hide Millis;
    var left := clock[from..];
    at := from + FirstReady(s, left);
    forall i | from <= i < at ensures Millis(clock[i]) - s.epoch < s.lastMs {
      assert clock[i] == left[i - from] && Ms(s, left[i - from]) < s.lastMs;
    }
  }

  /** The same for the readings of a sleeping call. */
  lemma ShiftedSleep(time: int, clock: seq<int>, at: nat) returns (end: nat)
    requires at < |clock|
    ensures end == at + 1 + FirstPast(time, clock[at + 1..]) <= |clock|
    ensures forall i :: at < i < end ==> clock[i] <= time
    ensures end < |clock| ==> clock[end] > time && Later(clock[at + 1..], end - (at + 1)) == clock[end + 1..]
  {
    var rest := clock[at + 1..];
    end := at + 1 + FirstPast(time, rest);
    forall i | at < i < end ensures clock[i] <= time {
      assert clock[i] == rest[i - (at + 1)];
    }
    if end < |clock| {
      assert clock[end] == rest[end - (at + 1)];
    }
  }

  lemma OneCall(s: State, clock: seq<int>, from: nat) returns (at: nat, next: nat)
    requires from <= |clock| && s.sequence < SEQUENCES && Generate(s, clock[from..]).Returned?
    ensures var r := Generate(s, clock[from..]);
      && Took(s.epoch, s.lastMs, clock, from, at, next, r.stamp.ms, r.stamp.seqNo)
      && r.rest == clock[next..] && r.s.epoch == s.epoch && r.s.lastMs == r.stamp.ms
      && r.s.sequence < SEQUENCES && r.stamp.seqNo < SEQUENCES
      && from < next <= |clock|
      && (r.s.sequence == 0xFFF <==> r.stamp.seqNo == 0xFFE)
  {
    hide Generate, FirstReady, FirstPast, Later, Millis;
    var left := clock[from..];
    at := Shifted(s, clock, from);
    next := at + 1;
    if at == |clock| {
      NotReady(s, left);
    } else if Ms(s, clock[at]) != s.lastMs {
      NewMillisecond(s, left);
    } else if s.sequence + 1 != SEQUENCES {
      NumbersLeft(s, left);
    } else {
      LastNumber(s, left);
      var end := ShiftedSleep(WakeTime(clock[at]), clock, at);
      next := end + 1;
    }
  }

  lemma OneCallStuck(s: State, clock: seq<int>, from: nat) returns (at: nat)
    requires from <= |clock| && s.sequence < SEQUENCES && Generate(s, clock[from..]).Waiting?
    ensures StuckAt(s.epoch, s.lastMs, clock, from, s.sequence == 0xFFF, at)
  {
    hide Generate, FirstReady, FirstPast, Later, Millis;
    var left := clock[from..];
    at := Shifted(s, clock, from);
    if at < |clock| {
      if Ms(s, clock[at]) != s.lastMs {
        NewMillisecond(s, left);
      } else if s.sequence + 1 != SEQUENCES {
        NumbersLeft(s, left);
      } else {
        LastNumber(s, left);
        var end := ShiftedSleep(WakeTime(clock[at]), clock, at);
      }
    }
  }

  /** Call number `k` of a run: `at[k]` is the index of the reading it returns, `next[k]` of the first reading of
      the call after it. */
  predicate TookAt(epoch: int, last: int, clock: seq<int>, from: nat, stamps: seq<Stamp>,
                   at: seq<nat>, next: seq<nat>, k: int)
    requires 0 <= k < |stamps| == |at| == |next|
  {
    Took(epoch, if k == 0 then last else stamps[k - 1].ms, clock, if k == 0 then from else next[k - 1],
         at[k], next[k], stamps[k].ms, stamps[k].seqNo)
  }

  predicate RunTook(epoch: int, last: int, clock: seq<int>, from: nat, stamps: seq<Stamp>,
                    at: seq<nat>, next: seq<nat>) {
    |at| == |next| == |stamps| &&
    forall k :: 0 <= k < |stamps| ==> TookAt(epoch, last, clock, from, stamps, at, next, k)
  }

  lemma RunTookCons(epoch: int, last: int, clock: seq<int>, from: nat, first: Stamp, stamps: seq<Stamp>,
                    at0: nat, at: seq<nat>, next0: nat, next: seq<nat>)
    requires Took(epoch, last, clock, from, at0, next0, first.ms, first.seqNo)
    requires RunTook(epoch, first.ms, clock, next0, stamps, at, next)
    ensures RunTook(epoch, last, clock, from, [first] + stamps, [at0] + at, [next0] + next)
  {
    hide Took;
    forall k | 0 <= k < |[first] + stamps|
      ensures TookAt(epoch, last, clock, from, [first] + stamps, [at0] + at, [next0] + next, k)
    {
      if k > 0 {
        assert TookAt(epoch, first.ms, clock, next0, stamps, at, next, k - 1);
      }
    }
  }

  lemma {:induction false} StampsTook(s: State, clock: seq<int>, from: nat)
    returns (at: seq<nat>, next: seq<nat>, waiting: nat)
    requires from <= |clock| && s.sequence < SEQUENCES
    ensures var stamps := Stamps(s, clock[from..]); var n := |stamps|;
      && RunTook(s.epoch, s.lastMs, clock, from, stamps, at, next)
      && (forall k :: 0 <= k < n ==> stamps[k].seqNo < SEQUENCES)
      && StuckAt(s.epoch, if n == 0 then s.lastMs else stamps[n - 1].ms, clock, if n == 0 then from else next[n - 1],
                 if n == 0 then s.sequence == 0xFFF else stamps[n - 1].seqNo == 0xFFE, waiting)
    decreases |clock| - from
  {
    hide Generate, Took, StuckAt, TookAt;
    var r := Generate(s, clock[from..]);
    if r.Waiting? {
      at, next := [], [];
      waiting := OneCallStuck(s, clock, from);
    } else {
      var at0, next0 := OneCall(s, clock, from);
      at, next, waiting := StampsTook(r.s, clock, next0);
      var rest := Stamps(r.s, clock[next0..]);
      assert Stamps(s, clock[from..]) == [r.stamp] + rest;
      hide Stamps;
      RunTookCons(s.epoch, s.lastMs, clock, from, r.stamp, rest, at0, at, next0, next);
      at, next := [at0] + at, [next0] + next;
    }
  }

  /** The time and the sequence number each id decodes to. */
  function Decoded(ids: seq<int>): (stamps: seq<Stamp>)
    ensures |stamps| == |ids|
    ensures forall k :: 0 <= k < |ids| ==> stamps[k] == Stamp(TimeOf(ids[k]), SequenceOf(ids[k]))
  {
    seq(|ids|, k requires 0 <= k < |ids| => Stamp(TimeOf(ids[k]), SequenceOf(ids[k])))
  }

  lemma IdsDecodeToStamps(machine: nat, stamps: seq<Stamp>)
    requires forall k :: 0 <= k < |stamps| ==> stamps[k].seqNo < SEQUENCES
    ensures Decoded(Ids(machine, stamps)) == stamps
  {
    hide Pack, TimeOf, SequenceOf, MachineOf;
    forall k | 0 <= k < |stamps| ensures Decoded(Ids(machine, stamps))[k] == stamps[k] {
      PackDecodes(stamps[k].ms, machine, stamps[k].seqNo);
    }
  }

  /** Every id of a run carries the millisecond, counted from the epoch, of one of its call's own readings,
      whatever the clock does: the first that is not before the millisecond of the id before. Readings are taken
      in order, and none is skipped but by waiting for the clock or by sleeping on the last number; a call that
      has not returned is doing one of these. */
  lemma TimesAreReadings(epoch: int, machine: nat, clock: seq<int>)
    returns (at: seq<nat>, next: seq<nat>, waiting: nat)
    ensures var ids := Decoded(Ids(machine, Stamps(Initial(epoch, machine), clock))); var n := |ids|;
      && RunTook(epoch, 0, clock, 0, ids, at, next)
      && StuckAt(epoch, if n == 0 then 0 else ids[n - 1].ms, clock, if n == 0 then 0 else next[n - 1],
                 n > 0 && ids[n - 1].seqNo == 0xFFE, waiting)
  {
    hide TookAt, StuckAt, Stamps, Ids, Decoded;
    assert clock[0..] == clock;
    at, next, waiting := StampsTook(Initial(epoch, machine), clock, 0);
    IdsDecodeToStamps(machine, Stamps(Initial(epoch, machine), clock));
  }

  // ---- The ids in closed form ----

  /** How many readings in a row before number `k` lie in its millisecond. */
  function Position(clock: seq<int>, k: nat): nat
    requires k < |clock|
  {
    if k > 0 && Millis(clock[k]) == Millis(clock[k - 1]) then Position(clock, k - 1) + 1 else 0
  }

  /** The sequence number of call `k`: its position, except that in a millisecond that was entered number zero
      comes twice. */
  function NumberAt(epoch: int, clock: seq<int>, k: nat): nat
    requires k < |clock|
  {
    var p := Position(clock, k);
    if p == 0 || Millis(clock[k]) == epoch then p else p - 1
  }

  /** At most 4095 readings lie in one millisecond, so no call takes the last number. */
  predicate NumbersSuffice(clock: seq<int>) {
    forall k :: 0 <= k < |clock| ==> Position(clock, k) < 0xFFF
  }

  /** The generator before call `k`, when every call takes one reading. */
  function StateAt(epoch: int, machine: nat, clock: seq<int>, k: nat): State
    requires k <= |clock|
  {
    if k == 0 then Initial(epoch, machine)
    else
      var p := Position(clock, k - 1);
      State(epoch, machine, Millis(clock[k - 1]) - epoch, if Millis(clock[k - 1]) == epoch then p + 1 else p)
  }

  function StampOf(epoch: int, clock: seq<int>, k: nat): Stamp
    requires k < |clock|
  {
    Stamp(Millis(clock[k]) - epoch, NumberAt(epoch, clock, k))
  }

  lemma StampAt(epoch: int, machine: nat, clock: seq<int>, k: nat)
    requires Orderly(epoch, clock) && NumbersSuffice(clock) && k < |clock|
    ensures Stamps(StateAt(epoch, machine, clock, k), clock[k..])
         == [StampOf(epoch, clock, k)] + Stamps(StateAt(epoch, machine, clock, k + 1), clock[k + 1..])
  {
    hide Stamps, Millis;
    var s, left := StateAt(epoch, machine, clock, k), clock[k..];
    assert left[0] == clock[k] && left[1..] == clock[k + 1..];
    if k > 0 {
      MillisMonotone(clock[k - 1], clock[k]);
    }
    if Ms(s, left[0]) > s.lastMs {
      EnteringCall(s, left);
    } else {
      assert Position(clock, k) < 0xFFF;
      CountingCall(s, left);
    }
  }

  function ClosedForm(epoch: int, clock: seq<int>, k: nat): (stamps: seq<Stamp>)
    requires k <= |clock|
    ensures |stamps| == |clock| - k
    ensures forall i :: 0 <= i < |stamps| ==> stamps[i] == StampOf(epoch, clock, k + i)
    decreases |clock| - k
  {
    if k == |clock| then [] else [StampOf(epoch, clock, k)] + ClosedForm(epoch, clock, k + 1)
  }

  lemma {:induction false} StampsInClosedForm(epoch: int, machine: nat, clock: seq<int>, k: nat)
    requires Orderly(epoch, clock) && NumbersSuffice(clock) && k <= |clock|
    ensures Stamps(StateAt(epoch, machine, clock, k), clock[k..]) == ClosedForm(epoch, clock, k)
    decreases |clock| - k
  {
    hide Orderly, NumbersSuffice, StateAt, StampOf, Stamps;
    if k < |clock| {
      StampAt(epoch, machine, clock, k);
      StampsInClosedForm(epoch, machine, clock, k + 1);
    } else {
      assert clock[k..] == [];
      NothingRead(StateAt(epoch, machine, clock, k));
    }
  }

  /** With a clock that never goes back and at most 4095 calls per millisecond, call `k` takes reading `k`, and
      its id is that reading's milliseconds since the epoch, the machine's low ten bits, and the number above,
      side by side. */
  lemma IdsInClosedForm(epoch: int, machine: nat, clock: seq<int>, k: nat)
    requires Orderly(epoch, clock) && NumbersSuffice(clock) && k < |clock|
    ensures var ids := Ids(machine, Stamps(Initial(epoch, machine), clock));
      && |ids| == |clock|
      && ids[k] == (Millis(clock[k]) - epoch) * 0x40_0000 + machine % 0x400 * 0x1000 + NumberAt(epoch, clock, k)
      && (clock[k] >= 0 ==> TimeOf(ids[k]) == clock[k] / 1000 - epoch)
  {
    StampsInClosedForm(epoch, machine, clock, 0);
    assert clock[0..] == clock;
    assert Position(clock, k) < 0xFFF;
    MillisTruncates(clock[k]);
    FieldsOfPack(Millis(clock[k]) - epoch, machine, NumberAt(epoch, clock, k));
    hide Stamps, ClosedForm, Millis, Pack, TimeOf, NumberAt, Orderly, NumbersSuffice;
    assert ClosedForm(epoch, clock, 0)[k] == StampOf(epoch, clock, 0 + k);
  }

  lemma FieldsOfPack(ms: int, machine: nat, seqNo: nat)
    requires seqNo < 0x1000
    ensures Pack(ms, machine, seqNo) == ms * 0x40_0000 + machine % 0x400 * 0x1000 + seqNo
    ensures TimeOf(Pack(ms, machine, seqNo)) == ms
  {
    PackDecodes(ms, machine, seqNo);
  }
}
