/** `Snowflake` of snowflake_demo/snowflake.h as an object; the lock makes whole calls atomic. */
module SnowflakeObject {
  import opened Basics
  import opened SnowflakeModel

  class Snowflake {
    var epoch: int
    var machine: nat
    var lastMs: int
    var sequence: nat
    var exceptionCounter: nat

    ghost function State(): State
      reads this
    {
      SnowflakeModel.State(epoch, machine, lastMs, sequence)
    }

    constructor ()
      ensures State() == Initial(0, 0) && exceptionCounter == 0
    {
      epoch, machine, lastMs, sequence, exceptionCounter := 0, 0, 0, 0, 0;
    }

    method SetEpoch(epoch: int)
      modifies `epoch
      ensures this.epoch == epoch
    {
      this.epoch := epoch;
    }

    method SetMachine(machine: nat)
      modifies `machine
      ensures this.machine == machine
    {
      this.machine := machine;
    }

    /** The first loop: reads the clock until it has caught up with the last id, counting each reading that
        has not as an exception. */
    method WaitForClock(clock: seq<int>) returns (i: nat)
      modifies `exceptionCounter
      ensures i == FirstReady(State(), clock)
      ensures exceptionCounter == old(exceptionCounter) + i
    {
      i := 0;
      while i < |clock| && Millis(clock[i]) - epoch < lastMs
        invariant i <= FirstReady(State(), clock)
        invariant exceptionCounter == old(exceptionCounter) + i
      {
        exceptionCounter := exceptionCounter + 1;
        i := i + 1;
      }
    }

    /** The second loop: sleeps until the clock is past `sleepTo`. */
    method SleepPast(sleepTo: int, clock: seq<int>) returns (j: nat)
      ensures j == FirstPast(sleepTo, clock)
    {
      j := 0;
      while j < |clock| && sleepTo >= clock[j]
        invariant j <= FirstPast(sleepTo, clock)
      {
        j := j + 1;
      }
    }

    /** The number of a call in the millisecond of the call before; the call that takes the last one sleeps
        until the next millisecond is past, or is still asleep when the readings run out. */
    method TakeNumber(now: int, clock: seq<int>) returns (seqNo: nat, awake: bool, rest: seq<int>)
      modifies `sequence
      ensures seqNo == Number(old(sequence))
      ensures sequence == if old(sequence) + 1 == SEQUENCES then 0 else old(sequence) + 1
      ensures old(sequence) + 1 != SEQUENCES ==> awake && rest == clock
      ensures old(sequence) + 1 == SEQUENCES ==>
        var j := FirstPast(WakeTime(now), clock);
        seqNo == old(sequence) && awake == (j < |clock|) && (awake ==> rest == Later(clock, j))
    {
      seqNo, awake, rest := Number(sequence), true, clock;
      sequence := sequence + 1;
      if sequence == SEQUENCES {
        sequence := 0;
      }
      if sequence == 0 {
        var j := SleepPast(WakeTime(now), clock);
        awake := j < |clock|;
        rest := if awake then Later(clock, j) else [];
      }
    }

    /** One call, reading the clock as given; nothing is returned if it is still waiting when the readings
        run out. */
    method Generate(clock: seq<int>) returns (value: Option<int>, rest: seq<int>)
      modifies this
      ensures value.None? <==> SnowflakeModel.Generate(old(State()), clock).Waiting?
      ensures value.Some? ==>
        var r := SnowflakeModel.Generate(old(State()), clock);
        && State() == r.s && rest == r.rest
        && value.value == Pack(r.stamp.ms, machine, r.stamp.seqNo)
      ensures exceptionCounter == old(exceptionCounter) + FirstReady(old(State()), clock)
    {
      hide Pack, Later, Millis, WakeTime, Number, FirstReady, FirstPast, SnowflakeModel.Generate;
      ghost var before := State();
      var i := WaitForClock(clock);
      rest := clock[i..];
      if i == |clock| {
        NotReady(before, clock);
        return None, rest;
      }
      rest := Later(clock, i);
      var ms, seqNo := Millis(clock[i]) - epoch, 0;
      if ms == lastMs {
        if before.sequence + 1 == SEQUENCES {
          LastNumber(before, clock);
        } else {
          NumbersLeft(before, clock);
        }
        var awake;
        seqNo, awake, rest := TakeNumber(clock[i], rest);
        if !awake {
          return None, rest;
        }
      } else {
        NewMillisecond(before, clock);
        sequence := 0;
      }
      lastMs := ms;
      value := Some(Pack(ms, machine, seqNo));
    }
  }
}
