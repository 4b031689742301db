/** The doubling interval of workerprocess/TimeInterval.cpp. Times are non-negative and unbounded. */
module TimeInterval {
  const MICROS: nat := 1000 * 1000

  datatype TimeVal = TimeVal(sec: nat, usec: nat)

  predicate Normalized(t: TimeVal) {
    t.usec < MICROS
  }

  function Micros(t: TimeVal): nat {
    t.sec * MICROS + t.usec
  }

  /** The interval `operator++` moves to. The source compares the seconds twice and the microseconds never. */
  function Increment(current: TimeVal, max: TimeVal): TimeVal {
    var doubled := TimeVal(current.sec * 2 + current.usec * 2 / MICROS, current.usec * 2 % MICROS);
    if doubled.sec < max.sec || (doubled.sec == max.sec && doubled.sec <= max.sec) then doubled else max
  }

  class CTimeInterval {
    var min: TimeVal
    var max: TimeVal
    var current: TimeVal

    constructor (min: TimeVal, max: TimeVal)
      ensures this.min == min && this.max == max && current == min
    {
      this.min, this.max, current := min, max, min;
    }

    method Reset()
      modifies `current
      ensures current == min
    {
      current := min;
    }

    method PreIncrement() returns (result: TimeVal)
      modifies `current
      ensures result == current == Increment(old(current), max)
    {
      var timeVal := TimeVal(current.sec * 2 + current.usec * 2 / MICROS, current.usec * 2 % MICROS);
      if timeVal.sec < max.sec || (timeVal.sec == max.sec && timeVal.sec <= max.sec) {
        current := timeVal;
      } else {
        current := max;
      }
      result := current;
    }

    method PostIncrement() returns (result: TimeVal)
      modifies `current
      ensures result == old(current) && current == Increment(old(current), max)
    {
      result := current;
      var ignored := PreIncrement();
    }

    method SetMin(min: TimeVal)
      modifies `min, `current
      ensures this.min == min && current == min
    {
      this.min := min;
      Reset();
    }

    method SetMax(max: TimeVal)
      modifies `max
      ensures this.max == max
    {
      this.max := max;
    }
  }

  // ---- The schedule ----

  function After(start: TimeVal, max: TimeVal, k: nat): TimeVal
    decreases k
  {
    if k == 0 then start else After(Increment(start, max), max, k - 1)
  }

  /** `v` doubled `k` times. */
  function Doubled(v: nat, k: nat): nat
    decreases k
  {
    if k == 0 then v else Doubled(2 * v, k - 1)
  }

  function Pow2(k: nat): nat {
    if k == 0 then 1 else 2 * Pow2(k - 1)
  }

  lemma {:induction false} DoubledIsPower(v: nat, k: nat)
    ensures Doubled(v, k) == v * Pow2(k)
    decreases k
  {
    if k > 0 {
      DoubledIsPower(2 * v, k - 1);
    }
  }

  /** The first interval out of reach: doubling is cut off at a whole second past the maximum's seconds. */
  function Cutoff(max: TimeVal): nat {
    (max.sec + 1) * MICROS
  }

  lemma DoubleMicros(t: TimeVal)
    ensures var d := TimeVal(t.sec * 2 + t.usec * 2 / MICROS, t.usec * 2 % MICROS);
      Normalized(d) && Micros(d) == 2 * Micros(t)
  {
  }

  lemma IncrementMicros(t: TimeVal, max: TimeVal)
    ensures Normalized(max) ==> Normalized(Increment(t, max))
    ensures Micros(Increment(t, max)) == if 2 * Micros(t) < Cutoff(max) then 2 * Micros(t) else Micros(max)
  {
    DoubleMicros(t);
  }

  /** The number of doublings, at least one, that take `v` to the cutoff or past it. */
  function Fuse(v: nat, cutoff: nat): (n: nat)
    requires v > 0
    ensures n >= 1 && Doubled(v, n) >= cutoff
    ensures forall j :: 1 <= j < n ==> Doubled(v, j) < cutoff
    decreases if cutoff > v then cutoff - v else 0
  {
    if 2 * v >= cutoff then 1 else 1 + Fuse(2 * v, cutoff)
  }

  /** The remainder of `k` on division by `n`. */
  function Phase(k: nat, n: nat): (r: nat)
    requires n > 0
    ensures r < n
  {
    if k < n then k else Phase(k - n, n)
  }

  /** The schedule in closed form, in microseconds. The start is doubled up to the cutoff; from there on the
      interval is the maximum, doubled again and again up to the cutoff, over and over. */
  function Schedule(start: nat, max: TimeVal, k: nat): nat {
    var top, cutoff := Micros(max), Cutoff(max);
    if start == 0 then 0
    else if k < Fuse(start, cutoff) then Doubled(start, k)
    else if top == 0 then 0
    else Doubled(top, Phase(k - Fuse(start, cutoff), Fuse(top, cutoff)))
  }

  /** For every start and maximum, after any number of increments. */
  lemma {:induction false} AfterIsSchedule(start: TimeVal, max: TimeVal, k: nat)
    ensures Micros(After(start, max, k)) == Schedule(Micros(start), max, k)
    decreases k
  {
    hide Increment, Micros, Cutoff;
    if k > 0 {
      IncrementMicros(start, max);
      AfterIsSchedule(Increment(start, max), max, k - 1);
      ScheduleStep(Micros(start), max, k);
    }
  }

  lemma ScheduleStep(v: nat, max: TimeVal, k: nat)
    requires k > 0
    ensures var next := if 2 * v < Cutoff(max) then 2 * v else Micros(max);
      Schedule(v, max, k) == Schedule(next, max, k - 1)
  {
    var top, cutoff := Micros(max), Cutoff(max);
    if v == 0 {
      assert cutoff > 0;
    } else if 2 * v < cutoff {
      assert Fuse(v, cutoff) == 1 + Fuse(2 * v, cutoff);
    } else if top > 0 {
      assert Fuse(v, cutoff) == 1;
    }
  }

  /** Whether an interval that was cut down to the maximum stays there. */
  predicate Settles(max: TimeVal) {
    max.sec >= 1 || 2 * max.usec >= MICROS || max.usec == 0
  }

  lemma SettlesExactly(max: TimeVal)
    ensures Settles(max) <==> Increment(max, max) == max
  {
    IncrementMicros(max, max);
  }

  /** What the interval is meant to be after `k` increments: `min` times 2^k while that is below the cutoff, and
      the maximum from then on. */
  function Backoff(min: TimeVal, max: TimeVal, k: nat): nat {
    var risen := Micros(min) * Pow2(k);
    if risen < Cutoff(max) then risen else Micros(max)
  }

  lemma BackoffClosedForm(min: TimeVal, max: TimeVal, k: nat)
    requires (Settles(max) || Micros(min) == 0) && k > 0
    ensures Micros(After(min, max, k)) == Backoff(min, max, k)
  {
    AfterIsSchedule(min, max, k);
    DoubledIsPower(Micros(min), k);
    if Micros(min) == 0 {
      assert Cutoff(max) > 0;
    } else {
      SettledSchedule(Micros(min), max, k);
    }
  }

  /** It is that after every increment if and only if the maximum settles or the minimum is zero. */
  lemma BackoffExactly(min: TimeVal, max: TimeVal)
    ensures (forall k: nat :: k > 0 ==> Micros(After(min, max, k)) == Backoff(min, max, k)) <==>
      Settles(max) || Micros(min) == 0
  {
    if Settles(max) || Micros(min) == 0 {
      forall k: nat | k > 0 ensures Micros(After(min, max, k)) == Backoff(min, max, k) {
        BackoffClosedForm(min, max, k);
      }
    } else {
      var n := Fuse(Micros(min), Cutoff(max));
      RisesAgain(min, max);
      DoubledIsPower(Micros(min), n + 1);
      DoubledMonotone(Micros(min), n, n + 1);
      assert Backoff(min, max, n + 1) == Micros(max);
    }
  }

  lemma SettledSchedule(start: nat, max: TimeVal, k: nat)
    requires Settles(max) && (k == 0 ==> start < Cutoff(max))
    ensures Schedule(start, max, k) == if Doubled(start, k) < Cutoff(max) then Doubled(start, k) else Micros(max)
  {
    if start == 0 {
      ZeroStaysZero(k);
      assert Cutoff(max) > 0;
    } else {
      var n := Fuse(start, Cutoff(max));
      if k >= n {
        DoubledMonotone(start, n, k);
        if Micros(max) > 0 {
          SettledFuse(max);
          assert Phase(k - n, 1) == 0;
        }
      }
    }
  }

  lemma {:induction false} ZeroStaysZero(k: nat)
    ensures Doubled(0, k) == 0
  {
    if k > 0 {
      ZeroStaysZero(k - 1);
    }
  }

  lemma SettledFuse(max: TimeVal)
    requires Settles(max) && Micros(max) > 0
    ensures Fuse(Micros(max), Cutoff(max)) == 1
  {
    assert 2 * Micros(max) >= Cutoff(max);
  }

  lemma {:induction false} DoubledMonotone(v: nat, j: nat, k: nat)
    requires j <= k
    ensures Doubled(v, j) <= Doubled(v, k)
    decreases k
  {
    if j > 0 {
      DoubledMonotone(2 * v, j - 1, k - 1);
    } else if k > 0 {
      DoubledMonotone(2 * v, 0, k - 1);
    }
  }

  /** The interval is meant not to exceed the maximum. After `k` increments, for every minimum and maximum, it
      does not if and only if it is zero, or is in its first rise and has not passed the maximum yet, or was
      just cut down to the maximum. */
  lemma WithinMaxExactly(min: TimeVal, max: TimeVal, k: nat)
    ensures var start, top, cutoff := Micros(min), Micros(max), Cutoff(max);
      Micros(After(min, max, k)) <= top <==>
        || start == 0
        || (k < Fuse(start, cutoff) && Doubled(start, k) <= top)
        || (k >= Fuse(start, cutoff) && (top == 0 || Phase(k - Fuse(start, cutoff), Fuse(top, cutoff)) == 0))
  {
    AfterIsSchedule(min, max, k);
    var start, top, cutoff := Micros(min), Micros(max), Cutoff(max);
    if start > 0 && k >= Fuse(start, cutoff) && top > 0 {
      var phase := Phase(k - Fuse(start, cutoff), Fuse(top, cutoff));
      if phase > 0 {
        DoubledMonotone(top, 1, phase);
        assert Doubled(top, 1) == 2 * top;
      }
    }
  }

  /** So it never exceeds the maximum at all if and only if the minimum is zero, or the maximum is one the
      interval settles at and the last doubling of the minimum below the cutoff is within it. */
  lemma NeverExceedsMaxExactly(min: TimeVal, max: TimeVal)
    ensures (forall k: nat :: Micros(After(min, max, k)) <= Micros(max)) <==>
      || Micros(min) == 0
      || (Settles(max) && Doubled(Micros(min), Fuse(Micros(min), Cutoff(max)) - 1) <= Micros(max))
  {
    var start, top, cutoff := Micros(min), Micros(max), Cutoff(max);
    if start == 0 {
      forall k: nat ensures Micros(After(min, max, k)) <= top {
        WithinMaxExactly(min, max, k);
      }
    } else {
      var n := Fuse(start, cutoff);
      WithinMaxExactly(min, max, n - 1);
      if Doubled(start, n - 1) <= top {
        if Settles(max) {
          forall k: nat ensures Micros(After(min, max, k)) <= top {
            StaysWithin(min, max, k);
          }
        } else {
          RisesAgain(min, max);
        }
      }
    }
  }

  lemma StaysWithin(min: TimeVal, max: TimeVal, k: nat)
    requires Settles(max) && Micros(min) > 0
    requires Doubled(Micros(min), Fuse(Micros(min), Cutoff(max)) - 1) <= Micros(max)
    ensures Micros(After(min, max, k)) <= Micros(max)
  {
    var n := Fuse(Micros(min), Cutoff(max));
    WithinMaxExactly(min, max, k);
    if k < n {
      DoubledMonotone(Micros(min), k, n - 1);
    } else if Micros(max) > 0 {
      SettledFuse(max);
    }
  }

  /** At a maximum it does not settle at, the interval doubles again right after the cut. */
  lemma RisesAgain(min: TimeVal, max: TimeVal)
    requires !Settles(max) && Micros(min) > 0
    ensures var n := Fuse(Micros(min), Cutoff(max));
      Micros(After(min, max, n + 1)) == 2 * Micros(max) > Micros(max)
  {
    var start, top, cutoff := Micros(min), Micros(max), Cutoff(max);
    var n := Fuse(start, cutoff);
    AfterIsSchedule(min, max, n + 1);
    assert Fuse(top, cutoff) == 1 + Fuse(2 * top, cutoff);
    assert Phase(n + 1 - n, Fuse(top, cutoff)) == 1;
    assert Doubled(top, 1) == 2 * top;
  }

  /** 0.6 s doubles past a maximum of 1.0 s. */
  lemma ExceedsMaxExample()
    ensures Micros(After(TimeVal(0, 600_000), TimeVal(1, 0), 1)) > Micros(TimeVal(1, 0))
  {
  }

  /** With a maximum of 0.3 s, an interval of 0.1 s is cut at the fourth increment and at 0.6 s after the next. */
  lemma ExceedsSmallMaxExample()
    ensures var min, max := TimeVal(0, 100_000), TimeVal(0, 300_000);
      After(min, max, 4) == max && Micros(After(min, max, 5)) == 600_000 > Micros(max)
  {
    var max := TimeVal(0, 300_000);
    assert Increment(TimeVal(0, 100_000), max) == TimeVal(0, 200_000);
    assert Increment(TimeVal(0, 200_000), max) == TimeVal(0, 400_000);
    assert Increment(TimeVal(0, 400_000), max) == TimeVal(0, 800_000);
    assert Increment(TimeVal(0, 800_000), max) == max;
    assert Increment(max, max) == TimeVal(0, 600_000);
    assert After(TimeVal(0, 800_000), max, 1) == max && After(TimeVal(0, 800_000), max, 2) == TimeVal(0, 600_000);
    assert After(TimeVal(0, 200_000), max, 3) == max && After(TimeVal(0, 200_000), max, 4) == TimeVal(0, 600_000);
  }
}
