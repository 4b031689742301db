/** When a timer's turn comes: never a millisecond early, and never behind more pops than are due before it. */
module TimerProgress {
  import opened Basics
  import opened TimerModel

  /** The clock does not go back, and no request asks for a negative period. */
  predicate Orderly(s: State, op: Op) {
    match op
    case Advance(time) => s.clock <= time
    case Reserve(RunAfter(ms, _)) => ms >= 0
    case Reserve(RunRepeated(ms, _)) => ms >= 0
    case _ => true
  }

  predicate OrderlyRun(s: State, ops: seq<Op>)
    requires Runs(s, ops)
    decreases |ops|
  {
    ops == [] || (Orderly(s, ops[0]) && OrderlyRun(Apply(s, ops[0]), ops[1..]))
  }

  predicate NonNegative(request: Request) {
    match request
    case RunAt(_) => true
    case RunAfter(ms, _) => ms >= 0
    case RunRepeated(ms, _) => ms >= 0
  }

  predicate PeriodsInv(s: State) {
    && (forall k :: 0 <= k < |s.queue| ==> s.queue[k].period >= 0)
    && (!s.tick.Waiting? ==> s.tick.node.period >= 0)
    && (forall id :: id in s.registering ==> match s.registering[id]
          case Reserved(request) => NonNegative(request)
          case Emplaced(request) => NonNegative(request)
          case Stamped(node) => node.period >= 0)
  }

  lemma PeriodsStep(s: State, op: Op)
    requires PeriodsInv(s) && Enabled(s, op) && Orderly(s, op)
    ensures PeriodsInv(Apply(s, op))
  {
  }

  lemma {:induction false} PeriodsRun(s: State, ops: seq<Op>)
    requires PeriodsInv(s) && Runs(s, ops) && OrderlyRun(s, ops)
    ensures PeriodsInv(After(s, ops))
    decreases |ops|
  {
    hide PeriodsInv, Enabled, Apply, Orderly;
    if ops != [] {
      PeriodsStep(s, ops[0]);
      PeriodsRun(Apply(s, ops[0]), ops[1..]);
    }
  }

  // ---- Never early ----

  predicate TickDue(s: State) {
    !s.tick.Waiting? ==> Due(s.tick.node, s.clock)
  }

  lemma {:induction false} TickDueRun(s: State, ops: seq<Op>)
    requires TickDue(s) && Runs(s, ops) && OrderlyRun(s, ops)
    ensures TickDue(After(s, ops))
    decreases |ops|
  {
    if ops != [] {
      assert TickDue(Apply(s, ops[0]));
      TickDueRun(Apply(s, ops[0]), ops[1..]);
    }
  }

  /** Whenever a commit can happen in an orderly run, its node's deadline is less than a millisecond away. */
  lemma NeverEarly(clock: int, ops: seq<Op>)
    requires Runs(Initial(clock), ops) && OrderlyRun(Initial(clock), ops)
    ensures var s := After(Initial(clock), ops);
      Enabled(s, Commit) ==> s.tick.node.deadline - s.clock < 1_000_000
  {
    TickDueRun(Initial(clock), ops);
  }

  // ---- No starvation ----

  function QueuedBy(queue: seq<Node>, d: int): nat {
    if queue == [] then 0
    else QueuedBy(queue[..|queue| - 1], d) + (if queue[|queue| - 1].deadline <= d then 1 else 0)
  }

  /** Calls that computed a time point up to `d` and wait for the mutex. */
  function StampedBy(s: State, d: int): set<nat> {
    set id | id in s.registering && s.registering[id].Stamped? && s.registering[id].node.deadline <= d
  }

  /** Everything due by `d` that is in the queue or about to be pushed. */
  function DueBy(s: State, d: int): nat {
    QueuedBy(s.queue, d) + |StampedBy(s, d)|
  }

  /** Whether the step is a `run_at` call bringing in a time point up to `d`. */
  predicate RunsAtBy(s: State, op: Op, d: int)
    requires Enabled(s, op)
  {
    op.Stamp? && s.registering[op.id].request.RunAt? && s.registering[op.id].request.timePoint <= d
  }

  function Insertions(s: State, ops: seq<Op>, d: int): nat
    requires Runs(s, ops)
    decreases |ops|
  {
    if ops == [] then 0
    else (if RunsAtBy(s, ops[0], d) then 1 else 0) + Insertions(Apply(s, ops[0]), ops[1..], d)
  }

  function Pops(ops: seq<Op>): nat {
    if ops == [] then 0 else (if ops[0].PopTop? then 1 else 0) + Pops(ops[1..])
  }

  /** Whether the run pops the node `x`. */
  predicate PopsNode(s: State, ops: seq<Op>, x: Node)
    requires Runs(s, ops)
    decreases |ops|
  {
    ops != [] &&
    ((ops[0].PopTop? && s.queue[ops[0].index] == x) || PopsNode(Apply(s, ops[0]), ops[1..], x))
  }

  lemma QueuedAppend(queue: seq<Node>, node: Node, d: int)
    ensures QueuedBy(queue + [node], d) == QueuedBy(queue, d) + (if node.deadline <= d then 1 else 0)
  {
    assert (queue + [node])[..|queue|] == queue;
  }

  lemma {:induction false} QueuedRemove(queue: seq<Node>, index: nat, d: int)
    requires index < |queue|
    ensures QueuedBy(queue, d) == QueuedBy(Without(queue, index), d) + (if queue[index].deadline <= d then 1 else 0)
  {
    var init, last := queue[..|queue| - 1], queue[|queue| - 1];
    if index < |init| {
      QueuedRemove(init, index, d);
      assert Without(queue, index) == Without(init, index) + [last];
      QueuedAppend(Without(init, index), last, d);
    } else {
      assert Without(queue, index) == init;
    }
  }

  /** A queued node due by `d` is counted. */
  lemma {:induction false} QueuedCounted(queue: seq<Node>, x: Node, d: int)
    requires x in queue && x.deadline <= d
    ensures QueuedBy(queue, d) >= 1
  {
    if queue[|queue| - 1] != x {
      QueuedCounted(queue[..|queue| - 1], x, d);
    }
  }

  lemma StampDueBy(s: State, id: nat, d: int)
    requires Enabled(s, Stamp(id)) && PeriodsInv(s) && s.clock > d
    ensures DueBy(Apply(s, Stamp(id)), d) == DueBy(s, d) + (if RunsAtBy(s, Stamp(id), d) then 1 else 0)
  {
    var t := Apply(s, Stamp(id));
    if RunsAtBy(s, Stamp(id), d) {
      assert StampedBy(t, d) == StampedBy(s, d) + {id};
    } else {
      assert StampedBy(t, d) == StampedBy(s, d);
    }
  }

  lemma PushDueBy(s: State, id: nat, d: int)
    requires Enabled(s, Push(id))
    ensures DueBy(Apply(s, Push(id)), d) == DueBy(s, d)
  {
    var node := s.registering[id].node;
    QueuedAppend(s.queue, node, d);
    assert StampedBy(Apply(s, Push(id)), d) == StampedBy(s, d) - {id};
  }

  lemma CallStartDueBy(s: State, op: Op, d: int)
    requires Enabled(s, op) && (op.Reserve? || op.Emplace?)
    requires s.nextId !in s.registering
    ensures DueBy(Apply(s, op), d) == DueBy(s, d)
  {
    assert StampedBy(Apply(s, op), d) == StampedBy(s, d);
  }

  lemma RequeueDueBy(s: State, d: int)
    requires Enabled(s, Requeue) && PeriodsInv(s) && s.clock > d
    ensures DueBy(Apply(s, Requeue), d) == DueBy(s, d)
  {
    var again := Again(s.tick.node, s.clock);
    if again != [] {
      QueuedAppend(s.queue, again[0], d);
    } else {
      assert s.queue + again == s.queue;
    }
  }

  /** With a node due by `d` queued and `d` past, every pop lowers what is due by `d`, and only a `run_at`
      call raises it: re-queued nodes and other calls come later than `d`. */
  lemma DueByStep(s: State, op: Op, x: Node, d: int)
    requires Inv(s) && PeriodsInv(s) && Enabled(s, op)
    requires x in s.queue && x.deadline <= d < s.clock
    ensures DueBy(Apply(s, op), d) + (if op.PopTop? then 1 else 0)
         == DueBy(s, d) + (if RunsAtBy(s, op, d) then 1 else 0)
  {
    hide DueBy, SingleInv, NodesInv, PeriodsInv;
    match op {
      case Reserve(_) => CallStartDueBy(s, op, d);
      case Emplace(_) => CallStartDueBy(s, op, d);
      case Stamp(id) => StampDueBy(s, id, d);
      case Push(id) => PushDueBy(s, id, d);
      case Requeue => RequeueDueBy(s, d);
      case PopTop(index) => PopDueBy(s, index, d);
      case _ => UntouchedDueBy(s, op, d);
    }
  }

  lemma PopDueBy(s: State, index: nat, d: int)
    requires Enabled(s, PopTop(index)) && exists x <- s.queue :: x.deadline <= d
    ensures DueBy(Apply(s, PopTop(index)), d) + 1 == DueBy(s, d)
  {
    QueuedRemove(s.queue, index, d);
    assert StampedBy(Apply(s, PopTop(index)), d) == StampedBy(s, d);
  }

  lemma UntouchedDueBy(s: State, op: Op, d: int)
    requires Enabled(s, op)
    requires Apply(s, op).queue == s.queue && Apply(s, op).registering == s.registering
    ensures DueBy(Apply(s, op), d) == DueBy(s, d)
  {
  }

  /** A step that does not pop `x` leaves it queued. */
  lemma StaysQueued(s: State, op: Op, x: Node)
    requires Enabled(s, op) && x in s.queue
    requires op.PopTop? ==> s.queue[op.index] != x
    ensures x in Apply(s, op).queue
  {
    var k :| 0 <= k < |s.queue| && s.queue[k] == x;
    var queue := Apply(s, op).queue;
    if op.PopTop? {
      assert queue[if k < op.index then k else k - 1] == x;
    } else {
      assert queue[k] == x;
    }
  }

  /** The exact count behind the bound: until `x` is popped, pops plus what is still due by its deadline are
      what was due by it, plus the `run_at` calls that brought in more. */
  lemma {:induction false} PopsCounted(s: State, ops: seq<Op>, x: Node)
    requires Inv(s) && PeriodsInv(s) && Runs(s, ops) && OrderlyRun(s, ops)
    requires x in s.queue && x.deadline < s.clock && !PopsNode(s, ops, x)
    ensures var t := After(s, ops);
      && x in t.queue
      && Pops(ops) + DueBy(t, x.deadline) == DueBy(s, x.deadline) + Insertions(s, ops, x.deadline)
    decreases |ops|
  {
    hide Inv, PeriodsInv, DueBy, RunsAtBy;
    if ops != [] {
      StepInv(s, ops[0]);
      PeriodsStep(s, ops[0]);
      StaysQueued(s, ops[0], x);
      DueByStep(s, ops[0], x, x.deadline);
      ClockStep(s, ops[0]);
      hide Apply, Enabled;
      PopsCounted(Apply(s, ops[0]), ops[1..], x);
    }
  }

  lemma ClockStep(s: State, op: Op)
    requires Enabled(s, op) && Orderly(s, op)
    ensures s.clock <= Apply(s, op).clock
  {
  }

  /** No starvation: once the clock is past the deadline of a queued node, a run with as many pops as there
      were nodes due by then, plus `run_at` calls bringing in more, has popped it. */
  lemma NoStarvation(s: State, ops: seq<Op>, x: Node)
    requires Inv(s) && PeriodsInv(s) && Runs(s, ops) && OrderlyRun(s, ops)
    requires x in s.queue && x.deadline < s.clock
    requires Pops(ops) >= DueBy(s, x.deadline) + Insertions(s, ops, x.deadline)
    ensures PopsNode(s, ops, x)
  {
    if !PopsNode(s, ops, x) {
      PopsCounted(s, ops, x);
      QueuedCounted(After(s, ops).queue, x, x.deadline);
    }
  }

  /** The same for a whole run from the start: `before` brings the timer to the point where the clock is past
      the deadline of the queued node `x`. */
  lemma OverdueIsServed(clock: int, before: seq<Op>, x: Node, ops: seq<Op>)
    requires Runs(Initial(clock), before) && OrderlyRun(Initial(clock), before)
    requires var s := After(Initial(clock), before);
      && Runs(s, ops) && OrderlyRun(s, ops)
      && x in s.queue && x.deadline < s.clock
      && Pops(ops) >= DueBy(s, x.deadline) + Insertions(s, ops, x.deadline)
    ensures PopsNode(After(Initial(clock), before), ops, x)
  {
    InitialInv(clock);
    RunInv(Initial(clock), before);
    PeriodsRun(Initial(clock), before);
    NoStarvation(After(Initial(clock), before), ops, x);
  }

  /** The tick thread waits exactly while all deadlines are a millisecond or more away: when it waits and one is
      nearer, some pop is possible, and a pop takes a node whose deadline is nearer. */
  lemma PopPossible(s: State, x: Node) returns (index: nat)
    requires s.tick.Waiting? && x in s.queue && x.deadline - s.clock < 1_000_000
    ensures Enabled(s, PopTop(index)) && s.queue[index].deadline <= x.deadline
  {
    index := TopIndex(s.queue);
  }

  lemma {:induction false} TopIndex(queue: seq<Node>) returns (index: nat)
    requires queue != []
    ensures IsTop(queue, index)
  {
    if |queue| == 1 {
      index := 0;
    } else {
      var last := |queue| - 1;
      var best := TopIndex(queue[..last]);
      index := if queue[last].deadline < queue[best].deadline then last else best;
      forall node | node in queue ensures queue[index].deadline <= node.deadline {
        if node != queue[last] {
          assert node in queue[..last];
        }
        assert queue[..last][best].deadline == queue[best].deadline;
      }
    }
  }
}
