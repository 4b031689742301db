/** How soon, and how fast, a timer's callback can be committed at most. */
module TimerPacing {
  import opened TimerModel
  import opened TimerSafety
  import opened TimerProgress

  function Period(request: Request): int {
    match request
    case RunAt(_) => 0
    case RunAfter(ms, _) => ms * MILLISECOND
    case RunRepeated(ms, _) => ms * MILLISECOND
  }

  /** The first deadline of a request made at time `start`. */
  function FirstDeadline(request: Request, start: int): int {
    if request.RunAt? then request.timePoint else start + Period(request)
  }

  /** The deadline number `k` (from zero): each may come a little less than a millisecond short of a period
      after the one before. */
  function Deadline(request: Request, start: int, k: nat): int
    decreases k
  {
    if k == 0 then FirstDeadline(request, start)
    else Deadline(request, start, k - 1) + Period(request) - (MILLISECOND - 1)
  }

  /** Commits made or in flight. */
  function Fired(s: State, id: nat): nat {
    Count(s.commits, id) + InFlight(s, id)
  }

  predicate NodePaced(node: Node, id: nat, request: Request, start: int, fired: nat) {
    node.id == id ==> node.period == Period(request) && node.deadline >= Deadline(request, start, fired)
  }

  predicate CallPaced(s: State, id: nat, request: Request, start: int) {
    id in s.registering ==>
      Fired(s, id) == 0 &&
      match s.registering[id]
      case Reserved(r) => r == request
      case Emplaced(r) => r == request
      case Stamped(node) => NodePaced(node, id, request, start, 0)
  }

  predicate QueuePaced(s: State, id: nat, request: Request, start: int) {
    forall k :: 0 <= k < |s.queue| ==> NodePaced(s.queue[k], id, request, start, Fired(s, id))
  }

  predicate TickPaced(s: State, id: nat, request: Request, start: int) {
    && (s.tick.Popped? ==> NodePaced(s.tick.node, id, request, start, Fired(s, id)))
    && (s.tick.Checked? && s.tick.node.id == id ==> s.tick.node.period == Period(request))
  }

  /** Whenever `k` commits have been made or are in flight, the deadline of the last is at most 999999 ns off. */
  predicate ClockPaced(s: State, id: nat, request: Request, start: int) {
    Fired(s, id) > 0 ==> s.clock >= Deadline(request, start, Fired(s, id) - 1) - (MILLISECOND - 1)
  }

  predicate Paced(s: State, id: nat, request: Request, start: int) {
    && start <= s.clock && TickDue(s)
    && CallPaced(s, id, request, start) && QueuePaced(s, id, request, start)
    && TickPaced(s, id, request, start) && ClockPaced(s, id, request, start)
  }

  lemma FiredStep(s: State, op: Op, id: nat)
    requires Enabled(s, op)
    ensures Fired(Apply(s, op), id) == Fired(s, id)
      + (if op.CheckLive? && s.tick.node.id == id && id in s.live then 1 else 0)
  {
    if op.Commit? {
      CountAppend(s.commits, s.tick.node.id, id);
    }
  }

  lemma StampPaced(s: State, i: nat, id: nat, request: Request, start: int)
    requires Inv(s) && Paced(s, id, request, start) && Enabled(s, Stamp(i))
    ensures Paced(Apply(s, Stamp(i)), id, request, start)
  {
    FiredStep(s, Stamp(i), id);
    hide Fired;
  }

  lemma PopPaced(s: State, index: nat, id: nat, request: Request, start: int)
    requires Inv(s) && Paced(s, id, request, start) && Enabled(s, PopTop(index))
    ensures Paced(Apply(s, PopTop(index)), id, request, start)
  {
    FiredStep(s, PopTop(index), id);
    hide Fired;
  }

  /** The node found live is the only one of its id, so nothing in the queue is held to the next deadline. */
  lemma CheckPaced(s: State, id: nat, request: Request, start: int)
    requires Inv(s) && Paced(s, id, request, start) && Enabled(s, CheckLive)
    ensures Paced(Apply(s, CheckLive), id, request, start)
  {
    FiredStep(s, CheckLive, id);
    hide Fired;
  }

  lemma RequeuePaced(s: State, id: nat, request: Request, start: int)
    requires Inv(s) && Paced(s, id, request, start) && Enabled(s, Requeue)
    ensures Paced(Apply(s, Requeue), id, request, start)
  {
    FiredStep(s, Requeue, id);
    if s.tick.node.id == id {
      assert Fired(s, id) > 0;
    }
    hide Fired;
  }

  lemma PushPaced(s: State, pushed: nat, id: nat, request: Request, start: int)
    requires Inv(s) && Paced(s, id, request, start) && Enabled(s, Push(pushed))
    ensures Paced(Apply(s, Push(pushed)), id, request, start)
  {
    FiredStep(s, Push(pushed), id);
    hide Fired, Deadline;
  }

  /** The steps before the clock is read. */
  lemma RegisteringPaced(s: State, op: Op, id: nat, request: Request, start: int)
    requires Inv(s) && Paced(s, id, request, start) && Enabled(s, op) && id < s.nextId
    requires op.Reserve? || op.Emplace?
    ensures Paced(Apply(s, op), id, request, start)
  {
    FiredStep(s, op, id);
    hide Fired, Deadline;
  }

  lemma AdvancePaced(s: State, time: int, id: nat, request: Request, start: int)
    requires Paced(s, id, request, start) && s.clock <= time
    ensures Paced(Apply(s, Advance(time)), id, request, start)
  {
    FiredStep(s, Advance(time), id);
    assert TickDue(Apply(s, Advance(time)));
    hide TickDue, Fired, Deadline, NodePaced;
  }

  /** What leaves the calls, the queue and the clock alone, and the number fired, and moves the tick thread on
      if at all. */
  lemma SamePaced(s: State, t: State, id: nat, request: Request, start: int)
    requires Paced(s, id, request, start)
    requires t.registering == s.registering && t.queue == s.queue && t.clock == s.clock
    requires Fired(t, id) == Fired(s, id) && (t.tick == s.tick || t.tick.Waiting?)
    ensures Paced(t, id, request, start)
  {
    hide Fired, Deadline, NodePaced, Due;
  }

  lemma PacedStep(s: State, op: Op, id: nat, request: Request, start: int)
    requires Inv(s) && Paced(s, id, request, start) && Enabled(s, op) && Orderly(s, op) && id < s.nextId
    ensures Paced(Apply(s, op), id, request, start)
  {
    hide Inv, Paced, Fired;
    match op {
      case Stamp(i) => StampPaced(s, i, id, request, start);
      case PopTop(index) => PopPaced(s, index, id, request, start);
      case CheckLive => CheckPaced(s, id, request, start);
      case Requeue => RequeuePaced(s, id, request, start);
      case Push(pushed) => PushPaced(s, pushed, id, request, start);
      case Reserve(_) => RegisteringPaced(s, op, id, request, start);
      case Emplace(_) => RegisteringPaced(s, op, id, request, start);
      case Advance(time) => AdvancePaced(s, time, id, request, start);
      case _ =>
        FiredStep(s, op, id);
        SamePaced(s, Apply(s, op), id, request, start);
    }
  }

  lemma {:induction false} PacedRun(s: State, ops: seq<Op>, id: nat, request: Request, start: int)
    requires Inv(s) && Paced(s, id, request, start) && id < s.nextId
    requires Runs(s, ops) && OrderlyRun(s, ops)
    ensures Paced(After(s, ops), id, request, start)
    decreases |ops|
  {
    hide Inv, Paced, Enabled, Apply, Orderly;
    if ops != [] {
      StepInv(s, ops[0]);
      PacedStep(s, ops[0], id, request, start);
      IdsGrow(s, ops[0]);
      PacedRun(Apply(s, ops[0]), ops[1..], id, request, start);
    }
  }

  lemma {:induction false} DeadlineClosedForm(request: Request, start: int, k: nat)
    ensures Deadline(request, start, k) == FirstDeadline(request, start) + k * (Period(request) - (MILLISECOND - 1))
  {
    if k > 0 {
      DeadlineClosedForm(request, start, k - 1);
    }
  }

  lemma PacedFromReserve(s: State, request: Request, ops: seq<Op>)
    requires Inv(s) && TickDue(s)
    requires Runs(s, [Reserve(request)] + ops) && OrderlyRun(s, [Reserve(request)] + ops)
    ensures Paced(After(s, [Reserve(request)] + ops), s.nextId, request, s.clock)
  {
    var first := Reserve(request);
    assert ([first] + ops)[1..] == ops;
    var r := Apply(s, first);
    StepInv(s, first);
    NeverCommitted(r.commits, s.nextId);
    PacedRun(r, ops, s.nextId, request, s.clock);
  }

  /** Pacing, in every orderly interleaving, from the moment a timer's id is taken: a `run_at` callback is
      committed at most 999999 ns before its time point, and any `fired` commits of another timer, the one in
      flight included, have taken `fired` periods less 999999 ns each. No timer, periodic ones included, runs
      faster. */
  lemma NeverTooFast(clock: int, before: seq<Op>, request: Request, ops: seq<Op>)
    requires Runs(Initial(clock), before) && OrderlyRun(Initial(clock), before)
    requires var s := After(Initial(clock), before);
      Runs(s, [Reserve(request)] + ops) && OrderlyRun(s, [Reserve(request)] + ops)
    ensures var s := After(Initial(clock), before); var t := After(s, [Reserve(request)] + ops);
      var fired := Fired(t, s.nextId);
      fired > 0 ==>
        if request.RunAt? then t.clock >= request.timePoint - 999_999
        else t.clock - s.clock >= fired * (request.ms * 1_000_000 - 999_999)
  {
    hide Inv, TickDue, Runs, OrderlyRun, After, Count, InFlight;
    InitialInv(clock);
    RunInv(Initial(clock), before);
    InitiallyNotDue(clock);
    TickDueRun(Initial(clock), before);
    var s := After(Initial(clock), before);
    PacedFromReserve(s, request, ops);
    var fired := Fired(After(s, [Reserve(request)] + ops), s.nextId);
    if fired > 0 {
      if request.RunAt? {
        CommitsAsAsked(s, request, ops);
      }
      DeadlineClosedForm(request, s.clock, fired - 1);
    }
  }

  lemma InitiallyNotDue(clock: int)
    ensures TickDue(Initial(clock))
  {
  }
}
