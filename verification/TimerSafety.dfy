/** How often a timer's callback is committed: after a cancel, and for repeated timers. */
module TimerSafety {
  import opened Basics
  import opened TimerModel

  function Count(commits: seq<nat>, id: nat): (n: nat) {
    if commits == [] then 0
    else Count(commits[..|commits| - 1], id) + (if commits[|commits| - 1] == id then 1 else 0)
  }

  lemma CountAppend(commits: seq<nat>, last: nat, id: nat)
    ensures Count(commits + [last], id) == Count(commits, id) + (if last == id then 1 else 0)
  {
    assert (commits + [last])[..|commits|] == commits;
  }

  // ---- Cancel ----

  /** A returned id that is no longer in the id map. */
  predicate Dead(s: State, id: nat) {
    Pushed(s, id) && id !in s.live
  }

  /** Popped, found live, and not committed yet. */
  function InFlight(s: State, id: nat): nat {
    if (s.tick.Checked? || s.tick.Unlocked?) && s.tick.node.id == id then 1 else 0
  }

  /** A cancel call on a returned id is complete when its check finds the id gone or its erase is done. Either
      way the id is dead, whatever other cancel calls of it are under way. */
  lemma CancelKills(s: State, id: nat)
    requires Inv(s) && Pushed(s, id)
    ensures id !in s.live ==> Dead(Apply(s, CancelCheck(id)), id)
    ensures id in s.cancelling ==> Dead(Apply(s, CancelErase(id)), id)
  {
  }

  /** Whether `op` is the last step of a cancel call of `id`. */
  predicate CompletesCancel(s: State, op: Op, id: nat) {
    || (op == CancelCheck(id) && id !in s.live)
    || (op == CancelErase(id) && id in s.cancelling)
  }

  lemma DeadStep(s: State, op: Op, id: nat)
    requires Inv(s) && Enabled(s, op) && Dead(s, id)
    ensures var t := Apply(s, op);
      && Dead(t, id)
      && Count(t.commits, id) + InFlight(t, id) == Count(s.commits, id) + InFlight(s, id)
      && InFlight(t, id) <= InFlight(s, id)
  {
    hide SingleInv, NodesInv;
    if op.Commit? {
      CountAppend(s.commits, s.tick.node.id, id);
    }
  }

  /** Once dead, an id never becomes live again, and the only commit of it still to come is the one that is
      in flight: whatever the other threads do, commits plus that one stay what they are. */
  lemma {:induction false} NothingAfterCancel(s: State, ops: seq<Op>, id: nat)
    requires Inv(s) && Runs(s, ops) && Dead(s, id)
    ensures var t := After(s, ops);
      && Dead(t, id)
      && Count(t.commits, id) + InFlight(t, id) == Count(s.commits, id) + InFlight(s, id)
    decreases |ops|
  {
    hide Inv, Enabled, Apply, Count, Dead, InFlight;
    if ops != [] {
      StepInv(s, ops[0]);
      DeadStep(s, ops[0], id);
      NothingAfterCancel(Apply(s, ops[0]), ops[1..], id);
    }
  }

  /** The statement for a whole run: after a cancel call of a returned id is complete, at most one commit of
      the id follows, and the id stays out of the id map. */
  lemma AtMostOneCommitAfterCancel(clock: int, before: seq<Op>, id: nat, last: Op, ops: seq<Op>)
    requires Runs(Initial(clock), before)
    requires var s := After(Initial(clock), before);
      Pushed(s, id) && CompletesCancel(s, last, id) && Runs(Apply(s, last), ops)
    ensures var s := After(Initial(clock), before); var t := After(Apply(s, last), ops);
      && id !in t.live
      && Count(s.commits, id) <= Count(t.commits, id) <= Count(s.commits, id) + 1
  {
    var s := After(Initial(clock), before);
    InitialInv(clock);
    RunInv(Initial(clock), before);
    StepInv(s, last);
    CancelKills(s, id);
    NothingAfterCancel(Apply(s, last), ops, id);
    CommitsGrow(Apply(s, last), ops, id);
  }

  lemma {:induction false} CommitsGrow(s: State, ops: seq<Op>, id: nat)
    requires Runs(s, ops)
    ensures Count(s.commits, id) <= Count(After(s, ops).commits, id)
    decreases |ops|
  {
    if ops != [] {
      if ops[0].Commit? {
        CountAppend(s.commits, s.tick.node.id, id);
      }
      CommitsGrow(Apply(s, ops[0]), ops[1..], id);
    }
  }

  // ---- Repeated timers ----

  /** The commits a request asks for in all. */
  function Asked(request: Request): nat {
    if request.RunRepeated? && request.repeatedNum > 0 then request.repeatedNum + 1 else 1
  }

  /** The commits `node` still stands for: this one, and those it will be re-queued for. */
  function Owed(node: Node): nat {
    if node.isRepeated && node.repeatedNum > 0 then node.repeatedNum + 1 else 1
  }

  function QueueOwes(queue: seq<Node>, id: nat): nat {
    if queue == [] then 0
    else QueueOwes(queue[..|queue| - 1], id) + (if queue[|queue| - 1].id == id then Owed(queue[|queue| - 1]) else 0)
  }

  function CallOwes(s: State, id: nat): nat {
    if id !in s.registering then 0
    else match s.registering[id]
      case Reserved(request) => Asked(request)
      case Emplaced(request) => Asked(request)
      case Stamped(node) => Owed(node)
  }

  function TickOwes(tick: Tick, id: nat): nat {
    if tick.Waiting? || tick.node.id != id then 0
    else if tick.Unlocked? then 1
    else Owed(tick.node)
  }

  /** All commits of `id` that are still to come unless it is cancelled. */
  function Outstanding(s: State, id: nat): nat {
    CallOwes(s, id) + QueueOwes(s.queue, id) + TickOwes(s.tick, id)
  }

  /** No periodic timer goes by this id. */
  predicate NotPeriodic(s: State, id: nat) {
    && (forall k :: 0 <= k < |s.queue| && s.queue[k].id == id ==> !s.queue[k].isPeriod)
    && (!s.tick.Waiting? && s.tick.node.id == id ==> !s.tick.node.isPeriod)
    && (id in s.registering ==> match s.registering[id]
          case Reserved(request) => !(request.RunAfter? && request.isPeriod)
          case Emplaced(request) => !(request.RunAfter? && request.isPeriod)
          case Stamped(node) => !node.isPeriod)
  }

  lemma OwesAppend(queue: seq<Node>, node: Node, id: nat)
    ensures QueueOwes(queue + [node], id) == QueueOwes(queue, id) + (if node.id == id then Owed(node) else 0)
  {
    assert (queue + [node])[..|queue|] == queue;
  }

  lemma {:induction false} OwesRemove(queue: seq<Node>, index: nat, id: nat)
    requires index < |queue|
    ensures QueueOwes(queue, id)
         == QueueOwes(Without(queue, index), id) + (if queue[index].id == id then Owed(queue[index]) else 0)
  {
    var init, last := queue[..|queue| - 1], queue[|queue| - 1];
    if index < |init| {
      OwesRemove(init, index, id);
      assert Without(queue, index) == Without(init, index) + [last];
      OwesAppend(Without(init, index), last, id);
    } else {
      assert Without(queue, index) == init;
    }
  }

  /** Whether the step is the tick thread finding that the node it popped was cancelled. */
  predicate Drops(s: State, op: Op, id: nat) {
    op.CheckLive? && s.tick.Popped? && s.tick.node.id == id && id !in s.live
  }

  lemma StaysNotPeriodic(s: State, op: Op, id: nat)
    requires Inv(s) && Enabled(s, op) && NotPeriodic(s, id) && id < s.nextId
    ensures NotPeriodic(Apply(s, op), id)
  {
    hide SingleInv;
  }

  lemma PopOwes(s: State, index: nat, id: nat)
    requires Inv(s) && Enabled(s, PopTop(index))
    ensures Outstanding(Apply(s, PopTop(index)), id) == Outstanding(s, id)
  {
    OwesRemove(s.queue, index, id);
  }

  lemma RequeueOwes(s: State, id: nat)
    requires Inv(s) && Enabled(s, Requeue) && NotPeriodic(s, id)
    ensures Outstanding(Apply(s, Requeue), id) == Outstanding(s, id)
  {
    hide RegisteringInv, SingleInv, QueueOwes;
    var again := Again(s.tick.node, s.clock);
    if again != [] {
      OwesAppend(s.queue, again[0], id);
    } else {
      assert s.queue + again == s.queue;
    }
  }

  lemma CallStepOwes(s: State, op: Op, id: nat)
    requires Inv(s) && Enabled(s, op) && id < s.nextId
    requires op.Reserve? || op.Emplace? || op.Stamp? || op.Push?
    ensures Outstanding(Apply(s, op), id) == Outstanding(s, id)
  {
    if op.Push? {
      OwesAppend(s.queue, s.registering[op.id].node, id);
    }
  }

  lemma OwedStep(s: State, op: Op, id: nat)
    requires Inv(s) && Enabled(s, op) && NotPeriodic(s, id) && id < s.nextId
    requires !Drops(s, op, id)
    ensures var t := Apply(s, op);
      Count(t.commits, id) + Outstanding(t, id) == Count(s.commits, id) + Outstanding(s, id)
  {
    match op {
      case PopTop(index) => PopOwes(s, index, id);
      case Requeue => RequeueOwes(s, id);
      case Commit => CountAppend(s.commits, s.tick.node.id, id);
      case Reserve(_) => CallStepOwes(s, op, id);
      case Emplace(_) => CallStepOwes(s, op, id);
      case Stamp(_) => CallStepOwes(s, op, id);
      case Push(_) => CallStepOwes(s, op, id);
      case _ =>
    }
  }

  lemma {:induction false} NoneOwed(queue: seq<Node>, id: nat)
    requires forall k :: 0 <= k < |queue| ==> queue[k].id != id
    ensures QueueOwes(queue, id) == 0
  {
    if queue != [] {
      NoneOwed(queue[..|queue| - 1], id);
    }
  }

  /** A dropped id has nothing outstanding: its one node was the one dropped. */
  lemma DroppedOwesNothing(s: State, op: Op, id: nat)
    requires Inv(s) && Enabled(s, op) && Drops(s, op, id)
    ensures var t := Apply(s, op);
      Dead(t, id) && Outstanding(t, id) == 0 && InFlight(t, id) == 0 && t.commits == s.commits
  {
    NoneOwed(s.queue, id);
  }

  /** Either all commits asked for are still accounted for, or the id was cancelled and its node dropped. */
  predicate Accounted(s: State, id: nat, total: nat) {
    || Count(s.commits, id) + Outstanding(s, id) == total
    || (Dead(s, id) && Outstanding(s, id) == 0 && Count(s.commits, id) <= total)
  }

  lemma NothingOutstanding(s: State, id: nat)
    requires Outstanding(s, id) == 0
    ensures InFlight(s, id) == 0 && forall op: Op :: !Drops(s, op, id)
  {
  }

  lemma InFlightIsOutstanding(s: State, id: nat)
    ensures InFlight(s, id) <= Outstanding(s, id)
  {
  }

  lemma AccountedStep(s: State, op: Op, id: nat, total: nat)
    requires Inv(s) && Enabled(s, op) && NotPeriodic(s, id) && id < s.nextId && Accounted(s, id, total)
    ensures Accounted(Apply(s, op), id, total)
  {
    hide Inv, Apply, Enabled, Count, Outstanding, NotPeriodic, InFlight, Drops, Dead;
    if Drops(s, op, id) {
      DroppedOwesNothing(s, op, id);
      if Outstanding(s, id) == 0 {
        NothingOutstanding(s, id);
      }
    } else {
      OwedStep(s, op, id);
      if Dead(s, id) && Outstanding(s, id) == 0 {
        DeadStep(s, op, id);
        NothingOutstanding(s, id);
      }
    }
  }

  lemma {:induction false} AccountedRun(s: State, ops: seq<Op>, id: nat, total: nat)
    requires Inv(s) && Runs(s, ops) && NotPeriodic(s, id) && id < s.nextId
    requires Accounted(s, id, total)
    ensures Accounted(After(s, ops), id, total)
    decreases |ops|
  {
    hide Inv, Apply, Enabled, Accounted, NotPeriodic;
    if ops != [] {
      StepInv(s, ops[0]);
      StaysNotPeriodic(s, ops[0], id);
      IdsGrow(s, ops[0]);
      AccountedStep(s, ops[0], id, total);
      AccountedRun(Apply(s, ops[0]), ops[1..], id, total);
    }
  }

  lemma IdsGrow(s: State, op: Op)
    requires Enabled(s, op)
    ensures s.nextId <= Apply(s, op).nextId
  {
  }

  lemma {:induction false} NeverCommitted(commits: seq<nat>, id: nat)
    requires forall k :: 0 <= k < |commits| ==> commits[k] != id
    ensures Count(commits, id) == 0
  {
    if commits != [] {
      NeverCommitted(commits[..|commits| - 1], id);
    }
  }

  lemma AccountedFromReserve(s: State, request: Request, ops: seq<Op>)
    requires Inv(s) && Runs(s, [Reserve(request)] + ops)
    requires !(request.RunAfter? && request.isPeriod)
    ensures Accounted(After(s, [Reserve(request)] + ops), s.nextId, Asked(request))
  {
    var id, first := s.nextId, Reserve(request);
    assert ([first] + ops)[1..] == ops;
    var r := Apply(s, first);
    StepInv(s, first);
    NeverCommitted(r.commits, id);
    NoneOwed(r.queue, id);
    AccountedRun(r, ops, id, Asked(request));
  }

  /** A timer that is not periodic runs as often as its request asks for: once, or `n + 1` times when it was
      repeated with a positive `n`. From the moment its id is taken, in every interleaving, commits made plus
      commits outstanding are exactly that number, past a cancel too, until a cancelled node is dropped; then
      nothing is outstanding. The number is never exceeded. */
  lemma CommitsAsAsked(s: State, request: Request, ops: seq<Op>)
    requires Inv(s) && Runs(s, [Reserve(request)] + ops)
    requires !(request.RunAfter? && request.isPeriod)
    ensures var id, t := s.nextId, After(s, [Reserve(request)] + ops);
      && Count(t.commits, id) + InFlight(t, id) <= Asked(request)
      && (!Dead(t, id) || Outstanding(t, id) > 0 ==> Count(t.commits, id) + Outstanding(t, id) == Asked(request))
  {
    AccountedFromReserve(s, request, ops);
    InFlightIsOutstanding(After(s, [Reserve(request)] + ops), s.nextId);
  }
}
