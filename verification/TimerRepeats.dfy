/** What keeps a timer running: its place in the queue and the deadlines it is queued with. */
module TimerRepeats {
  import opened Basics
  import opened TimerModel
  import opened TimerSafety

  // ---- Nothing but a cancel takes an id out of the id map ----

  /** The id is taken and, once its call has put it in the id map, is in there. */
  predicate Kept(s: State, id: nat) {
    id < s.nextId && (id in s.live || (id in s.registering && s.registering[id].Reserved?))
  }

  predicate NeverErased(ops: seq<Op>, id: nat) {
    forall k :: 0 <= k < |ops| ==> ops[k] != CancelErase(id)
  }

  lemma {:induction false} KeptRun(s: State, ops: seq<Op>, id: nat)
    requires Runs(s, ops) && Kept(s, id) && NeverErased(ops, id)
    ensures Kept(After(s, ops), id)
    decreases |ops|
  {
    if ops != [] {
      assert ops[0] != CancelErase(id);
      assert Kept(Apply(s, ops[0]), id);
      hide Apply, Enabled, Kept;
      KeptRun(Apply(s, ops[0]), ops[1..], id);
    }
  }

  // ---- What a timer's nodes are, as its request asked ----

  predicate Periodic(request: Request) {
    request.RunAfter? && request.isPeriod
  }

  /** A node of a request: whether it repeats for ever, or a number of times, and its period in nanoseconds. */
  predicate NodeAsAsked(node: Node, request: Request) {
    && (node.isPeriod <==> Periodic(request))
    && (node.isRepeated <==> request.RunRepeated?)
    && (!request.RunAt? ==> node.period == request.ms * 1_000_000)
  }

  predicate CallAsAsked(s: State, id: nat, request: Request) {
    id in s.registering ==>
      match s.registering[id]
      case Reserved(r) => r == request
      case Emplaced(r) => r == request
      case Stamped(node) => NodeAsAsked(node, request)
  }

  predicate QueueAsAsked(queue: seq<Node>, id: nat, request: Request) {
    forall k :: 0 <= k < |queue| && queue[k].id == id ==> NodeAsAsked(queue[k], request)
  }

  predicate AsAsked(s: State, id: nat, request: Request) {
    && CallAsAsked(s, id, request)
    && QueueAsAsked(s.queue, id, request)
    && (!s.tick.Waiting? && s.tick.node.id == id ==> NodeAsAsked(s.tick.node, request))
  }

  lemma CallAsAskedStep(s: State, op: Op, id: nat, request: Request)
    requires Enabled(s, op) && CallAsAsked(s, id, request) && id < s.nextId
    ensures CallAsAsked(Apply(s, op), id, request)
  {
    hide IsTop, Due;
  }

  lemma QueueAsAskedStep(s: State, op: Op, id: nat, request: Request)
    requires Inv(s) && Enabled(s, op) && AsAsked(s, id, request)
    ensures QueueAsAsked(Apply(s, op).queue, id, request)
  {
    hide Due, SingleInv, NodesInv, NodeAsAsked;
    if op.Requeue? {
      AgainAsAsked(s.tick.node, s.clock, request);
    }
  }

  lemma AgainAsAsked(node: Node, now: int, request: Request)
    ensures forall k :: 0 <= k < |Again(node, now)| ==>
      Again(node, now)[k].id == node.id && (NodeAsAsked(node, request) ==> NodeAsAsked(Again(node, now)[k], request))
  {
  }

  lemma AsAskedStep(s: State, op: Op, id: nat, request: Request)
    requires Inv(s) && Enabled(s, op) && AsAsked(s, id, request) && id < s.nextId
    ensures AsAsked(Apply(s, op), id, request)
  {
    CallAsAskedStep(s, op, id, request);
    QueueAsAskedStep(s, op, id, request);
    hide CallAsAsked, NodeAsAsked, Inv, Due, Again, Without;
  }

  // ---- A periodic timer never leaves ----

  /** A queued node has the id, or the tick thread has popped one and not put it back yet. */
  predicate Standing(s: State, id: nat) {
    (exists k :: 0 <= k < |s.queue| && s.queue[k].id == id) || Holds(s.tick, id)
  }

  /** The id is registered, live and periodic. */
  predicate StandsIfLive(s: State, id: nat) {
    Pushed(s, id) && id in s.live ==> Standing(s, id)
  }

  lemma StandingStep(s: State, op: Op, id: nat, request: Request)
    requires Inv(s) && Enabled(s, op) && AsAsked(s, id, request) && Periodic(request) && id < s.nextId
    requires StandsIfLive(s, id)
    ensures StandsIfLive(Apply(s, op), id)
  {
    hide SingleInv, Due;
    var t := Apply(s, op);
    if Pushed(t, id) && id in t.live {
      if op == Push(id) {
        assert t.queue[|s.queue|].id == id;
      } else if op.Requeue? && s.tick.node.id == id {
        assert t.queue[|s.queue|].id == id;
      } else if k :| 0 <= k < |s.queue| && s.queue[k].id == id {
        if op.PopTop? {
          assert k != op.index ==> t.queue[if k < op.index then k else k - 1].id == id;
        } else {
          assert t.queue[k].id == id;
        }
      }
    }
  }

  // ---- The main statements, from the moment an id is taken ----

  /** All that is kept about a timer from its call on. */
  predicate Registered(s: State, id: nat, request: Request) {
    id < s.nextId && AsAsked(s, id, request) && (Periodic(request) ==> StandsIfLive(s, id))
  }

  lemma RegisteredStep(s: State, op: Op, id: nat, request: Request)
    requires Inv(s) && Enabled(s, op) && Registered(s, id, request)
    ensures Registered(Apply(s, op), id, request)
  {
    hide Inv, AsAsked, StandsIfLive, Apply, Enabled;
    AsAskedStep(s, op, id, request);
    IdsGrow(s, op);
    if Periodic(request) {
      StandingStep(s, op, id, request);
    }
  }

  lemma {:induction false} RegisteredRun(s: State, ops: seq<Op>, id: nat, request: Request)
    requires Inv(s) && Runs(s, ops) && Registered(s, id, request)
    ensures Inv(After(s, ops)) && Registered(After(s, ops), id, request)
    decreases |ops|
  {
    hide Inv, Apply, Enabled, Registered;
    if ops != [] {
      StepInv(s, ops[0]);
      RegisteredStep(s, ops[0], id, request);
      RegisteredRun(Apply(s, ops[0]), ops[1..], id, request);
    }
  }

  lemma FromReserve(s: State, request: Request, ops: seq<Op>)
    requires Inv(s) && Runs(s, [Reserve(request)] + ops)
    ensures var t := After(s, [Reserve(request)] + ops); Inv(t) && Registered(t, s.nextId, request)
    ensures NeverErased(ops, s.nextId) ==> Kept(After(s, [Reserve(request)] + ops), s.nextId)
  {
    var first := Reserve(request);
    assert ([first] + ops)[1..] == ops;
    var r := Apply(s, first);
    StepInv(s, first);
    assert Registered(r, s.nextId, request) && Kept(r, s.nextId);
    hide Inv, Registered, Kept, NeverErased;
    RegisteredRun(r, ops, s.nextId, request);
    if NeverErased(ops, s.nextId) {
      KeptRun(r, ops, s.nextId);
    }
  }

  /** A periodic timer runs for ever: in every interleaving, once its call has pushed it and as long as its id is
      in the id map, a node of it is queued or in the tick thread's hands on its way back. Nothing but a cancel
      takes the id out of the id map. */
  lemma PeriodicKeepsRunning(s: State, ms: int, ops: seq<Op>)
    requires Inv(s) && Runs(s, [Reserve(RunAfter(ms, true))] + ops)
    ensures var id, t := s.nextId, After(s, [Reserve(RunAfter(ms, true))] + ops);
      && (NeverErased(ops, id) && id !in t.registering ==> id in t.live)
      && (id !in t.registering && id in t.live ==>
            || (exists k :: 0 <= k < |t.queue| && t.queue[k].id == id)
            || ((t.tick.Popped? || t.tick.Checked?) && t.tick.node.id == id))
  {
    FromReserve(s, RunAfter(ms, true), ops);
    hide Inv, Runs, After, AsAsked;
  }

  lemma StampedDeadline(s: State, id: nat, request: Request)
    requires Registered(s, id, request) && Enabled(s, Stamp(id))
    ensures Apply(s, Stamp(id)).registering[id].node.deadline
         == if request.RunAt? then request.timePoint else s.clock + request.ms * 1_000_000
  {
  }

  /** Whether the tick thread is to queue the node again that it found live. */
  predicate RunsAgain(s: State, id: nat, request: Request) {
    Periodic(request) || (request.RunRepeated? && Count(s.commits, id) < request.repeatedNum)
  }

  lemma RequeuedDeadline(s: State, id: nat, request: Request)
    requires Inv(s) && Registered(s, id, request) && Enabled(s, Requeue) && s.tick.node.id == id
    requires !Periodic(request) ==> Accounted(s, id, Asked(request))
    ensures var queue := Apply(s, Requeue).queue;
      if RunsAgain(s, id, request) then
        && |queue| == |s.queue| + 1 && queue[..|s.queue|] == s.queue
        && queue[|s.queue|].id == id && queue[|s.queue|].deadline == s.clock + request.ms * 1_000_000
      else queue == s.queue
  {
    NoneOwed(s.queue, id);
    hide QueueOwes, Count;
  }

  /** With which deadlines a timer is queued: first the time point of `run_at`, or the clock when it is read plus
      the period; then, each time the tick thread found it live, the clock plus the period. It is queued again
      for ever if it is periodic, and if it is repeated exactly as long as fewer commits were made than the
      repeat count. */
  lemma QueuedAsAsked(s: State, request: Request, ops: seq<Op>)
    requires Inv(s) && Runs(s, [Reserve(request)] + ops)
    ensures var id, t := s.nextId, After(s, [Reserve(request)] + ops);
      && (Enabled(t, Stamp(id)) ==>
            Apply(t, Stamp(id)).registering[id].node.deadline
              == if request.RunAt? then request.timePoint else t.clock + request.ms * 1_000_000)
      && (Enabled(t, Requeue) && t.tick.node.id == id ==>
            var queue := Apply(t, Requeue).queue;
            if RunsAgain(t, id, request) then
              && |queue| == |t.queue| + 1 && queue[..|t.queue|] == t.queue
              && queue[|t.queue|].id == id && queue[|t.queue|].deadline == t.clock + request.ms * 1_000_000
            else queue == t.queue)
  {
    hide Registered, RunsAgain, Accounted, Runs, After;
    var id, t := s.nextId, After(s, [Reserve(request)] + ops);
    FromReserve(s, request, ops);
    if !Periodic(request) {
      AccountedFromReserve(s, request, ops);
    }
    hide Inv;
    if Enabled(t, Stamp(id)) {
      StampedDeadline(t, id, request);
    }
    if Enabled(t, Requeue) && t.tick.node.id == id {
      RequeuedDeadline(t, id, request);
    }
  }

  /** When a timer that is not periodic was not cancelled and nothing of it is left, neither in a call nor in the
      queue nor in the tick thread's hands, it has been committed exactly as often as asked. */
  lemma AllCommitted(s: State, request: Request, ops: seq<Op>)
    requires Inv(s) && Runs(s, [Reserve(request)] + ops) && !Periodic(request) && NeverErased(ops, s.nextId)
    requires var t := After(s, [Reserve(request)] + ops);
      && s.nextId !in t.registering && (forall k :: 0 <= k < |t.queue| ==> t.queue[k].id != s.nextId)
      && (!t.tick.Waiting? ==> t.tick.node.id != s.nextId)
    ensures Count(After(s, [Reserve(request)] + ops).commits, s.nextId)
         == if request.RunRepeated? && request.repeatedNum > 0 then request.repeatedNum + 1 else 1
  {
    var id, t := s.nextId, After(s, [Reserve(request)] + ops);
    FromReserve(s, request, ops);
    CommitsAsAsked(s, request, ops);
    NoneOwed(t.queue, id);
    hide Inv, Runs, After, Count, QueueOwes;
  }
}
