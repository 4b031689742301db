/** The timer of timerloop/priority_queue/timer.h as an interleaved transition system.

    Client threads register timers and cancel them; one tick thread pops the queue. A step is what one thread
    does without another thread being able to see the middle of it: an access to the atomic id counter, a
    locked access to the id map, a reading of the clock, or a change of the queue under `tm_mutex`. Times are
    nanoseconds, the tick of the clock the source reads. */
module TimerModel {
  import opened Basics

  const MILLISECOND: int := 1_000_000

  datatype Node = Node(id: nat, deadline: int, period: int, isPeriod: bool, isRepeated: bool, repeatedNum: int)

  datatype Request =
    | RunAt(timePoint: int)
    | RunAfter(ms: int, isPeriod: bool)
    | RunRepeated(ms: int, repeatedNum: int)

  /** How far a `run_...` call has come that has not returned yet. */
  datatype Phase =
    | Reserved(request: Request)  // has its id
    | Emplaced(request: Request)  // the id is in the id map
    | Stamped(node: Node)         // the clock was read; waits for the mutex

  datatype Tick =
    | Waiting
    | Popped(node: Node)    // popped, mutex held
    | Checked(node: Node)   // found in the id map, mutex held
    | Unlocked(node: Node)  // re-queued if due again, mutex released, commit outstanding

  datatype State = State(
    clock: int,
    nextId: nat,
    registering: map<nat, Phase>,
    live: set<nat>,            // keys of tm_id_state_map
    queue: seq<Node>,          // the heap's elements, in no particular order
    tick: Tick,
    cancelling: multiset<nat>, // cancel calls between their check and their erase
    commits: seq<nat>)         // ids handed to the thread pool, in order

  datatype Op =
    | Advance(time: int)
    | Reserve(request: Request)
    | Emplace(id: nat)
    | Stamp(id: nat)
    | Push(id: nat)
    | CancelCheck(id: nat)
    | CancelErase(id: nat)
    | PopTop(index: nat)
    | CheckLive
    | Requeue
    | Commit

  function MakeNode(id: nat, request: Request, now: int): Node {
    match request
    case RunAt(timePoint) => Node(id, timePoint, 0, false, false, 0)
    case RunAfter(ms, isPeriod) => Node(id, now + ms * MILLISECOND, ms * MILLISECOND, isPeriod, false, 0)
    case RunRepeated(ms, num) => Node(id, now + ms * MILLISECOND, ms * MILLISECOND, false, true, num)
  }

  /** The top of the heap: no deadline is earlier. Which of several equal ones comes first is left open. */
  predicate IsTop(queue: seq<Node>, index: nat) {
    index < |queue| && forall node <- queue :: queue[index].deadline <= node.deadline
  }

  /** `duration_cast` to milliseconds truncates toward zero, so less than one millisecond counts as none. */
  predicate Due(node: Node, now: int) {
    node.deadline - now < MILLISECOND
  }

  predicate MutexFree(s: State) {
    s.tick.Waiting? || s.tick.Unlocked?
  }

  predicate Enabled(s: State, op: Op) {
    match op
    case Advance(_) => true
    case Reserve(_) => true
    case Emplace(id) => id in s.registering && s.registering[id].Reserved?
    case Stamp(id) => id in s.registering && s.registering[id].Emplaced?
    case Push(id) => id in s.registering && s.registering[id].Stamped? && MutexFree(s)
    case CancelCheck(_) => true
    case CancelErase(id) => id in s.cancelling
    case PopTop(index) => s.tick.Waiting? && IsTop(s.queue, index) && Due(s.queue[index], s.clock)
    case CheckLive => s.tick.Popped?
    case Requeue => s.tick.Checked?
    case Commit => s.tick.Unlocked?
  }

  /** What goes back into the queue when `node` has been popped and found live at time `now`. */
  function Again(node: Node, now: int): seq<Node> {
    if node.isPeriod then [node.(deadline := now + node.period)]
    else if node.isRepeated && node.repeatedNum > 0 then
      [node.(deadline := now + node.period, repeatedNum := node.repeatedNum - 1)]
    else []
  }

  function Apply(s: State, op: Op): State
    requires Enabled(s, op)
  {
    match op
    case Advance(time) => s.(clock := time)
    case Reserve(request) =>
      s.(nextId := s.nextId + 1, registering := s.registering[s.nextId := Reserved(request)])
    case Emplace(id) =>
      s.(live := s.live + {id}, registering := s.registering[id := Emplaced(s.registering[id].request)])
    case Stamp(id) =>
      s.(registering := s.registering[id := Stamped(MakeNode(id, s.registering[id].request, s.clock))])
    case Push(id) =>
      s.(queue := s.queue + [s.registering[id].node], registering := s.registering - {id})
    case CancelCheck(id) =>
      if id in s.live then s.(cancelling := s.cancelling + multiset{id}) else s
    case CancelErase(id) =>
      s.(live := s.live - {id}, cancelling := s.cancelling - multiset{id})
    case PopTop(index) =>
      s.(tick := Popped(s.queue[index]), queue := Without(s.queue, index))
    case CheckLive =>
      s.(tick := if s.tick.node.id in s.live then Checked(s.tick.node) else Waiting)
    case Requeue =>
      s.(queue := s.queue + Again(s.tick.node, s.clock), tick := Unlocked(s.tick.node))
    case Commit =>
      s.(commits := s.commits + [s.tick.node.id], tick := Waiting)
  }

  predicate Runs(s: State, ops: seq<Op>)
    decreases |ops|
  {
    ops == [] || (Enabled(s, ops[0]) && Runs(Apply(s, ops[0]), ops[1..]))
  }

  function After(s: State, ops: seq<Op>): State
    requires Runs(s, ops)
    decreases |ops|
  {
    if ops == [] then s else After(Apply(s, ops[0]), ops[1..])
  }

  function Initial(clock: int): State {
    State(clock, 0, map[], {}, [], Waiting, multiset{}, [])
  }

  // ---- What every step keeps ----

  /** The node in the tick thread's hands that is no longer in the queue and not yet back in it. */
  predicate Holds(tick: Tick, id: nat) {
    (tick.Popped? || tick.Checked?) && tick.node.id == id
  }

  predicate DistinctIds(queue: seq<Node>) {
    forall j, k :: 0 <= j < k < |queue| ==> queue[j].id != queue[k].id
  }

  /** The ids given out so far, less those of calls that have not pushed yet. */
  predicate Pushed(s: State, id: nat) {
    id < s.nextId && id !in s.registering
  }

  predicate RegisteringInv(s: State) {
    && (forall id :: id in s.registering ==> id < s.nextId)
    && (forall id :: id in s.registering && s.registering[id].Stamped? ==> s.registering[id].node.id == id)
    && (forall id :: id in s.live ==> id < s.nextId)
  }

  predicate NodesInv(s: State) {
    && (forall k :: 0 <= k < |s.queue| ==> Pushed(s, s.queue[k].id))
    && (!s.tick.Waiting? ==> Pushed(s, s.tick.node.id))
    && (forall k :: 0 <= k < |s.commits| ==> Pushed(s, s.commits[k]))
  }

  predicate SingleInv(s: State) {
    && DistinctIds(s.queue)
    && (forall k :: 0 <= k < |s.queue| ==> !Holds(s.tick, s.queue[k].id))
  }

  /** An id belongs to one registering call, or to one queued node, or to the node just popped. */
  predicate Inv(s: State) {
    RegisteringInv(s) && NodesInv(s) && SingleInv(s)
  }

  lemma InitialInv(clock: int)
    ensures Inv(Initial(clock))
  {
  }

  lemma StepNodesInv(s: State, op: Op)
    requires RegisteringInv(s) && NodesInv(s) && Enabled(s, op)
    ensures NodesInv(Apply(s, op))
  {
    var t := Apply(s, op);
    forall id | Pushed(s, id) ensures Pushed(t, id) {
    }
  }

  lemma StepSingleInv(s: State, op: Op)
    requires RegisteringInv(s) && NodesInv(s) && SingleInv(s) && Enabled(s, op)
    ensures SingleInv(Apply(s, op))
  {
    match op {
      case PopTop(index) =>
        WithoutKeepsDistinct(s.queue, index);
      case _ =>
    }
  }

  lemma WithoutKeepsDistinct(queue: seq<Node>, index: nat)
    requires DistinctIds(queue) && index < |queue|
    ensures DistinctIds(Without(queue, index))
    ensures forall k :: 0 <= k < |queue| - 1 ==> Without(queue, index)[k].id != queue[index].id
  {
  }

  lemma StepInv(s: State, op: Op)
    requires Inv(s) && Enabled(s, op)
    ensures Inv(Apply(s, op))
  {
    hide NodesInv, SingleInv, IsTop;
    StepNodesInv(s, op);
    StepSingleInv(s, op);
  }

  lemma {:induction false} RunInv(s: State, ops: seq<Op>)
    requires Inv(s) && Runs(s, ops)
    ensures Inv(After(s, ops))
    decreases |ops|
  {
    hide Inv, Enabled, Apply;
    if ops != [] {
      StepInv(s, ops[0]);
      RunInv(Apply(s, ops[0]), ops[1..]);
    }
  }

  /** In every reachable state, an id has at most one queued node. */
  lemma OneNodePerId(clock: int, ops: seq<Op>, j: nat, k: nat)
    requires Runs(Initial(clock), ops)
    requires j < k < |After(Initial(clock), ops).queue|
    ensures var queue := After(Initial(clock), ops).queue; queue[j].id != queue[k].id
  {
    InitialInv(clock);
    RunInv(Initial(clock), ops);
  }
}
