/** `Timer` of timerloop/priority_queue/timer.h as an object. Each method is the code one thread executes; its
    contract names the steps of `TimerModel` it consists of, here without another thread in between. */
module TimerObject {
  import opened Basics
  import opened TimerModel

  class Timer {
    var clock: int  // what `high_resolution_clock::now()` returns
    var tmId: nat
    var tmIdStateMap: set<nat>
    var tmQueue: seq<Node>
    var commits: seq<nat>

    ghost function State(): State
      reads this
    {
      TimerModel.State(clock, tmId, map[], tmIdStateMap, tmQueue, Waiting, multiset{}, commits)
    }

    constructor (now: int)
      ensures State() == Initial(now)
    {
      clock, tmId, tmIdStateMap, tmQueue, commits := now, 0, {}, [], [];
    }

    /** The common course of `run_after`, `run_at` and `run_repeated`. */
    method Register(request: Request) returns (id: nat)
      modifies this
      ensures id == old(tmId) && tmIdStateMap == old(tmIdStateMap) + {id}
      ensures tmQueue == old(tmQueue) + [MakeNode(id, request, clock)] && commits == old(commits)
      ensures var ops := [Reserve(request), Emplace(id), Stamp(id), Push(id)];
        Runs(old(State()), ops) && State() == After(old(State()), ops)
    {
      id := tmId;
      tmId := tmId + 1;
      tmIdStateMap := tmIdStateMap + {id};
      var node := MakeNode(id, request, clock);
      tmQueue := tmQueue + [node];
      RegisterRun(old(State()), request);
    }

    method RunAfter(ms: int, isPeriod: bool) returns (id: nat)
      modifies this
      ensures id == old(tmId) && tmIdStateMap == old(tmIdStateMap) + {id}
      ensures tmQueue == old(tmQueue) + [Node(id, clock + ms * 1_000_000, ms * 1_000_000, isPeriod, false, 0)]
      ensures var ops := [Reserve(Request.RunAfter(ms, isPeriod)), Emplace(id), Stamp(id), Push(id)];
        Runs(old(State()), ops) && State() == After(old(State()), ops)
    {
      id := Register(Request.RunAfter(ms, isPeriod));
    }

    method RunAt(timePoint: int) returns (id: nat)
      modifies this
      ensures id == old(tmId) && tmIdStateMap == old(tmIdStateMap) + {id}
      ensures tmQueue == old(tmQueue) + [Node(id, timePoint, 0, false, false, 0)]
      ensures var ops := [Reserve(Request.RunAt(timePoint)), Emplace(id), Stamp(id), Push(id)];
        Runs(old(State()), ops) && State() == After(old(State()), ops)
    {
      id := Register(Request.RunAt(timePoint));
    }

    method RunRepeated(ms: int, repeatedNum: int) returns (id: nat)
      modifies this
      ensures id == old(tmId) && tmIdStateMap == old(tmIdStateMap) + {id}
      ensures tmQueue == old(tmQueue) + [Node(id, clock + ms * 1_000_000, ms * 1_000_000, false, true, repeatedNum)]
      ensures var ops := [Reserve(Request.RunRepeated(ms, repeatedNum)), Emplace(id), Stamp(id), Push(id)];
        Runs(old(State()), ops) && State() == After(old(State()), ops)
    {
      id := Register(Request.RunRepeated(ms, repeatedNum));
    }

    method Cancel(id: nat)
      modifies `tmIdStateMap
      ensures id !in tmIdStateMap
      ensures var ops := if id in old(tmIdStateMap) then [CancelCheck(id), CancelErase(id)] else [CancelCheck(id)];
        Runs(old(State()), ops) && State() == After(old(State()), ops)
    {
      if id in tmIdStateMap {
        tmIdStateMap := tmIdStateMap - {id};
      }
      CancelRun(old(State()), id);
    }

    /** The heap's `top`. */
    method Top() returns (index: nat)
      requires tmQueue != []
      ensures IsTop(tmQueue, index)
    {
      index := 0;
      for k := 1 to |tmQueue|
        invariant index < |tmQueue|
        invariant forall j :: 0 <= j < k ==> tmQueue[index].deadline <= tmQueue[j].deadline
      {
        if tmQueue[k].deadline < tmQueue[index].deadline {
          index := k;
        }
      }
    }

    /** One pass of the loop in `run_local`: if nothing is due it waits, which changes nothing. Otherwise it
        pops a node of minimal deadline, and drops it if its id is gone, or else queues it again if it is to
        run again and commits it. */
    method RunLocalOnce() returns (ghost ops: seq<Op>)
      modifies this
      ensures Runs(old(State()), ops) && State() == After(old(State()), ops)
      ensures clock == old(clock) && tmIdStateMap == old(tmIdStateMap)
      ensures if forall node <- old(tmQueue) :: node.deadline - clock >= 1_000_000 then
          ops == [] && tmQueue == old(tmQueue) && commits == old(commits)
        else
          && ops != [] && ops[0].PopTop? && IsTop(old(tmQueue), ops[0].index)
          && var node, rest := old(tmQueue)[ops[0].index], Without(old(tmQueue), ops[0].index);
          if node.id !in tmIdStateMap then
            ops == [ops[0], CheckLive] && tmQueue == rest && commits == old(commits)
          else
            && ops == [ops[0], CheckLive, Requeue, Commit] && commits == old(commits) + [node.id]
            && tmQueue == rest + (
                 if node.isPeriod then [node.(deadline := clock + node.period)]
                 else if node.isRepeated && node.repeatedNum > 0 then
                   [node.(deadline := clock + node.period, repeatedNum := node.repeatedNum - 1)]
                 else [])
    {
      if tmQueue == [] {
        NoSteps(State());
        return [];
      }
      hide Due, IsTop, Runs, After, Without;
      var index := Top();
      NoneDueExactly(tmQueue, index, clock);
      var s := tmQueue[index];
      if !Due(s, clock) {
        NoSteps(old(State()));
        return [];
      }
      tmQueue := Without(tmQueue, index);
      if s.id !in tmIdStateMap {
        ops := [PopTop(index), CheckLive];
        DropRun(old(State()), index);
        return;
      }
      if s.isPeriod {
        tmQueue := tmQueue + [s.(deadline := clock + s.period)];
      } else if s.isRepeated && s.repeatedNum > 0 {
        tmQueue := tmQueue + [s.(deadline := clock + s.period, repeatedNum := s.repeatedNum - 1)];
      }
      commits := commits + [s.id];
      ops := [PopTop(index), CheckLive, Requeue, Commit];
      CommitRun(old(State()), index);
    }
  }

  lemma NoneDueExactly(queue: seq<Node>, index: nat, now: int)
    requires IsTop(queue, index)
    ensures index < |queue|
    ensures (forall node <- queue :: node.deadline - now >= 1_000_000) <==> !Due(queue[index], now)
  {
    assert queue[index] in queue;
  }

  lemma NoSteps(s: State)
    ensures Runs(s, []) && After(s, []) == s
  {
  }

  lemma Unfold(s: State, op: Op, ops: seq<Op>)
    requires Enabled(s, op) && Runs(Apply(s, op), ops)
    ensures Runs(s, [op] + ops) && After(s, [op] + ops) == After(Apply(s, op), ops)
  {
    assert ([op] + ops)[1..] == ops;
  }

  lemma RegisterRun(s: State, request: Request)
    requires s.registering == map[] && s.tick.Waiting?
    ensures var id := s.nextId; var ops := [Reserve(request), Emplace(id), Stamp(id), Push(id)];
      Runs(s, ops) && After(s, ops) == s.(nextId := id + 1, live := s.live + {id},
                                          queue := s.queue + [MakeNode(id, request, s.clock)])
  {
    var id := s.nextId;
    var s1 := Apply(s, Reserve(request));
    var s2 := Apply(s1, Emplace(id));
    var s3 := Apply(s2, Stamp(id));
    var s4 := Apply(s3, Push(id));
    assert s4.registering == map[];
    Unfold(s3, Push(id), []);
    Unfold(s2, Stamp(id), [Push(id)]);
    Unfold(s1, Emplace(id), [Stamp(id), Push(id)]);
    Unfold(s, Reserve(request), [Emplace(id), Stamp(id), Push(id)]);
    assert [Reserve(request)] + [Emplace(id), Stamp(id), Push(id)] == [Reserve(request), Emplace(id), Stamp(id), Push(id)];
    assert [Emplace(id)] + [Stamp(id), Push(id)] == [Emplace(id), Stamp(id), Push(id)];
    assert [Stamp(id)] + [Push(id)] == [Stamp(id), Push(id)];
  }

  lemma CancelRun(s: State, id: nat)
    requires s.cancelling == multiset{}
    ensures var ops := if id in s.live then [CancelCheck(id), CancelErase(id)] else [CancelCheck(id)];
      Runs(s, ops) && After(s, ops) == s.(live := s.live - {id})
  {
    var s1 := Apply(s, CancelCheck(id));
    if id in s.live {
      var s2 := Apply(s1, CancelErase(id));
      Unfold(s1, CancelErase(id), []);
      Unfold(s, CancelCheck(id), [CancelErase(id)]);
      assert [CancelCheck(id)] + [CancelErase(id)] == [CancelCheck(id), CancelErase(id)];
    } else {
      Unfold(s, CancelCheck(id), []);
      assert s.live - {id} == s.live;
    }
  }

  lemma DropRun(s: State, index: nat)
    requires Enabled(s, PopTop(index)) && s.queue[index].id !in s.live
    ensures var ops := [PopTop(index), CheckLive];
      Runs(s, ops) && After(s, ops) == s.(queue := Without(s.queue, index))
  {
    var s1 := Apply(s, PopTop(index));
    Unfold(s1, CheckLive, []);
    Unfold(s, PopTop(index), [CheckLive]);
    assert [PopTop(index)] + [CheckLive] == [PopTop(index), CheckLive];
  }

  lemma CommitRun(s: State, index: nat)
    requires Enabled(s, PopTop(index)) && s.queue[index].id in s.live
    ensures var ops := [PopTop(index), CheckLive, Requeue, Commit]; var node := s.queue[index];
      Runs(s, ops) && After(s, ops) == s.(queue := Without(s.queue, index) + Again(node, s.clock),
                                          commits := s.commits + [node.id])
  {
    var s1 := Apply(s, PopTop(index));
    var s2 := Apply(s1, CheckLive);
    var s3 := Apply(s2, Requeue);
    NoSteps(Apply(s3, Commit));
    hide Runs, After, Again, Without, IsTop, Due;
    Unfold(s3, Commit, []);
    Unfold(s2, Requeue, [Commit]);
    assert [Requeue] + [Commit] == [Requeue, Commit];
    Unfold(s1, CheckLive, [Requeue, Commit]);
    assert [CheckLive] + [Requeue, Commit] == [CheckLive, Requeue, Commit];
    Unfold(s, PopTop(index), [CheckLive, Requeue, Commit]);
    assert [PopTop(index)] + [CheckLive, Requeue, Commit] == [PopTop(index), CheckLive, Requeue, Commit];
  }
}
