/** Every task is in exactly one place on every run, and when exactly an assert of the runtime fires. */
module TaskSafety {
  import opened Basics
  import opened StealModel
  import opened TaskModel

  // ---------------------------------------------------------------- queues

  lemma {:induction false} PopCounts(queues: seq<seq<TaskId>>, p: nat, t: TaskId)
    requires p < |queues| && queues[p] != []
    ensures Queued(queues[p := queues[p][1..]], t) == Queued(queues, t) - if t == queues[p][0] then 1 else 0
  {
    QueuedUpdate(queues, p, queues[p][1..], t);
    assert queues[p] == [queues[p][0]] + queues[p][1..];
  }

  lemma {:induction false} PushCounts(queues: seq<seq<TaskId>>, p: nat, x: TaskId, t: TaskId)
    requires p < |queues|
    ensures Queued(queues[p := queues[p] + [x]], t) == Queued(queues, t) + if t == x then 1 else 0
  {
    QueuedUpdate(queues, p, queues[p] + [x], t);
  }

  // ---------------------------------------------------------------- switching

  /** A task as its own call marked it just before the switch: still current, queued nowhere. */
  ghost predicate Outgoing(s: State, p: nat)
    requires p < |s.current| && s.current[p] < |s.tasks|
  {
    var from := s.current[p];
    && multiset(s.current)[from] == 1
    && Queued(s.queues, from) == 0
    && s.tasks[from].state != Ready
    && !s.tasks[from].pc.Published?
    && (Idle(s, from) ==> s.tasks[from].state == Running && from == p)
  }

  ghost predicate Incoming(s: State, p: nat, to: TaskId)
    requires to < |s.tasks|
  {
    && s.tasks[to].state == Ready
    && !s.tasks[to].pc.Published?
    && multiset(s.current)[to] == 0
    && Queued(s.queues, to) == 0
    && (Idle(s, to) ==> to == p)
  }

  /** A switch on processor p: of the tasks only the scheduling state differs, RUNNING becoming READY
      for the old task and READY becoming RUNNING for one that nobody else runs. */
  ghost predicate Rescheduled(s: State, p: nat, s': State)
    requires p < |s.current|
  {
    && |s'.tasks| == |s.tasks| && |s'.current| == |s.current|
    && s'.returned == s.returned && s'.pending == s.pending
    && s'.joined == s.joined && s'.received == s.received
    && (forall q :: 0 <= q < |s.current| && q != p ==> s'.current[q] == s.current[q])
    && forall t :: 0 <= t < |s.tasks| ==>
         && s'.tasks[t] == s.tasks[t].(state := s'.tasks[t].state)
         && (s.tasks[t].state != s'.tasks[t].state ==>
               || (s.tasks[t].state == Running && s'.tasks[t].state == Ready && t == s.current[p])
               || (s.tasks[t].state == Ready && s'.tasks[t].state == Running && !s.tasks[t].Overtaken()))
  }

  lemma {:induction false} SwitchPlaces(s: State, p: nat, to: TaskId, t: TaskId)
    requires Shape(s) && p < |s.current| && to < |s.tasks| && to != s.current[p] && t < |s.tasks|
    requires Outgoing(s, p) && Incoming(s, p, to)
    requires t != s.current[p] && t != to ==> Placed(s, t)
    requires SwitchTo(s, p, to).Ok?
    ensures |SwitchTo(s, p, to).value.tasks| == |s.tasks| && Placed(SwitchTo(s, p, to).value, t)
  {
    var from := s.current[p];
    var s' := SwitchTo(s, p, to).value;
    PushCounts(s.queues, p, from, t);
    ReplaceCounts(s.current, p, to, t);
  }

  lemma {:induction false} ReplaceCounts(current: seq<TaskId>, p: nat, to: TaskId, t: TaskId)
    requires p < |current|
    ensures multiset(current[p := to])[t] ==
            multiset(current)[t] - (if t == current[p] then 1 else 0) + (if t == to then 1 else 0)
  {}

  lemma {:induction false} SwitchKeeps(s: State, p: nat, to: TaskId)
    requires Shape(s) && p < |s.current| && to < |s.tasks| && to != s.current[p]
    requires Outgoing(s, p) && Incoming(s, p, to)
    ensures SwitchTo(s, p, to).Ok?
    ensures Shape(SwitchTo(s, p, to).value) && Rescheduled(s, p, SwitchTo(s, p, to).value)
  {
    assert to !in multiset(s.current);
  }

  /** Switching to a task that is current on another processor is noticed by no assert. */
  lemma {:induction false} SwitchToRunning(s: State, p: nat, to: TaskId)
    requires Shape(s) && p < |s.current| && to < |s.tasks| && to != s.current[p]
    requires Outgoing(s, p) && s.tasks[to].state == Ready && multiset(s.current)[to] > 0
    ensures SwitchTo(s, p, to).StaleContext?
  {
    assert to in s.current;
  }

  ghost predicate YieldReady(m: State, p: nat) {
    && Shape(m) && p < |m.current|
    && Outgoing(m, p)
    && forall t :: 0 <= t < |m.tasks| && t != m.current[p] ==> Placed(m, t)
  }

  lemma {:induction false} BalanceKeepsReady(m: State, p: nat)
    requires YieldReady(m, p)
    ensures YieldReady(Rebalanced(m, p), p)
  {
    BalanceKeepsShape(m, p);
    BalanceConserves(m.queues, p, m.current[p]);
    forall t | 0 <= t < |m.tasks| && t != m.current[p] ensures Placed(Rebalanced(m, p), t) {
      BalanceConserves(m.queues, p, t);
      assert Placed(m, t);
    }
  }

  /** A task that cannot go on, on an empty queue: the own idle task is free to run. */
  lemma {:induction false} IdleIsFree(m: State, p: nat)
    requires YieldReady(m, p) && m.tasks[m.current[p]].state != Running
    ensures p != m.current[p] && Incoming(m, p, p)
  {
    assert Placed(m, p);
    assert forall q :: 0 <= q < |m.current| && m.current[q] == p ==> q == p;
  }

  ghost predicate HeadOvertaken(m: State, p: nat)
    requires Shape(m) && p < |m.current|
  {
    m.queues[p] != [] && m.tasks[m.queues[p][0]].Overtaken()
  }

  /** The head of the queue is READY and, once taken, queued nowhere.  Unless it was overtaken it is
      current nowhere either. */
  lemma {:induction false} HeadIsFree(m: State, p: nat)
    requires YieldReady(m, p) && m.queues[p] != []
    ensures var to, popped := m.queues[p][0], m.(queues := m.queues[p := m.queues[p][1..]]);
      && to != m.current[p] && m.tasks[to].state == Ready
      && (if HeadOvertaken(m, p) then multiset(m.current)[to] == 1 else Incoming(popped, p, to))
      && Outgoing(popped, p) && Shape(popped)
      && forall t :: 0 <= t < |m.tasks| && t != m.current[p] && t != to ==> Placed(popped, t)
  {
    var to := m.queues[p][0];
    QueuedAt(m.queues, p, to);
    assert Placed(m, to);
    forall t: TaskId
      ensures Queued(m.queues[p := m.queues[p][1..]], t) == Queued(m.queues, t) - if t == to then 1 else 0
    {
      PopCounts(m.queues, p, t);
    }
    var popped := m.(queues := m.queues[p := m.queues[p][1..]]);
    forall t | 0 <= t < |m.tasks| && t != m.current[p] && t != to
      ensures Placed(popped, t)
    {
      assert Placed(m, t);
    }
  }

  /** What task_yield switches to is READY: a queued task, or the idle task of a processor whose
      current task cannot go on.  The switch is sound unless the queued task was overtaken. */
  lemma {:induction false} DispatchKeeps(m: State, p: nat)
    requires YieldReady(m, p)
    ensures HeadOvertaken(m, p) ==> Dispatch(m, p).StaleContext?
    ensures !HeadOvertaken(m, p) ==>
      var r := Dispatch(m, p);
      && r.Ok? && Shape(r.value) && Rescheduled(m, p, r.value)
      && forall t :: 0 <= t < |m.tasks| ==> Placed(r.value, t)
  {
    if m.queues[p] != [] {
      var to, popped := m.queues[p][0], m.(queues := m.queues[p := m.queues[p][1..]]);
      HeadIsFree(m, p);
      if HeadOvertaken(m, p) {
        SwitchToRunning(popped, p, to);
      } else {
        SwitchKeeps(popped, p, to);
        forall t | 0 <= t < |m.tasks| ensures Placed(Dispatch(m, p).value, t) {
          SwitchPlaces(popped, p, to, t);
        }
      }
    } else if m.tasks[m.current[p]].state != Running {
      IdleIsFree(m, p);
      SwitchKeeps(m, p, p);
      forall t | 0 <= t < |m.tasks| ensures Placed(Dispatch(m, p).value, t) {
        SwitchPlaces(m, p, p, t);
      }
    }
  }

  lemma {:induction false} YieldKeeps(m: State, p: nat)
    requires YieldReady(m, p)
    ensures TakesOvertaken(m, p) ==> DoYield(m, p).StaleContext?
    ensures !TakesOvertaken(m, p) ==>
      var r := DoYield(m, p);
      && r.Ok? && Shape(r.value) && Rescheduled(m, p, r.value)
      && forall t :: 0 <= t < |m.tasks| ==> Placed(r.value, t)
  {
    BalanceKeepsReady(m, p);
    DispatchKeeps(Rebalanced(m, p), p);
  }

  // ---------------------------------------------------------------- the handshake

  /** Being moved between RUNNING and READY changes nothing in the handshake, except for a task
      caught in the middle of a call, and those are never the ones that switch. */
  lemma {:induction false} RescheduleAgrees(s: State, p: nat, s': State)
    requires Handshake(s) && p < |s.current| && Rescheduled(s, p, s')
    requires s.current[p] < |s.tasks| && !s.tasks[s.current[p]].InCall()
    ensures Handshake(s')
  {
    forall t | 0 <= t < |s'.tasks| ensures Agreed(s', t) {
      assert Agreed(s, t);
    }
    forall target | target in s'.pending ensures Matched(s', target) {
      assert Matched(s, target);
    }
  }

  // ---------------------------------------------------------------- one lemma per step

  /** The task current on a processor is RUNNING and queued nowhere, outside the join window. */
  lemma {:induction false} CurrentRuns(s: State, p: nat)
    requires Inv(s) && p < |s.current| && !s.tasks[s.current[p]].pc.Published?
    ensures s.tasks[s.current[p]].state == Running
    ensures YieldReady(s, p)
  {
    assert Placed(s, s.current[p]);
    assert s.current[p] in s.current;
  }

  /** The loop of pthread_routine does what a yield of the idle task would do. */
  lemma {:induction false} IdleLoopIsYield(s: State, p: nat)
    requires Shape(s) && p < |s.current| && s.current[p] == p && s.tasks[p].state == Running
    ensures DoIdleLoop(s, p) == DoYield(s, p)
  {
    BalanceKeepsShape(s, p);
  }

  /** A step that moves nobody between processors and queues leaves all tasks where they are. */
  lemma {:induction false} SamePlaces(s: State, s': State)
    requires forall t :: 0 <= t < |s.tasks| ==> Placed(s, t)
    requires s'.current == s.current && s'.queues == s.queues && |s'.tasks| == |s.tasks|
    requires forall t :: 0 <= t < |s.tasks| ==>
               && s'.tasks[t].InFront() == s.tasks[t].InFront()
               && (s'.tasks[t].state == Ready <==> s.tasks[t].state == Ready)
               && (Idle(s, t) ==> s'.tasks[t].state == s.tasks[t].state)
    ensures forall t :: 0 <= t < |s'.tasks| ==> Placed(s', t)
  {
    forall t | 0 <= t < |s'.tasks| ensures Placed(s', t) {
      assert Placed(s, t);
    }
  }

  lemma {:induction false} NewIsUnqueued(s: State)
    requires Shape(s)
    ensures Queued<TaskId>(s.queues, |s.tasks|) == 0 && |s.tasks| !in s.current
  {
    var newTask: TaskId := |s.tasks|;
    if Queued(s.queues, newTask) > 0 {
      var q := QueuedSomewhere(s.queues, newTask);
    }
  }

  lemma {:induction false} CreatePlaces(s: State, p: nat, t: TaskId)
    requires Inv(s) && p < |s.current| && t <= |s.tasks|
    ensures Placed(DoCreate(s, p), t)
  {
    hide Agreed, Matched;
    NewIsUnqueued(s);
    PushCounts(s.queues, p, |s.tasks|, t);
    if t < |s.tasks| {
      assert Placed(s, t);
    }
  }

  lemma {:induction false} CreateAgrees(s: State, p: nat, t: TaskId)
    requires Inv(s) && p < |s.current| && t <= |s.tasks|
    ensures Agreed(DoCreate(s, p), t)
  {
    hide Placed;
    forall target | target in s.pending ensures target < |s.tasks| {
      assert Matched(s, target);
    }
    if t < |s.tasks| {
      assert Agreed(s, t);
    }
  }

  lemma {:induction false} CreateStep(s: State, p: nat)
    requires Inv(s) && p < |s.current|
    ensures Inv(DoCreate(s, p))
  {
    hide Placed, Agreed;
    var s' := DoCreate(s, p);
    forall t | 0 <= t < |s'.tasks| ensures Placed(s', t) && Agreed(s', t) {
      CreatePlaces(s, p, t);
      CreateAgrees(s, p, t);
    }
    forall target | target in s'.pending ensures Matched(s', target) {
      assert Matched(s, target);
    }
  }

  /** task_join fails exactly when the exchange finds another join outstanding or collected. */
  lemma {:induction false} JoinCallFailsExactly(s: State, p: nat, target: TaskId)
    requires Inv(s) && Enabled(s, JoinCall(p, target))
    ensures DoJoinCall(s, p, target).Ok? <==> Allowed(s, JoinCall(p, target))
  {
    assert Agreed(s, target);
  }

  /** The joiner is first: it becomes the target's pending joiner. */
  lemma {:induction false} JoinFirstAgrees(s: State, p: nat, target: TaskId, t: TaskId)
    requires Inv(s) && Enabled(s, JoinCall(p, target)) && t < |s.tasks|
    requires s.tasks[target].joinState == Joinable
    ensures Agreed(DoJoinCall(s, p, target).value, t)
  {
    CurrentRuns(s, p);
    hide Placed, Matched, YieldReady;
    assert Agreed(s, s.current[p]) && Agreed(s, target) && Agreed(s, t);
  }

  lemma {:induction false} JoinFirstMatches(s: State, p: nat, target: TaskId, u: TaskId)
    requires Inv(s) && Enabled(s, JoinCall(p, target))
    requires s.tasks[target].joinState == Joinable && u in DoJoinCall(s, p, target).value.pending
    ensures Matched(DoJoinCall(s, p, target).value, u)
  {
    hide Placed;
    assert Agreed(s, target);
    if u != target {
      assert Matched(s, u);
      assert Agreed(s, s.pending[u]);
    }
  }

  lemma {:induction false} JoinFirstStep(s: State, p: nat, target: TaskId)
    requires Inv(s) && Enabled(s, JoinCall(p, target))
    requires s.tasks[target].joinState == Joinable
    ensures Inv(DoJoinCall(s, p, target).value)
  {
    hide Placed, Agreed, Matched;
    var s' := DoJoinCall(s, p, target).value;
    SamePlaces(s, s');
    forall t | 0 <= t < |s'.tasks| ensures Agreed(s', t) {
      JoinFirstAgrees(s, p, target, t);
    }
    forall u | u in s'.pending ensures Matched(s', u) {
      JoinFirstMatches(s, p, target, u);
    }
  }

  /** The finisher was first: the stored result is delivered at once. */
  lemma {:induction false} JoinLateStep(s: State, p: nat, target: TaskId)
    requires Inv(s) && Enabled(s, JoinCall(p, target))
    requires s.tasks[target].joinState == WaitForJoiner
    ensures Inv(DoJoinCall(s, p, target).value)
  {
    hide Placed;
    var s' := DoJoinCall(s, p, target).value;
    SamePlaces(s, s');
    assert Agreed(s, target);
    forall t | 0 <= t < |s'.tasks| ensures Agreed(s', t) {
      assert Agreed(s, t);
    }
    forall u | u in s'.pending ensures Matched(s', u) {
      assert Matched(s, u);
    }
  }

  lemma {:induction false} JoinCallStep(s: State, p: nat, target: TaskId)
    requires Inv(s) && Enabled(s, JoinCall(p, target)) && Allowed(s, JoinCall(p, target))
    ensures DoJoinCall(s, p, target).Ok? && Inv(DoJoinCall(s, p, target).value)
  {
    assert Agreed(s, target);
    if s.tasks[target].joinState == Joinable {
      JoinFirstStep(s, p, target);
    } else {
      JoinLateStep(s, p, target);
    }
  }

  lemma {:induction false} PublishAgrees(s: State, p: nat, t: TaskId)
    requires Inv(s) && Enabled(s, JoinPublish(p)) && t < |s.tasks|
    ensures Agreed(DoJoinPublish(s, p), t)
  {
    hide Placed;
    assert Agreed(s, s.current[p]);
    assert Matched(s, s.tasks[s.current[p]].pc.target);
    assert Agreed(s, t);
  }

  lemma {:induction false} PublishMatches(s: State, p: nat, u: TaskId)
    requires Inv(s) && Enabled(s, JoinPublish(p)) && u in s.pending
    ensures Matched(DoJoinPublish(s, p), u)
  {
    hide Placed;
    assert Agreed(s, s.current[p]);
    assert Matched(s, s.tasks[s.current[p]].pc.target);
    assert Matched(s, u);
  }

  lemma {:induction false} JoinPublishStep(s: State, p: nat)
    requires Inv(s) && Enabled(s, JoinPublish(p))
    ensures Inv(DoJoinPublish(s, p))
  {
    var s' := DoJoinPublish(s, p);
    CurrentRuns(s, p);
    assert Agreed(s, s.current[p]);
    hide Placed, Agreed, Matched;
    SamePlaces(s, s');
    forall t | 0 <= t < |s'.tasks| ensures Agreed(s', t) {
      PublishAgrees(s, p, t);
    }
    forall u | u in s'.pending ensures Matched(s', u) {
      PublishMatches(s, p, u);
    }
  }

  lemma {:induction false} JoinReturnAgrees(s: State, p: nat, t: TaskId)
    requires Inv(s) && Enabled(s, JoinReturn(p)) && t < |s.tasks|
    ensures DoJoinReturn(s, p).Ok? && Agreed(DoJoinReturn(s, p).value, t)
  {
    CurrentRuns(s, p);
    hide Placed, Matched, YieldReady;
    assert Agreed(s, s.current[p]) && Agreed(s, t);
  }

  lemma {:induction false} JoinReturnStep(s: State, p: nat)
    requires Inv(s) && Enabled(s, JoinReturn(p))
    ensures DoJoinReturn(s, p).Ok? && Inv(DoJoinReturn(s, p).value)
  {
    CurrentRuns(s, p);
    assert Agreed(s, s.current[p]);
    hide Placed, Agreed, YieldReady;
    JoinReturnAgrees(s, p, s.current[p]);
    var s' := DoJoinReturn(s, p).value;
    SamePlaces(s, s');
    forall t | 0 <= t < |s'.tasks| ensures Agreed(s', t) {
      JoinReturnAgrees(s, p, t);
    }
    forall u | u in s'.pending ensures Matched(s', u) {
      assert Matched(s, u);
    }
  }

  lemma {:induction false} ReturnAgrees(s: State, p: nat, value: int, t: TaskId)
    requires Inv(s) && Enabled(s, Return(p, value)) && t < |s.tasks|
    ensures Agreed(DoReturn(s, p, value), t)
  {
    CurrentRuns(s, p);
    hide Placed, Matched, YieldReady;
    assert Agreed(s, s.current[p]) && Agreed(s, t);
  }

  lemma {:induction false} ReturnStep(s: State, p: nat, value: int)
    requires Inv(s) && Enabled(s, Return(p, value))
    ensures Inv(DoReturn(s, p, value))
  {
    CurrentRuns(s, p);
    assert Agreed(s, s.current[p]);
    hide Placed, Agreed, YieldReady;
    ReturnAgrees(s, p, value, s.current[p]);
    var s' := DoReturn(s, p, value);
    SamePlaces(s, s');
    forall t | 0 <= t < |s'.tasks| ensures Agreed(s', t) {
      ReturnAgrees(s, p, value, t);
    }
    forall u | u in s'.pending ensures Matched(s', u) {
      assert Matched(s, u);
    }
  }

  lemma {:induction false} ExchangeAgrees(s: State, p: nat, t: TaskId)
    requires Inv(s) && Enabled(s, Exchange(p)) && t < |s.tasks|
    ensures DoExchange(s, p).Ok? && Agreed(DoExchange(s, p).value, t)
  {
    CurrentRuns(s, p);
    hide Placed, Matched, YieldReady;
    assert Agreed(s, s.current[p]) && Agreed(s, t);
  }

  lemma {:induction false} ExchangeStep(s: State, p: nat)
    requires Inv(s) && Enabled(s, Exchange(p))
    ensures DoExchange(s, p).Ok? && Inv(DoExchange(s, p).value)
  {
    CurrentRuns(s, p);
    assert Agreed(s, s.current[p]);
    hide Placed, Agreed, YieldReady;
    ExchangeAgrees(s, p, s.current[p]);
    var s' := DoExchange(s, p).value;
    SamePlaces(s, s');
    forall t | 0 <= t < |s'.tasks| ensures Agreed(s', t) {
      ExchangeAgrees(s, p, t);
    }
    forall u | u in s'.pending ensures Matched(s', u) {
      assert Matched(s, u);
    }
  }

  lemma {:induction false} WakeAgrees(s: State, p: nat, t: TaskId)
    requires Inv(s) && Enabled(s, Wake(p)) && t < |s.tasks|
    ensures DoWake(s, p).Ok? && Agreed(DoWake(s, p).value, t)
  {
    var me := s.current[p];
    CurrentRuns(s, p);
    assert Agreed(s, me) && Agreed(s, t);
    assert Matched(s, me);
  }

  lemma {:induction false} WakePlaces(s: State, p: nat, t: TaskId)
    requires Inv(s) && Enabled(s, Wake(p)) && t < |s.tasks|
    requires DoWake(s, p).Ok?
    ensures Placed(DoWake(s, p).value, t)
  {
    var me := s.current[p];
    assert Agreed(s, me);
    assert Matched(s, me);
    assert Placed(s, t);
    PushCounts(s.queues, p, s.tasks[me].joinTask.value, t);
  }

  lemma {:induction false} WakeMatches(s: State, p: nat, u: TaskId)
    requires Inv(s) && Enabled(s, Wake(p)) && DoWake(s, p).Ok? && u in DoWake(s, p).value.pending
    ensures Matched(DoWake(s, p).value, u)
  {
    hide Placed;
    assert Agreed(s, s.current[p]);
    assert Matched(s, s.current[p]) && Matched(s, u);
  }

  lemma {:induction false} WakeStep(s: State, p: nat)
    requires Inv(s) && Enabled(s, Wake(p))
    ensures DoWake(s, p).Ok? && Inv(DoWake(s, p).value)
  {
    hide Placed, Agreed, Matched;
    WakeAgrees(s, p, s.current[p]);
    var s' := DoWake(s, p).value;
    forall t | 0 <= t < |s'.tasks| ensures Placed(s', t) && Agreed(s', t) {
      WakePlaces(s, p, t);
      WakeAgrees(s, p, t);
    }
    forall u | u in s'.pending ensures Matched(s', u) {
      WakeMatches(s, p, u);
    }
  }

  /** What the wake-up takes: a WAITING joiner, queued nowhere, which then is READY and queued once. */
  lemma {:induction false} WakeTakes(s: State, p: nat)
    requires Inv(s) && Enabled(s, Wake(p))
    ensures Shape(s) && Step(s, Wake(p)) == DoWake(s, p)
    ensures s.tasks[s.current[p]].joinTask.Some?
    ensures var joiner := s.tasks[s.current[p]].joinTask.value;
      && joiner < |s.tasks| && joiner != s.current[p]
      && s.tasks[joiner].state == Waiting && Queued(s.queues, joiner) == 0
      && DoWake(s, p).Ok? && Inv(DoWake(s, p).value)
      && var handed := Enqueue(HandedOver(s, p, joiner), p, joiner);
        DoWake(s, p).value == handed.(pending := DoWake(s, p).value.pending)
  {
    WakeStep(s, p);
    var me := s.current[p];
    assert Agreed(s, me) && Matched(s, me);
    assert Placed(s, s.tasks[me].joinTask.value);
  }

  // ---------------------------------------------------------------- steps that switch

  /** The state in which a switching step calls task_yield. */
  function Marked(s: State, a: Action): State
    requires Enabled(s, a) && Switches(a)
  {
    match a
    case JoinYield(p) => Suspending(s, p)
    case Leave(p) => Ended(s, p)
    case _ => s
  }

  /** A joiner that is still WAITING marks nothing but its own place in the code. */
  lemma {:induction false} SuspendingIsReady(s: State, p: nat)
    requires Inv(s) && Enabled(s, JoinYield(p)) && s.tasks[s.current[p]].state == Waiting
    ensures Handshake(Suspending(s, p)) && YieldReady(Suspending(s, p), p)
  {
    var me := s.current[p];
    assert Placed(s, me) && Agreed(s, me);
    var m := Suspending(s, p);
    forall t | 0 <= t < |m.tasks| && t != me ensures Placed(m, t) {
      assert Placed(s, t);
    }
    forall t | 0 <= t < |m.tasks| ensures Agreed(m, t) {
      assert Agreed(s, t);
    }
    forall u | u in m.pending ensures Matched(m, u) {
      assert Matched(s, u);
    }
  }

  lemma {:induction false} LeaveIsReady(s: State, p: nat)
    requires Inv(s) && Enabled(s, Leave(p))
    ensures Handshake(Ended(s, p)) && YieldReady(Ended(s, p), p)
  {
    var me := s.current[p];
    CurrentRuns(s, p);
    assert Agreed(s, me);
    var m := Ended(s, p);
    forall t | 0 <= t < |m.tasks| && t != me ensures Placed(m, t) {
      assert Placed(s, t);
    }
    forall t | 0 <= t < |m.tasks| ensures Agreed(m, t) {
      assert Agreed(s, t);
    }
    forall u | u in m.pending ensures Matched(m, u) {
      assert Matched(s, u);
    }
  }

  lemma {:induction false} MarkedIsReady(s: State, a: Action)
    requires Inv(s) && Enabled(s, a) && Switches(a) && !TripsAssert(s, a)
    ensures var m := Marked(s, a);
      && Handshake(m) && YieldReady(m, a.p) && !m.tasks[m.current[a.p]].InCall()
      && TakesOvertaken(m, a.p) == TakesOvertaken(s, a.p)
  {
    hide Placed, Matched, Outgoing, YieldReady;
    assert Agreed(s, s.current[a.p]);
    match a
    case Yield(p) => CurrentRuns(s, p);
    case IdleLoop(p) => CurrentRuns(s, p);
    case JoinYield(p) => SuspendingIsReady(s, p);
    case Leave(p) => CurrentRuns(s, p); LeaveIsReady(s, p);
  }

  /** A switching step that trips no assert is the yield of its marked state. */
  lemma {:induction false} SwitchStep(s: State, a: Action)
    requires Inv(s) && Enabled(s, a) && Switches(a) && !TripsAssert(s, a)
    ensures Step(s, a) == DoYield(Marked(s, a), a.p)
    ensures TakesOvertaken(s, a.p) ==> Step(s, a).StaleContext?
    ensures !TakesOvertaken(s, a.p) ==>
      && Step(s, a).Ok? && Inv(Step(s, a).value)
      && Rescheduled(Marked(s, a), a.p, Step(s, a).value)
  {
    var m := Marked(s, a);
    MarkedIsReady(s, a);
    YieldKeeps(m, a.p);
    if !TakesOvertaken(s, a.p) {
      RescheduleAgrees(m, a.p, DoYield(m, a.p).value);
    }
    match a
    case IdleLoop(p) => IdleLoopIsYield(s, p);
    case JoinYield(p) => WaiterLeaves(s, p);
    case _ =>
  }

  /** What the idle loop finds after balancing, and what its turn then does. */
  lemma {:induction false} IdleTurnReady(s: State, p: nat)
    requires Inv(s) && Enabled(s, IdleLoop(p)) && !TakesOvertaken(s, p)
    ensures var m := Rebalanced(s, p);
      && YieldReady(m, p) && !HeadOvertaken(m, p)
      && m.current[p] == p && m.tasks[p].state == Running
      && Step(s, IdleLoop(p)) == (if m.queues[p] != [] then SwitchToHead(m, p) else Ok(m))
      && Step(s, IdleLoop(p)).Ok? && Inv(Step(s, IdleLoop(p)).value)
  {
    SwitchStep(s, IdleLoop(p));
    CurrentRuns(s, p);
    BalanceKeepsReady(s, p);
  }

  /** A WAITING joiner is not current any more when its yield has switched. */
  lemma {:induction false} WaiterLeaves(s: State, p: nat)
    requires Inv(s) && Enabled(s, JoinYield(p)) && s.tasks[s.current[p]].state == Waiting
    ensures DoJoinYield(s, p) == DoYield(Suspending(s, p), p)
  {
    var m, me := Suspending(s, p), s.current[p];
    SuspendingIsReady(s, p);
    YieldKeeps(m, p);
    if !TakesOvertaken(m, p) {
      var s' := DoYield(m, p).value;
      assert Placed(s', me);
      assert s'.current[p] == me ==> me in multiset(s'.current);
    }
  }

  /** A joiner that is READY again is turned away by task_switch_to, or by the assert behind its
      yield when there is nothing to switch to. */
  lemma {:induction false} OvertakenYieldFails(s: State, p: nat)
    requires Inv(s) && Enabled(s, JoinYield(p)) && s.tasks[s.current[p]].state != Waiting
    ensures DoJoinYield(s, p).AssertFailed?
  {
    assert Agreed(s, s.current[p]);
    BalanceKeepsShape(Suspending(s, p), p);
  }

  // ---------------------------------------------------------------- whole runs

  /** Every step that neither trips an assert nor runs a task twice keeps the invariant. */
  lemma {:induction false} StepTheorem(s: State, a: Action)
    requires Inv(s) && Enabled(s, a) && !TripsAssert(s, a) && !RunsTwice(s, a)
    ensures Step(s, a).Ok? && Inv(Step(s, a).value) && |Step(s, a).value.current| == |s.current|
  {
    hide DoYield, DoIdleLoop, DoJoinYield, Placed, Agreed, Matched, TakesOvertaken;
    match a
    case Create(p) => CreateStep(s, p);
    case JoinCall(p, target) => JoinCallStep(s, p, target);
    case JoinPublish(p) => JoinPublishStep(s, p);
    case JoinReturn(p) => JoinReturnStep(s, p);
    case Return(p, value) => ReturnStep(s, p, value);
    case Exchange(p) => ExchangeStep(s, p);
    case Wake(p) => WakeStep(s, p);
    case _ => SwitchStep(s, a);
  }

  /** For every number of processors: an assert fires exactly in a join of a task whose join is
      outstanding or collected, and in the yield of a joiner that is no longer WAITING; and a context
      is loaded while it runs elsewhere exactly when balancing puts such a joiner at the head. */
  lemma {:induction false} FailsExactly(s: State, a: Action)
    requires Inv(s) && Enabled(s, a)
    ensures Step(s, a).AssertFailed? <==> TripsAssert(s, a)
    ensures Step(s, a).StaleContext? <==> RunsTwice(s, a)
  {
    if !Allowed(s, a) {
      JoinCallFailsExactly(s, a.p, a.target);
    } else if TripsAssert(s, a) {
      OvertakenYieldFails(s, a.p);
    } else if RunsTwice(s, a) {
      SwitchStep(s, a);
    } else {
      StepTheorem(s, a);
    }
  }

  lemma {:induction false} EmptyQueues(queues: seq<seq<TaskId>>, t: TaskId)
    requires forall p :: 0 <= p < |queues| ==> queues[p] == []
    ensures Queued(queues, t) == 0
  {
    if queues != [] {
      EmptyQueues(queues[1..], t);
    }
  }

  lemma {:induction false} CountingUp(current: seq<TaskId>, t: TaskId)
    requires forall p :: 0 <= p < |current| ==> current[p] == p
    ensures multiset(current)[t] == if t < |current| then 1 else 0
  {
    if current != [] {
      var last := |current| - 1;
      CountingUp(current[..last], t);
      assert current == current[..last] + [last];
    }
  }

  lemma {:induction false} InitInv(n: nat)
    requires n > 0
    ensures Inv(Init(n))
  {
    var s := Init(n);
    forall t | 0 <= t < |s.tasks| ensures Placed(s, t) {
      EmptyQueues(s.queues, t);
      CountingUp(s.current, t);
    }
  }

  /** A run of n processors: `trace` lists the states, `actions` the steps between them. */
  ghost predicate IsRun(n: nat, trace: seq<State>, actions: seq<Action>) {
    && n > 0
    && |trace| == |actions| + 1
    && trace[0] == Init(n)
    && forall i :: 0 <= i < |actions| ==> IsStep(trace[i], actions[i], trace[i + 1])
  }

  ghost predicate IsStep(s: State, a: Action, s': State) {
    Shape(s) && Enabled(s, a) && Step(s, a) == Ok(s')
  }

  /** Safety over every run, of any length, on any number of processors. */
  lemma {:induction false} RunTheorem(n: nat, trace: seq<State>, actions: seq<Action>, i: nat)
    requires IsRun(n, trace, actions) && i < |trace|
    ensures Inv(trace[i]) && |trace[i].current| == n
  {
    hide Inv, Step, TripsAssert, RunsTwice;
    if i == 0 {
      InitInv(n);
    } else {
      RunTheorem(n, trace, actions, i - 1);
      assert IsStep(trace[i - 1], actions[i - 1], trace[i]);
      FailsExactly(trace[i - 1], actions[i - 1]);
      StepTheorem(trace[i - 1], actions[i - 1]);
    }
  }

  // ---------------------------------------------------------------- what the invariant says

  ghost predicate PublishedOn(s: State, t: TaskId, target: TaskId) {
    target < |s.tasks| && s.tasks[target].joinTask == Some(t)
  }

  /** In every reachable state a task is current on one processor, linked once in one queue,
      the join_task of exactly one unfinished task, or DONE and nowhere.  Only inside the join
      window is it in two places: published and current, and queued and current if overtaken. */
  lemma {:induction false} OnePlace(n: nat, trace: seq<State>, actions: seq<Action>, i: nat, t: TaskId)
    requires IsRun(n, trace, actions) && i < |trace| && t < |trace[i].tasks|
    ensures var s, task := trace[i], trace[i].tasks[t];
      match task.state
      case Running => multiset(s.current)[t] == 1 && Queued(s.queues, t) == 0 && forall u :: !PublishedOn(s, t, u)
      case Ready =>
        && multiset(s.current)[t] == (if task.Overtaken() then 1 else 0)
        && Queued(s.queues, t) == (if Idle(s, t) then 0 else 1)
        && forall u :: !PublishedOn(s, t, u)
      case Waiting =>
        && multiset(s.current)[t] == (if task.pc.Published? then 1 else 0)
        && Queued(s.queues, t) == 0
        && task.Announced()
        && PublishedOn(s, t, task.pc.target)
        && s.tasks[task.pc.target].state != Done
        && forall u :: PublishedOn(s, t, u) ==> u == task.pc.target
      case Done => multiset(s.current)[t] == 0 && Queued(s.queues, t) == 0 && forall u :: !PublishedOn(s, t, u)
  {
    var s := trace[i];
    RunTheorem(n, trace, actions, i);
    assert Placed(s, t) && Agreed(s, t);
    forall u | PublishedOn(s, t, u)
      ensures s.tasks[t].state == Waiting && s.tasks[t].Announced() && s.tasks[t].pc.target == u
    {
      assert Agreed(s, u) && Matched(s, u);
    }
    if s.tasks[t].state == Waiting {
      assert Matched(s, s.tasks[t].pc.target);
      assert Agreed(s, s.tasks[t].pc.target);
    }
  }

  /** No wake-up is lost: the target of a WAITING joiner either has its exchange still ahead, and
      will find the joiner, or is in its wake-up loop with that very joiner to take. */
  lemma {:induction false} NoLostWakeup(n: nat, trace: seq<State>, actions: seq<Action>, i: nat, t: TaskId)
    requires IsRun(n, trace, actions) && i < |trace| && t < |trace[i].tasks|
    requires trace[i].tasks[t].state == Waiting
    ensures var s := trace[i];
      && s.tasks[t].Announced() && s.tasks[t].pc.target < |s.tasks|
      && var target := s.tasks[t].pc.target;
        && s.tasks[target].joinTask == Some(t)
        && (target !in s.returned || s.tasks[target].pc == Stored ==> s.tasks[target].joinState == WaitToJoin)
        && (target in s.returned ==> s.tasks[target].pc == Stored || s.tasks[target].pc == Waking)
  {
    var s := trace[i];
    RunTheorem(n, trace, actions, i);
    assert Agreed(s, t);
    assert Matched(s, s.tasks[t].pc.target);
    assert Agreed(s, s.tasks[t].pc.target);
  }

  /** A joiner goes on only after its target's result is stored, with exactly that result in hand. */
  lemma {:induction false} ResumesWithResult(n: nat, trace: seq<State>, actions: seq<Action>, i: nat, p: nat)
    requires IsRun(n, trace, actions) && i < |trace| && Enabled(trace[i], JoinReturn(p))
    ensures var s := trace[i];
      var me := s.tasks[s.current[p]];
      me.pc.target in s.returned && me.result == s.returned[me.pc.target]
  {
    RunTheorem(n, trace, actions, i);
    CurrentRuns(trace[i], p);
    assert Agreed(trace[i], trace[i].current[p]);
  }

  /** Whatever a join delivered, in either order of the exchanges, is what the target returned. */
  lemma {:induction false} JoinsDeliverTheReturnedValue(n: nat, trace: seq<State>, actions: seq<Action>, i: nat,
          r: Receipt)
    requires IsRun(n, trace, actions) && i < |trace| && r in trace[i].received
    ensures r.target in trace[i].returned && r.value == trace[i].returned[r.target]
  {
    RunTheorem(n, trace, actions, i);
  }

  ghost predicate KeepsHistory(s: State, s': State, t: TaskId)
    requires t < |s.tasks|
  {
    && t < |s'.tasks|
    && (t in s.returned ==> t in s'.returned && s'.returned[t] == s.returned[t])
    && (s.tasks[t].state == Done ==> s'.tasks[t].state == Done)
  }

  lemma {:induction false} SwitchKeepsHistory(s: State, a: Action, t: TaskId)
    requires Inv(s) && Enabled(s, a) && Switches(a) && Step(s, a).Ok? && t < |s.tasks|
    ensures KeepsHistory(s, Step(s, a).value, t)
  {
    hide DoYield, DoIdleLoop, DoJoinYield, Placed, Matched, TakesOvertaken;
    FailsExactly(s, a);
    SwitchStep(s, a);
    assert Agreed(s, s.current[a.p]);
  }

  /** What no step undoes: a recorded return value, and the end of a task. */
  lemma {:induction false} StepKeepsHistory(s: State, a: Action, t: TaskId)
    requires Inv(s) && Enabled(s, a) && Step(s, a).Ok? && t < |s.tasks|
    ensures KeepsHistory(s, Step(s, a).value, t)
  {
    hide DoYield, DoIdleLoop, DoJoinYield, Placed;
    if Switches(a) {
      SwitchKeepsHistory(s, a, t);
    } else {
      assert Agreed(s, t) && Agreed(s, s.current[a.p]);
      assert a.Wake? ==> Matched(s, s.current[a.p]);
    }
  }

  /** A task returns at most once: its recorded value never changes again, and it never takes the
      step that returns a value again. */
  lemma {:induction false} ReturnsOnce(n: nat, trace: seq<State>, actions: seq<Action>, i: nat, j: nat, t: TaskId)
    requires IsRun(n, trace, actions) && i <= j < |trace| && t in trace[i].returned
    ensures t in trace[j].returned && trace[j].returned[t] == trace[i].returned[t]
    ensures j < |actions| && actions[j].Return? && actions[j].p < |trace[j].current| ==>
              trace[j].current[actions[j].p] != t
    decreases j - i
  {
    RunTheorem(n, trace, actions, i);
    if i < j {
      assert IsStep(trace[i], actions[i], trace[i + 1]);
      StepKeepsHistory(trace[i], actions[i], t);
      ReturnsOnce(n, trace, actions, i + 1, j, t);
    } else if j < |actions| {
      assert IsStep(trace[j], actions[j], trace[j + 1]);
      assert Agreed(trace[j], t);
    }
  }

  /** A finished task stays finished and is never current or queued again. */
  lemma {:induction false} DoneForGood(n: nat, trace: seq<State>, actions: seq<Action>, i: nat, j: nat, t: TaskId)
    requires IsRun(n, trace, actions) && i <= j < |trace|
    requires t < |trace[i].tasks| && trace[i].tasks[t].state == Done
    ensures t < |trace[j].tasks| && trace[j].tasks[t].state == Done
    ensures t !in trace[j].current && Queued(trace[j].queues, t) == 0
    decreases j - i
  {
    RunTheorem(n, trace, actions, i);
    if i < j {
      assert IsStep(trace[i], actions[i], trace[i + 1]);
      StepKeepsHistory(trace[i], actions[i], t);
      DoneForGood(n, trace, actions, i + 1, j, t);
    } else {
      assert Placed(trace[j], t) && Agreed(trace[j], t);
      assert t !in multiset(trace[j].current);
    }
  }

  /** The task that leaves its processor for good is DONE from then on, and nobody runs it again. */
  lemma {:induction false} LeftForGood(n: nat, trace: seq<State>, actions: seq<Action>, i: nat, j: nat, t: TaskId)
    requires IsRun(n, trace, actions) && i < j < |trace|
    requires actions[i].Leave? && actions[i].p < |trace[i].current| && trace[i].current[actions[i].p] == t
    ensures t < |trace[j].tasks| && trace[j].tasks[t].state == Done
    ensures t !in trace[j].current && Queued(trace[j].queues, t) == 0
  {
    hide Inv, DoLeave, TakesOvertaken;
    RunTheorem(n, trace, actions, i);
    assert IsStep(trace[i], actions[i], trace[i + 1]);
    FailsExactly(trace[i], actions[i]);
    SwitchStep(trace[i], actions[i]);
    DoneForGood(n, trace, actions, i + 1, j, t);
  }
}
