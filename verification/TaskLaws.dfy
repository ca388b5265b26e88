/** What the steps of the runtime come to, over single switches and over whole runs, in terms of the
    queues, the processors and the values that tasks return (libtask/task.c). */
module TaskLaws {
  import opened Basics
  import opened StealModel
  import opened TaskModel
  import opened TaskSafety

  // ---------------------------------------------------------------- switches

  /** task_switch_to: the old task, if it is to run again and is not the idle task, goes to the end of
      the processor's queue, and the new one runs. */
  lemma {:induction false} SwitchToLaw(s: State, p: nat, to: TaskId)
    requires Shape(s) && p < |s.current| && to < |s.tasks| && to != s.current[p] && SwitchTo(s, p, to).Ok?
    ensures var s', from := SwitchTo(s, p, to).value, s.current[p];
      var goesOn := s.tasks[from].state == Running;
      && |s'.tasks| == |s.tasks| && s'.current == s.current[p := to]
      && s'.queues == s.queues[p := s.queues[p] + if goesOn && from != p then [from] else []]
      && s'.tasks[to] == s.tasks[to].(state := Running)
      && s'.tasks[from] == s.tasks[from].(state := if goesOn then Ready else s.tasks[from].state)
      && (forall t :: 0 <= t < |s.tasks| && t != from && t != to ==> s'.tasks[t] == s.tasks[t])
      && s'.returned == s.returned && s'.received == s.received
  {
    assert s.queues[p] + [] == s.queues[p];
  }

  /** Processor p has looked for work: after balancing, the head of its own queue runs and the old task,
      if it is to run again and is not the idle task, goes to the end; on an empty queue a task that
      goes on goes on, and any other makes way for the idle task.  No third task changes. */
  ghost predicate Switched(s: State, p: nat, goesOn: bool, s': State) {
    && p < |s.current| == |s.queues| && |s'.tasks| == |s.tasks|
    && var me, balanced := s.current[p], Balanced<TaskId>(s.queues, p);
      var queue := balanced[p];
      && s'.current == s.current[p := if queue != [] then queue[0] else if goesOn then me else p]
      && s'.queues == balanced[p :=
           if queue == [] then [] else queue[1..] + if goesOn && me != p then [me] else []]
      && s'.current[p] < |s.tasks| && s'.tasks[s'.current[p]].state == Running
      && (forall t :: 0 <= t < |s.tasks| && t != me && t != s'.current[p] ==> s'.tasks[t] == s.tasks[t])
      && s'.returned == s.returned && s'.received == s.received
  }

  lemma {:induction false} TakeHead(m: State, p: nat, s': State)
    requires Shape(m) && p < |m.current| && m.queues[p] != [] && m.queues[p][0] != m.current[p]
    requires SwitchToHead(m, p) == Ok(s')
    ensures var goesOn, me, queue := m.tasks[m.current[p]].state == Running, m.current[p], m.queues[p];
      && |s'.tasks| == |m.tasks| && s'.current == m.current[p := queue[0]]
      && s'.queues == m.queues[p := queue[1..] + if goesOn && me != p then [me] else []]
      && s'.tasks[queue[0]].state == Running
      && s'.tasks[me] == m.tasks[me].(state := if goesOn then Ready else m.tasks[me].state)
      && (forall t :: 0 <= t < |m.tasks| && t != me && t != queue[0] ==> s'.tasks[t] == m.tasks[t])
      && s'.returned == m.returned && s'.received == m.received
  {
    var popped := m.(queues := m.queues[p := m.queues[p][1..]]);
    SwitchToLaw(popped, p, m.queues[p][0]);
  }

  /** Nothing to run: a task that goes on goes on, and any other makes way for the idle task. */
  lemma {:induction false} NothingQueued(m: State, p: nat, s': State)
    requires YieldReady(m, p) && m.queues[p] == [] && Dispatch(m, p) == Ok(s')
    ensures var goesOn, me := m.tasks[m.current[p]].state == Running, m.current[p];
      && |s'.tasks| == |m.tasks| && s'.current == m.current[p := if goesOn then me else p]
      && s'.queues == m.queues && s'.tasks[s'.current[p]].state == Running && s'.tasks[me] == m.tasks[me]
      && (forall t :: 0 <= t < |m.tasks| && t != me && t != s'.current[p] ==> s'.tasks[t] == m.tasks[t])
      && s'.returned == m.returned && s'.received == m.received
  {
    if m.tasks[m.current[p]].state != Running {
      IdleIsFree(m, p);
      SwitchToLaw(m, p, p);
      assert m.queues[p := []] == m.queues;
    }
  }

  /** task_yield on any number of processors. */
  lemma {:induction false} YieldLaw(m: State, p: nat, s': State)
    requires YieldReady(m, p) && DoYield(m, p) == Ok(s')
    ensures var goesOn, me := m.tasks[m.current[p]].state == Running, m.current[p];
      && Switched(m, p, goesOn, s')
      && s'.tasks[me] == m.tasks[me].(state :=
           if goesOn && Balanced<TaskId>(m.queues, p)[p] != [] then Ready else m.tasks[me].state)
  {
    BalanceKeepsReady(m, p);
    var b := Rebalanced(m, p);
    hide Placed, SwitchTo, SwitchToHead;
    if b.queues[p] != [] {
      HeadIsFree(b, p);
      hide YieldReady, Shape, Outgoing, Incoming, HeadOvertaken;
      TakeHead(b, p, s');
    } else {
      hide Outgoing, Incoming, HeadOvertaken, Dispatch;
      NothingQueued(b, p, s');
      assert b.queues[p := []] == b.queues;
    }
  }

  /** What becomes of the task that takes a switching step: a task that yields, or the idle loop, is
      READY again, or goes on when nothing is queued; a joiner stays WAITING, and a task that leaves is
      DONE for good. */
  ghost predicate MovedOn(a: Action, was: Task, now: Task, queued: bool) {
    match a
    case JoinYield(_) =>
      was.pc.Published? && was.state == Waiting && now == was.(pc := Suspended(was.pc.target))
    case Leave(_) => now == was.(state := Done, pc := Gone)
    case _ => now == was.(state := if queued then Ready else Running)
  }

  /** What the old task marked on itself before the switch is its own affair. */
  lemma {:induction false} MarksAside(s: State, m: State, task: Task, p: nat, goesOn: bool, s': State)
    requires Switched(m, p, goesOn, s') && p < |s.current| && s.current[p] < |s.tasks|
    requires m == s.(tasks := s.tasks[s.current[p] := task])
    ensures Switched(s, p, goesOn, s')
  {}

  /** Every step that switches, on any number of processors. */
  lemma {:induction false} SwitchLaw(s: State, a: Action, s': State)
    requires Inv(s) && IsStep(s, a, s') && Switches(a)
    ensures Switched(s, a.p, a.Yield? || a.IdleLoop?, s')
    ensures var me := s.current[a.p];
      MovedOn(a, s.tasks[me], s'.tasks[me], Balanced<TaskId>(s.queues, a.p)[a.p] != [])
  {
    hide Step, DoYield, Handshake, TakesOvertaken;
    FailsExactly(s, a);
    SwitchStep(s, a);
    MarkedIsReady(s, a);
    if a.Yield? || a.IdleLoop? {
      CurrentRuns(s, a.p);
    }
    var m, me := Marked(s, a), s.current[a.p];
    assert m == s.(tasks := s.tasks[me := m.tasks[me]]);
    hide YieldReady, Inv, Switched, Shape;
    YieldLaw(m, a.p, s');
    MarksAside(s, m, m.tasks[me], a.p, m.tasks[me].state == Running, s');
  }

  // ---------------------------------------------------------------- wake-ups

  /** The finisher's joiner is READY with the finisher's result in hand and stands at the end of this
      processor's queue; nobody else changes. */
  ghost predicate Woken(s: State, p: nat, s': State) {
    && p < |s.current| == |s.queues| && s.current[p] < |s.tasks| == |s'.tasks|
    && var me := s.current[p];
      && s.tasks[me].joinTask.Some?
      && var joiner := s.tasks[me].joinTask.value;
        && joiner < |s.tasks| && joiner != me
        && s'.current == s.current && s'.queues == s.queues[p := s.queues[p] + [joiner]]
        && s'.tasks[me] == s.tasks[me].(joinTask := None, pc := Leaving)
        && s'.tasks[joiner] == s.tasks[joiner].(state := Ready, result := s.tasks[me].result)
        && (forall t :: 0 <= t < |s.tasks| && t != me && t != joiner ==> s'.tasks[t] == s.tasks[t])
  }

  lemma {:induction false} WakeLaw(s: State, p: nat)
    requires Inv(s) && Enabled(s, Wake(p))
    ensures Step(s, Wake(p)).Ok? && Woken(s, p, Step(s, Wake(p)).value)
  {
    WakeTakes(s, p);
  }

  // ---------------------------------------------------------------- exchanges

  /** The exchange of a finished task finds JOINABLE, then with no joiner there, or WAIT_TO_JOIN. */
  lemma {:induction false} ExchangeFinds(s: State, p: nat)
    requires Inv(s) && Enabled(s, Exchange(p))
    ensures var task := s.tasks[s.current[p]];
      (task.joinState == Joinable && task.joinTask == None) || task.joinState == WaitToJoin
  {
    assert Agreed(s, s.current[p]);
  }

  /** The exchange of an allowed join leaves WAIT_TO_JOIN behind.  If it found JOINABLE, the caller is now
      about to publish itself; otherwise the target has returned and the join is complete. */
  ghost predicate Exchanged(s: State, p: nat, target: TaskId, s': State) {
    && p < |s.current| && s.current[p] < |s.tasks| && target < |s.tasks| == |s'.tasks|
    && s'.current == s.current && s'.queues == s.queues && s'.returned == s.returned
    && var me, task := s.current[p], s.tasks[target];
      var marked := s.tasks[target := task.(joinState := WaitToJoin)];
      if task.joinState == Joinable then
        s'.tasks == marked[me := marked[me].(pc := Joining(target))] && s'.received == s.received
      else
        && task.joinState == WaitForJoiner && s'.tasks == marked
        && target in s.returned && s.returned[target] == task.result
        && s'.received == s.received + [Receipt(me, target, task.result)]
  }

  lemma {:induction false} JoinCallLaw(s: State, p: nat, target: TaskId)
    requires Inv(s) && Enabled(s, JoinCall(p, target)) && Allowed(s, JoinCall(p, target))
    ensures Step(s, JoinCall(p, target)).Ok?
    ensures var s' := Step(s, JoinCall(p, target)).value;
      Inv(s') && Shape(s') && Exchanged(s, p, target, s') && s.tasks[s.current[p]].pc == Free
  {
    JoinCallStep(s, p, target);
    assert Agreed(s, target);
  }

  // ---------------------------------------------------------------- values

  /** The value a task returns is stored whatever the state of its join. */
  lemma {:induction false} ReturnStores(s: State, p: nat, value: int)
    requires Inv(s) && Enabled(s, Return(p, value))
    ensures var s', me := Step(s, Return(p, value)).value, s.current[p];
      && |s'.tasks| == |s.tasks| && s'.tasks[me].result == value
      && me in s'.returned && s'.returned[me] == value
  {
    ReturnAgrees(s, p, value, s.current[p]);
  }

  /** What a task returned is what it keeps: on every run, once task t has returned v, its result is v
      in every later state and every join of t that was delivered by then got v. */
  lemma {:induction false} ReturnedValueStays(n: nat, trace: seq<State>, actions: seq<Action>, i: nat, j: nat,
      t: TaskId)
    requires IsRun(n, trace, actions) && i < j < |trace| && actions[i].Return?
    requires actions[i].p < |trace[i].current| && trace[i].current[actions[i].p] == t
    ensures t < |trace[j].tasks| && trace[j].tasks[t].result == actions[i].value
    ensures forall r :: r in trace[j].received && r.target == t ==> r.value == actions[i].value
  {
    RunTheorem(n, trace, actions, i);
    assert IsStep(trace[i], actions[i], trace[i + 1]);
    ReturnStores(trace[i], actions[i].p, actions[i].value);
    ReturnsOnce(n, trace, actions, i + 1, j, t);
    RunTheorem(n, trace, actions, j);
    assert Agreed(trace[j], t);
    forall r | r in trace[j].received && r.target == t ensures r.value == actions[i].value {
      JoinsDeliverTheReturnedValue(n, trace, actions, j, r);
    }
  }
}
