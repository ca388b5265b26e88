/** Bounded waiting on one processor, which is how the virtual machine starts the runtime. */
module TaskFairness {
  import opened StealModel
  import opened TaskModel
  import opened TaskSafety

  function CountSwitches(actions: seq<Action>): nat {
    if actions == [] then 0
    else (if Switches(actions[0]) then 1 else 0) + CountSwitches(actions[1..])
  }

  ghost predicate AtPosition(s: State, t: TaskId, k: nat) {
    |s.queues| == 1 && k < |s.queues[0]| && s.queues[0][k] == t
  }

  /** task_yield on a lone processor takes the head of the queue, moves all others up, and puts the
      old task, if it is to run again, at the end; the idle task is never queued. */
  lemma {:induction false} LoneDispatch(m: State)
    requires Shape(m) && |m.current| == 1 && m.queues[0] != [] && DoYield(m, 0).Ok?
    ensures var s', from, queue := DoYield(m, 0).value, m.current[0], m.queues[0];
      && s'.current == [queue[0]]
      && s'.queues == [queue[1..] + if from != 0 && m.tasks[from].state == Running then [from] else []]
  {
    AloneNothingMoves(m.queues);
    assert m.queues[0][1..] + [] == m.queues[0][1..];
  }

  lemma {:induction false} SwitchOneStep(s: State, a: Action, t: TaskId, k: nat)
    requires Inv(s) && |s.current| == 1 && AtPosition(s, t, k)
    requires Enabled(s, a) && Step(s, a).Ok? && Switches(a)
    ensures var s' := Step(s, a).value;
      && |s'.current| == 1
      && if k > 0 then AtPosition(s', t, k - 1) else s'.current[0] == t
  {
    FailsExactly(s, a);
    SwitchStep(s, a);
    MarkedIsReady(s, a);
    LoneDispatch(Marked(s, a));
  }

  /** Creating tasks and waking joiners only adds to the end of the queue. */
  lemma {:induction false} OtherStep(s: State, a: Action, t: TaskId, k: nat)
    requires Inv(s) && |s.current| == 1 && AtPosition(s, t, k)
    requires Enabled(s, a) && Step(s, a).Ok? && !Switches(a)
    ensures var s' := Step(s, a).value;
      |s'.current| == 1 && AtPosition(s', t, k)
  {}

  lemma {:induction false} WaitOneStep(s: State, a: Action, t: TaskId, k: nat)
    requires Inv(s) && |s.current| == 1 && AtPosition(s, t, k)
    requires Enabled(s, a) && Step(s, a).Ok?
    ensures var s' := Step(s, a).value;
      && |s'.current| == 1
      && if !Switches(a) then AtPosition(s', t, k)
         else if k > 0 then AtPosition(s', t, k - 1)
         else s'.current[0] == t
  {
    if Switches(a) {
      SwitchOneStep(s, a, t, k);
    } else {
      OtherStep(s, a, t, k);
    }
  }

  /** A task at queue position k keeps waiting through exactly k switches, whatever mix of steps the
      other tasks take: after j switches with j <= k it has moved up exactly j places. */
  lemma {:induction false} MovesUp(trace: seq<State>, actions: seq<Action>, i: nat, j: nat, t: TaskId, k: nat)
    requires IsRun(1, trace, actions) && i <= j < |trace|
    requires AtPosition(trace[i], t, k)
    requires CountSwitches(actions[i..j]) <= k
    ensures |trace[j].current| == 1 && AtPosition(trace[j], t, k - CountSwitches(actions[i..j]))
    decreases j - i
  {
    hide Inv, Step;
    RunTheorem(1, trace, actions, i);
    if i < j {
      assert IsStep(trace[i], actions[i], trace[i + 1]);
      WaitOneStep(trace[i], actions[i], t, k);
      assert actions[i..j][1..] == actions[i + 1..j];
      MovesUp(trace, actions, i + 1, j, t, if Switches(actions[i]) then k - 1 else k);
    }
  }

  /** Bounded waiting: the switch after the first k makes the task at position k current. */
  lemma {:induction false} BoundedWaiting(trace: seq<State>, actions: seq<Action>, i: nat, j: nat, t: TaskId, k: nat)
    requires IsRun(1, trace, actions) && i <= j < |actions|
    requires AtPosition(trace[i], t, k)
    requires CountSwitches(actions[i..j]) == k && Switches(actions[j])
    ensures trace[j + 1].current == [t] && trace[j].current != [t]
  {
    MovesUp(trace, actions, i, j, t, k);
    RunTheorem(1, trace, actions, j);
    assert IsStep(trace[j], actions[j], trace[j + 1]);
    WaitOneStep(trace[j], actions[j], t, 0);
    QueuedAt(trace[j].queues, 0, t);
    assert Placed(trace[j], t);
    assert t !in multiset(trace[j].current);
  }
}
