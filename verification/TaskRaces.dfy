/** The window of task_join between publishing the joiner and leaving its processor
    (libtask/task.c:280-282), over whole runs: what a wake-up that falls into it does, and that runs
    without one are safe.
  */
module TaskRaces {
  import opened Basics
  import opened TaskModel
  import opened TaskSafety

  ghost predicate Calm(s: State) {
    forall t :: 0 <= t < |s.tasks| ==> !s.tasks[t].Overtaken()
  }

  ghost predicate OvertakenOn(s: State, q: nat, t: TaskId) {
    q < |s.current| && s.current[q] == t < |s.tasks| && s.tasks[t].Overtaken()
  }

  // ---------------------------------------------------------------- one step

  /** A switch overtakes nobody, and no overtaken task takes part in it. */
  lemma {:induction false} SwitchKeepsOvertaken(s: State, a: Action, t: TaskId)
    requires Inv(s) && Enabled(s, a) && Switches(a) && Step(s, a).Ok? && t < |s.tasks|
    ensures var s' := Step(s, a).value;
      && |s'.tasks| == |s.tasks| && |s'.current| == |s.current|
      && s'.tasks[t].Overtaken() == s.tasks[t].Overtaken()
      && forall q :: 0 <= q < |s.current| && OvertakenOn(s, q, t) ==> s'.current[q] == t
  {
    hide Step, Placed, Matched, Outgoing, TakesOvertaken;
    FailsExactly(s, a);
    SwitchStep(s, a);
    MarkedIsReady(s, a);
    assert Agreed(s, s.current[a.p]);
  }

  lemma {:induction false} OtherOvertakesByRace(s: State, a: Action, t: TaskId)
    requires Inv(s) && Enabled(s, a) && !Switches(a) && Step(s, a).Ok? && Calm(s)
    ensures Races(s, a) || (t < |Step(s, a).value.tasks| ==> !Step(s, a).value.tasks[t].Overtaken())
  {
    hide Placed, Shape, Delivered, DoYield, DoIdleLoop, DoJoinYield, DoLeave;
    assert Agreed(s, s.current[a.p]);
    if a.Wake? {
      assert Matched(s, s.current[a.p]);
    }
    hide Agreed, Matched;
  }

  /** Only a racing wake-up makes its joiner READY while it is still current. */
  lemma {:induction false} OvertakenOnlyByRace(s: State, a: Action)
    requires Inv(s) && Enabled(s, a) && Step(s, a).Ok? && Calm(s)
    ensures Races(s, a) || Calm(Step(s, a).value)
  {
    hide Step, Handshake, Placed;
    if Switches(a) {
      SwitchKeepsOvertaken(s, a, s.current[a.p]);
      forall t | 0 <= t < |s.tasks| ensures !Step(s, a).value.tasks[t].Overtaken() {
        SwitchKeepsOvertaken(s, a, t);
      }
    } else if !Races(s, a) {
      var s' := Step(s, a).value;
      forall t | 0 <= t < |s'.tasks| ensures !s'.tasks[t].Overtaken() {
        OtherOvertakesByRace(s, a, t);
      }
    }
  }

  /** The joiner of a racing wake-up is current on another processor than its waker. */
  lemma {:induction false} RaceTakesTwo(s: State, a: Action) returns (q: nat)
    requires Inv(s) && Enabled(s, a) && Races(s, a)
    ensures q < |s.current| && q != a.p && s.current[q] == s.tasks[s.current[a.p]].joinTask.value
  {
    var joiner := s.tasks[s.current[a.p]].joinTask.value;
    assert Placed(s, joiner);
    assert joiner in multiset(s.current);
    q :| 0 <= q < |s.current| && s.current[q] == joiner;
  }

  /** The racing wake-up itself succeeds, and leaves the joiner READY, queued, and current on the
      processor it had not left yet. */
  lemma {:induction false} RaceOvertakes(s: State, a: Action) returns (q: nat)
    requires Inv(s) && Enabled(s, a) && Races(s, a)
    ensures Step(s, a).Ok?
    ensures OvertakenOn(Step(s, a).value, q, s.tasks[s.current[a.p]].joinTask.value)
  {
    q := RaceTakesTwo(s, a);
    WakeStep(s, a.p);
    assert Agreed(s, s.current[a.p]);
    assert Matched(s, s.current[a.p]);
  }

  /** No successful step, of any task, gets an overtaken joiner out of the window. */
  lemma {:induction false} OvertakenStays(s: State, a: Action, q: nat, t: TaskId)
    requires Inv(s) && Enabled(s, a) && Step(s, a).Ok? && OvertakenOn(s, q, t)
    ensures OvertakenOn(Step(s, a).value, q, t)
  {
    hide DoYield, DoIdleLoop, DoJoinYield, Placed, TakesOvertaken;
    assert Agreed(s, s.current[a.p]) && Agreed(s, t);
    if Switches(a) {
      SwitchKeepsOvertaken(s, a, t);
    } else if a.Wake? {
      assert Matched(s, s.current[a.p]);
    } else if a.JoinPublish? {
      assert Matched(s, s.tasks[s.current[a.p]].pc.target);
    }
  }

  /** What is left to an overtaken joiner is the yield that trips an assert. */
  lemma {:induction false} OvertakenIsStuck(s: State, q: nat, t: TaskId)
    requires Inv(s) && OvertakenOn(s, q, t)
    ensures Enabled(s, JoinYield(q)) && Allowed(s, JoinYield(q)) && Step(s, JoinYield(q)).AssertFailed?
  {
    OvertakenYieldFails(s, q);
  }

  /** While nobody is overtaken the allowed steps all succeed. */
  lemma {:induction false} CalmStepsSucceed(s: State, a: Action)
    requires Inv(s) && Calm(s) && Enabled(s, a) && Allowed(s, a)
    ensures Step(s, a).Ok?
  {
    assert Agreed(s, s.current[a.p]);
    FailsExactly(s, a);
  }

  // ---------------------------------------------------------------- whole runs

  ghost predicate RaceFree(trace: seq<State>, actions: seq<Action>)
    requires |trace| > |actions|
  {
    forall i :: 0 <= i < |actions| ==> !Races(trace[i], actions[i])
  }

  lemma {:induction false} RaceFreeIsCalm(n: nat, trace: seq<State>, actions: seq<Action>, i: nat)
    requires IsRun(n, trace, actions) && i < |trace|
    requires forall k :: 0 <= k < i ==> !Races(trace[k], actions[k])
    ensures Calm(trace[i])
  {
    if i > 0 {
      RaceFreeIsCalm(n, trace, actions, i - 1);
      RunTheorem(n, trace, actions, i - 1);
      assert IsStep(trace[i - 1], actions[i - 1], trace[i]);
      OvertakenOnlyByRace(trace[i - 1], actions[i - 1]);
    }
  }

  lemma {:induction false} OvertakenForGood(n: nat, trace: seq<State>, actions: seq<Action>, i: nat, j: nat,
                                            q: nat, t: TaskId)
    requires IsRun(n, trace, actions) && i <= j < |trace| && OvertakenOn(trace[i], q, t)
    ensures OvertakenOn(trace[j], q, t)
    decreases j - i
  {
    if i < j {
      RunTheorem(n, trace, actions, i);
      assert IsStep(trace[i], actions[i], trace[i + 1]);
      OvertakenStays(trace[i], actions[i], q, t);
      OvertakenForGood(n, trace, actions, i + 1, j, q, t);
    }
  }

  ghost predicate AllowedStepsSucceed(s: State)
    requires Shape(s)
  {
    forall a :: Enabled(s, a) && Allowed(s, a) ==> Step(s, a).Ok?
  }

  /** For every run on any number of processors: all allowed steps succeed in its last state if and
      only if no wake-up of the run fell into the window of its joiner. */
  lemma {:induction false} SafeExactlyWithoutRace(n: nat, trace: seq<State>, actions: seq<Action>)
    requires IsRun(n, trace, actions)
    ensures Shape(trace[|actions|])
    ensures AllowedStepsSucceed(trace[|actions|]) <==> RaceFree(trace, actions)
  {
    var s := trace[|actions|];
    RunTheorem(n, trace, actions, |actions|);
    assert Shape(s);
    hide Inv, Step;
    if RaceFree(trace, actions) {
      RaceFreeIsCalm(n, trace, actions, |actions|);
      forall a | Enabled(s, a) && Allowed(s, a) ensures Step(s, a).Ok? {
        CalmStepsSucceed(s, a);
      }
    } else {
      var i :| 0 <= i < |actions| && Races(trace[i], actions[i]);
      RunTheorem(n, trace, actions, i);
      assert IsStep(trace[i], actions[i], trace[i + 1]);
      var q := RaceOvertakes(trace[i], actions[i]);
      var joiner := trace[i].tasks[trace[i].current[actions[i].p]].joinTask.value;
      OvertakenForGood(n, trace, actions, i + 1, |actions|, q, joiner);
      OvertakenIsStuck(s, q, joiner);
    }
  }

  /** If task_join is called at most once per task and no wake-up falls into the window of its joiner,
      no step of any run can trip an assert or run a task twice. */
  lemma {:induction false} OneJoinPerTaskNeverFails(n: nat, trace: seq<State>, actions: seq<Action>, a: Action)
    requires IsRun(n, trace, actions) && RaceFree(trace, actions)
    requires var s := trace[|actions|];
      Enabled(s, a) && (a.JoinCall? ==> a.target !in s.joined)
    ensures Shape(trace[|actions|]) && Step(trace[|actions|], a).Ok?
  {
    RunTheorem(n, trace, actions, |actions|);
    assert a.JoinCall? ==> Agreed(trace[|actions|], a.target);
    RaceFreeIsCalm(n, trace, actions, |actions|);
    CalmStepsSucceed(trace[|actions|], a);
  }

  /** One processor cannot be in the window and wake somebody at the same time. */
  lemma {:induction false} LoneNeverRaces(s: State, a: Action)
    requires Inv(s) && |s.current| == 1 && Enabled(s, a)
    ensures !Races(s, a)
  {
    if Races(s, a) {
      var q := RaceTakesTwo(s, a);
    }
  }

  lemma {:induction false} LoneIsRaceFree(trace: seq<State>, actions: seq<Action>)
    requires IsRun(1, trace, actions)
    ensures RaceFree(trace, actions)
  {
    forall i | 0 <= i < |actions| ensures !Races(trace[i], actions[i]) {
      RunTheorem(1, trace, actions, i);
      assert IsStep(trace[i], actions[i], trace[i + 1]);
      LoneNeverRaces(trace[i], actions[i]);
    }
  }

  /** On one processor, which is how the virtual machine starts the runtime, one join per task is all
      it takes: no step of any run can fail. */
  lemma {:induction false} LoneProcessorNeverFails(trace: seq<State>, actions: seq<Action>, a: Action)
    requires IsRun(1, trace, actions)
    requires var s := trace[|actions|];
      Enabled(s, a) && (a.JoinCall? ==> a.target !in s.joined)
    ensures Shape(trace[|actions|]) && Step(trace[|actions|], a).Ok?
  {
    LoneIsRaceFree(trace, actions);
    OneJoinPerTaskNeverFails(1, trace, actions, a);
  }

  // ---------------------------------------------------------------- no hang

  /** A finisher that spins for its joiner waits for a task that runs on another processor and has
      nothing left to do but publish itself. */
  lemma {:induction false} SpinEnds(s: State, p: nat) returns (q: nat)
    requires Inv(s) && p < |s.current|
    requires var me := s.tasks[s.current[p]]; me.pc == Waking && me.joinTask == None
    ensures q < |s.current| && q != p && s.current[p] in s.pending
    ensures s.current[q] == s.pending[s.current[p]] && s.tasks[s.current[q]].pc == Joining(s.current[p])
    ensures Enabled(s, JoinPublish(q))
  {
    var me := s.current[p];
    assert Agreed(s, me) && Matched(s, me);
    var joiner := s.pending[me];
    assert Agreed(s, joiner) && Placed(s, joiner);
    assert joiner in multiset(s.current);
    q :| 0 <= q < |s.current| && s.current[q] == joiner;
  }

  /** No processor is stuck: the task that runs on it has an allowed step, unless it spins. */
  lemma {:induction false} StepOrSpin(s: State, p: nat) returns (a: Action)
    requires Inv(s) && p < |s.current|
    ensures var me := s.tasks[s.current[p]];
      (me.pc == Waking && me.joinTask == None) || (a.p == p && Enabled(s, a) && !a.JoinCall?)
  {
    var me := s.tasks[s.current[p]];
    assert Placed(s, s.current[p]) && Agreed(s, s.current[p]);
    assert s.current[p] in multiset(s.current);
    match me.pc
    case Free => a := Yield(p);
    case Joining(target) => a := JoinPublish(p);
      assert Matched(s, target);
    case Published(_) => a := JoinYield(p);
    case Suspended(_) => a := JoinReturn(p);
    case Stored => a := Exchange(p);
    case Waking => a := Wake(p);
    case Leaving => a := Leave(p);
    case Gone => a := Yield(p);
  }

  /** On one processor a finisher never spins: its joiner has published itself. */
  lemma {:induction false} LoneNeverSpins(s: State)
    requires Inv(s) && |s.current| == 1 && s.tasks[s.current[0]].pc == Waking
    ensures Enabled(s, Wake(0))
  {
    if s.tasks[s.current[0]].joinTask == None {
      var q := SpinEnds(s, 0);
    }
  }

  /** On one processor every run can go on: with one join per task it neither fails nor hangs. */
  lemma {:induction false} LoneProcessorNeverHangs(trace: seq<State>, actions: seq<Action>) returns (a: Action)
    requires IsRun(1, trace, actions)
    ensures Shape(trace[|actions|])
    ensures a.p == 0 && Enabled(trace[|actions|], a) && !a.JoinCall? && Step(trace[|actions|], a).Ok?
  {
    var s := trace[|actions|];
    RunTheorem(1, trace, actions, |actions|);
    a := StepOrSpin(s, 0);
    if s.tasks[s.current[0]].pc == Waking {
      LoneNeverSpins(s);
    }
    LoneProcessorNeverFails(trace, actions, a);
  }
}
