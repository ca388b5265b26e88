/** A run of one processor in which a task is joined by two others (libtask/task.c:289-291). */
module TaskJoinRun {
  import opened Basics
  import opened StealModel
  import opened TaskModel
  import opened TaskSafety

  const RUNNING := FRESH.(state := Running)

  const STEPS: seq<Action> :=
    [Create(0), Create(0), Create(0), Yield(0), JoinCall(0, 3), JoinPublish(0), JoinYield(0)]

  function Lone(tasks: seq<Task>, current: TaskId, queue: seq<TaskId>): State {
    State([FRESH.(state := if current == 0 then Running else Ready)] + tasks, [current], [queue], map[], map[], {}, [])
  }

  /** Tasks 1 to 3 are created; task 1 joins task 3 and is suspended; task 2 runs. */
  function After(k: nat): State
    requires k <= 7
  {
    var target := FRESH.(joinState := WaitToJoin);
    match k
    case 0 => Lone([], 0, [])
    case 1 => Lone([FRESH], 0, [1])
    case 2 => Lone([FRESH, FRESH], 0, [1, 2])
    case 3 => Lone([FRESH, FRESH, FRESH], 0, [1, 2, 3])
    case 4 => Lone([RUNNING, FRESH, FRESH], 1, [2, 3])
    case 5 =>
      Lone([RUNNING.(pc := Joining(3)), FRESH, target], 1, [2, 3]).(pending := map[3 := 1], joined := {3})
    case 6 =>
      Lone([FRESH.(state := Waiting, pc := Published(3)), FRESH, target.(joinTask := Some(1))], 1, [2, 3])
        .(pending := map[3 := 1], joined := {3})
    case _ =>
      Lone([FRESH.(state := Waiting, pc := Suspended(3)), RUNNING, target.(joinTask := Some(1))], 2, [3])
        .(pending := map[3 := 1], joined := {3})
  }

  lemma {:induction false} CreateStep(k: nat)
    requires k < 3
    ensures IsStep(After(k), STEPS[k], After(k + 1))
  {
    var made, next := DoCreate(After(k), 0), After(k + 1);
    assert After(k).queues[0] + [|After(k).tasks|] == next.queues[0];
    assert made.tasks == next.tasks && made.queues == next.queues;
  }

  lemma {:induction false} DispatchStep(k: nat)
    requires k == 3 || k == 6
    ensures IsStep(After(k), STEPS[k], After(k + 1))
  {
    AloneNothingMoves(After(k).queues);
    var ran, next := Step(After(k), STEPS[k]).value, After(k + 1);
    assert ran.tasks == next.tasks && ran.current == next.current && ran.queues == next.queues;
  }

  lemma {:induction false} JoinStep(k: nat)
    requires k == 4 || k == 5
    ensures IsStep(After(k), STEPS[k], After(k + 1))
  {
    var joined, next := Step(After(k), STEPS[k]).value, After(k + 1);
    assert joined.tasks == next.tasks && joined.pending == next.pending && joined.joined == next.joined;
  }

  lemma {:induction false} RunStep(k: nat)
    requires k < 7
    ensures IsStep(After(k), STEPS[k], After(k + 1))
  {
    hide After, IsStep;
    if k < 3 {
      CreateStep(k);
    } else if k == 3 || k == 6 {
      DispatchStep(k);
    } else {
      JoinStep(k);
    }
  }

  function States(): (trace: seq<State>)
    ensures |trace| == 8 && forall k :: 0 <= k < 8 ==> trace[k] == After(k)
  {
    seq(8, k requires 0 <= k < 8 => After(k))
  }

  lemma {:induction false} StatesAreRun()
    ensures IsRun(1, States(), STEPS)
  {
    assert After(0).tasks == Init(1).tasks && After(0).current == Init(1).current && After(0).queues == Init(1).queues;
    assert States()[0] == Init(1);
    hide After, IsStep, States;
    forall i | 0 <= i < 7 ensures IsStep(States()[i], STEPS[i], States()[i + 1]) {
      RunStep(i);
    }
  }

  /** The second join of task 3, from task 2 this time, is not allowed and trips the assert. */
  lemma {:induction false} SecondJoinFails() returns (trace: seq<State>)
    ensures IsRun(1, trace, STEPS)
    ensures var s := trace[|STEPS|];
      Shape(s) && Enabled(s, JoinCall(0, 3)) && Step(s, JoinCall(0, 3)).AssertFailed?
  {
    trace := States();
    StatesAreRun();
    RunTheorem(1, trace, STEPS, 7);
    FailsExactly(trace[7], JoinCall(0, 3));
  }
}
