/** A run of two processors in which a wake-up falls into the join window (libtask/task.c:280-282). */
module TaskRaceRun {
  import opened Basics
  import opened StealModel
  import opened TaskModel
  import opened TaskSafety

  const IDLE := FRESH.(state := Running)

  /** A task is joined once on two processors, and its wake-up falls into the window: task 2 runs on
      processor 1, its joiner 3 on processor 0. */
  const SCRIPT: seq<Action> :=
    [Create(0), Create(0), IdleLoop(1), IdleLoop(0), JoinCall(0, 2), Return(1, 7), Exchange(1), JoinPublish(0), Wake(1)]

  /** The first scenes: two tasks are created, and each processor takes one. */
  function Opening(k: nat): State
    requires k <= 4
  {
    match k
    case 0 => Init(2)
    case 1 => Init(2).(tasks := [IDLE, IDLE, FRESH], queues := [[2], []])
    case 2 => Init(2).(tasks := [IDLE, IDLE, FRESH, FRESH], queues := [[2, 3], []])
    case 3 => Init(2).(tasks := [IDLE, FRESH, IDLE, FRESH], current := [0, 2], queues := [[3], []])
    case _ => Init(2).(tasks := [FRESH, FRESH, IDLE, IDLE], current := [3, 2], queues := [[], []])
  }

  /** The other scenes, in which only tasks 2 and 3 change. */
  function Scene(target: Task, joiner: Task, queues: seq<seq<TaskId>>, returned: map<TaskId, int>,
                 pending: map<TaskId, TaskId>): State {
    State([FRESH, FRESH, target, joiner], [3, 2], queues, returned, pending, {2}, [])
  }

  function Act(k: nat): State
    requires k <= 9
  {
    match k
    case 5 => Scene(IDLE.(joinState := WaitToJoin), IDLE.(pc := Joining(2)), [[], []], map[], map[2 := 3])
    case 6 =>
      Scene(IDLE.(joinState := WaitToJoin, result := 7, pc := Stored), IDLE.(pc := Joining(2)), [[], []],
        map[2 := 7], map[2 := 3])
    case 7 =>
      Scene(IDLE.(joinState := WaitForJoiner, result := 7, pc := Waking), IDLE.(pc := Joining(2)), [[], []],
        map[2 := 7], map[2 := 3])
    case 8 =>
      Scene(IDLE.(joinState := WaitForJoiner, joinTask := Some(3), result := 7, pc := Waking),
        IDLE.(state := Waiting, pc := Published(2)), [[], []], map[2 := 7], map[2 := 3])
    case 9 =>
      Scene(IDLE.(joinState := WaitForJoiner, result := 7, pc := Leaving),
        FRESH.(result := 7, pc := Published(2)), [[], [3]], map[2 := 7], map[])
    case _ => Opening(k)
  }

  /** The first two processors to look for work: the second takes half of the first one's queue, and
      what is left goes to the first. */
  lemma {:induction false} OpeningBalances()
    ensures Balanced<TaskId>([[2, 3], []], 1) == [[3], [2]]
    ensures Balanced<TaskId>([[3], []], 0) == [[3], []]
  {
    var queues: seq<seq<TaskId>> := [[2, 3], []];
    assert StealRound(queues, 1, 0, 0) == queues;
    assert Victim(1, 1, 2) == 0 && StealCount(2, 0) == 1;
    assert StealFrom(queues, 1, 0, 0) == Moved(queues, 1, 0, 1);
    assert queues[1] + queues[0][..1] == [2] && queues[0][1..] == [3];
    assert Moved(queues, 1, 0, 1) == [[3], [2]];
    var rest: seq<seq<TaskId>> := [[3], []];
    assert StealRound(rest, 0, 1, 0) == rest;
    assert Victim(0, 1, 2) == 1 && StealCount(0, 1) == 0;
    MovedNone(rest, 0, 1);
  }

  lemma {:induction false} CreateScene(k: nat)
    requires k < 2
    ensures IsStep(Act(k), SCRIPT[k], Act(k + 1))
  {
    var made := DoCreate(Act(k), 0);
    assert Act(k).queues[0] + [|Act(k).tasks|] == if k == 0 then [2] else [2, 3];
    assert made.tasks == Act(k + 1).tasks && made.current == Act(k + 1).current;
    assert made.queues == Act(k + 1).queues;
  }

  lemma {:induction false} DispatchScene(k: nat)
    requires 2 <= k < 4
    ensures IsStep(Act(k), SCRIPT[k], Act(k + 1))
  {
    OpeningBalances();
    var ran := DoIdleLoop(Act(k), 3 - k).value;
    assert ran.tasks == Act(k + 1).tasks && ran.current == Act(k + 1).current;
    assert ran.queues == Act(k + 1).queues;
  }

  lemma {:induction false} JoinScene(k: nat)
    requires 4 <= k < 6
    ensures IsStep(Act(k), SCRIPT[k], Act(k + 1))
  {
    var next := Step(Act(k), SCRIPT[k]).value;
    assert next.tasks == Act(k + 1).tasks && next.joined == Act(k + 1).joined;
    assert next.pending == Act(k + 1).pending && next.returned == Act(k + 1).returned;
  }

  lemma {:induction false} MeetScene(k: nat)
    requires 6 <= k < 8
    ensures IsStep(Act(k), SCRIPT[k], Act(k + 1))
  {
    var next := Step(Act(k), SCRIPT[k]).value;
    assert next.tasks == Act(k + 1).tasks;
  }

  lemma {:induction false} WakeScene()
    ensures IsStep(Act(8), SCRIPT[8], Act(9))
  {
    var woken := DoWake(Act(8), 1).value;
    assert Act(8).queues[1] + [3] == [3];
    assert woken.tasks == Act(9).tasks && woken.queues == Act(9).queues;
    assert woken.pending == Act(9).pending;
  }

  lemma {:induction false} SceneStep(k: nat)
    requires k < 9
    ensures IsStep(Act(k), SCRIPT[k], Act(k + 1))
  {
    hide Act, IsStep;
    if k < 2 {
      CreateScene(k);
    } else if k < 4 {
      DispatchScene(k);
    } else if k < 6 {
      JoinScene(k);
    } else if k < 8 {
      MeetScene(k);
    } else {
      WakeScene();
    }
  }

  /** The first processor has nothing to give away. */
  lemma {:induction false} LastBalance()
    ensures Balanced<TaskId>([[], [3]], 1) == [[], [3]]
  {
    var queues: seq<seq<TaskId>> := [[], [3]];
    assert StealRound(queues, 1, 1, 0) == queues;
    assert Victim(1, 1, 2) == 0 && StealCount(0, 1) == 0;
    MovedNone(queues, 1, 0);
  }

  ghost predicate Ends(s: State, a: Action, outcome: Result<State>) {
    Shape(s) && Enabled(s, a) && Step(s, a) == outcome
  }

  lemma {:induction false} LastSceneFails()
    requires Inv(Act(9))
    ensures Ends(Act(9), JoinYield(0), AssertFailed)
    ensures Ends(Act(9), Leave(1), StaleContext)
  {
    LastBalance();
    FailsExactly(Act(9), JoinYield(0));
    FailsExactly(Act(9), Leave(1));
  }

  function Scenes(): (trace: seq<State>)
    ensures |trace| == 10 && forall k :: 0 <= k < 10 ==> trace[k] == Act(k)
  {
    seq(10, k requires 0 <= k < 10 => Act(k))
  }

  lemma {:induction false} ScenesAreRun()
    ensures IsRun(2, Scenes(), SCRIPT)
  {
    assert Scenes()[0] == Act(0) == Init(2);
    hide Act, IsStep, Scenes;
    forall i | 0 <= i < 9 ensures IsStep(Scenes()[i], SCRIPT[i], Scenes()[i + 1]) {
      SceneStep(i);
    }
  }

  /** One join per task is not enough on two processors.  In this run nobody calls task_join twice and
      every step succeeds, and then the joiner's next step trips an assert, while the next step of the
      task that woke it loads a context that is still in use. */
  lemma {:induction false} OneJoinCanFail() returns (trace: seq<State>)
    ensures IsRun(2, trace, SCRIPT)
    ensures forall i, k :: 0 <= i < k < |SCRIPT| && SCRIPT[i].JoinCall? && SCRIPT[k].JoinCall? ==>
              SCRIPT[i].target != SCRIPT[k].target
    ensures Ends(trace[|SCRIPT|], JoinYield(0), AssertFailed)
    ensures Ends(trace[|SCRIPT|], Leave(1), StaleContext)
  {
    hide Act, IsRun, Inv, Ends;
    trace := Scenes();
    ScenesAreRun();
    RunTheorem(2, trace, SCRIPT, 9);
    LastSceneFails();
  }
}
