/** The cooperative task runtime as a transition system (libtask/task.c).

    A state holds every task ever created, what each processor runs, and the scheduler queues.
    Task p is the idle task of processor p.  The steps follow the C code between the points where
    another processor can interfere: task_join is split at its atomic exchange, at the publication
    of the joiner and at its yield, and the end of a task is split at the store of the result, the
    exchange, the wake-up of the joiner, and the final switch.  One call of task_yield, from
    balancing to the swap of contexts, is one step.
  */
module TaskModel {
  import opened Basics
  import opened StealModel

  type TaskId = nat

  /** Ok; or the C code ran into a failing assert; or it swapped to the context of a task that is
      still running on another processor, so that the context is not the saved one. */
  datatype Result<+T> = Ok(value: T) | AssertFailed | StaleContext

  datatype RunState = Running | Ready | Waiting | Done

  datatype JoinState = Joinable | WaitForJoiner | WaitToJoin | Detached

  /** Where a task is in the runtime's code. */
  datatype Pc =
    | Free                       // in its own code
    | Joining(target: TaskId)    // in task_join, after an exchange that found JOINABLE
    | Published(target: TaskId)  // in task_join, WAITING and published as the target's joiner
    | Suspended(target: TaskId)  // in task_join, inside task_yield
    | Stored                     // entry returned, result stored, exchange still to come
    | Waking                     // found a joiner, waits for join_task to be published
    | Leaving                    // handshake over, about to become DONE
    | Gone

  datatype Task = Task(state: RunState, joinState: JoinState, joinTask: Option<TaskId>, result: int, pc: Pc) {
    predicate InCall() {
      pc.Joining? || pc.Stored? || pc.Waking? || pc.Leaving?
    }

    /** Published as the joiner of its target, or woken since then. */
    predicate Announced() {
      pc.Published? || pc.Suspended?
    }

    /** It occupies a processor: a joiner does so until it has yielded. */
    predicate InFront() {
      state == Running || pc.Published?
    }

    /** Made READY by its target before it has left its processor. */
    predicate Overtaken() {
      pc.Published? && state == Ready
    }

    predicate Returned() {
      pc.Stored? || pc.Waking? || pc.Leaving? || pc.Gone?
    }
  }

  const FRESH := Task(Ready, Joinable, None, 0, Free)

  /** One completed task_join. */
  datatype Receipt = Receipt(joiner: TaskId, target: TaskId, value: int)

  /** The last four fields are history: what each task returned, who is between exchange and wake-up
      on which target, on which tasks task_join was called, and what the joins delivered. */
  datatype State = State(
    tasks: seq<Task>,
    current: seq<TaskId>,
    queues: seq<seq<TaskId>>,
    returned: map<TaskId, int>,
    pending: map<TaskId, TaskId>,
    joined: set<TaskId>,
    received: seq<Receipt>)

  datatype Action =
    | Create(p: nat)
    | Yield(p: nat)
    | IdleLoop(p: nat)
    | JoinCall(p: nat, target: TaskId)
    | JoinPublish(p: nat)
    | JoinYield(p: nat)
    | JoinReturn(p: nat)
    | Return(p: nat, value: int)
    | Exchange(p: nat)
    | Wake(p: nat)
    | Leave(p: nat)

  predicate Idle(s: State, t: TaskId) {
    t < |s.current|
  }

  /** Task numbers are in range, and an idle task runs on its own processor only. */
  ghost predicate Shape(s: State) {
    && 0 < |s.current| == |s.queues| <= |s.tasks|
    && (forall p :: 0 <= p < |s.current| ==> s.current[p] < |s.tasks|)
    && (forall p :: 0 <= p < |s.current| ==> s.current[p] < |s.current| ==> s.current[p] == p)
    && (forall p, i :: 0 <= p < |s.queues| && 0 <= i < |s.queues[p]| ==> s.queues[p][i] < |s.tasks|)
  }

  lemma {:induction false} QueuedSomewhere(queues: seq<seq<TaskId>>, t: TaskId) returns (p: nat)
    requires Queued(queues, t) > 0
    ensures p < |queues| && t in queues[p]
  {
    if t in queues[0] {
      p := 0;
    } else {
      p := QueuedSomewhere(queues[1..], t);
      p := p + 1;
    }
  }

  lemma {:induction false} BalanceConserves(queues: seq<seq<TaskId>>, p: nat, t: TaskId)
    requires p < |queues|
    ensures Queued(Balanced(queues, p), t) == Queued(queues, t)
  {
    RoundConserves(queues, p, |queues[p]|, |queues| - 1, t);
  }

  /** Everything queued after balancing was queued before it. */
  lemma {:induction false} BalanceKeepsShape(s: State, p: nat)
    requires Shape(s) && p < |s.queues|
    ensures Shape(Rebalanced(s, p))
  {
    var after := Balanced(s.queues, p);
    forall i, k | 0 <= i < |after| && 0 <= k < |after[i]|
      ensures after[i][k] < |s.tasks|
    {
      var t := after[i][k];
      QueuedAt(after, i, t);
      BalanceConserves(s.queues, p, t);
      var q := QueuedSomewhere(s.queues, t);
    }
  }

  /** n processors, each running its idle task (task_init_procs). */
  function Init(n: nat): State {
    State(seq(n, p => FRESH.(state := Running)), seq(n, p => p), seq(n, p => []), map[], map[], {}, [])
  }

  function SetTask(s: State, t: TaskId, task: Task): State
    requires t < |s.tasks|
  {
    s.(tasks := s.tasks[t := task])
  }

  function Enqueue(s: State, p: nat, t: TaskId): State
    requires p < |s.queues|
  {
    s.(queues := s.queues[p := s.queues[p] + [t]])
  }

  /** Task t runs on another processor than p. */
  predicate RunsElsewhere(s: State, p: nat, t: TaskId) {
    exists q :: 0 <= q < |s.current| && q != p && s.current[q] == t
  }

  /** task_switch_to, up to and including the context swap. */
  function SwitchTo(s: State, p: nat, to: TaskId): Result<State>
    requires p < |s.current| == |s.queues| && s.current[p] < |s.tasks| && to < |s.tasks|
  {
    var from := s.current[p];
    if s.tasks[from].state == Ready then AssertFailed
    else
      var s1 :=
        if s.tasks[from].state == Running then
          var marked := SetTask(s, from, s.tasks[from].(state := Ready));
          if from != p then Enqueue(marked, p, from) else marked
        else s;
      if s1.tasks[to].state != Ready then AssertFailed
      else if RunsElsewhere(s, p, to) then StaleContext
      else Ok(SetTask(s1, to, s1.tasks[to].(state := Running)).(current := s1.current[p := to]))
  }

  function Rebalanced(s: State, p: nat): State
    requires p < |s.queues|
  {
    s.(queues := Balanced(s.queues, p))
  }

  /** Takes the head of the own queue and switches to it. */
  function SwitchToHead(s: State, p: nat): Result<State>
    requires Shape(s) && p < |s.current| && s.queues[p] != []
  {
    SwitchTo(s.(queues := s.queues[p := s.queues[p][1..]]), p, s.queues[p][0])
  }

  /** task_yield after balancing: an empty queue lets the caller continue unless it is DONE or WAITING. */
  function Dispatch(s: State, p: nat): Result<State>
    requires Shape(s) && p < |s.current|
  {
    if s.queues[p] != [] then SwitchToHead(s, p)
    else if s.tasks[s.current[p]].state in {Done, Waiting} then SwitchTo(s, p, p)
    else Ok(s)
  }

  /** task_yield on processor p. */
  function DoYield(s: State, p: nat): Result<State>
    requires Shape(s) && p < |s.current|
  {
    BalanceKeepsShape(s, p);
    Dispatch(Rebalanced(s, p), p)
  }

  /** One turn of the loop in pthread_routine. */
  function DoIdleLoop(s: State, p: nat): Result<State>
    requires Shape(s) && p < |s.current|
  {
    BalanceKeepsShape(s, p);
    var s1 := Rebalanced(s, p);
    if s1.queues[p] != [] then SwitchToHead(s1, p)
    else if s.current[p] == p && s.tasks[p].state == Running then Ok(s1)
    else AssertFailed
  }

  /** task_create: the new task goes to the end of this processor's queue. */
  function DoCreate(s: State, p: nat): State
    requires p < |s.queues|
  {
    Enqueue(s.(tasks := s.tasks + [FRESH]), p, |s.tasks|)
  }

  /** task_join up to the outcome of its exchange. */
  function DoJoinCall(s: State, p: nat, target: TaskId): Result<State>
    requires p < |s.current| && s.current[p] < |s.tasks| && target < |s.tasks|
  {
    var me := s.current[p];
    var task := s.tasks[target];
    if task.joinState == Detached then Ok(s)
    else
      var s1 := SetTask(s, target, task.(joinState := WaitToJoin)).(joined := s.joined + {target});
      match task.joinState
      case Joinable =>
        Ok(SetTask(s1, me, s1.tasks[me].(pc := Joining(target))).(pending := s.pending[target := me]))
      case WaitForJoiner =>
        Ok(s1.(received := s.received + [Receipt(me, target, task.result)]))
      case _ => AssertFailed
  }

  /** task_join after an exchange that found JOINABLE: the caller is WAITING, then published. */
  function DoJoinPublish(s: State, p: nat): State
    requires p < |s.current| && s.current[p] < |s.tasks|
    requires s.tasks[s.current[p]].pc.Joining? && s.tasks[s.current[p]].pc.target < |s.tasks|
  {
    var me := s.current[p];
    var target := s.tasks[me].pc.target;
    var s1 := SetTask(s, me, s.tasks[me].(state := Waiting, pc := Published(target)));
    SetTask(s1, target, s1.tasks[target].(joinTask := Some(me)))
  }

  /** The published joiner calls task_yield. */
  function Suspending(s: State, p: nat): State
    requires p < |s.current| && s.current[p] < |s.tasks| && s.tasks[s.current[p]].pc.Published?
  {
    var me := s.current[p];
    SetTask(s, me, s.tasks[me].(pc := Suspended(s.tasks[me].pc.target)))
  }

  /** The yield inside task_join; if it finds nothing to run and returns, task_join asserts that its
      caller is RUNNING. */
  function DoJoinYield(s: State, p: nat): Result<State>
    requires Shape(s) && p < |s.current| && s.tasks[s.current[p]].pc.Published?
  {
    var me := s.current[p];
    var r := DoYield(Suspending(s, p), p);
    if r.Ok? && p < |r.value.current| && r.value.current[p] == me && me < |r.value.tasks|
       && r.value.tasks[me].state != Running
    then AssertFailed
    else r
  }

  /** task_join after the joiner runs again. */
  function DoJoinReturn(s: State, p: nat): Result<State>
    requires p < |s.current| && s.current[p] < |s.tasks|
  {
    var me := s.current[p];
    var task := s.tasks[me];
    if task.state != Running || !task.pc.Suspended? then AssertFailed
    else Ok(SetTask(s, me, task.(pc := Free)).(received := s.received + [Receipt(me, task.pc.target, task.result)]))
  }

  /** task_go_routine: the entry function returned a value, which is stored. */
  function DoReturn(s: State, p: nat, value: int): State
    requires p < |s.current| && s.current[p] < |s.tasks|
  {
    var me := s.current[p];
    SetTask(s, me, s.tasks[me].(result := value, pc := Stored)).(returned := s.returned[me := value])
  }

  /** task_go_routine: the exchange of join_state. */
  function DoExchange(s: State, p: nat): Result<State>
    requires p < |s.current| && s.current[p] < |s.tasks|
  {
    var me := s.current[p];
    var task := s.tasks[me];
    var done := task.(joinState := WaitForJoiner);
    match task.joinState
    case Detached => Ok(SetTask(s, me, task.(pc := Leaving)))
    case Joinable => if task.joinTask != None then AssertFailed else Ok(SetTask(s, me, done.(pc := Leaving)))
    case WaitToJoin => Ok(SetTask(s, me, done.(pc := Waking)))
    case WaitForJoiner => AssertFailed
  }

  /** The current task of p takes its joiner, which becomes READY with the result in hand. */
  function HandedOver(s: State, p: nat, joiner: TaskId): State
    requires p < |s.current| && s.current[p] < |s.tasks| && joiner < |s.tasks|
  {
    var me := s.current[p];
    var s1 := SetTask(s, me, s.tasks[me].(joinTask := None, pc := Leaving));
    SetTask(s1, joiner, s1.tasks[joiner].(state := Ready, result := s.tasks[me].result))
  }

  /** task_go_routine: the joiner has published itself and is made ready on this processor. */
  function DoWake(s: State, p: nat): Result<State>
    requires p < |s.current| == |s.queues| && s.current[p] < |s.tasks|
  {
    var me := s.current[p];
    var task := s.tasks[me];
    if task.joinTask == None || task.joinTask.value >= |s.tasks| then AssertFailed
    else
      var joiner := task.joinTask.value;
      if s.tasks[joiner].state != Waiting then AssertFailed
      else Ok(Enqueue(HandedOver(s, p, joiner), p, joiner).(pending := s.pending - {me}))
  }

  /** The state in which a finished task calls task_yield. */
  function Ended(s: State, p: nat): State
    requires p < |s.current| && s.current[p] < |s.tasks|
  {
    var me := s.current[p];
    SetTask(s, me, s.tasks[me].(state := Done, pc := Gone))
  }

  /** task_go_routine: the task becomes DONE and gives up its processor for good. */
  function DoLeave(s: State, p: nat): Result<State>
    requires Shape(s) && p < |s.current|
  {
    DoYield(Ended(s, p), p)
  }

  /** Which steps the task that runs on a processor can take next.  A finishing task spins until its
      joiner is published, idle tasks neither join nor return. */
  predicate Enabled(s: State, a: Action) {
    && a.p < |s.current|
    && s.current[a.p] < |s.tasks|
    && var me := s.current[a.p];
      var task := s.tasks[me];
      match a
      case Create(_) => task.pc == Free
      case Yield(_) => task.pc == Free
      case IdleLoop(p) => task.pc == Free && me == p
      case JoinCall(_, target) => task.pc == Free && !Idle(s, me) && target < |s.tasks|
      case JoinPublish(_) => task.pc.Joining? && task.pc.target < |s.tasks|
      case JoinYield(_) => task.pc.Published?
      case JoinReturn(_) => task.pc.Suspended?
      case Return(_, _) => task.pc == Free && !Idle(s, me)
      case Exchange(_) => task.pc == Stored
      case Wake(_) => task.pc == Waking && task.joinTask != None
      case Leave(_) => task.pc == Leaving
  }

  /** What the caller of task_join owes: nobody's join is outstanding or already collected. */
  predicate Allowed(s: State, a: Action) {
    a.JoinCall? && a.target < |s.tasks| ==> s.tasks[a.target].joinState != WaitToJoin
  }

  function Step(s: State, a: Action): Result<State>
    requires Shape(s) && Enabled(s, a)
  {
    match a
    case Create(p) => Ok(DoCreate(s, p))
    case Yield(p) => DoYield(s, p)
    case IdleLoop(p) => DoIdleLoop(s, p)
    case JoinCall(p, target) => DoJoinCall(s, p, target)
    case JoinPublish(p) => Ok(DoJoinPublish(s, p))
    case JoinYield(p) => DoJoinYield(s, p)
    case JoinReturn(p) => DoJoinReturn(s, p)
    case Return(p, value) => Ok(DoReturn(s, p, value))
    case Exchange(p) => DoExchange(s, p)
    case Wake(p) => DoWake(s, p)
    case Leave(p) => DoLeave(s, p)
  }

  /** The steps that look for another task to run. */
  predicate Switches(a: Action) {
    a.Yield? || a.IdleLoop? || a.JoinYield? || a.Leave?
  }

  // ---------------------------------------------------------------- the join window

  /** What balancing on processor p puts at the head of its queue is a task that still runs elsewhere. */
  predicate TakesOvertaken(s: State, p: nat)
    requires p < |s.queues|
  {
    var queue := Balanced(s.queues, p)[p];
    queue != [] && queue[0] < |s.tasks| && s.tasks[queue[0]].Overtaken()
  }

  /** The wake-up finds its joiner between publishing itself and leaving its processor. */
  predicate Races(s: State, a: Action) {
    && a.Wake?
    && a.p < |s.current|
    && s.current[a.p] < |s.tasks|
    && var target := s.tasks[s.current[a.p]];
      && target.joinTask.Some?
      && target.joinTask.value < |s.tasks|
      && s.tasks[target.joinTask.value].pc.Published?
  }

  /** The steps that trip an assert: a join of a task whose join is outstanding or collected, and
      the yield of a joiner that is no longer WAITING. */
  predicate TripsAssert(s: State, a: Action)
    requires Enabled(s, a)
  {
    !Allowed(s, a) || (a.JoinYield? && s.tasks[s.current[a.p]].state != Waiting)
  }

  /** The steps that run a task which another processor is still running. */
  predicate RunsTwice(s: State, a: Action)
    requires Enabled(s, a) && |s.current| == |s.queues|
  {
    Switches(a) && !TripsAssert(s, a) && TakesOvertaken(s, a.p)
  }

  // ---------------------------------------------------------------- invariant

  /** A task is in exactly one place, and its state says which; but a joiner that has published
      itself is still current, and stays so when it is already queued again. */
  ghost predicate Placed(s: State, t: TaskId)
    requires t < |s.tasks|
  {
    var task := s.tasks[t];
    && multiset(s.current)[t] == (if task.InFront() then 1 else 0)
    && Queued(s.queues, t) == (if task.state == Ready && !Idle(s, t) then 1 else 0)
    && (Idle(s, t) ==> task.state == Running || task.state == Ready)
  }

  /** The join handshake as seen from one task. */
  ghost predicate Agreed(s: State, t: TaskId)
    requires t < |s.tasks|
  {
    var task := s.tasks[t];
    && (Idle(s, t) ==> task.pc == Free)
    && (task.InCall() ==> task.state == Running)
    && (task.state == Done <==> task.pc == Gone)
    && (task.pc.Published? ==> task.state == Waiting || task.state == Ready)
    && (task.state == Waiting ==>
          task.Announced() && task.pc.target in s.pending && s.pending[task.pc.target] == t)
    && (task.Announced() && task.state != Waiting ==>
          task.pc.target in s.returned && task.result == s.returned[task.pc.target])
    && (task.pc.Joining? ==> task.pc.target in s.pending && s.pending[task.pc.target] == t)
    && (task.Returned() <==> t in s.returned)
    && (task.Returned() ==> task.result == s.returned[t])
    && (task.pc.Waking? ==> t in s.pending)
    && (task.pc.Leaving? || task.pc.Gone? ==> t !in s.pending)
    && (!task.Returned() || task.pc.Stored? ==>
          task.joinState == if t in s.pending then WaitToJoin else Joinable)
    && (task.Returned() && !task.pc.Stored? ==> task.joinState in {WaitForJoiner, WaitToJoin})
    && (task.joinState == WaitToJoin ==> t in s.joined)
    && task.joinState != Detached
    && (task.joinTask.Some? ==> t in s.pending)
  }

  /** The joiner of a pending target has either published itself and is WAITING, or is about to. */
  ghost predicate Matched(s: State, target: TaskId)
    requires target in s.pending
  {
    && target < |s.tasks|
    && s.pending[target] < |s.tasks|
    && !Idle(s, s.pending[target])
    && var joiner := s.tasks[s.pending[target]];
      if s.tasks[target].joinTask == None
      then joiner.pc == Joining(target)
      else
        && s.tasks[target].joinTask == Some(s.pending[target])
        && joiner.Announced() && joiner.pc.target == target
        && joiner.state == Waiting
  }

  ghost predicate Delivered(s: State) {
    forall r :: r in s.received ==> r.target in s.returned && s.returned[r.target] == r.value
  }

  ghost predicate Handshake(s: State) {
    && (forall t :: 0 <= t < |s.tasks| ==> Agreed(s, t))
    && (forall target :: target in s.pending ==> Matched(s, target))
    && (forall t :: t in s.returned || t in s.joined ==> t < |s.tasks|)
    && Delivered(s)
  }

  ghost predicate Inv(s: State) {
    && Shape(s)
    && (forall t :: 0 <= t < |s.tasks| ==> Placed(s, t))
    && Handshake(s)
  }
}
