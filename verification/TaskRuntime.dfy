/** The runtime's data structures (libtask/task.c, libtask/task.h), updated in place.

    `model` is the abstract state of TaskModel that the objects stand for; every method moves it by
    exactly the step the C function takes, so the theorems about runs of the model hold of the
    objects.  A task's number is its position in `tasks`; idle tasks come first.
  */
module TaskRuntime {
  import opened Basics
  import opened LockedDeque
  import opened Balancer
  import opened StealModel
  import opened TaskModel
  import opened TaskSafety
  import opened TaskLaws

  class TaskObject {
    const id: TaskId
    var state: RunState
    var joinState: JoinState
    var joinTask: TaskObject?
    var result: int
    var schedInfo: Node?<TaskId>
    /** Where the task is in the runtime's code. */
    ghost var pc: Pc

    constructor (id: TaskId, state: RunState)
      ensures this.id == id && this.state == state
      ensures joinState == Joinable && joinTask == null && result == 0 && schedInfo == null && pc == Free
    {
      this.id := id;
      this.state := state;
      joinState := Joinable;
      joinTask := null;
      result := 0;
      schedInfo := null;
      pc := Free;
    }
  }

  class Processor {
    const id: nat
    const idle: TaskObject
    var current: TaskObject

    constructor (id: nat, idle: TaskObject)
      ensures this.id == id && this.idle == idle && current == idle
    {
      this.id := id;
      this.idle := idle;
      current := idle;
    }
  }

  class Runtime {
    var tasks: seq<TaskObject>
    const procs: seq<Processor>
    const scheds: Schedulers<TaskId>
    ghost var model: State

    ghost function Repr(): set<object>
      reads this, scheds
    {
      {this, scheds} + scheds.Repr + (set t | t in tasks) + (set q | q in procs)
    }

    ghost predicate TaskOk(i: TaskId)
      requires i < |tasks| == |model.tasks|
      reads this, tasks, scheds`cells
    {
      var task, m := tasks[i], model.tasks[i];
      && task.id == i
      && task.state == m.state
      && task.joinState == m.joinState
      && task.result == m.result
      && task.pc == m.pc
      && (m.joinTask == None ==> task.joinTask == null)
      && (m.joinTask.Some? ==> m.joinTask.value < |tasks| && task.joinTask == tasks[m.joinTask.value])
      && (task.schedInfo != null ==> task.schedInfo in scheds.cells && task.schedInfo.data == i)
    }

    ghost predicate ProcOk(p: nat)
      requires p < |procs| == |model.current| && p < |tasks| && model.current[p] < |tasks|
      reads this, procs
    {
      && procs[p].id == p
      && procs[p].idle == tasks[p]
      && procs[p].current == tasks[model.current[p]]
    }

    /** The objects stand for the model. */
    ghost predicate Valid()
      reads Repr()
    {
      && this !in scheds.Repr
      && (forall t :: t in tasks ==> t !in scheds.Repr)
      && (forall q :: q in procs ==> q !in scheds.Repr)
      && scheds.Valid()
      && scheds.queues == model.queues
      && Shape(model)
      && |tasks| == |model.tasks|
      && |procs| == |model.current| == |scheds.scheds|
      && (forall i :: 0 <= i < |tasks| ==> TaskOk(i))
      && (forall p :: 0 <= p < |procs| ==> ProcOk(p))
    }

    ghost predicate Has(task: TaskObject)
      reads this
    {
      task.id < |tasks| && tasks[task.id] == task
    }

    /** task_init_procs: n processors, each running its idle task. */
    constructor (n: nat)
      requires n > 0
      ensures Valid() && fresh(Repr())
      ensures model == Init(n) && Inv(model)
      ensures |tasks| == |procs| == |scheds.queues| == n
      ensures forall p :: 0 <= p < n ==>
                && procs[p].idle == procs[p].current == tasks[p] && tasks[p].state == Running
                && tasks[p].joinState == Joinable && scheds.queues[p] == []
    {
      var schedulers := new Schedulers<TaskId>(n);
      var idles, processors := NewProcessors(n);
      InitInv(n);
      tasks := idles;
      procs := processors;
      scheds := schedulers;
      model := Init(n);
    }

    /** init_proc, for each processor. */
    static method NewProcessors(n: nat) returns (idles: seq<TaskObject>, processors: seq<Processor>)
      ensures |idles| == |processors| == n
      ensures forall k :: 0 <= k < n ==>
                && fresh(idles[k]) && idles[k].id == k && idles[k].state == Running
                && idles[k].joinState == Joinable && idles[k].joinTask == null
                && idles[k].result == 0 && idles[k].schedInfo == null && idles[k].pc == Free
      ensures forall k :: 0 <= k < n ==>
                && fresh(processors[k]) && processors[k].id == k
                && processors[k].idle == processors[k].current == idles[k]
    {
      idles, processors := [], [];
      for i := 0 to n
        invariant |idles| == |processors| == i
        invariant forall k :: 0 <= k < i ==>
                    && fresh(idles[k]) && idles[k].id == k && idles[k].state == Running
                    && idles[k].joinState == Joinable && idles[k].joinTask == null
                    && idles[k].result == 0 && idles[k].schedInfo == null && idles[k].pc == Free
        invariant forall k :: 0 <= k < i ==>
                    && fresh(processors[k]) && processors[k].id == k
                    && processors[k].idle == processors[k].current == idles[k]
      {
        var idle := new TaskObject(i, Running);
        var proc := new Processor(i, idle);
        idles := idles + [idle];
        processors := processors + [proc];
      }
    }

    /** New queues leave tasks and processors as they are. */
    twostate lemma RequeuedIsValid()
      requires old(Valid()) && scheds.Valid()
      requires this !in scheds.Repr
      requires forall t :: t in tasks ==> t !in scheds.Repr
      requires forall q :: q in procs ==> q !in scheds.Repr
      requires tasks == old(tasks) && old(scheds.cells) <= scheds.cells
      requires model == old(model).(queues := scheds.queues) && Shape(model)
      requires forall k :: 0 <= k < |tasks| ==> unchanged(tasks[k])
      requires forall q :: 0 <= q < |procs| ==> unchanged(procs[q])
      ensures Valid()
    {
      forall i | 0 <= i < |tasks| ensures TaskOk(i) {
        assert old(TaskOk(i));
      }
      forall q | 0 <= q < |procs| ensures ProcOk(q) {
        assert old(ProcOk(q));
      }
    }

    /** The task's cell, allocated on first use.  A task that is in no queue has its cell free. */
    method CellOf(task: TaskObject) returns (node: Node<TaskId>)
      requires Valid() && Has(task) && Queued(model.queues, task.id) == 0
      ensures node.owner == null && node.next == null && node.data == task.id
      ensures fresh(node) || (node == task.schedInfo && node in scheds.Repr)
    {
      assert TaskOk(task.id);
      if task.schedInfo == null {
        node := new Node<TaskId>(task.id);
      } else {
        node := task.schedInfo;
        scheds.UnqueuedCellIsFree(node);
      }
    }

    /** schedule: the task's cell goes to the end of the deque. */
    method Schedule(p: nat, task: TaskObject)
      requires Valid() && p < |procs|
      requires Has(task) && Queued(model.queues, task.id) == 0
      modifies Repr()
      ensures Valid() && fresh(Repr() - old(Repr()))
      ensures tasks == old(tasks) && model == Enqueue(old(model), p, task.id)
    {
      var node := CellOf(task);
      PushCell(p, node);
      SetCell(task, node);
    }

    method PushCell(p: nat, node: Node<TaskId>)
      requires Valid() && p < |procs|
      requires node.owner == null && node.next == null && node.data < |tasks|
      modifies this`model, scheds.Repr, node
      ensures Valid() && Repr() == old(Repr()) + {node} && node in scheds.cells
      ensures tasks == old(tasks) && model == Enqueue(old(model), p, node.data)
    {
      scheds.Push(p, node);
      model := Enqueue(model, p, node.data);
      RequeuedIsValid();
    }

    method SetCell(task: TaskObject, node: Node<TaskId>)
      requires Valid() && Has(task) && node in scheds.cells && node.data == task.id
      modifies task`schedInfo
      ensures Valid() && Repr() == old(Repr())
    {
      task.schedInfo := node;
      forall i | 0 <= i < |tasks| ensures TaskOk(i) {
        assert old(TaskOk(i));
      }
      forall q | 0 <= q < |procs| ensures ProcOk(q) {
        assert old(ProcOk(q));
      }
    }

    /** Writing the fields of one task is the model's SetTask. */
    twostate lemma WrittenIsValid(task: TaskObject)
      requires old(Valid()) && old(Has(task)) && tasks == old(tasks)
      requires |model.tasks| == |old(model).tasks|
      requires model.tasks == old(model).tasks[task.id := model.tasks[task.id]]
      requires model.current == old(model).current && model.queues == old(model).queues
      requires scheds.Valid() && unchanged(scheds)
      requires forall k :: 0 <= k < |tasks| && tasks[k] != task ==> unchanged(tasks[k])
      requires forall q :: 0 <= q < |procs| ==> procs[q].current == old(procs[q].current)
      requires var m := model.tasks[task.id];
        && task.state == m.state && task.joinState == m.joinState && task.result == m.result && task.pc == m.pc
        && (m.joinTask == None ==> task.joinTask == null)
        && (m.joinTask.Some? ==> m.joinTask.value < |tasks| && task.joinTask == tasks[m.joinTask.value])
      requires task.schedInfo == old(task.schedInfo)
      ensures Valid()
    {
      forall i | 0 <= i < |tasks| ensures TaskOk(i) {
        assert old(TaskOk(i));
      }
      forall q | 0 <= q < |procs| ensures ProcOk(q) {
        assert old(ProcOk(q));
      }
    }

    /** task->state = state. */
    method SetState(task: TaskObject, state: RunState)
      requires Valid() && Has(task)
      modifies this, task
      ensures Valid() && tasks == old(tasks) && Repr() == old(Repr())
      ensures model == SetTask(old(model), task.id, old(model.tasks[task.id]).(state := state))
    {
      assert TaskOk(task.id);
      task.state := state;
      model := SetTask(model, task.id, model.tasks[task.id].(state := state));
      WrittenIsValid(task);
    }

    /** proc->current = to. */
    method SetCurrent(p: nat, to: TaskObject)
      requires Valid() && p < |procs| && Has(to)
      requires to.id < |procs| ==> to.id == p
      modifies this, procs[p]
      ensures Valid() && tasks == old(tasks) && Repr() == old(Repr())
      ensures model == old(model).(current := old(model).current[p := to.id])
    {
      procs[p].current := to;
      model := model.(current := model.current[p := to.id]);
      forall i | 0 <= i < |tasks| ensures TaskOk(i) {
        assert old(TaskOk(i));
      }
      forall q | 0 <= q < |procs| ensures ProcOk(q) {
        assert old(ProcOk(q)) && old(ProcOk(p));
      }
    }

    /** task_switch_to, first half: a task that could go on is made READY and, unless it is the idle
        task, queued. */
    method PutBack(p: nat)
      requires Valid() && p < |procs|
      requires model.tasks[model.current[p]].state != Ready
      requires Queued(model.queues, model.current[p]) == 0
      modifies Repr()
      ensures Valid() && fresh(Repr() - old(Repr()))
      ensures tasks == old(tasks)
      ensures var s, from := old(model), old(model.current[p]);
        model ==
          if s.tasks[from].state != Running then s
          else
            var marked := SetTask(s, from, s.tasks[from].(state := Ready));
            if from != p then Enqueue(marked, p, from) else marked
    {
      assert ProcOk(p) && TaskOk(model.current[p]) && TaskOk(p);
      var from := procs[p].current;
      if from.state == Running {
        SetState(from, Ready);
        if from != procs[p].idle {
          Schedule(p, from);
        }
      }
    }

    /** task_switch_to, up to the context swap; the C asserts are proved. */
    method TaskSwitchTo(p: nat, to: TaskObject)
      requires Valid() && p < |procs| && Has(to)
      requires to.id < |procs| ==> to.id == p
      requires SwitchTo(model, p, to.id).Ok?
      requires Queued(model.queues, model.current[p]) == 0
      modifies Repr()
      ensures Valid() && fresh(Repr() - old(Repr()))
      ensures tasks == old(tasks)
      ensures SwitchTo(old(model), p, to.id) == Ok(model)
    {
      PutBack(p);
      assert TaskOk(to.id);
      assert to.state == Ready;
      SetState(to, Running);
      SetCurrent(p, to);
    }

    /** sched_load_balance on processor p's scheduler. */
    method Rebalance(p: nat)
      requires Valid() && p < |procs|
      modifies Repr()
      ensures Valid() && Repr() == old(Repr()) && tasks == old(tasks)
      ensures model == Rebalanced(old(model), p)
    {
      BalanceKeepsShape(model, p);
      scheds.LoadBalance(p);
      model := Rebalanced(model, p);
      RequeuedIsValid();
    }

    /** sched_get_task on processor p's scheduler. */
    method GetTask(p: nat) returns (task: TaskObject?)
      requires Valid() && p < |procs|
      modifies Repr()
      ensures Valid() && Repr() == old(Repr()) && tasks == old(tasks)
      ensures old(model).queues[p] == [] ==> task == null && model == old(model)
      ensures old(model).queues[p] != [] ==>
                && task == tasks[old(model).queues[p][0]]
                && Has(task) && task.id == old(model).queues[p][0]
                && model == old(model).(queues := old(model).queues[p := old(model).queues[p][1..]])
    {
      var node := scheds.Pop(p);
      model := model.(queues := scheds.queues);
      RequeuedIsValid();
      task := null;
      if node != null {
        task := tasks[node.data];
        assert TaskOk(node.data);
      }
    }

    /** sched_get_task for a switch: what it yields can be switched to, unless it was overtaken. */
    method NextTask(p: nat) returns (task: TaskObject?)
      requires Valid() && YieldReady(model, p) && !HeadOvertaken(model, p)
      modifies Repr()
      ensures Valid() && Repr() == old(Repr()) && tasks == old(tasks)
      ensures old(model).queues[p] == [] <==> task == null
      ensures task == null ==> model == old(model)
      ensures task != null ==>
                && Has(task) && (task.id < |procs| ==> task.id == p)
                && Queued(model.queues, model.current[p]) == 0
                && SwitchTo(model, p, task.id).Ok?
                && SwitchTo(model, p, task.id) == SwitchToHead(old(model), p)
    {
      DispatchKeeps(model, p);
      if model.queues[p] != [] {
        HeadIsFree(model, p);
      }
      task := GetTask(p);
    }

    /** Nothing is queued: a task that cannot go on makes way for the idle task. */
    method RunIdleIfStuck(p: nat)
      requires Valid() && YieldReady(model, p) && model.queues[p] == []
      modifies Repr()
      ensures Valid() && fresh(Repr() - old(Repr())) && tasks == old(tasks)
      ensures Dispatch(old(model), p) == Ok(model)
    {
      DispatchKeeps(model, p);
      assert ProcOk(p) && TaskOk(model.current[p]) && TaskOk(p);
      var current := procs[p].current;
      if current.state == Done || current.state == Waiting {
        IdleIsFree(model, p);
        TaskSwitchTo(p, procs[p].idle);
      }
    }

    /** task_yield after balancing. */
    method DispatchNext(p: nat)
      requires Valid() && YieldReady(model, p) && !HeadOvertaken(model, p)
      modifies Repr()
      ensures Valid() && fresh(Repr() - old(Repr())) && tasks == old(tasks)
      ensures Dispatch(old(model), p) == Ok(model)
    {
      var task := NextTask(p);
      if task == null {
        RunIdleIfStuck(p);
      } else {
        TaskSwitchTo(p, task);
      }
    }

    /** task_yield on processor p. */
    method TaskYield(p: nat)
      requires Valid() && YieldReady(model, p) && !TakesOvertaken(model, p)
      modifies Repr()
      ensures Valid() && fresh(Repr() - old(Repr())) && tasks == old(tasks)
      ensures DoYield(old(model), p) == Ok(model)
    {
      BalanceKeepsReady(model, p);
      Rebalance(p);
      DispatchNext(p);
    }

    // ---------------------------------------------------------------- the steps of the model
    //
    // A step that looks for work must not find a joiner that was overtaken in its join window, and a
    // joiner must not be overtaken itself; FailsExactly shows that the source fails in just these cases.

    /** task_yield as called by the task that runs on p. */
    method YieldCall(p: nat)
      requires Valid() && Inv(model) && Enabled(model, Yield(p)) && !TakesOvertaken(model, p)
      modifies Repr()
      ensures Valid() && Inv(model) && fresh(Repr() - old(Repr()))
      ensures Step(old(model), Yield(p)) == Ok(model) && Switched(old(model), p, true, model)
    {
      hide Inv, Step, Handshake, YieldReady, DoYield, TakesOvertaken, Rescheduled, Switched;
      SwitchStep(model, Yield(p));
      MarkedIsReady(model, Yield(p));
      TaskYield(p);
      SwitchLaw(old(model), Yield(p), model);
    }

    /** One turn of the loop in pthread_routine; sleeping is not part of the model. */
    method IdleTurn(p: nat)
      requires Valid() && Inv(model) && Enabled(model, IdleLoop(p)) && !TakesOvertaken(model, p)
      modifies Repr()
      ensures Valid() && Inv(model) && fresh(Repr() - old(Repr()))
      ensures Step(old(model), IdleLoop(p)) == Ok(model) && Switched(old(model), p, true, model)
    {
      hide Inv, YieldReady, Step, SwitchToHead, Switched;
      IdleTurnReady(model, p);
      Rebalance(p);
      RunNextOrIdle(p);
      SwitchLaw(old(model), IdleLoop(p), model);
    }

    /** The loop's choice after balancing; the C asserts of the sleeping branch are proved. */
    method RunNextOrIdle(p: nat)
      requires Valid() && YieldReady(model, p) && !HeadOvertaken(model, p)
      requires model.current[p] == p && model.tasks[p].state == Running
      modifies Repr()
      ensures Valid() && fresh(Repr() - old(Repr()))
      ensures old(model).queues[p] == [] ==> model == old(model)
      ensures old(model).queues[p] != [] ==> SwitchToHead(old(model), p) == Ok(model)
    {
      var task := NextTask(p);
      if task != null {
        TaskSwitchTo(p, task);
      } else {
        assert ProcOk(p) && TaskOk(p);
        assert procs[p].current == procs[p].idle;
        assert procs[p].current.state == Running;
      }
    }

    /** task_create. */
    method TaskCreate(p: nat) returns (task: TaskObject)
      requires Valid() && Inv(model) && Enabled(model, Create(p))
      modifies Repr()
      ensures Valid() && Inv(model) && fresh(Repr() - old(Repr()))
      ensures Has(task) && fresh(task) && task.state == Ready && tasks == old(tasks) + [task]
      ensures scheds.queues == old(scheds.queues)[p := old(scheds.queues)[p] + [task.id]]
      ensures Step(old(model), Create(p)) == Ok(model)
    {
      hide Inv;
      CreateStep(model, p);
      NewIsUnqueued(model);
      task := AddTask();
      hide Runtime.Repr;
      Schedule(p, task);
      assert TaskOk(task.id);
    }

    /** A task that is READY and not queued yet. */
    method AddTask() returns (task: TaskObject)
      requires Valid()
      modifies this
      ensures Valid() && fresh(task) && task.id == |old(tasks)|
      ensures tasks == old(tasks) + [task] && Repr() == old(Repr()) + {task}
      ensures model == old(model).(tasks := old(model).tasks + [FRESH])
    {
      task := new TaskObject(|tasks|, Ready);
      tasks := tasks + [task];
      model := model.(tasks := model.tasks + [FRESH]);
      forall i | 0 <= i < |tasks| ensures TaskOk(i) {
        assert i < |old(tasks)| ==> old(TaskOk(i));
      }
      forall q | 0 <= q < |procs| ensures ProcOk(q) {
        assert old(ProcOk(q));
      }
    }

    /** An object and the task of the model it stands for. */
    lemma StandsFor(task: TaskObject)
      requires Valid() && Has(task)
      ensures |tasks| == |model.tasks|
      ensures var m := model.tasks[task.id];
        && task.state == m.state && task.joinState == m.joinState && task.result == m.result && task.pc == m.pc
        && (m.joinTask == None ==> task.joinTask == null)
        && (m.joinTask.Some? ==> m.joinTask.value < |tasks| && task.joinTask == tasks[m.joinTask.value])
    {
      assert TaskOk(task.id);
    }

    /** What runs on processor p. */
    lemma CurrentIs(p: nat)
      requires Valid() && p < |procs|
      ensures |procs| == |model.current| && model.current[p] < |tasks| == |model.tasks|
      ensures procs[p].current == tasks[model.current[p]]
      ensures Has(procs[p].current) && procs[p].current.id == model.current[p]
    {
      assert ProcOk(p) && TaskOk(model.current[p]);
    }

    /** The atomic exchange of a task's join_state. */
    method ExchangeJoinState(task: TaskObject, joinState: JoinState) returns (before: JoinState)
      requires Valid() && Has(task)
      modifies this, task
      ensures Valid() && tasks == old(tasks) && Repr() == old(Repr())
      ensures before == old(model).tasks[task.id].joinState
      ensures model == SetTask(old(model), task.id, old(model).tasks[task.id].(joinState := joinState))
      ensures task.result == old(task.result) && task.joinTask == old(task.joinTask)
    {
      assert TaskOk(task.id);
      before := task.joinState;
      task.joinState := joinState;
      model := SetTask(model, task.id, model.tasks[task.id].(joinState := joinState));
      WrittenIsValid(task);
    }

    /** The current task of p moves on in the runtime's code, and history is recorded. */
    ghost method Advance(p: nat, pc: Pc, next: State)
      requires Valid() && p < |procs| && Shape(next)
      requires next.tasks == model.tasks[model.current[p] := model.tasks[model.current[p]].(pc := pc)]
      requires next.current == model.current && next.queues == model.queues
      modifies this, procs[p].current`pc
      ensures Valid() && tasks == old(tasks) && Repr() == old(Repr())
      ensures model == next
    {
      assert ProcOk(p) && TaskOk(model.current[p]);
      procs[p].current.pc := pc;
      model := next;
      WrittenIsValid(procs[p].current);
    }

    /** task_join up to the outcome of its exchange: either the result is there, or the caller has to
        suspend itself. */
    method TaskJoin(p: nat, target: TaskObject) returns (suspends: bool, result: int)
      requires Valid() && Inv(model) && Has(target)
      requires Enabled(model, JoinCall(p, target.id)) && Allowed(model, JoinCall(p, target.id))
      modifies Repr()
      ensures Valid() && Inv(model) && Repr() == old(Repr())
      ensures Step(old(model), JoinCall(p, target.id)) == Ok(model)
      ensures suspends <==> model.tasks[model.current[p]].pc == Joining(target.id)
      ensures !suspends ==> target.id in model.returned && result == model.returned[target.id]
      ensures target.joinState == WaitToJoin && (suspends <==> old(target.joinState) == Joinable)
      ensures !suspends ==> result == target.result
      ensures !suspends ==> model.received == old(model).received + [Receipt(model.current[p], target.id, result)]
    {
      assert p < |procs|;
      JoinCallLaw(model, p, target.id);
      ghost var next := Step(model, JoinCall(p, target.id)).value;
      hide Runtime.Valid, Inv, Step, Enabled, Allowed, Shape;
      StandsFor(target);
      CurrentIs(p);
      var oldState := ExchangeJoinState(target, WaitToJoin);
      suspends := oldState == Joinable;
      result := 0;
      if suspends {
        Advance(p, Joining(target.id), next);
      } else {
        assert oldState == WaitForJoiner;
        result := target.result;
        Advance(p, Free, next);
      }
      StandsFor(target);
    }

    /** task->result = result. */
    method SetResult(task: TaskObject, result: int)
      requires Valid() && Has(task)
      modifies this, task
      ensures Valid() && tasks == old(tasks) && Repr() == old(Repr())
      ensures model == SetTask(old(model), task.id, old(model.tasks[task.id]).(result := result))
      ensures task.state == old(task.state) && task.joinTask == old(task.joinTask)
    {
      assert TaskOk(task.id);
      task.result := result;
      model := SetTask(model, task.id, model.tasks[task.id].(result := result));
      WrittenIsValid(task);
    }

    /** task->join_task = joiner. */
    method SetJoinTask(task: TaskObject, joiner: TaskObject?)
      requires Valid() && Has(task) && (joiner != null ==> Has(joiner))
      modifies this, task
      ensures Valid() && tasks == old(tasks) && Repr() == old(Repr())
      ensures model == SetTask(old(model), task.id,
                old(model.tasks[task.id]).(joinTask := if joiner == null then None else Some(joiner.id)))
      ensures task.state == old(task.state) && task.result == old(task.result)
    {
      assert TaskOk(task.id);
      task.joinTask := joiner;
      model := SetTask(model, task.id,
        model.tasks[task.id].(joinTask := if joiner == null then None else Some(joiner.id)));
      WrittenIsValid(task);
    }

    /** task_join after its exchange: the caller marks itself WAITING and publishes itself as joiner. */
    method PublishJoiner(p: nat, target: TaskObject)
      requires Valid() && Inv(model) && Has(target)
      requires Enabled(model, JoinPublish(p)) && model.tasks[model.current[p]].pc == Joining(target.id)
      modifies Repr()
      ensures Valid() && Inv(model) && Repr() == old(Repr())
      ensures Step(old(model), JoinPublish(p)) == Ok(model)
      ensures procs[p].current == old(procs[p].current) && procs[p].current.state == Waiting
      ensures target.joinTask == procs[p].current
    {
      JoinPublishStep(model, p);
      CurrentIs(p);
      PublishSelf(p, target);
      CurrentIs(p);
      StandsFor(procs[p].current);
      StandsFor(target);
    }

    /** The current task of p marks itself. */
    method MarkSelf(p: nat, state: RunState, ghost pc: Pc)
      requires Valid() && p < |procs|
      modifies this, procs[p].current
      ensures Valid() && tasks == old(tasks) && Repr() == old(Repr())
      ensures var s, me := old(model), old(model).current[p];
        model == SetTask(s, me, s.tasks[me].(state := state, pc := pc))
    {
      assert ProcOk(p) && TaskOk(model.current[p]);
      var current := procs[p].current;
      SetState(current, state);
      Advance(p, pc, SetTask(model, current.id, model.tasks[current.id].(pc := pc)));
    }

    method PublishSelf(p: nat, target: TaskObject)
      requires Valid() && p < |procs| && Has(target)
      requires model.tasks[model.current[p]].pc == Joining(target.id)
      modifies this, procs[p].current, target
      ensures Valid() && tasks == old(tasks) && Repr() == old(Repr())
      ensures model == DoJoinPublish(old(model), p)
    {
      assert ProcOk(p) && TaskOk(model.current[p]);
      var current := procs[p].current;
      MarkSelf(p, Waiting, Published(target.id));
      SetJoinTask(target, current);
    }

    /** task_join: the published joiner yields its processor. */
    method YieldJoiner(p: nat)
      requires Valid() && Inv(model) && Enabled(model, JoinYield(p))
      requires model.tasks[model.current[p]].state == Waiting && !TakesOvertaken(model, p)
      modifies Repr()
      ensures Valid() && Inv(model) && fresh(Repr() - old(Repr()))
      ensures Step(old(model), JoinYield(p)) == Ok(model) && Switched(old(model), p, false, model)
    {
      hide Inv, Step, Handshake, YieldReady, DoYield, TakesOvertaken, Rescheduled, Switched;
      SwitchStep(model, JoinYield(p));
      MarkedIsReady(model, JoinYield(p));
      assert ProcOk(p);
      Advance(p, Suspended(model.tasks[model.current[p]].pc.target), Suspending(model, p));
      TaskYield(p);
      SwitchLaw(old(model), JoinYield(p), model);
    }

    /** task_join after the joiner runs again. */
    method ResumeJoiner(p: nat) returns (result: int)
      requires Valid() && Inv(model) && Enabled(model, JoinReturn(p))
      modifies Repr()
      ensures Valid() && Inv(model) && Repr() == old(Repr())
      ensures Step(old(model), JoinReturn(p)) == Ok(model)
      ensures var target := old(model).tasks[old(model).current[p]].pc.target;
        target in model.returned && result == model.returned[target]
      ensures result == old(procs[p].current.result)
      ensures model.received == old(model).received
                + [Receipt(model.current[p], old(model).tasks[old(model).current[p]].pc.target, result)]
    {
      JoinReturnStep(model, p);
      assert ProcOk(p) && TaskOk(model.current[p]);
      assert Agreed(model, model.current[p]);
      CurrentRuns(model, p);
      var current := procs[p].current;
      assert current.state == Running;
      result := current.result;
      Advance(p, Free, DoJoinReturn(model, p).value);
    }

    /** task_go_routine: the entry function has returned. */
    method StoreResult(p: nat, value: int)
      requires Valid() && Inv(model) && Enabled(model, Return(p, value))
      modifies Repr()
      ensures Valid() && Inv(model) && Repr() == old(Repr())
      ensures Step(old(model), Return(p, value)) == Ok(model)
      ensures procs[p].current == old(procs[p].current) && procs[p].current.result == value
    {
      assert p < |procs|;
      hide Runtime.Valid, Inv;
      ReturnStep(model, p, value);
      CurrentIs(p);
      StandsFor(procs[p].current);
      ghost var next := DoReturn(model, p, value);
      SetResult(procs[p].current, value);
      CurrentIs(p);
      Advance(p, Stored, next);
      CurrentIs(p);
      StandsFor(procs[p].current);
    }

    /** task_go_routine: the exchange that closes the task to new waiters. */
    method AnnounceEnd(p: nat)
      requires Valid() && Inv(model) && Enabled(model, Exchange(p))
      modifies Repr()
      ensures Valid() && Inv(model) && Repr() == old(Repr())
      ensures Step(old(model), Exchange(p)) == Ok(model)
      ensures procs[p].current == old(procs[p].current) && procs[p].current.joinState == WaitForJoiner
      ensures procs[p].current.pc == if old(procs[p].current.joinState) == WaitToJoin then Waking else Leaving
    {
      assert p < |procs|;
      hide Runtime.Valid, Inv;
      ExchangeStep(model, p);
      ExchangeFinds(model, p);
      CurrentIs(p);
      StandsFor(procs[p].current);
      ghost var next := DoExchange(model, p).value;
      var current := procs[p].current;
      var oldState := ExchangeJoinState(current, WaitForJoiner);
      if oldState == Joinable {
        assert current.joinTask == null;
        Advance(p, Leaving, next);
      } else {
        assert oldState == WaitToJoin;
        Advance(p, Waking, next);
      }
      CurrentIs(p);
      StandsFor(current);
    }

    /** task_go_routine: the published joiner is taken, made ready and given the result. */
    method WakeJoiner(p: nat)
      requires Valid() && Inv(model) && Enabled(model, Wake(p))
      modifies Repr()
      ensures Valid() && Inv(model) && fresh(Repr() - old(Repr()))
      ensures Step(old(model), Wake(p)) == Ok(model)
      ensures var joiner, me := old(procs[p].current.joinTask), procs[p].current;
        && me == old(procs[p].current) && me.joinTask == null && joiner != null
        && joiner.state == Ready && joiner.result == me.result
        && scheds.queues == old(scheds.queues)[p := old(scheds.queues)[p] + [joiner.id]]
    {
      hide Inv, Step, Handshake, DoWake, Woken, HandedOver, Enqueue, Shape, Enabled;
      WakeTakes(model, p);
      WakeLaw(model, p);
      ghost var next := DoWake(model, p).value;
      var joiner := JoinerOf(p);
      assert joiner.state == Waiting;
      CurrentIs(p);
      StandsFor(procs[p].current);
      assert scheds.queues == model.queues;
      hide Runtime.Valid;
      QueueJoiner(p, joiner);
      Reenter(next);
      JoinerIsServed(old(model), p, joiner);
    }

    /** The joiner gets the result and goes to the end of this processor's queue. */
    method QueueJoiner(p: nat, joiner: TaskObject)
      requires Valid() && p < |procs| && Has(joiner) && joiner.id != model.current[p]
      requires Queued(model.queues, joiner.id) == 0
      modifies Repr()
      ensures Valid() && fresh(Repr() - old(Repr()))
      ensures tasks == old(tasks) && model == Enqueue(HandedOver(old(model), p, joiner.id), p, joiner.id)
    {
      CurrentIs(p);
      HandOver(p, joiner);
      assert this in Repr();
      hide Runtime.Repr;
      Schedule(p, joiner);
    }

    lemma JoinerIsServed(s: State, p: nat, joiner: TaskObject)
      requires Valid() && p < |procs| && Has(joiner) && Woken(s, p, model)
      requires s.tasks[s.current[p]].joinTask == Some(joiner.id)
      ensures procs[p].current == tasks[s.current[p]] && procs[p].current.joinTask == null
      ensures joiner.state == Ready && joiner.result == procs[p].current.result
      ensures scheds.queues == s.queues[p := s.queues[p] + [joiner.id]]
    {
      CurrentIs(p);
      StandsFor(procs[p].current);
      StandsFor(joiner);
    }

    /** The published joiner of p's current task. */
    method JoinerOf(p: nat) returns (joiner: TaskObject)
      requires Valid() && p < |procs|
      requires var joinTask := model.tasks[model.current[p]].joinTask; joinTask.Some? && joinTask.value < |model.tasks|
      ensures Has(joiner) && joiner.id == model.tasks[model.current[p]].joinTask.value
      ensures joiner.state == model.tasks[joiner.id].state
    {
      assert ProcOk(p) && TaskOk(model.current[p]);
      assert TaskOk(model.tasks[model.current[p]].joinTask.value);
      joiner := procs[p].current.joinTask;
    }

    /** task->join_task = NULL, when the joiner is taken. */
    method TakeJoiner(p: nat)
      requires Valid() && p < |procs|
      modifies this, procs[p].current
      ensures Valid() && tasks == old(tasks) && Repr() == old(Repr())
      ensures var s, me := old(model), old(model).current[p];
        model == SetTask(s, me, s.tasks[me].(joinTask := None, pc := Leaving))
    {
      assert ProcOk(p) && TaskOk(model.current[p]);
      var current := procs[p].current;
      SetJoinTask(current, null);
      Advance(p, Leaving, SetTask(model, current.id, model.tasks[current.id].(pc := Leaving)));
    }

    /** join_task is cleared and the joiner made ready with the result. */
    method HandOver(p: nat, joiner: TaskObject)
      requires Valid() && p < |procs| && Has(joiner) && joiner.id != model.current[p]
      modifies this, procs[p].current, joiner
      ensures Valid() && tasks == old(tasks) && Repr() == old(Repr())
      ensures model == HandedOver(old(model), p, joiner.id)
    {
      assert ProcOk(p) && TaskOk(model.current[p]);
      var result := procs[p].current.result;
      TakeJoiner(p);
      MakeReady(joiner, result);
    }

    method MakeReady(task: TaskObject, result: int)
      requires Valid() && Has(task)
      modifies this, task
      ensures Valid() && tasks == old(tasks) && Repr() == old(Repr())
      ensures model == SetTask(old(model), task.id, old(model.tasks[task.id]).(state := Ready, result := result))
    {
      assert TaskOk(task.id);
      task.state := Ready;
      task.result := result;
      model := SetTask(model, task.id, model.tasks[task.id].(state := Ready, result := result));
      WrittenIsValid(task);
    }

    /** Only history is recorded. */
    ghost method Reenter(next: State)
      requires Valid()
      requires next.tasks == model.tasks && next.current == model.current && next.queues == model.queues
      modifies this`model
      ensures Valid() && Repr() == old(Repr()) && model == next
    {
      model := next;
      forall i | 0 <= i < |tasks| ensures TaskOk(i) {
        assert old(TaskOk(i));
      }
      forall q | 0 <= q < |procs| ensures ProcOk(q) {
        assert old(ProcOk(q));
      }
    }

    /** task_go_routine: the task is DONE and gives up its processor for good. */
    method Leave(p: nat)
      requires Valid() && Inv(model) && Enabled(model, Action.Leave(p)) && !TakesOvertaken(model, p)
      modifies Repr()
      ensures Valid() && Inv(model) && fresh(Repr() - old(Repr()))
      ensures Step(old(model), Action.Leave(p)) == Ok(model) && Switched(old(model), p, false, model)
      ensures old(procs[p].current).state == Done
    {
      hide Inv, Step, Handshake, YieldReady, DoYield, TakesOvertaken, Rescheduled, Switched;
      SwitchStep(model, Action.Leave(p));
      MarkedIsReady(model, Action.Leave(p));
      assert ProcOk(p);
      MarkSelf(p, Done, Gone);
      hide Runtime.Repr;
      TaskYield(p);
      SwitchLaw(old(model), Action.Leave(p), model);
      assert TaskOk(old(model.current[p]));
    }
  }
}
