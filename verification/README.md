# Koala: models and proofs

Koala is a small language with a byte-code compiler and virtual machine. This project models seven of its
components and proves what they promise. Each Dafny module follows one source file or one layer of it.
`dafny verify dfyconfig.toml` checks everything.

Where the code works by changing things in place, so does the model: classes with the source's fields, and
methods with its loops. Each such method is proved against a function of values, and the promises are proved
about those functions and about every run.

| Component | Modules |
|---|---|
| Task runtime (`libtask/`) | `LockedDeque`, `StealModel`, `Balancer`, `TaskModel`, `TaskSafety`, `TaskRaces`, `TaskRaceRun`, `TaskJoinRun`, `TaskFairness`, `TaskLaws`, `TaskRuntime` |
| Hash table and intrusive lists | `IntrusiveLists`, `Buckets`, `HashTable` |
| Type descriptors, their text and their table | `TypeDesc`, `TypeText`, `TypeSpelling`, `DescModel`, `DescPool` |
| Image tables | `ImageKinds`, `AtomTables`, `ImageTypes`, `ImageDecode`, `ImageInterning`, `ImageOrder`, `ImageRoundTrip`, `ImageTables` |
| Image files | `ImageLayout`, `ImageReader`, `ImageFile`, `ImageWhole` |
| Classes and objects | `ClassOrder`, `ClassLayout`, `ClassObjects`, `ClassLookup` |
| Smaller cores | `PathTree`, `PathForm`, `PkgTree`, `LocalSlots`, `HashFunc` |
| Shared | `Basics` |

## Assumptions

- Task runtime: one call of `task_yield` is one step: the whole of `sched_load_balance`, whose reads of the other
  schedulers' counts take no lock (`libtask/task_scheduler_locked.c:90-118`), the pop, marking and queueing the
  old task, and the swap of contexts. This is exact on one processor, which is how the virtual machine starts the
  runtime (`src/state.c:156`). With several processors it is an abstraction: the mutex of a deque makes single
  deque operations atomic but not the round of balancing, `libtask/task.c:98` queues the old task before the swap
  at `libtask/task.c:111`, and a joiner can be woken between the test at `libtask/task.c:101` and that swap. The
  wake-up (`libtask/task.c:70-79`) is one step too. The two atomic exchanges, the publication of the joiner, its
  yield, the store of the result, the wake-up and the final switch are separate steps, and other processors may
  act between any two of them. The idle task of processor p is task p; idle tasks neither join nor return.
- Hash table: equality of keys is an equivalence, equal keys have equal hashes, and keys do not change while
  stored. The `Remove_HashNode` macro (`include/hashtable.h:56`) bypasses the node count and is outside.
- Image tables: items come from zeroed memory, so a type item is its kind and two words. Strings hold no zero
  character. A kind is always appended with the same `unique` flag, as all callers do.
- Decoding a type index yields the descriptor's meaning. The source builds it with constructors that intern by
  text, so for a descriptor that is not in normal form (an array of arrays, an empty path) the node may be the
  one of the other descriptor with that text (`TypeText.TextNeedsNormalForm`).
- Image files: offsets and counts fit 32 bits, and words are stored least significant byte first.
- Classes: a class gets no new field once it is in the order of another class or has objects.
- Strings are sequences of characters and string building is concatenation.

## Where the code does less than it promises

- A map's text is printed with a colon (`src/typedesc.c:450`) that the reader does not skip
  (`src/typedesc.c:554-559`). `TypeText.RoundTripExactlyWithoutMaps` gives the exact condition, and
  `TypeSpelling.ReadsExactlyWhatIsSpelled` the language that is read instead.
- A function type nested in another type can get the index of a different one, because -1 stands both for no
  list and for a list that is not stored (`src/image.c:381-395`). `ImageRoundTrip.DecodesExactlyUnlessMisread`
  gives the exact condition and `ImageRoundTrip.NestedFunctionTypeIsMisread` an instance.
- An empty code item cannot be loaded again (`src/image.c:1930-1931`); see `ImageReader.FileRoundTrip` and, for an
  instance, `ImageFile.EmptyCodeIsLost`.
- Finishing an image twice misplaces every section; see `ImageFile.FinishIsExactOnce`.
- A field name added twice to a class uses up a slot that nothing can reach (`src/object.c:287-288`); see
  `ClassLookup.LostSlotIsUnreachable`.
- The first character of a path always belongs to its first component, so `//a` and `/a` are different
  (`src/pkgnode.c:141-143`); see `PathTree.DoublingChangesExactlyTheFirst`.
- A second join of a task ends in a failed assertion (`libtask/task.c:291`); see `TaskSafety.FailsExactly` and,
  for an instance, `TaskJoinRun.SecondJoinFails`.
- With several processors a single join can fail as well. Between publishing itself (`libtask/task.c:280`) and
  yielding (`libtask/task.c:282`) a joiner can be woken by its target. It then trips the assertion at
  `libtask/task.c:104`, or the one at `libtask/task.c:283` if there is nothing to switch to, and a processor that
  takes it from a queue meanwhile loads a context that is still in use. `TaskRaceRun.OneJoinCanFail` is such a run,
  `TaskSafety.FailsExactly` says which steps fail, `TaskRaces.SafeExactlyWithoutRace` that runs are safe exactly
  without such a wake-up, and `TaskRaces.LoneProcessorNeverFails` that one processor never has one.

## Model

| member | source | states |
|---|---|---|
| `LockedDeque.Deque.constructor` | libtask/locked_linked_deque.c:29-40 | A new deque is a sentinel and holds nothing |
| `LockedDeque.Deque.PopHead` | libtask/locked_linked_deque.c:48-63 | Takes the oldest item and unlinks its cell; an empty deque gives null and stays as it was |
| `LockedDeque.Deque.PushTail` | libtask/locked_linked_deque.c:69-77 | Appends one item behind all others and moves no other cell |
| `Balancer.Schedulers.constructor` | libtask/task_scheduler_locked.c:39-50 | One empty deque per processor |
| `Balancer.Schedulers.Push` | libtask/task_scheduler_locked.c:66-81 | The item goes to the end of exactly one queue; every deque and cell stays linked as its queue says |
| `Balancer.Schedulers.Pop` | libtask/task_scheduler_locked.c:83-88 | The head of exactly one queue leaves, and its cell is free to be queued again |
| `Balancer.Schedulers.UnqueuedCellIsFree` | libtask/task_scheduler_locked.c:66-81 | A cell whose task is in no queue is linked nowhere, so pushing it again cannot corrupt a deque |
| `Balancer.Schedulers.StealSome` | libtask/task_scheduler_locked.c:105-116 | The inner loop moves half of the surplus over the thief's starting count, as one block, to the thief's end |
| `Balancer.Schedulers.LoadBalance` | libtask/task_scheduler_locked.c:90-118 | The pointer-level balancer leaves the queues that the specification of one round says, which BalanceOrder pins down by positions, touches no other scheduler's counter and counts every stolen task |
| `StealModel.VictimWraps` | libtask/task_scheduler_locked.c:101-102 | Counting up from the own number modulo the number of schedulers is going round once |
| `StealModel.VictimIs` | libtask/task_scheduler_locked.c:101-102 | At step k the thief visits scheduler (me + k) % n |
| `StealModel.VisitedOnce` | libtask/task_scheduler_locked.c:93-104 | Every other scheduler is visited at exactly one step and the thief never visits itself, so the assertion there holds |
| `StealModel.VictimShape` | libtask/task_scheduler_locked.c:105-113 | A scheduler loses a prefix of what it held at the start, when its turn comes, and nothing else |
| `StealModel.ThiefShape` | libtask/task_scheduler_locked.c:113 | The thief holds its old queue followed by the stolen prefixes in visiting order |
| `StealModel.RoundConserves` | libtask/task_scheduler_locked.c:90-118 | No task is lost, duplicated or invented over all queues |
| `StealModel.VictimKeeps` | libtask/task_scheduler_locked.c:105 | A richer victim ends half way between its count and the thief's, rounded up |
| `StealModel.BalanceTheorem` | libtask/task_scheduler_locked.c:90-118 | One balancing call as a whole: conservation, shape of the thief's queue and of every victim's |
| `StealModel.BalanceOrder` | libtask/task_scheduler_locked.c:90-118 | The thief's queue in full, by positions: first what it held, then, for k = 1, 2, ... in this order, the front of the queue of scheduler (me + k) % n, half of what that held above the thief; each victim keeps exactly the rest |
| `StealModel.BalanceFloor` | libtask/task_scheduler_locked.c:99-106 | No victim falls below the thief's starting count and a poorer one is left alone |
| `StealModel.AloneNothingMoves` | libtask/task_scheduler_locked.c:90-101 | A lone scheduler has nobody to steal from |
| `TaskSafety.StepTheorem` | libtask/task.c:92-133 | Every step that neither trips an assertion nor runs a task twice keeps the invariant, on any number of processors; the join window between publication and yield is part of it |
| `TaskSafety.FailsExactly` | libtask/task.c:92-110 | On any number of processors a step trips an assertion if and only if it is a join of a task whose join is outstanding or collected, or the yield of a joiner that is no longer WAITING; and it loads a context still in use exactly when balancing puts such a joiner at the head of the queue |
| `TaskSafety.OvertakenYieldFails` | libtask/task.c:103-104 | A joiner that is READY before it has left its processor is turned away by the switch, or by the assertion behind its yield when there is nothing to switch to |
| `TaskSafety.SwitchToRunning` | libtask/task.c:109-111 | No assertion notices a switch to a task that another processor still runs |
| `TaskSafety.JoinCallFailsExactly` | libtask/task.c:274-292 | The error branch of the join is taken exactly then |
| `TaskSafety.RunTheorem` | libtask/task.c:52-294 | The invariant holds in every state of every run, for any number of processors and tasks, states inside the join window included |
| `TaskRaces.SafeExactlyWithoutRace` | libtask/task.c:279-283 | For every run on any number of processors: all allowed steps succeed in its last state if and only if no wake-up of the run took a joiner that was published but had not yielded yet |
| `TaskRaces.OneJoinPerTaskNeverFails` | libtask/task.c:74-133 | If each task is joined at most once and no wake-up fell into the window of its joiner, no step of the run can trip an assertion or run a task twice |
| `TaskRaces.LoneProcessorNeverFails` | libtask/task.c:52-294 | On one processor, if each task is joined at most once, no step of any run can fail |
| `TaskRaces.LoneNeverRaces` | libtask/task.c:70-79 | On one processor no wake-up can fall into the window of its joiner |
| `TaskRaces.OvertakenOnlyByRace` | libtask/task.c:70-79 | Only a wake-up in the window makes a joiner READY while it is still current |
| `TaskRaces.RaceOvertakes` | libtask/task.c:70-79 | Such a wake-up succeeds and leaves the joiner READY, queued, and current on the processor it had not left |
| `TaskRaces.OvertakenStays` | libtask/task.c:280-283 | No successful step of any task gets an overtaken joiner out of the window |
| `TaskRaceRun.OneJoinCanFail` | libtask/task.c:279-283 | A run on two processors with one join per task after which the joiner's yield trips an assertion and its waker's switch loads a context still in use |
| `TaskRaces.SpinEnds` | libtask/task.c:70-72 | A finisher that spins for its joiner waits for a task that runs on another processor and whose next step publishes it |
| `TaskRaces.StepOrSpin` | libtask/task.c:52-294 | On any number of processors the task that runs on a processor has an allowed step, unless it spins for its joiner |
| `TaskRaces.LoneNeverSpins` | libtask/task.c:70-72 | On one processor a finisher always finds its joiner published |
| `TaskRaces.LoneProcessorNeverHangs` | libtask/task.c:52-294 | On one processor every run can go on with a step that succeeds |
| `TaskJoinRun.SecondJoinFails` | libtask/task.c:289-291 | A run on one processor in which a second join of a task trips the assertion |
| `TaskSafety.OnePlace` | libtask/task.c:92-112 | In every reachable state a task is current on one processor, linked once in one queue, the join_task of exactly one unfinished task, or DONE and nowhere; only in the join window is it current as well as published or queued |
| `TaskSafety.NoLostWakeup` | libtask/task.c:61-79 | The target of a WAITING joiner still has its exchange ahead and will find the joiner, or is waking that very joiner |
| `TaskSafety.ResumesWithResult` | libtask/task.c:282-284 | A joiner goes on only after its target's result is stored, and holds exactly that value |
| `TaskSafety.JoinsDeliverTheReturnedValue` | libtask/task.c:265-294 | Every completed join, whichever exchange came first, delivered what the target returned |
| `TaskSafety.ReturnsOnce` | libtask/task.c:52-60 | A recorded return value never changes and the task never takes the step that returns a value again |
| `TaskLaws.ReturnStores` | libtask/task.c:56-60 | The value a task returns is stored whatever the state of its join |
| `TaskLaws.ReturnedValueStays` | libtask/task.c:52-60 | On every run, once task t has returned v, its result is v in every later state and every join of t that was delivered by then got v |
| `TaskLaws.JoinCallLaw` | libtask/task.c:265-292 | The exchange of an allowed join leaves WAIT_TO_JOIN behind; the caller is about to publish itself exactly when it found JOINABLE, and otherwise the join is complete with the value that the target returned; nothing else changes |
| `TaskLaws.SwitchToLaw` | libtask/task.c:92-112 | A switch puts the old task, if it is to run again and is not the idle task, READY at the end of the queue, makes the new one current and RUNNING and changes no third task |
| `TaskLaws.YieldLaw` | libtask/task.c:246-263 | A yield on any number of processors: after balancing the head of the own queue runs and the old task goes to the end if it goes on; on an empty queue a RUNNING task goes on and any other makes way for the idle task; no third task changes |
| `TaskLaws.SwitchLaw` | libtask/task.c:85-138 | The same for every step that switches: yield, idle loop, the yield of a joiner, which stays WAITING, and the end of a task, which is DONE |
| `TaskLaws.WakeLaw` | libtask/task.c:67-79 | A wake-up makes exactly the published joiner READY, with the finisher's result in hand, at the end of this processor's queue; nobody else changes |
| `TaskSafety.LeftForGood` | libtask/task.c:85-88 | A task that has left its processor for good is DONE from then on and is never current or queued again |
| `TaskSafety.NewIsUnqueued` | libtask/task.c:221-238 | A task just created is in no queue and current nowhere |
| `TaskSafety.IdleLoopIsYield` | libtask/task.c:118-138 | A turn of the idle loop does what a yield of the idle task does; its assertions hold |
| `TaskSafety.InitInv` | libtask/task.c:180-207 | The start of the runtime satisfies the invariant |
| `TaskFairness.MovesUp` | libtask/task.c:246-263 | On one processor a task at queue position k has moved up exactly j places after j switches, for j up to k |
| `TaskFairness.BoundedWaiting` | libtask/task.c:246-263 | On one processor a READY task at position k becomes current at exactly the (k+1)-st switch, whatever mix of steps occurs |
| `TaskFairness.LoneDispatch` | libtask/task.c:92-112 | A yield on a lone processor runs the head of the queue, moves the others up and puts the old task at the end if it can go on and is not the idle task |
| `TaskRuntime.Runtime.constructor` | libtask/task.c:141-207 | Every processor runs its own idle task, RUNNING and joinable, on an empty queue; that is the model's initial state and satisfies the invariant |
| `TaskRuntime.Runtime.Schedule` | libtask/task_scheduler_locked.c:66-81 | A task's own cell, made once, goes to the end of the deque |
| `TaskRuntime.Runtime.TaskSwitchTo` | libtask/task.c:92-112 | The linked task objects change as the model's switch says |
| `TaskRuntime.Runtime.YieldCall` | libtask/task.c:246-263 | A yield refines the model's step and keeps the invariant; what runs next, what is queued and that no third task changes is spelled out |
| `TaskRuntime.Runtime.IdleTurn` | libtask/task.c:118-138 | A turn of the idle loop refines the model's step; the same is spelled out |
| `TaskRuntime.Runtime.TaskCreate` | libtask/task.c:221-238 | Creating a task refines the model's step: one more task, at the end of this processor's queue |
| `TaskRuntime.Runtime.TaskJoin` | libtask/task.c:265-288 | The join up to its exchange refines the model's step; it leaves WAIT_TO_JOIN behind, suspends exactly when it found JOINABLE, and otherwise returns the target's result, which is what the target returned |
| `TaskRuntime.Runtime.PublishJoiner` | libtask/task.c:277-280 | The caller is WAITING and is the target's join_task; this refines the model's step |
| `TaskRuntime.Runtime.YieldJoiner` | libtask/task.c:281-283 | The yield of a joiner that is still WAITING refines the model's step; what runs next is spelled out |
| `TaskRuntime.Runtime.ResumeJoiner` | libtask/task.c:283-284 | The resumed joiner is RUNNING and returns its result, which is what the target returned |
| `TaskRuntime.Runtime.StoreResult` | libtask/task.c:56-60 | The value returned is the result of the task object from now on, whether or not it is being joined; this refines the model's step |
| `TaskRuntime.Runtime.AnnounceEnd` | libtask/task.c:61-66 | The finisher leaves WAIT_FOR_JOINER behind and goes on to wake a joiner exactly when it found WAIT_TO_JOIN; its assertions hold |
| `TaskRuntime.Runtime.WakeJoiner` | libtask/task.c:67-79 | The joiner is READY, has the finisher's result and stands at the end of this processor's queue, and join_task is cleared; this refines the model's step |
| `TaskRuntime.Runtime.Leave` | libtask/task.c:85-88 | The finished task is DONE and leaves its processor for good; what runs next is spelled out |
| `IntrusiveLists.HlistAdd` | include/list.h:195-204 | The conflict chain gains the node at its front and stays well linked in both directions |
| `IntrusiveLists.HlistDel` | include/list.h:182-193 | The chain loses exactly the node at position k, found through pprev alone, and the node is unhashed |
| `IntrusiveLists.ListAddTail` | include/list.h:54-77 | The circular list gains the entry at its end |
| `IntrusiveLists.ListDel` | include/list.h:85-98 | The circular list loses exactly that entry, which is left linked to itself |
| `Buckets.OwnerIsBucket` | src/hashtable.c:160-171 | A hashed node hangs on one bucket only |
| `Buckets.Hang` | include/list.h:195-204 | Hanging a node on one bucket leaves every other chain as it was |
| `Buckets.Unhang` | include/list.h:182-193 | Taking a node off its bucket leaves every other chain as it was |
| `HashTable.Table.constructor` | src/hashtable.c:105-118 | An empty table at the first prime |
| `HashTable.Table.FindHashed` | src/hashtable.c:160-172 | Searching one bucket finds what a linear search over the insertion order would; with a foreign hash value it finds a stored node of that key or nothing |
| `HashTable.Table.Find` | include/hashtable.h:90-91 | A lookup is a linear search over the insertion order |
| `HashTable.Table.Insert` | src/hashtable.c:233-251 | 0 exactly for an unhashed node whose key no stored node has, which then comes last, and the bucket count is the same below 65% load and otherwise the first prime with room, or the last; -1 changes nothing but the hash of an unhashed node |
| `HashTable.Table.Remove` | src/hashtable.c:174-188 | 0 exactly for a stored node, which alone leaves the order; -1 for any other node, hashed elsewhere or not, changing nothing |
| `HashTable.Table.GetProperPrimeIndex` | src/hashtable.c:69-84 | The first prime from the current one on with room under the load factor, or the last |
| `HashTable.Table.Expand` | src/hashtable.c:190-214 | Rehashing keeps the stored nodes, the order, the count and so every lookup, and puts each node once in its new bucket |
| `HashTable.Table.MaybeExpand` | src/hashtable.c:216-231 | Below 65% load nothing changes; otherwise the bucket count becomes the first prime with which the load is below 65%, or the last prime |
| `HashTable.Table.Fini` | src/hashtable.c:120-136 | Visits every stored node once, oldest first, each detached from both lists before its visit |
| `HashTable.Table.Visit` | src/hashtable.c:253-264 | Visits exactly the insertion order |
| `HashTable.EmptyBucket` | src/hashtable.c:202-209 | The inner rehash loop empties one old bucket; no node is lost on the way |
| `HashTable.MoveAll` | src/hashtable.c:201-209 | After the rehash loops every node hangs where its hash modulo the new size sends it, and the chains hold as many nodes as before |
| `HashTable.MoveKeepsMoving` | src/hashtable.c:203-208 | While nodes move each is in its old bucket or its new one |
| `HashTable.SearchFinds` | src/hashtable.c:160-172 | Unequal stored keys make a match unique |
| `HashTable.SearchAfterInsert` | src/hashtable.c:233-251 | An insertion changes no later lookup but that of its own key |
| `HashTable.SearchAfterRemove` | src/hashtable.c:174-188 | After a removal only the removed key is gone; every other lookup is as before |
| `AtomTables.AtomTable.constructor` | src/atomtable.c:26-36 | All tables start empty |
| `AtomTables.AtomTable.Append` | src/atomtable.c:82-94 | The item gets the next index of its kind; the hash table keeps one entry for each unique item and nothing else |
| `AtomTables.AtomTable.Index` | src/atomtable.c:96-104 | The position of the item in its table, or -1 |
| `AtomTables.AgreeAppend` | src/atomtable.c:82-94 | Table and hash entries stay in agreement when an item is appended |
| `ImageTables.NewTables` | src/image.c:1423-1429 | A new image has empty, well-formed tables |
| `ImageTables.StringItemSet` | src/image.c:363-373 | Interning a string in place does what the specification says |
| `ImageTables.TypeItemGet` | src/image.c:437-493 | The lookup in place, with all its early exits, gives the index of the specification |
| `ImageTables.TypeItemSet` | src/image.c:495-545 | Interning a type in place does what the specification says and leaves the other tables alone; the assertion on appending never fires |
| `ImageTables.TypeListItemGet` | src/image.c:378-396 | The list lookup loop in place |
| `ImageTables.TypeListItemSet` | src/image.c:398-415 | The list interning loop in place |
| `ImageTables.ProtoItemSet` | src/image.c:424-435 | Interning a function type in place |
| `ImageTables.TypeItemToTypeDesc` | src/image.c:39-83 | The recursive decoder computes the meaning of a type index |
| `ImageTables.TypeListItemToVector` | src/image.c:85-100 | The decoder's loop over a list |
| `ImageTables.ProtoItemToTypeDesc` | src/image.c:102-121 | The decoder of function types |
| `ImageDecode.DecodeStable` | src/image.c:39-121 | Later appends never change what an existing index decodes to |
| `ImageDecode.DecodeInjective` | src/image.c:39-121 | Two indexes that decode to equal descriptors are the same index |
| `ImageInterning.SetTypeOk` | src/image.c:495-545 | Tables only grow and stay well formed: every array and varg item refers to a smaller index, function types only to lists of smaller ones |
| `ImageInterning.NewItemOk` | src/image.c:498-541 | A type item about to be appended is never there already, nested function types included |
| `ImageInterning.SetListOk` | src/image.c:398-415 | A list about to be appended is never there already |
| `ImageInterning.SetProtoOk` | src/image.c:424-435 | A new function type is not yet referred to by any type |
| `ImageOrder.ItemMeaning` | include/image.h:64-95 | What the fields of every type item stand for, kind by kind, in numbers |
| `ImageOrder.KlassStored` | src/image.c:505-519 | A new class type stores its path before its name, neither twice, and refers to both |
| `ImageOrder.RetsBeforeArgs` | src/image.c:424-435 | The types that a function type returns are stored before those that it takes |
| `ImageOrder.ElementsInOrder` | src/image.c:404-412 | The elements of a list are stored from the first on |
| `ImageOrder.StoredFunctionType` | src/image.c:424-545 | A whole small image: the exact tables after interning one function type |
| `ImageRoundTrip.DecodesExactlyUnlessMisread` | src/image.c:39-83 | For every descriptor without maps and sets, encoding then decoding gives it back if and only if no function type inside it is taken for another one |
| `ImageRoundTrip.ProtoDecodes` | src/image.c:424-435 | The same for a function type at the root, where only its own lists matter |
| `ImageRoundTrip.TypeRoundTrip` | src/image.c:495-545 | Base, class, array and varg descriptors always come back |
| `ImageRoundTrip.ProtoRoundTrip` | src/image.c:424-435 | A function type at the root over such descriptors always comes back |
| `ImageRoundTrip.SameIndexExactlyWhenEqual` | src/image.c:437-545 | Two descriptors, neither of them misread, get the same index exactly when they are equal, whatever is interned in between |
| `ImageRoundTrip.LookupFindsExactly` | src/image.c:437-493 | For every descriptor without maps and sets, an index decodes to it exactly when the lookup gives that index and misreads nothing |
| `ImageRoundTrip.NestedFunctionTypeIsMisread` | src/image.c:378-396 | A concrete pair of nested function types that get one index, because -1 means both no list and unknown list |
| `ImageLayout.WordRoundTrip` | include/image.h:51-57 | A 32-bit word survives its bytes, which are its digits to the base 256, lowest first |
| `ImageLayout.HeaderRoundTrip` | include/image.h:176-186 | The header survives its 96 bytes |
| `ImageLayout.HeaderLayout` | include/image.h:176-186 | Where each field of the header lies |
| `ImageLayout.MapRoundTrip` | include/image.h:51-57 | A directory entry survives its 12 bytes, in which kind, offset and size lie at bytes 0, 4 and 8 |
| `ImageLayout.SectionHasLength` | src/image.c:590-600 | The length functions agree with what the write functions write |
| `ImageLayout.LayoutIsExact` | src/image.c:1676-1706 | Every offset is the position of that section in the file, and file_size is the number of bytes |
| `ImageLayout.DirectoryInOrder` | src/image.c:1676-1706 | The directory of a finished image: ascending kinds, an entry exactly for each kind with items, the first section right behind the directory, each next one where the one before it ends, and file_size where the last ends |
| `ImageFile.Image.Finish` | src/image.c:1676-1706 | The directory lists the tables that are not empty, in order, with their offsets and sizes; sizes go to the header |
| `ImageFile.Image.Enter` | src/image.c:1688-1703 | The running offset trails by one section |
| `ImageFile.Image.Write` | src/image.c:1708-1761 | The file is header, directory and sections in order |
| `ImageFile.Read` | src/image.c:1772-2016 | The loader with its loops computes the specification of reading |
| `ImageFile.LoadItems` | src/image.c:1847-1860 | The item loop of one section |
| `ImageFile.FinishIsExactOnce` | src/image.c:1680-1706 | Every section lies behind its offset by the room of the entries that were there before, so offsets and file size are right exactly when the image was not finished before |
| `ImageFile.EmptyCodeIsLost` | src/image.c:1926-1936 | A whole image with one empty code item is written as it should be and no longer loads |
| `ImageReader.ReadItemBack` | src/image.c:1926-1936 | A written item reads back exactly when its array is not empty |
| `ImageReader.ReadItemsBack` | src/image.c:1847-1860 | A written section reads back, behind what was read before, exactly when it holds no empty array and, in a kind that is interned again, no item twice |
| `ImageReader.ReadItemsAreThere` | src/image.c:1821-1834 | Whatever a section reads as lies there in the file: as many items as announced, none of them empty and, in a kind that is interned again, all new and different |
| `ImageReader.LoadsOnlyAdd` | src/image.c:1815-2010 | A load only adds to the tables, also when the directory names a kind twice, and adds nothing to the excluded ones |
| `ImageReader.UnknownKindFails` | src/image.c:2008-2010 | A directory with an unknown kind makes the reading fail |
| `ImageReader.RefusedExactly` | src/image.c:1763-1807 | A file is refused as not being an image exactly when it is shorter than a header, lacks the magic bytes KLC, or ends before the directory that its header announces does |
| `ImageReader.FileRoundTrip` | src/image.c:1772-2016 | Writing then reading gives back header, directory and every kept table in order, or fails exactly when a section to be loaded holds an empty array or, in a kind that is interned again, an item twice |
| `ImageReader.MaskedLoadAgrees` | src/image.c:1772-1774 | A load with an unload mask equals the full load on the tables it keeps and loads no other |
| `ImageWhole.PackRoundTrip` | include/image.h:59-95 | The struct of a string, type, list or function type survives its bytes |
| `ImageWhole.PackLayout` | include/image.h:59-95 | Where each field of those structs lies, and the zero behind the characters of a string |
| `ImageWhole.TypesSurviveTheFile` | src/image.c:1772-2016 | After writing and reading a file the type tables are the same, so every index means the same |
| `ImageWhole.DescriptorSurvivesTheFile` | src/image.c:39-545 | From a descriptor to an index, through a file, and back to that descriptor |
| `TypeText.RoundTripExactlyWithoutMaps` | src/typedesc.c:526-615 | Text of a normal descriptor followed by anything reads back as the descriptor and exactly that rest if and only if it contains no map |
| `TypeText.ListRoundTripExactlyWithoutMaps` | src/typedesc.c:620-657 | The same for lists |
| `TypeText.MapTextIsNotReadable` | src/typedesc.c:554-559 | The text of a map from int to int makes the reader fail |
| `TypeText.PrintIsPrefixFree` | src/typedesc.c:378-508 | The text is a prefix code, maps included |
| `TypeText.ReadPrinted` | src/typedesc.c:526-615 | The reader inverts the printer, by mutual induction through lists and function types |
| `TypeText.ReadIsSound` | src/typedesc.c:526-615 | Whatever the reader accepts is a normal descriptor, and without maps exactly the text consumed |
| `TypeText.ReadUntilIsSound` | src/typedesc.c:571-585 | The same for lists up to a closing character |
| `TypeText.TextNeedsNormalForm` | src/typedesc.c:423-444 | Nested arrays spell like one array, an absent path like an empty one |
| `TypeSpelling.ReadsExactlyWhatIsSpelled` | src/typedesc.c:526-615 | For every text and every descriptor, maps included: the reader takes the descriptor from the front of the text if and only if it is normal and the text starts with its spelling, which is the text of the constructors without the colon of maps |
| `TypeSpelling.SpelledAsPrinted` | src/typedesc.c:446-459 | That spelling is the text of the constructors exactly when there is no map |
| `TypeSpelling.MapTexts` | src/typedesc.c:446-459 | The two texts of a map |
| `TypeSpelling.TestText` | test/test_typedesc.c:103-107 | The longest text of the test reads as the descriptor that the test expects |
| `DescPool.Pool.constructor` | src/typedesc.c:109-133 | The table starts with the base descriptors, each counted twice |
| `DescPool.Pool.GetKlass` | src/typedesc.c:378-396 | The node under the text stands for the class; nodes already there keep their meaning; either nothing changes or exactly this node is new, with one reference |
| `DescPool.Pool.GetArray` | src/typedesc.c:423-444 | The same for arrays, and a new node takes one reference on the base |
| `DescPool.Pool.GetMap` | src/typedesc.c:446-465 | The same for maps, with one reference each on key and value |
| `DescPool.Pool.GetSet` | src/typedesc.c:467-484 | The same for sets |
| `DescPool.Pool.GetVarg` | src/typedesc.c:486-508 | The same for varg |
| `DescPool.Pool.GetProto` | src/typedesc.c:398-421 | The same for function types: at most one node is new, and the caller's references go into it or are given up |
| `DescPool.Pool.NewNode` | src/typedesc.c:353-363 | A new node takes over the caller's references to its components |
| `DescPool.Pool.Canonical` | src/typedesc.c:353-376 | Two nodes are one exactly when they stand for equal descriptors, after any sequence of operations |
| `DescPool.Pool.IncRef` | include/typedesc.h:102-106 | One more caller reference |
| `DescPool.Pool.DecRef` | include/typedesc.h:108-117 | Counts never go negative; a count of zero frees the node and gives up its references, only ever to nodes made before |
| `DescPool.Pool.FreeNode` | src/typedesc.c:338-346 | Never a base descriptor, never one still in the table, never twice |
| `DescPool.Pool.ReadDesc` | src/typedesc.c:526-615 | The parser interns what it reads and fails exactly where the text reader does |
| `DescPool.Pool.ReadListAt` | src/typedesc.c:571-585 | The parser's list loop, one reference per element |
| `DescPool.Pool.Fini` | src/typedesc.c:154-158 | Teardown in insertion order frees every other descriptor once and leaves each base at 1, exactly when no caller still holds a reference |
| `DescPool.Pool.CleanExactly` | src/typedesc.c:135-152 | The final check of base counts passes and nothing leaks exactly then |
| `ClassOrder.LinearizeKeepsHierarchy` | src/object.c:213-238 | One lro_build keeps the hierarchy: the order starts with Any, ends with the class, has no duplicates, is the union of the bases' orders with those two, extends the first base's order, and puts every class after its ancestors |
| `ClassOrder.AddLineKeeps` | src/object.c:223-231 | Merging one base keeps all of that |
| `ClassOrder.FirstBaseIsPrefix` | src/object.c:213-238 | The first base's order is kept as a prefix |
| `ClassOrder.FirstMetFirst` | src/object.c:223-231 | Classes stand in the order in which they are first met, going through Any and then through the orders of the bases one after the other: whatever is met before y stands before y |
| `ClassOrder.TraitOrder` | test/test_trait.c:66-94 | The order of E extends A with D with C with B, as the test expects it |
| `ClassLayout.SlotsAreDistinct` | src/object.c:213-238 | Different fields of different classes get different slots, all in range |
| `ClassLayout.SlotsAreUsed` | src/object.c:213-238 | Every slot up to totalvars belongs to some class |
| `ClassObjects.LroFind` | src/object.c:191-199 | True exactly for classes in the order |
| `ClassObjects.LroBuild` | src/object.c:213-238 | The loops build the specified order, in which the classes of the bases stand in the order in which they are first met, with each node's offset the number of fields before it |
| `ClassObjects.MetInOrder` | src/object.c:223-231 | The same of the linked class: the class of node i of base l stands before every class that is not met before it |
| `ClassObjects.LayoutSteps` | src/object.c:216-237 | The first fields lie at 0, those of each next class where those of the class before it end, and totalvars is where the last end |
| `ClassObjects.KlassNew` | src/object.c:240-274 | A new class joins the hierarchy: order, layout and members of all classes stay right, and its bases are merged in order |
| `ClassObjects.NewOrder` | src/object.c:213-238 | The new order is the union of the bases' orders with Any and the class, and extends the first base's |
| `ClassObjects.RootAlone` | src/object.c:136-139 | The root alone is a hierarchy in order |
| `ClassObjects.AddField` | src/object.c:283-293 | The new field comes after all others and keeps all classes right; every slot keeps a name exactly if the name was new |
| `ClassObjects.AddMethod` | src/object.c:295-308 | A name that is taken keeps its member |
| `ClassObjects.AddProto` | src/object.c:310-318 | A name that is taken keeps its member |
| `ClassLookup.Instance.constructor` | src/object.c:147-153 | An object starts with totalvars null slots |
| `ClassLookup.Instance.GetM` | src/object.c:336-368 | For a class at position p of the order: nothing exactly when no class at positions 1 to p (to p - 1 for "super.") has the member, otherwise the class, offset and member at the greatest such position; nothing for a class that is not above the root |
| `ClassLookup.LookupFinds` | src/object.c:336-368 | The same of the specification of lookups, for every order, class and name |
| `ClassLookup.Instance.GetField` | src/object.c:370-387 | The value in the slot at the class's offset plus the field's own, in range; fails exactly when no field is found |
| `ClassLookup.Instance.SetField` | src/object.c:389-409 | Changes exactly that slot |
| `ClassLookup.SameSlotExactlyWhenSameField` | src/object.c:370-409 | Two accesses use one slot exactly when they find the same field of the same class, so shadowed fields do not interfere |
| `ClassLookup.EverySlotIsAField` | src/object.c:213-293 | When no field name was added twice every slot is reached by some field |
| `ClassLookup.LostSlotIsUnreachable` | src/object.c:283-293 | A slot used up by a repeated field name is reached by no lookup |
| `ClassLookup.FirstBaseKeepsSlots` | src/object.c:213-238 | Every lookup from a class of the first base, and so the slot of every field it finds, is the same in an object of the derived class as in one of the base |
| `ClassLookup.OwnMemberFound` | src/object.c:354-365 | A class's own member is found first |
| `ClassLookup.SuperLookupStep` | src/object.c:349-352 | One lookup of "super.name" finds the next definition strictly below |
| `ClassLookup.SuperChainVisitsAll` | src/object.c:349-365 | Repeating it strictly descends, visits every class below that has the member, and ends |
| `PathTree.DoublingChangesExactlyTheFirst` | src/pkgnode.c:140-143 | A doubled slash changes the components exactly when it is the first character and a name follows at once |
| `PathTree.TrailingSlash` | src/pkgnode.c:144-150 | A trailing slash never matters |
| `PathTree.WhatIsInTheWay` | src/pkgnode.c:129-176 | Only a leaf strictly between the root and the last component is in the way |
| `PathForm.SamePathExactly` | src/pkgnode.c:139-150 | Two paths have equal components exactly when they agree after collapsing runs of slashes behind the first character and dropping trailing ones |
| `PathForm.SplitIsComponents` | src/pkgnode.c:140-153 | Components are not empty, and a slash can only be the very first character |
| `PathForm.SplitJoined` | src/pkgnode.c:139-153 | Splitting inverts joining components with single slashes |
| `PathForm.JoinedSplit` | src/pkgnode.c:139-153 | Joining the components of a path gives its normal form |
| `PathTree.InsertAddsPrefixes` | src/pkgnode.c:129-176 | Adding a path adds exactly its prefixes, as inner nodes but for the last, and keeps the tree closed |
| `PathTree.NodesAreAddedPrefixes` | src/pkgnode.c:129-176 | After any run of additions the nodes are exactly the prefixes of the added paths |
| `PkgTree.PkgState.FindNode` | src/pkgnode.c:109-119 | The child of that name, or null |
| `PkgTree.PkgState.AddNode` | src/pkgnode.c:121-127 | One more child, in the hash table and once in its parent's vector |
| `PkgTree.PkgState.Add` | src/pkgnode.c:129-176 | Fails exactly when a proper prefix of the path is a leaf, null exactly when the node exists and nothing changes, else the new leaf with its data; the tree becomes the specified one, and the addition is recorded unless it failed |
| `PkgTree.PkgState.Find` | src/pkgnode.c:178-203 | The node of the path's components; there is one exactly when they are a prefix of a path added before |
| `PkgTree.PkgState.ParentsSpellThePath` | src/pkgnode.c:50-56 | From parent to parent a node's names spell its path and end at the root |
| `PkgTree.NextComponent` | src/pkgnode.c:139-146 | The scan loops find the end of a component and of the slashes behind it |
| `LocalSlots.STable.constructor` | src/symbol.c:429-436 | Slots start at 1 |
| `LocalSlots.STable.AddVar` | src/symbol.c:466-477 | A new name takes the next index; a known one changes nothing |
| `LocalSlots.Parser.EnterFunction` | src/parser.c:185-196 | A function starts without variables, its table in front of the open scopes |
| `LocalSlots.Parser.EnterBlock` | src/parser.c:185-196 | A block opens with an empty table and keeps all variables |
| `LocalSlots.Parser.Exit` | src/parser.c:198-219 | The scope below is as it was left |
| `LocalSlots.Parser.FunctionAbove` | src/parser.c:551-569 | With a function's scope at depth d and only blocks further in, that scope exactly when the name is free at depths 1 to d; without one, nothing |
| `LocalSlots.Parser.DeclareInFunction` | src/parser.c:592-608 | Accepted exactly when the name is new; then last in locvec with the next slot; a rejection changes nothing |
| `LocalSlots.Parser.DeclareInBlock` | src/parser.c:609-636 | Accepted exactly when there is a function's scope at some depth d with only blocks further in and the name is free at depths 0 to d; then the function's next slot, not the block's; a rejection takes no slot |
| `LocalSlots.AddSlot` | src/parser.c:619-634 | Slots stay dense and names distinct |
| `LocalSlots.VisibleSlotsAreDistinct` | src/parser.c:551-643 | Of the visible variables no two share a slot or a name |
| `HashFunc.HashUint64` | src/hashfunc.c:30-49 | Six shifts multiply by 0x9e37fffffffc0001 modulo 2^64, and the result is the high bits of that product |
| `HashFunc.HashUint32` | src/hashfunc.c:52-59 | The high bits of the product with 0x9e370001 modulo 2^32 |
| `HashFunc.NoCollisions` | src/hashfunc.c:25-59 | Both multiplications lose nothing before bits are dropped |

## Left out

- Context switching, atomics in assembly, thread creation, sleeping and shutdown of the task runtime: machine level.
- `task_detach` and detached tasks: nothing in the source sets that state.
- The tearing down of schedulers and processors (`fini_scheduler`, `task_fini_procs`): it frees empty structures.
- The hash functions of strings and image items: any function that respects equality of keys will do.
- Float and bool constants in images, whose hash is an address (`src/image.c:820-825`), and the queries that list an image's contents.
- Interning of constants: the same append and lookup as for strings.
- Maps and sets in images: the encoder asserts on them.
- `StringBuf`, which drops an append that fits exactly (`src/stringbuf.c:65`, `src/stringbuf.c:80`).
- Out-of-memory paths, overflow of C counters, reference counts of field values, logging and printing.
- Closures: `update_add_variable` treats their symbol as a function symbol.
- The merging of code blocks when a scope ends, and the scopes of modules and classes beyond the scope stack.
- The member tables of classes and the node table of packages are maps here, and the table of type descriptors is
  a linear search over sequences; the hash table behind all three is `HashTable`.
- The interpreter, the code generator, the lexer and parser proper, options and the command line.
- AtomTables.AtomTable.Append: leaves out an append of a kind that is kept unique without the `unique` flag, or with
  the flag of a kind that is not; no caller in the source does either.
- ImageFile.Read: finds repeated items by equal bytes; the source compares strings up to their zero and bool constants by address.
- ImageFile.LoadItems: the same.
- DescPool.Pool.GetKlass: requires a normal path and name; others share the text of another descriptor (`TypeText.TextNeedsNormalForm`).
- DescPool.Pool.GetArray: requires a dimension and a base that is neither array nor varg, for the same reason.
- DescPool.Pool.GetVarg: requires a base that is neither array nor varg, for the same reason; the null base that the source takes for Any is the node of Any here.
- ClassObjects.AddField: requires that no other class has this one in its order yet; a later field would shift slots already handed out.
- TaskRuntime.Runtime.TaskSwitchTo: requires that the switch does not fail; the failing ones end in an assertion or run a task twice, and TaskSafety.FailsExactly says when.
- TaskRuntime.Runtime.YieldCall: requires that balancing does not put an overtaken joiner at the head, where the source runs a task twice.
- TaskRuntime.Runtime.IdleTurn: the same.
- TaskRuntime.Runtime.YieldJoiner: the same, and that the joiner is still WAITING, where the source trips an assertion.
- TaskRuntime.Runtime.Leave: the same as for YieldCall.
- HashTable.Table.Fini: the visit function is not modelled beyond the order of visits; it may free the visited node but must not touch others.
- ClassLookup.Instance.SetField: does not model the reference counts of the old and the new value, which do not affect the slots.
