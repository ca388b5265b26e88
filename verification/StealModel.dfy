/** What one round of work stealing does to the queues (libtask/task_scheduler_locked.c:90-118),
    on values: `queues[i]` is the content of scheduler i's deque, oldest task first.
  */
module StealModel {

  /** How often a task is queued, over all deques. */
  ghost function Queued<T>(queues: seq<seq<T>>, t: T): nat {
    if queues == [] then 0 else multiset(queues[0])[t] + Queued(queues[1..], t)
  }

  /** Replacing one queue changes the count by exactly that queue's share. */
  lemma {:induction false} QueuedUpdate<T>(queues: seq<seq<T>>, i: nat, queue: seq<T>, t: T)
    requires i < |queues|
    ensures Queued(queues[i := queue], t) == Queued(queues, t) - multiset(queues[i])[t] + multiset(queue)[t]
  {
    var updated := queues[i := queue];
    if i == 0 {
      assert updated[1..] == queues[1..];
    } else {
      QueuedUpdate(queues[1..], i - 1, queue, t);
      assert updated[1..] == queues[1..][i - 1 := queue];
    }
  }

  lemma {:induction false} QueuedAt<T>(queues: seq<seq<T>>, i: nat, t: T)
    requires i < |queues| && t in queues[i]
    ensures Queued(queues, t) > 0
  {
    if i > 0 {
      QueuedAt(queues[1..], i - 1, t);
    }
  }

  /** C's division by two: truncation toward zero. */
  function Half(a: int): int {
    if a >= 0 then a / 2 else -(-a / 2)
  }

  /** How many nodes a thief that started with `count` takes from a victim that holds `held`. */
  function StealCount(held: nat, count: nat): (k: nat)
    ensures k <= held
  {
    var n := Half(held - count);
    if n > 0 then n else 0
  }

  /** The scheduler visited at the given step, going round from the thief. */
  function Victim(me: nat, step: nat, n: nat): (v: nat)
    requires me < n && step < n
    ensures v < n
  {
    if me + step < n then me + step else me + step - n
  }

  /** The index computed by the C loop, which counts on from the thief's own number. */
  lemma {:induction false} VictimWraps(i: nat, n: nat)
    requires 0 < n && i < 2 * n
    ensures i % n == if i < n then i else i - n
  {
    var q, r := i / n, i % n;
    assert i == q * n + r;
    assert q >= 2 ==> q * n >= 2 * n;
    assert q == 1 ==> q * n == n;
  }

  lemma {:induction false} VictimIs(me: nat, step: nat, n: nat)
    requires me < n && step < n
    ensures Victim(me, step, n) == (me + step) % n
  {
    VictimWraps(me + step, n);
  }

  /** The first k tasks of the victim's queue, moved to the end of the thief's. */
  function Moved<T>(queues: seq<seq<T>>, me: nat, victim: nat, k: nat): (after: seq<seq<T>>)
    requires me < |queues| && victim < |queues| && k <= |queues[victim]|
    ensures |after| == |queues|
  {
    queues[me := queues[me] + queues[victim][..k]][victim := queues[victim][k..]]
  }

  /** Moving k + 1 tasks at once is moving k and then one more. */
  lemma {:induction false} MovedOneMore<T>(queues: seq<seq<T>>, me: nat, victim: nat, k: nat)
    requires me < |queues| && victim < |queues| && me != victim && k < |queues[victim]|
    ensures Moved(Moved(queues, me, victim, k), me, victim, 1) == Moved(queues, me, victim, k + 1)
  {
    var before := Moved(queues, me, victim, k);
    assert before[me] + before[victim][..1] == queues[me] + queues[victim][..k + 1];
    assert before[victim][1..] == queues[victim][k + 1..];
  }

  lemma {:induction false} MovedNone<T>(queues: seq<seq<T>>, me: nat, victim: nat)
    requires me < |queues| && victim < |queues| && me != victim
    ensures Moved(queues, me, victim, 0) == queues
  {
    assert queues[me] + queues[victim][..0] == queues[me];
    assert queues[victim][0..] == queues[victim];
  }

  function StealFrom<T>(queues: seq<seq<T>>, me: nat, victim: nat, count: nat): (after: seq<seq<T>>)
    requires me < |queues| && victim < |queues|
    ensures |after| == |queues|
  {
    var k := StealCount(|queues[victim]|, count);
    Moved(queues, me, victim, k)
  }

  /** The queues after visiting the victims of steps 1..steps. */
  function StealRound<T>(queues: seq<seq<T>>, me: nat, count: nat, steps: nat): (after: seq<seq<T>>)
    requires me < |queues| && steps < |queues|
    ensures |after| == |queues|
  {
    if steps == 0 then queues
    else StealFrom(StealRound(queues, me, count, steps - 1), me, Victim(me, steps, |queues|), count)
  }

  function Balanced<T>(queues: seq<seq<T>>, me: nat): (after: seq<seq<T>>)
    requires me < |queues|
    ensures |after| == |queues|
  {
    StealRound(queues, me, |queues[me]|, |queues| - 1)
  }

  /** The step at which the thief reaches scheduler v. */
  function StepOf(me: nat, v: nat, n: nat): (step: int)
    requires me < n && v < n
  {
    if v > me then v - me else v - me + n
  }

  /** Each other scheduler is visited at exactly one step, and the thief never visits itself. */
  lemma {:induction false} VisitedOnce(me: nat, v: nat, step: nat, n: nat)
    requires me < n && v < n && v != me && 1 <= step < n
    ensures Victim(me, step, n) != me
    ensures 1 <= StepOf(me, v, n) < n
    ensures Victim(me, step, n) == v <==> step == StepOf(me, v, n)
  {}

  /** What the thief has taken after the given steps, in visiting order and read off the original queues. */
  ghost function Loot<T>(queues: seq<seq<T>>, me: nat, count: nat, steps: nat): seq<T>
    requires me < |queues| && steps < |queues|
  {
    if steps == 0 then []
    else
      var victim := queues[Victim(me, steps, |queues|)];
      Loot(queues, me, count, steps - 1) + victim[..StealCount(|victim|, count)]
  }

  /** A scheduler loses a prefix of what it held at the start when its turn comes, and nothing else. */
  lemma {:induction false} VictimShape<T>(queues: seq<seq<T>>, me: nat, count: nat, steps: nat, v: nat)
    requires me < |queues| && steps < |queues| && v < |queues| && v != me
    ensures StealRound(queues, me, count, steps)[v] ==
            if StepOf(me, v, |queues|) <= steps
            then queues[v][StealCount(|queues[v]|, count)..]
            else queues[v]
  {
    if steps > 0 {
      VictimShape(queues, me, count, steps - 1, v);
    }
  }

  /** The thief's queue is its old content followed by the stolen prefixes in visiting order. */
  lemma {:induction false} ThiefShape<T>(queues: seq<seq<T>>, me: nat, count: nat, steps: nat)
    requires me < |queues| && steps < |queues|
    ensures StealRound(queues, me, count, steps)[me] == queues[me] + Loot(queues, me, count, steps)
  {
    if steps > 0 {
      ThiefShape(queues, me, count, steps - 1);
      var w := Victim(me, steps, |queues|);
      VictimShape(queues, me, count, steps - 1, w);
      var k := StealCount(|queues[w]|, count);
      assert queues[me] + Loot(queues, me, count, steps - 1) + queues[w][..k]
          == queues[me] + Loot(queues, me, count, steps);
    }
  }

  lemma {:induction false} LootGrows<T>(queues: seq<seq<T>>, me: nat, count: nat, k: nat, steps: nat)
    requires me < |queues| && k <= steps < |queues|
    ensures Loot(queues, me, count, k) <= Loot(queues, me, count, steps)
  {
    if k < steps {
      LootGrows(queues, me, count, k, steps - 1);
    }
  }

  /** What the visit of scheduler v comes to: it gives up the front of its queue, half of what it held
      above the thief, and that stands in the thief's queue from `start` to `end`. */
  ghost predicate Visited<T>(queues: seq<seq<T>>, me: nat, v: nat, after: seq<seq<T>>, start: nat, end: nat)
    requires me < |queues| == |after| && v < |queues|
  {
    var held, count := |queues[v]|, |queues[me]|;
    var share := if held > count then (held - count) / 2 else 0;
    && start + share == end <= |after[me]|
    && after[me][start..end] == queues[v][..share]
    && after[v] == queues[v][share..]
  }

  lemma {:induction false} SliceBetween<T>(own: seq<T>, before: seq<T>, taken: seq<T>, all: seq<T>)
    requires before + taken <= all
    ensures (own + all)[|own| + |before|..|own| + |before| + |taken|] == taken
  {
    assert all == before + taken + all[|before + taken|..];
  }

  /** Where the loot of step k stands in the thief's queue. */
  lemma {:induction false} LootAt<T>(queues: seq<seq<T>>, me: nat, k: nat, taken: seq<T>)
    requires me < |queues| && 1 <= k < |queues|
    requires var victim := queues[Victim(me, k, |queues|)];
      taken == victim[..StealCount(|victim|, |queues[me]|)]
    ensures var count, after := |queues[me]|, Balanced(queues, me)[me];
      var start := count + |Loot(queues, me, count, k - 1)|;
      && count + |Loot(queues, me, count, k)| == start + |taken| <= |after|
      && after[start..start + |taken|] == taken
  {
    var count, steps := |queues[me]|, |queues| - 1;
    ThiefShape(queues, me, count, steps);
    LootGrows(queues, me, count, k, steps);
    assert Loot(queues, me, count, k) == Loot(queues, me, count, k - 1) + taken;
    hide Loot, StealRound;
    SliceBetween(queues[me], Loot(queues, me, count, k - 1), taken, Loot(queues, me, count, steps));
  }

  lemma {:induction false} VictimTaken<T>(queues: seq<seq<T>>, me: nat, k: nat)
    requires me < |queues| && 1 <= k < |queues|
    ensures var count := |queues[me]|;
      Visited(queues, me, Victim(me, k, |queues|), Balanced(queues, me),
        count + |Loot(queues, me, count, k - 1)|, count + |Loot(queues, me, count, k)|)
  {
    var n, count := |queues|, |queues[me]|;
    var v := Victim(me, k, n);
    LootAt(queues, me, k, queues[v][..StealCount(|queues[v]|, count)]);
    VisitedOnce(me, v, k, n);
    VictimShape(queues, me, count, n - 1, v);
    hide Loot, StealRound, StepOf, Victim;
  }

  lemma {:induction false} ThiefLength<T>(queues: seq<seq<T>>, me: nat)
    requires me < |queues|
    ensures var count, after := |queues[me]|, Balanced(queues, me)[me];
      && queues[me] <= after && |Loot(queues, me, count, 0)| == 0
      && |after| == count + |Loot(queues, me, count, |queues| - 1)|
  {
    ThiefShape(queues, me, |queues[me]|, |queues| - 1);
  }

  /** Where the loot of each step ends in the thief's queue. */
  ghost function Starts<T>(queues: seq<seq<T>>, me: nat): (starts: seq<nat>)
    requires me < |queues|
    ensures |starts| == |queues|
    ensures forall k :: 0 <= k < |queues| ==> starts[k] == |queues[me]| + |Loot(queues, me, |queues[me]|, k)|
  {
    seq(|queues|, k requires 0 <= k < |queues| => |queues[me]| + |Loot(queues, me, |queues[me]|, k)|)
  }

  /** The thief's queue in full, by positions: first what it held, then the fronts given up by the other
      schedulers, in the order me + 1, me + 2, ... round to me - 1. */
  lemma {:induction false} BalanceOrder<T>(queues: seq<seq<T>>, me: nat) returns (starts: seq<nat>)
    requires me < |queues|
    ensures var n, after := |queues|, Balanced(queues, me);
      && |starts| == n && queues[me] <= after[me]
      && starts[0] == |queues[me]| && starts[n - 1] == |after[me]|
      && forall k :: 1 <= k < n ==> Visited(queues, me, (me + k) % n, after, starts[k - 1], starts[k])
  {
    hide *;
    var n := |queues|;
    ThiefLength(queues, me);
    starts := Starts(queues, me);
    forall k | 1 <= k < n
      ensures Visited(queues, me, (me + k) % n, Balanced(queues, me), starts[k - 1], starts[k])
    {
      VictimIs(me, k, n);
      VictimTaken(queues, me, k);
    }
  }

  lemma {:induction false} MovedConserves<T>(queues: seq<seq<T>>, me: nat, victim: nat, k: nat, t: T)
    requires me < |queues| && victim < |queues| && me != victim && k <= |queues[victim]|
    ensures Queued(Moved(queues, me, victim, k), t) == Queued(queues, t)
  {
    var taken, kept := queues[victim][..k], queues[victim][k..];
    QueuedUpdate(queues, me, queues[me] + taken, t);
    QueuedUpdate(queues[me := queues[me] + taken], victim, kept, t);
    assert queues[victim] == taken + kept;
  }

  /** Stealing moves tasks, it never loses, duplicates or invents one. */
  lemma {:induction false} RoundConserves<T>(queues: seq<seq<T>>, me: nat, count: nat, steps: nat, t: T)
    requires me < |queues| && steps < |queues|
    ensures Queued(StealRound(queues, me, count, steps), t) == Queued(queues, t)
  {
    if steps > 0 {
      var before := StealRound(queues, me, count, steps - 1);
      var v := Victim(me, steps, |queues|);
      RoundConserves(queues, me, count, steps - 1, t);
      MovedConserves(before, me, v, StealCount(|before[v]|, count), t);
    }
  }

  /** How much a victim keeps: it is never taken below the thief's starting count, and a richer
      victim ends half way between its own count and the thief's, rounded up. */
  lemma {:induction false} VictimKeeps(held: nat, count: nat)
    ensures held <= count ==> StealCount(held, count) == 0
    ensures held > count ==> held + count <= 2 * (held - StealCount(held, count)) <= held + count + 1
  {}

  /** One balancing call as a whole: no task is lost or duplicated, the thief keeps its own queue in
      front of the loot, and every victim keeps a suffix of its queue. */
  lemma {:induction false} BalanceTheorem<T>(queues: seq<seq<T>>, me: nat, v: nat, t: T)
    requires me < |queues| && v < |queues| && v != me
    ensures Queued(Balanced(queues, me), t) == Queued(queues, t)
    ensures Balanced(queues, me)[me] == queues[me] + Loot(queues, me, |queues[me]|, |queues| - 1)
    ensures Balanced(queues, me)[v] == queues[v][StealCount(|queues[v]|, |queues[me]|)..]
  {
    var count, steps := |queues[me]|, |queues| - 1;
    assert Queued(Balanced(queues, me), t) == Queued(queues, t) by {
      RoundConserves(queues, me, count, steps, t);
    }
    assert Balanced(queues, me)[me] == queues[me] + Loot(queues, me, count, steps) by {
      ThiefShape(queues, me, count, steps);
    }
    assert Balanced(queues, me)[v] == queues[v][StealCount(|queues[v]|, count)..] by {
      VictimShape(queues, me, count, steps, v);
    }
  }

  /** No victim is taken below the thief's starting count, and a poorer one is left alone. */
  lemma {:induction false} BalanceFloor<T>(queues: seq<seq<T>>, me: nat, v: nat)
    requires me < |queues| && v < |queues| && v != me
    ensures var count, held, left := |queues[me]|, |queues[v]|, |Balanced(queues, me)[v]|;
      if held <= count then left == held
      else count <= left && held + count <= 2 * left <= held + count + 1
  {
    VictimShape(queues, me, |queues[me]|, |queues| - 1, v);
    VictimKeeps(|queues[v]|, |queues[me]|);
  }

  /** A lone scheduler has nobody to steal from. */
  lemma {:induction false} AloneNothingMoves<T>(queues: seq<seq<T>>)
    requires |queues| == 1
    ensures Balanced(queues, 0) == queues
  {}
}
