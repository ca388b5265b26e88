/** The schedulers, one per processor (libtask/task_scheduler_locked.c). */
module Balancer {
  import opened LockedDeque
  import opened StealModel

  class Scheduler<T(0)> {
    const id: nat
    const deque: Deque<T>
    var stealCount: nat

    constructor (id: nat)
      ensures this.id == id && stealCount == 0
      ensures deque.Valid() && fresh(deque) && fresh(deque.nodes) && deque.Items() == []
    {
      this.id := id;
      stealCount := 0;
      deque := new Deque<T>();
    }
  }

  class Schedulers<T(0)> {
    const scheds: seq<Scheduler<T>>
    /** What each deque holds. */
    ghost var queues: seq<seq<T>>
    /** Every cell ever pushed, whether queued now or not. */
    ghost var cells: set<Node<T>>
    ghost var Repr: set<object>

    ghost function Deques(): set<Deque<T>> {
      set s | s in scheds :: s.deque
    }

    ghost predicate DequeOk(i: nat)
      requires i < |scheds| && |scheds| == |queues|
      requires this in Repr && scheds[i] in Repr && scheds[i].deque in Repr
      reads this, Repr
    {
      && (forall n :: n in scheds[i].deque.nodes ==> n in Repr)
      && scheds[i].deque.Valid()
      && queues[i] == scheds[i].deque.Items()
      && (forall n :: n in scheds[i].deque.nodes[1..] ==> n in cells)
    }

    ghost predicate CellOk(n: Node<T>)
      requires this in Repr && n in Repr && (forall d :: d in Deques() ==> d in Repr)
      reads this, Repr
    {
      && (n.owner == null ==> n.next == null)
      && (n.owner != null ==> n.owner in Deques() && n.owner.nodes != [] && n in n.owner.nodes[1..])
    }

    ghost predicate Valid()
      reads this, Repr
      ensures Valid() ==> this in Repr
    {
      && this in Repr
      && |scheds| == |queues|
      && (forall i :: 0 <= i < |scheds| ==> scheds[i].id == i && scheds[i] in Repr && scheds[i].deque in Repr)
      && (forall i, j :: 0 <= i < j < |scheds| ==> scheds[i] != scheds[j] && scheds[i].deque != scheds[j].deque)
      && (forall i :: 0 <= i < |scheds| ==> DequeOk(i))
      && (forall n :: n in cells ==> n in Repr)
      && (forall n :: n in cells ==> CellOk(n))
    }

    /** A cell that is in no queue can be pushed again. */
    lemma {:induction false} UnqueuedCellIsFree(n: Node<T>)
      requires Valid() && n in cells
      requires Queued(queues, n.data) == 0
      ensures n.owner == null && n.next == null
    {
      assert CellOk(n);
      if n.owner != null {
        var i :| 0 <= i < |scheds| && scheds[i].deque == n.owner;
        assert DequeOk(i);
        var k :| 0 <= k < |n.owner.nodes[1..]| && n.owner.nodes[1..][k] == n;
        assert queues[i][k] == n.data;
        QueuedAt(queues, i, n.data);
      }
    }

    /** Allocates one empty deque per processor (init_scheduler). */
    constructor (n: nat)
      ensures Valid() && fresh(Repr)
      ensures |scheds| == n && cells == {}
      ensures forall i :: 0 <= i < n ==> queues[i] == [] && scheds[i].stealCount == 0
    {
      var all: seq<Scheduler<T>> := [];
      ghost var repr: set<object> := {};
      for i := 0 to n
        invariant |all| == i
        invariant fresh(repr)
        invariant forall k :: 0 <= k < i ==>
                    && all[k] in repr && all[k].deque in repr
                    && (forall m :: m in all[k].deque.nodes ==> m in repr)
                    && all[k].id == k && all[k].stealCount == 0
                    && all[k].deque.Valid() && all[k].deque.Items() == []
        invariant forall j, k :: 0 <= j < k < i ==> all[j] != all[k] && all[j].deque != all[k].deque
      {
        var sched := new Scheduler<T>(i);
        all := all + [sched];
        repr := repr + {sched, sched.deque} + (set m | m in sched.deque.nodes);
      }
      scheds := all;
      queues := seq(n, _ => []);
      cells := {};
      Repr := {this} + repr;
    }

    /** Queues a cell on scheduler i (the tail of schedule). */
    method Push(i: nat, node: Node<T>)
      requires Valid() && i < |scheds|
      requires node.owner == null && node.next == null
      modifies Repr, node
      ensures Valid() && Repr == old(Repr) + {node}
      ensures cells == old(cells) + {node}
      ensures queues == old(queues)[i := old(queues)[i] + [node.data]]
      ensures forall k :: 0 <= k < |scheds| ==> scheds[k].stealCount == old(scheds[k].stealCount)
    {
      assert DequeOk(i);
      scheds[i].deque.PushTail(node);
      queues := queues[i := queues[i] + [node.data]];
      cells := cells + {node};
      Repr := Repr + {node};
      forall k | 0 <= k < |scheds|
        ensures DequeOk(k)
      {
        assert old(DequeOk(k));
        if k != i {
          assert forall m :: m in scheds[k].deque.nodes ==> old(m.owner) == scheds[k].deque;
          assert forall m :: m in old(scheds[i].deque.nodes) ==> old(m.owner) == scheds[i].deque;
          Untouched(scheds[k].deque);
        }
      }
      forall n | n in cells
        ensures CellOk(n)
      {
        if n != node {
          assert old(CellOk(n));
          if n in old(scheds[i].deque.nodes) {
            assert n in old(scheds[i].deque.nodes[1..]);
            assert scheds[i].deque.nodes[1..] == old(scheds[i].deque.nodes[1..]) + [node];
          } else {
            assert n.owner == old(n.owner);
            assert n.owner != scheds[i].deque;
          }
        } else {
          assert scheds[i].deque.nodes[1..][|scheds[i].deque.nodes| - 2] == node;
        }
      }
    }

    /** Takes the oldest cell of scheduler i, or null (sched_get_task). */
    method Pop(i: nat) returns (node: Node?<T>)
      requires Valid() && i < |scheds|
      modifies Repr
      ensures Valid() && Repr == old(Repr) && cells == old(cells)
      ensures old(queues)[i] == [] ==> node == null && queues == old(queues)
      ensures old(queues)[i] != [] ==>
                && node != null && node in Repr && node in cells
                && node.owner == null && node.next == null
                && node.data == old(queues)[i][0]
                && queues == old(queues)[i := old(queues)[i][1..]]
      ensures forall k :: 0 <= k < |scheds| ==> scheds[k].stealCount == old(scheds[k].stealCount)
    {
      assert DequeOk(i);
      node := scheds[i].deque.PopHead();
      queues := queues[i := if queues[i] == [] then [] else queues[i][1..]];
      forall k | 0 <= k < |scheds|
        ensures DequeOk(k)
      {
        assert old(DequeOk(k));
        if k != i {
          assert forall m :: m in scheds[k].deque.nodes ==> old(m.owner) == scheds[k].deque;
          assert forall m :: m in old(scheds[i].deque.nodes) ==> old(m.owner) == scheds[i].deque;
          Untouched(scheds[k].deque);
        }
      }
      forall n | n in cells
        ensures CellOk(n)
      {
        assert old(CellOk(n));
        if n in old(scheds[i].deque.nodes) {
          if old(queues)[i] != [] {
            assert n == node || n in scheds[i].deque.nodes[1..];
          }
        } else {
          assert n.owner == old(n.owner);
          assert n.owner != scheds[i].deque;
        }
      }
    }

    /** The body of the innermost stealing loop: one cell moves from the victim's head to the
        thief's tail, if the victim still has one. */
    method StealOne(me: nat, victim: nat)
      requires Valid() && me < |scheds| && victim < |scheds| && me != victim
      modifies Repr
      ensures Valid() && Repr == old(Repr) && cells == old(cells)
      ensures old(queues)[victim] == [] ==> queues == old(queues)
      ensures old(queues)[victim] != [] ==> queues == Moved(old(queues), me, victim, 1)
      ensures scheds[me].stealCount == old(scheds[me].stealCount) + |queues[me]| - |old(queues)[me]|
      ensures forall k :: 0 <= k < |scheds| && k != me ==> scheds[k].stealCount == old(scheds[k].stealCount)
    {
      ghost var q := queues;
      var node := Pop(victim);
      assert q[victim] != [] ==> q[victim][..1] == [q[victim][0]];
      if node != null {
        Push(me, node);
        label pushed:
        scheds[me].stealCount := scheds[me].stealCount + 1;
        forall k | 0 <= k < |scheds|
          ensures DequeOk(k)
        {
          assert old@pushed(DequeOk(k));
          Untouched@pushed(scheds[k].deque);
        }
      }
    }

    /** The visit of one victim: the inner stealing loop. */
    method StealSome(me: nat, index: nat, count: nat)
      requires Valid() && me < |scheds| && index < |scheds| && me != index
      modifies Repr
      ensures Valid() && Repr == old(Repr) && cells == old(cells)
      ensures queues == StealFrom(old(queues), me, index, count)
      ensures scheds[me].stealCount == old(scheds[me].stealCount) + |queues[me]| - |old(queues)[me]|
      ensures forall k :: 0 <= k < |scheds| && k != me ==> scheds[k].stealCount == old(scheds[k].stealCount)
    {
      assert DequeOk(index);
      var numSteal := Half(scheds[index].deque.count - count);
      ghost var start := queues;
      ghost var taken := 0;
      MovedNone(start, me, index);
      while numSteal > 0
        invariant taken <= |start[index]|
        invariant StealCount(|start[index]|, count) == taken + if numSteal > 0 then numSteal else 0
        invariant Valid() && Repr == old(Repr) && cells == old(cells)
        invariant queues == Moved(start, me, index, taken)
        invariant scheds[me].stealCount == old(scheds[me].stealCount) + |queues[me]| - |start[me]|
        invariant forall k :: 0 <= k < |scheds| && k != me ==> scheds[k].stealCount == old(scheds[k].stealCount)
      {
        numSteal := numSteal - 1;
        StealOne(me, index);
        MovedOneMore(start, me, index, taken);
        taken := taken + 1;
      }
    }

    /** Goes once round the other schedulers and takes half of what each has more than the thief
        had at the start (sched_load_balance). */
    method LoadBalance(me: nat)
      requires Valid() && me < |scheds|
      modifies Repr
      ensures Valid() && Repr == old(Repr) && cells == old(cells)
      ensures queues == Balanced(old(queues), me)
      ensures scheds[me].stealCount == old(scheds[me].stealCount) + |queues[me]| - |old(queues)[me]|
      ensures forall k :: 0 <= k < |scheds| && k != me ==> scheds[k].stealCount == old(scheds[k].stealCount)
    {
      var i := scheds[me].id;
      var end := i + |scheds| - 1;
      assert DequeOk(me);
      var count := scheds[me].deque.count;
      while i < end
        invariant me <= i <= end
        invariant Valid() && Repr == old(Repr) && cells == old(cells)
        invariant queues == StealRound(old(queues), me, count, i - me)
        invariant scheds[me].stealCount == old(scheds[me].stealCount) + |queues[me]| - |old(queues)[me]|
        invariant forall k :: 0 <= k < |scheds| && k != me ==> scheds[k].stealCount == old(scheds[k].stealCount)
      {
        i := i + 1;
        var index := i % |scheds|;
        VictimWraps(i, |scheds|);
        assert index == Victim(me, i - me, |scheds|);
        StealSome(me, index, count);
      }
    }
  }
}
