/** The two intrusive lists that run through every hash node (include/list.h).

    `next` and `prev` thread the node on a circular, doubly linked list behind a head; `hnext` and
    `pprev` put it on a conflict chain, where `pprev` is the place that points at the node: the first
    pointer of a bucket or the hnext pointer of the node before.
  */
module IntrusiveLists {

  class HlistHead<K(0)> {
    var first: HashNode?<K>

    constructor ()
      ensures first == null
    {
      first := null;
    }
  }

  /** What a pprev pointer points at. */
  datatype Slot<K(0)> = Unhashed | First(head: HlistHead<K>) | NextOf(node: HashNode<K>)

  class HashNode<K(0)> {
    var next: HashNode<K>
    var prev: HashNode<K>
    var hnext: HashNode?<K>
    var pprev: Slot<K>
    var hash: nat
    const key: K
    /** The bucket whose chain holds the node. */
    ghost var owner: HlistHead?<K>

    /** Init_HashNode. */
    constructor (key: K)
      ensures this.key == key && next == this && prev == this
      ensures hnext == null && pprev == Unhashed && hash == 0 && owner == null
    {
      this.key := key;
      next := this;
      prev := this;
      hnext := null;
      pprev := Unhashed;
      hash := 0;
      owner := null;
    }

    /** The head of a circular list, which has no key. */
    constructor Head()
      ensures next == this && prev == this && pprev == Unhashed && owner == null
    {
      key := *;
      next := this;
      prev := this;
      hnext := null;
      pprev := Unhashed;
      hash := 0;
      owner := null;
    }
  }

  // ---------------------------------------------------------------- conflict chains

  ghost function At<K(0)>(chain: seq<HashNode<K>>, k: nat): HashNode?<K> {
    if k < |chain| then chain[k] else null
  }

  /** The place that points at position k. */
  ghost function SlotOf<K(0)>(h: HlistHead<K>, chain: seq<HashNode<K>>, k: nat): Slot<K>
    requires k <= |chain|
  {
    if k == 0 then First(h) else NextOf(chain[k - 1])
  }

  /** The bucket's chain is exactly `chain`, in this order. */
  ghost predicate ChainOk<K(0)>(h: HlistHead<K>, chain: seq<HashNode<K>>)
    reads h, chain`hnext, chain`pprev, chain`owner
  {
    && h.first == At(chain, 0)
    && (forall k {:trigger chain[k].owner} :: 0 <= k < |chain| ==> chain[k].owner == h)
    && (forall k {:trigger chain[k].hnext} :: 0 <= k < |chain| ==> chain[k].hnext == At(chain, k + 1))
    && (forall k {:trigger chain[k].pprev} :: 0 <= k < |chain| ==> chain[k].pprev == SlotOf(h, chain, k))
    && (forall j, k :: 0 <= j < k < |chain| ==> chain[j] != chain[k])
  }

  /** hlist_add: at the front of the bucket. */
  method HlistAdd<K(0)>(n: HashNode<K>, h: HlistHead<K>, ghost chain: seq<HashNode<K>>)
    requires ChainOk(h, chain) && n.owner == null
    modifies h, n`hnext, n`pprev, n`owner, chain`pprev
    ensures ChainOk(h, [n] + chain)
  {
    var first := h.first;
    n.hnext := first;
    if first != null {
      first.pprev := NextOf(n);
    }
    h.first := n;
    n.pprev := First(h);
    n.owner := h;
    ghost var longer := [n] + chain;
    forall k | 0 <= k < |longer|
      ensures longer[k].hnext == At(longer, k + 1)
      ensures longer[k].pprev == SlotOf(h, longer, k)
      ensures longer[k].owner == h
    {
      if k > 0 {
        assert longer[k] == chain[k - 1] != n;
        assert old(chain[k - 1].hnext) == At(chain, k) == At(longer, k + 1);
        assert old(chain[k - 1].pprev) == SlotOf(h, chain, k - 1);
      }
    }
  }

  ghost function Without<T>(s: seq<T>, k: nat): (shorter: seq<T>)
    requires k < |s|
    ensures |shorter| == |s| - 1
  {
    s[..k] + s[k + 1..]
  }

  lemma {:induction false} WithoutIs<T>(s: seq<T>, k: nat)
    requires k < |s|
    ensures Without(s, k) == s[..k] + s[k + 1..]
  {}

  /** The neighbours of a node after the one at position k is gone. */
  lemma {:induction false} WithoutNeighbours<K(0)>(h: HlistHead<K>, chain: seq<HashNode<K>>, k: nat, i: nat)
    requires k < |chain| && i < |chain| - 1
    ensures var j, shorter := if i < k then i else i + 1, Without(chain, k);
      && shorter[i] == chain[j]
      && At(shorter, i + 1) == At(chain, if j + 1 == k then k + 1 else j + 1)
      && SlotOf(h, shorter, i) == SlotOf(h, chain, if j == k + 1 then k else j)
  {}

  /** hlist_del: through pprev, without knowing the bucket. */
  method HlistDel<K(0)>(n: HashNode<K>, ghost h: HlistHead<K>, ghost chain: seq<HashNode<K>>, ghost k: nat)
    requires ChainOk(h, chain) && k < |chain| && chain[k] == n
    modifies h, chain`hnext, chain`pprev, n`owner
    ensures ChainOk(h, chain[..k] + chain[k + 1..])
    ensures n.hnext == null && n.pprev == Unhashed && n.owner == null
  {
    assert n.hnext == At(chain, k + 1) && n.pprev == SlotOf(h, chain, k);
    if n.pprev != Unhashed {
      var next := n.hnext;
      var pprev := n.pprev;
      match pprev {
        case First(head) => head.first := next;
        case NextOf(before) => before.hnext := next;
      }
      if next != null {
        next.pprev := pprev;
      }
      n.hnext := null;
      n.pprev := Unhashed;
      n.owner := null;
      ghost var shorter := Without(chain, k);
      forall i | 0 <= i < |shorter|
        ensures shorter[i].hnext == At(shorter, i + 1)
        ensures shorter[i].pprev == SlotOf(h, shorter, i)
        ensures shorter[i].owner == h
      {
        WithoutNeighbours(h, chain, k, i);
        var j := if i < k then i else i + 1;
        assert old(chain[j].hnext) == At(chain, j + 1) && old(chain[j].pprev) == SlotOf(h, chain, j);
        assert old(chain[j].owner) == h;
      }
    }
  }

  // ---------------------------------------------------------------- the circular list

  /** Going round the list: the head, the entries, and the head again. */
  ghost function Round<K(0)>(head: HashNode<K>, order: seq<HashNode<K>>, k: nat): HashNode<K> {
    if 0 < k <= |order| then order[k - 1] else head
  }

  /** The list behind the head is exactly `order`, in this order. */
  ghost predicate RingOk<K(0)>(head: HashNode<K>, order: seq<HashNode<K>>)
    reads head`next, head`prev, order`next, order`prev
  {
    && (forall k {:trigger Round(head, order, k).next} :: 0 <= k <= |order| ==>
             Round(head, order, k).next == Round(head, order, k + 1))
    && (forall k {:trigger Round(head, order, k).prev} :: 0 < k <= |order| + 1 ==>
             Round(head, order, k).prev == Round(head, order, k - 1))
    && head !in order
    && (forall j, k :: 0 <= j < k < |order| ==> order[j] != order[k])
  }

  /** list_add_tail. */
  method ListAddTail<K(0)>(entry: HashNode<K>, head: HashNode<K>, ghost order: seq<HashNode<K>>)
    requires RingOk(head, order) && entry != head && entry !in order
    modifies head`next, head`prev, order`next, entry`next, entry`prev
    ensures RingOk(head, order + [entry])
  {
    var prev := head.prev;
    assert Round(head, order, |order| + 1).prev == Round(head, order, |order|);
    entry.next := head;
    entry.prev := prev;
    prev.next := entry;
    head.prev := entry;
    ghost var longer := order + [entry];
    forall k | 0 <= k <= |longer|
      ensures Round(head, longer, k).next == Round(head, longer, k + 1)
    {
      assert Round(head, longer, k) == if k <= |order| then Round(head, order, k) else entry;
      assert k < |order| ==> old(Round(head, order, k).next) == Round(head, order, k + 1);
    }
    forall k | 0 < k <= |longer| + 1
      ensures Round(head, longer, k).prev == Round(head, longer, k - 1)
    {
      assert k <= |order| ==> old(Round(head, order, k).prev) == Round(head, order, k - 1);
    }
  }

  /** list_del, which leaves the entry linked to itself. */
  method ListDel<K(0)>(entry: HashNode<K>, ghost head: HashNode<K>, ghost order: seq<HashNode<K>>, ghost k: nat)
    requires RingOk(head, order) && k < |order| && order[k] == entry
    modifies head`next, head`prev, order`next, order`prev
    ensures RingOk(head, order[..k] + order[k + 1..])
    ensures entry.next == entry && entry.prev == entry
  {
    var prev, next := entry.prev, entry.next;
    assert entry == Round(head, order, k + 1);
    assert Round(head, order, k + 1).prev == Round(head, order, k);
    assert Round(head, order, k + 1).next == Round(head, order, k + 2);
    next.prev := prev;
    prev.next := next;
    entry.next := entry;
    entry.prev := entry;
    ghost var shorter := Without(order, k);
    forall i | 0 <= i <= |shorter|
      ensures Round(head, shorter, i).next == Round(head, shorter, i + 1)
    {
      var j := if i <= k then i else i + 1;
      assert Round(head, shorter, i) == Round(head, order, j);
      assert old(Round(head, order, j).next) == Round(head, order, j + 1);
    }
    forall i | 0 < i <= |shorter| + 1
      ensures Round(head, shorter, i).prev == Round(head, shorter, i - 1)
    {
      var j := if i <= k then i else i + 1;
      assert Round(head, shorter, i) == Round(head, order, j);
      assert old(Round(head, order, j).prev) == Round(head, order, j - 1);
    }
  }
}
