/** The chained hash table with its insertion-order list (src/hashtable.c).

    `order` lists the stored nodes oldest first; it is what the table stands for.  `chains` says what
    hangs on each bucket.  Every operation is specified by what a linear search over `order` would do.
  */
module HashTable {
  import opened IntrusiveLists
  import opened Buckets

  const PRIMES: seq<nat> := [
    19, 31, 53, 97, 193, 389, 769, 1543, 3079, 6151, 12289, 24593, 49157, 98317, 196613, 393241,
    786433, 1572869, 3145739, 6291469, 12582917, 25165843, 50331653, 100663319, 201326611,
    402653189, 805306457, 1610612741]

  const LAST_PRIME: nat := 27

  function Prime(i: nat): (p: nat)
    requires i <= LAST_PRIME
    ensures p >= 19
  {
    PRIMES[i]
  }

  /** nr_nodes < prime * LOAD_FACTOR, over the integers. */
  predicate HasRoom(nodes: int, buckets: nat) {
    100 * nodes < 65 * buckets
  }

  /** The prime before and after room was made for one more node: the same if the table was less than
      65% full, otherwise the first one with which it is, or the last there is. */
  ghost predicate Resized(nodes: int, before: nat, after: nat) {
    && before <= after <= LAST_PRIME
    && (100 * nodes < 65 * PRIMES[before] ==> after == before)
    && (forall i :: before <= i < after ==> 100 * nodes >= 65 * PRIMES[i])
    && (100 * nodes >= 65 * PRIMES[after] ==> after == LAST_PRIME)
  }

  /** Equality is an equivalence and equal keys have equal hashes. */
  ghost predicate Coherent<K(!new)>(hash: K -> nat, equal: (K, K) -> bool) {
    && (forall a :: equal(a, a))
    && (forall a, b :: equal(a, b) ==> equal(b, a))
    && (forall a, b, c :: equal(a, b) && equal(b, c) ==> equal(a, c))
    && (forall a, b :: equal(a, b) ==> hash(a) == hash(b))
  }

  /** The node a linear search over the insertion order finds. */
  ghost function Search<K(0)>(order: seq<HashNode<K>>, equal: (K, K) -> bool, key: K): HashNode?<K> {
    if order == [] then null
    else if equal(order[0].key, key) then order[0]
    else Search(order[1..], equal, key)
  }

  /** If some stored node has an equal key, the search finds that node: stored keys are unequal. */
  lemma {:induction false} SearchFinds<K(0,!new)>(order: seq<HashNode<K>>, equal: (K, K) -> bool, key: K, k: nat)
    requires forall a, b, c :: equal(a, b) && equal(c, b) ==> equal(a, c)
    requires forall i, j :: 0 <= i < j < |order| ==> !equal(order[i].key, order[j].key)
    requires k < |order| && equal(order[k].key, key)
    ensures Search(order, equal, key) == order[k]
  {
    if k > 0 {
      assert !equal(order[0].key, order[k].key);
      SearchFinds(order[1..], equal, key, k - 1);
    }
  }

  lemma {:induction false} SearchMisses<K(0)>(order: seq<HashNode<K>>, equal: (K, K) -> bool, key: K)
    ensures var n := Search(order, equal, key);
      if n == null then forall m :: m in order ==> !equal(m.key, key) else n in order && equal(n.key, key)
  {
    if order != [] && !equal(order[0].key, key) {
      SearchMisses(order[1..], equal, key);
      assert order == [order[0]] + order[1..];
    }
  }

  /** What an insertion does to every later search. */
  lemma {:induction false} SearchAfterInsert<K(0)>(order: seq<HashNode<K>>, equal: (K, K) -> bool, key: K,
          n: HashNode<K>)
    ensures Search(order + [n], equal, key)
         == if Search(order, equal, key) != null then Search(order, equal, key)
            else if equal(n.key, key) then n else null
  {
    if order == [] {
      assert Search([n][1..], equal, key) == null;
    } else {
      assert (order + [n])[1..] == order[1..] + [n];
      SearchAfterInsert(order[1..], equal, key, n);
    }
  }

  /** What a removal does to every later search: only the removed key is gone. */
  lemma {:induction false} SearchAfterRemove<K(0,!new)>(order: seq<HashNode<K>>, equal: (K, K) -> bool, key: K, k: nat)
    requires forall a, b, c :: equal(a, b) && equal(c, b) ==> equal(a, c)
    requires forall i, j :: 0 <= i < j < |order| ==> !equal(order[i].key, order[j].key)
    requires k < |order|
    ensures Search(Without(order, k), equal, key)
         == if equal(order[k].key, key) then null else Search(order, equal, key)
  {
    if k == 0 {
      assert Without(order, 0) == order[1..];
      SearchMisses(order[1..], equal, key);
      var n := Search(order[1..], equal, key);
      if n != null {
        var i :| 0 <= i < |order| - 1 && order[1..][i] == n;
        assert !equal(order[0].key, order[i + 1].key);
      }
    } else {
      assert Without(order, k)[1..] == Without(order[1..], k - 1);
      SearchAfterRemove(order[1..], equal, key, k - 1);
      assert !equal(order[0].key, order[k].key);
    }
  }

  /** The bucket to which each node's hash sends it. */
  ghost function Places<K(0)>(nodes: set<HashNode<K>>, size: nat): map<HashNode<K>, nat>
    requires size > 0
    reads nodes`hash
  {
    map n | n in nodes :: n.hash % size
  }

  lemma {:induction false} PlacesInRange<K(0)>(nodes: set<HashNode<K>>, size: nat)
    requires size > 0
    ensures Places(nodes, size).Keys == nodes
    ensures forall n :: n in nodes ==> Places(nodes, size)[n] < size
  {}

  /** All nodes are there, each where `place` sends it and nowhere else. */
  ghost predicate Placed<N>(chains: seq<seq<N>>, place: map<N, nat>) {
    && (forall n :: n in place ==> place[n] < |chains| && n in chains[place[n]])
    && (forall b, n :: 0 <= b < |chains| && n in chains[b] ==> n in place && place[n] == b)
  }

  lemma {:induction false} PlacesAfter<K(0)>(nodes: set<HashNode<K>>, size: nat, n: HashNode<K>)
    requires size > 0
    ensures Places(nodes + {n}, size) == Places(nodes, size)[n := n.hash % size]
  {}

  lemma {:induction false} PlacesWithout<K(0)>(nodes: set<HashNode<K>>, size: nat, n: HashNode<K>)
    requires size > 0
    ensures Places(nodes - {n}, size) == Places(nodes, size) - {n}
  {}

  lemma {:induction false} PlacedAfterHang<N>(chains: seq<seq<N>>, place: map<N, nat>, n: N, index: nat)
    requires Placed(chains, place) && n !in place && index < |chains|
    ensures Placed(chains[index := [n] + chains[index]], place[n := index])
  {
    var longer := chains[index := [n] + chains[index]];
    assert longer[index][0] == n;
    forall m | m in place
      ensures m in longer[place[m]]
    {
      assert m in chains[place[m]];
    }
  }

  lemma {:induction false} WithoutHas<T>(s: seq<T>, k: nat, x: T)
    requires k < |s| && forall i, j :: 0 <= i < j < |s| ==> s[i] != s[j]
    ensures x in Without(s, k) <==> x in s && x != s[k]
  {
    var shorter := Without(s, k);
    if x in shorter {
      var i :| 0 <= i < |shorter| && shorter[i] == x;
      var j := if i < k then i else i + 1;
      assert x == s[j];
      assert s[if j < k then j else k] != s[if j < k then k else j];
    }
    if x in s && x != s[k] {
      var i :| 0 <= i < |s| && s[i] == x;
      assert shorter[if i < k then i else i - 1] == x;
    }
  }

  /** What still hangs on a bucket: all but the node taken. */
  lemma {:induction false} UnhungHas<N>(chains: seq<seq<N>>, place: map<N, nat>, index: nat, k: nat, b: nat, m: N)
    requires Placed(chains, place) && index < |chains| && k < |chains[index]| && b < |chains|
    requires forall i, j :: 0 <= i < j < |chains[index]| ==> chains[index][i] != chains[index][j]
    ensures m in chains[index := Without(chains[index], k)][b] <==> m in chains[b] && m != chains[index][k]
  {
    hide Without;
    var n := chains[index][k];
    assert n in chains[index];
    if b == index {
      WithoutHas(chains[index], k, m);
    } else if m in chains[b] {
      assert place[m] == b && place[n] == index;
    }
  }

  lemma {:induction false} PlacedAfterUnhang<N>(chains: seq<seq<N>>, place: map<N, nat>, index: nat, k: nat)
    requires Placed(chains, place) && index < |chains| && k < |chains[index]|
    requires forall i, j :: 0 <= i < j < |chains[index]| ==> chains[index][i] != chains[index][j]
    ensures Placed(chains[index := Without(chains[index], k)], place - {chains[index][k]})
  {
    hide Without;
    var after, left := chains[index := Without(chains[index], k)], place - {chains[index][k]};
    forall m | m in left
      ensures left[m] < |after| && m in after[left[m]]
    {
      assert m in chains[place[m]];
      UnhungHas(chains, place, index, k, place[m], m);
    }
    forall b, m | 0 <= b < |after| && m in after[b]
      ensures m in left && left[m] == b
    {
      UnhungHas(chains, place, index, k, b, m);
      assert m in chains[b];
    }
  }

  /** The same while nodes move from a family of `size` buckets to the one behind it. */
  ghost predicate Moving<N>(both: seq<seq<N>>, size: nat, from: map<N, nat>, to: map<N, nat>) {
    && size <= |both| && from.Keys == to.Keys
    && (forall n :: n in from ==> from[n] < size && to[n] < |both| - size)
    && (forall n :: n in from ==> n in both[from[n]] || n in both[size + to[n]])
    && (forall b, n :: 0 <= b < size && n in both[b] ==> n in from && from[n] == b)
    && (forall b, n :: size <= b < |both| && n in both[b] ==> n in from && to[n] == b - size)
  }

  /** The family after the first node of bucket i moved. */
  ghost function Move<N>(both: seq<seq<N>>, size: nat, i: nat, index: nat): (moved: seq<seq<N>>)
    requires i < size && size + index < |both| && both[i] != []
    ensures |moved| == |both| && moved[i] == both[i][1..]
    ensures moved[size + index] == [both[i][0]] + both[size + index]
    ensures forall b :: 0 <= b < |both| && b != i && b != size + index ==> moved[b] == both[b]
  {
    both[i := both[i][1..]][size + index := [both[i][0]] + both[size + index]]
  }

  /** What hangs on a bucket after the move: what hung there, and the moved node on its new one. */
  lemma {:induction false} MovedMembers<N>(both: seq<seq<N>>, size: nat, i: nat, index: nat, b: nat, m: N)
    requires i < size && size + index < |both| && both[i] != [] && b < |both|
    ensures var n, moved := both[i][0], Move(both, size, i, index);
      && (m in moved[b] ==> m in both[b] || (m == n && b == size + index))
      && (m in both[b] && m != n ==> m in moved[b])
      && n in moved[size + index]
  {
    var n, moved := both[i][0], Move(both, size, i, index);
    assert both[i] == [n] + moved[i];
    assert moved[size + index][0] == n;
  }

  lemma {:induction false} MoveLosesNone<N>(both: seq<seq<N>>, size: nat, from: map<N, nat>, to: map<N, nat>, i: nat,
      m: N)
    requires Moving(both, size, from, to) && i < size && both[i] != [] && both[i][0] in from && m in from
    ensures var moved := Move(both, size, i, to[both[i][0]]);
      m in moved[from[m]] || m in moved[size + to[m]]
  {
    hide Move;
    MovedMembers(both, size, i, to[both[i][0]], from[m], m);
    MovedMembers(both, size, i, to[both[i][0]], size + to[m], m);
  }

  lemma {:induction false} MoveAddsNone<N>(both: seq<seq<N>>, size: nat, from: map<N, nat>, to: map<N, nat>, i: nat,
      b: nat, m: N)
    requires Moving(both, size, from, to) && i < size && both[i] != [] && both[i][0] in from && b < |both|
    requires m in Move(both, size, i, to[both[i][0]])[b]
    ensures m in from && if b < size then from[m] == b else to[m] == b - size
  {
    hide Move;
    MovedMembers(both, size, i, to[both[i][0]], b, m);
  }

  lemma {:induction false} MoveKeepsMoving<N>(both: seq<seq<N>>, size: nat, from: map<N, nat>, to: map<N, nat>, i: nat)
    requires Moving(both, size, from, to) && i < size && both[i] != []
    ensures both[i][0] in from
    ensures Moving(Move(both, size, i, to[both[i][0]]), size, from, to)
  {
    hide Move;
    var n := both[i][0];
    assert n in both[i];
    var moved := Move(both, size, i, to[n]);
    forall m | m in from
      ensures m in moved[from[m]] || m in moved[size + to[m]]
    {
      MoveLosesNone(both, size, from, to, i, m);
    }
    forall b, m | 0 <= b < |both| && m in moved[b]
      ensures m in from && if b < size then from[m] == b else to[m] == b - size
    {
      MoveAddsNone(both, size, from, to, i, b, m);
    }
  }

  lemma {:induction false} MoveKeepsTotal<N>(both: seq<seq<N>>, size: nat, i: nat, index: nat)
    requires i < size && size + index < |both| && both[i] != []
    ensures Total(Move(both, size, i, index)) == Total(both)
  {
    var rest := both[i := both[i][1..]];
    TotalUpdate(both, i, both[i][1..]);
    TotalUpdate(rest, size + index, [both[i][0]] + rest[size + index]);
  }

  lemma {:induction false} MovingStarts<N>(chains: seq<seq<N>>, from: map<N, nat>, to: map<N, nat>, newSize: nat)
    requires Placed(chains, from) && from.Keys == to.Keys
    requires forall n :: n in to ==> to[n] < newSize
    ensures Moving(chains + Empty(newSize), |chains|, from, to)
    ensures Total(chains + Empty<N>(newSize)) == Total(chains)
  {
    TotalAppend(chains, Empty<N>(newSize));
    TotalEmpty(Empty<N>(newSize));
  }

  lemma {:induction false} MovingEnds<N>(both: seq<seq<N>>, size: nat, from: map<N, nat>, to: map<N, nat>)
    requires Moving(both, size, from, to)
    requires forall b :: 0 <= b < size ==> both[b] == []
    ensures Placed(both[size..], to)
    ensures Total(both[size..]) == Total(both)
  {
    hide Total;
    TotalBehind(both, size);
    var back := both[size..];
    assert |back| == |both| - size && forall b :: 0 <= b < |back| ==> back[b] == both[size + b];
    forall n | n in to
      ensures to[n] < |back| && n in back[to[n]]
    {
      assert n !in both[from[n]];
    }
    forall b, n | 0 <= b < |back| && n in back[b]
      ensures n in to && to[n] == b
    {
      assert n in both[size + b];
    }
  }

  lemma {:induction false} TotalBehind<N>(both: seq<seq<N>>, size: nat)
    requires size <= |both| && forall b :: 0 <= b < size ==> both[b] == []
    ensures Total(both[size..]) == Total(both)
  {
    TotalAppend(both[..size], both[size..]);
    TotalEmpty(both[..size]);
    assert both == both[..size] + both[size..];
  }

  lemma {:induction false} FamilyShape<K(0)>(entries: seq<HlistHead<K>>, chains: seq<seq<HashNode<K>>>,
      heads: set<HlistHead<K>>, nodes: set<HashNode<K>>)
    requires FamilyOk(entries, chains, heads, nodes)
    ensures |entries| == |chains|
    ensures forall b :: 0 <= b < |entries| ==> entries[b] in heads
  {}

  lemma {:induction false} FamilyGrows<K(0)>(entries: seq<HlistHead<K>>, chains: seq<seq<HashNode<K>>>,
      heads: set<HlistHead<K>>, nodes: set<HashNode<K>>, n: HashNode<K>)
    requires FamilyOk(entries, chains, heads, nodes)
    ensures FamilyOk(entries, chains, heads, nodes + {n})
  {}

  lemma {:induction false} FamilyShrinks<K(0)>(entries: seq<HlistHead<K>>, chains: seq<seq<HashNode<K>>>,
      heads: set<HlistHead<K>>, nodes: set<HashNode<K>>, n: HashNode<K>)
    requires FamilyOk(entries, chains, heads, nodes) && n.owner == null
    ensures FamilyOk(entries, chains, heads, nodes - {n})
  {
    forall b, m | 0 <= b < |chains| && m in chains[b]
      ensures m in nodes - {n}
    {
      OwnerIsBucket(entries, chains, heads, nodes, b, m);
    }
  }

  lemma {:induction false} FamilyApart<K(0)>(entries: seq<HlistHead<K>>, chains: seq<seq<HashNode<K>>>,
      heads: set<HlistHead<K>>, nodes: set<HashNode<K>>, b: nat)
    requires FamilyOk(entries, chains, heads, nodes) && b < |chains|
    ensures forall i, j :: 0 <= i < j < |chains[b]| ==> chains[b][i] != chains[b][j]
    ensures forall n :: n in chains[b] ==> n in nodes
  {
    assert ChainOk(entries[b], chains[b]);
  }

  lemma {:induction false} WithoutMembers<T>(order: seq<T>, members: set<T>, k: nat)
    requires k < |order| && forall i, j :: 0 <= i < j < |order| ==> order[i] != order[j]
    requires (forall n :: n in order ==> n in members) && (forall n :: n in members ==> n in order)
    ensures forall n :: n in Without(order, k) ==> n in members - {order[k]}
    ensures forall n :: n in members - {order[k]} ==> n in Without(order, k)
  {
    forall n | n in Without(order, k) || n in members
      ensures n in Without(order, k) <==> n in members && n != order[k]
    {
      WithoutHas(order, k, n);
    }
  }

  /** Where a walk along a chain starts. */
  lemma {:induction false} FamilyFirst<K(0)>(entries: seq<HlistHead<K>>, chains: seq<seq<HashNode<K>>>,
      heads: set<HlistHead<K>>, nodes: set<HashNode<K>>, b: nat)
    requires FamilyOk(entries, chains, heads, nodes) && b < |chains|
    ensures entries[b].first == if chains[b] == [] then null else chains[b][0]
    ensures chains[b] != [] ==> chains[b][0] in nodes && chains[b][0].hnext == At(chains[b][1..], 0)
  {
    assert ChainOk(entries[b], chains[b]);
    if chains[b] != [] {
      assert chains[b][0].hnext == At(chains[b], 1) && chains[b][0] in chains[b];
    }
  }

  lemma {:induction false} JoinFamilies<K(0)>(e0: seq<HlistHead<K>>, e1: seq<HlistHead<K>>, c0: seq<seq<HashNode<K>>>,
      c1: seq<seq<HashNode<K>>>, h0: set<HlistHead<K>>, h1: set<HlistHead<K>>, nodes: set<HashNode<K>>)
    requires FamilyOk(e0, c0, h0, nodes) && FamilyOk(e1, c1, h1, nodes) && h0 !! h1
    ensures FamilyOk(e0 + e1, c0 + c1, h0 + h1, nodes)
  {
    forall b | 0 <= b < |c0 + c1|
      ensures ChainOk((e0 + e1)[b], (c0 + c1)[b])
    {
      if b < |c0| {
        assert ChainOk(e0[b], c0[b]);
      } else {
        assert ChainOk(e1[b - |c0|], c1[b - |c0|]);
      }
    }
  }

  lemma {:induction false} SplitFamilies<K(0)>(entries: seq<HlistHead<K>>, chains: seq<seq<HashNode<K>>>, size: nat,
      all: set<HlistHead<K>>, heads: set<HlistHead<K>>, nodes: set<HashNode<K>>)
    requires FamilyOk(entries, chains, all, nodes) && size <= |entries|
    requires forall b :: size <= b < |entries| ==> entries[b] in heads
    ensures FamilyOk(entries[size..], chains[size..], heads, nodes)
  {
    forall b | 0 <= b < |chains[size..]|
      ensures ChainOk(entries[size..][b], chains[size..][b])
    {
      assert ChainOk(entries[size + b], chains[size + b]);
    }
  }

  /** The body of the inner loop of htable_expand, on the family of the old buckets followed by the new. */
  method MoveFirst<K(0)>(node: HashNode<K>, buckets: seq<HlistHead<K>>, ghost i: nat, ghost size: nat,
                         ghost all: seq<HlistHead<K>>, ghost both: seq<seq<HashNode<K>>>,
                         ghost heads: set<HlistHead<K>>, ghost nodes: set<HashNode<K>>)
    requires FamilyOk(all, both, heads, nodes)
    requires |all| == size + |buckets| && all[size..] == buckets && |buckets| > 0
    requires i < size && both[i] != [] && both[i][0] == node
    modifies heads, nodes`hnext, nodes`pprev, nodes`owner
    ensures FamilyOk(all, Move(both, size, i, node.hash % |buckets|), heads, nodes)
  {
    hide FamilyOk, ChainOk;
    FamilyShape(all, both, heads, nodes);
    FamilyApart(all, both, heads, nodes, i);
    assert node in both[i];
    Unhang(node, i, 0, all, both, heads, nodes);
    var index := node.hash % |buckets|;
    assert buckets[index] == all[size + index];
    assert Without(both[i], 0) == both[i][1..];
    FamilyApart(all, both[i := both[i][1..]], heads, nodes, size + index);
    Hang(node, buckets[index], size + index, all, both[i := both[i][1..]], heads, nodes);
  }

  /** The inner loop of htable_expand empties one bucket. */
  method EmptyBucket<K(0)>(bucket: HlistHead<K>, buckets: seq<HlistHead<K>>, ghost i: nat, ghost size: nat,
                           ghost all: seq<HlistHead<K>>, ghost start: seq<seq<HashNode<K>>>,
                           ghost heads: set<HlistHead<K>>, ghost nodes: set<HashNode<K>>,
                           ghost from: map<HashNode<K>, nat>, ghost to: map<HashNode<K>, nat>)
    returns (ghost both: seq<seq<HashNode<K>>>)
    requires FamilyOk(all, start, heads, nodes) && Moving(start, size, from, to)
    requires |all| == |start| == size + |buckets| && all[size..] == buckets && |buckets| > 0
    requires i < size && all[i] == bucket && to == Places(nodes, |buckets|)
    modifies heads, nodes`hnext, nodes`pprev, nodes`owner
    ensures |both| == |all| && FamilyOk(all, both, heads, nodes) && Moving(both, size, from, to)
    ensures Total(both) == Total(start)
    ensures both[i] == [] && forall b :: 0 <= b < size && b != i ==> both[b] == start[b]
  {
    hide FamilyOk, ChainOk, Moving, Total;
    both := start;
    FamilyFirst(all, both, heads, nodes, i);
    var node := bucket.first;
    while node != null
      invariant |both| == |all| && FamilyOk(all, both, heads, nodes) && Moving(both, size, from, to)
      invariant Total(both) == Total(start) && node == At(both[i], 0)
      invariant forall b :: 0 <= b < size && b != i ==> both[b] == start[b]
      decreases |both[i]|
    {
      FamilyFirst(all, both, heads, nodes, i);
      var next := node.hnext;
      MoveKeepsMoving(both, size, from, to, i);
      MoveKeepsTotal(both, size, i, to[both[i][0]]);
      MoveFirst(node, buckets, i, size, all, both, heads, nodes);
      both := Move(both, size, i, to[both[i][0]]);
      node := next;
    }
  }

  /** The outer loop of htable_expand. */
  method MoveAll<K(0)>(entries: seq<HlistHead<K>>, buckets: seq<HlistHead<K>>, ghost chains: seq<seq<HashNode<K>>>,
                       ghost heads: set<HlistHead<K>>, ghost added: set<HlistHead<K>>, ghost nodes: set<HashNode<K>>)
    returns (ghost moved: seq<seq<HashNode<K>>>)
    requires |buckets| > 0 && |entries| > 0 && heads !! added
    requires FamilyOk(entries, chains, heads, nodes) && Placed(chains, Places(nodes, |entries|))
    requires FamilyOk(buckets, Empty(|buckets|), added, nodes)
    modifies heads, added, nodes`hnext, nodes`pprev, nodes`owner
    ensures FamilyOk(buckets, moved, added, nodes) && Placed(moved, Places(nodes, |buckets|))
    ensures Total(moved) == Total(chains)
  {
    hide Moving, Placed, Places, Total, ChainOk, FamilyOk;
    ghost var size, all := |entries|, entries + buckets;
    ghost var both := chains + Empty<HashNode<K>>(|buckets|);
    ghost var from, to := Places(nodes, size), Places(nodes, |buckets|);
    JoinFamilies(entries, buckets, chains, Empty(|buckets|), heads, added, nodes);
    PlacesInRange(nodes, size);
    PlacesInRange(nodes, |buckets|);
    MovingStarts(chains, from, to, |buckets|);
    FamilyShape(buckets, Empty(|buckets|), added, nodes);
    FamilyShape(entries, chains, heads, nodes);
    for i := 0 to |entries|
      invariant |both| == |all| && FamilyOk(all, both, heads + added, nodes)
      invariant Moving(both, size, from, to) && Total(both) == Total(chains)
      invariant forall b :: 0 <= b < i ==> both[b] == []
    {
      both := EmptyBucket(entries[i], buckets, i, size, all, both, heads + added, nodes, from, to);
    }
    moved := both[size..];
    SplitFamilies(all, both, size, heads + added, added, nodes);
    MovingEnds(both, size, from, to);
    assert all[size..] == buckets;
  }

  /** On neither list. */
  ghost predicate Detached<K(0)>(n: HashNode<K>)
    reads n`hnext, n`pprev, n`next, n`prev
  {
    n.hnext == null && n.pprev == Unhashed && n.next == n && n.prev == n
  }

  class Table<K(0,!new)> {
    const hash: K -> nat
    const equal: (K, K) -> bool
    var primeIndex: nat
    var nrNodes: int
    var entries: seq<HlistHead<K>>
    const head: HashNode<K>
    /** The stored nodes, oldest first. */
    ghost var order: seq<HashNode<K>>
    /** What hangs on each bucket. */
    ghost var chains: seq<seq<HashNode<K>>>
    ghost var nodes: set<HashNode<K>>
    ghost var heads: set<HlistHead<K>>

    ghost predicate Valid()
      reads this, head, nodes, heads
    {
      && Stores()
      && (primeIndex == LAST_PRIME || HasRoom(nrNodes - 1, Prime(primeIndex)))
    }

    ghost predicate Stores()
      reads this, head, nodes, heads
    {
      && Linked()
      && nrNodes == |order| == Total(chains)
    }

    /** Both structures hold the same nodes. */
    ghost predicate Linked()
      reads this, head, nodes, heads
    {
      && Hashed()
      && (forall n :: n in order ==> n in nodes)
      && (forall n :: n in nodes ==> n in order)
      && Listed()
    }

    /** Every stored node hangs in its bucket. */
    ghost predicate Hashed()
      reads this`primeIndex, this`entries, this`chains, this`nodes, this`heads
      reads heads, nodes`hnext, nodes`pprev, nodes`owner, nodes`hash
    {
      && primeIndex <= LAST_PRIME
      && |entries| == Prime(primeIndex)
      && Coherent(hash, equal)
      && FamilyOk(entries, chains, heads, nodes)
      && Placed(chains, Places(nodes, |chains|))
      && (forall n :: n in nodes ==> n.hash == hash(n.key))
    }

    /** The list behind the head is the insertion order, and no two keys are equal. */
    ghost predicate Listed()
      reads this`order, head`next, head`prev, order`next, order`prev
    {
      && RingOk(head, order)
      && (forall i, j :: 0 <= i < j < |order| ==> !equal(order[i].key, order[j].key))
    }

    /** HashTable_Init. */
    constructor (hash: K -> nat, equal: (K, K) -> bool)
      requires Coherent(hash, equal)
      ensures Valid() && order == [] && fresh(head) && nodes == {} && fresh(heads) && primeIndex == 0
      ensures this.hash == hash && this.equal == equal
    {
      var buckets, added := NewEntries<K>(Prime(0));
      this.hash := hash;
      this.equal := equal;
      primeIndex := 0;
      nrNodes := 0;
      entries := buckets;
      head := new HashNode<K>.Head();
      order := [];
      chains := Empty(|buckets|);
      nodes := {};
      heads := added;
      new;
      hide FamilyOk, ChainOk, Total, Coherent;
      TotalEmpty(chains);
    }

    /** The bucket of a hash value, followed from node to node. */
    lemma ChainOf(hash: nat)
      requires Stores()
      ensures |entries| == |chains| == Prime(primeIndex) > 0
      ensures var index := hash % Prime(primeIndex);
        && entries[index].first == At(chains[index], 0)
        && forall k :: 0 <= k < |chains[index]| ==>
             chains[index][k].hnext == At(chains[index], k + 1) && chains[index][k] in order
    {
      var index := hash % Prime(primeIndex);
      assert ChainOk(entries[index], chains[index]);
      forall k | 0 <= k < |chains[index]|
        ensures chains[index][k].hnext == At(chains[index], k + 1) && chains[index][k] in order
      {
        assert chains[index][k] in chains[index];
      }
    }

    lemma FirstMatch(found: HashNode<K>, key: K)
      requires Stores() && found in order && equal(found.key, key)
      ensures Search(order, equal, key) == found
    {
      var i :| 0 <= i < |order| && order[i] == found;
      SearchFinds(order, equal, key, i);
    }

    lemma EachInItsBucket()
      requires Stores()
      ensures |chains| == Prime(primeIndex) > 0
      ensures forall n :: n in order ==> n in chains[hash(n.key) % Prime(primeIndex)]
    {
      forall n | n in order
        ensures n in chains[hash(n.key) % Prime(primeIndex)]
      {
        assert Places(nodes, |chains|)[n] == hash(n.key) % Prime(primeIndex);
      }
    }

    /** A key that its own bucket does not hold is not stored. */
    lemma NoMatch(key: K)
      requires Stores()
      requires var chain := chains[hash(key) % Prime(primeIndex)];
        forall j :: 0 <= j < |chain| ==> !equal(chain[j].key, key)
      ensures Search(order, equal, key) == null
    {
      EachInItsBucket();
      SearchMisses(order, equal, key);
    }

    /** __HashTable_Find, on any hash value; the HashTable_Find macro passes the hash of the key. */
    method FindHashed(hash: nat, key: K) returns (found: HashNode?<K>)
      requires Stores()
      ensures found != null ==> found in order && equal(found.key, key)
      ensures hash == this.hash(key) ==> found == Search(order, equal, key)
    {
      ChainOf(hash);
      var index := hash % Prime(primeIndex);
      ghost var chain := chains[index];
      found := entries[index].first;
      ghost var k := 0;
      hide Table.Stores;
      while found != null
        invariant k <= |chain| && found == At(chain, k)
        invariant forall j :: 0 <= j < k ==> !equal(chain[j].key, key)
        decreases |chain| - k
      {
        if equal(found.key, key) {
          FirstMatch(found, key);
          return;
        }
        found := found.hnext;
        k := k + 1;
      }
      if hash == this.hash(key) {
        NoMatch(key);
      }
    }

    method Find(key: K) returns (found: HashNode?<K>)
      requires Valid()
      ensures found == Search(order, equal, key)
    {
      found := FindHashed(hash(key), key);
    }

    /** get_proper_prime_index: the first prime from the current one on that has room. */
    method GetProperPrimeIndex() returns (index: nat)
      requires primeIndex <= LAST_PRIME
      ensures primeIndex <= index <= LAST_PRIME
      ensures index == LAST_PRIME || 100 * nrNodes < 65 * PRIMES[index]
      ensures forall i :: primeIndex <= i < index ==> 100 * nrNodes >= 65 * PRIMES[i]
    {
      index := primeIndex;
      while index < |PRIMES|
        invariant primeIndex <= index <= |PRIMES|
        invariant forall i :: primeIndex <= i < index ==> 100 * nrNodes >= 65 * PRIMES[i]
      {
        if HasRoom(nrNodes, Prime(index)) {
          break;
        }
        index := index + 1;
      }
      if index >= |PRIMES| {
        index := |PRIMES| - 1;
      }
    }

    /** htable_expand: every node moves, bucket by bucket, to a new array of buckets. */
    method Expand(newIndex: nat)
      requires Stores() && primeIndex < newIndex <= LAST_PRIME
      modifies this`primeIndex, this`entries, this`chains, this`heads
      modifies heads, nodes`hnext, nodes`pprev, nodes`owner
      ensures Stores() && primeIndex == newIndex && fresh(heads)
    {
      hide Hashed, Listed, Total;
      Rehash(newIndex);
    }

    method Rehash(newIndex: nat)
      requires Hashed() && primeIndex < newIndex <= LAST_PRIME
      modifies this`primeIndex, this`entries, this`chains, this`heads
      modifies heads, nodes`hnext, nodes`pprev, nodes`owner
      ensures Hashed() && primeIndex == newIndex && fresh(heads)
      ensures Total(chains) == Total(old(chains))
    {
      hide FamilyOk, ChainOk, Placed, Places, Total, Coherent;
      var buckets, added := NewEntries<K>(Prime(newIndex));
      FamilyShape(entries, chains, heads, nodes);
      ghost var moved := MoveAll(entries, buckets, chains, heads, added, nodes);
      primeIndex := newIndex;
      entries := buckets;
      chains := moved;
      heads := added;
      FamilyShape(entries, chains, heads, nodes);
    }

    /** htable_maybe_expand. */
    method MaybeExpand()
      requires Valid()
      modifies this`primeIndex, this`entries, this`chains, this`heads
      modifies heads, nodes`hnext, nodes`pprev, nodes`owner
      ensures Stores() && fresh(heads - old(heads))
      ensures Resized(nrNodes, old(primeIndex), primeIndex) && |entries| == PRIMES[primeIndex]
      ensures primeIndex == old(primeIndex) ==> entries == old(entries)
    {
      hide FamilyOk, RingOk, Placed, Places, Total, Coherent;
      if primeIndex >= |PRIMES| {
        return;
      }
      if HasRoom(nrNodes, Prime(primeIndex)) {
        return;
      }
      var newIndex := GetProperPrimeIndex();
      if newIndex <= primeIndex {
        return;
      }
      Expand(newIndex);
    }

    /** HashTable_Insert: 0 and at the end of the order, or -1 when the node is on a chain already or
        its key is taken. */
    method Insert(node: HashNode<K>) returns (r: int)
      requires Valid() && node != head
      requires node.pprev == Unhashed ==> node.owner == null
      modifies this, heads, nodes, head, node
      ensures Valid() && fresh(heads - old(heads))
      ensures r == if old(node.pprev) == Unhashed && Search(old(order), equal, node.key) == null then 0 else -1
      ensures order == old(order) + (if r == 0 then [node] else [])
      ensures nodes == old(nodes) + (if r == 0 then {node} else {})
      ensures node.hash == if old(node.pprev) == Unhashed then hash(node.key) else old(node.hash)
      ensures r == 0 ==> Resized(old(nrNodes), old(primeIndex), primeIndex) && |entries| == PRIMES[primeIndex]
      ensures primeIndex == old(primeIndex) ==> entries == old(entries)
      ensures r != 0 ==>
              unchanged(this, old(heads), old(nodes), head, node`next, node`prev, node`hnext, node`pprev, node`owner)
    {
      hide Hashed, Listed, Total, Search;
      if node.pprev != Unhashed {
        return -1;
      }
      var hash := this.hash(node.key);
      Fresh(node);
      node.hash := hash;
      var found := FindHashed(hash, node.key);
      if found != null {
        return -1;
      }
      MaybeExpand();
      Place(node);
      return 0;
    }

    /** A node on no chain is not stored. */
    lemma Fresh(node: HashNode<K>)
      requires Stores() && node.pprev == Unhashed
      ensures node !in nodes
    {
      if node in nodes {
        var b := Places(nodes, |chains|)[node];
        OwnerIsBucket(entries, chains, heads, nodes, b, node);
      }
    }

    /** The end of HashTable_Insert. */
    method Place(node: HashNode<K>)
      requires Stores() && node != head && node !in nodes && node.owner == null && node.hash == hash(node.key)
      requires Search(order, equal, node.key) == null
      requires primeIndex == LAST_PRIME || HasRoom(nrNodes, Prime(primeIndex))
      modifies this`nrNodes, this`order, this`chains, this`nodes, heads, head`next, head`prev
      modifies nodes`pprev, nodes`next, node`next, node`prev, node`hnext, node`pprev, node`owner
      ensures Valid() && order == old(order) + [node] && nodes == old(nodes) + {node}
    {
      hide Hashed, Listed, Total;
      SearchMisses(order, equal, node.key);
      HangNode(node);
      ListNode(node);
      nrNodes := nrNodes + 1;
    }

    method HangNode(node: HashNode<K>)
      requires Hashed() && node !in nodes && node.owner == null && node.hash == hash(node.key)
      modifies this`chains, this`nodes, heads, nodes`pprev, node`hnext, node`pprev, node`owner
      ensures Hashed() && nodes == old(nodes) + {node} && Total(chains) == Total(old(chains)) + 1
    {
      hide FamilyOk, ChainOk, Placed, Places, Total, Coherent;
      var index := node.hash % Prime(primeIndex);
      FamilyShape(entries, chains, heads, nodes);
      PlacesInRange(nodes, |chains|);
      PlacedAfterHang(chains, Places(nodes, |chains|), node, index);
      PlacesAfter(nodes, |chains|, node);
      FamilyGrows(entries, chains, heads, nodes, node);
      TotalUpdate(chains, index, [node] + chains[index]);
      nodes := nodes + {node};
      Hang(node, entries[index], index, entries, chains, heads, nodes);
      chains := chains[index := [node] + chains[index]];
    }

    method ListNode(node: HashNode<K>)
      requires Listed() && node != head && node !in order
      requires forall n :: n in order ==> !equal(n.key, node.key)
      modifies this`order, head`next, head`prev, order`next, node`next, node`prev
      ensures Listed() && order == old(order) + [node]
    {
      hide RingOk;
      ListAddTail(node, head, order);
      order := order + [node];
    }

    /** HashTable_Remove: 0 exactly for the stored nodes. */
    method Remove(node: HashNode<K>) returns (r: int)
      requires Valid()
      modifies this`nrNodes, this`order, this`chains, this`nodes, heads, nodes, head
      ensures Valid()
      ensures r == if node in old(order) then 0 else -1
      ensures r == 0 ==> exists k ::
                0 <= k < |old(order)| && old(order)[k] == node && order == old(order)[..k] + old(order)[k + 1..]
      ensures r == 0 ==> nodes == old(nodes) - {node}
      ensures r == 0 ==> Detached(node) && node.owner == null
      ensures r != 0 ==> unchanged(this, old(heads), old(nodes), head)
    {
      hide Hashed, Listed, Total, Search, Without;
      if node.pprev == Unhashed {
        Fresh(node);
        return -1;
      }
      var found := FindHashed(node.hash, node.key);
      FindsStored(node);
      if found == null || found != node {
        return -1;
      }
      ghost var k :| 0 <= k < |order| && order[k] == node;
      WithoutIs(order, k);
      TakeOut(node, k);
      return 0;
    }

    /** The end of HashTable_Remove. */
    method TakeOut(node: HashNode<K>, ghost k: nat)
      requires Valid() && k < |order| && order[k] == node
      modifies this`nrNodes, this`order, this`chains, this`nodes, heads, nodes, head
      ensures Valid() && order == Without(old(order), k) && nodes == old(nodes) - {node}
      ensures Detached(node) && node.owner == null
    {
      hide Hashed, Listed, Total, Without;
      WithoutMembers(order, nodes, k) by {
        ListedApart();
      }
      UnhangNode(node);
      UnlistNode(node, k);
      nrNodes := nrNodes - 1;
    }

    /** Looking a stored node up by its own hash and key finds it. */
    lemma FindsStored(node: HashNode<K>)
      requires Stores()
      ensures node in order ==> node.hash == hash(node.key) && Search(order, equal, node.key) == node
    {
      if node in order {
        var k :| 0 <= k < |order| && order[k] == node;
        SearchFinds(order, equal, node.key, k);
      }
    }

    lemma ListedApart()
      requires Listed()
      ensures forall i, j :: 0 <= i < j < |order| ==> order[i] != order[j]
    {}

    method UnhangNode(node: HashNode<K>)
      requires Hashed() && node in nodes
      modifies this`chains, this`nodes, heads, nodes`hnext, nodes`pprev, nodes`owner
      ensures Hashed() && nodes == old(nodes) - {node} && Total(chains) == Total(old(chains)) - 1
      ensures node.hnext == null && node.pprev == Unhashed && node.owner == null
    {
      hide FamilyOk, ChainOk, Placed, Places, Total, Coherent;
      FamilyShape(entries, chains, heads, nodes);
      ghost var b, k := Locate(node);
      FamilyApart(entries, chains, heads, nodes, b);
      PlacedAfterUnhang(chains, Places(nodes, |chains|), b, k);
      PlacesWithout(nodes, |chains|, node);
      TotalUpdate(chains, b, Without(chains[b], k));
      Unhang(node, b, k, entries, chains, heads, nodes);
      chains := chains[b := Without(chains[b], k)];
      FamilyShrinks(entries, chains, heads, nodes, node);
      nodes := nodes - {node};
    }

    lemma Locate(node: HashNode<K>) returns (b: nat, k: nat)
      requires Hashed() && node in nodes
      ensures b < |chains| && k < |chains[b]| && chains[b][k] == node
    {
      b := Places(nodes, |chains|)[node];
      k :| 0 <= k < |chains[b]| && chains[b][k] == node;
    }

    method UnlistNode(node: HashNode<K>, ghost k: nat)
      requires Listed() && k < |order| && order[k] == node
      modifies this`order, head`next, head`prev, order`next, order`prev
      ensures Listed() && order == Without(old(order), k)
      ensures node.next == node && node.prev == node
    {
      hide RingOk;
      ListDel(node, head, order, k);
      order := Without(order, k);
    }

    lemma RingStart()
      requires Linked()
      ensures head.next == Round(head, order, 1) && head.next.next == Round(head, order, 2)
      ensures head !in order && (order == [] ==> nodes == {})
    {
      assert Round(head, order, 0).next == Round(head, order, 1);
      if order != [] {
        assert Round(head, order, 1).next == Round(head, order, 2);
      }
    }

    /** list_del and hlist_del of the oldest node. */
    method DropFirst(node: HashNode<K>)
      requires Linked() && order != [] && node == order[0]
      modifies this`order, this`chains, this`nodes, heads, head`next, head`prev, nodes
      ensures Linked() && order == old(order)[1..] && nodes == old(nodes) - {node} && Detached(node)
      ensures node in old(nodes) && node != head
    {
      hide Hashed, Listed, Total;
      RingStart();
      WithoutMembers(order, nodes, 0) by {
        ListedApart();
      }
      assert Without(order, 0) == order[1..];
      UnlistNode(node, 0);
      UnhangNode(node);
    }

    /** HashTable_Fini: visits the nodes oldest first, each taken off both lists before its visit. */
    method Fini() returns (visited: seq<HashNode<K>>)
      requires Valid()
      modifies this, heads, nodes, head
      ensures visited == old(order) && order == [] && nodes == {}
      ensures forall n :: n in visited ==> Detached(n)
      ensures nrNodes == 0 && primeIndex == 0 && entries == []
    {
      hide Linked, Total, Search, Detached;
      visited := [];
      RingStart();
      var pos := head.next;
      var next := pos.next;
      while pos != head
        invariant Linked() && heads == old(heads) && nodes <= old(nodes)
        invariant visited + order == old(order)
        invariant forall n :: n in visited ==> n !in nodes && n != head && Detached(n)
        invariant pos == Round(head, order, 1) && next == Round(head, order, 2)
        decreases |order|
      {
        DropFirst(pos);
        visited := visited + [pos];
        pos := next;
        RingStart();
        next := pos.next;
      }
      RingStart();
      entries := [];
      primeIndex := 0;
      nrNodes := 0;
    }

    /** HashTable_Visit: the stored nodes, oldest first. */
    method Visit() returns (visited: seq<HashNode<K>>)
      requires Valid()
      ensures visited == order
    {
      visited := [];
      var pos := head.next;
      assert Round(head, order, 0).next == Round(head, order, 1);
      while pos != head
        invariant |visited| <= |order| && visited == order[..|visited|]
        invariant pos == Round(head, order, |visited| + 1)
        decreases |order| - |visited|
      {
        visited := visited + [pos];
        assert Round(head, order, |visited|).next == Round(head, order, |visited| + 1);
        pos := pos.next;
      }
    }
  }

  ghost function Empty<T>(n: nat): seq<seq<T>> {
    seq(n, b => [])
  }

  /** new_entries: empty buckets. */
  method NewEntries<K(0)>(n: nat) returns (entries: seq<HlistHead<K>>, ghost heads: set<HlistHead<K>>)
    ensures |entries| == n && fresh(heads)
    ensures forall nodes :: FamilyOk(entries, Empty(n), heads, nodes)
  {
    entries := [];
    heads := {};
    for i := 0 to n
      invariant |entries| == i && fresh(heads)
      invariant forall j, k :: 0 <= j < k < i ==> entries[j] != entries[k]
      invariant forall b :: 0 <= b < i ==> entries[b] in heads && entries[b].first == null
    {
      var bucket := new HlistHead<K>();
      entries := entries + [bucket];
      heads := heads + {bucket};
    }
  }
}
