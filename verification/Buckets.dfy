/** A family of conflict chains: bucket b holds exactly the nodes of chains[b], in that order.

    A node hangs on at most one bucket, so hanging or unhanging a node changes one chain and leaves
    the others alone (src/hashtable.c uses hlist_add and hlist_del in this way throughout).
  */
module Buckets {
  import opened IntrusiveLists

  ghost predicate FamilyOk<K(0)>(entries: seq<HlistHead<K>>, chains: seq<seq<HashNode<K>>>,
                                 heads: set<HlistHead<K>>, nodes: set<HashNode<K>>)
    reads heads, nodes`hnext, nodes`pprev, nodes`owner
  {
    && |entries| == |chains|
    && (forall i, j :: 0 <= i < j < |entries| ==> entries[i] != entries[j])
    && (forall b :: 0 <= b < |entries| ==> entries[b] in heads)
    && (forall b, n :: 0 <= b < |chains| && n in chains[b] ==> n in nodes)
    && (forall b :: 0 <= b < |chains| ==> ChainOk(entries[b], chains[b]))
  }

  /** The owner of a node names its bucket. */
  lemma {:induction false} OwnerIsBucket<K(0)>(entries: seq<HlistHead<K>>, chains: seq<seq<HashNode<K>>>,
      heads: set<HlistHead<K>>, nodes: set<HashNode<K>>, b: nat, n: HashNode<K>)
    requires FamilyOk(entries, chains, heads, nodes)
    requires b < |chains| && n in chains[b]
    ensures n.owner == entries[b] && n.pprev != Unhashed
    ensures forall c :: 0 <= c < |chains| && c != b ==> n !in chains[c]
  {
    assert ChainOk(entries[b], chains[b]);
    var k :| 0 <= k < |chains[b]| && chains[b][k] == n;
    assert chains[b][k].owner == entries[b] && chains[b][k].pprev == SlotOf(entries[b], chains[b], k);
    forall c | 0 <= c < |chains| && n in chains[c]
      ensures n.owner == entries[c]
    {
      assert ChainOk(entries[c], chains[c]);
      var j :| 0 <= j < |chains[c]| && chains[c][j] == n;
      assert chains[c][j].owner == entries[c];
    }
  }

  method Hang<K(0)>(n: HashNode<K>, bucket: HlistHead<K>, ghost b: nat, ghost entries: seq<HlistHead<K>>,
                    ghost chains: seq<seq<HashNode<K>>>, ghost heads: set<HlistHead<K>>, ghost nodes: set<HashNode<K>>)
    requires FamilyOk(entries, chains, heads, nodes)
    requires b < |entries| && bucket == entries[b] && n in nodes && n.owner == null
    modifies bucket, n`hnext, n`pprev, n`owner, chains[b]`pprev
    ensures FamilyOk(entries, chains[b := [n] + chains[b]], heads, nodes)
    ensures n.owner == bucket
  {
    forall c, m | 0 <= c < |chains| && m in chains[c]
      ensures m != n && (c != b ==> m !in chains[b])
    {
      OwnerIsBucket(entries, chains, heads, nodes, c, m);
    }
    assert ChainOk(entries[b], chains[b]);
    HlistAdd(n, bucket, chains[b]);
    ghost var longer := chains[b := [n] + chains[b]];
    forall c | 0 <= c < |longer|
      ensures ChainOk(entries[c], longer[c])
    {
      if c != b {
        ghost var chain := chains[c];
        assert old(ChainOk(entries[c], chain));
        forall k | 0 <= k < |chain|
          ensures chain[k] != n && chain[k] !in chains[b]
        {
          assert chain[k] in chains[c];
        }
        assert entries[c] != bucket;
        assert forall k {:trigger chain[k].pprev} :: 0 <= k < |chain| ==> chain[k].pprev == old(chain[k].pprev);
        assert ChainOk(entries[c], chain);
      }
    }
    assert longer[b][0] == n;
  }

  method Unhang<K(0)>(n: HashNode<K>, ghost b: nat, ghost k: nat, ghost entries: seq<HlistHead<K>>,
                      ghost chains: seq<seq<HashNode<K>>>, ghost heads: set<HlistHead<K>>,
                      ghost nodes: set<HashNode<K>>)
    requires FamilyOk(entries, chains, heads, nodes)
    requires b < |entries| && k < |chains[b]| && chains[b][k] == n
    modifies entries[b], chains[b]`hnext, chains[b]`pprev, n`owner
    ensures FamilyOk(entries, chains[b := Without(chains[b], k)], heads, nodes)
    ensures n.hnext == null && n.pprev == Unhashed && n.owner == null
  {
    forall c, m | 0 <= c < |chains| && m in chains[c]
      ensures c != b ==> m !in chains[b]
    {
      OwnerIsBucket(entries, chains, heads, nodes, c, m);
    }
    assert ChainOk(entries[b], chains[b]);
    HlistDel(n, entries[b], chains[b], k);
    ghost var shorter := chains[b := Without(chains[b], k)];
    forall c | 0 <= c < |shorter|
      ensures ChainOk(entries[c], shorter[c])
    {
      if c != b {
        ghost var chain := chains[c];
        assert old(ChainOk(entries[c], chain));
        forall j | 0 <= j < |chain|
          ensures chain[j] != n && chain[j] !in chains[b]
        {
          assert chain[j] in chains[c] && n in chains[b];
        }
        assert entries[c] != entries[b];
        assert forall k {:trigger chain[k].pprev} :: 0 <= k < |chain| ==> chain[k].pprev == old(chain[k].pprev);
        assert forall k {:trigger chain[k].hnext} :: 0 <= k < |chain| ==> chain[k].hnext == old(chain[k].hnext);
        assert ChainOk(entries[c], chain);
      }
    }
    forall c, m | 0 <= c < |shorter| && m in shorter[c]
      ensures m in nodes
    {
      assert m in chains[c];
    }
  }

  // ---------------------------------------------------------------- counting

  ghost function Total<T>(chains: seq<seq<T>>): nat {
    if chains == [] then 0 else |chains[0]| + Total(chains[1..])
  }

  lemma {:induction false} TotalUpdate<T>(chains: seq<seq<T>>, i: nat, chain: seq<T>)
    requires i < |chains|
    ensures Total(chains[i := chain]) == Total(chains) - |chains[i]| + |chain|
  {
    if i == 0 {
      assert chains[i := chain][1..] == chains[1..];
    } else {
      TotalUpdate(chains[1..], i - 1, chain);
      assert chains[i := chain][1..] == chains[1..][i - 1 := chain];
    }
  }

  lemma {:induction false} TotalEmpty<T>(chains: seq<seq<T>>)
    requires forall b :: 0 <= b < |chains| ==> chains[b] == []
    ensures Total(chains) == 0
  {
    if chains != [] {
      TotalEmpty(chains[1..]);
    }
  }

  lemma {:induction false} TotalAppend<T>(a: seq<seq<T>>, b: seq<seq<T>>)
    ensures Total(a + b) == Total(a) + Total(b)
  {
    if a == [] {
      assert a + b == b;
    } else {
      TotalAppend(a[1..], b);
      assert (a + b)[1..] == a[1..] + b;
    }
  }
}
