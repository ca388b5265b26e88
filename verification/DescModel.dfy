/** The graph of interned descriptors: what a node stands for and who refers to it. */
module DescModel {
  import opened Basics
  import opened TypeDesc

  type NodeId = nat

  /** A descriptor node; components are other nodes. */
  datatype Body =
    | BaseNode(kind: char)
    | KlassNode(path: Option<string>, name: string)
    | ProtoNode(args: seq<NodeId>, rets: seq<NodeId>)
    | ArrayNode(dims: nat, base: NodeId)
    | MapNode(key: NodeId, val: NodeId)
    | SetNode(base: NodeId)
    | VargNode(base: NodeId)

  /** The components a node holds a reference to, in the order in which they are released. */
  function Children(body: Body): seq<NodeId> {
    match body
    case BaseNode(_) => []
    case KlassNode(_, _) => []
    case ProtoNode(args, rets) => args + rets
    case ArrayNode(_, base) => [base]
    case MapNode(key, val) => [key, val]
    case SetNode(base) => [base]
    case VargNode(base) => [base]
  }

  predicate Below(ids: seq<NodeId>, n: nat) {
    forall k :: 0 <= k < |ids| ==> ids[k] < n
  }

  /** Components are created before the node that uses them. */
  ghost predicate Layered(bodies: seq<Body>) {
    forall i :: 0 <= i < |bodies| ==> Below(Children(bodies[i]), i)
  }

  ghost function DenoteBody(bodies: seq<Body>, body: Body, n: nat): Desc
    requires Layered(bodies) && n <= |bodies| && Below(Children(body), n)
    decreases n, 1
  {
    match body
    case BaseNode(kind) => Base(kind)
    case KlassNode(path, name) => Klass(path, name)
    case ProtoNode(args, rets) =>
      assert Children(body)[..|args|] == args && Children(body)[|args|..] == rets;
      BelowParts(args, rets, n);
      Proto(DenoteList(bodies, args, n), DenoteList(bodies, rets, n))
    case ArrayNode(dims, base) => assert Children(body)[0] == base; Array(dims, Denote(bodies, base))
    case MapNode(key, val) =>
      assert Children(body)[0] == key && Children(body)[1] == val;
      Map(Denote(bodies, key), Denote(bodies, val))
    case SetNode(base) => assert Children(body)[0] == base; Set(Denote(bodies, base))
    case VargNode(base) => assert Children(body)[0] == base; Varg(Denote(bodies, base))
  }

  lemma {:induction false} BelowParts(a: seq<NodeId>, b: seq<NodeId>, n: nat)
    requires Below(a + b, n)
    ensures Below(a, n) && Below(b, n)
  {
    assert forall k :: 0 <= k < |a| ==> (a + b)[k] == a[k];
    assert forall k :: 0 <= k < |b| ==> (a + b)[|a| + k] == b[k];
  }

  /** The descriptor a node stands for. */
  ghost function Denote(bodies: seq<Body>, i: NodeId): Desc
    requires Layered(bodies) && i < |bodies|
    decreases i, 2
  {
    DenoteBody(bodies, bodies[i], i)
  }

  ghost function DenoteList(bodies: seq<Body>, ids: seq<NodeId>, n: nat): (ds: seq<Desc>)
    requires Layered(bodies) && n <= |bodies| && Below(ids, n)
    ensures |ds| == |ids|
    decreases n, 0, |ids|
  {
    if ids == [] then []
    else
      assert ids[0] < n;
      assert forall k :: 0 <= k < |ids[1..]| ==> ids[1..][k] == ids[k + 1];
      [Denote(bodies, ids[0])] + DenoteList(bodies, ids[1..], n)
  }

  /** Adding nodes leaves the old ones as they were. */
  lemma {:induction false} DenoteBodyStable(bodies: seq<Body>, more: seq<Body>, body: Body, n: nat)
    requires Layered(bodies) && Layered(more) && bodies <= more && n <= |bodies| && Below(Children(body), n)
    ensures DenoteBody(more, body, n) == DenoteBody(bodies, body, n)
    decreases n, 1
  {
    match body
    case BaseNode(_) =>
    case KlassNode(_, _) =>
    case ProtoNode(args, rets) =>
      BelowParts(args, rets, n);
      DenoteListStable(bodies, more, args, n);
      DenoteListStable(bodies, more, rets, n);
    case ArrayNode(_, base) => assert Children(body)[0] == base; DenoteStable(bodies, more, base);
    case MapNode(key, val) =>
      assert Children(body)[0] == key && Children(body)[1] == val;
      DenoteStable(bodies, more, key);
      DenoteStable(bodies, more, val);
    case SetNode(base) => assert Children(body)[0] == base; DenoteStable(bodies, more, base);
    case VargNode(base) => assert Children(body)[0] == base; DenoteStable(bodies, more, base);
  }

  lemma {:induction false} DenoteStable(bodies: seq<Body>, more: seq<Body>, i: NodeId)
    requires Layered(bodies) && Layered(more) && bodies <= more && i < |bodies|
    ensures Denote(more, i) == Denote(bodies, i)
    decreases i, 2
  {
    DenoteBodyStable(bodies, more, bodies[i], i);
  }

  lemma {:induction false} DenoteListStable(bodies: seq<Body>, more: seq<Body>, ids: seq<NodeId>, n: nat)
    requires Layered(bodies) && Layered(more) && bodies <= more && n <= |bodies| && Below(ids, n)
    ensures DenoteList(more, ids, n) == DenoteList(bodies, ids, n)
    decreases n, 0, |ids|
  {
    if ids != [] {
      DenoteStable(bodies, more, ids[0]);
      DenoteListStable(bodies, more, ids[1..], n);
    }
  }

  lemma {:induction false} DenoteListAppend(bodies: seq<Body>, ids: seq<NodeId>, id: NodeId, n: nat)
    requires Layered(bodies) && n <= |bodies| && Below(ids, n) && id < n
    ensures Below(ids + [id], n)
    ensures DenoteList(bodies, ids + [id], n) == DenoteList(bodies, ids, n) + [Denote(bodies, id)]
    decreases |ids|
  {
    if ids != [] {
      DenoteListAppend(bodies, ids[1..], id, n);
      assert (ids + [id])[1..] == ids[1..] + [id];
    }
  }

  /** The bound given for the components does not matter. */
  /** A list keeps its meaning while nodes are added. */
  lemma {:induction false} DenoteListGrows(bodies: seq<Body>, more: seq<Body>, ids: seq<NodeId>)
    requires Layered(bodies) && Layered(more) && bodies <= more && Below(ids, |bodies|)
    ensures Below(ids, |more|) && DenoteList(more, ids, |more|) == DenoteList(bodies, ids, |bodies|)
  {
    DenoteListStable(bodies, more, ids, |bodies|);
    DenoteListBound(more, ids, |bodies|, |more|);
  }

  lemma {:induction false} DenoteListBound(bodies: seq<Body>, ids: seq<NodeId>, m: nat, n: nat)
    requires Layered(bodies) && m <= |bodies| && n <= |bodies| && Below(ids, m) && Below(ids, n)
    ensures DenoteList(bodies, ids, m) == DenoteList(bodies, ids, n)
    decreases |ids|
  {
    if ids != [] {
      DenoteListBound(bodies, ids[1..], m, n);
    }
  }

  // ---------------------------------------------------------------- references

  /** The components of every node. */
  function AllChildren(bodies: seq<Body>): (kids: seq<seq<NodeId>>)
    ensures |kids| == |bodies|
  {
    seq(|bodies|, i requires 0 <= i < |bodies| => Children(bodies[i]))
  }

  /** How often the first n nodes refer to x, leaving out the ones already freed. */
  ghost function Edges(kids: seq<seq<NodeId>>, freed: seq<bool>, x: NodeId, n: nat): nat
    requires n <= |kids| == |freed|
  {
    if n == 0 then 0
    else Edges(kids, freed, x, n - 1) + if freed[n - 1] then 0 else multiset(kids[n - 1])[x]
  }

  lemma {:induction false} EdgesAppend(kids: seq<seq<NodeId>>, freed: seq<bool>, last: seq<NodeId>, x: NodeId, n: nat)
    requires n <= |kids| == |freed|
    ensures Edges(kids + [last], freed + [false], x, n) == Edges(kids, freed, x, n)
  {
    if n > 0 {
      EdgesAppend(kids, freed, last, x, n - 1);
      assert (kids + [last])[n - 1] == kids[n - 1];
      assert (freed + [false])[n - 1] == freed[n - 1];
    }
  }

  /** Freeing a node takes exactly its own references out of the count. */
  lemma {:induction false} EdgesFree(kids: seq<seq<NodeId>>, freed: seq<bool>, j: NodeId, x: NodeId, n: nat)
    requires j < n <= |kids| == |freed| && !freed[j]
    ensures Edges(kids, freed[j := true], x, n) == Edges(kids, freed, x, n) - multiset(kids[j])[x]
  {
    if j == n - 1 {
      EdgesFreeAbove(kids, freed, j, x, n - 1);
    } else {
      EdgesFree(kids, freed, j, x, n - 1);
    }
  }

  lemma {:induction false} EdgesFreeAbove(kids: seq<seq<NodeId>>, freed: seq<bool>, j: NodeId, x: NodeId, n: nat)
    requires n <= j < |kids| == |freed|
    ensures Edges(kids, freed[j := true], x, n) == Edges(kids, freed, x, n)
  {
    if n > 0 {
      EdgesFreeAbove(kids, freed, j, x, n - 1);
    }
  }

  /** Nobody refers to x once every node created after it is freed or refers to nothing. */
  lemma {:induction false} NoEdgesFromFreed(kids: seq<seq<NodeId>>, freed: seq<bool>, x: NodeId, n: nat)
    requires n <= |kids| == |freed|
    requires forall i :: 0 <= i < |kids| ==> Below(kids[i], i)
    requires forall p :: x < p < n ==> freed[p] || kids[p] == []
    ensures Edges(kids, freed, x, n) == 0
  {
    if n > 0 {
      NoEdgesFromFreed(kids, freed, x, n - 1);
      var p := n - 1;
      if !freed[p] && p <= x {
        assert x !in kids[p] by {
          assert Below(kids[p], p);
        }
      }
    }
  }

  lemma {:induction false} NoLaterEdges(bodies: seq<Body>, freed: seq<bool>, k: NodeId)
    requires Layered(bodies) && |freed| == |bodies|
    requires forall p :: k < p < |bodies| ==> freed[p] || bodies[p].BaseNode?
    ensures Edges(AllChildren(bodies), freed, k, |bodies|) == 0
  {
    NoEdgesFromFreed(AllChildren(bodies), freed, k, |bodies|);
  }

  /** A new node adds the references it holds, and no other. */
  lemma {:induction false} EdgesOfNew(bodies: seq<Body>, freed: seq<bool>, body: Body, k: NodeId)
    requires |freed| == |bodies|
    ensures Edges(AllChildren(bodies + [body]), freed + [false], k, |bodies| + 1)
         == Edges(AllChildren(bodies), freed, k, |bodies|) + multiset(Children(body))[k]
  {
    var kids := AllChildren(bodies);
    assert AllChildren(bodies + [body]) == kids + [Children(body)];
    EdgesAppend(kids, freed, Children(body), k, |bodies|);
  }
}
