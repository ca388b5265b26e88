/** The package tree as linked nodes (src/pkgnode.c).  Its hash table is keyed by parent and name. */
module PkgTree {
  import opened Basics
  import opened PathTree

  class PkgNode<D> {
    const name: string
    /** The root is its own parent. */
    const parent: PkgNode<D>
    var leaf: bool
    var data: Option<D>
    var children: seq<PkgNode<D>>

    constructor Root()
      ensures !leaf && children == [] && parent == this
    {
      name := "/";
      parent := this;
      leaf := false;
      data := None;
      children := [];
    }

    /** new_pkgnode. */
    constructor (name: string, parent: PkgNode<D>, leaf: bool, data: Option<D>)
      ensures this.name == name && this.parent == parent && this.leaf == leaf && this.data == data && children == []
    {
      this.name := name;
      this.parent := parent;
      this.leaf := leaf;
      this.data := data;
      children := [];
    }
  }

  datatype Outcome<D> =
    | LeafInTheWay            // an assertion fails
    | Taken                   // a null result
    | New(node: PkgNode<D>)

  /** Every node but the root hangs below the node of the shorter list and is in the hash table under its
      parent and name; nothing else is in the hash table. */
  ghost predicate Linked<D>(root: PkgNode<D>, nodes: map<seq<string>, PkgNode<D>>,
                                   table: map<(PkgNode<D>, string), PkgNode<D>>) {
    && [] in nodes && nodes[[]] == root
    && (forall cs {:trigger HangsBelow(nodes, table, cs)} :: cs in nodes && cs != [] ==> HangsBelow(nodes, table, cs))
    && (forall cs, ds :: cs in nodes && ds in nodes && nodes[cs] == nodes[ds] ==> cs == ds)
    && (forall key :: key in table ==>
             exists cs :: cs in nodes && cs != [] && (nodes[cs].parent, nodes[cs].name) == key)
  }

  ghost predicate HangsBelow<D>(nodes: map<seq<string>, PkgNode<D>>, table: map<(PkgNode<D>, string), PkgNode<D>>,
          cs: seq<string>)
    requires cs != [] && cs in nodes
  {
    var up, key := cs[..|cs| - 1], (nodes[cs].parent, nodes[cs].name);
    && up in nodes && nodes[cs].parent == nodes[up] && nodes[cs].name == cs[|cs| - 1]
    && key in table && table[key] == nodes[cs]
  }

  /** Leaves carry data and have nothing below them. */
  ghost predicate LeavesOk<D>(nodes: map<seq<string>, PkgNode<D>>)
    reads nodes.Values`leaf, nodes.Values`data
  {
    forall cs {:trigger LeafOk(nodes, cs)} :: cs in nodes ==> LeafOk(nodes, cs)
  }

  ghost predicate LeafOk<D>(nodes: map<seq<string>, PkgNode<D>>, cs: seq<string>)
    requires cs in nodes
    reads nodes.Values`leaf, nodes.Values`data
  {
    && (IsLeaf(nodes[cs]) ==> nodes[cs].data.Some? && cs != [])
    && (cs != [] && cs[..|cs| - 1] in nodes ==> !IsLeaf(nodes[cs[..|cs| - 1]]))
  }

  ghost predicate IsLeaf<D>(node: PkgNode<D>)
    reads node`leaf
  {
    node.leaf
  }

  /** The vector of a node holds exactly its children, each once. */
  ghost predicate ChildrenOk<D>(nodes: map<seq<string>, PkgNode<D>>, cs: seq<string>, node: PkgNode<D>)
    reads node`children
  {
    var children := node.children;
    && (forall i :: 0 <= i < |children| ==>
             cs + [children[i].name] in nodes && nodes[cs + [children[i].name]] == children[i])
    && (forall i, j :: 0 <= i < j < |children| ==> children[i] != children[j])
    && (forall name :: cs + [name] in nodes ==> nodes[cs + [name]] in children)
  }

  ghost predicate AllChildrenOk<D>(nodes: map<seq<string>, PkgNode<D>>)
    reads nodes.Values`children
  {
    forall cs {:trigger ChildrenOk(nodes, cs, nodes[cs])} :: cs in nodes ==>
             nodes[cs] in nodes.Values && ChildrenOk(nodes, cs, nodes[cs])
  }

  lemma {:induction false} LinkedGrows<D>(root: PkgNode<D>, nodes: map<seq<string>, PkgNode<D>>,
      table: map<(PkgNode<D>, string), PkgNode<D>>, cs: seq<string>, node: PkgNode<D>)
    requires Linked(root, nodes, table) && cs in nodes && node !in nodes.Values
    requires node.parent == nodes[cs] && cs + [node.name] !in nodes
    ensures Linked(root, nodes[cs + [node.name] := node], table[(node.parent, node.name) := node])
  {
    hide HangsBelow;
    var ds, key := cs + [node.name], (node.parent, node.name);
    var nodes', table' := nodes[ds := node], table[key := node];
    forall es | es in nodes' && es != []
      ensures HangsBelow(nodes', table', es)
    {
      if es == ds {
        NewHangs(nodes, table, cs, node);
      } else {
        StillHangs(nodes, table, cs, node, es);
      }
    }
    forall k | k in table'
      ensures exists es :: es in nodes' && es != [] && (nodes'[es].parent, nodes'[es].name) == k
    {
      KeyStillUsed(nodes, table, cs, node, k);
    }
    forall es | es in nodes
      ensures nodes[es] != node
    {
      assert nodes[es] in nodes.Values;
    }
  }

  lemma {:induction false} NewHangs<D>(nodes: map<seq<string>, PkgNode<D>>,
      table: map<(PkgNode<D>, string), PkgNode<D>>, cs: seq<string>, node: PkgNode<D>)
    requires cs in nodes && node.parent == nodes[cs] && cs + [node.name] !in nodes
    ensures HangsBelow(nodes[cs + [node.name] := node], table[(node.parent, node.name) := node], cs + [node.name])
  {
    assert (cs + [node.name])[..|cs|] == cs;
  }

  lemma {:induction false} KeyStillUsed<D>(nodes: map<seq<string>, PkgNode<D>>,
      table: map<(PkgNode<D>, string), PkgNode<D>>, cs: seq<string>, node: PkgNode<D>, k: (PkgNode<D>, string))
    requires forall key :: key in table ==>
               exists es :: es in nodes && es != [] && (nodes[es].parent, nodes[es].name) == key
    requires cs + [node.name] !in nodes && (k == (node.parent, node.name) || k in table)
    ensures var nodes' := nodes[cs + [node.name] := node];
      exists es :: es in nodes' && es != [] && (nodes'[es].parent, nodes'[es].name) == k
  {
    var nodes' := nodes[cs + [node.name] := node];
    if k == (node.parent, node.name) {
      assert nodes'[cs + [node.name]] == node;
    } else {
      var es :| es in nodes && es != [] && (nodes[es].parent, nodes[es].name) == k;
      assert nodes'[es] == nodes[es];
    }
  }

  lemma {:induction false} StillHangs<D>(nodes: map<seq<string>, PkgNode<D>>,
      table: map<(PkgNode<D>, string), PkgNode<D>>, cs: seq<string>, node: PkgNode<D>, es: seq<string>)
    requires es != [] && es in nodes && HangsBelow(nodes, table, es) && cs in nodes
    requires node.parent == nodes[cs] && cs + [node.name] !in nodes
    requires forall xs, ys :: xs in nodes && ys in nodes && nodes[xs] == nodes[ys] ==> xs == ys
    ensures HangsBelow(nodes[cs + [node.name] := node], table[(node.parent, node.name) := node], es)
  {
    assert es == es[..|es| - 1] + [nodes[es].name];
  }

  ghost function KindOf<D>(node: PkgNode<D>): Kind<D>
    reads node`leaf, node`data
  {
    if node.leaf && node.data.Some? then Leaf(node.data.value) else Dir
  }

  class PkgState<D> {
    const root: PkgNode<D>
    var table: map<(PkgNode<D>, string), PkgNode<D>>
    /** The node of each component list. */
    ghost var nodes: map<seq<string>, PkgNode<D>>
    /** The paths added so far, those that were there already included. */
    ghost var adds: seq<Added<D>>

    /** The linked nodes are the tree that the additions make. */
    ghost predicate Valid()
      reads this, nodes.Values
    {
      Built() && Paths(adds) && AddAll(adds) == Some(Tree())
    }

    ghost predicate Built()
      reads this, nodes.Values
    {
      Linked(root, nodes, table) && LeavesOk(nodes) && AllChildrenOk(nodes)
    }

    /** What the nodes stand for. */
    ghost function Tree(): (t: PathTree.Tree<D>)
      requires Built()
      reads this, nodes.Values
      ensures t.Keys == nodes.Keys
    {
      map cs | cs in nodes :: KindOf(nodes[cs])
    }

    /** Init_PkgState. */
    constructor ()
      ensures Valid() && Tree() == map[[] := Dir]
      ensures fresh(root) && nodes == map[[] := root] && adds == []
    {
      var node := new PkgNode<D>.Root();
      root := node;
      table := map[];
      nodes := map[[] := node];
      adds := [];
      new;
      assert Tree() == map[[] := Dir];
    }

    /** find_node. */
    method FindNode(name: string, parent: PkgNode<D>, ghost cs: seq<string>) returns (node: PkgNode?<D>)
      requires Built() && cs in nodes && nodes[cs] == parent
      ensures if cs + [name] in nodes then node == nodes[cs + [name]] else node == null
    {
      hide LeavesOk, AllChildrenOk;
      ghost var ds := cs + [name];
      if ds in nodes {
        assert HangsBelow(nodes, table, ds) && ds[..|ds| - 1] == cs;
      }
      if (parent, name) in table {
        ghost var es :| es in nodes && es != [] && (nodes[es].parent, nodes[es].name) == (parent, name);
        assert HangsBelow(nodes, table, es);
        assert es == es[..|es| - 1] + [name];
        node := table[(parent, name)];
      } else {
        node := null;
      }
    }

    /** add_node, and the assertion and the append that follow each of its calls. */
    method AddNode(name: string, parent: PkgNode<D>, leaf: bool, data: Option<D>, ghost cs: seq<string>)
      returns (node: PkgNode<D>)
      requires Built() && cs in nodes && nodes[cs] == parent && !parent.leaf && cs + [name] !in nodes
      requires leaf ==> data.Some?
      modifies this`table, this`nodes, parent`children
      ensures Built() && fresh(node) && nodes == old(nodes)[cs + [name] := node]
      ensures Tree() == old(Tree())[cs + [name] := if leaf then Leaf(data.value) else Dir]
    {
      hide Linked, LeavesOk, AllChildrenOk, ChildrenOk;
      node := new PkgNode<D>(name, parent, leaf, data);
      LinkedGrows(root, nodes, table, cs, node);
      ClosedUp(cs + [name]);
      OneList(cs);
      LeavesGrow(cs, node);
      table := table[(parent, name) := node];
      nodes := nodes[cs + [name] := node];
      parent.children := parent.children + [node];
      assert nodes[cs + [name]] == node;
      ChildrenGrow(cs);
    }

    /** Nothing hangs below a list without a node. */
    lemma ClosedUp(ds: seq<string>)
      requires Linked(root, nodes, table)
      ensures forall name :: ds + [name] in nodes ==> ds in nodes
    {
      forall name | ds + [name] in nodes
        ensures ds in nodes
      {
        assert HangsBelow(nodes, table, ds + [name]);
        assert (ds + [name])[..|ds|] == ds;
      }
    }

    lemma OneList(cs: seq<string>)
      requires Linked(root, nodes, table) && cs in nodes
      ensures forall es :: es in nodes && es != cs ==> nodes[es] != nodes[cs]
    {}

    lemma LeavesGrow(cs: seq<string>, node: PkgNode<D>)
      requires Linked(root, nodes, table) && LeavesOk(nodes) && cs in nodes && !nodes[cs].leaf
      requires cs + [node.name] !in nodes && (node.leaf ==> node.data.Some?)
      requires forall name :: cs + [node.name] + [name] !in nodes
      ensures LeavesOk(nodes[cs + [node.name] := node])
    {
      hide Linked;
      var ds := cs + [node.name];
      var nodes' := nodes[ds := node];
      assert ds[..|ds| - 1] == cs;
      forall es | es in nodes'
        ensures LeafOk(nodes', es)
      {
        if es != ds {
          assert LeafOk(nodes, es);
          assert es != [] ==> es == es[..|es| - 1] + [es[|es| - 1]];
        }
      }
    }

    /** The children after a node was appended below `cs`. */
    twostate lemma ChildrenGrow(cs: seq<string>)
      requires cs in old(nodes) && old(Linked(root, nodes, table)) && old(AllChildrenOk(nodes))
      requires var children := old(nodes)[cs].children;
        children != [] && Appended(cs, old(nodes)[cs], children[|children| - 1])
      requires forall es :: es in old(nodes) && es != cs ==> old(nodes)[es].children == old(nodes[es].children)
      ensures AllChildrenOk(nodes)
    {
      var node := old(nodes)[cs].children[|old(nodes)[cs].children| - 1];
      var ds := cs + [node.name];
      forall es | es in nodes
        ensures nodes[es] in nodes.Values && ChildrenOk(nodes, es, nodes[es])
      {
        if es != ds {
          assert old(ChildrenOk(nodes, es, nodes[es]));
        }
        forall name | es + [name] in nodes
          ensures nodes[es + [name]] in nodes[es].children
        {
          assert (es + [name])[..|es|] == es && ds[..|cs|] == cs;
          assert node in old(nodes)[cs].children;
        }
      }
    }

    twostate predicate Appended(cs: seq<string>, parent: PkgNode<D>, new node: PkgNode<D>)
      reads this, node, parent
    {
      && node !in old(nodes).Values && node.children == [] && cs + [node.name] !in old(nodes)
      && nodes == old(nodes)[cs + [node.name] := node]
      && parent.children == old(parent.children) + [node]
      && forall name :: cs + [node.name] + [name] !in old(nodes)
    }

    lemma LeafAt(cs: seq<string>, data: D)
      requires Built() && cs in nodes && Tree()[cs] == Leaf(data)
      ensures nodes[cs].leaf && nodes[cs].data == Some(data)
    {}

    lemma TreeClosed()
      requires Built()
      ensures PrefixClosed(Tree())
    {
      forall cs | cs in nodes && cs != []
        ensures cs[..|cs| - 1] in nodes && Tree()[cs[..|cs| - 1]].Dir?
      {
        assert HangsBelow(nodes, table, cs) && LeafOk(nodes, cs);
      }
      assert LeafOk(nodes, []);
    }

    lemma RootThere()
      requires Built()
      ensures [] in nodes && nodes[[]] == root
    {}

    /** A leaf has nothing below it. */
    lemma NothingBelow(cs: seq<string>, name: string)
      requires Built() && cs in nodes
      ensures Tree()[cs].Leaf? <==> nodes[cs].leaf
      ensures cs + [name] in nodes ==> !nodes[cs].leaf
    {
      assert LeafOk(nodes, cs) && (cs + [name])[..|cs|] == cs;
      assert cs + [name] in nodes ==> LeafOk(nodes, cs + [name]);
    }

    /** One step down, over an inner node that is made when there is none; null below a leaf, where an
        assertion fails. */
    method Child(name: string, parent: PkgNode<D>, ghost cs: seq<string>) returns (node: PkgNode?<D>)
      requires Built() && cs in nodes && nodes[cs] == parent
      modifies this`table, this`nodes, parent`children
      ensures Built()
      ensures nodes == old(nodes) || (node != null && fresh(node) && nodes == old(nodes)[cs + [name] := node])
      ensures cs + [name] in old(nodes) ==> nodes == old(nodes)
      ensures node == null <==> old(Tree())[cs].Leaf?
      ensures node == null ==> Tree() == old(Tree())
      ensures node != null ==> cs + [name] in nodes && nodes[cs + [name]] == node
      ensures node != null ==>
        Tree() == if cs + [name] in old(Tree()) then old(Tree()) else old(Tree())[cs + [name] := Dir]
    {
      hide Linked, LeavesOk, AllChildrenOk;
      NothingBelow(cs, name);
      node := FindNode(name, parent, cs);
      if node == null && !parent.leaf {
        node := AddNode(name, parent, false, None, cs);
      }
    }

    /** The nodes from before are still there; the others are new. */
    twostate predicate Kept(before: map<seq<string>, PkgNode<D>>)
      reads this
    {
      && (forall cs :: cs in before ==> cs in nodes && nodes[cs] == before[cs])
      && (forall cs :: cs in nodes && cs !in before ==> fresh(nodes[cs]))
    }

    /** What the map of nodes gained. */
    static ghost predicate Grown(m: map<seq<string>, PkgNode<D>>, m': map<seq<string>, PkgNode<D>>,
            added: set<PkgNode<D>>) {
      && (forall cs :: cs in m ==> cs in m' && m'[cs] == m[cs])
      && (forall cs :: cs in m' && cs !in m ==> m'[cs] in added)
    }

    static lemma GrownNot(m: map<seq<string>, PkgNode<D>>)
      ensures Grown(m, m, {})
    {}

    static lemma GrowOne(m: map<seq<string>, PkgNode<D>>, m': map<seq<string>, PkgNode<D>>, added: set<PkgNode<D>>,
        cs: seq<string>, node: PkgNode<D>)
      requires Grown(m, m', added) && cs !in m'
      ensures Grown(m, m'[cs := node], added + {node})
    {}

    static lemma GrownMember(m: map<seq<string>, PkgNode<D>>, m': map<seq<string>, PkgNode<D>>, added: set<PkgNode<D>>,
        cs: seq<string>)
      requires Grown(m, m', added) && cs in m'
      ensures m'[cs] in m.Values || m'[cs] in added
    {
      if cs in m {
        assert m[cs] in m.Values;
      }
    }

    /** One round of that loop, in terms of the tree before it. */
    method Step(name: string, parent: PkgNode<D>, ghost cs: seq<string>, ghost k: nat, ghost before: PathTree.Tree<D>)
      returns (node: PkgNode?<D>)
      requires Built() && PrefixClosed(before) && k < |cs| && cs[..k + 1] == cs[..k] + [name]
      requires cs[..k] in nodes && nodes[cs[..k]] == parent
      requires Tree() == WithDirs(before, cs, k) && NoLeafAbove(before, cs, k)
      modifies this`table, this`nodes, parent`children
      ensures Built()
      ensures nodes == old(nodes) || (node != null && fresh(node) && nodes == old(nodes)[cs[..k + 1] := node])
      ensures cs[..k + 1] in old(nodes) ==> nodes == old(nodes)
      ensures node == null ==> LeafIn(before, cs[..k]) && Tree() == before
      ensures node != null ==> cs[..k + 1] in nodes && nodes[cs[..k + 1]] == node
      ensures node != null ==> Tree() == WithDirs(before, cs, k + 1) && NoLeafAbove(before, cs, k + 1)
    {
      hide Linked, LeavesOk, AllChildrenOk, WithDirs, Tree, PrefixClosed, NoLeafAbove;
      DirsKeepLeaves(before, cs, k, cs[..k]);
      node := Child(name, parent, cs[..k]);
      if node == null {
        DirsThere(before, cs, k);
      } else {
        NoLeafStep(before, cs, k);
        OneMoreDir(before, cs, k);
      }
    }

    /** The same round, with the nodes added since the start of the loop. */
    method StepOn(name: string, parent: PkgNode<D>, ghost cs: seq<string>, ghost k: nat,
        ghost before: PathTree.Tree<D>, ghost start: map<seq<string>, PkgNode<D>>, ghost added: set<PkgNode<D>>)
      returns (node: PkgNode?<D>, ghost more: set<PkgNode<D>>)
      requires Built() && PrefixClosed(before) && k < |cs| && cs[..k + 1] == cs[..k] + [name]
      requires cs[..k] in nodes && nodes[cs[..k]] == parent
      requires Tree() == WithDirs(before, cs, k) && NoLeafAbove(before, cs, k) && Grown(start, nodes, added)
      modifies this`table, this`nodes, parent`children
      ensures Built() && Grown(start, nodes, more) && added <= more && fresh(more - added)
      ensures node == null ==> LeafIn(before, cs[..k]) && Tree() == before
      ensures node != null ==> cs[..k + 1] in nodes && nodes[cs[..k + 1]] == node
      ensures node != null ==> Tree() == WithDirs(before, cs, k + 1) && NoLeafAbove(before, cs, k + 1)
    {
      hide PkgState.Built, WithDirs, Tree, PrefixClosed, NoLeafAbove, LeafIn, PkgState.Grown;
      ghost var was := nodes;
      node := Step(name, parent, cs, k, before);
      more := added;
      if nodes != was {
        GrowOne(start, was, added, cs[..k + 1], node);
        more := added + {node};
      }
    }

    /** The loop of Add_PkgNode over all components but the last. */
    method Descend(path: string) returns (parent: PkgNode?<D>, last: string, ghost k: nat)
      requires Built() && path != ""
      modifies this`table, this`nodes, nodes.Values`children
      ensures Built() && Kept(old(nodes))
      ensures k < |Split(path)| && NoLeafAbove(old(Tree()), Split(path), k)
      ensures parent == null ==> LeafIn(old(Tree()), Split(path)[..k]) && Tree() == old(Tree())
      ensures parent != null ==> k == |Split(path)| - 1 && last == Split(path)[k]
      ensures parent != null ==> Split(path)[..k] in nodes && nodes[Split(path)[..k]] == parent
      ensures parent != null ==> Tree() == WithDirs(old(Tree()), Split(path), k)
    {
      hide PkgState.Built, WithDirs, Tree, SplitFrom, WordEnd, SlashEnd, PrefixClosed, NoLeafAbove, LeafIn,
           PkgState.Kept, PkgState.Grown;
      ghost var cs, before, start := Split(path), Tree(), nodes;
      assert SplitFrom(path, 0) == cs[0..];
      hide Split;
      TreeClosed();
      RootThere();
      NoDirs(before, cs);
      NoLeafStep(before, cs, 0);
      k := 0;
      parent := root;
      var i := 0;
      ghost var added: set<PkgNode<D>> := {};
      GrownNot(nodes);
      while true
        invariant Built() && fresh(added) && Grown(start, nodes, added)
        invariant parent != null && i < |path| && k < |cs| && SplitFrom(path, i) == cs[k..]
        invariant cs[..k] in nodes && nodes[cs[..k]] == parent && Tree() == WithDirs(before, cs, k)
        invariant NoLeafAbove(before, cs, k)
        decreases |path| - i
      {
        var end, next := NextComponent(path, i);
        last := path[i..end];
        NextOf(path, i, cs, k);
        if next == |path| {
          break;
        }
        GrownMember(start, nodes, added, cs[..k]);
        parent, added := StepOn(last, parent, cs, k, before, start, added);
        assert fresh(added);
        if parent == null {
          break;
        }
        i := next;
        k := k + 1;
      }
      NewOnes(start, added);
    }

    twostate lemma NewOnes(before: map<seq<string>, PkgNode<D>>, new added: set<PkgNode<D>>)
      requires Grown(before, nodes, added) && fresh(added)
      ensures Kept(before)
    {}

    /** Add_PkgNode: an addition is refused where an assertion fails, and recorded otherwise. */
    method Add(path: string, data: D) returns (r: Outcome<D>)
      requires Valid() && path != ""
      modifies this`table, this`nodes, this`adds, nodes.Values`children
      ensures Valid() && Kept(old(nodes))
      ensures ThroughLeaf(old(Tree()), Split(path)) ==> r == LeafInTheWay && Tree() == old(Tree())
      ensures !ThroughLeaf(old(Tree()), Split(path)) ==> Tree() == Insert(old(Tree()), Split(path), data)
      ensures !ThroughLeaf(old(Tree()), Split(path)) ==>
        if Split(path) in old(nodes) then r == Taken else Split(path) in nodes && r == New(nodes[Split(path)])
      ensures adds == if r == LeafInTheWay then old(adds) else old(adds) + [Added(path, data)]
      ensures var cs, t := Split(path), old(Tree());
        && (r == LeafInTheWay <==> LeafBetween(t, cs))
        && (r == Taken ==> cs in t && Tree() == t)
        && (r.New? ==> cs !in t && r.node in nodes.Values && r.node.leaf && r.node.data == Some(data))
    {
      hide PkgState.Built, Split, Tree, ThroughLeaf, Insert, LeafBetween, PrefixClosed;
      AddAllAppend(adds, Added(path, data));
      TreeClosed();
      WhatIsInTheWay(Tree(), Split(path));
      if Split(path) in nodes {
        InsertThere(Tree(), Split(path), data);
      } else {
        InsertedLeaf(Tree(), Split(path), data);
      }
      r := AddPath(path, data);
      if r.New? {
        LeafAt(Split(path), data);
      }
      if r != LeafInTheWay {
        Record(path, data);
      }
    }

    /** Only the history changes. */
    ghost method Record(path: string, data: D)
      requires Built()
      modifies this`adds
      ensures Built() && Tree() == old(Tree()) && adds == old(adds) + [Added(path, data)]
    {
      adds := adds + [Added(path, data)];
      assert forall cs :: cs in nodes ==> Tree()[cs] == old(Tree())[cs];
    }

    /** The body of Add_PkgNode. */
    method AddPath(path: string, data: D) returns (r: Outcome<D>)
      requires Built() && path != ""
      modifies this`table, this`nodes, nodes.Values`children
      ensures Built() && Kept(old(nodes))
      ensures ThroughLeaf(old(Tree()), Split(path)) ==> r == LeafInTheWay && Tree() == old(Tree())
      ensures !ThroughLeaf(old(Tree()), Split(path)) ==> Tree() == Insert(old(Tree()), Split(path), data)
      ensures !ThroughLeaf(old(Tree()), Split(path)) ==>
        if Split(path) in old(nodes) then r == Taken else Split(path) in nodes && r == New(nodes[Split(path)])
    {
      hide PkgState.Built, LeafIn, WithDirs, Split, Tree, PrefixClosed, NoLeafAbove, ThroughLeaf, Insert;
      ghost var cs, before := Split(path), Tree();
      TreeClosed();
      var parent, last, k := Descend(path);
      if parent == null {
        LeafOnTheWay(before, cs, k);
        return LeafInTheWay;
      }
      InsertLast(before, cs, data);
      r := AddLast(last, parent, data, cs, before);
    }

    /** The last component: a new leaf, unless there is a node or the parent is a leaf. */
    method AddLast(last: string, parent: PkgNode<D>, data: D, ghost cs: seq<string>, ghost before: PathTree.Tree<D>)
      returns (r: Outcome<D>)
      requires Built() && cs != [] && last == cs[|cs| - 1]
      requires cs[..|cs| - 1] in nodes && nodes[cs[..|cs| - 1]] == parent
      requires Tree() == WithDirs(before, cs, |cs| - 1) && PrefixClosed(before) && NoLeafAbove(before, cs, |cs| - 1)
      modifies this`table, this`nodes, parent`children
      ensures Built()
      ensures if r.New? then fresh(r.node) && nodes == old(nodes)[cs := r.node] else nodes == old(nodes)
      ensures ThroughLeaf(before, cs) ==> r == LeafInTheWay && Tree() == before
      ensures !ThroughLeaf(before, cs) ==> Tree() == Insert(before, cs, data)
      ensures !ThroughLeaf(before, cs) ==> if cs in old(nodes) then r == Taken else r.New?
    {
      hide PkgState.Built, LeafIn, WithDirs, Tree, PrefixClosed, NoLeafAbove, ThroughLeaf, Insert;
      ghost var k := |cs| - 1;
      InTheWayAtLast(before, cs);
      InsertLast(before, cs, data);
      assert cs == cs[..k] + [last];
      DirsKeepLeaves(before, cs, k, cs[..k]);
      NothingBelow(cs[..k], last);
      var node := FindNode(last, parent, cs[..k]);
      if node == null {
        if parent.leaf {
          return LeafInTheWay;
        }
        node := AddNode(last, parent, true, Some(data), cs[..k]);
        return New(node);
      }
      return Taken;
    }

    /** Find_PkgNode: there is a node exactly on the prefixes of the added paths. */
    method Find(path: string) returns (node: PkgNode?<D>)
      requires Valid() && path != ""
      ensures var cs := Split(path); if cs in nodes then node == nodes[cs] else node == null
      ensures node != null <==> PrefixOfAdded(adds, Split(path))
    {
      NodesAreAddedPrefixes(adds, Split(path));
      node := Walk(path);
    }

    /** The loop of Find_PkgNode. */
    method Walk(path: string) returns (node: PkgNode?<D>)
      requires Built() && path != ""
      ensures var cs := Split(path); if cs in nodes then node == nodes[cs] else node == null
    {
      hide LeavesOk, AllChildrenOk, SplitFrom, WordEnd, SlashEnd;
      ghost var cs, k := Split(path), 0;
      var parent := root;
      var i := 0;
      while true
        invariant i < |path| && k < |cs| && SplitFrom(path, i) == cs[k..]
        invariant cs[..k] in nodes && nodes[cs[..k]] == parent
        decreases |path| - i
      {
        var end, next := NextComponent(path, i);
        var name := path[i..end];
        NextOf(path, i, cs, k);
        node := FindNode(name, parent, cs[..k]);
        if node == null {
          PrefixesThere(cs, k + 1);
          return;
        }
        if next >= |path| {
          assert cs == cs[..k + 1];
          return;
        }
        parent := node;
        i := next;
        k := k + 1;
      }
    }

    lemma PrefixesThere(cs: seq<string>, n: nat)
      requires Linked(root, nodes, table) && n <= |cs|
      ensures cs in nodes ==> cs[..n] in nodes
      decreases |cs| - n
    {
      if n < |cs| {
        PrefixesThere(cs, n + 1);
        assert cs[..n + 1] in nodes ==> HangsBelow(nodes, table, cs[..n + 1]);
        assert cs[..n + 1][..n] == cs[..n];
      } else {
        assert cs[..n] == cs;
      }
    }

    /** Going from parent to parent, a node's names spell its path from the end, up to the root. */
    lemma {:induction false} ParentsSpellThePath(cs: seq<string>)
      requires Built() && cs in nodes
      ensures Spells(nodes[cs], cs)
    {
      if cs != [] {
        assert HangsBelow(nodes, table, cs);
        ParentsSpellThePath(cs[..|cs| - 1]);
      }
    }

    ghost predicate Spells(node: PkgNode<D>, cs: seq<string>) {
      if cs == [] then node == root
      else node.name == cs[|cs| - 1] && Spells(node.parent, cs[..|cs| - 1])
    }
  }

  /** The scan of one component and of the slashes behind it. */
  method NextComponent(path: string, i: nat) returns (end: nat, next: nat)
    requires i < |path|
    ensures end == WordEnd(path, i + 1) && next == SlashEnd(path, end)
  {
    end := i + 1;
    while end < |path| && path[end] != '/'
      invariant i < end <= |path| && WordEnd(path, i + 1) == WordEnd(path, end)
    {
      end := end + 1;
    }
    next := end;
    while next < |path| && path[next] == '/'
      invariant end <= next <= |path| && SlashEnd(path, end) == SlashEnd(path, next)
    {
      next := next + 1;
    }
  }
}
