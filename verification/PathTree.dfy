/** Package paths and the tree they span, as values (src/pkgnode.c:109-203). */
module PathTree {
  import opened Basics

  // ---------------------------------------------------------------- splitting

  /** Where the component ends: the first character always belongs to it, even a slash. */
  function WordEnd(path: string, i: nat): (end: nat)
    requires i <= |path|
    ensures i <= end <= |path|
    ensures (forall j :: i <= j < end ==> path[j] != '/') && (end < |path| ==> path[end] == '/')
    decreases |path| - i
  {
    if i == |path| || path[i] == '/' then i else WordEnd(path, i + 1)
  }

  function SlashEnd(path: string, i: nat): (end: nat)
    requires i <= |path|
    ensures i <= end <= |path|
    ensures (forall j :: i <= j < end ==> path[j] == '/') && (end < |path| ==> path[end] != '/')
    decreases |path| - i
  {
    if i == |path| || path[i] != '/' then i else SlashEnd(path, i + 1)
  }

  /** The components of a path from position i on. */
  function SplitFrom(path: string, i: nat): (cs: seq<string>)
    requires i < |path|
    ensures cs != []
    decreases |path| - i
  {
    var end := WordEnd(path, i + 1);
    var next := SlashEnd(path, end);
    if next == |path| then [path[i..end]] else [path[i..end]] + SplitFrom(path, next)
  }

  function Split(path: string): (cs: seq<string>)
    requires path != ""
    ensures cs != []
  {
    SplitFrom(path, 0)
  }

  lemma {:induction false} SplitStep(path: string, i: nat, end: nat, next: nat)
    requires i < |path| && i < end <= next <= |path|
    requires (forall j :: i < j < end ==> path[j] != '/') && (end == |path| || path[end] == '/')
    requires (forall j :: end <= j < next ==> path[j] == '/') && (next == |path| || path[next] != '/')
    ensures WordEnd(path, i + 1) == end && SlashEnd(path, end) == next
    ensures SplitFrom(path, i) == [path[i..end]] + if next == |path| then [] else SplitFrom(path, next)
  {
    assert WordEnd(path, i + 1) == end && SlashEnd(path, end) == next;
    assert [path[i..end]] + [] == [path[i..end]];
  }

  lemma {:induction false} SplitFirst(path: string, i: nat)
    requires i < |path|
    ensures var end := WordEnd(path, i + 1);
      var next := SlashEnd(path, end);
      SplitFrom(path, i) == [path[i..end]] + if next == |path| then [] else SplitFrom(path, next)
  {
    var end := WordEnd(path, i + 1);
    SplitStep(path, i, end, SlashEnd(path, end));
  }

  /** One more component is taken off the front. */
  lemma {:induction false} Consume(cs: seq<string>, k: nat, name: string, rest: seq<string>)
    requires k < |cs| && cs[k..] == [name] + rest
    ensures cs[k] == name && cs[..k + 1] == cs[..k] + [name] && cs[k + 1..] == rest
    ensures k + 1 < |cs| <==> rest != []
  {
    assert cs[k] == cs[k..][0];
    assert cs[k + 1..] == cs[k..][1..];
  }

  /** What the scan of one component means for the list of components. */
  lemma {:induction false} NextOf(path: string, i: nat, cs: seq<string>, k: nat)
    requires i < |path| && k < |cs| && SplitFrom(path, i) == cs[k..]
    ensures var end := WordEnd(path, i + 1);
      var next := SlashEnd(path, end);
      && cs[k] == path[i..end] && cs[..k + 1] == cs[..k] + [path[i..end]]
      && (next == |path| ==> k == |cs| - 1)
      && (next < |path| ==> k + 1 < |cs| && cs[k + 1..] == SplitFrom(path, next))
  {
    hide SplitFrom, WordEnd, SlashEnd;
    var end := WordEnd(path, i + 1);
    var next := SlashEnd(path, end);
    SplitFirst(path, i);
    Consume(cs, k, path[i..end], if next == |path| then [] else SplitFrom(path, next));
  }

  /** Splitting depends on the rest of the path only. */
  lemma {:induction false} SplitShift(a: string, b: string, i: nat)
    requires i < |b|
    ensures SplitFrom(a + b, |a| + i) == SplitFrom(b, i)
    decreases |b| - i
  {
    hide SplitFrom, WordEnd, SlashEnd;
    var end := WordEnd(b, i + 1);
    var next := SlashEnd(b, end);
    SplitStep(b, i, end, next);
    SplitStep(a + b, |a| + i, |a| + end, |a| + next);
    assert (a + b)[|a| + i..|a| + end] == b[i..end];
    if next < |b| {
      SplitShift(a, b, next);
    }
  }

  lemma {:induction false} SplitSuffix(path: string, i: nat)
    requires i < |path|
    ensures SplitFrom(path, i) == SplitFrom(path[i..], 0)
  {
    assert path == path[..i] + path[i..];
    SplitShift(path[..i], path[i..], 0);
  }

  /** One more slash after position i: `twice` is `once` with the slash at k doubled. */
  ghost predicate Doubled(once: string, twice: string, k: nat) {
    k < |once| && once[k] == '/' && twice == once[..k] + "/" + once[k..]
  }

  /** A slash doubled after the start of a component changes nothing. */
  lemma {:induction false} DoublingLater(once: string, twice: string, k: nat, i: nat)
    requires Doubled(once, twice, k) && i < k
    ensures SplitFrom(twice, i) == SplitFrom(once, i)
    decreases k - i
  {
    hide SplitFrom, WordEnd, SlashEnd;
    assert forall j :: 0 <= j < k ==> twice[j] == once[j];
    assert forall j :: k <= j < |once| ==> twice[j + 1] == once[j];
    assert twice[k] == '/';
    var end := WordEnd(once, i + 1);
    var next := SlashEnd(once, end);
    assert end <= k;
    assert twice[i..end] == once[i..end];
    SplitStep(once, i, end, next);
    if next < k {
      SplitStep(twice, i, end, next);
      DoublingLater(once, twice, k, next);
    } else {
      assert next > k;
      DoubledRun(once, twice, k, end, next);
      SplitStep(twice, i, end, next + 1);
      if next < |once| {
        SplitSuffix(once, next);
        SplitSuffix(twice, next + 1);
        assert twice[next + 1..] == once[next..];
      }
    }
  }

  /** The run of slashes that holds the doubled one is longer by one. */
  lemma {:induction false} DoubledRun(once: string, twice: string, k: nat, end: nat, next: nat)
    requires Doubled(once, twice, k) && end <= k < next <= |once|
    requires (forall j :: end <= j < next ==> once[j] == '/') && (next == |once| || once[next] != '/')
    ensures forall j :: end <= j < next + 1 ==> twice[j] == '/'
    ensures next == |once| || twice[next + 1] != '/'
  {
    assert forall j :: 0 <= j < k ==> twice[j] == once[j];
    assert forall j :: k < j < |twice| ==> twice[j] == once[j - 1];
  }

  /** Doubling a slash leaves the components alone exactly unless it is the first character and a name
      follows at once: "/a" is the component "/a", but "//a" is "/" and then "a". */
  lemma {:induction false} DoublingChangesExactlyTheFirst(path: string, k: nat)
    requires k < |path| && path[k] == '/'
    ensures Split(path[..k] + "/" + path[k..]) == Split(path)
       <==> !(k == 0 && |path| > 1 && path[1] != '/')
  {
    hide SplitFrom, WordEnd, SlashEnd;
    var twice := path[..k] + "/" + path[k..];
    if k > 0 {
      DoublingLater(path, twice, k, 0);
    } else {
      assert twice == "/" + path;
      DoublingFirst(path, twice);
    }
  }

  lemma {:induction false} DoublingFirst(path: string, twice: string)
    requires path != "" && path[0] == '/' && twice == "/" + path
    ensures Split(twice) == Split(path) <==> !(|path| > 1 && path[1] != '/')
  {
    hide SplitFrom, WordEnd, SlashEnd;
    if |path| > 1 && path[1] != '/' {
      assert twice[1] == path[0] && twice[2] == path[1];
      SplitStep(twice, 0, 1, 2);
      assert Split(twice)[0] == twice[0..1];
      LongFirst(path);
    } else {
      LoneFirst(path, twice);
    }
  }

  lemma {:induction false} LoneFirst(path: string, twice: string)
    requires path != "" && path[0] == '/' && twice == "/" + path && (|path| == 1 || path[1] == '/')
    ensures Split(twice) == Split(path)
  {
    hide SplitFrom, WordEnd, SlashEnd;
    var next := SlashEnd(path, 1);
    SplitStep(path, 0, 1, next);
    forall j | 1 <= j < next + 1
      ensures twice[j] == '/'
    {
      assert twice[j] == path[j - 1];
    }
    assert next < |path| ==> twice[next + 1] == path[next];
    SplitStep(twice, 0, 1, next + 1);
    assert twice[0..1] == path[0..1];
    if next < |path| {
      SplitShift("/", path, next);
    }
  }

  lemma {:induction false} LongFirst(path: string)
    requires |path| > 1 && path[1] != '/'
    ensures |Split(path)[0]| > 1
  {
    hide SplitFrom, WordEnd, SlashEnd;
    var end := WordEnd(path, 1);
    SplitStep(path, 0, end, SlashEnd(path, end));
    assert Split(path)[0] == path[0..end];
  }

  /** Slashes at the end never matter. */
  lemma {:induction false} TrailingSlash(path: string, i: nat)
    requires i < |path|
    ensures SplitFrom(path + "/", i) == SplitFrom(path, i)
    decreases |path| - i
  {
    hide SplitFrom, WordEnd, SlashEnd;
    var longer := path + "/";
    var end := WordEnd(path, i + 1);
    var next := SlashEnd(path, end);
    assert longer[i..end] == path[i..end];
    SplitStep(path, i, end, next);
    if next < |path| {
      SplitStep(longer, i, end, next);
      TrailingSlash(path, next);
    } else {
      SplitStep(longer, i, end, |longer|);
    }
  }

  // ---------------------------------------------------------------- the tree

  datatype Kind<D> = Dir | Leaf(data: D)

  /** Which component lists have a node, and of which kind.  The root is the empty list. */
  type Tree<D> = map<seq<string>, Kind<D>>

  ghost predicate PrefixClosed<D>(t: Tree<D>) {
    && [] in t && t[[]].Dir?
    && forall cs :: cs in t && cs != [] ==> cs[..|cs| - 1] in t && t[cs[..|cs| - 1]].Dir?
  }

  ghost predicate LeafIn<D>(t: Tree<D>, cs: seq<string>) {
    cs in t && t[cs].Leaf?
  }

  /** Some node strictly above the last component is a leaf. */
  ghost predicate ThroughLeaf<D>(t: Tree<D>, cs: seq<string>) {
    !NoLeafAbove(t, cs, |cs|)
  }

  ghost predicate NoLeafAbove<D>(t: Tree<D>, cs: seq<string>, k: nat)
    requires k <= |cs|
  {
    forall i :: 0 <= i < k ==> !LeafIn(t, cs[..i])
  }

  lemma {:induction false} NoLeafStep<D>(t: Tree<D>, cs: seq<string>, k: nat)
    requires k < |cs|
    ensures NoLeafAbove(t, cs, 0)
    ensures NoLeafAbove(t, cs, k + 1) <==> NoLeafAbove(t, cs, k) && !LeafIn(t, cs[..k])
  {}

  lemma {:induction false} ThroughIs<D>(t: Tree<D>, cs: seq<string>)
    ensures ThroughLeaf(t, cs) <==> !NoLeafAbove(t, cs, |cs|)
  {}

  /** A leaf strictly between the root and the last component. */
  ghost predicate LeafBetween<D>(t: Tree<D>, cs: seq<string>) {
    exists i :: 0 < i < |cs| && cs[..i] in t && t[cs[..i]].Leaf?
  }

  /** Only such a leaf is in the way. */
  lemma {:induction false} WhatIsInTheWay<D>(t: Tree<D>, cs: seq<string>)
    requires PrefixClosed(t)
    ensures ThroughLeaf(t, cs) <==> LeafBetween(t, cs)
  {
    assert cs[..0] == [];
    if i :| 0 <= i < |cs| && LeafIn(t, cs[..i]) {
      assert i > 0;
    }
    if i :| 0 < i < |cs| && cs[..i] in t && t[cs[..i]].Leaf? {
      assert LeafIn(t, cs[..i]);
    }
  }

  lemma {:induction false} LeafOnTheWay<D>(t: Tree<D>, cs: seq<string>, k: nat)
    requires k < |cs| && LeafIn(t, cs[..k])
    ensures ThroughLeaf(t, cs)
  {}

  /** Add_PkgNode on a path that does not run through a leaf. */
  ghost function Insert<D>(t: Tree<D>, cs: seq<string>, data: D): Tree<D>
    requires cs != []
  {
    WithDirs(t, cs, |cs| - 1) + (if cs in t then map[] else map[cs := Leaf(data)])
  }

  /** The inner nodes of the first n components, added where there is none. */
  ghost function WithDirs<D>(t: Tree<D>, cs: seq<string>, n: nat): Tree<D>
    requires n <= |cs|
  {
    if n == 0 then t
    else
      var t' := WithDirs(t, cs, n - 1);
      if cs[..n] in t' then t' else t'[cs[..n] := Dir]
  }

  lemma {:induction false} DirsAre<D>(t: Tree<D>, cs: seq<string>, n: nat)
    requires n <= |cs|
    ensures forall p :: p in WithDirs(t, cs, n) <==> p in t || (p <= cs && 0 < |p| <= n)
    ensures forall p :: p in t ==> WithDirs(t, cs, n)[p] == t[p]
    ensures forall p :: p in WithDirs(t, cs, n) && p !in t ==> WithDirs(t, cs, n)[p] == Dir
  {
    if n > 0 {
      DirsAre(t, cs, n - 1);
      forall p: seq<string> | p <= cs && |p| == n
        ensures p == cs[..n]
      {}
    }
  }

  /** Added inner nodes are no leaves. */
  lemma {:induction false} DirsKeepLeaves<D>(t: Tree<D>, cs: seq<string>, n: nat, p: seq<string>)
    requires n <= |cs| && p in WithDirs(t, cs, n)
    ensures WithDirs(t, cs, n)[p].Leaf? <==> LeafIn(t, p)
    ensures p in t || |p| <= n
  {
    DirsAre(t, cs, n);
  }

  /** With no leaf above the parent, only the parent can be in the way, and then nothing was added. */
  lemma {:induction false} InTheWayAtLast<D>(t: Tree<D>, cs: seq<string>)
    requires PrefixClosed(t) && cs != [] && NoLeafAbove(t, cs, |cs| - 1)
    ensures var k := |cs| - 1;
      && (ThroughLeaf(t, cs) <==> LeafIn(t, cs[..k]))
      && (ThroughLeaf(t, cs) ==> WithDirs(t, cs, k) == t)
  {
    NoLeafStep(t, cs, |cs| - 1);
    if LeafIn(t, cs[..|cs| - 1]) {
      DirsThere(t, cs, |cs| - 1);
    }
  }

  /** What Insert does, from the tree with the inner nodes. */
  lemma {:induction false} InsertLast<D>(t: Tree<D>, cs: seq<string>, data: D)
    requires cs != []
    ensures var t' := WithDirs(t, cs, |cs| - 1);
      && (cs in t' <==> cs in t)
      && Insert(t, cs, data) == if cs in t then t' else t'[cs := Leaf(data)]
  {
    DirsAre(t, cs, |cs| - 1);
    var t' := WithDirs(t, cs, |cs| - 1);
    assert t' + map[] == t';
    assert t'[cs := Leaf(data)] == t' + map[cs := Leaf(data)];
  }

  lemma {:induction false} NoDirs<D>(t: Tree<D>, cs: seq<string>)
    ensures WithDirs(t, cs, 0) == t
  {}

  lemma {:induction false} OneMoreDir<D>(t: Tree<D>, cs: seq<string>, n: nat)
    requires n < |cs|
    ensures WithDirs(t, cs, n + 1)
         == var t' := WithDirs(t, cs, n); if cs[..n + 1] in t' then t' else t'[cs[..n + 1] := Dir]
  {}

  /** When the last of them is there, nothing is added. */
  lemma {:induction false} DirsThere<D>(t: Tree<D>, cs: seq<string>, n: nat)
    requires PrefixClosed(t) && n <= |cs| && cs[..n] in t
    ensures WithDirs(t, cs, n) == t
  {
    if n > 0 {
      assert cs[..n][..n - 1] == cs[..n - 1];
      DirsThere(t, cs, n - 1);
    }
  }

  /** A path that is there already adds nothing. */
  lemma {:induction false} InsertThere<D>(t: Tree<D>, cs: seq<string>, data: D)
    requires PrefixClosed(t) && cs != [] && cs in t
    ensures Insert(t, cs, data) == t
  {
    DirsThere(t, cs, |cs| - 1);
    assert t + map[] == t;
  }

  lemma {:induction false} InsertedLeaf<D>(t: Tree<D>, cs: seq<string>, data: D)
    requires cs != [] && cs !in t
    ensures cs in Insert(t, cs, data) && Insert(t, cs, data)[cs] == Leaf(data)
  {}

  /** Adding a path adds exactly its prefixes, as inner nodes but for the last; nothing else changes, and
      the tree stays closed under prefixes. */
  lemma {:induction false} InsertAddsPrefixes<D>(t: Tree<D>, cs: seq<string>, data: D)
    requires PrefixClosed(t) && cs != [] && !ThroughLeaf(t, cs)
    ensures var t' := Insert(t, cs, data);
      && PrefixClosed(t')
      && (forall p :: p in t' <==> p in t || p <= cs)
      && (forall p :: p in t ==> t'[p] == t[p])
      && (cs !in t ==> t'[cs] == Leaf(data))
  {
    InsertIs(t, cs, data);
    InsertStaysClosed(t, cs, data);
  }

  lemma {:induction false} InsertIs<D>(t: Tree<D>, cs: seq<string>, data: D)
    requires [] in t && cs != []
    ensures forall p :: p in Insert(t, cs, data) <==> p in t || p <= cs
    ensures forall p :: p in t ==> Insert(t, cs, data)[p] == t[p]
    ensures forall p :: p in Insert(t, cs, data) && p !in t ==>
            Insert(t, cs, data)[p] == if p == cs then Leaf(data) else Dir
  {
    hide WithDirs;
    DirsAre(t, cs, |cs| - 1);
    forall p: seq<string> | p <= cs
      ensures p == [] || p == cs || 0 < |p| <= |cs| - 1
    {}
  }

  lemma {:induction false} InsertStaysClosed<D>(t: Tree<D>, cs: seq<string>, data: D)
    requires PrefixClosed(t) && cs != [] && !ThroughLeaf(t, cs)
    ensures PrefixClosed(Insert(t, cs, data))
  {
    hide Insert;
    var t' := Insert(t, cs, data);
    InsertIs(t, cs, data);
    forall p | p in t' && p != []
      ensures p[..|p| - 1] in t' && t'[p[..|p| - 1]].Dir?
    {
      var q := p[..|p| - 1];
      if p in t {
        assert t[q].Dir?;
      } else {
        assert p <= cs && q == cs[..|q|] && q <= cs && q != cs;
        assert !LeafIn(t, cs[..|q|]);
      }
    }
  }

  lemma {:induction false} EmptyClosed<D>()
    ensures PrefixClosed<D>(map[[] := Dir])
  {}

  // ---------------------------------------------------------------- runs

  datatype Added<D> = Added(path: string, data: D)

  ghost predicate Paths<D>(adds: seq<Added<D>>) {
    forall a :: a in adds ==> a.path != ""
  }

  /** The tree after adding some paths, or None once a path runs through a leaf. */
  ghost function AddAll<D>(adds: seq<Added<D>>): Option<Tree<D>>
    requires Paths(adds)
  {
    if adds == [] then Some(map[[] := Dir])
    else
      var before, last := AddAll(adds[..|adds| - 1]), adds[|adds| - 1];
      if before == None || ThroughLeaf(before.value, Split(last.path)) then None
      else Some(Insert(before.value, Split(last.path), last.data))
  }

  ghost predicate PrefixOfAdded<D>(adds: seq<Added<D>>, p: seq<string>)
    requires Paths(adds)
  {
    exists i :: 0 <= i < |adds| && p <= Split(adds[i].path)
  }

  lemma {:induction false} PrefixOfLast<D>(adds: seq<Added<D>>, p: seq<string>)
    requires adds != [] && Paths(adds)
    ensures var n := |adds| - 1;
      PrefixOfAdded(adds, p) <==> PrefixOfAdded(adds[..n], p) || p <= Split(adds[n].path)
  {
    hide Split;
    var n := |adds| - 1;
    if i :| 0 <= i < |adds| && p <= Split(adds[i].path) {
      assert i < n ==> p <= Split(adds[..n][i].path);
    }
  }

  /** After any run, the nodes are exactly the prefixes of the added paths. */
  lemma {:induction false} NodesAreAddedPrefixes<D>(adds: seq<Added<D>>, p: seq<string>)
    requires Paths(adds)
    requires AddAll(adds).Some?
    ensures PrefixClosed(AddAll(adds).value)
    ensures p in AddAll(adds).value <==> p == [] || PrefixOfAdded(adds, p)
  {
    hide Insert, Split, ThroughLeaf, PrefixClosed;
    if adds == [] {
      EmptyClosed<D>();
    } else {
      hide PrefixOfAdded;
      var n := |adds| - 1;
      NodesAreAddedPrefixes(adds[..n], p);
      InsertAddsPrefixes(AddAll(adds[..n]).value, Split(adds[n].path), adds[n].data);
      PrefixOfLast(adds, p);
    }
  }

  lemma {:induction false} AddAllAppend<D>(adds: seq<Added<D>>, a: Added<D>)
    requires Paths(adds) && a.path != "" && AddAll(adds).Some?
    ensures Paths(adds + [a])
    ensures var t := AddAll(adds).value;
      AddAll(adds + [a]) == if ThroughLeaf(t, Split(a.path)) then None else Some(Insert(t, Split(a.path), a.data))
  {
    var more := adds + [a];
    assert more[..|more| - 1] == adds && more[|more| - 1] == a;
  }
}
