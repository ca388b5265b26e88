/** The table of interned descriptors, with reference counts (src/typedesc.c:94-158, 338-508). */
module DescPool {
  import opened Basics
  import opened TypeDesc
  import opened TypeText
  import opened DescModel

  const BASE_ORDER := "bcifzseA"

  /** The nodes of the base descriptors, in the order of the table basic_types. */
  function BaseNodes(): (nodes: seq<Body>)
    ensures |nodes| == |BASE_ORDER|
  {
    seq(|BASE_ORDER|, k requires 0 <= k < |BASE_ORDER| => BaseNode(BASE_ORDER[k]))
  }

  /** Where get_basic finds a kind. */
  function BaseIndex(kind: char): (i: nat)
    requires kind in BASES
    ensures i < |BASE_ORDER| && BASE_ORDER[i] == kind
  {
    match kind
    case 'b' => 0
    case 'c' => 1
    case 'i' => 2
    case 'f' => 3
    case 'z' => 4
    case 's' => 5
    case 'e' => 6
    case _ => 7
  }

  /** The first linked node with this text, or the number of nodes: what the hash table finds. */
  function Find(texts: seq<string>, linked: seq<bool>, text: string): (i: nat)
    requires |texts| == |linked|
    ensures i <= |texts|
    ensures i < |texts| ==> linked[i] && texts[i] == text
    ensures forall k :: 0 <= k < i ==> !(linked[k] && texts[k] == text)
  {
    if texts == [] || (linked[0] && texts[0] == text) then 0
    else 1 + Find(texts[1..], linked[1..], text)
  }

  /** Every node carries the text of a normal descriptor, and no two carry the same. */
  ghost predicate TextsOk(bodies: seq<Body>, texts: seq<string>) {
    && Layered(bodies) && |texts| == |bodies|
    && (forall i :: 0 <= i < |bodies| ==> Normal(Denote(bodies, i)) && texts[i] == Print(Denote(bodies, i)))
    && (forall i, j :: 0 <= i < j < |bodies| ==> texts[i] != texts[j])
  }

  function BaseTexts(): seq<string> {
    seq(|BASE_ORDER|, k requires 0 <= k < |BASE_ORDER| => [BASE_ORDER[k]])
  }

  lemma {:induction false} BaseTextsOk()
    ensures TextsOk(BaseNodes(), BaseTexts())
  {
    forall i | 0 <= i < |BASE_ORDER|
      ensures Normal(Denote(BaseNodes(), i)) && BaseTexts()[i] == Print(Denote(BaseNodes(), i))
    {
      assert BaseNodes()[i] == BaseNode(BASE_ORDER[i]);
    }
  }

  lemma {:induction false} TextsOkAppend(bodies: seq<Body>, texts: seq<string>, body: Body, text: string)
    requires TextsOk(bodies, texts) && Below(Children(body), |bodies|)
    requires Normal(DenoteBody(bodies, body, |bodies|)) && text == Print(DenoteBody(bodies, body, |bodies|))
    requires text !in texts
    ensures TextsOk(bodies + [body], texts + [text])
    ensures Denote(bodies + [body], |bodies|) == DenoteBody(bodies, body, |bodies|)
  {
    var more := bodies + [body];
    DenoteBodyStable(bodies, more, body, |bodies|);
    forall k | 0 <= k < |more|
      ensures Normal(Denote(more, k)) && (texts + [text])[k] == Print(Denote(more, k))
    {
      if k < |bodies| {
        DenoteStable(bodies, more, k);
      }
    }
  }

  /** One more reference on node i. */
  function Referenced(counts: seq<int>, i: NodeId): (more: seq<int>)
    requires i < |counts|
    ensures |more| == |counts| && more[i] == counts[i] + 1
    ensures forall k :: 0 <= k < |counts| && k != i ==> more[k] == counts[k]
  {
    counts[i := counts[i] + 1]
  }

  class Pool {
    var bodies: seq<Body>
    var texts: seq<string>
    var refcnt: seq<int>
    /** Whether the node is in the table. */
    var linked: seq<bool>
    ghost var freed: seq<bool>
    /** References held by callers. */
    ghost var outside: multiset<NodeId>
    /** The nodes handed to Mfree, in order. */
    ghost var frees: seq<NodeId>

    ghost predicate Sized()
      reads this
    {
      |bodies| == |texts| == |refcnt| == |linked| == |freed| && Layered(bodies)
    }

    /** The reference count is what the table, the descriptor's kind, other nodes and callers hold. */
    ghost predicate CountOk(i: NodeId)
      requires Sized() && i < |bodies|
      reads this
    {
      if freed[i] then
        && !linked[i] && !bodies[i].BaseNode? && i in frees
        && Edges(AllChildren(bodies), freed, i, |bodies|) == 0 && outside[i] == 0
      else
        && i !in frees
        && refcnt[i] == (if linked[i] then 1 else 0) + (if bodies[i].BaseNode? then 1 else 0)
                      + Edges(AllChildren(bodies), freed, i, |bodies|) + outside[i]
    }

    ghost predicate Counted()
      reads this
    {
      && Sized()
      && (forall i :: 0 <= i < |bodies| ==> CountOk(i))
      && (forall i :: i in outside ==> i < |bodies|)
      && (forall j, k :: 0 <= j < k < |frees| ==> frees[j] != frees[k])
      && (forall i :: i in frees ==> i < |bodies|)
    }

    ghost predicate Alive(i: NodeId)
      requires Sized() && i < |bodies|
      reads this
    {
      freed[i] || refcnt[i] > 0
    }

    /** Every node is in the table under the text of a normal descriptor, one node per text. */
    ghost predicate Interned()
      reads this
    {
      && Sized()
      && (forall i :: 0 <= i < |bodies| ==> linked[i] && !freed[i])
      && TextsOk(bodies, texts)
    }

    ghost predicate Valid()
      reads this
    {
      Counted() && Interned() && BaseNodes() <= bodies
    }

    lemma ValidIsLayered()
      requires Valid()
      ensures Layered(bodies)
    {}

    /** Init_TypeDesc: the base descriptors, each with one reference that is never given up. */
    constructor ()
      ensures Valid() && outside == multiset{} && |bodies| == |BASE_ORDER|
    {
      var n := |BASE_ORDER|;
      bodies := BaseNodes();
      texts := BaseTexts();
      refcnt := seq(n, k => 2);
      linked := seq(n, k => true);
      freed := seq(n, k => false);
      outside := multiset{};
      frees := [];
      new;
      forall i | 0 <= i < |bodies| ensures CountOk(i) {
        NoEdgesFromFreed(AllChildren(bodies), freed, i, |bodies|);
      }
      BaseTextsOk();
    }

    /** TypeDesc_Get_Base. */
    method GetBase(kind: char) returns (i: NodeId)
      requires Valid() && kind in BASES
      ensures i < |bodies| && Denote(bodies, i) == Base(kind)
    {
      i := BaseIndex(kind);
      assert bodies[i] == BaseNodes()[i];
    }

    /** TYPE_INCREF. */
    method IncRef(i: NodeId)
      requires Valid() && i < |bodies|
      modifies this`refcnt, this`outside
      ensures Valid() && outside == old(outside) + multiset{i}
      ensures |old(refcnt)| == |bodies| && refcnt == Referenced(old(refcnt), i)
    {
      refcnt := refcnt[i := refcnt[i] + 1];
      outside := outside + multiset{i};
      forall k | 0 <= k < |bodies| ensures CountOk(k) {
        assert old(CountOk(k));
      }
    }

    /** One more node, linked, with one reference, that takes over references of the caller. */
    twostate predicate Appended()
      reads this
    {
      && |bodies| == |old(bodies)| + 1 && bodies[..|old(bodies)|] == old(bodies)
      && |texts| == |bodies|
      && refcnt == old(refcnt) + [1] && linked == old(linked) + [true] && freed == old(freed) + [false]
      && frees == old(frees)
      && var kids := Children(bodies[|old(bodies)|]);
        Below(kids, |old(bodies)|) && multiset(kids) <= old(outside) && outside == old(outside) - multiset(kids)
    }

    /** What appending leaves as it was, node by node. */
    twostate lemma AppendedAt(k: NodeId)
      requires Appended() && old(Sized()) && Sized() && k < |old(bodies)|
      ensures bodies[k] == old(bodies)[k] && refcnt[k] == old(refcnt)[k]
      ensures linked[k] == old(linked)[k] && freed[k] == old(freed)[k] && frees == old(frees)
      ensures |bodies| == |old(bodies)| + 1 && freed == old(freed) + [false]
      ensures bodies == old(bodies) + [bodies[|old(bodies)|]]
      ensures outside[k] == old(outside)[k] - multiset(Children(bodies[|old(bodies)|]))[k]
    {
      hide Children, Layered, Below;
    }

    twostate lemma OldNodeCountOk(k: NodeId)
      requires old(Counted()) && Appended() && Sized() && k < |old(bodies)|
      ensures CountOk(k)
    {
      hide Edges, AllChildren, Children, Layered, Pool.Appended;
      AppendedAt(k);
      EdgesOfNew(old(bodies), old(freed), bodies[|old(bodies)|], k);
      assert old(CountOk(k));
    }

    twostate lemma NewNodeCountOk()
      requires old(Counted()) && Appended() && Sized() && !bodies[|old(bodies)|].BaseNode?
      ensures CountOk(|old(bodies)|)
    {
      var n := |old(bodies)|;
      var kids := AllChildren(old(bodies));
      assert AllChildren(bodies) == kids + [Children(bodies[n])];
      EdgesAppend(kids, old(freed), Children(bodies[n]), n, n);
      NoEdgesFromFreed(kids, old(freed), n, n);
    }

    twostate lemma NewIsCounted()
      requires old(Counted()) && Appended() && Sized() && !bodies[|old(bodies)|].BaseNode?
      ensures Counted()
    {
      AllCountOk();
      assert forall i :: i in outside ==> i in old(outside);
    }

    twostate lemma AllCountOk()
      requires old(Counted()) && Appended() && Sized() && !bodies[|old(bodies)|].BaseNode?
      ensures forall k :: 0 <= k < |bodies| ==> CountOk(k)
    {
      forall k | 0 <= k < |bodies| ensures CountOk(k) {
        if k == |old(bodies)| {
          NewNodeCountOk();
        } else {
          OldNodeCountOk(k);
        }
      }
    }

    /** The node is filled in and inserted. */
    method Append(body: Body, text: string)
      modifies this
      ensures bodies == old(bodies) + [body] && texts == old(texts) + [text]
      ensures refcnt == old(refcnt) + [1] && linked == old(linked) + [true] && freed == old(freed) + [false]
      ensures outside == old(outside) - multiset(Children(body)) && frees == old(frees)
    {
      hide Children;
      bodies := bodies + [body];
      texts := texts + [text];
      refcnt := refcnt + [1];
      linked := linked + [true];
      freed := freed + [false];
      outside := outside - multiset(Children(body));
    }

    /** new_typedesc, taking over the caller's references to the components. */
    method NewNode(body: Body, text: string) returns (i: NodeId)
      requires Valid() && Below(Children(body), |bodies|)
      requires multiset(Children(body)) <= outside
      requires Find(texts, linked, text) == |texts|
      requires Normal(DenoteBody(bodies, body, |bodies|)) && text == Print(DenoteBody(bodies, body, |bodies|))
      requires !body.BaseNode?
      modifies this
      ensures Valid() && i == |old(bodies)| && bodies == old(bodies) + [body] && refcnt == old(refcnt) + [1]
      ensures Denote(bodies, i) == old(DenoteBody(bodies, body, |bodies|))
      ensures outside == old(outside) - multiset(Children(body))
    {
      TextsOkAppend(bodies, texts, body, text);
      i := |bodies|;
      Append(body, text);
      NewIsCounted();
    }

    // -------------------------------------------------------------- constructors

    /** A node found under the text of a normal descriptor stands for that descriptor. */
    lemma {:induction false} FoundIsIt(i: NodeId, d: Desc)
      requires Interned() && i < |bodies| && Normal(d) && texts[i] == Print(d)
      ensures Denote(bodies, i) == d
    {
      assert Print(d) + "" == Print(d) && texts[i] + "" == texts[i];
      PrintIsPrefixFree(Denote(bodies, i), d, "", "");
    }

    lemma {:induction false} TextOf(i: NodeId)
      requires Interned() && i < |bodies|
      ensures Normal(Denote(bodies, i)) && texts[i] == Print(Denote(bodies, i))
    {}

    /** Two nodes are the same exactly when they stand for the same descriptor. */
    lemma {:induction false} Canonical(i: NodeId, j: NodeId)
      requires Interned() && i < |bodies| && j < |bodies|
      ensures i == j <==> Denote(bodies, i) == Denote(bodies, j)
    {
      if i < j {
        assert texts[i] != texts[j];
      } else if j < i {
        assert texts[j] != texts[i];
      }
    }

    /** TypeDesc_Get_Klass. */
    method GetKlass(path: Option<string>, name: string) returns (i: NodeId)
      requires Valid() && Normal(Klass(path, name))
      modifies this
      ensures Valid() && old(bodies) <= bodies && outside == old(outside)
      ensures i < |bodies| && Denote(bodies, i) == Klass(path, name)
      ensures (bodies == old(bodies) && refcnt == old(refcnt))
           || (bodies == old(bodies) + [KlassNode(path, name)] && refcnt == old(refcnt) + [1])
    {
      var text := "L" + (PathText(path) + ("." + (name + ";")));
      i := Find(texts, linked, text);
      if i < |texts| {
        FoundIsIt(i, Klass(path, name));
      } else {
        i := NewNode(KlassNode(path, name), text);
      }
    }

    /** TypeDesc_Get_Array. */
    method GetArray(dims: nat, base: NodeId) returns (i: NodeId)
      requires Valid() && base < |bodies| && Normal(Array(dims, Denote(bodies, base)))
      modifies this
      ensures Valid() && old(bodies) <= bodies && outside == old(outside)
      ensures i < |bodies| && Denote(bodies, i) == Array(dims, old(Denote(bodies, base)))
      ensures (bodies == old(bodies) && refcnt == old(refcnt))
           || (bodies == old(bodies) + [ArrayNode(dims, base)]
               && base < |old(refcnt)| && refcnt == Referenced(old(refcnt), base) + [1])
    {
      var text := Brackets(dims) + texts[base];
      i := Find(texts, linked, text);
      if i < |texts| {
        FoundIsIt(i, Array(dims, Denote(bodies, base)));
      } else {
        IncRef(base);
        i := NewNode(ArrayNode(dims, base), text);
      }
    }

    lemma {:induction false} MapBody(key: NodeId, val: NodeId)
      requires Interned() && key < |bodies| && val < |bodies|
      ensures var body, d := MapNode(key, val), Map(Denote(bodies, key), Denote(bodies, val));
        && Below(Children(body), |bodies|) && multiset(Children(body)) == multiset{key} + multiset{val}
        && DenoteBody(bodies, body, |bodies|) == d && Normal(d)
    {
      TextOf(key);
      TextOf(val);
      assert multiset(Children(MapNode(key, val))) == multiset{key} + multiset{val};
    }

    /** A new map node, with one more reference on key and value. */
    method NewMap(key: NodeId, val: NodeId, text: string) returns (i: NodeId)
      requires Valid() && key < |bodies| && val < |bodies| && Find(texts, linked, text) == |texts|
      requires text == Print(Map(Denote(bodies, key), Denote(bodies, val)))
      modifies this
      ensures Valid() && bodies == old(bodies) + [MapNode(key, val)] && outside == old(outside)
      ensures i == |old(bodies)| && Denote(bodies, i) == Map(old(Denote(bodies, key)), old(Denote(bodies, val)))
      ensures key < |old(refcnt)| && val < |old(refcnt)|
      ensures refcnt == Referenced(Referenced(old(refcnt), key), val) + [1]
    {
      MapBody(key, val);
      hide Pool.Interned, Pool.Counted, Find, Layered, Denote, DenoteBody, Children, Below, Normal, Print;
      ghost var kids := multiset(Children(MapNode(key, val)));
      IncRef(key);
      IncRef(val);
      AddAndTake(old(outside), multiset{key}, multiset{val}, kids);
      i := NewNode(MapNode(key, val), text);
    }

    static lemma {:induction false} AddAndTake(m: multiset<NodeId>, a: multiset<NodeId>, b: multiset<NodeId>,
        c: multiset<NodeId>)
      requires c == a + b
      ensures c <= m + a + b && (m + a + b) - c == m
    {}

    /** TypeDesc_Get_Map. */
    method GetMap(key: NodeId, val: NodeId) returns (i: NodeId)
      requires Valid() && key < |bodies| && val < |bodies|
      modifies this
      ensures Valid() && old(bodies) <= bodies && outside == old(outside)
      ensures i < |bodies| && Denote(bodies, i) == Map(old(Denote(bodies, key)), old(Denote(bodies, val)))
      ensures (bodies == old(bodies) && refcnt == old(refcnt))
           || (bodies == old(bodies) + [MapNode(key, val)] && key < |old(refcnt)| && val < |old(refcnt)|
               && refcnt == Referenced(Referenced(old(refcnt), key), val) + [1])
    {
      TextOf(key);
      TextOf(val);
      hide Pool.Interned, Pool.Counted, Find, Layered;
      var text := "M" + (texts[key] + (":" + texts[val]));
      i := Find(texts, linked, text);
      if i < |texts| {
        FoundIsIt(i, Map(Denote(bodies, key), Denote(bodies, val)));
      } else {
        i := NewMap(key, val, text);
      }
    }

    /** TypeDesc_Get_Set. */
    method GetSet(base: NodeId) returns (i: NodeId)
      requires Valid() && base < |bodies|
      modifies this
      ensures Valid() && old(bodies) <= bodies && outside == old(outside)
      ensures i < |bodies| && Denote(bodies, i) == Set(old(Denote(bodies, base)))
      ensures (bodies == old(bodies) && refcnt == old(refcnt))
           || (bodies == old(bodies) + [SetNode(base)]
               && base < |old(refcnt)| && refcnt == Referenced(old(refcnt), base) + [1])
    {
      var text := "S" + texts[base];
      i := Find(texts, linked, text);
      if i < |texts| {
        FoundIsIt(i, Set(Denote(bodies, base)));
      } else {
        IncRef(base);
        i := NewNode(SetNode(base), text);
      }
    }

    /** TypeDesc_Get_Varg. */
    method GetVarg(base: NodeId) returns (i: NodeId)
      requires Valid() && base < |bodies| && Normal(Varg(Denote(bodies, base)))
      modifies this
      ensures Valid() && old(bodies) <= bodies && outside == old(outside)
      ensures i < |bodies| && Denote(bodies, i) == Varg(old(Denote(bodies, base)))
      ensures (bodies == old(bodies) && refcnt == old(refcnt))
           || (bodies == old(bodies) + [VargNode(base)]
               && base < |old(refcnt)| && refcnt == Referenced(old(refcnt), base) + [1])
    {
      var text := "..." + texts[base];
      i := Find(texts, linked, text);
      if i < |texts| {
        FoundIsIt(i, Varg(Denote(bodies, base)));
      } else {
        IncRef(base);
        i := NewNode(VargNode(base), text);
      }
    }

    // -------------------------------------------------------------- releasing references

    ghost predicate AllAlive()
      requires Sized()
      reads this
    {
      forall i :: 0 <= i < |bodies| ==> Alive(i)
    }

    /** What releasing references leaves alone, and what it may free: unlinked nodes below `bound`. */
    twostate predicate Released(bound: nat)
      reads this
    {
      && bodies == old(bodies) && texts == old(texts) && linked == old(linked)
      && |freed| == |old(freed)| == |linked|
      && (forall i :: 0 <= i < |freed| && old(freed[i]) ==> freed[i])
      && (forall i :: 0 <= i < |freed| && freed[i] && !old(freed[i]) ==> i < bound && !linked[i])
    }

    /** TYPE_DECREF. */
    method DecRef(j: NodeId)
      requires Counted() && AllAlive()
      requires j < |bodies| && outside[j] > 0
      modifies this
      ensures Counted() && AllAlive() && Released(j + 1)
      ensures outside == old(outside) - multiset{j}
      ensures old(linked[j]) ==> freed == old(freed) && frees == old(frees)
      decreases j, 3
    {
      assert CountOk(j);
      refcnt := refcnt[j := refcnt[j] - 1];
      outside := outside - multiset{j};
      forall k | 0 <= k < |bodies| ensures CountOk(k) {
        assert old(CountOk(k));
      }
      assert forall k :: 0 <= k < |bodies| && k != j ==> old(Alive(k)) ==> Alive(k);
      if refcnt[j] <= 0 {
        FreeNode(j);
      }
    }

    twostate lemma FreedIsCounted(j: NodeId)
      requires old(Counted()) && j < |old(bodies)| && !old(freed[j]) && old(refcnt[j]) == 0
      requires bodies == old(bodies) && texts == old(texts) && linked == old(linked) && refcnt == old(refcnt)
      requires freed == old(freed)[j := true] && frees == old(frees) + [j]
      requires outside == old(outside) + multiset(Children(bodies[j]))
      ensures Counted()
    {
      assert Below(Children(bodies[j]), j) && old(CountOk(j));
      forall k | 0 <= k < |bodies| ensures CountOk(k) {
        assert old(CountOk(k));
        EdgesFree(AllChildren(bodies), old(freed), j, k, |bodies|);
        assert k in frees <==> k in old(frees) || k == j;
      }
    }

    /** TypeDesc_Free up to the descriptor's own destructor: the asserts hold, and the node's
        references to its components are now to be given up. */
    method MarkFreed(j: NodeId) returns (children: seq<NodeId>)
      requires Counted() && j < |bodies| && !freed[j] && refcnt[j] == 0
      requires forall i :: 0 <= i < |bodies| && i != j ==> Alive(i)
      modifies this`freed, this`frees, this`outside
      ensures Counted() && AllAlive()
      ensures !bodies[j].BaseNode? && !linked[j]
      ensures Below(children, j) && children == Children(bodies[j])
      ensures freed == old(freed)[j := true]
      ensures outside == old(outside) + multiset(children)
    {
      assert CountOk(j);
      assert !bodies[j].BaseNode? && !linked[j];
      children := Children(bodies[j]);
      assert Below(children, j);
      freed := freed[j := true];
      frees := frees + [j];
      outside := outside + multiset(children);
      FreedIsCounted(j);
      assert forall i :: 0 <= i < |bodies| && i != j ==> old(Alive(i)) ==> Alive(i);
    }

    /** TypeDesc_Free: never a base descriptor, never one that is still in the table. */
    method FreeNode(j: NodeId)
      requires Counted() && j < |bodies| && !freed[j] && refcnt[j] == 0
      requires forall i :: 0 <= i < |bodies| && i != j ==> Alive(i)
      modifies this
      ensures Counted() && AllAlive() && Released(j + 1)
      ensures freed[j] && outside == old(outside)
      decreases j, 2
    {
      var children := MarkFreed(j);
      ReleaseList(children, j);
    }

    /** One step of the list destructors. */
    method ReleaseOne(ids: seq<NodeId>, k: nat, ghost bound: nat, ghost kept: multiset<NodeId>)
      requires Counted() && AllAlive() && k < |ids|
      requires bound <= |bodies| && Below(ids, bound) && outside == kept + multiset(ids[k..])
      modifies this
      ensures Counted() && AllAlive() && Released(bound)
      ensures outside == kept + multiset(ids[k + 1..])
      ensures old(linked[ids[k]]) ==> freed == old(freed) && frees == old(frees)
      decreases bound, 0
    {
      assert ids[k..] == [ids[k]] + ids[k + 1..];
      DecRef(ids[k]);
    }

    /** The list destructors: every element gives up one reference. */
    method ReleaseList(ids: seq<NodeId>, ghost bound: nat)
      requires Counted() && AllAlive()
      requires bound <= |bodies| && Below(ids, bound) && multiset(ids) <= outside
      modifies this
      ensures Counted() && AllAlive() && Released(bound)
      ensures outside == old(outside) - multiset(ids)
      ensures AllLinked(ids, old(linked)) ==> freed == old(freed) && frees == old(frees)
      decreases bound, 1
    {
      ghost var kept := outside - multiset(ids);
      assert ids[0..] == ids;
      for k := 0 to |ids|
        invariant Counted() && AllAlive() && Released(bound)
        invariant outside == kept + multiset(ids[k..])
        invariant AllLinked(ids, old(linked)) ==> freed == old(freed) && frees == old(frees)
      {
        ReleaseOne(ids, k, bound, kept);
      }
    }

    // -------------------------------------------------------------- function types

    lemma {:induction false} LinkedIsAlive()
      requires Valid()
      ensures AllAlive()
    {
      forall i | 0 <= i < |bodies| ensures Alive(i) {
        assert CountOk(i);
      }
    }

    /** TypeList_ToString. */
    method ListText(ids: seq<NodeId>) returns (text: string)
      requires Interned() && Below(ids, |bodies|)
      ensures text == PrintList(DenoteList(bodies, ids, |bodies|))
      ensures NormalList(DenoteList(bodies, ids, |bodies|))
    {
      text := "";
      ghost var n := |bodies|;
      assert ids[0..] == ids;
      for k := 0 to |ids|
        invariant Below(ids[k..], n)
        invariant PrintList(DenoteList(bodies, ids, n)) == text + PrintList(DenoteList(bodies, ids[k..], n))
        invariant NormalList(DenoteList(bodies, ids[k..], n)) ==> NormalList(DenoteList(bodies, ids, n))
      {
        assert ids[k..][1..] == ids[k + 1..];
        assert Normal(Denote(bodies, ids[k])) && texts[ids[k]] == Print(Denote(bodies, ids[k]));
        ghost var here := DenoteList(bodies, ids[k..], n);
        assert here[1..] == DenoteList(bodies, ids[k + 1..], n);
        text := text + texts[ids[k]];
      }
    }

    /** The two free_typelist calls of TypeDesc_Get_Proto: nothing is freed, the table still holds
        every component. */
    method DropLists(args: seq<NodeId>, rets: seq<NodeId>)
      requires Valid() && Below(args, |bodies|) && Below(rets, |bodies|)
      requires multiset(args) + multiset(rets) <= outside
      modifies this
      ensures Valid() && bodies == old(bodies)
      ensures outside == old(outside) - (multiset(args) + multiset(rets))
    {
      LinkedIsAlive();
      assert AllLinked(args, linked) && AllLinked(rets, linked);
      ReleaseList(args, |bodies|);
      ReleaseList(rets, |bodies|);
    }

    method NewProto(args: seq<NodeId>, rets: seq<NodeId>, text: string) returns (i: NodeId)
      requires Valid() && Below(args, |bodies|) && Below(rets, |bodies|)
      requires multiset(args) + multiset(rets) <= outside
      requires Find(texts, linked, text) == |texts|
      requires var d := Proto(DenoteList(bodies, args, |bodies|), DenoteList(bodies, rets, |bodies|));
        Normal(d) && text == Print(d)
      modifies this
      ensures Valid() && old(bodies) <= bodies && i < |bodies|
      ensures i == |old(bodies)| && |bodies| == i + 1
      ensures outside == old(outside) - (multiset(args) + multiset(rets))
      ensures Denote(bodies, i) ==
              Proto(old(DenoteList(bodies, args, |bodies|)), old(DenoteList(bodies, rets, |bodies|)))
    {
      var body := ProtoNode(args, rets);
      assert multiset(Children(body)) == multiset(args) + multiset(rets);
      assert Below(Children(body), |bodies|);
      i := NewNode(body, text);
    }

    /** TypeDesc_Get_Proto.  The caller's references to the components go into the new node, or are
        given up when the descriptor exists already. */
    method GetProto(args: seq<NodeId>, rets: seq<NodeId>) returns (i: NodeId)
      requires Valid() && Below(args, |bodies|) && Below(rets, |bodies|)
      requires multiset(args) + multiset(rets) <= outside
      modifies this
      ensures Valid() && old(bodies) <= bodies && i < |bodies|
      ensures outside == old(outside) - (multiset(args) + multiset(rets))
      ensures Denote(bodies, i) ==
              Proto(old(DenoteList(bodies, args, |bodies|)), old(DenoteList(bodies, rets, |bodies|)))
      ensures |bodies| == |old(bodies)| || (i == |old(bodies)| && |bodies| == i + 1)
    {
      ghost var d := Proto(DenoteList(bodies, args, |bodies|), DenoteList(bodies, rets, |bodies|));
      var argText := ListText(args);
      var retText := ListText(rets);
      var text := "P" + (argText + (":" + (retText + ";")));
      i := Find(texts, linked, text);
      if i < |texts| {
        FoundIsIt(i, d);
        DropLists(args, rets);
      } else {
        i := NewProto(args, rets, text);
      }
    }

    // -------------------------------------------------------------- reading text

    /** String_To_TypeDesc: reads one descriptor at `pos` and interns it.  It fails exactly where the
        reader of TypeText does, and otherwise the node stands for what was read. */
    method ReadDesc(s: string, pos: nat, ctx: Context) returns (ok: bool, node: NodeId, next: nat)
      requires Valid() && pos <= |s|
      modifies this
      ensures Valid() && old(bodies) <= bodies
      ensures ok <==> Read(false, s[pos..], ctx).Some?
      ensures ok ==>
                && outside == old(outside)
                && node < |bodies| && pos < next <= |s|
                && Read(false, s[pos..], ctx) == Some(Reading(Denote(bodies, node), s[next..]))
      decreases |s| - pos, 2
    {
      ok, node, next := false, 0, pos;
      if pos == |s| {
        return;
      }
      if s[pos] != '[' && s[pos] != '.' {
        PlainUnfolds(s[pos..], ctx);
      }
      assert s[pos..][1..] == s[pos + 1..];
      hide Read, ReadUntil, Denote, DenoteList, DenoteBody, TextsOk, Pool.CountOk;
      match s[pos]
      case 'L' => ok, node, next := ReadKlassAt(s, pos);
      case '[' => ok, node, next := ReadArrayAt(s, pos, ctx);
      case 'M' => ok, node, next := ReadMapAt(s, pos);
      case 'S' => ok, node, next := ReadSetAt(s, pos);
      case 'P' => ok, node, next := ReadProtoAt(s, pos);
      case '.' => ok, node, next := ReadVargAt(s, pos, ctx);
      case kind =>
        if kind in BASES {
          node := GetBase(kind);
          ok, next := true, pos + 1;
        }
    }

    /** The scan for the ';' that ends a class. */
    method ScanToSemicolon(s: string, pos: nat) returns (end: nat)
      requires pos <= |s|
      ensures pos <= end <= |s| && end - pos == IndexOf(s[pos..], ';')
    {
      end := pos;
      while end < |s| && s[end] != ';'
        invariant pos <= end <= |s|
        invariant IndexOf(s[pos..], ';') == end - pos + IndexOf(s[end..], ';')
      {
        assert s[end..][1..] == s[end + 1..];
        end := end + 1;
      }
    }

    lemma {:induction false} KlassPieces(s: string, k: nat, dot: nat, end: nat)
      requires k + dot < end < |s| && dot == IndexOf(s[k..], '.') && end - k == IndexOf(s[k..], ';')
      ensures var d := Klass(PathOf(s[k..k + dot]), s[k + dot + 1..end]);
        Normal(d) && ReadKlass(s[k..]) == Some(Reading(d, s[end + 1..]))
    {
      hide Read, Normal, Print, Denote, Layered, Valid;
      var text := s[k..];
      assert text[..dot] == s[k..k + dot] && text[dot + 1..end - k] == s[k + dot + 1..end];
      assert text[end - k + 1..] == s[end + 1..];
      KlassIsNormal(text, dot, end - k);
    }

    /** The case 'L': a scan for ';', then string_to_klass. */
    method ReadKlassAt(s: string, pos: nat) returns (ok: bool, node: NodeId, next: nat)
      requires Valid() && pos < |s| && s[pos] == 'L'
      modifies this
      ensures Valid() && old(bodies) <= bodies
      ensures ok <==> ReadKlass(s[pos + 1..]).Some?
      ensures ok ==>
                && outside == old(outside)
                && node < |bodies| && pos < next <= |s|
                && ReadKlass(s[pos + 1..]) == Some(Reading(Denote(bodies, node), s[next..]))
    {
      ok, node := false, 0;
      var k := pos + 1;
      next := ScanToSemicolon(s, k);
      var dot := IndexOf(s[k..], '.');
      if next == |s| || k + dot > next {
        return;
      }
      KlassPieces(s, k, dot, next);
      node := GetKlass(PathOf(s[k..k + dot]), s[k + dot + 1..next]);
      ok, next := true, next + 1;
    }

    /** The case '[': counts brackets, then reads the element type. */
    method ReadArrayAt(s: string, pos: nat, ctx: Context) returns (ok: bool, node: NodeId, next: nat)
      requires Valid() && pos < |s| && s[pos] == '['
      modifies this
      ensures Valid() && old(bodies) <= bodies
      ensures ok <==> Read(false, s[pos..], ctx).Some?
      ensures ok ==>
                && outside == old(outside)
                && node < |bodies| && pos < next <= |s|
                && Read(false, s[pos..], ctx) == Some(Reading(Denote(bodies, node), s[next..]))
      decreases |s| - pos, 1
    {
      ok, node, next := false, 0, pos;
      ArrayUnfolds(s[pos..], ctx);
      hide Read, ReadUntil, Denote, DenoteList, DenoteBody, TextsOk, Pool.CountOk;
      if ctx != Top {
        return;
      }
      var dims := 0;
      while next < |s| && s[next] == '['
        invariant pos <= next <= |s| && dims == next - pos
        invariant CountBrackets(s[pos..]) == dims + CountBrackets(s[next..])
      {
        assert s[next..][1..] == s[next + 1..];
        dims := dims + 1;
        next := next + 1;
      }
      assert s[pos..][dims..] == s[next..];
      var base;
      ok, base, next := ReadDesc(s, next, InArray);
      if ok {
        ReadIsSound(s[pos..][dims..], InArray);
        node := GetArray(dims, base);
      }
    }

    /** The case 'M': two descriptors, with nothing skipped between them. */
    method ReadMapAt(s: string, pos: nat) returns (ok: bool, node: NodeId, next: nat)
      requires Valid() && pos < |s| && s[pos] == 'M'
      modifies this
      ensures Valid() && old(bodies) <= bodies
      ensures ok <==> Read(false, s[pos..], Top).Some?
      ensures ok ==>
                && outside == old(outside)
                && node < |bodies| && pos < next <= |s|
                && Read(false, s[pos..], Top) == Some(Reading(Denote(bodies, node), s[next..]))
      decreases |s| - pos, 1
    {
      node := 0;
      assert s[pos..][1..] == s[pos + 1..];
      MapUnfolds(false, s[pos..], Top);
      hide Read, ReadUntil, Denote, DenoteList, DenoteBody, TextsOk, Pool.CountOk;
      var key, val;
      ok, key, next := ReadDesc(s, pos + 1, Top);
      if ok {
        ghost var before := bodies;
        ok, val, next := ReadDesc(s, next, Top);
        if ok {
          DenoteStable(before, bodies, key);
          node := GetMap(key, val);
        }
      }
    }

    /** The case 'S': the element type. */
    method ReadSetAt(s: string, pos: nat) returns (ok: bool, node: NodeId, next: nat)
      requires Valid() && pos < |s| && s[pos] == 'S'
      modifies this
      ensures Valid() && old(bodies) <= bodies
      ensures ok <==> Read(false, s[pos..], Top).Some?
      ensures ok ==>
                && outside == old(outside)
                && node < |bodies| && pos < next <= |s|
                && Read(false, s[pos..], Top) == Some(Reading(Denote(bodies, node), s[next..]))
      decreases |s| - pos, 1
    {
      node := 0;
      assert s[pos..][1..] == s[pos + 1..];
      SetUnfolds(s[pos..], Top);
      hide Read, ReadUntil, Denote, DenoteList, DenoteBody, TextsOk, Pool.CountOk;
      var base;
      ok, base, next := ReadDesc(s, pos + 1, Top);
      if ok {
        node := GetSet(base);
      }
    }

    /** The case '.': an optional base behind "...". */
    method ReadVargAt(s: string, pos: nat, ctx: Context) returns (ok: bool, node: NodeId, next: nat)
      requires Valid() && pos < |s| && s[pos] == '.'
      modifies this
      ensures Valid() && old(bodies) <= bodies
      ensures ok <==> Read(false, s[pos..], ctx).Some?
      ensures ok ==>
                && outside == old(outside)
                && node < |bodies| && pos < next <= |s|
                && Read(false, s[pos..], ctx) == Some(Reading(Denote(bodies, node), s[next..]))
      decreases |s| - pos, 1
    {
      ok, node, next := false, 0, pos + 3;
      VargUnfolds(s[pos..], ctx);
      hide Read, ReadUntil, Denote, DenoteList, DenoteBody, TextsOk, Pool.CountOk;
      if ctx != Top || |s| < pos + 3 || s[pos + 1] != '.' || s[pos + 2] != '.' {
        return;
      }
      assert s[pos..][3..] == s[pos + 3..];
      var base;
      if next < |s| && s[next] == 'A' {
        assert s[pos..][4..] == s[pos + 4..];
        base := GetBase('A');
        ok, next := true, next + 1;
      } else {
        ok, base, next := ReadDesc(s, next, InVarg);
        if ok {
          ReadIsSound(s[pos + 3..], InVarg);
        }
      }
      if ok {
        node := GetVarg(base);
      }
    }

    /** The case 'P': arguments up to ':', results up to ';', each element with a reference of its own. */
    method ReadProtoAt(s: string, pos: nat) returns (ok: bool, node: NodeId, next: nat)
      requires Valid() && pos < |s| && s[pos] == 'P'
      modifies this
      ensures Valid() && old(bodies) <= bodies
      ensures ok <==> Read(false, s[pos..], Top).Some?
      ensures ok ==>
                && outside == old(outside)
                && node < |bodies| && pos < next <= |s|
                && Read(false, s[pos..], Top) == Some(Reading(Denote(bodies, node), s[next..]))
      decreases |s| - pos, 1
    {
      node := 0;
      assert s[pos..][1..] == s[pos + 1..];
      ProtoUnfolds(false, s[pos..], Top);
      hide Read, ReadUntil, Denote, DenoteList, DenoteBody, Layered, Below, Print, PrintList, Pool.Valid;
      var args, rets;
      ok, args, next := ReadListAt(s, pos + 1, ':');
      if ok {
        ghost var before := bodies;
        ValidIsLayered();
        ok, rets, next := ReadListAt(s, next, ';');
        if ok {
          ValidIsLayered();
          DenoteListGrows(before, bodies, args);
          node := GetProto(args, rets);
        }
      }
    }

    /** One more element of a list, with a reference of its own. */
    method ReadElement(s: string, pos: nat, ids: seq<NodeId>, ghost held: multiset<NodeId>)
      returns (ok: bool, more: seq<NodeId>, next: nat)
      requires Valid() && pos <= |s| && Below(ids, |bodies|) && outside == held + multiset(ids)
      modifies this
      ensures Valid() && old(bodies) <= bodies && Below(more, |bodies|)
      ensures ok <==> Read(false, s[pos..], Top).Some?
      ensures ok ==>
                && outside == held + multiset(more)
                && pos < next <= |s| && s[next..] == Read(false, s[pos..], Top).value.rest
                && DenoteList(bodies, more, |bodies|)
                   == old(DenoteList(bodies, ids, |bodies|)) + [Read(false, s[pos..], Top).value.value]
      decreases |s| - pos, 3
    {
      ghost var before := bodies;
      more := ids;
      var node;
      ok, node, next := ReadDesc(s, pos, Top);
      if ok {
        DenoteListStable(before, bodies, ids, |before|);
        DenoteListBound(bodies, ids, |before|, |bodies|);
        DenoteListAppend(bodies, ids, node, |bodies|);
        IncRef(node);
        more := ids + [node];
      }
    }

    /** The loop over a list of descriptors and the closing character behind it. */
    method ReadListAt(s: string, pos: nat, close: char) returns (ok: bool, ids: seq<NodeId>, next: nat)
      requires Valid() && pos <= |s|
      modifies this
      ensures Valid() && old(bodies) <= bodies
      ensures ok <==> ReadUntil(false, s[pos..], close).Some?
      ensures ok ==>
                && outside == old(outside) + multiset(ids)
                && Below(ids, |bodies|) && pos < next <= |s|
                && ReadUntil(false, s[pos..], close) == Some(Reading(DenoteList(bodies, ids, |bodies|), s[next..]))
      decreases |s| - pos, 4
    {
      hide Read, Denote, DenoteBody, TextsOk, Pool.CountOk;
      ok, ids, next := true, [], pos;
      PrependTwice([], [], ReadUntil(false, s[pos..], close));
      while next < |s| && s[next] != close
        invariant pos <= next <= |s|
        invariant Valid() && old(bodies) <= bodies
        invariant Below(ids, |bodies|)
        invariant outside == old(outside) + multiset(ids)
        invariant ReadUntil(false, s[pos..], close)
               == Prepend(DenoteList(bodies, ids, |bodies|), ReadUntil(false, s[next..], close))
      {
        ghost var front := DenoteList(bodies, ids, |bodies|);
        ReadUntilUnfolds(s[next..], close);
        ghost var head := Read(false, s[next..], Top);
        ok, ids, next := ReadElement(s, next, ids, old(outside));
        if !ok {
          return;
        }
        PrependTwice(front, [head.value.value], ReadUntil(false, s[next..], close));
      }
      if next == |s| {
        return false, ids, next;
      }
      assert s[next..][1..] == s[next + 1..];
      assert DenoteList(bodies, ids, |bodies|) + [] == DenoteList(bodies, ids, |bodies|);
      next := next + 1;
    }

    // -------------------------------------------------------------- teardown

    /** HashTable_Fini with desc_free_func: nodes leave the table in insertion order, each giving up
        the table's reference.  Only nodes already visited are freed, so the saved next pointer of
        the safe list walk stays good.  The table is clean, with every other descriptor freed and the
        assert in check_basic_refcnt satisfied, exactly when no caller still holds a reference. */
    method Fini()
      requires Valid()
      modifies this
      ensures Counted() && AllAlive() && bodies == old(bodies) && outside == old(outside)
      ensures forall i :: 0 <= i < |bodies| ==> !linked[i]
      ensures Clean() <==> outside == multiset{}
    {
      LinkedIsAlive();
      for i := 0 to |bodies|
        invariant Counted() && AllAlive()
        invariant bodies == old(bodies) && outside == old(outside)
        invariant forall k :: 0 <= k < |bodies| ==> (linked[k] <==> i <= k)
        invariant forall k :: 0 <= k < |bodies| && freed[k] ==> k < i
      {
        Unlink(i);
        DecRef(i);
      }
      CleanExactly();
    }

    /** The node leaves the table; its reference is now to be given up. */
    method Unlink(i: NodeId)
      requires Counted() && AllAlive() && i < |bodies| && linked[i]
      modifies this`linked, this`outside
      ensures Counted() && AllAlive()
      ensures linked == old(linked)[i := false] && outside == old(outside) + multiset{i}
    {
      linked := linked[i := false];
      outside := outside + multiset{i};
      forall k | 0 <= k < |bodies| ensures CountOk(k) {
        assert old(CountOk(k));
      }
      assert forall k :: 0 <= k < |bodies| ==> old(Alive(k)) ==> Alive(k);
    }

    ghost predicate Clean()
      requires Sized()
      reads this
    {
      forall i :: 0 <= i < |bodies| ==> if bodies[i].BaseNode? then refcnt[i] == 1 else freed[i] && i in frees
    }

    /** With nothing in the table, a node other than a base lives on only through a later node or a
        caller: without callers the last one alive would have nobody. */
    lemma {:induction false} AllFreedFrom(k: nat)
      requires Counted() && AllAlive() && outside == multiset{} && k <= |bodies|
      requires forall i :: 0 <= i < |bodies| ==> !linked[i]
      ensures forall i :: k <= i < |bodies| ==> freed[i] || bodies[i].BaseNode?
      decreases |bodies| - k
    {
      hide Layered, AllChildren, Edges;
      if k < |bodies| {
        AllFreedFrom(k + 1);
        assert CountOk(k) && Alive(k);
        NoLaterEdges(bodies, freed, k);
      }
    }

    lemma {:induction false} CleanExactly()
      requires Counted() && AllAlive()
      requires forall i :: 0 <= i < |bodies| ==> !linked[i]
      ensures Clean() <==> outside == multiset{}
    {
      if outside == multiset{} {
        AllFreedFrom(0);
        forall i | 0 <= i < |bodies|
          ensures if bodies[i].BaseNode? then refcnt[i] == 1 else freed[i] && i in frees
        {
          assert CountOk(i);
          NoEdgesFromFreed(AllChildren(bodies), freed, i, |bodies|);
        }
      } else {
        var x :| x in outside;
        assert CountOk(x);
      }
    }
  }

  ghost predicate AllLinked(ids: seq<NodeId>, linked: seq<bool>) {
    forall k :: 0 <= k < |ids| ==> ids[k] < |linked| && linked[ids[k]]
  }
}
