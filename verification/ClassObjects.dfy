/** Classes, their members and their objects (src/object.c). */
module ClassObjects {
  import opened ClassOrder
  import opened ClassLayout

  datatype LroNode = LroNode(offset: nat, klazz: Klass)

  datatype Member = Var(offset: nat) | Func(code: int) | Prototype

  class Klass {
    var lro: seq<LroNode>
    var members: map<string, Member>
    var nrvars: nat
    var totalvars: nat

    /** A zeroed class; Any stays like this. */
    constructor ()
      ensures lro == [] && members == map[] && nrvars == 0 && totalvars == 0
    {
      lro := [];
      members := map[];
      nrvars := 0;
      totalvars := 0;
    }
  }

  ghost function Order(lro: seq<LroNode>): (s: seq<Klass>)
    ensures |s| == |lro| && forall i :: 0 <= i < |lro| ==> s[i] == lro[i].klazz
  {
    seq(|lro|, i requires 0 <= i < |lro| => lro[i].klazz)
  }

  ghost function Sizes(s: seq<Klass>): (sizes: seq<nat>)
    reads s`nrvars
    ensures |sizes| == |s| && forall i :: 0 <= i < |s| ==> sizes[i] == s[i].nrvars
  {
    if s == [] then [] else Sizes(s[..|s| - 1]) + [s[|s| - 1].nrvars]
  }

  /** Each node's offset is where the fields of its class start. */
  ghost predicate OffsetsOk(lro: seq<LroNode>)
    reads Order(lro)`nrvars
  {
    forall i :: 0 <= i < |lro| ==> lro[i].offset == Offset(Sizes(Order(lro)), i)
  }

  /** The search orders of all classes. */
  ghost function Orders(all: set<Klass>): map<Klass, seq<Klass>>
    reads all`lro
  {
    map k | k in all :: Order(k.lro)
  }

  /** Fields have their own offsets, below the field count. */
  ghost predicate FieldsOk(k: Klass)
    reads k`members, k`nrvars
  {
    && (forall n :: n in k.members && k.members[n].Var? ==> k.members[n].offset < k.nrvars)
    && (forall n, m :: n in k.members && m in k.members && k.members[n].Var? && k.members[n] == k.members[m] ==> n == m)
  }

  ghost predicate LayoutOk(k: Klass)
    reads k`lro, k`totalvars, Order(k.lro)`nrvars
  {
    OffsetsOk(k.lro) && k.totalvars == Sum(Sizes(Order(k.lro)))
  }

  ghost predicate Within(k: Klass, all: set<Klass>)
    reads k`lro
  {
    forall c :: c in Order(k.lro) ==> c in all
  }

  /** What holds of all classes at all times. */
  ghost predicate World(any: Klass, all: set<Klass>)
    reads all
  {
    && Hierarchy(Orders(all), any)
    && any.nrvars == 0
    && forall k :: k in all ==> FieldsOk(k) && Within(k, all) && LayoutOk(k)
  }

  /** The orders of the bases. */
  ghost function Lines(bases: seq<Klass>): (lines: seq<seq<Klass>>)
    reads bases`lro
    ensures |lines| == |bases| && forall i :: 0 <= i < |bases| ==> lines[i] == Order(bases[i].lro)
  {
    if bases == [] then [] else Lines(bases[..|bases| - 1]) + [Order(bases[|bases| - 1].lro)]
  }

  // ---------------------------------------------------------------- lro_build

  /** Going through the orders of the bases one after the other, y has not been met when node i of base l
      has been looked at. */
  ghost predicate NotYetMet(bases: seq<Klass>, l: nat, i: nat, y: Klass)
    requires l < |bases| && i < |bases[l].lro|
    reads bases`lro
  {
    && (forall m, j :: 0 <= m < l && 0 <= j < |bases[m].lro| ==> bases[m].lro[j].klazz != y)
    && (forall j :: 0 <= j <= i ==> bases[l].lro[j].klazz != y)
  }

  /** Behind the root, the classes of the bases stand in the order in which they are first met: whatever
      is met before the class at position b stands before it. */
  ghost predicate FirstMetOrder(any: Klass, bases: seq<Klass>, lro: seq<LroNode>)
    reads bases`lro
  {
    forall l, i, b :: 0 <= l < |bases| && 0 <= i < |bases[l].lro| && 0 < b < |lro| && lro[b].klazz != any
        && NotYetMet(bases, l, i, lro[b].klazz)
      ==> exists a :: 0 <= a < b && lro[a].klazz == bases[l].lro[i].klazz
  }

  lemma {:induction false} MetInOrder(any: Klass, bases: seq<Klass>, k: Klass)
    requires Order(k.lro) == Linearize(any, Lines(bases), k)
    ensures FirstMetOrder(any, bases, k.lro)
  {
    forall l, i, b | 0 <= l < |bases| && 0 <= i < |bases[l].lro| && 0 < b < |k.lro| && k.lro[b].klazz != any
        && NotYetMet(bases, l, i, k.lro[b].klazz)
      ensures exists a :: 0 <= a < b && k.lro[a].klazz == bases[l].lro[i].klazz
    {
      FirstMetFirst(any, Lines(bases), k, l, i, b);
      var x := Order(bases[l].lro)[i];
      assert x in Order(k.lro)[..b];
      var a :| 0 <= a < b && Order(k.lro)[..b][a] == x;
      assert k.lro[a].klazz == x;
    }
  }

  /** lro_find. */
  method LroFind(lro: seq<LroNode>, k: Klass) returns (found: bool)
    ensures found <==> k in Order(lro)
  {
    for i := 0 to |lro|
      invariant k !in Order(lro[..i])
    {
      if lro[i].klazz == k {
        assert Order(lro)[i] == k;
        return true;
      }
      assert lro[..i + 1] == lro[..i] + [lro[i]];
    }
    assert lro[..|lro|] == lro;
    return false;
  }

  lemma {:induction false} SizesAppend(s: seq<Klass>, k: Klass)
    ensures Sizes(s + [k]) == Sizes(s) + [k.nrvars]
  {
    assert (s + [k])[..|s|] == s;
  }

  lemma {:induction false} OffsetsAppend(lro: seq<LroNode>, offset: nat, k: Klass)
    requires OffsetsOk(lro) && offset == Sum(Sizes(Order(lro)))
    requires Order(lro + [LroNode(offset, k)]) == Order(lro) + [k]
    ensures OffsetsOk(lro + [LroNode(offset, k)])
  {
    var more, sizes := lro + [LroNode(offset, k)], Sizes(Order(lro));
    SizesAppend(Order(lro), k);
    OffsetEnds(sizes);
    hide Sizes, Sum, Offset, Order;
    forall i | 0 <= i < |more|
      ensures more[i].offset == Offset(Sizes(Order(more)), i)
    {
      PrefixKeepsOffsets(sizes, sizes + [k.nrvars], i);
      if i < |lro| {
        assert more[i] == lro[i];
      }
    }
  }

  /** Appending a node whose offset is the number of fields before it. */
  lemma {:induction false} AppendNode(lro: seq<LroNode>, offset: nat, k: Klass)
    requires OffsetsOk(lro) && offset == Sum(Sizes(Order(lro)))
    ensures var more := lro + [LroNode(offset, k)];
      && OffsetsOk(more) && Order(more) == Order(lro) + [k]
      && Sum(Sizes(Order(more))) == offset + k.nrvars
  {
    hide Sizes, Sum, OffsetsOk;
    assert Order(lro + [LroNode(offset, k)]) == Order(lro) + [k];
    hide Order;
    OffsetsAppend(lro, offset, k);
    SizesAppend(Order(lro), k);
    SumAppend(Sizes(Order(lro)), k.nrvars);
  }

  lemma {:induction false} NoNodes()
    ensures OffsetsOk([]) && Sum(Sizes(Order([]))) == 0
  {}

  /** lro_build on a class without fields yet. */
  method LroBuild(klazz: Klass, any: Klass, bases: seq<Klass>)
    requires klazz !in bases && klazz != any && klazz.lro == [] && klazz.nrvars == 0
    modifies klazz`lro, klazz`totalvars
    ensures Order(klazz.lro) == Linearize(any, Lines(bases), klazz)
    ensures FirstMetOrder(any, bases, klazz.lro)
    ensures OffsetsOk(klazz.lro) && klazz.totalvars == Sum(Sizes(Order(klazz.lro)))
  {
    hide Sizes, Lines, Sum, Offset, OffsetsOk, AddLine;
    var offset := 0;
    NoNodes();
    AppendNode(klazz.lro, offset, any);
    klazz.lro := klazz.lro + [LroNode(offset, any)];
    offset := offset + any.nrvars;
    ghost var lines := Lines(bases);
    assert lines[0..] == lines && Order(klazz.lro) == [any];
    for i := 0 to |bases|
      invariant Lines(bases) == lines
      invariant OffsetsOk(klazz.lro) && offset == Sum(Sizes(Order(klazz.lro)))
      invariant AddLines(Order(klazz.lro), lines[i..]) == AddLines([any], lines)
    {
      assert lines[i..][0] == Order(bases[i].lro) && lines[i..][1..] == lines[i + 1..];
      offset := AddBase(klazz, bases[i], offset);
    }
    AppendNode(klazz.lro, offset, klazz);
    klazz.lro := klazz.lro + [LroNode(offset, klazz)];
    klazz.totalvars := offset;
    hide Order, Linearize, AddLines, FirstMetOrder;
    MetInOrder(any, bases, klazz);
  }

  /** The inner loop of lro_build. */
  method AddBase(klazz: Klass, line: Klass, start: nat) returns (offset: nat)
    requires klazz != line && OffsetsOk(klazz.lro) && start == Sum(Sizes(Order(klazz.lro)))
    modifies klazz`lro
    ensures OffsetsOk(klazz.lro) && offset == Sum(Sizes(Order(klazz.lro)))
    ensures Order(klazz.lro) == AddLine(old(Order(klazz.lro)), Order(line.lro))
  {
    hide Sizes, Sum, Offset, OffsetsOk;
    offset := start;
    ghost var whole := Order(line.lro);
    assert whole[0..] == whole;
    for j := 0 to |line.lro|
      invariant OffsetsOk(klazz.lro) && offset == Sum(Sizes(Order(klazz.lro)))
      invariant AddLine(Order(klazz.lro), whole[j..]) == AddLine(old(Order(klazz.lro)), whole)
    {
      var node := line.lro[j];
      assert whole[j..][0] == node.klazz && whole[j..][1..] == whole[j + 1..];
      var found := LroFind(klazz.lro, node.klazz);
      if !found {
        AppendNode(klazz.lro, offset, node.klazz);
        klazz.lro := klazz.lro + [LroNode(offset, node.klazz)];
        offset := offset + node.klazz.nrvars;
      }
    }
  }

  /** Klass_New. */
  method KlassNew(any: Klass, bases: seq<Klass>, ghost all: set<Klass>) returns (k: Klass)
    requires World(any, all) && forall b :: b in bases ==> b in all
    ensures fresh(k) && World(any, all + {k})
    ensures Order(k.lro) == Linearize(any, Lines(bases), k) && FirstMetOrder(any, bases, k.lro)
    ensures bases != [] ==> Order(bases[0].lro) <= Order(k.lro)
    ensures forall c :: c in Order(k.lro) ==> c == any || c == k || exists b :: b in bases && c in Order(b.lro)
    ensures any in Order(k.lro) && k in Order(k.lro)
    ensures forall b, c :: b in bases && c in Order(b.lro) ==> c in Order(k.lro)
    ensures k.members == map[] && k.nrvars == 0
  {
    hide Sizes, Lines, Sum, Offset, OffsetsOk, Linearize, World, Order, FirstMetOrder;
    k := new Klass();
    LroBuild(k, any, bases);
    NewWorld(any, all, bases, k);
    NewOrder(any, all, bases, k);
  }

  lemma {:induction false} NewWorld(any: Klass, all: set<Klass>, bases: seq<Klass>, k: Klass)
    requires World(any, all) && k !in all && forall b :: b in bases ==> b in all
    requires Order(k.lro) == Linearize(any, Lines(bases), k)
    requires OffsetsOk(k.lro) && k.totalvars == Sum(Sizes(Order(k.lro))) && k.members == map[]
    ensures World(any, all + {k})
  {
    hide Sizes, Lines, Sum, Offset, Linearize, Hierarchy, OffsetsOk, FieldsOk, Order;
    NewHierarchy(any, all, bases, k);
    HierarchyAt(Orders(all + {k}), any, k);
    assert FieldsOk(k) by {
      NoFields(k);
    }
  }

  lemma {:induction false} NoFields(k: Klass)
    requires k.members == map[]
    ensures FieldsOk(k)
  {}

  lemma {:induction false} NewHierarchy(any: Klass, all: set<Klass>, bases: seq<Klass>, k: Klass)
    requires Hierarchy(Orders(all), any) && k !in all && forall b :: b in bases ==> b in all
    requires Order(k.lro) == Linearize(any, Lines(bases), k)
    ensures Hierarchy(Orders(all + {k}), any)
  {
    hide Hierarchy, Linearize, Order;
    var orders := Orders(all);
    SameLines(orders, all, bases);
    LinearizeKeepsHierarchy(orders, any, bases, k);
    assert Orders(all + {k}) == orders[k := Order(k.lro)];
  }

  /** The order of a new class is the union of its bases' orders with the root and the class, and starts
      with the whole order of the first base. */
  lemma {:induction false} NewOrder(any: Klass, all: set<Klass>, bases: seq<Klass>, k: Klass)
    requires World(any, all) && k !in all && forall b :: b in bases ==> b in all
    requires Order(k.lro) == Linearize(any, Lines(bases), k)
    ensures bases != [] ==> Order(bases[0].lro) <= Order(k.lro)
    ensures forall c :: c in Order(k.lro) ==> c == any || c == k || exists b :: b in bases && c in Order(b.lro)
    ensures any in Order(k.lro) && k in Order(k.lro)
    ensures forall b, c :: b in bases && c in Order(b.lro) ==> c in Order(k.lro)
  {
    hide Hierarchy, Linearize, Order;
    SameLines(Orders(all), all, bases);
    LinearizeKeepsHierarchy(Orders(all), any, bases, k);
  }

  lemma {:induction false} SameLines(orders: map<Klass, seq<Klass>>, all: set<Klass>, bases: seq<Klass>)
    requires orders == Orders(all) && forall b :: b in bases ==> b in all
    ensures LinesOf(orders, bases) == Lines(bases)
  {
    hide Order;
  }

  /** The fields of a class start where those of the class before it end, and an object ends with the
      fields of the last. */
  lemma {:induction false} LayoutSteps(k: Klass, any: Klass, all: set<Klass>)
    requires World(any, all) && k in all && k.lro != []
    ensures k.lro[0].offset == 0
    ensures forall i :: 0 < i < |k.lro| ==> k.lro[i].offset == k.lro[i - 1].offset + k.lro[i - 1].klazz.nrvars
    ensures var last := k.lro[|k.lro| - 1]; k.totalvars == last.offset + last.klazz.nrvars
  {
    hide Hierarchy, Sizes, FieldsOk, Sum, Offset, Order;
    var sizes := Sizes(Order(k.lro));
    assert LayoutOk(k);
    OffsetEnds(sizes);
    OffsetStep(sizes, |k.lro| - 1);
    forall i | 0 < i < |k.lro|
      ensures k.lro[i].offset == k.lro[i - 1].offset + k.lro[i - 1].klazz.nrvars
    {
      OffsetStep(sizes, i - 1);
    }
  }

  /** Where every hierarchy starts: the root alone, without fields and with an empty order of its own. */
  lemma {:induction false} RootAlone(any: Klass)
    requires any.lro == [] && any.members == map[] && any.nrvars == 0 && any.totalvars == 0
    ensures World(any, {any})
  {
    assert Orders({any}) == map[any := []];
  }

  // ---------------------------------------------------------------- members

  ghost predicate HasField(members: map<string, Member>, o: nat) {
    exists n :: n in members && members[n] == Var(o)
  }

  /** Every slot of the class's own fields has a name. */
  ghost predicate Complete(k: Klass)
    reads k`members, k`nrvars
  {
    forall o: nat :: o < k.nrvars ==> HasField(k.members, o)
  }

  /** No other class has k in its order. */
  ghost predicate Unused(k: Klass, all: set<Klass>)
    reads all`lro
  {
    forall c :: c in all && c != k ==> k !in Order(c.lro)
  }

  /** Klass_Add_Field, on a class not yet used as a base.  A name that is taken still uses up a slot. */
  method AddField(k: Klass, name: string, ghost any: Klass, ghost all: set<Klass>) returns (r: int)
    requires World(any, all) && k in all && k != any && Unused(k, all)
    modifies k`members, k`nrvars, k`totalvars
    ensures World(any, all) && r == 0
    ensures k.members == if name in old(k.members) then old(k.members) else old(k.members)[name := Var(old(k.nrvars))]
    ensures k.nrvars == old(k.nrvars) + 1 && k.totalvars == old(k.totalvars) + 1
    ensures Complete(k) <==> old(Complete(k)) && name !in old(k.members)
  {
    hide Hierarchy, Order, LayoutOk, Complete, FieldsOk;
    HierarchyAt(Orders(all), any, k);
    if name !in k.members {
      k.members := k.members[name := Var(k.nrvars)];
    }
    k.nrvars := k.nrvars + 1;
    k.totalvars := k.totalvars + 1;
    FieldAdded(k);
    OwnLayout(k);
    return 0;
  }

  twostate lemma FieldAdded(k: Klass)
    requires old(FieldsOk(k)) && k.nrvars == old(k.nrvars) + 1
    requires k.members == old(k.members)
          || exists n :: n !in old(k.members) && k.members == old(k.members)[n := Var(old(k.nrvars))]
    ensures FieldsOk(k)
    ensures Complete(k) <==> old(Complete(k)) && k.members != old(k.members)
  {
    if k.members == old(k.members) {
      assert !HasField(k.members, old(k.nrvars));
    } else {
      var n :| n !in old(k.members) && k.members == old(k.members)[n := Var(old(k.nrvars))];
      assert k.members[n] == Var(old(k.nrvars));
      forall o: nat | o < old(k.nrvars)
        ensures HasField(k.members, o) <==> HasField(old(k.members), o)
      {
        if m :| m in old(k.members) && old(k.members)[m] == Var(o) {
          assert k.members[m] == Var(o);
        }
      }
    }
  }

  /** The class is last in its own order, so its new field comes after all others. */
  twostate lemma OwnLayout(k: Klass)
    requires k.lro == old(k.lro) != [] && k.lro[|k.lro| - 1].klazz == k && NoDuplicates(Order(k.lro))
    requires old(LayoutOk(k)) && k.nrvars == old(k.nrvars) + 1 && k.totalvars == old(k.totalvars) + 1
    requires forall c :: c in Order(k.lro) && c != k ==> c.nrvars == old(c.nrvars)
    ensures LayoutOk(k)
  {
    hide Sizes, Sum, Offset, Order;
    var s, n := Order(k.lro), |k.lro| - 1;
    var now, was := Sizes(s), old(Sizes(s));
    forall i | 0 <= i < n
      ensures now[i] == was[i]
    {
      assert s[i] in s && s[n] == k;
    }
    assert now == was[..n] + [old(k.nrvars) + 1] && was == was[..n] + [old(k.nrvars)];
    LastGrows(was[..n], old(k.nrvars));
  }

  /** Klass_Add_Method. */
  method AddMethod(k: Klass, name: string, code: int, ghost any: Klass, ghost all: set<Klass>) returns (r: int)
    requires World(any, all) && k in all
    modifies k`members
    ensures World(any, all) && r == 0
    ensures k.members == if name in old(k.members) then old(k.members) else old(k.members)[name := Func(code)]
  {
    hide Hierarchy, Order, LayoutOk;
    if name !in k.members {
      k.members := k.members[name := Func(code)];
    }
    return 0;
  }

  /** Klass_Add_Proto. */
  method AddProto(k: Klass, name: string, ghost any: Klass, ghost all: set<Klass>) returns (r: int)
    requires World(any, all) && k in all
    modifies k`members
    ensures World(any, all) && r == 0
    ensures k.members == if name in old(k.members) then old(k.members) else old(k.members)[name := Prototype]
  {
    hide Hierarchy, Order, LayoutOk;
    if name !in k.members {
      k.members := k.members[name := Prototype];
    }
    return 0;
  }
}
