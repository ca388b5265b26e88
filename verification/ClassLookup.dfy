/** Looking members up along the search order, and the fields of objects (src/object.c:147-153, 336-425). */
module ClassLookup {
  import opened Basics
  import opened ClassOrder
  import opened ClassLayout
  import opened ClassObjects

  const SUPER: string := "super."

  predicate IsSuper(name: string) {
    |name| >= 6 && name[..6] == SUPER
  }

  /** The name that is looked for. */
  function Key(name: string): string {
    if IsSuper(name) then name[6..] else name
  }

  datatype Found = Found(klazz: Klass, lroindex: nat, member: Member)

  /** Where the class stands in the order, from `index` down; 0 when it is not above the root. */
  ghost function Position(lro: seq<LroNode>, k: Klass, index: nat): (p: nat)
    requires index < |lro| || index == 0
    ensures p <= index && (p > 0 ==> lro[p].klazz == k)
    ensures forall i :: p < i <= index ==> lro[i].klazz != k
  {
    if index == 0 || lro[index].klazz == k then index else Position(lro, k, index - 1)
  }

  /** The greatest position from `index` down, above the root, whose class has the member; 0 if none has. */
  ghost function Definition(lro: seq<LroNode>, key: string, index: nat): (d: nat)
    requires index < |lro| || index == 0
    reads Order(lro)`members
    ensures d <= index && (d > 0 ==> key in lro[d].klazz.members)
    ensures forall i :: d < i <= index ==> key !in lro[i].klazz.members
  {
    if index == 0 then 0
    else
      assert Order(lro)[index] == lro[index].klazz;
      if key in lro[index].klazz.members then index else Definition(lro, key, index - 1)
  }

  /** Where the search starts: at the class, or just below it for "super.". */
  ghost function StartOf(lro: seq<LroNode>, base: Klass, name: string): (start: nat)
    ensures start < |lro| || start == 0
  {
    var p := if lro == [] then 0 else Position(lro, base, |lro| - 1);
    if IsSuper(name) && p > 0 then p - 1 else p
  }

  ghost function DefinitionOf(lro: seq<LroNode>, base: Klass, name: string): (d: nat)
    reads Order(lro)`members
    ensures d < |lro| || d == 0
  {
    Definition(lro, Key(name), StartOf(lro, base, name))
  }

  ghost function Lookup(lro: seq<LroNode>, base: Klass, name: string): Option<Found>
    reads Order(lro)`members
  {
    var d := DefinitionOf(lro, base, name);
    if d == 0 then None
    else
      assert Order(lro)[d] == lro[d].klazz;
      Some(Found(lro[d].klazz, lro[d].offset, lro[d].klazz.members[Key(name)]))
  }

  /** The slot of a field, if the lookup finds one. */
  ghost function Slot(lro: seq<LroNode>, base: Klass, name: string): Option<nat>
    reads Order(lro)`members
  {
    var f := Lookup(lro, base, name);
    if f.Some? && f.value.member.Var? then Some(f.value.lroindex + f.value.member.offset) else None
  }

  /** The class stands at position p of the order, above the root, and nowhere further on. */
  ghost predicate Stands(lro: seq<LroNode>, k: Klass, p: nat) {
    0 < p < |lro| && lro[p].klazz == k && forall i :: p < i < |lro| ==> lro[i].klazz != k
  }

  /** What a search from position p yields: of the classes at p (below p for "super.") and further down,
      above the root, the first that has the member, or nothing exactly when none has it. */
  ghost predicate FoundFrom(lro: seq<LroNode>, p: nat, name: string, r: Option<Found>)
    requires p < |lro|
    reads (set node | node in lro :: node.klazz)`members
  {
    var up := |name| >= 6 && name[..6] == "super.";
    var key, from := if up then name[6..] else name, if up then p - 1 else p;
    && (r == None <==> forall d :: 0 < d <= from ==> key !in lro[d].klazz.members)
    && (forall d :: 0 < d <= from && key in lro[d].klazz.members
          && (forall e :: d < e <= from ==> key !in lro[e].klazz.members)
          ==> r == Some(Found(lro[d].klazz, lro[d].offset, lro[d].klazz.members[key])))
  }

  lemma {:induction false} LookupFinds(lro: seq<LroNode>, base: Klass, name: string, p: nat)
    requires Stands(lro, base, p)
    ensures FoundFrom(lro, p, name, Lookup(lro, base, name))
  {
    assert Position(lro, base, |lro| - 1) == p;
  }

  class Instance<V> {
    const klazz: Klass
    /** None is the null reference. */
    var slots: seq<Option<V>>

    /** object_alloc. */
    constructor (klazz: Klass)
      ensures this.klazz == klazz && slots == seq(klazz.totalvars, i => None)
    {
      this.klazz := klazz;
      slots := seq(klazz.totalvars, i => None);
    }

    /** __get_m. */
    method GetM(name: string, base: Klass) returns (r: Option<Found>)
      ensures r == Lookup(klazz.lro, base, name)
      ensures forall p :: Stands(klazz.lro, base, p) ==> FoundFrom(klazz.lro, p, name, r)
      ensures (forall i :: 0 < i < |klazz.lro| ==> klazz.lro[i].klazz != base) ==> r == None
    {
      forall p | Stands(klazz.lro, base, p)
        ensures FoundFrom(klazz.lro, p, name, Lookup(klazz.lro, base, name))
      {
        LookupFinds(klazz.lro, base, name, p);
      }
      hide FoundFrom;
      var index: int := |klazz.lro| - 1;
      while index > 0
        invariant -1 <= index < |klazz.lro|
        invariant klazz.lro != [] ==> index >= 0
        invariant klazz.lro != [] ==> Position(klazz.lro, base, index) == Position(klazz.lro, base, |klazz.lro| - 1)
      {
        if klazz.lro[index].klazz == base {
          break;
        }
        index := index - 1;
      }
      var key := name;
      if IsSuper(name) {
        index := index - 1;
        key := name[6..];
      }
      ghost var start := StartOf(klazz.lro, base, name);
      while index > 0
        invariant index < |klazz.lro|
        invariant Definition(klazz.lro, key, if index < 0 then 0 else index) == Definition(klazz.lro, key, start)
      {
        var node := klazz.lro[index];
        if key in node.klazz.members {
          return Some(Found(node.klazz, node.offset, node.klazz.members[key]));
        }
        index := index - 1;
      }
      return None;
    }

    ghost predicate Valid(any: Klass, all: set<Klass>)
      reads this, all
    {
      World(any, all) && klazz in all && |slots| == klazz.totalvars
    }

    /** Get_Field; None when an assertion fails because there is no such field. */
    method GetField(base: Klass?, name: string, ghost any: Klass, ghost all: set<Klass>) returns (r: Option<Option<V>>)
      requires Valid(any, all)
      ensures var slot := Slot(klazz.lro, if base == null then klazz else base, name);
        match slot
        case None => r == None
        case Some(i) => i < |slots| && r == Some(slots[i])
      ensures match Lookup(klazz.lro, if base == null then klazz else base, name)
        case Some(Found(_, lroindex, Var(offset))) =>
          lroindex + offset < |slots| && r == Some(slots[lroindex + offset])
        case _ => r == None
    {
      hide World, Lookup;
      var start: Klass := if base == null then klazz else base;
      var m := GetM(name, start);
      if m == None || !m.value.member.Var? {
        return None;
      }
      SlotInRange(klazz, start, name, any, all);
      return Some(slots[m.value.lroindex + m.value.member.offset]);
    }

    /** Set_Field. */
    method SetField(base: Klass?, name: string, val: Option<V>, ghost any: Klass, ghost all: set<Klass>)
      returns (ok: bool)
      requires Valid(any, all)
      modifies this`slots
      ensures var slot := Slot(klazz.lro, if base == null then klazz else base, name);
        match slot
        case None => !ok && slots == old(slots)
        case Some(i) => ok && i < |old(slots)| && slots == old(slots)[i := val]
      ensures match Lookup(klazz.lro, if base == null then klazz else base, name)
        case Some(Found(_, lroindex, Var(offset))) =>
          ok && lroindex + offset < |old(slots)| && slots == old(slots)[lroindex + offset := val]
        case _ => !ok && slots == old(slots)
      ensures Valid(any, all)
    {
      hide World, Lookup;
      var start: Klass := if base == null then klazz else base;
      var m := GetM(name, start);
      if m == None || !m.value.member.Var? {
        return false;
      }
      SlotInRange(klazz, start, name, any, all);
      slots := slots[m.value.lroindex + m.value.member.offset := val];
      return true;
    }
  }

  // ---------------------------------------------------------------- what a lookup finds

  /** Class i of the order, and where its fields lie. */
  lemma {:induction false} ClassAt(k: Klass, i: nat, any: Klass, all: set<Klass>)
    requires World(any, all) && k in all && i < |k.lro|
    ensures var c, sizes := k.lro[i].klazz, Sizes(Order(k.lro));
      && c in all && FieldsOk(c)
      && |sizes| == |k.lro| && sizes[i] == c.nrvars && k.lro[i].offset == Offset(sizes, i)
      && k.totalvars == Sum(sizes) && NoDuplicates(Order(k.lro))
  {
    hide Hierarchy, Sizes, Sum, Offset, FieldsOk;
    HierarchyAt(Orders(all), any, k);
    assert Order(k.lro)[i] in Order(k.lro);
  }

  lemma {:induction false} SlotInRange(k: Klass, base: Klass, name: string, any: Klass, all: set<Klass>)
    requires World(any, all) && k in all
    ensures Slot(k.lro, base, name).Some? ==> Slot(k.lro, base, name).value < k.totalvars
  {
    hide World, Sizes, Sum, Offset;
    var d := DefinitionOf(k.lro, base, name);
    if Slot(k.lro, base, name).Some? {
      ClassAt(k, d, any, all);
      var o := k.lro[d].klazz.members[Key(name)].offset;
      SlotsAreDistinct(Sizes(Order(k.lro)), d, o, d, o);
    }
  }

  /** Two accesses to an object go to the same slot exactly when they find the same field of the same class.
      So writing one field leaves every other one alone, those of the same name in a base included. */
  lemma {:induction false} SameSlotExactlyWhenSameField(k: Klass, base: Klass, name: string,
      base': Klass, name': string, any: Klass, all: set<Klass>)
    requires World(any, all) && k in all
    requires Slot(k.lro, base, name).Some? && Slot(k.lro, base', name').Some?
    ensures Slot(k.lro, base, name) == Slot(k.lro, base', name')
       <==> Lookup(k.lro, base, name).value.klazz == Lookup(k.lro, base', name').value.klazz && Key(name) == Key(name')
  {
    hide World, Sizes, Sum, Offset, DefinitionOf;
    var d, d' := DefinitionOf(k.lro, base, name), DefinitionOf(k.lro, base', name');
    FoundUnder(k.lro, base, name);
    FoundUnder(k.lro, base', name');
    ClassAt(k, d, any, all);
    ClassAt(k, d', any, all);
    var f, f' := Lookup(k.lro, base, name).value, Lookup(k.lro, base', name').value;
    SlotsAreDistinct(Sizes(Order(k.lro)), d, f.member.offset, d', f'.member.offset);
    assert Order(k.lro)[d] == f.klazz && Order(k.lro)[d'] == f'.klazz;
  }

  lemma {:induction false} FoundUnder(lro: seq<LroNode>, base: Klass, name: string)
    requires Lookup(lro, base, name).Some?
    ensures var f, d := Lookup(lro, base, name).value, DefinitionOf(lro, base, name);
      && d < |lro| && lro[d].klazz == f.klazz && lro[d].offset == f.lroindex
      && Key(name) in f.klazz.members && f.klazz.members[Key(name)] == f.member
  {}

  /** A member is found in the class itself when it is there. */
  lemma {:induction false} OwnMemberFound(k: Klass, i: nat, name: string, any: Klass, all: set<Klass>)
    requires World(any, all) && k in all && 0 < i < |k.lro| && !IsSuper(name) && name in k.lro[i].klazz.members
    ensures DefinitionOf(k.lro, k.lro[i].klazz, name) == i
  {
    StandsAt(k, i, any, all);
  }

  /** When no field name was ever added twice, every slot of an object is the slot of exactly one field:
      with SameSlotExactlyWhenSameField, fields and slots match one to one. */
  lemma {:induction false} EverySlotIsAField(k: Klass, slot: nat, any: Klass, all: set<Klass>)
    returns (c: Klass, name: string)
    requires World(any, all) && k in all && slot < k.totalvars
    requires forall c :: c in Order(k.lro) ==> Complete(c)
    requires forall c, n :: c in Order(k.lro) && n in c.members ==> !IsSuper(n)
    ensures c in Order(k.lro) && name in c.members && Slot(k.lro, c, name) == Some(slot)
  {
    hide World, Sizes, Sum, Offset, Definition;
    ClassAt(k, 0, any, all) by {
      NotEmpty(k, any, all);
    }
    var i, o := SlotsAreUsed(Sizes(Order(k.lro)), slot);
    ClassAt(k, i, any, all);
    c := k.lro[i].klazz;
    assert Order(k.lro)[i] == c;
    assert c in Order(k.lro) && Complete(c);
    assert HasField(c.members, o);
    name :| name in c.members && c.members[name] == Var(o);
    NotTheRoot(k, i, any, all);
    OwnMemberFound(k, i, name, any, all);
  }

  /** A class with slots has an order, and the root at its start has no fields. */
  lemma {:induction false} NotEmpty(k: Klass, any: Klass, all: set<Klass>)
    requires World(any, all) && k in all && k.totalvars > 0
    ensures k.lro != []
  {
    HierarchyAt(Orders(all), any, k);
  }

  lemma {:induction false} NotTheRoot(k: Klass, i: nat, any: Klass, all: set<Klass>)
    requires World(any, all) && k in all && i < |k.lro| && k.lro[i].klazz.nrvars > 0
    ensures i > 0
  {
    HierarchyAt(Orders(all), any, k);
    assert Order(k.lro)[0] == k.lro[0].klazz;
  }

  /** A slot used up by a repeated field name cannot be reached. */
  lemma {:induction false} LostSlotIsUnreachable(k: Klass, i: nat, o: nat, base: Klass, name: string, any: Klass,
          all: set<Klass>)
    requires World(any, all) && k in all && i < |k.lro| && o < k.lro[i].klazz.nrvars
    requires !HasField(k.lro[i].klazz.members, o)
    ensures Slot(k.lro, base, name) != Some(k.lro[i].offset + o)
  {
    hide World, Sizes, Sum, Offset, DefinitionOf;
    if Slot(k.lro, base, name) == Some(k.lro[i].offset + o) {
      var d := DefinitionOf(k.lro, base, name);
      ClassAt(k, d, any, all);
      ClassAt(k, i, any, all);
      FoundUnder(k.lro, base, name);
      var f := Lookup(k.lro, base, name).value;
      SlotsAreDistinct(Sizes(Order(k.lro)), d, f.member.offset, i, o);
    }
  }

  /** The classes of the first base stand at the same places with the same offsets. */
  lemma {:induction false} FirstBaseKeepsNodes(k: Klass, b: Klass, i: nat, any: Klass, all: set<Klass>)
    requires World(any, all) && k in all && b in all
    requires Order(b.lro) <= Order(k.lro) && i < |b.lro|
    ensures k.lro[i].klazz == b.lro[i].klazz && k.lro[i].offset == b.lro[i].offset
  {
    hide World, Sizes, Offset;
    var short, long := Sizes(Order(b.lro)), Sizes(Order(k.lro));
    ClassAt(b, i, any, all);
    ClassAt(k, i, any, all);
    assert Order(b.lro)[i] == Order(k.lro)[i];
    forall j | 0 <= j < |short|
      ensures short[j] == long[j]
    {
      assert Order(b.lro)[j] == Order(k.lro)[j];
    }
    PrefixKeepsOffsets(short, long, i);
  }

  /** A search from a position inside the first base's order only looks at what both orders share. */
  lemma {:induction false} FirstBaseKeepsDefinition(short: seq<LroNode>, long: seq<LroNode>, key: string, index: nat)
    requires Order(short) <= Order(long) && index < |short|
    ensures Definition(long, key, index) == Definition(short, key, index)
  {
    assert Order(short)[index] == Order(long)[index];
    if index > 0 {
      FirstBaseKeepsDefinition(short, long, key, index - 1);
    }
  }

  /** Every lookup from a class of the first base, so every slot of its fields, is the same in an
      object of the derived class as in one of the base. */
  lemma {:induction false} FirstBaseKeepsSlots(k: Klass, b: Klass, i: nat, name: string, any: Klass, all: set<Klass>)
    requires World(any, all) && k in all && b in all
    requires Order(b.lro) <= Order(k.lro) && 0 < i < |b.lro|
    ensures var c := b.lro[i].klazz;
      Lookup(k.lro, c, name) == Lookup(b.lro, c, name) && Slot(k.lro, c, name) == Slot(b.lro, c, name)
  {
    hide World, Position;
    var c := b.lro[i].klazz;
    FirstBaseKeepsNodes(k, b, i, any, all);
    StandsAt(k, i, any, all);
    StandsAt(b, i, any, all);
    FirstBaseKeepsDefinition(b.lro, k.lro, Key(name), StartOf(b.lro, c, name));
    hide Definition;
    var d := DefinitionOf(b.lro, c, name);
    FirstBaseKeepsNodes(k, b, d, any, all);
  }

  /** A class of the order is found at its own place. */
  lemma {:induction false} StandsAt(k: Klass, i: nat, any: Klass, all: set<Klass>)
    requires World(any, all) && k in all && 0 < i < |k.lro|
    ensures Position(k.lro, k.lro[i].klazz, |k.lro| - 1) == i
  {
    HierarchyAt(Orders(all), any, k);
    var p := Position(k.lro, k.lro[i].klazz, |k.lro| - 1);
    assert Order(k.lro)[p] == Order(k.lro)[i];
  }

  // ---------------------------------------------------------------- super chains

  /** The positions found by asking for "super.name" again and again from the class last found. */
  ghost function SuperChain(lro: seq<LroNode>, key: string, p: nat): seq<nat>
    requires p < |lro|
    reads Order(lro)`members
    decreases p
  {
    if p == 0 then []
    else
      var d := Definition(lro, key, p - 1);
      if d == 0 then [] else [d] + SuperChain(lro, key, d)
  }

  /** One step of the chain is one lookup of "super.name". */
  lemma {:induction false} SuperLookupStep(k: Klass, p: nat, key: string, any: Klass, all: set<Klass>)
    requires World(any, all) && k in all && 0 < p < |k.lro|
    ensures DefinitionOf(k.lro, k.lro[p].klazz, SUPER + key) == Definition(k.lro, key, p - 1) < p
  {
    HierarchyAt(Orders(all), any, k);
    var q := Position(k.lro, k.lro[p].klazz, |k.lro| - 1);
    assert Order(k.lro)[q] == Order(k.lro)[p];
    assert (SUPER + key)[..6] == SUPER && (SUPER + key)[6..] == key;
  }

  /** The chain goes down and visits every class below that has the member, and no other. */
  lemma {:induction false} SuperChainVisitsAll(lro: seq<LroNode>, key: string, p: nat)
    requires p < |lro|
    ensures var chain := SuperChain(lro, key, p);
      && (forall i :: 0 <= i < |chain| ==> 0 < chain[i] < p)
      && (forall i, j :: 0 <= i < j < |chain| ==> chain[j] < chain[i])
      && (forall d :: 0 < d < p ==> (d in chain <==> key in lro[d].klazz.members))
    decreases p
  {
    if p > 0 {
      var d := Definition(lro, key, p - 1);
      if d > 0 {
        SuperChainVisitsAll(lro, key, d);
        var chain, rest := SuperChain(lro, key, p), SuperChain(lro, key, d);
        assert chain == [d] + rest;
      }
    }
  }
}
