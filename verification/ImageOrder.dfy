/** What the items of the type tables mean in numbers, and the order in which interning stores them
    (src/image.c:39-121, 352-545). */
module ImageOrder {
  import opened Basics
  import opened TypeDesc
  import opened ImageTypes
  import opened ImageDecode
  import opened ImageInterning

  /** What the fields of a type item stand for, kind by kind. */
  lemma {:induction false} ItemMeaning(t: Tables, k: int)
    requires WellFormed(t) && 0 <= k < |t.types|
    ensures var item, d := t.types[k], Decode(t, k);
      && item.Type?
      && (item.kind == 1 ==> d == Base(item.word0 as char))
      && (item.kind == 2 ==> d.Klass? && t.strings[item.word1] == Text(d.name))
      && (item.kind == 2 ==>
            if item.word0 < 0 then d.path == None else d.path.Some? && t.strings[item.word0] == Text(d.path.value))
      && (item.kind == 3 ==> d.Proto? && t.protos[item.word0].Proto?)
      && (item.kind == 3 ==>
            ListMeans(t, t.protos[item.word0].rindex, d.rets) && ListMeans(t, t.protos[item.word0].pindex, d.args))
      && (item.kind == 4 ==> 0 <= item.word1 < k && d == Array(item.word0, Decode(t, item.word1)))
      && (item.kind == 7 ==> 0 <= item.word0 < k && d == Varg(Decode(t, item.word0)))
      && item.kind in {1, 2, 3, 4, 7}
  {
    assert ItemOk(t, t.types[k], k);
  }

  /** A list index stands for these descriptors, -1 for none. */
  ghost predicate ListMeans(t: Tables, l: int, ds: seq<Desc>)
    requires WellFormed(t)
  {
    if l == -1 then ds == []
    else
      && 0 <= l < |t.lists| && t.lists[l].TypeList? && |t.lists[l].index| == |ds| > 0
      && forall j :: 0 <= j < |ds| ==> 0 <= t.lists[l].index[j] < |t.types| && ds[j] == Decode(t, t.lists[l].index[j])
  }

  /** A string goes to the end of the strings unless it is there. */
  function Added(strings: seq<Atom>, s: string): seq<Atom> {
    if Text(s) in strings then strings else strings + [Text(s)]
  }

  /** A new class type: its path is stored before its name, and the item refers to both. */
  lemma {:induction false} KlassStored(t: Tables, path: Option<string>, name: string)
    requires WellFormed(t) && GetType(t, Klass(path, name)) < 0
    ensures var t' := SetType(t, Klass(path, name)).0;
      && t'.strings == Added(if path == None then t.strings else Added(t.strings, path.value), name)
      && t'.lists == t.lists && t'.protos == t.protos && |t'.types| == |t.types| + 1 && t.types <= t'.types
      && var item := t'.types[|t.types|];
        && item.Type? && item.kind == 2
        && 0 <= item.word1 < |t'.strings| && t'.strings[item.word1] == Text(name)
        && if path == None then item.word0 == -1
           else 0 <= item.word0 < |t'.strings| && t'.strings[item.word0] == Text(path.value)
  {
    NewKlassOk(t, path, name);
    if path != None {
      SetStringOk(t, path.value);
    }
    SetStringOk(if path == None then t else SetString(t, path.value).0, name);
  }

  /** The types that a function type returns are stored before those that it takes. */
  lemma {:induction false} RetsBeforeArgs(t: Tables, args: seq<Desc>, rets: seq<Desc>)
    requires WellFormed(t) && EncodableList(args) && EncodableList(rets)
    ensures Extends(SetList(t, rets).0, SetProto(t, args, rets).0)
  {
    SetListOk(t, rets);
    SetListOk(SetList(t, rets).0, args);
  }

  /** The elements of a list are stored from the first on: what the first i of them need comes first. */
  lemma {:induction false} ElementsInOrder(t: Tables, ds: seq<Desc>, i: nat)
    requires WellFormed(t) && EncodableList(ds) && i <= |ds|
    ensures EncodableList(ds[..i]) && Extends(SetAll(t, ds[..i]).0, SetAll(t, ds).0)
    ensures SetAll(t, ds[..i]).1 <= SetAll(t, ds).1
    decreases ds
  {
    SetAllOk(t, ds);
    if i > 0 {
      SetTypeOk(t, ds[0]);
      ElementsInOrder(SetType(t, ds[0]).0, ds[1..], i - 1);
      assert ds[..i][1..] == ds[1..][..i - 1];
    } else {
      assert ds[..0] == [];
    }
  }

  lemma {:induction false} OneElement(t: Tables, d: Desc)
    ensures SetAll(t, [d]) == (SetType(t, d).0, [SetType(t, d).1])
  {
    var (t', i) := SetType(t, d);
    assert [d][1..] == [] && [i] + [] == [i];
    assert SetAll(t', []) == (t', []);
  }

  const WITH_RETS: Tables := Tables([], [Type(1, 'z' as int, 0)], [TypeList([0])], [])

  const WITH_ARGS: Tables := Tables([],
    [Type(1, 'z' as int, 0), Type(1, 'i' as int, 0), Type(4, 1, 1)], [TypeList([0]), TypeList([1, 2])], [])

  lemma {:induction false} RetsStored()
    ensures SetList(EMPTY, [Base('z')]) == (WITH_RETS, 0)
  {
    var t := Tables([], [Type(1, 'z' as int, 0)], [], []);
    assert SetType(EMPTY, Base('z')) == (t, 0) by {
      assert EMPTY.types + [Type(1, 'z' as int, 0)] == t.types;
    }
    OneElement(EMPTY, Base('z'));
    assert t.lists + [TypeList([0])] == WITH_RETS.lists;
  }

  lemma {:induction false} ArgsStored()
    ensures SetList(WITH_RETS, [Base('i'), Array(1, Base('i'))]) == (WITH_ARGS, 1)
  {
    var i, a := Base('i'), Array(1, Base('i'));
    var t2 := WITH_RETS.(types := WITH_RETS.types + [Type(1, 'i' as int, 0)]);
    var t3 := t2.(types := t2.types + [Type(4, 1, 1)]);
    assert GetType(WITH_RETS, i) == -1 && SetType(WITH_RETS, i) == (t2, 1);
    assert GetType(t2, i) == 1 && GetType(t2, a) == -1 && SetType(t2, a) == (t3, 2);
    assert GetList(WITH_RETS, [i, a]) == -1;
    assert SetAll(WITH_RETS, [i, a]) == (t3, [1, 2]) by {
      assert [i, a][1..] == [a] && [1] + [2] == [1, 2];
      OneElement(t2, a);
    }
    assert t3.types == WITH_ARGS.types && t3.lists + [TypeList([1, 2])] == WITH_ARGS.lists;
  }

  /** A small image as it is stored: the type of functions that take an integer and an array of integers
      and return a flag. */
  lemma {:induction false} StoredFunctionType()
    ensures SetType(EMPTY, Desc.Proto([Base('i'), Array(1, Base('i'))], [Base('z')])) == (
        Tables([],
          [Type(1, 'z' as int, 0), Type(1, 'i' as int, 0), Type(4, 1, 1), Type(3, 0, 0)],
          [TypeList([0]), TypeList([1, 2])],
          [Atom.Proto(0, 1)]),
        3)
  {
    var args, rets := [Base('i'), Array(1, Base('i'))], [Base('z')];
    RetsStored();
    ArgsStored();
    var t := WITH_ARGS.(protos := [Atom.Proto(0, 1)]);
    assert SetProto(EMPTY, args, rets) == (t, 0) by {
      assert WITH_ARGS.protos + [Atom.Proto(0, 1)] == t.protos;
    }
    hide SetList, SetAll, GetAll, SetProto;
    var d := Desc.Proto(args, rets);
    assert GetType(EMPTY, d) == -1 && NewItem(EMPTY, d) == (t, Type(3, 0, 0));
    assert t.types + [Type(3, 0, 0)]
        == [Type(1, 'z' as int, 0), Type(1, 'i' as int, 0), Type(4, 1, 1), Type(3, 0, 0)];
  }
}
