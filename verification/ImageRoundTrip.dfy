/** When an interned descriptor decodes to itself (src/image.c:39-121, 352-545). */
module ImageRoundTrip {
  import opened Basics
  import opened TypeDesc
  import opened ImageTypes
  import opened ImageDecode
  import opened ImageInterning

  /** A lookup of this function type takes a list that is not in the tables for no list, and finds
      some function type all the same. */
  predicate Mistaken(t: Tables, args: seq<Desc>, rets: seq<Desc>) {
    && GetType(t, Desc.Proto(args, rets)) >= 0
    && ((rets != [] && GetList(t, rets) < 0) || (args != [] && GetList(t, args) < 0))
  }

  /** Some function type inside the descriptor is mistaken when its turn to be interned comes. */
  predicate Misread(t: Tables, d: Desc)
    decreases d, 0
  {
    match d
    case Proto(args, rets) =>
      || Mistaken(t, args, rets)
      || MisreadAll(t, rets)
      || MisreadAll(SetList(t, rets).0, args)
    case Array(_, base) => Misread(t, base)
    case Varg(base) => Misread(t, base)
    case _ => false
  }

  predicate MisreadAll(t: Tables, ds: seq<Desc>)
    decreases ds, 0
  {
    ds != [] && (Misread(t, ds[0]) || MisreadAll(SetType(t, ds[0]).0, ds[1..]))
  }

  /** Encoding then decoding gives the descriptor back exactly when nothing in it is misread. */
  lemma {:induction false} DecodesExactlyUnlessMisread(t: Tables, d: Desc)
    requires WellFormed(t) && Encodable(d)
    ensures var (t', k) := SetType(t, d);
      WellFormed(t') && 0 <= k < |t'.types| && (Decode(t', k) == d <==> !Misread(t, d))
    decreases d, 1
  {
    SetTypeOk(t, d);
    var (t', k) := SetType(t, d);
    if GetType(t, d) >= 0 {
      FoundDecodes(t, d);
    } else {
      NewItemOk(t, d);
      var (t1, item) := NewItem(t, d);
      assert t'.types[k] == item;
      match d
      case Base(c) =>
      case Klass(path, name) => NewKlassDecodes(t, path, name);
      case Array(_, base) =>
        DecodesExactlyUnlessMisread(t, base);
        SetTypeOk(t, base);
        DecodeStable(t1, t', item.word1);
      case Varg(base) =>
        DecodesExactlyUnlessMisread(t, base);
        SetTypeOk(t, base);
        DecodeStable(t1, t', item.word0);
      case Proto(args, rets) =>
        SetProtoOk(t, args, rets);
        ProtoDecodes(t, args, rets);
        var p := t1.protos[item.word0];
        assert ItemOk(t', item, k);
        DecodeListStable(t1, t', p.pindex, |t1.types|, k);
        DecodeListStable(t1, t', p.rindex, |t1.types|, k);
    }
  }

  lemma {:induction false} NewKlassDecodes(t: Tables, path: Option<string>, name: string)
    requires WellFormed(t) && GetType(t, Klass(path, name)) < 0
    ensures var (t', k) := SetType(t, Klass(path, name));
      WellFormed(t') && 0 <= k < |t'.types| && Decode(t', k) == Klass(path, name)
  {
    SetTypeOk(t, Klass(path, name));
    var (t1, pathindex) := if path == None then (t, -1) else SetString(t, path.value);
    if path != None {
      SetStringOk(t, path.value);
    }
    SetStringOk(t1, name);
  }

  /** A descriptor whose item is in the tables already. */
  lemma {:induction false} FoundDecodes(t: Tables, d: Desc)
    requires WellFormed(t) && Encodable(d) && GetType(t, d) >= 0
    ensures Decode(t, GetType(t, d)) == d <==> !Misread(t, d)
    decreases d, 0
  {
    var k := GetType(t, d);
    var a := t.types[k];
    assert ItemOk(t, a, k);
    match d
    case Base(c) =>
    case Klass(path, name) =>
    case Array(_, base) => FoundDecodes(t, base);
    case Varg(base) => FoundDecodes(t, base);
    case Proto(args, rets) =>
      var p := t.protos[a.word0];
      if Mistaken(t, args, rets) {
        assert Decode(t, k) == Desc.Proto(DecodeList(t, p.pindex, k), DecodeList(t, p.rindex, k));
      } else {
        FoundListDecodes(t, rets, k);
        FoundListDecodes(t, args, k);
      }
  }

  lemma {:induction false} FoundListDecodes(t: Tables, ds: seq<Desc>, bound: int)
    requires WellFormed(t) && EncodableList(ds) && bound <= |t.types|
    requires ds == [] || GetList(t, ds) >= 0
    requires ListOk(t, GetList(t, ds), bound)
    ensures DecodeList(t, GetList(t, ds), bound) == ds <==> !MisreadAll(t, ds)
    decreases ds, 1
  {
    if ds != [] {
      FoundAllDecode(t, ds, bound);
    }
  }

  lemma {:induction false} ConsEqual<T>(x: T, xs: seq<T>, ds: seq<T>)
    requires ds != []
    ensures [x] + xs == ds <==> x == ds[0] && xs == ds[1..]
  {
    assert ds == [ds[0]] + ds[1..];
    assert ([x] + xs)[1..] == xs;
  }

  lemma {:induction false} FoundAllDecode(t: Tables, ds: seq<Desc>, bound: int)
    requires WellFormed(t) && EncodableList(ds) && bound <= |t.types| && GetAll(t, ds).Some?
    requires forall j :: 0 <= j < |ds| ==> 0 <= GetAll(t, ds).value[j] < bound
    ensures DecodeAll(t, GetAll(t, ds).value, bound) == ds <==> !MisreadAll(t, ds)
    decreases ds, 0
  {
    if ds != [] {
      var index := GetAll(t, ds).value;
      assert GetAll(t, ds[1..]).value == index[1..];
      FoundDecodes(t, ds[0]);
      FoundAllDecode(t, ds[1..], bound);
      ConsEqual(Decode(t, index[0]), DecodeAll(t, index[1..], bound), ds);
    }
  }

  /** ProtoItem_Set: this is the one entry at which a function type may be the root, and there only
      the function types inside its lists can be misread. */
  lemma {:induction false} ProtoDecodes(t: Tables, args: seq<Desc>, rets: seq<Desc>)
    requires WellFormed(t) && EncodableList(args) && EncodableList(rets)
    ensures var (t', p) := SetProto(t, args, rets);
      && WellFormed(t') && ProtoOk(t', p, |t'.types|)
      && (DecodeProto(t', p) == (args, rets)
          <==> !MisreadAll(t, rets) && !MisreadAll(SetList(t, rets).0, args))
    decreases Desc.Proto(args, rets), 0
  {
    SetProtoOk(t, args, rets);
    var (t', p) := SetProto(t, args, rets);
    SetListOk(t, rets);
    var (t1, r) := SetList(t, rets);
    SetListOk(t1, args);
    var (t2, a) := SetList(t1, args);
    ListDecodes(t, rets);
    ListDecodes(t1, args);
    assert ProtoOk(t', p, |t'.types|) && t'.protos[p] == Atom.Proto(r, a);
    DecodeListStable(t1, t', r, |t1.types|, |t'.types|);
    DecodeListStable(t2, t', a, |t2.types|, |t'.types|);
  }

  /** ProtoItem_To_TypeDesc. */
  function DecodeProto(t: Tables, p: int): (seq<Desc>, seq<Desc>)
    requires WellFormed(t) && ProtoOk(t, p, |t.types|)
  {
    (DecodeList(t, t.protos[p].pindex, |t.types|), DecodeList(t, t.protos[p].rindex, |t.types|))
  }

  lemma {:induction false} ListDecodes(t: Tables, ds: seq<Desc>)
    requires WellFormed(t) && EncodableList(ds)
    ensures var (t', l) := SetList(t, ds);
      && WellFormed(t') && ListOk(t', l, |t'.types|)
      && (DecodeList(t', l, |t'.types|) == ds <==> !MisreadAll(t, ds))
    decreases ds, 2
  {
    SetListOk(t, ds);
    var (t', l) := SetList(t, ds);
    if ds != [] {
      if GetList(t, ds) >= 0 {
        FoundListDecodes(t, ds, |t.types|);
      } else {
        SetAllOk(t, ds);
        AllDecode(t, ds);
        var (t1, index) := SetAll(t, ds);
        assert t'.lists[l] == TypeList(index);
        forall j | 0 <= j < |index|
          ensures DecodeAll(t', index, |t'.types|)[j] == DecodeAll(t1, index, |t1.types|)[j]
        {
          DecodeStable(t1, t', index[j]);
        }
      }
    }
  }

  lemma {:induction false} AllDecode(t: Tables, ds: seq<Desc>)
    requires WellFormed(t) && EncodableList(ds)
    ensures var (t', index) := SetAll(t, ds);
      && WellFormed(t') && (forall j :: 0 <= j < |index| ==> 0 <= index[j] < |t'.types|)
      && (DecodeAll(t', index, |t'.types|) == ds <==> !MisreadAll(t, ds))
    decreases ds, 0
  {
    SetAllOk(t, ds);
    if ds != [] {
      SetTypeOk(t, ds[0]);
      var (t1, i) := SetType(t, ds[0]);
      SetAllOk(t1, ds[1..]);
      var (t2, rest) := SetAll(t1, ds[1..]);
      DecodesExactlyUnlessMisread(t, ds[0]);
      DecodeStable(t1, t2, i);
      AllDecode(t1, ds[1..]);
      var index := [i] + rest;
      assert index[1..] == rest;
      ConsEqual(Decode(t2, i), DecodeAll(t2, rest, |t2.types|), ds);
    }
  }

  // ---------------------------------------------------------------- without nested function types

  predicate FunctionFree(d: Desc) {
    match d
    case Proto(_, _) => false
    case Array(_, base) => FunctionFree(base)
    case Varg(base) => FunctionFree(base)
    case _ => true
  }

  lemma {:induction false} FunctionFreeNeverMisread(t: Tables, d: Desc)
    requires FunctionFree(d)
    ensures !Misread(t, d)
  {
    match d
    case Array(_, base) => FunctionFreeNeverMisread(t, base);
    case Varg(base) => FunctionFreeNeverMisread(t, base);
    case _ =>
  }

  lemma {:induction false} FunctionFreeListNeverMisread(t: Tables, ds: seq<Desc>)
    requires forall d :: d in ds ==> FunctionFree(d)
    ensures !MisreadAll(t, ds)
    decreases ds
  {
    if ds != [] {
      FunctionFreeNeverMisread(t, ds[0]);
      FunctionFreeListNeverMisread(SetType(t, ds[0]).0, ds[1..]);
    }
  }

  /** The round trip of types, and of function types whose lists hold no function types. */
  lemma {:induction false} TypeRoundTrip(t: Tables, d: Desc)
    requires WellFormed(t) && Encodable(d) && FunctionFree(d)
    ensures var (t', k) := SetType(t, d);
      WellFormed(t') && Extends(t, t') && 0 <= k < |t'.types| && Decode(t', k) == d
  {
    SetTypeOk(t, d);
    DecodesExactlyUnlessMisread(t, d);
    FunctionFreeNeverMisread(t, d);
  }

  lemma {:induction false} ProtoRoundTrip(t: Tables, args: seq<Desc>, rets: seq<Desc>)
    requires WellFormed(t) && EncodableList(args) && EncodableList(rets)
    requires forall d :: d in args || d in rets ==> FunctionFree(d)
    ensures var (t', p) := SetProto(t, args, rets);
      && WellFormed(t') && Extends(t, t') && ProtoOk(t', p, |t'.types|)
      && DecodeProto(t', p) == (args, rets)
  {
    SetProtoOk(t, args, rets);
    ProtoDecodes(t, args, rets);
    FunctionFreeListNeverMisread(t, rets);
    FunctionFreeListNeverMisread(SetList(t, rets).0, args);
  }

  /** Two descriptors get the same index exactly when they are equal, whatever is interned between. */
  lemma {:induction false} SameIndexExactlyWhenEqual(t: Tables, d: Desc, t1: Tables, e: Desc)
    requires WellFormed(t) && Encodable(d) && Encodable(e)
    requires WellFormed(t1) && Extends(SetType(t, d).0, t1)
    requires !Misread(t, d) && !Misread(t1, e)
    ensures SetType(t, d).1 == SetType(t1, e).1 <==> d == e
  {
    SetTypeOk(t, d);
    SetTypeOk(t1, e);
    DecodesExactlyUnlessMisread(t, d);
    DecodesExactlyUnlessMisread(t1, e);
    var (t0, i) := SetType(t, d);
    var (t2, j) := SetType(t1, e);
    DecodeStable(t0, t1, i);
    DecodeStable(t1, t2, i);
    if d == e {
      DecodeInjective(t2, i, j);
    }
  }

  /** An index decodes to a descriptor exactly when TypeItem_Get finds the descriptor there and does
      not misread it. */
  lemma {:induction false} LookupFindsExactly(t: Tables, d: Desc, k: int)
    requires WellFormed(t) && Encodable(d) && 0 <= k < |t.types|
    ensures Decode(t, k) == d <==> GetType(t, d) == k && !Misread(t, d)
  {
    if Decode(t, k) == d {
      DecodedIsFound(t, d, k);
    }
    if GetType(t, d) == k {
      FoundDecodes(t, d);
    }
  }

  /** Whatever an index decodes to is found at that index. */
  lemma {:induction false} DecodedIsFound(t: Tables, d: Desc, k: int)
    requires WellFormed(t) && 0 <= k < |t.types| && Decode(t, k) == d
    ensures GetType(t, d) == k
    decreases k, 2, 0
  {
    var a := t.types[k];
    assert ItemOk(t, a, k);
    match d
    case Base(c) => assert a == Type(TYPE_BASE, c as int, 0);
    case Klass(path, name) => KlassIsFound(t, path, name, k);
    case Proto(args, rets) =>
      var p := t.protos[a.word0];
      DecodedListIsFound(t, rets, p.rindex, k);
      DecodedListIsFound(t, args, p.pindex, k);
      assert p == Atom.Proto(GetList(t, rets), GetList(t, args)) && a == Type(TYPE_PROTO, a.word0, 0);
    case Array(dims, base) =>
      DecodedIsFound(t, base, a.word1);
      assert a == Type(TYPE_ARRAY, dims, GetType(t, base));
    case Varg(base) =>
      DecodedIsFound(t, base, a.word0);
      assert a == Type(TYPE_VARG, GetType(t, base), 0);
  }

  lemma {:induction false} DecodedListIsFound(t: Tables, ds: seq<Desc>, l: int, bound: int)
    requires WellFormed(t) && bound <= |t.types| && ListOk(t, l, bound) && DecodeList(t, l, bound) == ds
    ensures GetList(t, ds) == l
    decreases bound, 1, 0
  {
    if l >= 0 {
      var index := t.lists[l].index;
      DecodedAllAreFound(t, ds, index, bound);
      assert t.lists[l] == TypeList(index);
    }
  }

  lemma {:induction false} DecodedAllAreFound(t: Tables, ds: seq<Desc>, index: seq<int>, bound: int)
    requires WellFormed(t) && bound <= |t.types|
    requires (forall j :: 0 <= j < |index| ==> 0 <= index[j] < bound) && DecodeAll(t, index, bound) == ds
    ensures GetAll(t, ds) == Some(index)
    decreases bound, 0, |index|
  {
    hide Decode, GetType, WellFormed;
    if index != [] {
      DecodedIsFound(t, ds[0], index[0]);
      assert ds[1..] == DecodeAll(t, index[1..], bound);
      DecodedAllAreFound(t, ds[1..], index[1..], bound);
      assert index == [index[0]] + index[1..];
    }
  }

  lemma {:induction false} KlassIsFound(t: Tables, path: Option<string>, name: string, k: int)
    requires WellFormed(t) && 0 <= k < |t.types| && Decode(t, k) == Klass(path, name)
    ensures GetType(t, Klass(path, name)) == k
  {
    var a := t.types[k];
    assert ItemOk(t, a, k);
    assert t.strings[a.word1] == Text(name) && GetString(t, name) == a.word1;
    if path != None {
      assert t.strings[a.word0] == Text(path.value) && GetString(t, path.value) == a.word0;
    }
    assert a == Type(TYPE_KLASS, a.word0, a.word1);
  }

  /** A function type inside a type can be misread: once the type of functions from nothing to nothing
      is interned, the type of functions taking an integer is taken for it. */
  lemma {:induction false} NestedFunctionTypeIsMisread()
    ensures var nothing, takesInt := Desc.Proto([], []), Desc.Proto([Base('i')], []);
      var (t1, k) := SetType(EMPTY, nothing);
      var (t2, j) := SetType(t1, takesInt);
      && WellFormed(t2) && t2 == t1 && j == k == 0
      && Decode(t2, j) == nothing != takesInt
  {
    var nothing, takesInt := Desc.Proto([], []), Desc.Proto([Base('i')], []);
    SetTypeOk(EMPTY, nothing);
    var t1 := SetType(EMPTY, nothing).0;
    assert t1 == Tables([], [Type(TYPE_PROTO, 0, 0)], [], [Atom.Proto(-1, -1)]) by {
      assert SetProto(EMPTY, [], []).0 == Tables([], [], [], [Atom.Proto(-1, -1)]);
    }
    assert GetList(t1, [Base('i')]) == -1 by {
      assert GetType(t1, Base('i')) == -1;
      assert GetAll(t1, [Base('i')]) == None;
    }
    assert GetType(t1, takesInt) == 0;
  }
}
