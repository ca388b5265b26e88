/** What interning guarantees: the tables only grow and stay well formed, and nothing is appended that
    is stored already (src/image.c:352-545). */
module ImageInterning {
  import opened Basics
  import opened TypeDesc
  import opened ImageTypes
  import opened ImageDecode

  // ---------------------------------------------------------------- tables stay well formed

  ghost predicate ListsBelow(t: Tables, bound: int) {
    forall l, j :: 0 <= l < |t.lists| && t.lists[l].TypeList? && 0 <= j < |t.lists[l].index|
      ==> t.lists[l].index[j] < bound
  }

  /** No function type of the tables refers to list l. */
  ghost predicate ListUnused(t: Tables, l: int) {
    forall p :: 0 <= p < |t.protos| && t.protos[p].Proto? ==> t.protos[p].rindex != l && t.protos[p].pindex != l
  }

  ghost predicate ProtoUnused(t: Tables, p: int) {
    forall k :: 0 <= k < |t.types| && t.types[k].Type? && t.types[k].kind == TYPE_PROTO ==> t.types[k].word0 != p
  }

  lemma {:induction false} SetStringOk(t: Tables, s: string)
    requires WellFormed(t)
    ensures var (t', i) := SetString(t, s);
      && WellFormed(t') && Extends(t, t') && t' == t.(strings := t'.strings)
      && 0 <= i < |t'.strings| && t'.strings[i] == Text(s)
      && (if GetString(t, s) >= 0 then t' == t && i == GetString(t, s) else i == |t.strings|)
  {
    var (t', i) := SetString(t, s);
    forall k | 0 <= k < |t'.types|
      ensures ItemOk(t', t'.types[k], k)
    {
      assert ItemOk(t, t.types[k], k);
    }
    forall l | 0 <= l < |t.lists|
      ensures ListOk(t', l, |t.types|)
    {
      assert ListOk(t, l, |t.types|);
    }
    forall p | 0 <= p < |t.protos|
      ensures ProtoOk(t', p, |t.types|)
    {
      assert ProtoOk(t, p, |t.types|);
    }
  }

  lemma {:induction false} AddTypeOk(t: Tables, item: Atom)
    requires WellFormed(t) && ItemOk(t, item, |t.types|) && item !in t.types
    ensures WellFormed(t.(types := t.types + [item]))
    ensures ListsBelow(t.(types := t.types + [item]), |t.types|)
  {
    var t' := t.(types := t.types + [item]);
    forall k | 0 <= k < |t'.types|
      ensures ItemOk(t', t'.types[k], k)
    {
      assert k < |t.types| ==> ItemOk(t, t.types[k], k);
    }
    forall l | 0 <= l < |t.lists|
      ensures ListOk(t', l, |t'.types|)
      ensures forall j :: 0 <= j < |t'.lists[l].index| ==> t'.lists[l].index[j] < |t.types|
    {
      assert ListOk(t, l, |t.types|);
    }
    forall p | 0 <= p < |t.protos|
      ensures ProtoOk(t', p, |t'.types|)
    {
      assert ProtoOk(t, p, |t.types|);
    }
  }

  lemma {:induction false} AddListOk(t: Tables, index: seq<int>)
    requires WellFormed(t) && index != [] && TypeList(index) !in t.lists
    requires forall j :: 0 <= j < |index| ==> 0 <= index[j] < |t.types|
    ensures WellFormed(t.(lists := t.lists + [TypeList(index)]))
    ensures ListUnused(t.(lists := t.lists + [TypeList(index)]), |t.lists|)
  {
    var t' := t.(lists := t.lists + [TypeList(index)]);
    forall l | 0 <= l < |t'.lists|
      ensures ListOk(t', l, |t'.types|)
    {
      assert l < |t.lists| ==> ListOk(t, l, |t.types|);
    }
    forall k | 0 <= k < |t'.types|
      ensures ItemOk(t', t'.types[k], k)
    {
      assert ItemOk(t, t.types[k], k);
    }
    forall p | 0 <= p < |t.protos|
      ensures ProtoOk(t', p, |t'.types|)
      ensures t'.protos[p].rindex != |t.lists| && t'.protos[p].pindex != |t.lists|
    {
      assert ProtoOk(t, p, |t.types|);
    }
  }

  lemma {:induction false} AddProtoOk(t: Tables, r: int, p: int)
    requires WellFormed(t) && ListOk(t, r, |t.types|) && ListOk(t, p, |t.types|)
    requires Atom.Proto(r, p) !in t.protos
    ensures WellFormed(t.(protos := t.protos + [Atom.Proto(r, p)]))
    ensures ProtoUnused(t.(protos := t.protos + [Atom.Proto(r, p)]), |t.protos|)
  {
    var t' := t.(protos := t.protos + [Atom.Proto(r, p)]);
    forall k | 0 <= k < |t'.types|
      ensures ItemOk(t, t.types[k], k) && ItemOk(t', t'.types[k], k)
    {}
    forall q | 0 <= q < |t'.protos|
      ensures ProtoOk(t', q, |t'.types|)
    {
      assert q < |t.protos| ==> ProtoOk(t, q, |t.types|);
    }
    forall l | 0 <= l < |t.lists|
      ensures ListOk(t', l, |t.types|)
    {
      assert ListOk(t, l, |t.types|);
    }
  }

  /** What TypeItem_Set leaves behind.  A new type is referred to by no list yet. */
  lemma {:induction false} SetTypeOk(t: Tables, d: Desc)
    requires WellFormed(t) && Encodable(d)
    ensures var (t', k) := SetType(t, d);
      && WellFormed(t') && Extends(t, t') && 0 <= k < |t'.types|
      && (if GetType(t, d) >= 0 then t' == t && k == GetType(t, d)
          else |t.types| <= k == |t'.types| - 1 && ListsBelow(t', k))
    decreases d, 2
  {
    if GetType(t, d) < 0 {
      NewItemOk(t, d);
      var (t1, item) := NewItem(t, d);
      AddTypeOk(t1, item);
    }
  }

  /** The assertion in AtomTable_Append holds for every new type item: it is not there yet. */
  lemma {:induction false} NewItemOk(t: Tables, d: Desc)
    requires WellFormed(t) && Encodable(d) && GetType(t, d) < 0
    ensures var (t', item) := NewItem(t, d);
      && WellFormed(t') && Extends(t, t') && ItemOk(t', item, |t'.types|) && item !in t'.types
    decreases d, 1
  {
    match d
    case Base(c) =>
    case Klass(path, name) => NewKlassOk(t, path, name);
    case Proto(args, rets) => SetProtoOk(t, args, rets);
    case Array(dims, base) =>
      SetTypeOk(t, base);
      LastTypeUnused(SetType(t, base).0, dims);
    case Varg(base) =>
      SetTypeOk(t, base);
      LastTypeUnused(SetType(t, base).0, 0);
  }

  lemma {:induction false} NewKlassOk(t: Tables, path: Option<string>, name: string)
    requires WellFormed(t) && GetType(t, Klass(path, name)) < 0
    ensures var (t', item) := NewItem(t, Klass(path, name));
      && WellFormed(t') && Extends(t, t') && ItemOk(t', item, |t'.types|) && item !in t'.types
  {
    var (t1, pathindex) := if path == None then (t, -1) else SetString(t, path.value);
    if path != None {
      SetStringOk(t, path.value);
    }
    SetStringOk(t1, name);
    var (t2, typeindex) := SetString(t1, name);
    var item := Type(TYPE_KLASS, pathindex, typeindex);
    forall k | 0 <= k < |t.types|
      ensures t.types[k].Type? && t.types[k].kind == TYPE_KLASS ==>
        t.types[k].word0 < |t.strings| && t.types[k].word1 < |t.strings|
    {
      assert ItemOk(t, t.types[k], k);
    }
    assert pathindex < |t.strings| && typeindex < |t.strings| ==> t1 == t && t2 == t;
  }

  /** No item refers to the last type. */
  lemma {:induction false} LastTypeUnused(t: Tables, dims: int)
    requires WellFormed(t)
    ensures Type(TYPE_ARRAY, dims, |t.types| - 1) !in t.types
    ensures Type(TYPE_VARG, |t.types| - 1, 0) !in t.types
  {
    forall j | 0 <= j < |t.types|
      ensures t.types[j] != Type(TYPE_ARRAY, dims, |t.types| - 1) && t.types[j] != Type(TYPE_VARG, |t.types| - 1, 0)
    {
      assert ItemOk(t, t.types[j], j);
    }
  }

  /** TypeListItem_Set: either nothing is new, or the list is the last one and nobody uses it. */
  lemma {:induction false} SetListOk(t: Tables, ds: seq<Desc>)
    requires WellFormed(t) && EncodableList(ds)
    ensures var (t', l) := SetList(t, ds);
      && WellFormed(t') && Extends(t, t') && ListOk(t', l, |t'.types|)
      && (ds == [] <==> l == -1)
      && (if ds == [] || GetList(t, ds) >= 0 then t' == t && l == GetList(t, ds)
          else l == |t'.lists| - 1 && ListUnused(t', l))
    decreases ds, 1
  {
    if ds != [] {
      if GetList(t, ds) >= 0 {
        var l := GetList(t, ds);
        assert ListOk(t, l, |t.types|);
      } else {
        SetAllOk(t, ds);
        var (t1, index) := SetAll(t, ds);
        AddListOk(t1, index);
        var (t', l) := SetList(t, ds);
        assert ListOk(t', l, |t'.types|);
      }
    }
  }

  /** The types of the elements: either all were there, or one of them is in no list yet. */
  lemma {:induction false} SetAllOk(t: Tables, ds: seq<Desc>)
    requires WellFormed(t) && EncodableList(ds)
    ensures var (t', index) := SetAll(t, ds);
      && WellFormed(t') && Extends(t, t') && |index| == |ds|
      && (forall j :: 0 <= j < |index| ==> 0 <= index[j] < |t'.types|)
      && ((t' == t && GetAll(t, ds) == Some(index))
          || (GetAll(t, ds) == None && exists j :: 0 <= j < |index| && ListsBelow(t', index[j])))
    decreases ds, 0
  {
    if ds != [] {
      SetTypeOk(t, ds[0]);
      var (t1, i) := SetType(t, ds[0]);
      SetAllOk(t1, ds[1..]);
      var (t2, rest) := SetAll(t1, ds[1..]);
      var index := [i] + rest;
      if !(t2 == t1 && GetAll(t1, ds[1..]) == Some(rest)) {
        var j :| 0 <= j < |rest| && ListsBelow(t2, rest[j]);
        assert index[j + 1] == rest[j];
      } else if GetType(t, ds[0]) < 0 {
        assert ListsBelow(t2, index[0]);
      }
    }
  }

  /** ProtoItem_Set: either everything was there, or the function type is used by no type yet. */
  lemma {:induction false} SetProtoOk(t: Tables, args: seq<Desc>, rets: seq<Desc>)
    requires WellFormed(t) && EncodableList(args) && EncodableList(rets)
    ensures var (t', p) := SetProto(t, args, rets);
      && WellFormed(t') && Extends(t, t') && ProtoOk(t', p, |t'.types|)
      && ((t' == t && p == GetProto(t, GetList(t, rets), GetList(t, args))) || ProtoUnused(t', p))
    decreases Desc.Proto(args, rets), 0
  {
    hide GetType, GetList, SetList, Distinct, ItemOk;
    SetListOk(t, rets);
    var (t1, r) := SetList(t, rets);
    SetListOk(t1, args);
    var (t2, p) := SetList(t1, args);
    assert ListOk(t2, r, |t2.types|) by {
      if r >= 0 {
        assert t2.lists[r] == t1.lists[r];
      }
    }
    if GetProto(t2, r, p) < 0 {
      AddProtoOk(t2, r, p);
      var (t', q) := SetProto(t, args, rets);
      assert ProtoOk(t', q, |t'.types|);
    } else {
      assert ProtoOk(t2, GetProto(t2, r, p), |t2.types|);
    }
  }
}
