/** The interning operations on an image's tables, in place (src/image.c:352-545), and the decoder
    that reads them (src/image.c:39-121).  Each does what the functions of ImageTypes say. */
module ImageTables {
  import opened Basics
  import opened ImageKinds
  import opened TypeDesc
  import opened ImageTypes
  import opened ImageDecode
  import opened ImageInterning
  import opened AtomTables

  ghost function Tabs(at: AtomTable): Tables
    requires |at.items| == ITEM_MAX
    reads at
  {
    Tables(at.items[ITEM_STRING], at.items[ITEM_TYPE], at.items[ITEM_TYPELIST], at.items[ITEM_PROTO])
  }

  /** The tables no interning touches. */
  ghost predicate RestKept(before: seq<seq<Atom>>, after: seq<seq<Atom>>) {
    |before| == |after| && forall k :: ITEM_PROTO < k < |before| || k == 0 < |before| ==> after[k] == before[k]
  }

  /** The tables agree with their hash table and are well formed. */
  ghost predicate Ready(at: AtomTable)
    reads at, at.table, at.table.head, at.table.nodes, at.table.heads
  {
    at.Valid() && WellFormed(Tabs(at))
  }

  /** The tables of a new image: from here on every interning keeps them ready for the next. */
  method NewTables(hash: (int, Atom) -> nat) returns (at: AtomTable)
    ensures Ready(at) && fresh(at.Frame()) && Tabs(at) == EMPTY
  {
    at := new AtomTable(hash);
  }

  method StringItemGet(at: AtomTable, s: string) returns (index: int)
    requires at.Valid()
    ensures index == GetString(Tabs(at), s)
  {
    index := at.Index(ITEM_STRING, Text(s));
  }

  method StringItemSet(at: AtomTable, s: string) returns (index: int)
    requires at.Valid()
    modifies at.Frame()
    ensures at.Valid() && fresh(at.Frame() - old(at.Frame())) && RestKept(old(at.items), at.items)
    ensures (Tabs(at), index) == SetString(old(Tabs(at)), s)
  {
    hide AtomTable.Valid, WellFormed, IndexOf;
    index := StringItemGet(at, s);
    if index < 0 {
      index := at.Append(ITEM_STRING, Text(s), true);
    }
  }

  method TypeListItemGet(at: AtomTable, ds: seq<Desc>) returns (index: int)
    requires at.Valid() && EncodableList(ds)
    ensures index == GetList(Tabs(at), ds)
    decreases ds, 1
  {
    hide AtomTable.Valid, IndexOf;
    if |ds| <= 0 {
      return -1;
    }
    var indexes: seq<int> := [];
    assert ds[0..] == ds;
    assert GetAll(Tabs(at), ds).Some? ==> [] + GetAll(Tabs(at), ds).value == GetAll(Tabs(at), ds).value;
    for i := 0 to |ds|
      invariant |indexes| == i && EncodableList(ds[i..])
      invariant GetAll(Tabs(at), ds)
             == var rest := GetAll(Tabs(at), ds[i..]); if rest == None then None else Some(indexes + rest.value)
    {
      assert ds[i..][0] == ds[i] && ds[i..][1..] == ds[i + 1..];
      index := TypeItemGet(at, ds[i]);
      if index < 0 {
        return -1;
      }
      ghost var rest := GetAll(Tabs(at), ds[i + 1..]);
      assert rest.Some? ==> indexes + ([index] + rest.value) == indexes + [index] + rest.value;
      indexes := indexes + [index];
    }
    assert indexes + [] == indexes;
    index := at.Index(ITEM_TYPELIST, TypeList(indexes));
  }

  method ProtoItemGet(at: AtomTable, rindex: int, pindex: int) returns (index: int)
    requires at.Valid()
    ensures index == GetProto(Tabs(at), rindex, pindex)
  {
    index := at.Index(ITEM_PROTO, Atom.Proto(rindex, pindex));
  }

  method TypeItemGet(at: AtomTable, d: Desc) returns (index: int)
    requires at.Valid() && Encodable(d)
    ensures index == GetType(Tabs(at), d)
    decreases d, 0
  {
    hide AtomTable.Valid, IndexOf;
    var item: Atom;
    match d {
      case Base(c) =>
        item := Type(TYPE_BASE, c as int, 0);
      case Klass(path, name) =>
        var pathindex := -1;
        if path.Some? {
          pathindex := StringItemGet(at, path.value);
          if pathindex < 0 {
            return pathindex;
          }
        }
        var typeindex := StringItemGet(at, name);
        if typeindex < 0 {
          return typeindex;
        }
        item := Type(TYPE_KLASS, pathindex, typeindex);
      case Proto(args, rets) =>
        var rindex := TypeListItemGet(at, rets);
        var pindex := TypeListItemGet(at, args);
        var protoindex := ProtoItemGet(at, rindex, pindex);
        item := Type(TYPE_PROTO, protoindex, 0);
      case Array(dims, base) =>
        var typeindex := TypeItemGet(at, base);
        item := Type(TYPE_ARRAY, dims, typeindex);
      case Varg(base) =>
        var typeindex := TypeItemGet(at, base);
        item := Type(TYPE_VARG, typeindex, 0);
    }
    index := at.Index(ITEM_TYPE, item);
  }

  method TypeItemSet(at: AtomTable, d: Desc) returns (index: int)
    requires Ready(at) && Encodable(d)
    modifies at.Frame()
    ensures Ready(at) && fresh(at.Frame() - old(at.Frame())) && RestKept(old(at.items), at.items)
    ensures (Tabs(at), index) == SetType(old(Tabs(at)), d)
    decreases d, 2
  {
    hide AtomTable.Valid, WellFormed, IndexOf;
    index := TypeItemGet(at, d);
    if index < 0 {
      NewItemOk(Tabs(at), d);
      SetTypeOk(Tabs(at), d);
      var item := MakeItem(at, d);
      index := at.Append(ITEM_TYPE, item, true);
    }
  }

  /** The switch of TypeItem_Set. */
  method MakeItem(at: AtomTable, d: Desc) returns (item: Atom)
    requires Ready(at) && Encodable(d) && GetType(Tabs(at), d) < 0
    modifies at.Frame()
    ensures Ready(at) && fresh(at.Frame() - old(at.Frame())) && RestKept(old(at.items), at.items)
    ensures (Tabs(at), item) == NewItem(old(Tabs(at)), d)
    decreases d, 1
  {
    hide AtomTable.Valid, WellFormed, IndexOf;
    NewItemOk(Tabs(at), d);
    match d {
      case Base(c) =>
        item := Type(TYPE_BASE, c as int, 0);
      case Klass(path, name) =>
        var pathindex := -1;
        if path.Some? {
          pathindex := StringItemSet(at, path.value);
        }
        var typeindex := StringItemSet(at, name);
        item := Type(TYPE_KLASS, pathindex, typeindex);
      case Proto(args, rets) =>
        var protoindex := ProtoItemSet(at, args, rets);
        item := Type(TYPE_PROTO, protoindex, 0);
      case Array(dims, base) =>
        var typeindex := TypeItemSet(at, base);
        item := Type(TYPE_ARRAY, dims, typeindex);
      case Varg(base) =>
        var typeindex := TypeItemSet(at, base);
        item := Type(TYPE_VARG, typeindex, 0);
    }
  }

  method TypeListItemSet(at: AtomTable, ds: seq<Desc>) returns (index: int)
    requires Ready(at) && EncodableList(ds)
    modifies at.Frame()
    ensures Ready(at) && fresh(at.Frame() - old(at.Frame())) && RestKept(old(at.items), at.items)
    ensures (Tabs(at), index) == SetList(old(Tabs(at)), ds)
    decreases ds, 1
  {
    hide AtomTable.Valid, WellFormed, IndexOf;
    if |ds| <= 0 {
      return -1;
    }
    index := TypeListItemGet(at, ds);
    if index < 0 {
      SetListOk(Tabs(at), ds);
      SetAllOk(Tabs(at), ds);
      var indexes := SetElements(at, ds);
      NewListAbsent(old(Tabs(at)), ds);
      index := at.Append(ITEM_TYPELIST, TypeList(indexes), true);
    }
  }

  /** A list that TypeListItem_Get did not find is still not there once its elements are. */
  lemma {:induction false} NewListAbsent(t: Tables, ds: seq<Desc>)
    requires WellFormed(t) && EncodableList(ds) && ds != [] && GetList(t, ds) < 0
    ensures TypeList(SetAll(t, ds).1) !in SetAll(t, ds).0.lists
  {
    SetAllOk(t, ds);
  }

  /** The loop of TypeListItem_Set. */
  method SetElements(at: AtomTable, ds: seq<Desc>) returns (indexes: seq<int>)
    requires Ready(at) && EncodableList(ds)
    modifies at.Frame()
    ensures Ready(at) && fresh(at.Frame() - old(at.Frame())) && RestKept(old(at.items), at.items)
    ensures (Tabs(at), indexes) == SetAll(old(Tabs(at)), ds)
    decreases ds, 0
  {
    hide AtomTable.Valid, WellFormed, IndexOf;
    indexes := [];
    assert ds[0..] == ds && indexes + SetAll(Tabs(at), ds).1 == SetAll(Tabs(at), ds).1;
    for i := 0 to |ds|
      invariant Ready(at) && fresh(at.Frame() - old(at.Frame())) && RestKept(old(at.items), at.items)
      invariant |indexes| == i && EncodableList(ds[i..])
      invariant SetAll(old(Tabs(at)), ds)
             == var (t, rest) := SetAll(Tabs(at), ds[i..]); (t, indexes + rest)
    {
      assert ds[i..][0] == ds[i] && ds[i..][1..] == ds[i + 1..];
      ghost var was := Tabs(at);
      var index := TypeItemSet(at, ds[i]);
      ghost var (t, rest) := SetAll(Tabs(at), ds[i + 1..]);
      assert SetAll(was, ds[i..]) == (t, [index] + rest);
      assert indexes + ([index] + rest) == indexes + [index] + rest;
      indexes := indexes + [index];
    }
    assert indexes + [] == indexes;
  }

  method ProtoItemSet(at: AtomTable, args: seq<Desc>, rets: seq<Desc>) returns (index: int)
    requires Ready(at) && EncodableList(args) && EncodableList(rets)
    modifies at.Frame()
    ensures Ready(at) && fresh(at.Frame() - old(at.Frame())) && RestKept(old(at.items), at.items)
    ensures (Tabs(at), index) == SetProto(old(Tabs(at)), args, rets)
    decreases Desc.Proto(args, rets), 0
  {
    hide AtomTable.Valid, WellFormed, IndexOf;
    SetProtoOk(Tabs(at), args, rets);
    var rindex := TypeListItemSet(at, rets);
    var pindex := TypeListItemSet(at, args);
    index := ProtoItemGet(at, rindex, pindex);
    if index < 0 {
      index := at.Append(ITEM_PROTO, Atom.Proto(rindex, pindex), true);
    }
  }

  // ---------------------------------------------------------------- decoding

  method TypeItemToTypeDesc(at: AtomTable, k: int) returns (d: Desc)
    requires Ready(at) && 0 <= k < |at.items[ITEM_TYPE]|
    ensures d == Decode(Tabs(at), k)
    decreases k, 2, 0
  {
    var item := at.items[ITEM_TYPE][k];
    assert ItemOk(Tabs(at), item, k);
    if item.kind == TYPE_BASE {
      d := Base(item.word0 as char);
    } else if item.kind == TYPE_KLASS {
      var path := None;
      if item.word0 >= 0 {
        path := Some(at.items[ITEM_STRING][item.word0].text);
      }
      d := Klass(path, at.items[ITEM_STRING][item.word1].text);
    } else if item.kind == TYPE_PROTO {
      var args, rets := ProtoItemToTypeDesc(at, item.word0, k);
      d := Desc.Proto(args, rets);
    } else if item.kind == TYPE_ARRAY {
      var base := TypeItemToTypeDesc(at, item.word1);
      d := Array(item.word0, base);
    } else {
      var base := TypeItemToTypeDesc(at, item.word0);
      d := Varg(base);
    }
  }

  /** The types of the lists are below `bound`, which is what makes the decoding end. */
  method ProtoItemToTypeDesc(at: AtomTable, p: int, ghost bound: int) returns (args: seq<Desc>, rets: seq<Desc>)
    requires Ready(at) && bound <= |at.items[ITEM_TYPE]| && ProtoOk(Tabs(at), p, bound)
    ensures args == DecodeList(Tabs(at), at.items[ITEM_PROTO][p].pindex, bound)
    ensures rets == DecodeList(Tabs(at), at.items[ITEM_PROTO][p].rindex, bound)
    decreases bound, 1, 0
  {
    var item := at.items[ITEM_PROTO][p];
    rets := [];
    if item.rindex >= 0 {
      rets := TypeListItemToVector(at, item.rindex, bound);
    }
    args := [];
    if item.pindex >= 0 {
      args := TypeListItemToVector(at, item.pindex, bound);
    }
  }

  method TypeListItemToVector(at: AtomTable, l: int, ghost bound: int) returns (ds: seq<Desc>)
    requires Ready(at) && l >= 0 && bound <= |at.items[ITEM_TYPE]| && ListOk(Tabs(at), l, bound)
    ensures ds == DecodeList(Tabs(at), l, bound)
    decreases bound, 0, 0
  {
    var index := at.items[ITEM_TYPELIST][l].index;
    ds := [];
    for i := 0 to |index|
      invariant |ds| == i
      invariant forall j :: 0 <= j < i ==> ds[j] == Decode(Tabs(at), index[j])
    {
      var d := TypeItemToTypeDesc(at, index[i]);
      ds := ds + [d];
    }
  }
}
