/** Interning type descriptors in the tables of an image, and decoding them back
    (src/image.c, TypeItem_Get to TypeItem_Set and TypeItem_To_TypeDesc).

    The tables are values here; ImageTables does the same in place.
  */
module ImageTypes {
  import opened Basics
  import opened TypeDesc

  const TYPE_BASE: int := 1
  const TYPE_KLASS: int := 2
  const TYPE_PROTO: int := 3
  const TYPE_ARRAY: int := 4
  const TYPE_VARG: int := 7

  /** One item of a table.  A type item has a kind and two words, whatever its union holds. */
  datatype Atom =
    | Text(text: string)
    | Type(kind: int, word0: int, word1: int)
    | TypeList(index: seq<int>)
    | Proto(rindex: int, pindex: int)
    | Other(words: seq<int>)

  datatype Tables = Tables(strings: seq<Atom>, types: seq<Atom>, lists: seq<Atom>, protos: seq<Atom>)

  // ---------------------------------------------------------------- the code

  /** AtomTable_Index: where an item is stored, or -1. */
  function IndexOf(items: seq<Atom>, a: Atom): (i: int)
    ensures -1 <= i < |items|
    ensures i >= 0 ==> items[i] == a
    ensures i < 0 <==> a !in items
  {
    if items == [] then -1
    else if items[0] == a then 0
    else
      var i := IndexOf(items[1..], a);
      assert items == [items[0]] + items[1..];
      if i < 0 then -1 else i + 1
  }

  function GetString(t: Tables, s: string): int {
    IndexOf(t.strings, Text(s))
  }

  function SetString(t: Tables, s: string): (Tables, int) {
    var i := GetString(t, s);
    if i >= 0 then (t, i) else (t.(strings := t.strings + [Text(s)]), |t.strings|)
  }

  /** TypeItem_Get. */
  function GetType(t: Tables, d: Desc): int
    decreases d, 0
  {
    match d
    case Base(c) => IndexOf(t.types, Type(TYPE_BASE, c as int, 0))
    case Klass(path, name) =>
      var pathindex := if path == None then -1 else GetString(t, path.value);
      if path != None && pathindex < 0 then pathindex
      else
        var typeindex := GetString(t, name);
        if typeindex < 0 then typeindex else IndexOf(t.types, Type(TYPE_KLASS, pathindex, typeindex))
    case Proto(args, rets) =>
      IndexOf(t.types, Type(TYPE_PROTO, GetProto(t, GetList(t, rets), GetList(t, args)), 0))
    case Array(dims, base) => IndexOf(t.types, Type(TYPE_ARRAY, dims, GetType(t, base)))
    case Varg(base) => IndexOf(t.types, Type(TYPE_VARG, GetType(t, base), 0))
    case Map(_, _) => -1
    case Set(_) => -1
  }

  /** TypeListItem_Get: -1 for the empty list, for an element that is not there and for a list that
      is not there. */
  function GetList(t: Tables, ds: seq<Desc>): int
    decreases ds, 1
  {
    if ds == [] then -1
    else
      var index := GetAll(t, ds);
      if index == None then -1 else IndexOf(t.lists, TypeList(index.value))
  }

  function GetAll(t: Tables, ds: seq<Desc>): (index: Option<seq<int>>)
    ensures index.Some? ==> |index.value| == |ds|
    decreases ds, 0
  {
    if ds == [] then Some([])
    else
      var i := GetType(t, ds[0]);
      if i < 0 then None
      else
        var rest := GetAll(t, ds[1..]);
        if rest == None then None else Some([i] + rest.value)
  }

  function GetProto(t: Tables, rindex: int, pindex: int): int {
    IndexOf(t.protos, Atom.Proto(rindex, pindex))
  }

  /** TypeItem_Set. */
  function SetType(t: Tables, d: Desc): (Tables, int)
    decreases d, 2
  {
    if GetType(t, d) >= 0 then (t, GetType(t, d))
    else
      var (t', item) := NewItem(t, d);
      (t'.(types := t'.types + [item]), |t'.types|)
  }

  /** The type item made for a descriptor, after what it refers to is stored. */
  function NewItem(t: Tables, d: Desc): (Tables, Atom)
    decreases d, 1
  {
    match d
    case Base(c) => (t, Type(TYPE_BASE, c as int, 0))
    case Klass(path, name) =>
      var (t1, pathindex) := if path == None then (t, -1) else SetString(t, path.value);
      var (t2, typeindex) := SetString(t1, name);
      (t2, Type(TYPE_KLASS, pathindex, typeindex))
    case Proto(args, rets) =>
      var (t', protoindex) := SetProto(t, args, rets);
      (t', Type(TYPE_PROTO, protoindex, 0))
    case Array(dims, base) =>
      var (t', i) := SetType(t, base);
      (t', Type(TYPE_ARRAY, dims, i))
    case Varg(base) =>
      var (t', i) := SetType(t, base);
      (t', Type(TYPE_VARG, i, 0))
    case Map(_, _) => (t, Other([]))
    case Set(_) => (t, Other([]))
  }

  /** TypeListItem_Set. */
  function SetList(t: Tables, ds: seq<Desc>): (Tables, int)
    decreases ds, 1
  {
    if ds == [] then (t, -1)
    else if GetList(t, ds) >= 0 then (t, GetList(t, ds))
    else
      var (t', index) := SetAll(t, ds);
      (t'.(lists := t'.lists + [TypeList(index)]), |t'.lists|)
  }

  function SetAll(t: Tables, ds: seq<Desc>): (Tables, seq<int>)
    decreases ds, 0
  {
    if ds == [] then (t, [])
    else
      var (t1, i) := SetType(t, ds[0]);
      var (t2, rest) := SetAll(t1, ds[1..]);
      (t2, [i] + rest)
  }

  /** ProtoItem_Set. */
  function SetProto(t: Tables, args: seq<Desc>, rets: seq<Desc>): (Tables, int)
    decreases Desc.Proto(args, rets), 0
  {
    var (t1, rindex) := SetList(t, rets);
    var (t2, pindex) := SetList(t1, args);
    var i := GetProto(t2, rindex, pindex);
    if i >= 0 then (t2, i) else (t2.(protos := t2.protos + [Atom.Proto(rindex, pindex)]), |t2.protos|)
  }
}
