/** Decoding the index-linked type tables of an image (src/image.c, TypeItem_To_TypeDesc,
    TypeListItem_To_Vector, ProtoItem_To_TypeDesc), and why the decoding ends and is one to one.

    Decoding yields the meaning that the items spell out.  The C decoder asks for a node with that
    meaning in the table of descriptors, which is keyed by text: for a descriptor in normal form that
    is the very node (DescPool.Pool.Canonical), and otherwise the node that shares its text
    (TypeText.TextNeedsNormalForm).
  */
module ImageDecode {
  import opened Basics
  import opened TypeDesc
  import opened ImageTypes

  /** Descriptors an image can hold: neither maps nor sets anywhere. */
  predicate Encodable(d: Desc) {
    match d
    case Base(c) => c in BASES
    case Klass(_, _) => true
    case Proto(args, rets) => EncodableList(args) && EncodableList(rets)
    case Array(_, base) => Encodable(base)
    case Varg(base) => Encodable(base)
    case Map(_, _) => false
    case Set(_) => false
  }

  predicate EncodableList(ds: seq<Desc>) {
    ds == [] || (Encodable(ds[0]) && EncodableList(ds[1..]))
  }

  // ---------------------------------------------------------------- well-formed tables

  predicate Distinct(items: seq<Atom>) {
    forall i, j :: 0 <= i < j < |items| ==> items[i] != items[j]
  }

  /** A list reference: none, or a list of types below the bound. */
  predicate ListOk(t: Tables, l: int, bound: int) {
    l == -1 || (
      && 0 <= l < |t.lists| && t.lists[l].TypeList? && t.lists[l].index != []
      && forall j :: 0 <= j < |t.lists[l].index| ==> 0 <= t.lists[l].index[j] < bound)
  }

  predicate ProtoOk(t: Tables, p: int, bound: int) {
    && 0 <= p < |t.protos| && t.protos[p].Proto?
    && ListOk(t, t.protos[p].rindex, bound) && ListOk(t, t.protos[p].pindex, bound)
  }

  /** What a type item refers to is there, and types it refers to come before it. */
  predicate ItemOk(t: Tables, a: Atom, bound: int) {
    a.Type? && (
      || (a.kind == TYPE_BASE && 0 <= a.word0 < 128 && a.word0 as char in BASES && a.word1 == 0)
      || (a.kind == TYPE_KLASS && -1 <= a.word0 < |t.strings| && 0 <= a.word1 < |t.strings|)
      || (a.kind == TYPE_PROTO && ProtoOk(t, a.word0, bound) && a.word1 == 0)
      || (a.kind == TYPE_ARRAY && 0 <= a.word0 && 0 <= a.word1 < bound)
      || (a.kind == TYPE_VARG && 0 <= a.word0 < bound && a.word1 == 0))
  }

  predicate WellFormed(t: Tables) {
    && (forall i :: 0 <= i < |t.strings| ==> t.strings[i].Text?)
    && (forall k :: 0 <= k < |t.types| ==> ItemOk(t, t.types[k], k))
    && (forall l :: 0 <= l < |t.lists| ==> ListOk(t, l, |t.types|))
    && (forall p :: 0 <= p < |t.protos| ==> ProtoOk(t, p, |t.types|))
    && Distinct(t.strings) && Distinct(t.types) && Distinct(t.lists) && Distinct(t.protos)
  }

  const EMPTY: Tables := Tables([], [], [], [])

  /** Every table only grew. */
  predicate Extends(t: Tables, t': Tables) {
    t.strings <= t'.strings && t.types <= t'.types && t.lists <= t'.lists && t.protos <= t'.protos
  }

  // ---------------------------------------------------------------- decoding

  /** TypeItem_To_TypeDesc.  The index goes down: a type refers to smaller ones only. */
  function Decode(t: Tables, k: int): Desc
    requires WellFormed(t) && 0 <= k < |t.types|
    decreases k, 2, 0
  {
    var a := t.types[k];
    assert ItemOk(t, a, k);
    if a.kind == TYPE_BASE then Base(a.word0 as char)
    else if a.kind == TYPE_KLASS then
      Klass(if a.word0 >= 0 then Some(t.strings[a.word0].text) else None, t.strings[a.word1].text)
    else if a.kind == TYPE_PROTO then
      Desc.Proto(DecodeList(t, t.protos[a.word0].pindex, k), DecodeList(t, t.protos[a.word0].rindex, k))
    else if a.kind == TYPE_ARRAY then Array(a.word0, Decode(t, a.word1))
    else Varg(Decode(t, a.word0))
  }

  /** TypeListItem_To_Vector. */
  function DecodeList(t: Tables, l: int, bound: int): seq<Desc>
    requires WellFormed(t) && bound <= |t.types| && ListOk(t, l, bound)
    decreases bound, 1, 0
  {
    if l < 0 then [] else DecodeAll(t, t.lists[l].index, bound)
  }

  function DecodeAll(t: Tables, index: seq<int>, bound: int): (ds: seq<Desc>)
    requires WellFormed(t) && bound <= |t.types|
    requires forall j :: 0 <= j < |index| ==> 0 <= index[j] < bound
    ensures |ds| == |index|
    ensures forall j :: 0 <= j < |index| ==> ds[j] == Decode(t, index[j])
    decreases bound, 0, |index|
  {
    if index == [] then [] else [Decode(t, index[0])] + DecodeAll(t, index[1..], bound)
  }

  /** Later appends do not change what an index stands for. */
  lemma {:induction false} DecodeStable(t: Tables, t': Tables, k: int)
    requires WellFormed(t) && WellFormed(t') && Extends(t, t') && 0 <= k < |t.types|
    ensures Decode(t', k) == Decode(t, k)
    decreases k, 1
  {
    var a := t.types[k];
    assert ItemOk(t, a, k) && t'.types[k] == a;
    if a.kind == TYPE_PROTO {
      DecodeListStable(t, t', t.protos[a.word0].pindex, k, k);
      DecodeListStable(t, t', t.protos[a.word0].rindex, k, k);
    } else if a.kind == TYPE_ARRAY {
      DecodeStable(t, t', a.word1);
    } else if a.kind == TYPE_VARG {
      DecodeStable(t, t', a.word0);
    }
  }

  lemma {:induction false} DecodeListStable(t: Tables, t': Tables, l: int, bound: int, bound': int)
    requires WellFormed(t) && WellFormed(t') && Extends(t, t')
    requires bound <= |t.types| && bound' <= |t'.types| && ListOk(t, l, bound) && ListOk(t', l, bound')
    ensures DecodeList(t', l, bound') == DecodeList(t, l, bound)
    decreases bound, 0
  {
    if l >= 0 {
      var index := t.lists[l].index;
      assert t'.lists[l] == t.lists[l];
      forall j | 0 <= j < |index|
        ensures DecodeAll(t', index, bound')[j] == DecodeAll(t, index, bound)[j]
      {
        DecodeStable(t, t', index[j]);
      }
    }
  }

  /** Different indexes stand for different descriptors. */
  lemma {:induction false} DecodeInjective(t: Tables, i: int, j: int)
    requires WellFormed(t) && 0 <= i < |t.types| && 0 <= j < |t.types|
    requires Decode(t, i) == Decode(t, j)
    ensures i == j
    decreases i, 1
  {
    var a, b := t.types[i], t.types[j];
    assert ItemOk(t, a, i) && ItemOk(t, b, j);
    if a.kind == TYPE_KLASS {
      assert a.word0 >= 0 ==> t.strings[a.word0] == t.strings[b.word0];
      assert t.strings[a.word1] == t.strings[b.word1];
    } else if a.kind == TYPE_PROTO {
      DecodeListInjective(t, t.protos[a.word0].pindex, t.protos[b.word0].pindex, i, j);
      DecodeListInjective(t, t.protos[a.word0].rindex, t.protos[b.word0].rindex, i, j);
      assert t.protos[a.word0] == t.protos[b.word0];
    } else if a.kind == TYPE_ARRAY {
      DecodeInjective(t, a.word1, b.word1);
    } else if a.kind == TYPE_VARG {
      DecodeInjective(t, a.word0, b.word0);
    }
    assert a == b;
  }

  lemma {:induction false} DecodeListInjective(t: Tables, l: int, m: int, bound: int, bound': int)
    requires WellFormed(t) && bound <= |t.types| && bound' <= |t.types|
    requires ListOk(t, l, bound) && ListOk(t, m, bound')
    requires DecodeList(t, l, bound) == DecodeList(t, m, bound')
    ensures l == m
    decreases bound, 0
  {
    if l >= 0 && m >= 0 {
      var index, index' := t.lists[l].index, t.lists[m].index;
      forall k | 0 <= k < |index|
        ensures index[k] == index'[k]
      {
        assert DecodeAll(t, index, bound)[k] == DecodeAll(t, index', bound')[k];
        DecodeInjective(t, index[k], index'[k]);
      }
      assert index == index';
      assert t.lists[l] == t.lists[m];
    }
  }
}
