/** Indexed item tables with one hash table for the items that are kept unique (src/atomtable.c). */
module AtomTables {
  import opened ImageKinds
  import opened IntrusiveLists
  import opened HashTable
  import opened ImageTypes

  /** AtomEntry: the key of a hash node is the entry itself. */
  datatype Entry = Entry(kind: int, index: int, data: Atom)

  /** Item_Equal. */
  predicate SameItem(a: Entry, b: Entry) {
    a.kind == b.kind && a.data == b.data
  }

  /** The keys of the stored nodes, oldest first. */
  ghost function Keys(order: seq<HashNode<Entry>>): (keys: seq<Entry>)
    ensures |keys| == |order| && forall i :: 0 <= i < |keys| ==> keys[i] == order[i].key
  {
    seq(|order|, i requires 0 <= i < |order| => order[i].key)
  }

  ghost predicate EntryOk(e: Entry, items: seq<seq<Atom>>)
    requires |items| == ITEM_MAX
  {
    Unique(e.kind) && 0 <= e.index < |items[e.kind]| && items[e.kind][e.index] == e.data
  }

  /** The hash table holds one entry for each unique item and nothing else. */
  ghost predicate Agree(keys: seq<Entry>, items: seq<seq<Atom>>) {
    && |items| == ITEM_MAX
    && (forall e :: e in keys ==> EntryOk(e, items))
    && (forall kind, i :: Unique(kind) && 0 <= i < |items[kind]| ==> Entry(kind, i, items[kind][i]) in keys)
    && (forall i, j :: 0 <= i < j < |keys| ==> !SameItem(keys[i], keys[j]))
  }

  function NoItems(): (items: seq<seq<Atom>>)
    ensures |items| == ITEM_MAX && forall k :: 0 <= k < ITEM_MAX ==> items[k] == []
  {
    seq(ITEM_MAX, k => [])
  }

  lemma {:induction false} EmptyAgree()
    ensures Agree([], NoItems())
  {}

  lemma {:induction false} AgreeAppend(keys: seq<Entry>, items: seq<seq<Atom>>, kind: int, data: Atom)
    requires Agree(keys, items) && 0 <= kind < ITEM_MAX
    requires Unique(kind) ==> data !in items[kind]
    ensures var more := if Unique(kind) then [Entry(kind, |items[kind]|, data)] else [];
      Agree(keys + more, items[kind := items[kind] + [data]])
  {
    var more := if Unique(kind) then [Entry(kind, |items[kind]|, data)] else [];
    var items' := items[kind := items[kind] + [data]];
    forall e | e in keys + more
      ensures EntryOk(e, items')
    {
      if e in keys {
        assert EntryOk(e, items);
      }
    }
    forall k, i | Unique(k) && 0 <= i < |items'[k]|
      ensures Entry(k, i, items'[k][i]) in keys + more
    {
      if k != kind || i < |items[k]| {
        assert Entry(k, i, items[k][i]) in keys;
      } else {
        assert more[0] == Entry(k, i, data);
      }
    }
    forall i | 0 <= i < |keys| && Unique(kind)
      ensures !SameItem(keys[i], more[0])
    {
      assert EntryOk(keys[i], items);
    }
  }

  lemma {:induction false} OneEntry(keys: seq<Entry>, p: nat, q: nat)
    requires forall i, j :: 0 <= i < j < |keys| ==> !SameItem(keys[i], keys[j])
    requires p < |keys| && q < |keys| && SameItem(keys[p], keys[q])
    ensures p == q
  {}

  lemma {:induction false} AgreeLookup(keys: seq<Entry>, items: seq<seq<Atom>>, e: Entry, kind: int)
    requires Agree(keys, items) && Unique(kind)
    ensures e in keys && e.kind == kind ==> IndexOf(items[kind], e.data) == e.index
    ensures (forall k :: k in keys ==> !(k.kind == kind && k.data == e.data)) ==> IndexOf(items[kind], e.data) == -1
  {
    var i := IndexOf(items[kind], e.data);
    assert e in keys ==> EntryOk(e, items);
    if i >= 0 {
      var k := Entry(kind, i, items[kind][i]);
      assert k in keys;
      if e in keys && e.kind == kind {
        var p :| 0 <= p < |keys| && keys[p] == k;
        var q :| 0 <= q < |keys| && keys[q] == e;
        OneEntry(keys, p, q);
      }
    }
  }

  class AtomTable {
    const table: Table<Entry>
    var items: seq<seq<Atom>>

    ghost predicate Valid()
      reads this, table, table.head, table.nodes, table.heads
      ensures Valid() ==> |items| == ITEM_MAX
    {
      && table.Valid() && Agree(Keys(table.order), items)
      && (forall a, b :: table.equal(a, b) <==> SameItem(a, b))
    }

    ghost function Frame(): set<object>
      reads this, table
    {
      {this, table, table.head} + table.nodes + table.heads
    }

    /** The hash table of AtomTable_New. */
    static method NewTable(hash: (int, Atom) -> nat) returns (table: Table<Entry>)
      ensures table.Valid() && table.order == [] && forall a, b :: table.equal(a, b) <==> SameItem(a, b)
      ensures fresh({table, table.head} + table.nodes + table.heads)
    {
      table := new Table<Entry>((e: Entry) => hash(e.kind, e.data), SameItem);
    }

    /** AtomTable_New, on any hash of kind and data. */
    constructor (hash: (int, Atom) -> nat)
      ensures Valid() && items == NoItems() && fresh(Frame())
    {
      var entries := NewTable(hash);
      table := entries;
      items := NoItems();
      new;
      hide Table.Valid, Agree, NoItems;
      EmptyAgree();
      assert Keys(table.order) == [];
    }

    /** AtomTable_Index. */
    method Index(kind: int, data: Atom) returns (index: int)
      requires Valid() && Unique(kind)
      ensures index == IndexOf(items[kind], data)
    {
      hide IndexOf, Agree;
      var e := Entry(kind, 0, data);
      var node := table.Find(e);
      SearchMisses(table.order, table.equal, e);
      ghost var keys := Keys(table.order);
      if node == null {
        forall k | k in keys
          ensures !(k.kind == kind && k.data == data)
        {
          var i :| 0 <= i < |keys| && keys[i] == k;
          assert !table.equal(table.order[i].key, e);
        }
        AgreeLookup(keys, items, e, kind);
        return -1;
      }
      ghost var i :| 0 <= i < |table.order| && table.order[i] == node;
      assert keys[i] == node.key;
      AgreeLookup(keys, items, node.key, kind);
      return node.key.index;
    }

    /** AtomTable_Append; its assertion wants a unique item to be new. */
    method Append(kind: int, data: Atom, unique: bool) returns (index: int)
      requires Valid() && 0 <= kind < ITEM_MAX && unique == Unique(kind)
      requires unique ==> data !in items[kind]
      modifies Frame()
      ensures Valid() && fresh(Frame() - old(Frame()))
      ensures items == old(items)[kind := old(items)[kind] + [data]]
      ensures index == |old(items)[kind]| && items[kind][index] == data
    {
      hide Table.Valid;
      index := |items[kind]|;
      ghost var keys := Keys(table.order);
      AgreeAppend(keys, items, kind, data);
      items := items[kind := items[kind] + [data]];
      if unique {
        NewKey(keys, Entry(kind, index, data));
        InsertEntry(Entry(kind, index, data));
        assert Keys(table.order) == keys + [Entry(kind, index, data)];
      } else {
        assert keys + [] == keys;
      }
    }

    lemma NewKey(keys: seq<Entry>, e: Entry)
      requires keys == Keys(table.order) && Agree(keys + [e], items)
      ensures forall n :: n in table.order ==> !SameItem(n.key, e)
    {
      forall n | n in table.order
        ensures !SameItem(n.key, e)
      {
        var i :| 0 <= i < |table.order| && table.order[i] == n;
        assert (keys + [e])[i] == n.key && (keys + [e])[|keys|] == e;
      }
    }

    /** The hash node of a new entry; HashTable_Insert takes it. */
    method InsertEntry(e: Entry)
      requires table.Valid() && forall a, b :: table.equal(a, b) <==> SameItem(a, b)
      requires forall n :: n in table.order ==> !SameItem(n.key, e)
      modifies table, table.head, table.nodes, table.heads
      ensures table.Valid() && fresh(table.nodes - old(table.nodes)) && fresh(table.heads - old(table.heads))
      ensures |table.order| == |old(table.order)| + 1 && table.order[..|old(table.order)|] == old(table.order)
      ensures table.order[|old(table.order)|].key == e
    {
      hide Table.Valid;
      SearchMisses(table.order, table.equal, e);
      var node := new HashNode<Entry>(e);
      var r := table.Insert(node);
      assert r == 0;
    }
  }
}
