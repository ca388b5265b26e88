/** Reading the sections of an image file back (src/image.c:1791-2016), as functions of its bytes. */
module ImageReader {
  import opened Basics
  import opened ImageKinds
  import opened ImageLayout

  /** fread of one item at a position; None stands for a failed assertion.  Reading an array of no
      elements counts as a failed read. */
  function ReadItem(file: seq<byte>, pos: int, k: int): (r: Option<Item>)
    requires Kind(k) && 0 <= pos
    ensures r.Some? ==> ItemFits(k, r.value) && pos + ItemLength(k, r.value) <= |file|
  {
    if HasCount(k) then
      if |file| < pos + 4 then None
      else
        var count := Unword(file[pos..pos + 4]);
        var n := count * Size(k);
        if n == 0 || |file| < pos + 4 + n then None
        else Some(Counted(count, file[pos + 4..pos + 4 + n]))
    else if |file| < pos + Size(k) then None
    else Some(Flat(file[pos..pos + Size(k)]))
  }

  /** The items of one section.  Items of a unique kind are interned again, so a repeated one fails. */
  function ReadItems(file: seq<byte>, pos: int, k: int, n: int, done: seq<Item>): (r: Option<seq<Item>>)
    requires Kind(k) && 0 <= pos && 0 <= n && ItemsFit(k, done)
    ensures r.Some? ==> ItemsFit(k, r.value)
    decreases n
  {
    if n == 0 then Some(done)
    else
      var item := ReadItem(file, pos, k);
      if item == None || (Unique(k) && item.value in done) then None
      else ReadItems(file, pos + ItemLength(k, item.value), k, n - 1, done + [item.value])
  }

  /** An item the reader cannot take back: its array is empty. */
  predicate Hollow(item: Item) {
    item.Counted? && item.data == []
  }

  /** No item of the list occurs twice. */
  ghost predicate NoRepeat(items: seq<Item>) {
    forall i, j :: 0 <= i < j < |items| ==> items[i] != items[j]
  }

  lemma {:induction false} ReadItemBack(file: seq<byte>, pos: int, k: int, item: Item)
    requires Kind(k) && 0 <= pos && ItemFits(k, item)
    requires pos + |ItemBytes(k, item)| <= |file|
    requires file[pos..pos + |ItemBytes(k, item)|] == ItemBytes(k, item)
    ensures ReadItem(file, pos, k) == if Hollow(item) then None else Some(item)
  {
    var b := ItemBytes(k, item);
    if item.Counted? {
      assert file[pos..pos + 4] == b[..4] == Word(item.count);
      WordRoundTrip(item.count);
      assert file[pos + 4..pos + |b|] == b[4..] == item.data;
      EmptyArray(item.count, Size(k));
    }
  }

  lemma {:induction false} EmptyArray(count: int, size: int)
    requires 0 <= count && 1 <= size
    ensures count * size == 0 <==> count == 0
  {}

  ghost predicate HasHollow(items: seq<Item>) {
    exists i :: 0 <= i < |items| && Hollow(items[i])
  }

  /** A section reads back, behind what was read before, exactly when it holds no empty array and, in a
      kind that is interned again, no item twice. */
  lemma {:induction false} ReadItemsBack(file: seq<byte>, pos: int, k: int, done: seq<Item>, items: seq<Item>)
    requires Kind(k) && 0 <= pos && ItemsFit(k, done) && ItemsFit(k, items)
    requires Unique(k) ==> NoRepeat(done)
    requires pos + |Section(k, items)| <= |file|
    requires file[pos..pos + |Section(k, items)|] == Section(k, items)
    ensures ReadItems(file, pos, k, |items|, done)
         == if HasHollow(items) || (Unique(k) && !NoRepeat(done + items)) then None else Some(done + items)
    decreases |items|
  {
    hide Section, SectionLength, ItemBytes, ItemLength, ReadItem, NoRepeat, ItemFits, HasHollow;
    if items == [] {
      assert done + items == done;
      NoneHollow();
    } else {
      var item, rest := items[0], items[1..];
      var b := ItemBytes(k, item);
      FirstOfSection(k, items);
      Prefix(file, pos, b, Section(k, rest));
      ReadItemBack(file, pos, k, item);
      HollowTail(items);
      if Unique(k) {
        FirstIsNew(done, items);
      }
      if !Hollow(item) && !(Unique(k) && item in done) {
        assert done + [item] + rest == done + items;
        ReadItemsBack(file, pos + |b|, k, done + [item], rest);
      }
    }
  }

  lemma {:induction false} NoneHollow()
    ensures !HasHollow([])
  {}

  lemma {:induction false} FirstOfSection(k: int, items: seq<Item>)
    requires Kind(k) && ItemsFit(k, items) && items != []
    ensures Section(k, items) == ItemBytes(k, items[0]) + Section(k, items[1..])
  {}

  lemma {:induction false} FirstIsNew(done: seq<Item>, items: seq<Item>)
    requires items != [] && NoRepeat(done)
    ensures if items[0] in done then !NoRepeat(done + items) else NoRepeat(done + [items[0]])
  {
    assert (done + items)[|done|] == items[0];
    if items[0] in done {
      var i :| 0 <= i < |done| && done[i] == items[0];
      assert (done + items)[i] == items[0];
    }
  }

  lemma {:induction false} Prefix(file: seq<byte>, pos: int, a: seq<byte>, b: seq<byte>)
    requires 0 <= pos && pos + |a + b| <= |file| && file[pos..pos + |a + b|] == a + b
    ensures file[pos..pos + |a|] == a
    ensures file[pos + |a|..pos + |a| + |b|] == b
  {
    assert file[pos..pos + |a|] == file[pos..pos + |a + b|][..|a|];
    assert file[pos + |a|..pos + |a| + |b|] == file[pos..pos + |a + b|][|a|..];
  }

  lemma {:induction false} HollowTail(items: seq<Item>)
    requires items != []
    ensures HasHollow(items) <==> Hollow(items[0]) || HasHollow(items[1..])
  {
    if i :| 0 <= i < |items[1..]| && Hollow(items[1..][i]) {
      assert Hollow(items[i + 1]);
    }
    if i :| 0 <= i < |items| && Hollow(items[i]) {
      assert i > 0 ==> Hollow(items[1..][i - 1]);
    }
  }

  // ---------------------------------------------------------------- what was there

  lemma {:induction false} UnwordRoundTrip(b: seq<byte>)
    requires |b| == 4
    ensures Word(Unword(b)) == b
  {
    var x, z := Unword(b), b[2] as int + 256 * (b[3] as int);
    var y := b[1] as int + 256 * (b[2] as int) + 65536 * (b[3] as int);
    assert x == b[0] as int + 256 * y && y == b[1] as int + 256 * z && z == b[2] as int + 256 * (b[3] as int);
    assert x / 256 == y && y / 256 == z && z / 256 == b[3] as int;
    assert x / 65536 == z && x / 16777216 == b[3] as int;
  }

  /** What is read is what lies there. */
  lemma {:induction false} ReadItemIsThere(file: seq<byte>, pos: int, k: int)
    requires Kind(k) && 0 <= pos && ReadItem(file, pos, k).Some?
    ensures var item := ReadItem(file, pos, k).value;
      && !Hollow(item) && pos + |ItemBytes(k, item)| <= |file|
      && file[pos..pos + |ItemBytes(k, item)|] == ItemBytes(k, item)
  {
    if HasCount(k) {
      UnwordRoundTrip(file[pos..pos + 4]);
      var n := |ItemBytes(k, ReadItem(file, pos, k).value)| - 4;
      assert file[pos..pos + 4 + n] == file[pos..pos + 4] + file[pos + 4..pos + 4 + n];
    }
  }

  lemma {:induction false} Behind(file: seq<byte>, pos: int, a: seq<byte>, b: seq<byte>)
    requires 0 <= pos && pos + |a| + |b| <= |file|
    requires file[pos..pos + |a|] == a && file[pos + |a|..pos + |a| + |b|] == b
    ensures file[pos..pos + |a + b|] == a + b
  {
    assert file[pos..pos + |a + b|] == file[pos..pos + |a|] + file[pos + |a|..pos + |a| + |b|];
  }

  /** Whatever a section reads as lies there in the file: as many items as announced, none of them empty
      and, in a kind that is interned again, all of them new and different. */
  lemma {:induction false} ReadItemsAreThere(file: seq<byte>, pos: int, k: int, n: int, done: seq<Item>)
    returns (items: seq<Item>)
    requires Kind(k) && 0 <= pos && 0 < n && ItemsFit(k, done) && (Unique(k) ==> NoRepeat(done))
    requires ReadItems(file, pos, k, n, done).Some?
    ensures ReadItems(file, pos, k, n, done) == Some(done + items) && |items| == n && ItemsFit(k, items)
    ensures !HasHollow(items) && (Unique(k) ==> NoRepeat(done + items))
    ensures pos + |Section(k, items)| <= |file| && file[pos..pos + |Section(k, items)|] == Section(k, items)
    decreases n
  {
    hide ItemBytes, ItemLength, ReadItem, ItemFits, HasHollow, NoRepeat;
    var item := ReadItem(file, pos, k).value;
    ReadItemIsThere(file, pos, k);
    if Unique(k) {
      FirstIsNew(done, [item]);
    }
    var rest := [];
    if n > 1 {
      rest := ReadItemsAreThere(file, pos + ItemLength(k, item), k, n - 1, done + [item]);
      Behind(file, pos, ItemBytes(k, item), Section(k, rest));
    } else {
      NoneHollow();
      assert ItemBytes(k, item) + [] == ItemBytes(k, item) && done + [item] + rest == done + [item];
    }
    items := [item] + rest;
    assert items[1..] == rest && done + [item] + rest == done + items;
    HollowTail(items);
  }

  // ---------------------------------------------------------------- the directory

  function ReadMaps(file: seq<byte>, pos: int, n: int): (maps: Option<seq<MapItem>>)
    requires 0 <= pos && 0 <= n
    ensures maps.Some? ==> forall i :: 0 <= i < |maps.value| ==> MapFits(maps.value[i])
    decreases n
  {
    if n == 0 then Some([])
    else if |file| < pos + MAP_ITEM_SIZE then None
    else
      var rest := ReadMaps(file, pos + MAP_ITEM_SIZE, n - 1);
      if rest == None then None else Some([ParseMap(file[pos..pos + MAP_ITEM_SIZE])] + rest.value)
  }

  lemma {:induction false} ReadMapsBack(file: seq<byte>, pos: int, maps: seq<MapItem>)
    requires 0 <= pos && forall i :: 0 <= i < |maps| ==> MapFits(maps[i])
    requires pos + |MapsBytes(maps)| <= |file| && file[pos..pos + |MapsBytes(maps)|] == MapsBytes(maps)
    ensures ReadMaps(file, pos, |maps|) == Some(maps)
    decreases |maps|
  {
    if maps != [] {
      Prefix(file, pos, MapBytes(maps[0]), MapsBytes(maps[1..]));
      MapRoundTrip(maps[0]);
      ReadMapsBack(file, pos + MAP_ITEM_SIZE, maps[1..]);
      assert maps == [maps[0]] + maps[1..];
    }
  }

  /** The directory can be read exactly when the file has room for it. */
  lemma {:induction false} ReadMapsNeedsRoom(file: seq<byte>, pos: int, n: int)
    requires 0 <= pos && 0 <= n
    ensures ReadMaps(file, pos, n).Some? <==> n == 0 || pos + MAP_ITEM_SIZE * n <= |file|
    ensures ReadMaps(file, pos, n).Some? ==> |ReadMaps(file, pos, n).value| == n
    decreases n
  {
    if n > 0 && pos + MAP_ITEM_SIZE <= |file| {
      ReadMapsNeedsRoom(file, pos + MAP_ITEM_SIZE, n - 1);
    }
  }

  // ---------------------------------------------------------------- all sections

  /** The tables after reading the sections of `maps` that the mask does not exclude. */
  function ReadSections(file: seq<byte>, maps: seq<MapItem>, unload: set<int>, tables: seq<seq<Item>>)
      : Option<seq<seq<Item>>>
    requires |tables| == ITEM_MAX && forall k | 1 <= k < ITEM_MAX :: ItemsFit(k, tables[k])
    requires forall i :: 0 <= i < |maps| ==> MapFits(maps[i])
    decreases |maps|
  {
    if maps == [] then Some(tables)
    else
      var m := maps[0];
      assert MapFits(m);
      if !Kind(m.kind) then None
      else if m.kind in unload then ReadSections(file, maps[1..], unload, tables)
      else
        var items := ReadItems(file, m.offset, m.kind, m.size, tables[m.kind]);
        if items == None then None
        else ReadSections(file, maps[1..], unload, tables[m.kind := items.value])
  }

  /** The tables that a mask keeps, below kind k. */
  ghost function Kept(tables: seq<seq<Item>>, unload: set<int>, k: int): (kept: seq<seq<Item>>)
    requires |tables| == ITEM_MAX
    ensures |kept| == ITEM_MAX
    ensures forall i :: 0 <= i < ITEM_MAX ==> kept[i] == if 1 <= i < k && i !in unload then tables[i] else []
  {
    seq(ITEM_MAX, i requires 0 <= i < ITEM_MAX => if 1 <= i < k && i !in unload then tables[i] else [])
  }

  /** The reader cannot take the section back: an array is empty, or an item that it interns again
      occurs twice. */
  ghost predicate Unreadable(k: int, items: seq<Item>) {
    HasHollow(items) || (Unique(k) && !NoRepeat(items))
  }

  /** Some section to be loaded, of kind k or a later one, cannot be taken back. */
  ghost predicate SomeUnreadable(tables: seq<seq<Item>>, unload: set<int>, k: int)
    requires |tables| == ITEM_MAX
  {
    exists j :: 1 <= k <= j < ITEM_MAX && j !in unload && Unreadable(j, tables[j])
  }

  /** What AtomTable keeps: the unique kinds hold no item twice. */
  ghost predicate Interned(tables: seq<seq<Item>>)
    requires |tables| == ITEM_MAX
  {
    forall k :: Unique(k) ==> NoRepeat(tables[k])
  }

  /** The directory of the sections from kind k on. */
  ghost function MapsFrom(tables: seq<seq<Item>>, k: int): seq<MapItem>
    requires TablesFit(tables) && 1 <= k <= ITEM_MAX
    decreases ITEM_MAX - k
  {
    if k == ITEM_MAX then []
    else MapEntry(tables, k) + MapsFrom(tables, k + 1)
  }

  lemma {:induction false} MapsSplit(tables: seq<seq<Item>>, k: int)
    requires TablesFit(tables) && 1 <= k <= ITEM_MAX
    ensures Maps(tables, ITEM_MAX) == Maps(tables, k) + MapsFrom(tables, k)
    decreases ITEM_MAX - k
  {
    hide Start, Maps, MapEntry, TablesFit;
    if k == ITEM_MAX {
      assert Maps(tables, k) + [] == Maps(tables, k);
    } else {
      MapsSplit(tables, k + 1);
      MapsStep(tables, k);
      Assoc(Maps(tables, k), MapEntry(tables, k), MapsFrom(tables, k + 1));
    }
  }

  /** One more table read. */
  lemma {:induction false} KeptStep(tables: seq<seq<Item>>, unload: set<int>, k: int)
    requires |tables| == ITEM_MAX && Kind(k)
    ensures Kept(tables, unload, k)[k] == []
    ensures Kept(tables, unload, k + 1) == Kept(tables, unload, k)[k := if k in unload then [] else tables[k]]
  {}

  lemma {:induction false} SomeUnreadableStep(tables: seq<seq<Item>>, unload: set<int>, k: int)
    requires |tables| == ITEM_MAX && Kind(k)
    ensures SomeUnreadable(tables, unload, k) <==>
            (k !in unload && Unreadable(k, tables[k])) || SomeUnreadable(tables, unload, k + 1)
  {}

  lemma {:induction false} SectionReadsBack(file: seq<byte>, tables: seq<seq<Item>>, k: int)
    requires TablesFit(tables) && Kind(k) && SectionAt(file, tables, k, Start(tables, k))
    ensures ReadItems(file, Start(tables, k), k, |tables[k]|, [])
         == if Unreadable(k, tables[k]) then None else Some(tables[k])
  {
    hide ReadItems, Section, ItemFits, Used, Before;
    assert [] + tables[k] == tables[k];
    ReadItemsBack(file, Start(tables, k), k, [], tables[k]);
  }

  ghost predicate AllFit(maps: seq<MapItem>) {
    forall i :: 0 <= i < |maps| ==> MapFits(maps[i])
  }

  lemma {:induction false} RestFits(tables: seq<seq<Item>>, k: int)
    requires TablesFit(tables) && Kind(k) && AllFit(MapsFrom(tables, k))
    ensures AllFit(MapsFrom(tables, k + 1))
  {
    hide MapFits, MapEntry;
    var here, rest := MapEntry(tables, k), MapsFrom(tables, k + 1);
    forall i | 0 <= i < |rest|
      ensures MapFits(rest[i])
    {
      assert (here + rest)[|here| + i] == rest[i];
    }
  }

  /** Reading one section. */
  lemma {:induction false} SectionStep(file: seq<byte>, tables: seq<seq<Item>>, unload: set<int>, k: int)
    requires TablesFit(tables) && Kind(k) && SectionAt(file, tables, k, Start(tables, k))
    requires AllFit(MapsFrom(tables, k)) && AllFit(MapsFrom(tables, k + 1))
    ensures ReadSections(file, MapsFrom(tables, k), unload, Kept(tables, unload, k))
         == if k !in unload && Unreadable(k, tables[k]) then None
            else ReadSections(file, MapsFrom(tables, k + 1), unload, Kept(tables, unload, k + 1))
  {
    hide Start, Unreadable, SectionAt, ReadItems, MapFits, Kept;
    KeptStep(tables, unload, k);
    if tables[k] == [] {
      assert MapsFrom(tables, k) == MapsFrom(tables, k + 1);
      NothingUnreadable(k);
      assert Kept(tables, unload, k + 1) == Kept(tables, unload, k);
    } else {
      var m, maps := MapItem(k, Start(tables, k), |tables[k]|), MapsFrom(tables, k);
      assert maps == [m] + MapsFrom(tables, k + 1);
      assert maps[0] == m && maps[1..] == MapsFrom(tables, k + 1);
      SectionReadsBack(file, tables, k);
      if k in unload {
        assert Kept(tables, unload, k + 1) == Kept(tables, unload, k);
      }
    }
  }

  lemma {:induction false} NothingLeft(file: seq<byte>, tables: seq<seq<Item>>, unload: set<int>)
    requires TablesFit(tables)
    ensures MapsFrom(tables, ITEM_MAX) == [] && !SomeUnreadable(tables, unload, ITEM_MAX)
    ensures ReadSections(file, [], unload, Kept(tables, unload, ITEM_MAX)) == Some(Kept(tables, unload, ITEM_MAX))
  {
    hide Kept;
  }

  lemma {:induction false} SectionsReadBack(file: seq<byte>, tables: seq<seq<Item>>, unload: set<int>, k: int)
    requires TablesFit(tables) && 1 <= k <= ITEM_MAX && AllFit(MapsFrom(tables, k))
    requires forall j :: Kind(j) ==> SectionAt(file, tables, j, Start(tables, j))
    ensures ReadSections(file, MapsFrom(tables, k), unload, Kept(tables, unload, k))
         == if SomeUnreadable(tables, unload, k) then None else Some(Kept(tables, unload, ITEM_MAX))
    decreases ITEM_MAX - k
  {
    assert |tables| == ITEM_MAX;
    hide Unreadable, SectionAt, Start, MapFits, Kept, AllFit, TablesFit, ReadSections, SomeUnreadable, MapsFrom;
    if k == ITEM_MAX {
      NothingLeft(file, tables, unload);
    } else {
      RestFits(tables, k);
      SectionStep(file, tables, unload, k);
      SomeUnreadableStep(tables, unload, k);
      SectionsReadBack(file, tables, unload, k + 1);
    }
  }

  lemma {:induction false} NothingUnreadable(k: int)
    ensures !Unreadable(k, [])
  {}

  lemma {:induction false} ReadItemsExtend(file: seq<byte>, pos: int, k: int, n: int, done: seq<Item>)
    requires Kind(k) && 0 <= pos && 0 <= n && ItemsFit(k, done)
    ensures var r := ReadItems(file, pos, k, n, done); r.Some? ==> done <= r.value && |r.value| == |done| + n
    decreases n
  {
    hide ReadItem, ItemFits, ItemLength;
    if n > 0 {
      var item := ReadItem(file, pos, k);
      if item.Some? && !(Unique(k) && item.value in done) {
        ReadItemsExtend(file, pos + ItemLength(k, item.value), k, n - 1, done + [item.value]);
      }
    }
  }

  /** A load only adds to the tables, also when the directory names a kind twice, and adds nothing to
      those that the mask excludes. */
  lemma {:induction false} LoadsOnlyAdd(file: seq<byte>, maps: seq<MapItem>, unload: set<int>,
      tables: seq<seq<Item>>, k: nat)
    requires |tables| == ITEM_MAX && forall k | 1 <= k < ITEM_MAX :: ItemsFit(k, tables[k])
    requires AllFit(maps) && k < ITEM_MAX
    ensures var r := ReadSections(file, maps, unload, tables);
      r.Some? ==> |r.value| == ITEM_MAX && tables[k] <= r.value[k] && (k in unload ==> r.value[k] == tables[k])
    decreases |maps|
  {
    hide ReadItems, ItemFits, MapFits;
    if maps != [] && Kind(maps[0].kind) {
      var m := maps[0];
      assert MapFits(m);
      MapFitsWords(m);
      if m.kind in unload {
        LoadsOnlyAdd(file, maps[1..], unload, tables, k);
      } else {
        var items := ReadItems(file, m.offset, m.kind, m.size, tables[m.kind]);
        if items.Some? {
          ReadItemsExtend(file, m.offset, m.kind, m.size, tables[m.kind]);
          LoadsOnlyAdd(file, maps[1..], unload, tables[m.kind := items.value], k);
        }
      }
    }
  }

  /** A directory with an unknown kind makes the reading fail. */
  lemma {:induction false} UnknownKindFails(file: seq<byte>, maps: seq<MapItem>, unload: set<int>,
      tables: seq<seq<Item>>, i: nat)
    requires |tables| == ITEM_MAX && forall k | 1 <= k < ITEM_MAX :: ItemsFit(k, tables[k])
    requires AllFit(maps) && i < |maps| && !(1 <= maps[i].kind <= 15)
    ensures ReadSections(file, maps, unload, tables) == None
    decreases |maps|
  {
    hide ReadItems, ItemFits, MapFits;
    if i > 0 && Kind(maps[0].kind) {
      var m := maps[0];
      MapFitsWords(m);
      if m.kind in unload {
        UnknownKindFails(file, maps[1..], unload, tables, i - 1);
      } else {
        var items := ReadItems(file, m.offset, m.kind, m.size, tables[m.kind]);
        if items.Some? {
          UnknownKindFails(file, maps[1..], unload, tables[m.kind := items.value], i - 1);
        }
      }
    }
  }

  lemma {:induction false} MapFitsWords(m: MapItem)
    ensures MapFits(m) ==> 0 <= m.offset && 0 <= m.size
  {}

  // ---------------------------------------------------------------- the whole file

  datatype Loaded = NotAnImage | Broken | Loaded(header: Header, maps: seq<MapItem>, tables: seq<seq<Item>>)

  const NO_TABLES: seq<seq<Item>> := [[], [], [], [], [], [], [], [], [], [], [], [], [], [], [], []]

  /** header_check. */
  predicate HasMagic(h: Header) {
    |h.magic| == 4 && h.magic[..3] == [75, 76, 67]
  }

  /** KImage_Read_File. */
  function ReadFile(file: seq<byte>, unload: set<int>): Loaded {
    if |file| < HEADER_SIZE then NotAnImage
    else
      var h := ParseHeader(file[..HEADER_SIZE]);
      if !HasMagic(h) then NotAnImage
      else
        var maps := ReadMaps(file, h.mapOffset, h.mapSize);
        if maps == None then NotAnImage
        else
          var tables := ReadSections(file, maps.value, unload, NO_TABLES);
          if tables == None then Broken else Loaded(h, maps.value, tables.value)
  }

  /** What is refused as not being an image: a file without a whole header or without the magic bytes,
      or one that ends before the directory which the header announces does. */
  lemma {:induction false} RefusedExactly(file: seq<byte>, unload: set<int>)
    ensures ReadFile(file, unload) == NotAnImage
       <==> |file| < 96 || file[..3] != [75, 76, 67]
            || (var offset, size := Unword(file[20..24]), Unword(file[24..28]);
                size > 0 && |file| < offset + 12 * size)
  {
    hide ReadSections;
    if |file| >= 96 {
      var front := file[..96];
      var h := ParseHeader(front);
      assert front[..4][..3] == file[..3] && front[20..24] == file[20..24] && front[24..28] == file[24..28];
      ReadMapsNeedsRoom(file, h.mapOffset, h.mapSize);
    }
  }

  /** Writing and reading back: every table that the mask keeps comes back in order, unless one to be
      loaded has an empty array or an item twice that must be unique. */
  lemma {:induction false} FileRoundTrip(h: Header, maps: seq<MapItem>, tables: seq<seq<Item>>, unload: set<int>)
    requires Finished(h, maps, tables) && Addressable(tables)
    requires HeaderFits(h) && HasMagic(h) && h.mapOffset == HEADER_SIZE
    ensures forall i :: 0 <= i < |maps| ==> MapFits(maps[i])
    ensures ReadFile(FileBytes(h, maps, tables), unload)
         == if SomeUnreadable(tables, unload, 1) then Broken else Loaded(h, maps, Kept(tables, unload, ITEM_MAX))
  {
    hide SectionAt, MapFits, SomeUnreadable, ReadSections, HeaderBytes, ParseHeader, MapsBytes, Sections,
         Start, HeaderFits;
    MapsFit(tables, ITEM_MAX);
    LayoutIsExact(h, maps, tables);
    var file := FileBytes(h, maps, tables);
    FileFront(HeaderBytes(h), MapsBytes(maps), Sections(tables, ITEM_MAX));
    HeaderRoundTrip(h);
    ReadMapsBack(file, HEADER_SIZE, maps);
    MapsSplit(tables, 1);
    assert maps == MapsFrom(tables, 1);
    SectionsReadBack(file, tables, unload, 1);
    assert Kept(tables, unload, 1) == NO_TABLES;
  }

  lemma {:induction false} FileFront(h: seq<byte>, m: seq<byte>, s: seq<byte>)
    ensures (h + m + s)[..|h|] == h && (h + m + s)[|h|..|h| + |m|] == m
  {}

  /** A load with a mask agrees with the full load on every table it keeps, and loads no other. */
  lemma {:induction false} MaskedLoadAgrees(h: Header, maps: seq<MapItem>, tables: seq<seq<Item>>, unload: set<int>)
    requires Finished(h, maps, tables) && Addressable(tables)
    requires HeaderFits(h) && HasMagic(h) && h.mapOffset == HEADER_SIZE
    requires forall i :: 0 <= i < |maps| ==> MapFits(maps[i])
    requires !SomeUnreadable(tables, {}, 1)
    ensures var file := FileBytes(h, maps, tables);
      var part, full := ReadFile(file, unload), ReadFile(file, {});
      && part.Loaded? && full.Loaded? && part.header == full.header && part.maps == full.maps
      && |part.tables| == |full.tables| == ITEM_MAX
      && forall k :: Kind(k) ==> part.tables[k] == if k in unload then [] else full.tables[k]
  {
    hide FileBytes, ReadFile, Addressable, HeaderFits, HasMagic, MapFits, Unreadable;
    FileRoundTrip(h, maps, tables, unload);
    FileRoundTrip(h, maps, tables, {});
    assert !SomeUnreadable(tables, unload, 1);
  }
}
