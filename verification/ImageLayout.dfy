/** What an image file looks like (src/image.c:1676-1733): sizes, offsets and bytes of the sections. */
module ImageLayout {
  import opened Basics
  import opened ImageKinds

  type byte = x: int | 0 <= x < 256

  const WORD_LIMIT: int := 0x1_0000_0000

  /** A 32-bit word as it lies in memory, least significant byte first. */
  function Word(x: int): (b: seq<byte>)
    requires 0 <= x < WORD_LIMIT
    ensures |b| == 4
  {
    [x % 256, x / 256 % 256, x / 65536 % 256, x / 16777216]
  }

  function Unword(b: seq<byte>): (x: int)
    requires |b| == 4
    ensures 0 <= x < WORD_LIMIT
  {
    b[0] as int + 256 * (b[1] as int) + 65536 * (b[2] as int) + 16777216 * (b[3] as int)
  }

  lemma {:induction false} WordRoundTrip(x: int)
    requires 0 <= x < WORD_LIMIT
    ensures Unword(Word(x)) == x
    ensures var b := Word(x);
      x == b[0] as int + 0x100 * (b[1] as int) + 0x1_0000 * (b[2] as int) + 0x100_0000 * (b[3] as int)
  {
    var a := x / 256;
    var b := a / 256;
    var c := b / 256;
    assert x == 256 * a + x % 256 && a == 256 * b + a % 256 && b == 256 * c + b % 256;
    assert x / 65536 == b && x / 16777216 == c;
  }

  const HEADER_SIZE: int := 96
  const MAP_ITEM_SIZE: int := 12
  const PKG_NAME_MAX: int := 64

  /** An item as it lies in memory: a struct, or a count with an array behind it. */
  datatype Item = Flat(bytes: seq<byte>) | Counted(count: int, data: seq<byte>)

  /** The size of the struct of a kind, or of one element of its array. */
  const SIZES: seq<int> := [12, 1, 12, 4, 8, 16, 16, 12, 12, 1, 8, 12, 16, 8, 12, 12]

  predicate Kind(k: int) {
    1 <= k < ITEM_MAX
  }

  function Size(k: int): (n: int)
    requires Kind(k)
    ensures n >= 1
  {
    SIZES[k]
  }

  /** Strings, type lists and code carry a count. */
  predicate HasCount(k: int) {
    k == ITEM_STRING || k == ITEM_TYPELIST || k == ITEM_CODE
  }

  predicate ItemFits(k: int, item: Item)
    requires Kind(k)
  {
    match item
    case Flat(bytes) => !HasCount(k) && |bytes| == Size(k)
    case Counted(count, data) => HasCount(k) && 0 <= count < WORD_LIMIT && |data| == count * Size(k)
  }

  predicate ItemsFit(k: int, items: seq<Item>)
    requires Kind(k)
  {
    forall i :: 0 <= i < |items| ==> ItemFits(k, items[i])
  }

  ghost predicate TablesFit(tables: seq<seq<Item>>) {
    |tables| == ITEM_MAX && forall k :: Kind(k) ==> ItemsFit(k, tables[k])
  }

  /** What the write function of a kind writes. */
  function ItemBytes(k: int, item: Item): (b: seq<byte>)
    requires Kind(k) && ItemFits(k, item)
    ensures |b| == ItemLength(k, item)
  {
    match item
    case Flat(bytes) => bytes
    case Counted(count, data) => Word(count) + data
  }

  /** What the length function of a kind returns. */
  function ItemLength(k: int, item: Item): (n: int)
    requires Kind(k) && ItemFits(k, item)
    ensures n >= 0
  {
    match item
    case Flat(_) => Size(k)
    case Counted(count, data) => 4 + |data|
  }

  function Section(k: int, items: seq<Item>): seq<byte>
    requires Kind(k) && ItemsFit(k, items)
  {
    if items == [] then [] else ItemBytes(k, items[0]) + Section(k, items[1..])
  }

  function SectionLength(k: int, items: seq<Item>): (n: int)
    requires Kind(k) && ItemsFit(k, items)
    ensures n >= 0
  {
    if items == [] then 0 else ItemLength(k, items[0]) + SectionLength(k, items[1..])
  }

  lemma {:induction false} SectionAppend(k: int, items: seq<Item>, item: Item)
    requires Kind(k) && ItemsFit(k, items) && ItemFits(k, item)
    ensures ItemsFit(k, items + [item])
    ensures Section(k, items + [item]) == Section(k, items) + ItemBytes(k, item)
    ensures SectionLength(k, items + [item]) == SectionLength(k, items) + ItemLength(k, item)
  {
    if items == [] {
      assert [item][1..] == [];
    } else {
      assert (items + [item])[1..] == items[1..] + [item];
      SectionAppend(k, items[1..], item);
      Assoc(ItemBytes(k, items[0]), Section(k, items[1..]), ItemBytes(k, item));
    }
  }

  lemma {:induction false} SectionHasLength(k: int, items: seq<Item>)
    requires Kind(k) && ItemsFit(k, items)
    ensures |Section(k, items)| == SectionLength(k, items)
  {
    if items != [] {
      SectionHasLength(k, items[1..]);
    }
  }

  // ---------------------------------------------------------------- offsets

  datatype MapItem = MapItem(kind: int, offset: int, size: int)

  /** How many kinds from k on have items. */
  function Used(tables: seq<seq<Item>>, k: int): (n: int)
    requires |tables| == ITEM_MAX && 1 <= k <= ITEM_MAX
    ensures 0 <= n <= ITEM_MAX - k
    decreases ITEM_MAX - k
  {
    if k == ITEM_MAX then 0 else (if tables[k] == [] then 0 else 1) + Used(tables, k + 1)
  }

  /** The length of all sections before kind k. */
  ghost function Before(tables: seq<seq<Item>>, k: int): (n: int)
    requires TablesFit(tables) && 1 <= k <= ITEM_MAX
    ensures n >= 0
    decreases k
  {
    if k == 1 then 0 else Before(tables, k - 1) + SectionLength(k - 1, tables[k - 1])
  }

  /** Where the section of kind k starts. */
  ghost function Start(tables: seq<seq<Item>>, k: int): (n: int)
    requires TablesFit(tables) && 1 <= k <= ITEM_MAX
    ensures n >= HEADER_SIZE
  {
    HEADER_SIZE + MAP_ITEM_SIZE * Used(tables, 1) + Before(tables, k)
  }

  lemma {:induction false} BeforeGrows(tables: seq<seq<Item>>, j: int, k: int)
    requires TablesFit(tables) && 1 <= j <= k <= ITEM_MAX
    ensures Before(tables, j) <= Before(tables, k)
    decreases k - j
  {
    if j < k {
      BeforeGrows(tables, j, k - 1);
    }
  }

  /** The directory entry of a kind, if it has items. */
  ghost function MapEntry(tables: seq<seq<Item>>, k: int): (maps: seq<MapItem>)
    requires TablesFit(tables) && Kind(k)
    ensures forall i :: 0 <= i < |maps| ==> maps[i].kind == k
    ensures |maps| == if tables[k] == [] then 0 else 1
  {
    if tables[k] == [] then [] else [MapItem(k, Start(tables, k), |tables[k]|)]
  }

  /** The directory of the sections before kind k. */
  ghost function Maps(tables: seq<seq<Item>>, k: int): (maps: seq<MapItem>)
    requires TablesFit(tables) && 1 <= k <= ITEM_MAX
    ensures forall i :: 0 <= i < |maps| ==> Kind(maps[i].kind) && maps[i].kind < k
    decreases k
  {
    if k == 1 then []
    else
      Maps(tables, k - 1) + MapEntry(tables, k - 1)
  }

  lemma {:induction false} NoMaps(tables: seq<seq<Item>>)
    requires TablesFit(tables)
    ensures Maps(tables, 1) == []
  {}

  lemma {:induction false} MapsStep(tables: seq<seq<Item>>, k: int)
    requires TablesFit(tables) && Kind(k)
    ensures Maps(tables, k + 1) == Maps(tables, k) + MapEntry(tables, k)
  {}

  lemma {:induction false} NextSection(tables: seq<seq<Item>>, k: int)
    requires TablesFit(tables) && Kind(k)
    ensures Start(tables, k + 1) == Start(tables, k) + SectionLength(k, tables[k])
    ensures tables[k] == [] ==> SectionLength(k, tables[k]) == 0
    ensures MapEntry(tables, k) == if tables[k] == [] then [] else [MapItem(k, Start(tables, k), |tables[k]|)]
  {}

  lemma {:induction false} MapsCount(tables: seq<seq<Item>>, k: int)
    requires TablesFit(tables) && 1 <= k <= ITEM_MAX
    ensures |Maps(tables, k)| + Used(tables, k) == Used(tables, 1)
    decreases k
  {
    if k > 1 {
      MapsCount(tables, k - 1);
    }
  }

  // ---------------------------------------------------------------- bytes

  datatype Header = Header(magic: seq<byte>, version: seq<byte>, fileSize: int, headerSize: int, endianTag: int,
                           mapOffset: int, mapSize: int, crc32: int, pkgname: seq<byte>)

  predicate HeaderFits(h: Header) {
    && |h.magic| == 4 && |h.version| == 4 && |h.pkgname| == PKG_NAME_MAX
    && 0 <= h.fileSize < WORD_LIMIT && 0 <= h.headerSize < WORD_LIMIT && 0 <= h.endianTag < WORD_LIMIT
    && 0 <= h.mapOffset < WORD_LIMIT && 0 <= h.mapSize < WORD_LIMIT && 0 <= h.crc32 < WORD_LIMIT
  }

  function HeaderBytes(h: Header): (b: seq<byte>)
    requires HeaderFits(h)
    ensures |b| == HEADER_SIZE
  {
    h.magic + h.version + Word(h.fileSize) + Word(h.headerSize) + Word(h.endianTag)
    + Word(h.mapOffset) + Word(h.mapSize) + Word(h.crc32) + h.pkgname
  }

  function ParseHeader(b: seq<byte>): (h: Header)
    requires |b| == HEADER_SIZE
    ensures HeaderFits(h)
  {
    Header(b[..4], b[4..8], Unword(b[8..12]), Unword(b[12..16]), Unword(b[16..20]),
           Unword(b[20..24]), Unword(b[24..28]), Unword(b[28..32]), b[32..])
  }

  lemma {:induction false} HeaderRoundTrip(h: Header)
    requires HeaderFits(h)
    ensures ParseHeader(HeaderBytes(h)) == h
  {
    var b := HeaderBytes(h);
    assert b[..4] == h.magic && b[4..8] == h.version && b[32..] == h.pkgname;
    assert b[8..12] == Word(h.fileSize) && b[12..16] == Word(h.headerSize);
    assert b[16..20] == Word(h.endianTag) && b[20..24] == Word(h.mapOffset);
    assert b[24..28] == Word(h.mapSize) && b[28..32] == Word(h.crc32);
    WordRoundTrip(h.fileSize);
    WordRoundTrip(h.headerSize);
    WordRoundTrip(h.endianTag);
    WordRoundTrip(h.mapOffset);
    WordRoundTrip(h.mapSize);
    WordRoundTrip(h.crc32);
  }

  /** Where the fields of the header lie in the file. */
  lemma {:induction false} HeaderLayout(h: Header)
    requires HeaderFits(h)
    ensures var b := HeaderBytes(h);
      && b[0..4] == h.magic && b[4..8] == h.version
      && b[8..12] == Word(h.fileSize) && b[12..16] == Word(h.headerSize) && b[16..20] == Word(h.endianTag)
      && b[20..24] == Word(h.mapOffset) && b[24..28] == Word(h.mapSize) && b[28..32] == Word(h.crc32)
      && b[32..96] == h.pkgname
  {
    var b := HeaderBytes(h);
    assert b[0..4] == h.magic && b[4..8] == h.version && b[32..96] == h.pkgname;
  }

  predicate MapFits(m: MapItem) {
    0 <= m.kind < 65536 && 0 <= m.offset < WORD_LIMIT && 0 <= m.size < WORD_LIMIT
  }

  /** Kind and an unused half word, offset and size. */
  function MapBytes(m: MapItem): (b: seq<byte>)
    requires MapFits(m)
    ensures |b| == MAP_ITEM_SIZE
  {
    [m.kind % 256, m.kind / 256, 0, 0] + Word(m.offset) + Word(m.size)
  }

  function ParseMap(b: seq<byte>): (m: MapItem)
    requires |b| == MAP_ITEM_SIZE
    ensures MapFits(m)
  {
    MapItem(b[0] as int + 256 * (b[1] as int), Unword(b[4..8]), Unword(b[8..12]))
  }

  lemma {:induction false} MapRoundTrip(m: MapItem)
    requires MapFits(m)
    ensures ParseMap(MapBytes(m)) == m
    ensures var b := MapBytes(m);
      b[0] as int + 0x100 * (b[1] as int) == m.kind && b[4..8] == Word(m.offset) && b[8..12] == Word(m.size)
  {
    var b := MapBytes(m);
    assert b[4..8] == Word(m.offset) && b[8..12] == Word(m.size);
    WordRoundTrip(m.offset);
    WordRoundTrip(m.size);
  }

  function MapsBytes(maps: seq<MapItem>): (b: seq<byte>)
    requires forall i :: 0 <= i < |maps| ==> MapFits(maps[i])
    ensures |b| == MAP_ITEM_SIZE * |maps|
  {
    if maps == [] then [] else MapBytes(maps[0]) + MapsBytes(maps[1..])
  }

  lemma {:induction false} MapsBytesAppend(maps: seq<MapItem>, m: MapItem)
    requires MapFits(m) && forall i :: 0 <= i < |maps| ==> MapFits(maps[i])
    ensures MapsBytes(maps + [m]) == MapsBytes(maps) + MapBytes(m)
  {
    if maps == [] {
      assert [m][1..] == [];
    } else {
      assert (maps + [m])[1..] == maps[1..] + [m];
      MapsBytesAppend(maps[1..], m);
      Assoc(MapBytes(maps[0]), MapsBytes(maps[1..]), MapBytes(m));
    }
  }

  /** The sections before kind k, one after the other. */
  ghost function Sections(tables: seq<seq<Item>>, k: int): (b: seq<byte>)
    requires TablesFit(tables) && 1 <= k <= ITEM_MAX
    decreases k
  {
    if k == 1 then [] else Sections(tables, k - 1) + Section(k - 1, tables[k - 1])
  }

  lemma {:induction false} SectionsHaveLength(tables: seq<seq<Item>>, k: int)
    requires TablesFit(tables) && 1 <= k <= ITEM_MAX
    ensures |Sections(tables, k)| == Before(tables, k)
    decreases k
  {
    if k > 1 {
      SectionsHaveLength(tables, k - 1);
      SectionHasLength(k - 1, tables[k - 1]);
    }
  }

  /** Section k lies at its offset, whatever follows. */
  lemma {:induction false} SectionInPlace(tables: seq<seq<Item>>, k: int, end: int)
    requires TablesFit(tables) && Kind(k) && k < end <= ITEM_MAX
    ensures var at := Before(tables, k);
      && at + |Section(k, tables[k])| <= |Sections(tables, end)|
      && Sections(tables, end)[at..at + |Section(k, tables[k])|] == Section(k, tables[k])
    decreases end
  {
    hide Section, SectionLength, ItemFits;
    SectionsHaveLength(tables, k);
    SectionHasLength(k, tables[k]);
    if k + 1 < end {
      SectionInPlace(tables, k, end - 1);
    }
  }

  // ---------------------------------------------------------------- whole files

  /** Everything KImage_Finish fills in. */
  ghost predicate Finished(h: Header, maps: seq<MapItem>, tables: seq<seq<Item>>) {
    && TablesFit(tables)
    && maps == Maps(tables, ITEM_MAX)
    && h.fileSize == Start(tables, ITEM_MAX)
    && h.mapSize == |maps|
  }

  ghost function FileBytes(h: Header, maps: seq<MapItem>, tables: seq<seq<Item>>): seq<byte>
    requires HeaderFits(h) && TablesFit(tables) && forall i :: 0 <= i < |maps| ==> MapFits(maps[i])
  {
    HeaderBytes(h) + MapsBytes(maps) + Sections(tables, ITEM_MAX)
  }

  /** Offsets and counts fit their words when the file size and the table sizes do. */
  ghost predicate Addressable(tables: seq<seq<Item>>)
    requires TablesFit(tables)
  {
    Start(tables, ITEM_MAX) < WORD_LIMIT && forall k :: Kind(k) ==> |tables[k]| < WORD_LIMIT
  }

  lemma {:induction false} MapsFit(tables: seq<seq<Item>>, k: int)
    requires TablesFit(tables) && Addressable(tables) && 1 <= k <= ITEM_MAX
    ensures forall i :: 0 <= i < |Maps(tables, k)| ==> MapFits(Maps(tables, k)[i])
    decreases k
  {
    hide Used, Before, SectionLength;
    if k > 1 {
      MapsFit(tables, k - 1);
      BeforeGrows(tables, k - 1, ITEM_MAX);
      assert Kind(k - 1) && MapFits(MapItem(k - 1, Start(tables, k - 1), |tables[k - 1]|));
    }
  }

  /** The offsets and the size computed by KImage_Finish are where the writer puts things. */
  lemma {:induction false} LayoutIsExact(h: Header, maps: seq<MapItem>, tables: seq<seq<Item>>)
    requires Finished(h, maps, tables) && HeaderFits(h) && forall i :: 0 <= i < |maps| ==> MapFits(maps[i])
    ensures |FileBytes(h, maps, tables)| == h.fileSize
    ensures forall k :: Kind(k) ==> SectionAt(FileBytes(h, maps, tables), tables, k, Start(tables, k))
  {
    hide Used, Before, SectionLength, Maps, Sections, Section, HeaderBytes, MapsBytes, HeaderFits, MapFits;
    MapsCount(tables, ITEM_MAX);
    assert Used(tables, ITEM_MAX) == 0;
    SectionsHaveLength(tables, ITEM_MAX);
    forall k | Kind(k)
      ensures SectionAt(FileBytes(h, maps, tables), tables, k, Start(tables, k))
    {
      SectionBehind(HeaderBytes(h) + MapsBytes(maps), tables, k);
    }
  }

  /** A directory in ascending order of kinds, with an entry for every kind below k that has items. */
  ghost predicate Listed(maps: seq<MapItem>, counts: seq<int>, k: int)
    requires k <= 16 == |counts|
  {
    && (forall i :: 0 <= i < |maps| ==> 1 <= maps[i].kind < k && maps[i].size == counts[maps[i].kind] > 0)
    && (forall i, j :: 0 <= i < j < |maps| ==> maps[i].kind < maps[j].kind)
    && (forall c :: 1 <= c < k && counts[c] > 0 ==> exists i :: 0 <= i < |maps| && maps[i].kind == c)
  }

  /** The first section starts at `first`, each next one where the one before it ends, and the last ends
      at `end`. */
  ghost predicate Adjoining(maps: seq<MapItem>, lengths: seq<int>, first: int, end: int)
    requires forall i :: 0 <= i < |maps| ==> 0 <= maps[i].kind < |lengths|
  {
    if maps == [] then end == first
    else
      && maps[0].offset == first
      && (forall i, j :: 0 <= i < j < |maps| && j == i + 1 ==> maps[j].offset == maps[i].offset + lengths[maps[i].kind])
      && end == maps[|maps| - 1].offset + lengths[maps[|maps| - 1].kind]
  }

  ghost predicate Consecutive(maps: seq<MapItem>, counts: seq<int>, lengths: seq<int>, k: int, first: int, end: int)
    requires |counts| == |lengths| == 16 && k <= 16
  {
    Listed(maps, counts, k) && Adjoining(maps, lengths, first, end)
  }

  lemma {:induction false} OneMoreListed(maps: seq<MapItem>, counts: seq<int>, k: int, offset: int)
    requires |counts| == 16 && 1 <= k < 16 && Listed(maps, counts, k) && counts[k] >= 0
    ensures Listed(maps + if counts[k] == 0 then [] else [MapItem(k, offset, counts[k])], counts, k + 1)
  {
    var all := maps + if counts[k] == 0 then [] else [MapItem(k, offset, counts[k])];
    if counts[k] == 0 {
      assert all == maps;
    }
    forall c | 1 <= c < k + 1 && counts[c] > 0
      ensures exists i :: 0 <= i < |all| && all[i].kind == c
    {
      if c < k {
        var i :| 0 <= i < |maps| && maps[i].kind == c;
        assert all[i].kind == c;
      } else {
        assert all[|maps|].kind == c;
      }
    }
  }

  lemma {:induction false} OneMoreEntry(maps: seq<MapItem>, counts: seq<int>, lengths: seq<int>, k: int,
      first: int, end: int)
    requires |counts| == |lengths| == 16 && 1 <= k < 16 && Consecutive(maps, counts, lengths, k, first, end)
    requires counts[k] >= 0 && (counts[k] == 0 ==> lengths[k] == 0)
    ensures var more := if counts[k] == 0 then [] else [MapItem(k, end, counts[k])];
      Consecutive(maps + more, counts, lengths, k + 1, first, end + lengths[k])
  {
    OneMoreListed(maps, counts, k, end);
    if counts[k] == 0 {
      assert maps + [] == maps;
    }
  }

  /** How many items each kind has, and how many bytes they take. */
  ghost predicate Sized(tables: seq<seq<Item>>, counts: seq<int>, lengths: seq<int>)
    requires TablesFit(tables)
  {
    && |counts| == |lengths| == 16
    && forall k :: Kind(k) ==> counts[k] == |tables[k]| && lengths[k] == |Section(k, tables[k])|
  }

  lemma {:induction false} MapsConsecutive(tables: seq<seq<Item>>, counts: seq<int>, lengths: seq<int>, k: int)
    requires TablesFit(tables) && 1 <= k <= ITEM_MAX && Sized(tables, counts, lengths)
    ensures Consecutive(Maps(tables, k), counts, lengths, k, Start(tables, 1), Start(tables, k))
    decreases k
  {
    hide SectionLength, ItemFits, Start, Maps, MapEntry, Consecutive;
    if k == 1 {
      NoMaps(tables);
      NoEntries(counts, lengths, Start(tables, 1));
    } else {
      MapsConsecutive(tables, counts, lengths, k - 1);
      MapsStep(tables, k - 1);
      NextSection(tables, k - 1);
      SectionHasLength(k - 1, tables[k - 1]);
      assert counts[k - 1] == 0 ==> tables[k - 1] == [];
      OneMoreEntry(Maps(tables, k - 1), counts, lengths, k - 1, Start(tables, 1), Start(tables, k - 1));
    }
  }

  lemma {:induction false} NoEntries(counts: seq<int>, lengths: seq<int>, first: int)
    requires |counts| == |lengths| == 16
    ensures Consecutive([], counts, lengths, 1, first, first)
  {}

  /** The directory of a finished image: its first section lies behind header and directory, each next one
      behind the one before, and the file ends with the last. */
  lemma {:induction false} DirectoryInOrder(h: Header, maps: seq<MapItem>, tables: seq<seq<Item>>,
      counts: seq<int>, lengths: seq<int>)
    requires Finished(h, maps, tables) && Sized(tables, counts, lengths)
    ensures Consecutive(maps, counts, lengths, 16, 96 + 12 * |maps|, h.fileSize)
  {
    hide Consecutive, Sized, Before, ItemFits, Maps;
    MapsConsecutive(tables, counts, lengths, ITEM_MAX);
    MapsCount(tables, ITEM_MAX);
    assert Used(tables, ITEM_MAX) == 0;
    assert Before(tables, 1) == 0 by {
      NothingBefore(tables);
    }
  }

  lemma {:induction false} NothingBefore(tables: seq<seq<Item>>)
    requires TablesFit(tables)
    ensures Before(tables, 1) == 0
  {}

  lemma {:induction false} SectionBehind(front: seq<byte>, tables: seq<seq<Item>>, k: int)
    requires TablesFit(tables) && Kind(k)
    ensures SectionAt(front + Sections(tables, ITEM_MAX), tables, k, |front| + Before(tables, k))
  {
    hide Sections, Section, Before;
    SectionInPlace(tables, k, ITEM_MAX);
    Shift(front, Sections(tables, ITEM_MAX), Before(tables, k), |Section(k, tables[k])|);
  }

  lemma {:induction false} Shift(front: seq<byte>, back: seq<byte>, at: int, n: int)
    requires 0 <= at && 0 <= n && at + n <= |back|
    ensures (front + back)[|front| + at..|front| + at + n] == back[at..at + n]
  {}

  /** The section of kind k lies at position `at` of the file. */
  ghost predicate SectionAt(file: seq<byte>, tables: seq<seq<Item>>, k: int, at: int)
    requires TablesFit(tables) && Kind(k)
  {
    var n := |Section(k, tables[k])|;
    0 <= at && at + n <= |file| && file[at..at + n] == Section(k, tables[k])
  }
}
