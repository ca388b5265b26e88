/** Finishing, writing and reading an image, step by step (src/image.c:1676-1762, 1801-2016). */
module ImageFile {
  import opened Basics
  import opened ImageKinds
  import opened ImageLayout
  import opened ImageReader

  /** init_header. */
  function NewHeader(pkgname: seq<byte>): (h: Header)
    requires |pkgname| == PKG_NAME_MAX
    ensures HeaderFits(h) && HasMagic(h) && h.mapOffset == HEADER_SIZE
  {
    Header([75, 76, 67, 0], [48, 49, 48, 49], 0, HEADER_SIZE, 0x1a2b3c4d, HEADER_SIZE, ITEM_MAX, 0, pkgname)
  }

  class Image {
    var header: Header
    var maps: seq<MapItem>
    var tables: seq<seq<Item>>

    constructor (pkgname: seq<byte>, tables: seq<seq<Item>>)
      requires |pkgname| == PKG_NAME_MAX
      ensures header == NewHeader(pkgname) && maps == [] && this.tables == tables
    {
      header := NewHeader(pkgname);
      maps := [];
      this.tables := tables;
    }

    /** KImage_Finish: one directory entry for each table that is not empty, with the offset at which
        the writer will put it. */
    method Finish()
      requires TablesFit(tables)
      modifies this`header, this`maps
      ensures maps == old(maps) + Maps(tables, ITEM_MAX)
      ensures header == old(header).(fileSize := Start(tables, ITEM_MAX), mapSize := |maps|)
    {
      hide Start, Used, Before, SectionLength, MapEntry, TablesFit, Maps;
      NoMaps(tables);
      var offset := FirstOffset();
      var length := 0;
      for i := 1 to ITEM_MAX
        invariant maps == old(maps) + Maps(tables, i) && header == old(header)
        invariant length >= 0 && offset + length == Start(tables, i)
      {
        offset, length := Enter(i, offset, length, old(maps));
      }
      header := header.(fileSize := offset + length, mapSize := |maps|);
    }

    /** The body of the second loop of KImage_Finish: the length of the section before goes to the
        offset only when there is a next section. */
    method Enter(k: int, offset: int, length: int, ghost before: seq<MapItem>) returns (newOffset: int, newLength: int)
      requires TablesFit(tables) && Kind(k) && length >= 0 && offset + length == Start(tables, k)
      requires maps == before + Maps(tables, k)
      modifies this`maps
      ensures maps == before + Maps(tables, k + 1)
      ensures newLength >= 0 && newOffset + newLength == Start(tables, k + 1)
    {
      hide Used, Before, ItemFits;
      NextSection(tables, k);
      MapsStep(tables, k);
      Assoc(before, Maps(tables, k), MapEntry(tables, k));
      hide Start, SectionLength, MapEntry, Maps;
      newOffset, newLength := offset, length;
      var size := |tables[k]|;
      if size > 0 {
        newOffset := offset + length;
        maps := maps + [MapItem(k, newOffset, size)];
        newLength := Measure(k);
      }
    }

    /** The first loop of KImage_Finish: where the first section goes. */
    method FirstOffset() returns (offset: int)
      requires TablesFit(tables)
      ensures offset == Start(tables, 1)
    {
      offset := HEADER_SIZE;
      for i := 1 to ITEM_MAX
        invariant offset == HEADER_SIZE + MAP_ITEM_SIZE * (Used(tables, 1) - Used(tables, i))
      {
        if |tables[i]| > 0 {
          offset := offset + MAP_ITEM_SIZE;
        }
      }
    }

    /** The inner loop of KImage_Finish. */
    method Measure(k: int) returns (length: int)
      requires TablesFit(tables) && Kind(k)
      ensures length == SectionLength(k, tables[k])
    {
      length := 0;
      for j := 0 to |tables[k]|
        invariant length == SectionLength(k, tables[k][..j])
      {
        SectionAppend(k, tables[k][..j], tables[k][j]);
        assert tables[k][..j] + [tables[k][j]] == tables[k][..j + 1];
        length := length + ItemLength(k, tables[k][j]);
      }
      assert tables[k][..|tables[k]|] == tables[k];
    }

    /** KImage_Write_File, on the bytes of the file. */
    method Write() returns (file: seq<byte>)
      requires HeaderFits(header) && TablesFit(tables) && forall i :: 0 <= i < |maps| ==> MapFits(maps[i])
      ensures file == FileBytes(header, maps, tables)
    {
      file := HeaderBytes(header);
      var directory := WriteMaps();
      file := file + directory;
      ghost var front := file;
      for i := 1 to ITEM_MAX
        invariant file == front + Sections(tables, i)
      {
        if |tables[i]| > 0 {
          var section := WriteItems(i);
          file := file + section;
        }
        assert Section(i, tables[i]) == [] || |tables[i]| > 0;
        Assoc(front, Sections(tables, i), Section(i, tables[i]));
      }
    }

    method WriteMaps() returns (b: seq<byte>)
      requires forall i :: 0 <= i < |maps| ==> MapFits(maps[i])
      ensures b == MapsBytes(maps)
    {
      b := [];
      for i := 0 to |maps|
        invariant b == MapsBytes(maps[..i])
      {
        MapsBytesAppend(maps[..i], maps[i]);
        assert maps[..i] + [maps[i]] == maps[..i + 1];
        b := b + MapBytes(maps[i]);
      }
      assert maps[..|maps|] == maps;
    }

    /** __image_write_item. */
    method WriteItems(k: int) returns (b: seq<byte>)
      requires TablesFit(tables) && Kind(k)
      ensures b == Section(k, tables[k])
    {
      hide ItemFits, ItemBytes, SectionLength;
      b := [];
      for i := 0 to |tables[k]|
        invariant b == Section(k, tables[k][..i])
      {
        SectionAppend(k, tables[k][..i], tables[k][i]);
        assert tables[k][..i] + [tables[k][i]] == tables[k][..i + 1];
        b := b + ItemBytes(k, tables[k][i]);
      }
      assert tables[k][..|tables[k]|] == tables[k];
    }
  }

  /** KImage_Read_File. */
  method Read(file: seq<byte>, unload: set<int>) returns (r: Loaded)
    ensures r == ReadFile(file, unload)
  {
    if |file| < HEADER_SIZE {
      return NotAnImage;
    }
    var h := ParseHeader(file[..HEADER_SIZE]);
    if !HasMagic(h) {
      return NotAnImage;
    }
    var maps := LoadMaps(file, h.mapOffset, h.mapSize);
    if maps == None {
      return NotAnImage;
    }
    var tables := LoadSections(file, maps.value, unload);
    if tables == None {
      return Broken;
    }
    return Loaded(h, maps.value, tables.value);
  }

  method LoadMaps(file: seq<byte>, pos: int, n: int) returns (maps: Option<seq<MapItem>>)
    requires 0 <= pos && 0 <= n
    ensures maps == ReadMaps(file, pos, n)
  {
    var done: seq<MapItem> := [];
    var at := pos;
    assert ReadMaps(file, pos, n).Some? ==> [] + ReadMaps(file, pos, n).value == ReadMaps(file, pos, n).value;
    for i := 0 to n
      invariant at >= 0
      invariant ReadMaps(file, pos, n)
             == var rest := ReadMaps(file, at, n - i); if rest == None then None else Some(done + rest.value)
    {
      if |file| < at + MAP_ITEM_SIZE {
        return None;
      }
      var m := ParseMap(file[at..at + MAP_ITEM_SIZE]);
      ghost var rest := ReadMaps(file, at + MAP_ITEM_SIZE, n - i - 1);
      assert rest.Some? ==> done + ([m] + rest.value) == done + [m] + rest.value;
      done := done + [m];
      at := at + MAP_ITEM_SIZE;
    }
    assert done + [] == done;
    return Some(done);
  }

  /** The loop over the directory. */
  method LoadSections(file: seq<byte>, maps: seq<MapItem>, unload: set<int>) returns (r: Option<seq<seq<Item>>>)
    requires forall i :: 0 <= i < |maps| ==> MapFits(maps[i])
    ensures r == ReadSections(file, maps, unload, NO_TABLES)
  {
    hide MapFits, ReadItems;
    var tables := NO_TABLES;
    assert maps[0..] == maps;
    for i := 0 to |maps|
      invariant |tables| == ITEM_MAX && forall k | 1 <= k < ITEM_MAX :: ItemsFit(k, tables[k])
      invariant ReadSections(file, maps, unload, NO_TABLES) == ReadSections(file, maps[i..], unload, tables)
    {
      var m := maps[i];
      assert MapFits(m) && maps[i..][0] == m && maps[i..][1..] == maps[i + 1..];
      if !Kind(m.kind) {
        return None;
      }
      if m.kind !in unload {
        MapFitsWords(m);
        var items := LoadItems(file, m.offset, m.kind, m.size, tables[m.kind]);
        if items == None {
          return None;
        }
        tables := tables[m.kind := items.value];
      }
    }
    return Some(tables);
  }

  /** The reading loop of one kind. */
  method LoadItems(file: seq<byte>, pos: int, k: int, n: int, have: seq<Item>) returns (r: Option<seq<Item>>)
    requires Kind(k) && 0 <= pos && 0 <= n && ItemsFit(k, have)
    ensures r == ReadItems(file, pos, k, n, have)
  {
    hide ReadItem, ItemFits, ItemLength;
    var done, at := have, pos;
    for i := 0 to n
      invariant at >= 0 && ItemsFit(k, done)
      invariant ReadItems(file, pos, k, n, have) == ReadItems(file, at, k, n - i, done)
    {
      var item := ReadItem(file, at, k);
      if item == None {
        return None;
      }
      if Unique(k) && item.value in done {
        return None;
      }
      done := done + [item.value];
      at := at + ItemLength(k, item.value);
    }
    return Some(done);
  }

  /** Finish puts its entries behind the ones already there, so each section lies behind its offset in
      the directory by the room that those take.  The offsets and the announced size are right exactly
      when there were none, that is, when the image is finished for the first time. */
  lemma {:induction false} FinishIsExactOnce(h: Header, before: seq<MapItem>, tables: seq<seq<Item>>)
    requires HeaderFits(h) && TablesFit(tables) && h.fileSize == Start(tables, ITEM_MAX)
    requires var maps := before + Maps(tables, ITEM_MAX); forall i :: 0 <= i < |maps| ==> MapFits(maps[i])
    ensures var file := FileBytes(h, before + Maps(tables, ITEM_MAX), tables);
      && (|file| == h.fileSize <==> before == [])
      && forall k :: Kind(k) ==> SectionAt(file, tables, k, Start(tables, k) + MAP_ITEM_SIZE * |before|)
  {
    hide MapFits, Maps, Before, Sections, Section, SectionAt, HeaderBytes, MapsBytes;
    MapsCount(tables, ITEM_MAX);
    SectionsHaveLength(tables, ITEM_MAX);
    assert Used(tables, ITEM_MAX) == 0;
    hide Used;
    forall k | Kind(k)
      ensures SectionAt(FileBytes(h, before + Maps(tables, ITEM_MAX), tables), tables, k,
                Start(tables, k) + MAP_ITEM_SIZE * |before|)
    {
      SectionBehind(HeaderBytes(h) + MapsBytes(before + Maps(tables, ITEM_MAX)), tables, k);
    }
  }

  // ---------------------------------------------------------------- an empty code item

  ghost predicate OnlyEmptyCode(tables: seq<seq<Item>>) {
    && |tables| == ITEM_MAX && tables[ITEM_CODE] == [Counted(0, [])]
    && forall k :: 0 <= k < ITEM_MAX && k != ITEM_CODE ==> tables[k] == []
  }

  function EmptyCode(): (tables: seq<seq<Item>>)
    ensures OnlyEmptyCode(tables)
  {
    NO_TABLES[ITEM_CODE := [Counted(0, [])]]
  }

  lemma {:induction false} MapsAreFew(tables: seq<seq<Item>>)
    requires TablesFit(tables)
    ensures |Maps(tables, ITEM_MAX)| <= ITEM_MAX
  {
    hide Maps, TablesFit;
    MapsCount(tables, ITEM_MAX);
  }

  /** The only section there is holds a count and nothing else. */
  lemma {:induction false} OnlyCodeIsShort(tables: seq<seq<Item>>, k: int)
    requires OnlyEmptyCode(tables) && TablesFit(tables) && 1 <= k <= ITEM_MAX
    ensures Before(tables, k) <= if k <= ITEM_CODE then 0 else 4
    decreases k
  {
    if k > 1 {
      OnlyCodeIsShort(tables, k - 1);
      if k - 1 == ITEM_CODE {
        assert tables[ITEM_CODE][1..] == [] && ItemLength(ITEM_CODE, tables[ITEM_CODE][0]) == 4;
        assert SectionLength(ITEM_CODE, tables[ITEM_CODE]) == 4;
      } else {
        assert SectionLength(k - 1, tables[k - 1]) == 0;
      }
    }
  }

  lemma {:induction false} OnlyCodeIsImage(tables: seq<seq<Item>>)
    requires OnlyEmptyCode(tables)
    ensures TablesFit(tables) && Interned(tables) && Addressable(tables) && SomeUnreadable(tables, {}, 1)
  {
    assert TablesFit(tables);
    OnlyCodeIsShort(tables, ITEM_MAX);
    hide Before, Used, SectionLength;
    assert Hollow(tables[ITEM_CODE][0]) && Unreadable(ITEM_CODE, tables[ITEM_CODE]);
  }

  /** A whole image with a single, empty code item: it is written as it should be, and no longer loads. */
  lemma {:induction false} EmptyCodeIsLost(pkgname: seq<byte>)
    returns (h: Header, maps: seq<MapItem>, tables: seq<seq<Item>>)
    requires |pkgname| == PKG_NAME_MAX
    ensures OnlyEmptyCode(tables) && Finished(h, maps, tables) && Interned(tables) && Addressable(tables)
    ensures HeaderFits(h) && HasMagic(h) && forall i :: 0 <= i < |maps| ==> MapFits(maps[i])
    ensures ReadFile(FileBytes(h, maps, tables), {}) == Broken
  {
    hide OnlyEmptyCode, ReadFile, FileBytes, Start, Maps, MapFits, Interned, SomeUnreadable, TablesFit;
    tables := EmptyCode();
    OnlyCodeIsImage(tables);
    maps := Maps(tables, ITEM_MAX);
    MapsAreFew(tables);
    h := NewHeader(pkgname).(fileSize := Start(tables, ITEM_MAX), mapSize := |maps|);
    FileRoundTrip(h, maps, tables, {});
  }
}
