/** Types through a file and back: the structs of the type tables as bytes (include/image.h:59-95), and
    what the reader makes of them. */
module ImageWhole {
  import opened ImageKinds
  import opened TypeDesc
  import opened ImageTypes
  import opened ImageDecode
  import opened ImageLayout
  import opened ImageReader
  import opened ImageRoundTrip

  /** A signed 32-bit word in two's complement. */
  function SignedWord(x: int): (b: seq<byte>)
    requires Int32(x)
    ensures |b| == 4
  {
    if x >= 0 then Word(x) else Word(x + WORD_LIMIT)
  }

  predicate Int32(x: int) {
    -WORD_LIMIT <= 2 * x < WORD_LIMIT
  }

  function Unsigned(b: seq<byte>): int
    requires |b| == 4
  {
    var x := Unword(b);
    if 2 * x < WORD_LIMIT then x else x - WORD_LIMIT
  }

  lemma {:induction false} SignedRoundTrip(x: int)
    requires Int32(x)
    ensures Unsigned(SignedWord(x)) == x
    ensures Unword(SignedWord(x)) == if x >= 0 then x else x + 0x1_0000_0000
  {
    WordRoundTrip(if x >= 0 then x else x + WORD_LIMIT);
  }

  function Words(xs: seq<int>): (b: seq<byte>)
    requires forall i :: 0 <= i < |xs| ==> Int32(xs[i])
    ensures |b| == 4 * |xs|
  {
    if xs == [] then [] else SignedWord(xs[0]) + Words(xs[1..])
  }

  function Unwords(b: seq<byte>): (xs: seq<int>)
    requires |b| % 4 == 0
  {
    if b == [] then [] else [Unsigned(b[..4])] + Unwords(b[4..])
  }

  lemma {:induction false} WordsRoundTrip(xs: seq<int>)
    requires forall i :: 0 <= i < |xs| ==> Int32(xs[i])
    ensures Unwords(Words(xs)) == xs
  {
    if xs != [] {
      var b := Words(xs);
      assert b[..4] == SignedWord(xs[0]) && b[4..] == Words(xs[1..]);
      SignedRoundTrip(xs[0]);
      WordsRoundTrip(xs[1..]);
      assert xs == [xs[0]] + xs[1..];
    }
  }

  /** The characters of a C string, without its final zero. */
  function Chars(s: string): (b: seq<byte>)
    requires CString(s)
    ensures |b| == |s|
  {
    seq(|s|, i requires 0 <= i < |s| => s[i] as int)
  }

  predicate CString(s: string) {
    forall i :: 0 <= i < |s| ==> 0 < s[i] as int < 256
  }

  function Letters(b: seq<byte>): (s: string)
    ensures |s| == |b|
  {
    seq(|b|, i requires 0 <= i < |b| => b[i] as char)
  }

  // ---------------------------------------------------------------- items

  predicate Storable(a: Atom, k: int) {
    match a
    case Text(s) => k == ITEM_STRING && CString(s) && |s| + 1 < WORD_LIMIT
    case Type(kind, w0, w1) => k == ITEM_TYPE && Int32(kind) && Int32(w0) && Int32(w1)
    case TypeList(index) =>
      k == ITEM_TYPELIST && 0 < |index| < WORD_LIMIT && forall i :: 0 <= i < |index| ==> Int32(index[i])
    case Proto(r, p) => k == ITEM_PROTO && Int32(r) && Int32(p)
    case Other(_) => false
  }

  /** The memory of an item. */
  function Pack(a: Atom, k: int): (item: Item)
    requires Storable(a, k)
    ensures Kind(k) && ItemFits(k, item) && !Hollow(item)
  {
    match a
    case Text(s) => Counted(|s| + 1, Chars(s) + [0])
    case Type(kind, w0, w1) => Flat(Words([kind, w0, w1]))
    case TypeList(index) => Counted(|index|, Words(index))
    case Proto(r, p) => Flat(Words([r, p]))
  }

  function Unpack(item: Item, k: int): Atom {
    match item
    case Counted(count, data) =>
      if k == ITEM_STRING && |data| > 0 then Text(Letters(data[..|data| - 1]))
      else if |data| % 4 == 0 then TypeList(Unwords(data)) else Other([])
    case Flat(bytes) =>
      if |bytes| == 12 then
        var w := Unwords(bytes);
        if |w| == 3 then Type(w[0], w[1], w[2]) else Other([])
      else if |bytes| == 8 then
        var w := Unwords(bytes);
        if |w| == 2 then Atom.Proto(w[0], w[1]) else Other([])
      else Other([])
  }

  lemma {:induction false} PackRoundTrip(a: Atom, k: int)
    requires Storable(a, k)
    ensures Unpack(Pack(a, k), k) == a
  {
    match a
    case Text(s) =>
      var data := Chars(s) + [0];
      assert data[..|data| - 1] == Chars(s);
      assert Letters(Chars(s)) == s;
    case Type(kind, w0, w1) => WordsRoundTrip([kind, w0, w1]);
    case TypeList(index) => WordsRoundTrip(index);
    case Proto(r, p) => WordsRoundTrip([r, p]);
  }

  /** Where the fields of the structs lie, and the zero behind the characters of a string. */
  lemma {:induction false} PackLayout(a: Atom, k: int)
    requires Storable(a, k)
    ensures match (a, Pack(a, k))
      case (Text(s), Counted(count, data)) =>
        count == |data| == |s| + 1 && data[|s|] == 0 && forall i :: 0 <= i < |s| ==> data[i] as int == s[i] as int
      case (Type(kind, w0, w1), Flat(b)) =>
        |b| == 12 && b[0..4] == SignedWord(kind) && b[4..8] == SignedWord(w0) && b[8..12] == SignedWord(w1)
      case (TypeList(index), Counted(count, data)) =>
        && count == |index| && |data| == 4 * count
        && forall i :: 0 <= i < count ==> data[4 * i..4 * i + 4] == SignedWord(index[i])
      case (Proto(r, p), Flat(b)) => |b| == 8 && b[0..4] == SignedWord(r) && b[4..8] == SignedWord(p)
      case _ => false
  {
    match a
    case Text(s) =>
    case Type(kind, w0, w1) =>
      var xs := [kind, w0, w1];
      WordsAt(xs);
      assert Words(xs)[4 * 0..4 * 0 + 4] == SignedWord(xs[0]);
      assert Words(xs)[4 * 1..4 * 1 + 4] == SignedWord(xs[1]);
      assert Words(xs)[4 * 2..4 * 2 + 4] == SignedWord(xs[2]);
    case TypeList(index) => WordsAt(index);
    case Proto(r, p) =>
      var xs := [r, p];
      WordsAt(xs);
      assert Words(xs)[4 * 0..4 * 0 + 4] == SignedWord(xs[0]);
      assert Words(xs)[4 * 1..4 * 1 + 4] == SignedWord(xs[1]);
  }

  lemma {:induction false} WordsAt(xs: seq<int>)
    requires forall i :: 0 <= i < |xs| ==> Int32(xs[i])
    ensures forall i :: 0 <= i < |xs| ==> Words(xs)[4 * i..4 * i + 4] == SignedWord(xs[i])
  {
    if xs != [] {
      var b, rest := Words(xs), Words(xs[1..]);
      WordsAt(xs[1..]);
      forall i | 0 <= i < |xs|
        ensures b[4 * i..4 * i + 4] == SignedWord(xs[i])
      {
        if i > 0 {
          assert b[4 * i..4 * i + 4] == rest[4 * (i - 1)..4 * (i - 1) + 4];
          assert xs[1..][i - 1] == xs[i];
        }
      }
    }
  }

  ghost predicate AllStorable(items: seq<Atom>, k: int) {
    forall i :: 0 <= i < |items| ==> Storable(items[i], k)
  }

  function PackAll(items: seq<Atom>, k: int): (packed: seq<Item>)
    requires AllStorable(items, k)
    ensures |packed| == |items| && forall i :: 0 <= i < |items| ==> packed[i] == Pack(items[i], k)
  {
    seq(|items|, i requires 0 <= i < |items| => Pack(items[i], k))
  }

  function UnpackAll(items: seq<Item>, k: int): (atoms: seq<Atom>)
    ensures |atoms| == |items| && forall i :: 0 <= i < |items| ==> atoms[i] == Unpack(items[i], k)
  {
    seq(|items|, i requires 0 <= i < |items| => Unpack(items[i], k))
  }

  /** A packed table reads back, is free of repeats and holds no empty array. */
  lemma {:induction false} PackAllRoundTrip(items: seq<Atom>, k: int)
    requires AllStorable(items, k) && Distinct(items) && Kind(k)
    ensures UnpackAll(PackAll(items, k), k) == items
    ensures NoRepeat(PackAll(items, k)) && ItemsFit(k, PackAll(items, k)) && !HasHollow(PackAll(items, k))
  {
    var packed := PackAll(items, k);
    forall i | 0 <= i < |items|
      ensures Unpack(packed[i], k) == items[i] && ItemFits(k, packed[i]) && !Hollow(packed[i])
    {
      PackRoundTrip(items[i], k);
    }
  }

  // ---------------------------------------------------------------- the theorem

  /** The tables of an image hold these type tables. */
  ghost predicate Holds(tables: seq<seq<Item>>, t: Tables) {
    && |tables| == ITEM_MAX
    && AllStorable(t.strings, ITEM_STRING) && tables[ITEM_STRING] == PackAll(t.strings, ITEM_STRING)
    && AllStorable(t.types, ITEM_TYPE) && tables[ITEM_TYPE] == PackAll(t.types, ITEM_TYPE)
    && AllStorable(t.lists, ITEM_TYPELIST) && tables[ITEM_TYPELIST] == PackAll(t.lists, ITEM_TYPELIST)
    && AllStorable(t.protos, ITEM_PROTO) && tables[ITEM_PROTO] == PackAll(t.protos, ITEM_PROTO)
  }

  function TablesOf(tables: seq<seq<Item>>): Tables
    requires |tables| == ITEM_MAX
  {
    Tables(
      UnpackAll(tables[ITEM_STRING], ITEM_STRING), UnpackAll(tables[ITEM_TYPE], ITEM_TYPE),
      UnpackAll(tables[ITEM_TYPELIST], ITEM_TYPELIST), UnpackAll(tables[ITEM_PROTO], ITEM_PROTO))
  }

  /** Interned types survive the file: after writing and reading, every type index decodes to what it
      did before.  Only an item with an empty array among the other tables can make the reading fail. */
  lemma {:induction false} TypesSurviveTheFile(h: Header, maps: seq<MapItem>, tables: seq<seq<Item>>, t: Tables)
    requires WellFormed(t) && Holds(tables, t)
    requires Finished(h, maps, tables) && Addressable(tables) && NoRepeat(tables[ITEM_CONST])
    requires HeaderFits(h) && HasMagic(h) && h.mapOffset == HEADER_SIZE
    requires forall k :: ITEM_CONST <= k < ITEM_MAX ==> !HasHollow(tables[k])
    ensures forall i :: 0 <= i < |maps| ==> MapFits(maps[i])
    ensures var r := ReadFile(FileBytes(h, maps, tables), {});
      r.Loaded? && |r.tables| == ITEM_MAX && TablesOf(r.tables) == t
  {
    hide Finished, FileBytes, ReadFile, Addressable, HeaderFits, HasMagic, MapFits, HasHollow, NoRepeat, Storable;
    PackAllRoundTrip(t.strings, ITEM_STRING);
    PackAllRoundTrip(t.types, ITEM_TYPE);
    PackAllRoundTrip(t.lists, ITEM_TYPELIST);
    PackAllRoundTrip(t.protos, ITEM_PROTO);
    FileRoundTrip(h, maps, tables, {});
  }

  /** From a descriptor to an index, through a file, and back to the descriptor. */
  lemma {:induction false} DescriptorSurvivesTheFile(before: Tables, d: Desc, t: Tables,
      h: Header, maps: seq<MapItem>, tables: seq<seq<Item>>)
    requires WellFormed(before) && Encodable(d) && !Misread(before, d)
    requires WellFormed(t) && Extends(SetType(before, d).0, t) && Holds(tables, t)
    requires Finished(h, maps, tables) && Addressable(tables) && NoRepeat(tables[ITEM_CONST])
    requires HeaderFits(h) && HasMagic(h) && h.mapOffset == HEADER_SIZE
    requires forall k :: ITEM_CONST <= k < ITEM_MAX ==> !HasHollow(tables[k])
    ensures forall i :: 0 <= i < |maps| ==> MapFits(maps[i])
    ensures var r := ReadFile(FileBytes(h, maps, tables), {});
      var k := SetType(before, d).1;
      && r.Loaded? && |r.tables| == ITEM_MAX
      && WellFormed(TablesOf(r.tables)) && 0 <= k < |TablesOf(r.tables).types|
      && Decode(TablesOf(r.tables), k) == d
  {
    hide Finished, FileBytes, ReadFile, Addressable, HeaderFits, HasMagic, MapFits, HasHollow, NoRepeat, Holds,
         WellFormed;
    TypesSurviveTheFile(h, maps, tables, t);
    DecodesExactlyUnlessMisread(before, d);
    var (t0, k) := SetType(before, d);
    DecodeStable(t0, t, k);
  }
}
