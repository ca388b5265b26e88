/** Reading descriptors back from their text (src/typedesc.c:510-658). */
module TypeText {
  import opened Basics
  import opened TypeDesc

  /** Where the recursive call stands: at the top, behind '[', or behind "...". */
  datatype Context = Top | InArray | InVarg

  /** A value read and the text behind it. */
  datatype Reading<+T> = Reading(value: T, rest: string)

  function IndexOf(s: string, c: char): (i: nat)
    ensures i <= |s|
    ensures forall k :: 0 <= k < i ==> s[k] != c
    ensures i < |s| ==> s[i] == c
  {
    if s == [] || s[0] == c then 0 else 1 + IndexOf(s[1..], c)
  }

  function CountBrackets(s: string): (n: nat)
    ensures n <= |s|
    ensures forall k :: 0 <= k < n ==> s[k] == '['
    ensures n < |s| ==> s[n] != '['
  {
    if s == [] || s[0] != '[' then 0 else 1 + CountBrackets(s[1..])
  }

  function PathOf(s: string): Option<string> {
    if s == "" then None else Some(s)
  }

  /** string_to_klass.  The first dot is searched in everything that follows, so a class without a dot
      before its ';' is not read as the code means it: the lengths passed on are negative. */
  function ReadKlass(s: string): (r: Option<Reading<Desc>>)
    ensures r.Some? ==> |r.value.rest| < |s|
  {
    var end := IndexOf(s, ';');
    var dot := IndexOf(s, '.');
    if end == |s| || dot > end then None
    else Some(Reading(Klass(PathOf(s[..dot]), s[dot + 1..end]), s[end + 1..]))
  }

  /** String_To_TypeDesc: the descriptor at the front of the text and what follows it.  None stands
      for a failing assert or for reading past the end.  With `colon` the reader would also skip the
      ':' that the printer puts between the halves of a map; the C code runs with `colon` false. */
  function Read(colon: bool, s: string, ctx: Context): (r: Option<Reading<Desc>>)
    ensures r.Some? ==> |r.value.rest| < |s|
    decreases |s|, 0
  {
    if s == "" then None
    else match s[0]
      case 'L' => ReadKlass(s[1..])
      case '[' =>
        if ctx != Top then None
        else
          var dims := CountBrackets(s);
          var base := Read(colon, s[dims..], InArray);
          if base == None then None
          else Some(Reading(Array(dims, base.value.value), base.value.rest))
      case 'M' =>
        var key := Read(colon, s[1..], Top);
        if key == None then None
        else
          var between := key.value.rest;
          if colon && (between == "" || between[0] != ':') then None
          else
            var val := Read(colon, if colon then between[1..] else between, Top);
            if val == None then None
            else Some(Reading(Map(key.value.value, val.value.value), val.value.rest))
      case 'S' =>
        var base := Read(colon, s[1..], Top);
        if base == None then None
        else Some(Reading(Set(base.value.value), base.value.rest))
      case 'P' =>
        var args := ReadUntil(colon, s[1..], ':');
        if args == None then None
        else
          var rets := ReadUntil(colon, args.value.rest, ';');
          if rets == None then None
          else Some(Reading(Proto(args.value.value, rets.value.value), rets.value.rest))
      case '.' =>
        if ctx != Top || |s| < 3 || s[1] != '.' || s[2] != '.' then None
        else if |s| > 3 && s[3] == 'A' then Some(Reading(Varg(Base('A')), s[4..]))
        else
          var base := Read(colon, s[3..], InVarg);
          if base == None then None
          else Some(Reading(Varg(base.value.value), base.value.rest))
      case kind =>
        if kind in BASES then Some(Reading(Base(kind), s[1..])) else None
  }

  ghost function Prepend(front: seq<Desc>, r: Option<Reading<seq<Desc>>>): Option<Reading<seq<Desc>>> {
    if r == None then None else Some(Reading(front + r.value.value, r.value.rest))
  }

  /** The loops over arguments and results: descriptors up to a closing character. */
  function ReadUntil(colon: bool, s: string, close: char): (r: Option<Reading<seq<Desc>>>)
    ensures r.Some? ==> |r.value.rest| < |s|
    decreases |s|, 1
  {
    if s == "" then None
    else if s[0] == close then Some(Reading([], s[1..]))
    else
      var head := Read(colon, s, Top);
      if head == None then None
      else
        var tail := ReadUntil(colon, head.value.rest, close);
        if tail == None then None
        else Some(Reading([head.value.value] + tail.value.value, tail.value.rest))
  }

  // ---------------------------------------------------------------- round trip

  /** What may follow '[' or "...". */
  predicate Fits(d: Desc, ctx: Context) {
    ctx == Top || (!d.Array? && !d.Varg?)
  }

  lemma {:induction false} FirstChar(d: Desc)
    requires Normal(d)
    ensures Print(d) != ""
    ensures Print(d)[0] != ':' && Print(d)[0] != ';'
    ensures Print(d)[0] == '[' <==> d.Array?
  {}

  lemma {:induction false} SplitAt(a: string, b: string)
    ensures (a + b)[..|a|] == a && (a + b)[|a|..] == b
  {}

  lemma {:induction false} HeadAndTail(s: string)
    requires s != ""
    ensures s == [s[0]] + s[1..]
  {}

  lemma {:induction false} IndexOfBehind(a: string, b: string, c: char)
    requires c !in a && b != "" && b[0] == c
    ensures IndexOf(a + b, c) == |a|
  {
    assert (a + b)[|a|] == c;
    assert forall k :: 0 <= k < |a| ==> (a + b)[k] == a[k];
  }

  /** The pieces of "path.name;rest", cut where string_to_klass cuts. */
  lemma {:induction false} KlassCuts(p: string, name: string, rest: string)
    requires '.' !in p && ';' !in p && ';' !in name
    ensures var s := p + ("." + (name + (";" + rest)));
      && IndexOf(s, '.') == |p| && IndexOf(s, ';') == |p| + 1 + |name|
      && s[..|p|] == p && s[|p| + 1..|p| + 1 + |name|] == name && s[|p| + 1 + |name| + 1..] == rest
  {
    var behind := ";" + rest;
    var s := p + ("." + (name + behind));
    IndexOfBehind(p, "." + (name + behind), '.');
    assert s == (p + "." + name) + behind;
    IndexOfBehind(p + "." + name, behind, ';');
    SplitAt(p + "." + name, behind);
    SplitAt(p + ".", name);
  }

  lemma {:induction false} KlassText(p: string, name: string, rest: string)
    ensures "L" + (p + ("." + (name + ";"))) + rest == "L" + (p + ("." + (name + (";" + rest))))
  {
    Assoc("L", p + ("." + (name + ";")), rest);
    Assoc(p, "." + (name + ";"), rest);
    Assoc(".", name + ";", rest);
    Assoc(name, ";", rest);
  }

  lemma {:induction false} KlassReadsCuts(p: string, name: string, rest: string)
    requires '.' !in p && ';' !in p && ';' !in name
    ensures ReadKlass(p + ("." + (name + (";" + rest)))) == Some(Reading(Klass(PathOf(p), name), rest))
  {
    KlassCuts(p, name, rest);
  }

  lemma {:induction false} KlassReadsBack(path: Option<string>, name: string, rest: string)
    requires Normal(Klass(path, name))
    ensures ReadKlass((Print(Klass(path, name)) + rest)[1..]) == Some(Reading(Klass(path, name), rest))
  {
    var p := PathText(path);
    var text := p + ("." + (name + (";" + rest)));
    assert (Print(Klass(path, name)) + rest)[1..] == text by {
      KlassText(p, name, rest);
      SplitAt("L", text);
    }
    KlassReadsCuts(p, name, rest);
  }

  /** What a reader makes of printed text: everything it should, unless there is a map in it and the
      reader does not expect the map's colon. */
  ghost function Expected<T>(readable: bool, value: T, rest: string): Option<Reading<T>> {
    if readable then Some(Reading(value, rest)) else None
  }

  /** What the reader does behind 'P'. */
  lemma {:induction false} ProtoUnfolds(colon: bool, s: string, ctx: Context)
    requires s != "" && s[0] == 'P'
    ensures var args := ReadUntil(colon, s[1..], ':');
      if args == None then Read(colon, s, ctx) == None
      else
        var rets := ReadUntil(colon, args.value.rest, ';');
        Read(colon, s, ctx) ==
          if rets == None then None else Some(Reading(Proto(args.value.value, rets.value.value), rets.value.rest))
  {}

  lemma {:induction false} ProtoText(args: string, rets: string, rest: string)
    ensures "P" + (args + (":" + (rets + ";"))) + rest == "P" + (args + (":" + (rets + (";" + rest))))
  {
    Assoc("P", args + (":" + (rets + ";")), rest);
    Assoc(args, ":" + (rets + ";"), rest);
    Assoc(":", rets + ";", rest);
    Assoc(rets, ";", rest);
  }

  lemma {:induction false} ProtoReadsBack(colon: bool, args: seq<Desc>, rets: seq<Desc>, rest: string, ctx: Context)
    requires ReadUntil(colon, PrintList(args) + (":" + (PrintList(rets) + (";" + rest))), ':')
          == Expected(colon || !HasMapList(args), args, PrintList(rets) + (";" + rest))
    requires ReadUntil(colon, PrintList(rets) + (";" + rest), ';')
          == Expected(colon || !HasMapList(rets), rets, rest)
    ensures Read(colon, Print(Proto(args, rets)) + rest, ctx)
         == Expected(colon || !HasMap(Proto(args, rets)), Proto(args, rets), rest)
  {
    ProtoText(PrintList(args), PrintList(rets), rest);
    SplitAt("P", PrintList(args) + (":" + (PrintList(rets) + (";" + rest))));
    ProtoUnfolds(colon, Print(Proto(args, rets)) + rest, ctx);
  }

  lemma {:induction false} ArrayReadsBack(colon: bool, dims: nat, base: Desc, rest: string)
    requires Normal(Array(dims, base))
    requires Read(colon, Print(base) + rest, InArray) == Expected(colon || !HasMap(base), base, rest)
    ensures Read(colon, Print(Array(dims, base)) + rest, Top)
         == Expected(colon || !HasMap(base), Array(dims, base), rest)
  {
    var s := Print(Array(dims, base)) + rest;
    FirstChar(base);
    assert s[dims] == Print(base)[0];
    assert forall k :: 0 <= k < dims ==> s[k] == '[';
    assert s[dims..] == Print(base) + rest;
  }

  lemma {:induction false} ColonStopsReader(s: string, ctx: Context)
    requires s != "" && s[0] == ':'
    ensures Read(false, s, ctx) == None
  {}

  /** What the reader does behind 'M', in terms of its two recursive calls. */
  lemma {:induction false} MapUnfolds(colon: bool, s: string, ctx: Context)
    requires s != "" && s[0] == 'M'
    ensures var key := Read(colon, s[1..], Top);
      if key == None || (colon && (key.value.rest == "" || key.value.rest[0] != ':')) then Read(colon, s, ctx) == None
      else
        var val := Read(colon, if colon then key.value.rest[1..] else key.value.rest, Top);
        Read(colon, s, ctx) ==
          if val == None then None
          else Some(Reading(Map(key.value.value, val.value.value), val.value.rest))
  {}

  lemma {:induction false} MapText(key: string, val: string, rest: string)
    ensures "M" + (key + (":" + val)) + rest == "M" + (key + (":" + (val + rest)))
  {
    Assoc("M", key + (":" + val), rest);
    Assoc(key, ":" + val, rest);
    Assoc(":", val, rest);
  }

  /** The printer's colon stops the reader unless it is told to skip it. */
  lemma {:induction false} MapReadsBack(colon: bool, key: Desc, val: Desc, rest: string, ctx: Context)
    requires Read(colon, Print(key) + (":" + (Print(val) + rest)), Top)
          == Expected(colon || !HasMap(key), key, ":" + (Print(val) + rest))
    requires Read(colon, Print(val) + rest, Top) == Expected(colon || !HasMap(val), val, rest)
    ensures Read(colon, Print(Map(key, val)) + rest, ctx) == Expected(colon, Map(key, val), rest)
  {
    var behind := ":" + (Print(val) + rest);
    MapText(Print(key), Print(val), rest);
    SplitAt("M", Print(key) + behind);
    SplitAt(":", Print(val) + rest);
    MapUnfolds(colon, Print(Map(key, val)) + rest, ctx);
    if !colon {
      ColonStopsReader(behind, Top);
    }
  }

  lemma {:induction false} VargReadsBack(colon: bool, base: Desc, rest: string)
    requires Normal(Varg(base))
    requires Read(colon, Print(base) + rest, InVarg) == Expected(colon || !HasMap(base), base, rest)
    ensures Read(colon, Print(Varg(base)) + rest, Top) == Expected(colon || !HasMap(base), Varg(base), rest)
  {
    var s := Print(Varg(base)) + rest;
    assert s[3..] == Print(base) + rest;
    FirstChar(base);
    if s[3] == 'A' {
      OnlyAnyStartsWithA(base);
      assert s[4..] == rest;
    }
  }

  lemma {:induction false} OnlyAnyStartsWithA(d: Desc)
    requires Normal(d) && Print(d) != "" && Print(d)[0] == 'A'
    ensures d == Base('A')
  {
    if d.Array? {
      FirstChar(d);
    }
  }

  lemma {:induction false} ReadPrinted(colon: bool, d: Desc, rest: string, ctx: Context)
    requires Normal(d) && Fits(d, ctx)
    ensures Read(colon, Print(d) + rest, ctx) == Expected(colon || !HasMap(d), d, rest)
    decreases d, 0
  {
    match d
    case Base(kind) =>
    case Klass(path, name) =>
      KlassReadsBack(path, name, rest);
    case Proto(args, rets) =>
      ReadPrintedList(colon, args, ':', PrintList(rets) + (";" + rest));
      ReadPrintedList(colon, rets, ';', rest);
      ProtoReadsBack(colon, args, rets, rest, ctx);
    case Array(dims, base) =>
      ReadPrinted(colon, base, rest, InArray);
      ArrayReadsBack(colon, dims, base, rest);
    case Map(key, val) =>
      ReadPrinted(colon, key, ":" + (Print(val) + rest), Top);
      ReadPrinted(colon, val, rest, Top);
      MapReadsBack(colon, key, val, rest, ctx);
    case Set(base) =>
      assert (Print(d) + rest)[1..] == Print(base) + rest;
      ReadPrinted(colon, base, rest, Top);
    case Varg(base) =>
      ReadPrinted(colon, base, rest, InVarg);
      VargReadsBack(colon, base, rest);
  }

  lemma {:induction false} ReadPrintedList(colon: bool, ds: seq<Desc>, close: char, rest: string)
    requires NormalList(ds) && (close == ':' || close == ';')
    ensures ReadUntil(colon, PrintList(ds) + ([close] + rest), close) == Expected(colon || !HasMapList(ds), ds, rest)
    decreases ds, 1
  {
    var s := PrintList(ds) + ([close] + rest);
    if ds == [] {
      assert s == [close] + rest;
      SplitAt([close], rest);
    } else {
      var behind := PrintList(ds[1..]) + ([close] + rest);
      Assoc(Print(ds[0]), PrintList(ds[1..]), [close] + rest);
      FirstChar(ds[0]);
      ReadPrinted(colon, ds[0], behind, Top);
      ReadPrintedList(colon, ds[1..], close, rest);
      assert [ds[0]] + ds[1..] == ds;
    }
  }

  // ---------------------------------------------------------------- main results

  /** Text followed by anything reads back as the descriptor and exactly that suffix if and only if
      there is no map in it; a map makes the reader fail. */
  lemma {:induction false} RoundTripExactlyWithoutMaps(d: Desc, rest: string)
    requires Normal(d)
    ensures Read(false, Print(d) + rest, Top) == Some(Reading(d, rest)) <==> !HasMap(d)
    ensures HasMap(d) ==> Read(false, Print(d) + rest, Top) == None
  {
    ReadPrinted(false, d, rest, Top);
  }

  /** For instance the text of a map from int to int. */
  lemma {:induction false} MapTextIsNotReadable()
    ensures Normal(Map(Base('i'), Base('i'))) && Read(false, Print(Map(Base('i'), Base('i'))), Top) == None
  {
    assert Print(Map(Base('i'), Base('i'))) == "Mi:i";
    assert "Mi:i"[1..] == "i:i" && "i:i"[1..] == ":i";
  }

  /** The text is a prefix code: equal texts, even with different continuations, come from equal
      descriptors.  This is what makes interning by text canonical, maps included. */
  lemma {:induction false} PrintIsPrefixFree(d1: Desc, d2: Desc, rest1: string, rest2: string)
    requires Normal(d1) && Normal(d2)
    requires Print(d1) + rest1 == Print(d2) + rest2
    ensures d1 == d2 && rest1 == rest2
  {
    ReadPrinted(true, d1, rest1, Top);
    ReadPrinted(true, d2, rest2, Top);
  }

  /** String_ToTypeList: descriptors up to the end of the text. */
  function ReadAll(colon: bool, s: string): Option<seq<Desc>>
    decreases |s|
  {
    if s == "" then Some([])
    else
      var head := Read(colon, s, Top);
      if head == None then None
      else
        var tail := ReadAll(colon, head.value.rest);
        if tail == None then None else Some([head.value.value] + tail.value)
  }

  /** Lists go through TypeList_ToString and back exactly when no element contains a map. */
  lemma {:induction false} ListRoundTripExactlyWithoutMaps(ds: seq<Desc>)
    requires NormalList(ds)
    ensures ReadAll(false, PrintList(ds)) == Some(ds) <==> !HasMapList(ds)
    ensures HasMapList(ds) ==> ReadAll(false, PrintList(ds)) == None
  {
    if ds != [] {
      var behind := PrintList(ds[1..]);
      FirstChar(ds[0]);
      ReadPrinted(false, ds[0], behind, Top);
      ListRoundTripExactlyWithoutMaps(ds[1..]);
      assert [ds[0]] + ds[1..] == ds;
    }
  }

  /** Whatever was read is normal, and without maps it is exactly the text consumed. */
  ghost predicate Sound(s: string, ctx: Context, r: Reading<Desc>) {
    Normal(r.value) && Fits(r.value, ctx) && (!HasMap(r.value) ==> s == Print(r.value) + r.rest)
  }

  ghost predicate SoundList(s: string, close: char, r: Reading<seq<Desc>>) {
    NormalList(r.value) && (!HasMapList(r.value) ==> s == PrintList(r.value) + ([close] + r.rest))
  }

  lemma {:induction false} CutAt(s: string, i: nat)
    requires i < |s|
    ensures s == s[..i] + ([s[i]] + s[i + 1..])
  {}

  lemma {:induction false} KlassRejoins(k: string, dot: nat, end: nat)
    requires dot < end < |k| && k[dot] == '.' && k[end] == ';'
    ensures k == k[..dot] + ("." + (k[dot + 1..end] + (";" + k[end + 1..])))
  {
    var behind := k[dot + 1..];
    var i := end - dot - 1;
    CutAt(k, dot);
    CutAt(behind, i);
    assert behind[..i] == k[dot + 1..end] && behind[i + 1..] == k[end + 1..];
  }

  lemma {:induction false} KlassIsNormal(k: string, dot: nat, end: nat)
    requires dot == IndexOf(k, '.') && end == IndexOf(k, ';') && dot < end < |k|
    ensures Normal(Klass(PathOf(k[..dot]), k[dot + 1..end]))
  {
    var path, name := k[..dot], k[dot + 1..end];
    assert forall i :: 0 <= i < |path| ==> path[i] == k[i];
    assert forall i :: 0 <= i < |name| ==> name[i] == k[dot + 1 + i];
    assert PathText(PathOf(path)) == path;
  }

  lemma {:induction false} KlassIsSound(s: string, ctx: Context)
    requires s != "" && s[0] == 'L' && ReadKlass(s[1..]).Some?
    ensures Sound(s, ctx, ReadKlass(s[1..]).value)
  {
    hide Read, Normal, IndexOf;
    var k := s[1..];
    var end, dot := IndexOf(k, ';'), IndexOf(k, '.');
    KlassIsNormal(k, dot, end);
    hide PathText, PathOf;
    assert s == Print(Klass(PathOf(k[..dot]), k[dot + 1..end])) + k[end + 1..] by {
      HeadAndTail(s);
      KlassRejoins(k, dot, end);
      KlassText(k[..dot], k[dot + 1..end], k[end + 1..]);
    }
  }

  /** What the reader does behind "...". */
  lemma {:induction false} VargUnfolds(s: string, ctx: Context)
    requires s != "" && s[0] == '.'
    ensures Read(false, s, ctx) ==
      if ctx != Top || |s| < 3 || s[1] != '.' || s[2] != '.' then None
      else if |s| > 3 && s[3] == 'A' then Some(Reading(Varg(Base('A')), s[4..]))
      else
        var base := Read(false, s[3..], InVarg);
        if base == None then None else Some(Reading(Varg(base.value.value), base.value.rest))
  {}

  /** What the reader does behind '['. */
  lemma {:induction false} ArrayUnfolds(s: string, ctx: Context)
    requires s != "" && s[0] == '['
    ensures CountBrackets(s) > 0
    ensures Read(false, s, ctx) ==
      if ctx != Top then None
      else
        var base := Read(false, s[CountBrackets(s)..], InArray);
        if base == None then None else Some(Reading(Array(CountBrackets(s), base.value.value), base.value.rest))
  {}

  /** The cases that are the same wherever the descriptor stands. */
  lemma {:induction false} PlainUnfolds(s: string, ctx: Context)
    requires s != "" && s[0] != '[' && s[0] != '.'
    ensures Read(false, s, ctx) == Read(false, s, Top)
    ensures s[0] == 'L' ==> Read(false, s, ctx) == ReadKlass(s[1..])
    ensures s[0] !in "LMSP" ==>
              Read(false, s, ctx) == if s[0] in BASES then Some(Reading(Base(s[0]), s[1..])) else None
  {}

  lemma {:induction false} SetUnfolds(s: string, ctx: Context)
    requires s != "" && s[0] == 'S'
    ensures Read(false, s, ctx) ==
      var base := Read(false, s[1..], Top);
      if base == None then None else Some(Reading(Set(base.value.value), base.value.rest))
  {}

  /** One turn of the list loop. */
  lemma {:induction false} ReadUntilUnfolds(s: string, close: char)
    requires s != "" && s[0] != close
    ensures ReadUntil(false, s, close) ==
      var head := Read(false, s, Top);
      if head == None then None else Prepend([head.value.value], ReadUntil(false, head.value.rest, close))
  {}

  lemma {:induction false} PrependTwice(a: seq<Desc>, b: seq<Desc>, r: Option<Reading<seq<Desc>>>)
    ensures Prepend(a, Prepend(b, r)) == Prepend(a + b, r)
    ensures Prepend([], r) == r
  {
    if r != None {
      assert a + (b + r.value.value) == a + b + r.value.value;
      assert [] + r.value.value == r.value.value;
    }
  }

  lemma {:induction false} ArrayIsSound(s: string, base: Reading<Desc>)
    requires s != "" && s[0] == '[' && Sound(s[CountBrackets(s)..], InArray, base)
    ensures Sound(s, Top, Reading(Array(CountBrackets(s), base.value), base.rest))
  {
    var dims := CountBrackets(s);
    assert s == Brackets(dims) + s[dims..];
    Assoc(Brackets(dims), Print(base.value), base.rest);
  }

  lemma {:induction false} ProtoIsSound(s: string, ctx: Context, args: Reading<seq<Desc>>, rets: Reading<seq<Desc>>)
    requires s != "" && s[0] == 'P'
    requires SoundList(s[1..], ':', args) && SoundList(args.rest, ';', rets)
    ensures Sound(s, ctx, Reading(Proto(args.value, rets.value), rets.rest))
  {
    HeadAndTail(s);
    ProtoText(PrintList(args.value), PrintList(rets.value), rets.rest);
  }

  lemma {:induction false} SetIsSound(s: string, ctx: Context, base: Reading<Desc>)
    requires s != "" && s[0] == 'S' && Sound(s[1..], Top, base)
    ensures Sound(s, ctx, Reading(Set(base.value), base.rest))
  {
    HeadAndTail(s);
    Assoc("S", Print(base.value), base.rest);
  }

  lemma {:induction false} ListIsSound(s: string, close: char, head: Reading<Desc>, tail: Reading<seq<Desc>>)
    requires Sound(s, Top, head) && SoundList(head.rest, close, tail)
    ensures SoundList(s, close, Reading([head.value] + tail.value, tail.rest))
  {
    assert ([head.value] + tail.value)[1..] == tail.value;
    Assoc(Print(head.value), PrintList(tail.value), [close] + tail.rest);
  }

  lemma {:induction false} VargIsSound(s: string, base: Reading<Desc>)
    requires |s| >= 3 && s[0] == s[1] == s[2] == '.' && Sound(s[3..], InVarg, base)
    ensures Sound(s, Top, Reading(Varg(base.value), base.rest))
  {
    assert s == "..." + s[3..];
    Assoc("...", Print(base.value), base.rest);
  }

  lemma {:induction false} ReadIsSound(s: string, ctx: Context)
    requires Read(false, s, ctx).Some?
    ensures Sound(s, ctx, Read(false, s, ctx).value)
    decreases |s|, 0
  {
    match s[0]
    case 'L' =>
      KlassIsSound(s, ctx);
    case '[' =>
      ReadIsSound(s[CountBrackets(s)..], InArray);
      ArrayIsSound(s, Read(false, s[CountBrackets(s)..], InArray).value);
    case 'M' =>
      ReadIsSound(s[1..], Top);
      ReadIsSound(Read(false, s[1..], Top).value.rest, Top);
    case 'S' =>
      ReadIsSound(s[1..], Top);
      SetIsSound(s, ctx, Read(false, s[1..], Top).value);
    case 'P' =>
      var args := ReadUntil(false, s[1..], ':').value;
      ReadUntilIsSound(s[1..], ':');
      ReadUntilIsSound(args.rest, ';');
      ProtoIsSound(s, ctx, args, ReadUntil(false, args.rest, ';').value);
    case '.' =>
      if |s| > 3 && s[3] == 'A' {
        HeadAndTail(s[3..]);
        assert s[3..][1..] == s[4..];
        VargIsSound(s, Reading(Base('A'), s[4..]));
      } else {
        ReadIsSound(s[3..], InVarg);
        VargIsSound(s, Read(false, s[3..], InVarg).value);
      }
    case _ =>
      HeadAndTail(s);
  }

  lemma {:induction false} ReadUntilIsSound(s: string, close: char)
    requires ReadUntil(false, s, close).Some?
    ensures SoundList(s, close, ReadUntil(false, s, close).value)
    decreases |s|, 1
  {
    if s[0] == close {
      HeadAndTail(s);
      assert s == "" + ([close] + s[1..]);
    } else {
      ReadIsSound(s, Top);
      var head := Read(false, s, Top).value;
      ReadUntilIsSound(head.rest, close);
      var tail := ReadUntil(false, head.rest, close).value;
      ListIsSound(s, close, head, tail);
    }
  }

  /** Without the normal form the text does not tell descriptors apart: an array of arrays spells like one
      array of more dimensions, and an absent path like an empty one. */
  lemma {:induction false} TextNeedsNormalForm(m: nat, n: nat, base: Desc, name: string)
    ensures Print(Array(m, Array(n, base))) == Print(Array(m + n, base))
    ensures Print(Klass(None, name)) == Print(Klass(Some(""), name))
  {
    assert Brackets(m) + Brackets(n) == Brackets(m + n);
    assert Brackets(m) + (Brackets(n) + Print(base)) == Brackets(m) + Brackets(n) + Print(base);
  }
}
