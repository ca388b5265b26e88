/** The language that String_To_TypeDesc reads (src/typedesc.c:526-618): the text of the constructors,
    except that no colon stands between the halves of a map. */
module TypeSpelling {
  import opened Basics
  import opened TypeDesc
  import opened TypeText

  function Spell(d: Desc): string {
    match d
    case Base(kind) => [kind]
    case Klass(path, name) => "L" + (PathText(path) + ("." + (name + ";")))
    case Proto(args, rets) => "P" + (SpellList(args) + (":" + (SpellList(rets) + ";")))
    case Array(dims, base) => Brackets(dims) + Spell(base)
    case Map(key, val) => "M" + (Spell(key) + Spell(val))
    case Set(base) => "S" + Spell(base)
    case Varg(base) => "..." + Spell(base)
  }

  function SpellList(ds: seq<Desc>): string {
    if ds == [] then "" else Spell(ds[0]) + SpellList(ds[1..])
  }

  // ---------------------------------------------------------------- everything spelled is read

  lemma {:induction false} FirstSpelled(d: Desc)
    requires Normal(d)
    ensures Spell(d) != "" && Spell(d)[0] != ':' && Spell(d)[0] != ';'
    ensures Spell(d)[0] == '[' <==> d.Array?
    ensures Spell(d)[0] == 'A' ==> d == Base('A')
  {}

  lemma {:induction false} MapIsRead(s: string, key: Desc, behind: string, val: Desc, rest: string, ctx: Context)
    requires Read(false, s, Top) == Some(Reading(key, behind)) && Read(false, behind, Top) == Some(Reading(val, rest))
    ensures Read(false, "M" + s, ctx) == Some(Reading(Map(key, val), rest))
  {
    SplitAt("M", s);
    MapUnfolds(false, "M" + s, ctx);
    hide Read;
  }

  lemma {:induction false} MapText(key: string, val: string, rest: string)
    ensures "M" + (key + val) + rest == "M" + (key + (val + rest))
  {
    Assoc("M", key + val, rest);
    Assoc(key, val, rest);
  }

  lemma {:induction false} ProtoSpelled(args: seq<Desc>, rets: seq<Desc>, rest: string, ctx: Context)
    requires ReadUntil(false, SpellList(args) + (":" + (SpellList(rets) + (";" + rest))), ':')
          == Some(Reading(args, SpellList(rets) + (";" + rest)))
    requires ReadUntil(false, SpellList(rets) + (";" + rest), ';') == Some(Reading(rets, rest))
    ensures Read(false, Spell(Proto(args, rets)) + rest, ctx) == Some(Reading(Proto(args, rets), rest))
  {
    ProtoText(SpellList(args), SpellList(rets), rest);
    SplitAt("P", SpellList(args) + (":" + (SpellList(rets) + (";" + rest))));
    ProtoUnfolds(false, Spell(Proto(args, rets)) + rest, ctx);
  }

  lemma {:induction false} BracketsCounted(dims: nat, behind: string)
    requires behind != "" && behind[0] != '['
    ensures CountBrackets(Brackets(dims) + behind) == dims && (Brackets(dims) + behind)[dims..] == behind
  {
    var s := Brackets(dims) + behind;
    assert s[dims] == behind[0];
    assert forall k :: 0 <= k < dims ==> s[k] == '[';
  }

  lemma {:induction false} ArraySpelled(dims: nat, base: Desc, rest: string)
    requires Normal(Array(dims, base)) && Read(false, Spell(base) + rest, InArray) == Some(Reading(base, rest))
    ensures Read(false, Spell(Array(dims, base)) + rest, Top) == Some(Reading(Array(dims, base), rest))
  {
    var behind := Spell(base) + rest;
    var s := Brackets(dims) + behind;
    assert Spell(Array(dims, base)) + rest == s by {
      Assoc(Brackets(dims), Spell(base), rest);
    }
    FirstSpelled(base);
    BracketsCounted(dims, behind);
    ArrayUnfolds(s, Top);
    hide Read;
  }

  lemma {:induction false} VargSpelled(base: Desc, rest: string)
    requires Normal(Varg(base)) && Read(false, Spell(base) + rest, InVarg) == Some(Reading(base, rest))
    ensures Read(false, Spell(Varg(base)) + rest, Top) == Some(Reading(Varg(base), rest))
  {
    var behind := Spell(base) + rest;
    var s := "..." + behind;
    assert Spell(Varg(base)) + rest == s by {
      Assoc("...", Spell(base), rest);
    }
    FirstSpelled(base);
    VargUnfolds(s, Top);
    SplitAt("...", behind);
    hide Read;
    if s[3] == 'A' {
      assert s[4..] == rest;
    }
  }

  lemma {:induction false} SpelledIsRead(d: Desc, rest: string, ctx: Context)
    requires Normal(d) && Fits(d, ctx)
    ensures Read(false, Spell(d) + rest, ctx) == Some(Reading(d, rest))
    decreases d, 0
  {
    match d
    case Base(kind) =>
    case Klass(path, name) =>
      assert Spell(d) == Print(d);
      KlassReadsBack(path, name, rest);
    case Proto(args, rets) =>
      SpelledListIsRead(args, ':', SpellList(rets) + (";" + rest));
      SpelledListIsRead(rets, ';', rest);
      ProtoSpelled(args, rets, rest, ctx);
    case Array(dims, base) =>
      SpelledIsRead(base, rest, InArray);
      ArraySpelled(dims, base, rest);
    case Map(key, val) =>
      SpelledIsRead(key, Spell(val) + rest, Top);
      SpelledIsRead(val, rest, Top);
      MapText(Spell(key), Spell(val), rest);
      MapIsRead(Spell(key) + (Spell(val) + rest), key, Spell(val) + rest, val, rest, ctx);
    case Set(base) =>
      assert (Spell(d) + rest)[1..] == Spell(base) + rest;
      SpelledIsRead(base, rest, Top);
    case Varg(base) =>
      SpelledIsRead(base, rest, InVarg);
      VargSpelled(base, rest);
  }

  lemma {:induction false} SpelledListIsRead(ds: seq<Desc>, close: char, rest: string)
    requires NormalList(ds) && (close == ':' || close == ';')
    ensures ReadUntil(false, SpellList(ds) + ([close] + rest), close) == Some(Reading(ds, rest))
    decreases ds, 1
  {
    var s := SpellList(ds) + ([close] + rest);
    if ds == [] {
      assert s == [close] + rest;
      SplitAt([close], rest);
    } else {
      Assoc(Spell(ds[0]), SpellList(ds[1..]), [close] + rest);
      FirstSpelled(ds[0]);
      SpelledIsRead(ds[0], SpellList(ds[1..]) + ([close] + rest), Top);
      SpelledListIsRead(ds[1..], close, rest);
      assert [ds[0]] + ds[1..] == ds;
    }
  }

  // ---------------------------------------------------------------- everything read was spelled

  ghost predicate Spelled(s: string, r: Reading<Desc>) {
    s == Spell(r.value) + r.rest
  }

  ghost predicate SpelledList(s: string, close: char, r: Reading<seq<Desc>>) {
    s == SpellList(r.value) + ([close] + r.rest)
  }

  lemma {:induction false} KlassWasSpelled(s: string, ctx: Context)
    requires s != "" && s[0] == 'L' && ReadKlass(s[1..]).Some?
    ensures Spelled(s, ReadKlass(s[1..]).value)
  {
    KlassIsSound(s, ctx);
    var d := ReadKlass(s[1..]).value.value;
    assert d.Klass? && Spell(d) == Print(d);
  }

  lemma {:induction false} MapWasSpelled(s: string, key: Reading<Desc>, val: Reading<Desc>)
    requires s != "" && s[0] == 'M' && Spelled(s[1..], key) && Spelled(key.rest, val)
    ensures Spelled(s, Reading(Map(key.value, val.value), val.rest))
  {
    HeadAndTail(s);
    Assoc(Spell(key.value), Spell(val.value), val.rest);
    Assoc("M", Spell(key.value) + Spell(val.value), val.rest);
  }

  lemma {:induction false} ProtoWasSpelled(s: string, args: Reading<seq<Desc>>, rets: Reading<seq<Desc>>)
    requires s != "" && s[0] == 'P' && SpelledList(s[1..], ':', args) && SpelledList(args.rest, ';', rets)
    ensures Spelled(s, Reading(Proto(args.value, rets.value), rets.rest))
  {
    HeadAndTail(s);
    ProtoText(SpellList(args.value), SpellList(rets.value), rets.rest);
  }

  lemma {:induction false} WrapperWasSpelled(front: string, s: string, base: Reading<Desc>)
    requires Spelled(s, base)
    ensures front + s == front + Spell(base.value) + base.rest
  {
    Assoc(front, Spell(base.value), base.rest);
  }

  lemma {:induction false} ListWasSpelled(s: string, close: char, head: Reading<Desc>, tail: Reading<seq<Desc>>)
    requires Spelled(s, head) && SpelledList(head.rest, close, tail)
    ensures SpelledList(s, close, Reading([head.value] + tail.value, tail.rest))
  {
    assert ([head.value] + tail.value)[1..] == tail.value;
    Assoc(Spell(head.value), SpellList(tail.value), [close] + tail.rest);
  }

  lemma {:induction false} ReadWasSpelled(s: string, ctx: Context)
    requires Read(false, s, ctx).Some?
    ensures Spelled(s, Read(false, s, ctx).value)
    decreases |s|, 0
  {
    match s[0]
    case 'L' =>
      KlassWasSpelled(s, ctx);
    case '[' =>
      var dims := CountBrackets(s);
      ReadWasSpelled(s[dims..], InArray);
      assert s == Brackets(dims) + s[dims..];
      WrapperWasSpelled(Brackets(dims), s[dims..], Read(false, s[dims..], InArray).value);
    case 'M' =>
      ReadWasSpelled(s[1..], Top);
      var key := Read(false, s[1..], Top).value;
      ReadWasSpelled(key.rest, Top);
      MapWasSpelled(s, key, Read(false, key.rest, Top).value);
    case 'S' =>
      ReadWasSpelled(s[1..], Top);
      HeadAndTail(s);
      WrapperWasSpelled("S", s[1..], Read(false, s[1..], Top).value);
    case 'P' =>
      var args := ReadUntil(false, s[1..], ':').value;
      ReadListWasSpelled(s[1..], ':');
      ReadListWasSpelled(args.rest, ';');
      ProtoWasSpelled(s, args, ReadUntil(false, args.rest, ';').value);
    case '.' =>
      assert s == "..." + s[3..];
      if |s| > 3 && s[3] == 'A' {
        HeadAndTail(s[3..]);
        WrapperWasSpelled("...", s[3..], Reading(Base('A'), s[4..]));
      } else {
        ReadWasSpelled(s[3..], InVarg);
        WrapperWasSpelled("...", s[3..], Read(false, s[3..], InVarg).value);
      }
    case _ =>
      HeadAndTail(s);
  }

  lemma {:induction false} ReadListWasSpelled(s: string, close: char)
    requires ReadUntil(false, s, close).Some?
    ensures SpelledList(s, close, ReadUntil(false, s, close).value)
    decreases |s|, 1
  {
    if s[0] == close {
      HeadAndTail(s);
      assert s == "" + ([close] + s[1..]);
    } else {
      ReadWasSpelled(s, Top);
      var head := Read(false, s, Top).value;
      ReadListWasSpelled(head.rest, close);
      ListWasSpelled(s, close, head, ReadUntil(false, head.rest, close).value);
    }
  }

  // ---------------------------------------------------------------- main results

  /** The reader takes from the front of a text exactly what spells a descriptor in normal form, for every
      text and every descriptor, maps included. */
  lemma {:induction false} ReadsExactlyWhatIsSpelled(s: string, d: Desc, rest: string)
    ensures Read(false, s, Top) == Some(Reading(d, rest)) <==> Normal(d) && s == Spell(d) + rest
  {
    if Read(false, s, Top) == Some(Reading(d, rest)) {
      ReadIsSound(s, Top);
      ReadWasSpelled(s, Top);
    }
    if Normal(d) && s == Spell(d) + rest {
      SpelledIsRead(d, rest, Top);
    }
  }

  /** The spelling agrees with the text of the constructors exactly when there is no map. */
  lemma {:induction false} SpelledAsPrinted(d: Desc)
    requires Normal(d)
    ensures Spell(d) == Print(d) <==> !HasMap(d)
  {
    SpelledIsRead(d, "", Top);
    ReadPrinted(false, d, "", Top);
    assert Spell(d) + "" == Spell(d) && Print(d) + "" == Print(d);
    if !HasMap(d) {
      ReadWasSpelled(Print(d), Top);
    }
  }

  /** The text of a map from strings to integers, and what the reader takes for one. */
  lemma {:induction false} MapTexts()
    ensures var d := Map(Base('s'), Base('i'));
      Print(d) == "Ms:i" && Spell(d) == "Msi" && Read(false, "Msi", Top) == Some(Reading(d, ""))
  {
    var d := Map(Base('s'), Base('i'));
    assert Spell(d) == "Msi" && Normal(d);
    assert Print(d) == "Ms:i";
    hide Read, Spell, Print;
    SpelledIsRead(d, "", Top);
  }

  lemma {:induction false} Longer(d: Desc, ds: seq<Desc>)
    requires Normal(d) && NormalList(ds)
    ensures NormalList([d] + ds) && SpellList([d] + ds) == Spell(d) + SpellList(ds)
  {
    assert ([d] + ds)[1..] == ds;
  }

  lemma {:induction false} TestVarg()
    ensures var tuple := Varg(Klass(Some("lang"), "Tuple"));
      NormalList([tuple]) && SpellList([tuple]) == "...Llang.Tuple;"
  {
    var tuple := Varg(Klass(Some("lang"), "Tuple"));
    assert Spell(tuple) == "...Llang.Tuple;" && Normal(tuple);
    Longer(tuple, []);
  }

  lemma {:induction false} TestArguments()
    ensures var args := [Map(Base('s'), Base('i')), Base('s'), Varg(Klass(Some("lang"), "Tuple"))];
      NormalList(args) && SpellList(args) == "Msis...Llang.Tuple;"
  {
    var tuple := Varg(Klass(Some("lang"), "Tuple"));
    TestVarg();
    Longer(Base('s'), [tuple]);
    assert Spell(Map(Base('s'), Base('i'))) == "Msi";
    Longer(Map(Base('s'), Base('i')), [Base('s')] + [tuple]);
    hide Normal, NormalList, SpellList;
    assert [Map(Base('s'), Base('i'))] + ([Base('s')] + [tuple]) == [Map(Base('s'), Base('i')), Base('s'), tuple];
  }

  lemma {:induction false} TestResults()
    ensures var rets := [Base('i'), Array(1, Base('e')), Set(Base('b'))];
      NormalList(rets) && SpellList(rets) == "i[eSb"
  {
    Longer(Set(Base('b')), []);
    Longer(Array(1, Base('e')), [Set(Base('b'))]);
    Longer(Base('i'), [Array(1, Base('e')), Set(Base('b'))]);
  }

  lemma {:induction false} TestJoined()
    ensures "P" + ("Msis...Llang.Tuple;" + (":" + ("i[eSb" + ";"))) + "" == "PMsis...Llang.Tuple;:i[eSb;"
  {}

  /** The longest text of test/test_typedesc.c. */
  lemma {:induction false} TestText()
    ensures var args := [Map(Base('s'), Base('i')), Base('s'), Varg(Klass(Some("lang"), "Tuple"))];
      var rets := [Base('i'), Array(1, Base('e')), Set(Base('b'))];
      Read(false, "PMsis...Llang.Tuple;:i[eSb;", Top) == Some(Reading(Proto(args, rets), ""))
  {
    TestArguments();
    TestResults();
    var args := [Map(Base('s'), Base('i')), Base('s'), Varg(Klass(Some("lang"), "Tuple"))];
    var rets := [Base('i'), Array(1, Base('e')), Set(Base('b'))];
    assert Normal(Proto(args, rets));
    assert Spell(Proto(args, rets)) == "P" + (SpellList(args) + (":" + (SpellList(rets) + ";")));
    hide *;
    SpelledIsRead(Proto(args, rets), "", Top);
    TestJoined();
  }
}
