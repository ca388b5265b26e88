/** Type descriptors and their text (src/typedesc.c, include/typedesc.h). */
module TypeDesc {
  import opened Basics

  /** A descriptor.  An empty list stands for no list. */
  datatype Desc =
    | Base(kind: char)
    | Klass(path: Option<string>, name: string)
    | Proto(args: seq<Desc>, rets: seq<Desc>)
    | Array(dims: nat, base: Desc)
    | Map(key: Desc, val: Desc)
    | Set(base: Desc)
    | Varg(base: Desc)

  const BASES: set<char> := {'b', 'c', 'i', 'f', 'z', 's', 'e', 'A'}

  function Brackets(n: nat): (s: string)
    ensures |s| == n && forall i :: 0 <= i < n ==> s[i] == '['
  {
    seq(n, _ => '[')
  }

  function PathText(path: Option<string>): string {
    if path == None then "" else path.value
  }

  /** The text under which a descriptor is interned, as the TypeDesc_Get constructors build it. */
  function Print(d: Desc): string {
    match d
    case Base(kind) => [kind]
    case Klass(path, name) => "L" + (PathText(path) + ("." + (name + ";")))
    case Proto(args, rets) => "P" + (PrintList(args) + (":" + (PrintList(rets) + ";")))
    case Array(dims, base) => Brackets(dims) + Print(base)
    case Map(key, val) => "M" + (Print(key) + (":" + Print(val)))
    case Set(base) => "S" + Print(base)
    case Varg(base) => "..." + Print(base)
  }

  /** TypeList_ToString. */
  function PrintList(ds: seq<Desc>): string {
    if ds == [] then "" else Print(ds[0]) + PrintList(ds[1..])
  }

  /** Descriptors as the language builds them: an array of arrays is one descriptor with more
      dimensions, an absent path is not spelled as an empty one, names do not contain the
      punctuation of the text. */
  predicate Normal(d: Desc) {
    match d
    case Base(kind) => kind in BASES
    case Klass(path, name) =>
      && path != Some("")
      && '.' !in PathText(path) && ';' !in PathText(path) && ';' !in name
    case Proto(args, rets) => NormalList(args) && NormalList(rets)
    case Array(dims, base) => dims >= 1 && Normal(base) && !base.Array? && !base.Varg?
    case Map(key, val) => Normal(key) && Normal(val)
    case Set(base) => Normal(base)
    case Varg(base) => Normal(base) && !base.Array? && !base.Varg?
  }

  predicate NormalList(ds: seq<Desc>) {
    ds == [] || (Normal(ds[0]) && NormalList(ds[1..]))
  }

  predicate HasMap(d: Desc) {
    match d
    case Base(_) => false
    case Klass(_, _) => false
    case Proto(args, rets) => HasMapList(args) || HasMapList(rets)
    case Array(_, base) => HasMap(base)
    case Map(_, _) => true
    case Set(base) => HasMap(base)
    case Varg(base) => HasMap(base)
  }

  predicate HasMapList(ds: seq<Desc>) {
    ds != [] && (HasMap(ds[0]) || HasMapList(ds[1..]))
  }
}
