/** Scopes of the parser and the slots of local variables (src/parser.c:185-219, 551-643,
    src/symbol.c:429-477). */
module LocalSlots {

  datatype Scope = ModuleScope | ClassScope | FunctionScope | BlockScope

  class VarSymbol {
    const name: string
    var index: nat

    constructor (name: string, index: nat)
      ensures this.name == name && this.index == index
    {
      this.name := name;
      this.index := index;
    }
  }

  class STable {
    var table: map<string, VarSymbol>
    var varindex: nat

    /** STable_New: slot 0 is the module or the object itself. */
    constructor ()
      ensures table == map[] && varindex == 1
    {
      table := map[];
      varindex := 1;
    }

    /** STable_Add_Var. */
    method AddVar(name: string) returns (sym: VarSymbol?)
      modifies this
      ensures name in old(table) ==> sym == null && unchanged(this)
      ensures name !in old(table) ==>
        sym != null && fresh(sym) && sym.name == name && sym.index == old(varindex)
        && table == old(table)[name := sym] && varindex == old(varindex) + 1
    {
      if name in table {
        return null;
      }
      sym := new VarSymbol(name, varindex);
      table := table[name := sym];
      varindex := varindex + 1;
    }
  }

  class FuncSymbol {
    var locvec: seq<VarSymbol>

    constructor ()
      ensures locvec == []
    {
      locvec := [];
    }
  }

  class Unit {
    const scope: Scope
    const stbl: STable
    /** The function whose body this is, in a function scope. */
    const sym: FuncSymbol?

    constructor (scope: Scope, stbl: STable, sym: FuncSymbol?)
      ensures this.scope == scope && this.stbl == stbl && this.sym == sym
    {
      this.scope := scope;
      this.stbl := stbl;
      this.sym := sym;
    }
  }

  /** How many scopes from the innermost one on are blocks. */
  function Blocks(active: seq<Unit>): (b: nat)
    ensures b <= |active|
    ensures forall i :: 0 <= i < b ==> active[i].scope.BlockScope?
    ensures b < |active| ==> !active[b].scope.BlockScope?
  {
    if active == [] || !active[0].scope.BlockScope? then 0 else 1 + Blocks(active[1..])
  }

  /** The innermost scope that is no block is a function's. */
  predicate InFunction(active: seq<Unit>) {
    && Blocks(active) < |active|
    && active[Blocks(active)].scope.FunctionScope? && active[Blocks(active)].sym != null
  }

  function Function(active: seq<Unit>): Unit
    requires InFunction(active)
  {
    active[Blocks(active)]
  }

  /** The scopes from the function inward. */
  function Chain(active: seq<Unit>): seq<Unit>
    requires InFunction(active)
  {
    active[..Blocks(active) + 1]
  }

  /** The scope at depth d is a function's, and all further in are blocks. */
  ghost predicate FunctionAt(active: seq<Unit>, d: nat) {
    && d < |active| && active[d].scope == FunctionScope && active[d].sym != null
    && forall i :: 0 <= i < d ==> active[i].scope == BlockScope
  }

  lemma {:induction false} FunctionIsAt(active: seq<Unit>, d: nat)
    requires FunctionAt(active, d)
    ensures InFunction(active) && Blocks(active) == d && Function(active) == active[d]
  {}

  lemma {:induction false} NoFunctionAt(active: seq<Unit>)
    requires forall d: nat :: d < |active| ==> !FunctionAt(active, d)
    ensures !InFunction(active)
  {
    if InFunction(active) {
      assert FunctionAt(active, Blocks(active));
    }
  }

  /** The i-th variable of a function has slot i + 1, and the next one gets the slot after the last. */
  ghost predicate SlotsOk(stbl: STable, f: FuncSymbol)
    reads stbl`varindex, f, f.locvec
  {
    && stbl.varindex == |f.locvec| + 1
    && forall i :: 0 <= i < |f.locvec| ==> f.locvec[i].index == i + 1
  }

  ghost function Tables(active: seq<Unit>): (s: seq<STable>)
    ensures |s| == |active| && forall i :: 0 <= i < |s| ==> s[i] == active[i].stbl
  {
    seq(|active|, i requires 0 <= i < |active| => active[i].stbl)
  }

  /** No name is declared in two of the tables. */
  ghost predicate NamesDistinct(tables: seq<STable>)
    reads tables`table
  {
    forall i, j, name :: 0 <= i < j < |tables| && name in tables[i].table ==> name !in tables[j].table
  }

  /** Every variable in scope has a slot of the function. */
  ghost predicate HaveSlots(tables: seq<STable>, f: FuncSymbol)
    reads tables`table, f
  {
    forall i, name :: 0 <= i < |tables| && name in tables[i].table ==>
      tables[i].table[name].name == name && tables[i].table[name] in f.locvec
  }

  /** Scopes open at one time: functions only directly inside modules and classes, each with its own table. */
  ghost predicate ShapeOk(active: seq<Unit>) {
    && (forall i, j :: 0 <= i < j < |active| ==> active[i].stbl != active[j].stbl)
    && (forall i :: 0 <= i < |active| && active[i].scope.FunctionScope? ==> active[i].sym != null)
    && (forall i :: Blocks(active) < i < |active| ==> active[i].scope.ModuleScope? || active[i].scope.ClassScope?)
  }

  /** The local variables of the function being parsed. */
  ghost predicate LocalsOk(active: seq<Unit>, tables: set<STable>, vars: set<VarSymbol>)
    requires InFunction(active)
    reads tables, vars, Function(active).sym
  {
    var f, chain := Function(active), Tables(Chain(active));
    && f.stbl in tables && (forall v :: v in f.sym.locvec ==> v in vars) && (forall t :: t in chain ==> t in tables)
    && SlotsOk(f.stbl, f.sym) && NamesDistinct(chain) && HaveSlots(chain, f.sym)
  }

  lemma {:induction false} BlocksPush(unit: Unit, active: seq<Unit>)
    ensures var more := [unit] + active;
      if unit.scope.BlockScope? then
        && Blocks(more) == 1 + Blocks(active) && (InFunction(more) <==> InFunction(active))
        && (InFunction(active) ==> Function(more) == Function(active) && Chain(more) == [unit] + Chain(active))
        && (InFunction(active) ==> Tables(Chain(more)) == [unit.stbl] + Tables(Chain(active)))
      else
        && Blocks(more) == 0 && (InFunction(more) <==> unit.scope.FunctionScope? && unit.sym != null)
        && (InFunction(more) ==> Function(more) == unit && Chain(more) == [unit] && Tables(Chain(more)) == [unit.stbl])
  {
    var more := [unit] + active;
    assert more[0] == unit && more[1..] == active;
  }

  /** The tables further out have distinct names and slots of their own. */
  lemma {:induction false} ChainPop(block: STable, chain: seq<STable>, f: FuncSymbol)
    requires NamesDistinct([block] + chain) && HaveSlots([block] + chain, f)
    ensures NamesDistinct(chain) && HaveSlots(chain, f)
  {
    var more := [block] + chain;
    forall i, j, name | 0 <= i < j < |chain| && name in chain[i].table
      ensures name !in chain[j].table
    {
      assert more[i + 1] == chain[i] && more[j + 1] == chain[j];
    }
    forall i, name | 0 <= i < |chain| && name in chain[i].table
      ensures chain[i].table[name].name == name && chain[i].table[name] in f.locvec
    {
      assert more[i + 1] == chain[i];
    }
  }

  /** Leaving a block. */
  lemma {:induction false} LocalsPop(unit: Unit, active: seq<Unit>, tables: set<STable>, vars: set<VarSymbol>)
    requires unit.scope.BlockScope? && InFunction([unit] + active) && LocalsOk([unit] + active, tables, vars)
    ensures InFunction(active) && LocalsOk(active, tables, vars)
    ensures Function(active) == Function([unit] + active)
  {
    hide Tables, Chain, Blocks;
    BlocksPush(unit, active);
    var more, chain := Tables(Chain([unit] + active)), Tables(Chain(active));
    assert more == [unit.stbl] + chain;
    forall i | 0 <= i < |chain|
      ensures chain[i] in tables
    {
      assert more[i + 1] in more;
    }
    ChainPop(unit.stbl, chain, Function(active).sym);
  }

  /** Entering a block, whose table is empty. */
  lemma {:induction false} LocalsPush(unit: Unit, active: seq<Unit>, tables: set<STable>, vars: set<VarSymbol>)
    requires unit.scope.BlockScope? && InFunction(active) && LocalsOk(active, tables, vars)
    requires unit.stbl.table == map[]
    ensures InFunction([unit] + active) && LocalsOk([unit] + active, tables + {unit.stbl}, vars)
    ensures Function([unit] + active) == Function(active)
  {
    BlocksPush(unit, active);
    var more, chain := Tables(Chain([unit] + active)), Tables(Chain(active));
    forall i | 0 <= i < |more|
      ensures i > 0 ==> more[i] == chain[i - 1]
      ensures more[i] in tables + {unit.stbl}
    {
      if i > 0 {
        assert chain[i - 1] in chain;
      }
    }
  }

  lemma {:induction false} ShapePop(unit: Unit, active: seq<Unit>)
    requires ShapeOk([unit] + active)
    ensures ShapeOk(active)
    ensures !unit.scope.BlockScope? ==> !InFunction(active)
  {
    BlocksPush(unit, active);
    var more := [unit] + active;
    assert forall i :: 0 <= i < |active| ==> active[i] == more[i + 1];
  }

  lemma {:induction false} ShapePush(unit: Unit, active: seq<Unit>)
    requires ShapeOk(active) && forall t :: t in active ==> t.stbl != unit.stbl
    requires unit.scope.FunctionScope? ==> unit.sym != null
    requires !unit.scope.BlockScope? ==> forall t :: t in active ==> t.scope.ModuleScope? || t.scope.ClassScope?
    ensures ShapeOk([unit] + active)
  {
    BlocksPush(unit, active);
    var more := [unit] + active;
    forall i | 0 < i < |more|
      ensures more[i] == active[i - 1] && more[i].stbl != unit.stbl
    {
      assert active[i - 1] in active;
    }
  }

  /** The end of a declaration in a block, once the name is known to be free further out: the variable goes
      to the block's table and gets the function's next slot. */
  method AddSlot(block: STable, stbl: STable, f: FuncSymbol, name: string, ghost chain: seq<STable>)
    returns (sym: VarSymbol?)
    requires |chain| > 1 && chain[0] == block && chain[|chain| - 1] == stbl
    requires forall i, j :: 0 <= i < j < |chain| ==> chain[i] != chain[j]
    requires SlotsOk(stbl, f) && NamesDistinct(chain) && HaveSlots(chain, f)
    requires forall i :: 1 <= i < |chain| ==> name !in chain[i].table
    modifies block, stbl`varindex, f`locvec
    ensures SlotsOk(stbl, f) && NamesDistinct(chain) && HaveSlots(chain, f)
    ensures sym == null <==> name in old(block.table)
    ensures sym == null ==> unchanged(block, stbl, f)
    ensures sym != null ==> fresh(sym) && sym.name == name && block.table == old(block.table)[name := sym]
    ensures sym != null ==>
            f.locvec == old(f.locvec) + [sym] && sym.index == |f.locvec| && stbl.table == old(stbl.table)
  {
    sym := block.AddVar(name);
    if sym == null {
      return null;
    }
    sym.index := stbl.varindex;
    stbl.varindex := stbl.varindex + 1;
    f.locvec := f.locvec + [sym];
    assert f.locvec[|f.locvec| - 1] == sym;
    forall i, n | 0 <= i < |chain| && n in chain[i].table
      ensures chain[i].table[n].name == n && chain[i].table[n] in f.locvec
    {
      if !(i == 0 && n == name) {
        assert old(chain[i].table[n]) in old(f.locvec);
      }
    }
  }

  lemma {:induction false} ChainDistinct(active: seq<Unit>)
    requires ShapeOk(active) && InFunction(active)
    ensures var chain := Tables(Chain(active));
      && |chain| == Blocks(active) + 1 && chain[|chain| - 1] == Function(active).stbl && chain[0] == active[0].stbl
      && (forall i, j :: 0 <= i < j < |chain| ==> chain[i] != chain[j])
      && (forall i :: 0 <= i < |chain| ==> chain[i] == Tables(active)[i])
  {}

  ghost predicate Ok(active: seq<Unit>, tables: set<STable>, funcs: set<FuncSymbol>, vars: set<VarSymbol>)
    reads tables, funcs, vars
  {
    && ShapeOk(active)
    && (forall t :: t in active ==> t.stbl in tables)
    && (InFunction(active) ==> Function(active).sym in funcs && LocalsOk(active, tables, vars))
  }

  lemma {:induction false} OkPushBlock(unit: Unit, active: seq<Unit>, tables: set<STable>, funcs: set<FuncSymbol>,
          vars: set<VarSymbol>)
    requires Ok(active, tables, funcs, vars) && unit.scope.BlockScope? && unit.sym == null
    requires unit.stbl !in tables && unit.stbl.table == map[]
    ensures Ok([unit] + active, tables + {unit.stbl}, funcs, vars)
  {
    hide LocalsOk, ShapeOk, Blocks;
    ShapePush(unit, active);
    BlocksPush(unit, active);
    if InFunction(active) {
      LocalsPush(unit, active, tables, vars);
    }
  }

  lemma {:induction false} OkPushFunction(unit: Unit, active: seq<Unit>, tables: set<STable>,
          funcs: set<FuncSymbol>, vars: set<VarSymbol>)
    requires Ok(active, tables, funcs, vars) && unit.scope.FunctionScope? && unit.sym != null && unit.sym.locvec == []
    requires active != [] && (active[0].scope.ModuleScope? || active[0].scope.ClassScope?)
    requires unit.stbl !in tables && unit.stbl.table == map[] && unit.stbl.varindex == 1
    ensures Ok([unit] + active, tables + {unit.stbl}, funcs + {unit.sym}, vars)
  {
    BlocksPush(unit, active);
  }

  /** Ok, taken apart in a function. */
  lemma {:induction false} OkIs(active: seq<Unit>, tables: set<STable>, funcs: set<FuncSymbol>, vars: set<VarSymbol>)
    requires InFunction(active)
    ensures var f, chain := Function(active), Tables(Chain(active));
      Ok(active, tables, funcs, vars) <==>
        && ShapeOk(active) && (forall t :: t in active ==> t.stbl in tables) && f.sym in funcs
        && f.stbl in tables && (forall v :: v in f.sym.locvec ==> v in vars) && (forall t :: t in chain ==> t in tables)
        && SlotsOk(f.stbl, f.sym) && NamesDistinct(chain) && HaveSlots(chain, f.sym)
  {}

  lemma {:induction false} OkPop(unit: Unit, active: seq<Unit>, tables: set<STable>, funcs: set<FuncSymbol>,
          vars: set<VarSymbol>)
    requires Ok([unit] + active, tables, funcs, vars)
    ensures Ok(active, tables, funcs, vars)
  {
    hide LocalsOk, ShapeOk, Blocks;
    ShapePop(unit, active);
    BlocksPush(unit, active);
    if InFunction([unit] + active) && unit.scope.BlockScope? {
      LocalsPop(unit, active, tables, vars);
    }
    forall t | t in active
      ensures t.stbl in tables
    {
      assert t in [unit] + active;
    }
  }

  /** Of the variables visible at one place in a function, no two have the same slot or the same name, and
      slots go from 1 to the number of variables declared so far. */
  lemma {:induction false} VisibleSlotsAreDistinct(active: seq<Unit>, tables: set<STable>, vars: set<VarSymbol>,
      i: nat, n: string, j: nat, m: string)
    requires InFunction(active) && LocalsOk(active, tables, vars)
    requires var chain := Tables(Chain(active));
      i < |chain| && j < |chain| && n in chain[i].table && m in chain[j].table
    ensures var chain := Tables(Chain(active));
      var v, w := chain[i].table[n], chain[j].table[m];
      && (v.index == w.index <==> n == m) && (n == m ==> i == j)
      && 1 <= v.index <= |Function(active).sym.locvec|
  {
    var chain, f := Tables(Chain(active)), Function(active).sym;
    var v, w := chain[i].table[n], chain[j].table[m];
    assert v in f.locvec && w in f.locvec;
    var p :| 0 <= p < |f.locvec| && f.locvec[p] == v;
    var q :| 0 <= q < |f.locvec| && f.locvec[q] == w;
  }

  class Parser {
    var u: Unit?
    var ustack: seq<Unit>
    var depth: int
    /** What the parser may change. */
    ghost var tables: set<STable>
    ghost var funcs: set<FuncSymbol>
    ghost var vars: set<VarSymbol>

    /** The open scopes, innermost first. */
    ghost function Active(): seq<Unit>
      reads this`u, this`ustack
    {
      if u == null then ustack else [u] + ustack
    }

    ghost predicate Valid()
      reads this, tables, funcs, vars
    {
      && (u == null ==> ustack == []) && depth == |Active()|
      && Ok(Active(), tables, funcs, vars)
    }

    constructor ()
      ensures Valid() && Active() == []
    {
      u := null;
      ustack := [];
      depth := 0;
      tables := {};
      funcs := {};
      vars := {};
    }

    /** Parser_Enter_Scope, with the table and the function that its callers set. */
    method Enter(unit: Unit)
      requires (u == null ==> ustack == []) && depth == |Active()|
      modifies this
      ensures u == unit && Active() == [unit] + old(Active()) && depth == |Active()|
      ensures tables == old(tables) + {unit.stbl} && vars == old(vars)
      ensures funcs == old(funcs) + (if unit.sym == null then {} else {unit.sym})
    {
      if u != null {
        ustack := [u] + ustack;
      }
      u := unit;
      depth := depth + 1;
      tables := tables + {unit.stbl};
      funcs := funcs + (if unit.sym == null then {} else {unit.sym});
    }

    /** Entering a module, or a class inside it. */
    method EnterOuter(scope: Scope, stbl: STable)
      requires Valid() && (scope.ModuleScope? || scope.ClassScope?) && forall t :: t in Active() ==> t.stbl != stbl
      requires forall t :: t in Active() ==> t.scope.ModuleScope? || t.scope.ClassScope?
      modifies this
      ensures Valid() && u != null && Active() == [u] + old(Active())
      ensures u.scope == scope && u.stbl == stbl
    {
      var unit := new Unit(scope, stbl, null);
      BlocksPush(unit, Active());
      Enter(unit);
    }

    /** Entering a function: in a module or a class, for a function not parsed before. */
    method EnterFunction(sym: FuncSymbol)
      requires Valid() && Active() != [] && (Active()[0].scope.ModuleScope? || Active()[0].scope.ClassScope?)
      requires sym.locvec == []
      modifies this
      ensures Valid() && u != null && Active() == [u] + old(Active())
      ensures u.scope == FunctionScope && u.sym == sym && fresh(u.stbl) && u.stbl.table == map[]
      ensures fresh(tables - old(tables)) && funcs == old(funcs) + {sym} && vars == old(vars)
    {
      hide Ok, Blocks, InFunction;
      var stbl := new STable();
      var unit := new Unit(FunctionScope, stbl, sym);
      OkPushFunction(unit, Active(), tables, funcs, vars);
      Enter(unit);
    }

    method EnterBlock()
      requires Valid()
      modifies this
      ensures Valid() && u != null && Active() == [u] + old(Active())
      ensures u.scope == BlockScope && fresh(u.stbl) && u.stbl.table == map[]
      ensures fresh(tables - old(tables)) && funcs == old(funcs) && vars == old(vars)
    {
      hide Ok, Blocks, InFunction;
      var stbl := new STable();
      var unit := new Unit(BlockScope, stbl, null);
      OkPushBlock(unit, Active(), tables, funcs, vars);
      Enter(unit);
      assert funcs == old(funcs) && tables == old(tables) + {stbl};
    }

    /** Parser_Exit_Scope. */
    method Exit()
      requires Valid() && u != null
      modifies this`u, this`ustack, this`depth
      ensures Valid() && Active() == old(Active())[1..] && depth == old(depth) - 1
    {
      hide Ok, Blocks, InFunction;
      OkPop(u, ustack, tables, funcs, vars);
      if ustack != [] {
        u := ustack[0];
        ustack := ustack[1..];
        assert Active() == old(ustack);
      } else {
        u := null;
      }
      depth := depth - 1;
    }

    lemma AboutFunctions()
      ensures forall d: nat :: FunctionAt(Active(), d) ==>
        InFunction(Active()) && Blocks(Active()) == d && Function(Active()) == Active()[d]
      ensures (forall d: nat :: d < |Active()| ==> !FunctionAt(Active(), d)) ==> !InFunction(Active())
    {
      forall d: nat | FunctionAt(Active(), d)
        ensures InFunction(Active()) && Blocks(Active()) == d && Function(Active()) == Active()[d]
      {
        FunctionIsAt(Active(), d);
      }
      if forall d: nat :: d < |Active()| ==> !FunctionAt(Active(), d) {
        NoFunctionAt(Active());
      }
    }

    /** parse_block_variable: the function's scope, unless the name is taken on the way to it. */
    method FunctionAbove(name: string) returns (uu: Unit?)
      requires Valid() && u != null && u.scope.BlockScope?
      ensures uu != null <==>
              InFunction(Active()) && forall i :: 1 <= i <= Blocks(Active()) ==> name !in Active()[i].stbl.table
      ensures uu != null ==> uu == Function(Active())
      ensures forall d: nat :: FunctionAt(Active(), d) ==>
        uu == if forall i :: 1 <= i <= d ==> name !in Active()[i].stbl.table then Active()[d] else null
      ensures (forall d: nat :: d < |Active()| ==> !FunctionAt(Active(), d)) ==> uu == null
    {
      assert ShapeOk(Active());
      AboutFunctions();
      hide FunctionAt;
      hide Ok;
      BlocksPush(u, ustack);
      for j := 0 to |ustack|
        invariant j > Blocks(ustack) ==> !InFunction(ustack)
        invariant forall i :: 0 <= i < j ==> name !in ustack[i].stbl.table
      {
        assert ustack[j] == Active()[j + 1];
        if name in ustack[j].stbl.table {
          return null;
        }
        if ustack[j].scope.FunctionScope? {
          return ustack[j];
        }
      }
      return null;
    }

    /** The name is declared nowhere from the function inward. */
    ghost predicate NameFree(name: string)
      requires InFunction(Active())
      reads this, Tables(Active())`table
    {
      forall i :: 0 <= i <= Blocks(Active()) ==> name !in Tables(Active())[i].table
    }

    /** update_add_variable in a function scope. */
    method DeclareInFunction(name: string) returns (sym: VarSymbol?)
      requires Valid() && InFunction(Active()) && u != null && u.scope.FunctionScope?
      modifies this`vars, u.stbl, u.sym
      ensures Valid() && (sym != null <==> old(NameFree(name)))
      ensures sym != null <==> name !in old(u.stbl.table)
      ensures sym == null ==> unchanged(u.stbl) && unchanged(u.sym) && vars == old(vars)
      ensures sym != null ==> fresh(sym) && sym.name == name && u.sym.locvec == old(u.sym.locvec) + [sym]
      ensures sym != null ==> u.stbl.table == old(u.stbl.table)[name := sym] && sym.index == |u.sym.locvec|
    {
      BlocksPush(u, ustack);
      assert Tables(Active())[0] == u.stbl;
      sym := u.stbl.AddVar(name);
      if sym == null {
        return null;
      }
      var f := u.sym;
      f.locvec := f.locvec + [sym];
      vars := vars + {sym};
    }

    /** update_add_variable in a block: the slot is the function's next one, not the block's. */
    method DeclareInBlock(name: string) returns (sym: VarSymbol?)
      requires Valid() && u != null && u.scope.BlockScope?
      modifies this`vars, u.stbl, if InFunction(Active()) then {Function(Active()).stbl, Function(Active()).sym} else {}
      ensures Valid() && (sym != null <==> InFunction(Active()) && old(NameFree(name)))
      ensures sym == null ==> unchanged(u.stbl) && vars == old(vars)
      ensures sym == null && InFunction(Active()) ==>
              unchanged(Function(Active()).stbl) && unchanged(Function(Active()).sym)
      ensures sym != null ==> fresh(sym) && sym.name == name && u.stbl.table == old(u.stbl.table)[name := sym]
      ensures sym != null ==>
        var f := Function(Active());
        && f.sym.locvec == old(f.sym.locvec) + [sym] && sym.index == |f.sym.locvec| && f.stbl.table == old(f.stbl.table)
      ensures forall d: nat :: FunctionAt(Active(), d) ==>
        && (sym != null <==> forall i :: 0 <= i <= d ==> name !in old(Active()[i].stbl.table))
        && (sym == null ==> Active()[d].sym.locvec == old(Active()[d].sym.locvec))
        && (sym != null ==> Active()[d].sym.locvec == old(Active()[d].sym.locvec) + [sym])
        && (sym != null ==> sym.index == |Active()[d].sym.locvec|)
      ensures (forall d: nat :: d < |Active()| ==> !FunctionAt(Active(), d)) ==> sym == null
    {
      AboutFunctions();
      hide Ok, ShapeOk, Blocks, NameFree, Tables, FunctionAt;
      FreeMeans(name);
      assert Active()[0] == u;
      assert InFunction(Active()) ==>
        (NameFree(name) <==> forall i :: 0 <= i <= Blocks(Active()) ==> name !in Active()[i].stbl.table);
      var uu := FunctionAbove(name);
      if uu == null {
        return null;
      }
      sym := DeclareFor(uu, name);
    }

    /** What follows once the function's scope is found. */
    method DeclareFor(uu: Unit, name: string) returns (sym: VarSymbol?)
      requires Valid() && u != null && u.scope.BlockScope? && InFunction(Active()) && uu == Function(Active())
      requires forall i :: 1 <= i <= Blocks(Active()) ==> name !in Active()[i].stbl.table
      modifies this`vars, u.stbl, uu.stbl, uu.sym
      ensures Valid() && (sym == null <==> name in old(u.stbl.table))
      ensures sym == null ==> unchanged(u.stbl, uu.stbl, uu.sym) && vars == old(vars)
      ensures sym != null ==> fresh(sym) && sym.name == name && u.stbl.table == old(u.stbl.table)[name := sym]
      ensures sym != null ==> uu.sym.locvec == old(uu.sym.locvec) + [sym] && sym.index == |uu.sym.locvec|
      ensures sym != null ==> uu.stbl.table == old(uu.stbl.table)
    {
      hide Ok, ShapeOk, Blocks, SlotsOk, NamesDistinct, HaveSlots, NameFree, Tables, Chain;
      BlocksPush(u, ustack);
      FreeMeans(name);
      OkIs(Active(), tables, funcs, vars);
      ChainDistinct(Active());
      sym := AddSlot(u.stbl, uu.stbl, uu.sym, name, Tables(Chain(Active())));
      if sym == null {
        return null;
      }
      vars := vars + {sym};
      OkIs(Active(), tables, funcs, vars);
    }

    lemma FreeMeans(name: string)
      requires Valid() && u != null && u.scope.BlockScope?
      ensures InFunction(Active()) ==> (NameFree(name) <==>
        name !in u.stbl.table && forall i :: 1 <= i <= Blocks(Active()) ==> name !in Active()[i].stbl.table)
      ensures InFunction(Active()) ==>
        forall i :: 0 <= i < |Tables(Chain(Active()))| ==> Tables(Chain(Active()))[i] == Active()[i].stbl
    {
      if InFunction(Active()) {
        ChainDistinct(Active());
        assert Active()[0] == u;
        assert forall i :: 0 <= i <= Blocks(Active()) ==> Tables(Active())[i] == Active()[i].stbl;
      }
    }
  }
}
