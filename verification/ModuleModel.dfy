/** The kernel module loader as a state machine: registered modules, the loaded set, the symbol index. */
module ModuleModel {
  import opened Prelude

  /** The immutable part of a KernelModule. */
  datatype Module = Module(dependencies: seq<string>, exports: seq<string>)

  datatype Loader = Loader(
    enabled: bool,
    available: map<string, Module>,
    loaded: set<string>,
    symbols: map<string, string>)

  datatype Op = OpLoad(name: string) | OpUnload(name: string)

  // ---------------------------------------------------------------- operations

  predicate DepsLoaded(s: Loader, name: string)
    requires name in s.available
  {
    forall d :: d in s.available[name].dependencies ==> d in s.available && d in s.loaded
  }

  /** `for sym in exports: table[sym] = name`. */
  function AddSymbols(table: map<string, string>, exports: seq<string>, name: string): map<string, string>
    decreases |exports|
  {
    if exports == [] then table else AddSymbols(table[exports[0] := name], exports[1..], name)
  }

  /** `for sym in exports: table.pop(sym, None)`. */
  function DropSymbols(table: map<string, string>, exports: seq<string>): map<string, string> {
    if exports == [] then table else DropSymbols(table - {exports[0]}, exports[1..])
  }

  function Load(s: Loader, name: string): (Loader, bool) {
    if !s.enabled || name !in s.available then (s, false)
    else if name in s.loaded then (s, true)
    else if !DepsLoaded(s, name) then (s, false)
    else
      (s.(loaded := s.loaded + {name},
          symbols := AddSymbols(s.symbols, s.available[name].exports, name)), true)
  }

  /** Some loaded module still lists `name` as a dependency. */
  predicate Needed(s: Loader, name: string) {
    exists o :: o in s.available && o in s.loaded && name in s.available[o].dependencies
  }

  function Unload(s: Loader, name: string): (Loader, bool) {
    if name !in s.available || name !in s.loaded || Needed(s, name) then (s, false)
    else
      (s.(loaded := s.loaded - {name},
          symbols := DropSymbols(s.symbols, s.available[name].exports)), true)
  }

  /** Registering replaces whatever was known under that name, its loaded flag included. */
  function Register(s: Loader, name: string, m: Module, isLoaded: bool): Loader {
    s.(available := s.available[name := m],
       loaded := if isLoaded then s.loaded + {name} else s.loaded - {name})
  }

  function Step(s: Loader, op: Op): Loader {
    match op
    case OpLoad(n) => Load(s, n).0
    case OpUnload(n) => Unload(s, n).0
  }

  function Run(s: Loader, ops: seq<Op>): Loader
    decreases |ops|
  {
    if ops == [] then s else Run(Step(s, ops[0]), ops[1..])
  }

  lemma {:induction false} AddSymbolsContents(table: map<string, string>, exports: seq<string>, name: string)
    ensures AddSymbols(table, exports, name).Keys == table.Keys + set e | e in exports
    ensures forall e :: e in AddSymbols(table, exports, name) ==>
              AddSymbols(table, exports, name)[e] == if e in exports then name else table[e]
    decreases |exports|
  {
    if exports != [] {
      AddSymbolsContents(table[exports[0] := name], exports[1..], name);
      assert forall e :: e in exports <==> e == exports[0] || e in exports[1..];
    }
  }

  lemma {:induction false} DropSymbolsContents(table: map<string, string>, exports: seq<string>)
    ensures DropSymbols(table, exports) == table - set e | e in exports
    decreases |exports|
  {
    if exports != [] {
      DropSymbolsContents(table - {exports[0]}, exports[1..]);
      assert forall e :: e in exports <==> e == exports[0] || e in exports[1..];
    }
  }

  // ---------------------------------------------------------------- dependency safety

  /**
   `order` lists the loaded modules with every dependency before its dependents: a witness that
   loaded modules have all their dependencies loaded and that the dependency graph is acyclic.
   */
  ghost predicate LoadOrder(s: Loader, order: seq<string>) {
    && NoDup(order)
    && (forall n :: n in order <==> n in s.loaded)
    && s.loaded <= s.available.Keys
    && (forall i, d :: 0 <= i < |order| && d in s.available[order[i]].dependencies ==> d in order[..i])
  }

  /** The symbol index names only loaded modules, for symbols they export. */
  ghost predicate SymbolsSound(s: Loader) {
    forall e :: e in s.symbols ==>
      s.symbols[e] in s.loaded && s.symbols[e] in s.available && e in s.available[s.symbols[e]].exports
  }

  ghost predicate Inv(s: Loader) {
    SymbolsSound(s) && exists order :: LoadOrder(s, order)
  }

  lemma EmptyInv(enabled: bool, available: map<string, Module>)
    ensures Inv(Loader(enabled, available, {}, map[]))
  {
    assert LoadOrder(Loader(enabled, available, {}, map[]), []);
  }

  lemma LoadKeepsOrder(s: Loader, name: string, order: seq<string>) returns (order': seq<string>)
    requires LoadOrder(s, order)
    ensures LoadOrder(Load(s, name).0, order')
  {
    if Load(s, name).0 == s {
      order' := order;
    } else {
      order' := order + [name];
      var s' := Load(s, name).0;
      AppendNoDup(order, name);
      forall i, d | 0 <= i < |order'| && d in s'.available[order'[i]].dependencies
        ensures d in order'[..i]
      {
        if i < |order| {
          assert order'[i] == order[i] && order'[..i] == order[..i];
        } else {
          assert order'[..i] == order;
        }
      }
    }
  }

  lemma UnloadKeepsOrder(s: Loader, name: string, order: seq<string>) returns (order': seq<string>)
    requires LoadOrder(s, order)
    ensures LoadOrder(Unload(s, name).0, order')
  {
    if Unload(s, name).0 == s {
      order' := order;
    } else {
      var k :| 0 <= k < |order| && order[k] == name;
      order' := order[..k] + order[k + 1..];
      var s' := Unload(s, name).0;
      CutMembers(order, k);
      forall i, d | 0 <= i < |order'| && d in s'.available[order'[i]].dependencies
        ensures d in order'[..i]
      {
        var j := if i < k then i else i + 1;
        var n := order[j];
        assert order'[i] == n && n in order;
        assert n in s.loaded && d != name;
        assert d in order[..j];
        CutPrefix(order, k, i, d);
      }
    }
  }

  lemma CutMembers(order: seq<string>, k: nat)
    requires k < |order| && NoDup(order)
    ensures NoDup(order[..k] + order[k + 1..])
    ensures forall n :: n in order[..k] + order[k + 1..] <==> n in order && n != order[k]
  {
    assert order == order[..k] + [order[k]] + order[k + 1..];
  }

  lemma CutPrefix(order: seq<string>, k: nat, i: nat, d: string)
    requires k < |order| && i < |order| - 1 && d != order[k]
    requires d in order[..if i < k then i else i + 1]
    ensures d in (order[..k] + order[k + 1..])[..i]
  {
    var cut := order[..k] + order[k + 1..];
    var j := if i < k then i else i + 1;
    var m :| 0 <= m < j && order[m] == d;
    assert cut[..i][if m < k then m else m - 1] == d;
  }

  lemma StepKeepsSymbols(s: Loader, op: Op)
    requires SymbolsSound(s)
    ensures SymbolsSound(Step(s, op))
  {
    match op
    case OpLoad(n) =>
      if Load(s, n).0 != s {
        AddSymbolsContents(s.symbols, s.available[n].exports, n);
      }
    case OpUnload(n) =>
      if Unload(s, n).0 != s {
        DropSymbolsContents(s.symbols, s.available[n].exports);
      }
  }

  /** Loading and unloading keep dependencies loaded, the graph acyclic and the index sound. */
  lemma StepKeepsInv(s: Loader, op: Op)
    requires Inv(s)
    ensures Inv(Step(s, op))
  {
    StepKeepsSymbols(s, op);
    var order :| LoadOrder(s, order);
    var order';
    match op {
      case OpLoad(n) => order' := LoadKeepsOrder(s, n, order);
      case OpUnload(n) => order' := UnloadKeepsOrder(s, n, order);
    }
  }

  /** Dependency safety and symbol soundness hold after every run, overlapping exports included. */
  lemma {:induction false} RunKeepsInv(s: Loader, ops: seq<Op>)
    requires Inv(s)
    ensures Inv(Run(s, ops))
    ensures Run(s, ops).available == s.available && Run(s, ops).enabled == s.enabled
    decreases |ops|
  {
    if ops != [] {
      StepKeepsInv(s, ops[0]);
      RunKeepsInv(Step(s, ops[0]), ops[1..]);
    }
  }

  /** What the witness order means: dependencies of loaded modules are loaded. */
  lemma InvDependenciesLoaded(s: Loader, name: string, d: string)
    requires Inv(s) && name in s.loaded
    ensures name in s.available
    ensures d in s.available[name].dependencies ==> d in s.loaded && d != name
  {
    var order :| LoadOrder(s, order);
    var i :| 0 <= i < |order| && order[i] == name;
    if d in s.available[name].dependencies {
      assert d in order[..i];
    }
  }

  /**
   Registering a module that is not loaded is harmless exactly when the name is not loaded, or no loaded module needs it
   and the index has no entry for it left behind.
   */
  lemma RegisterKeepsInvExactly(s: Loader, name: string, m: Module)
    requires Inv(s)
    ensures Inv(Register(s, name, m, false)) <==>
              name !in s.loaded || (!Needed(s, name) && forall e :: e in s.symbols ==> s.symbols[e] != name)
  {
    var s' := Register(s, name, m, false);
    var order :| LoadOrder(s, order);
    if name !in s.loaded {
      assert LoadOrder(s', order);
    } else if Needed(s, name) {
      var o :| o in s.available && o in s.loaded && name in s.available[o].dependencies;
      InvDependenciesLoaded(s, o, name);
      if Inv(s') {
        InvDependenciesLoaded(s', o, name);
      }
    } else {
      var order' := UnloadKeepsOrder(s, name, order);
      assert forall x :: x in order' ==> x != name;
      forall i, d | 0 <= i < |order'| && d in s'.available[order'[i]].dependencies
        ensures d in order'[..i]
      {
        var x := order'[i];
        assert x in order';
      }
      assert LoadOrder(s', order');
    }
  }

  // ---------------------------------------------------------------- dependency paths

  /** p[0] depends on p[1], which depends on p[2], and so on; only the last may be unregistered. */
  ghost predicate Path(available: map<string, Module>, p: seq<string>) {
    && p != []
    && forall i :: 0 <= i < |p| - 1 ==> p[i] in available && p[i + 1] in available[p[i]].dependencies
  }

  /** A module list that comes back to where it started. */
  ghost predicate Cycle(available: map<string, Module>, p: seq<string>) {
    Path(available, p) && |p| >= 2 && p[0] == p[|p| - 1]
  }

  /** Along a dependency path everything is loaded, each strictly earlier than the one before. */
  lemma {:induction false} PathDescends(s: Loader, order: seq<string>, p: seq<string>, i: nat) returns (j: nat)
    requires LoadOrder(s, order) && Path(s.available, p)
    requires i < |order| && order[i] == p[0]
    ensures j < |order| && order[j] == p[|p| - 1]
    ensures |p| >= 2 ==> j < i
    decreases |p|
  {
    if |p| == 1 {
      j := i;
    } else {
      assert p[1] in s.available[p[0]].dependencies;
      assert p[1] in order[..i];
      var m: nat :| m < i && order[m] == p[1];
      assert Path(s.available, p[1..]) by {
        forall x | 0 <= x < |p[1..]| - 1
          ensures p[1..][x] in s.available && p[1..][x + 1] in s.available[p[1..][x]].dependencies
        {
          assert p[1..][x] == p[x + 1] && p[1..][x + 1] == p[x + 1 + 1];
        }
      }
      j := PathDescends(s, order, p[1..], m);
    }
  }

  /** No loaded module lies on a dependency cycle. */
  lemma LoadedAcyclic(s: Loader, p: seq<string>)
    requires Inv(s) && Cycle(s.available, p)
    ensures p[0] !in s.loaded
  {
    if p[0] in s.loaded {
      var order :| LoadOrder(s, order);
      var i :| 0 <= i < |order| && order[i] == p[0];
      var j := PathDescends(s, order, p, i);
    }
  }

  // ---------------------------------------------------------------- symbols

  /** No two modules export the same symbol. */
  ghost predicate DisjointExports(available: map<string, Module>) {
    forall m, n, e :: m in available && n in available && m != n && e in available[m].exports ==>
      e !in available[n].exports
  }

  /** The index is exactly the union of the exports of the loaded modules. */
  ghost predicate SymbolsExact(s: Loader) {
    && SymbolsSound(s)
    && forall n, e :: n in s.loaded && n in s.available && e in s.available[n].exports ==> e in s.symbols
  }

  /** A loaded module other than `name` exports e, which `name` exports too. */
  ghost predicate SharesSymbol(s: Loader, name: string, m: string, e: string)
    requires name in s.available
  {
    m in s.loaded && m in s.available && m != name && e in s.available[m].exports && e in s.available[name].exports
  }

  /** Loading never loses completeness; unloading n keeps it exactly when n shares no symbol with a loaded module. */
  lemma StepKeepsExact(s: Loader, op: Op)
    requires SymbolsExact(s)
    ensures op.OpLoad? ==> SymbolsExact(Step(s, op))
    ensures op.OpUnload? && Unload(s, op.name).1 ==>
              (SymbolsExact(Step(s, op)) <==> !exists m, e :: SharesSymbol(s, op.name, m, e))
  {
    StepKeepsSymbols(s, op);
    match op
    case OpLoad(n) =>
      if Load(s, n).0 != s {
        AddSymbolsContents(s.symbols, s.available[n].exports, n);
      }
    case OpUnload(n) =>
      if Unload(s, n).1 {
        UnloadExactly(s, n);
      }
  }

  lemma UnloadExactly(s: Loader, name: string)
    requires SymbolsExact(s) && Unload(s, name).1
    ensures SymbolsExact(Unload(s, name).0) <==> !exists m, e :: SharesSymbol(s, name, m, e)
  {
    var s' := Unload(s, name).0;
    DropSymbolsContents(s.symbols, s.available[name].exports);
    StepKeepsSymbols(s, OpUnload(name));
    if m, e :| SharesSymbol(s, name, m, e) {
      assert m in s'.loaded && m in s'.available && e in s'.available[m].exports && e !in s'.symbols;
    } else {
      forall m, e | m in s'.loaded && m in s'.available && e in s'.available[m].exports
        ensures e in s'.symbols
      {
        assert !SharesSymbol(s, name, m, e);
      }
    }
  }

  /** With pairwise disjoint exports the index is exact after every run, and determined by the loaded set. */
  lemma {:induction false} RunKeepsExact(s: Loader, ops: seq<Op>)
    requires SymbolsExact(s) && DisjointExports(s.available)
    ensures SymbolsExact(Run(s, ops))
    decreases |ops|
  {
    if ops != [] {
      StepKeepsExact(s, ops[0]);
      if ops[0].OpUnload? && Unload(s, ops[0].name).1 {
        assert !exists m, e :: SharesSymbol(s, ops[0].name, m, e);
      }
      RunKeepsExact(Step(s, ops[0]), ops[1..]);
    }
  }

  lemma ExactDetermined(s: Loader, t: Loader)
    requires SymbolsExact(s) && SymbolsExact(t)
    requires DisjointExports(s.available) && s.available == t.available && s.loaded == t.loaded
    ensures s.symbols == t.symbols
  {
    assert s.symbols.Keys == t.symbols.Keys;
  }

  /** With overlapping exports an unload can take away a symbol that a loaded module still exports. */
  lemma OverlapLosesSymbol()
    ensures var m := Module([], ["sym"]);
            var s := Run(Loader(true, map["a" := m, "b" := m], {}, map[]), [OpLoad("a"), OpLoad("b"), OpUnload("b")]);
            s.loaded == {"a"} && "sym" !in s.symbols
  {
    var m := Module([], ["sym"]);
    var s0 := Loader(true, map["a" := m, "b" := m], {}, map[]);
    assert ["sym"][1..] == [];
    var t1 := map["sym" := "a"];
    assert AddSymbols(map[], ["sym"], "a") == t1;
    var s1 := Loader(true, s0.available, {"a"}, t1);
    assert Load(s0, "a").0 == s1;
    var t2 := map["sym" := "b"];
    assert AddSymbols(t1, ["sym"], "b") == t1["sym" := "b"] == t2;
    assert "a" != "b" by { assert "a"[0] != "b"[0]; }
    var s2 := Loader(true, s0.available, {"a", "b"}, t2);
    assert Load(s1, "b").0 == s2;
    DropSymbolsContents(t2, ["sym"]);
    assert Unload(s2, "b").1;
    var ops := [OpLoad("a"), OpLoad("b"), OpUnload("b")];
    assert ops[1..] == [OpLoad("b"), OpUnload("b")];
    assert ops[1..][1..] == [OpUnload("b")];
    assert ops[1..][1..][1..] == [];
    assert Run(s0, ops) == Run(s1, ops[1..]) == Run(s2, ops[1..][1..]);
    assert {"a", "b"} - {"b"} == {"a"};
    assert "sym" !in t2 - set e | e in ["sym"];
  }

  // ---------------------------------------------------------------- load then unload

  ghost function LoadOps(names: seq<string>): seq<Op> {
    if names == [] then [] else [OpLoad(names[0])] + LoadOps(names[1..])
  }

  /** Each name in turn is loaded for the first time. */
  ghost predicate AllNewlyLoaded(s: Loader, names: seq<string>)
    decreases |names|
  {
    names == [] ||
    (names[0] !in s.loaded && Load(s, names[0]).1 && AllNewlyLoaded(Load(s, names[0]).0, names[1..]))
  }

  ghost function LoadAll(s: Loader, names: seq<string>): Loader
    decreases |names|
  {
    if names == [] then s else LoadAll(Load(s, names[0]).0, names[1..])
  }

  /** Unload last-in first-out; the flag says whether every call succeeded. */
  ghost function UnloadReversed(s: Loader, names: seq<string>): (Loader, bool)
    decreases |names|
  {
    if names == [] then (s, true)
    else
      var (s1, ok1) := UnloadReversed(s, names[1..]);
      var (s2, ok2) := Unload(s1, names[0]);
      (s2, ok1 && ok2)
  }

  /** One freshly loaded module can be unloaded again; the index comes back unless it was overwritten. */
  lemma UnloadInvertsLoad(s: Loader, name: string)
    requires Inv(s) && name !in s.loaded && Load(s, name).1
    ensures var (t, ok) := Unload(Load(s, name).0, name);
            && ok && t.loaded == s.loaded && t.available == s.available && t.enabled == s.enabled
            && t.symbols == s.symbols - set e | e in s.available[name].exports
            && (t == s <==> forall e :: e in s.available[name].exports ==> e !in s.symbols)
  {
    var s1 := Load(s, name).0;
    forall o | o in s1.available && o in s1.loaded
      ensures name !in s1.available[o].dependencies
    {
      if o in s.loaded {
        InvDependenciesLoaded(s, o, name);
      }
    }
    AddSymbolsContents(s.symbols, s.available[name].exports, name);
    DropSymbolsContents(s1.symbols, s.available[name].exports);
    var x := set e | e in s.available[name].exports;
    assert s1.symbols - x == s.symbols - x;
    if forall e :: e in s.available[name].exports ==> e !in s.symbols {
      assert s.symbols - x == s.symbols;
    } else {
      var e :| e in s.available[name].exports && e in s.symbols;
      assert e !in s.symbols - x;
    }
  }

  /** LIFO inverse over any number of loads: every unload succeeds and the loaded set comes back. */
  lemma {:induction false} LifoInverse(s: Loader, names: seq<string>)
    requires Inv(s) && AllNewlyLoaded(s, names)
    ensures var (t, ok) := UnloadReversed(LoadAll(s, names), names);
            ok && t.loaded == s.loaded && t.available == s.available && t.enabled == s.enabled
    ensures SymbolsSound(UnloadReversed(LoadAll(s, names), names).0)
    decreases |names|
  {
    if names != [] {
      var s1 := Load(s, names[0]).0;
      StepKeepsInv(s, OpLoad(names[0]));
      LifoInverse(s1, names[1..]);
      UnloadInvertsLoad(s, names[0]);
      var t1 := UnloadReversed(LoadAll(s1, names[1..]), names[1..]).0;
      assert Needed(t1, names[0]) <==> Needed(s1, names[0]);
      StepKeepsSymbols(t1, OpUnload(names[0]));
    }
  }

  /** With disjoint exports the whole state comes back, symbol index included. */
  lemma {:induction false} LifoInverseExact(s: Loader, names: seq<string>)
    requires Inv(s) && SymbolsExact(s) && DisjointExports(s.available) && AllNewlyLoaded(s, names)
    ensures UnloadReversed(LoadAll(s, names), names) == (s, true)
    decreases |names|
  {
    if names != [] {
      StepKeepsInv(s, OpLoad(names[0]));
      StepKeepsExact(s, OpLoad(names[0]));
      LifoInverseExact(Load(s, names[0]).0, names[1..]);
      UnloadInvertsLoad(s, names[0]);
    }
  }
}
