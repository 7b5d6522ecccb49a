/** The module loader object: a dictionary of module objects whose `is_loaded` flag it flips. */
module ModuleLoaderClass {
  import opened Prelude
  import opened ModuleModel

  class KernelModule {
    const name: string
    const dependencies: seq<string>
    const exports: seq<string>
    var isLoaded: bool

    constructor (name: string, dependencies: seq<string>, exports: seq<string>)
      ensures this.name == name && this.dependencies == dependencies && this.exports == exports
      ensures !isLoaded
    {
      this.name := name;
      this.dependencies := dependencies;
      this.exports := exports;
      isLoaded := false;
    }
  }

  class ModuleLoader {
    const modulesEnabled: bool
    var available: map<string, KernelModule>
    var symbolTable: map<string, string>

    ghost predicate Valid()
      reads this
    {
      forall n :: n in available ==> available[n].name == n
    }

    ghost function View(): Loader
      reads this, available.Values
    {
      Loader(modulesEnabled,
             (map n | n in available :: Module(available[n].dependencies, available[n].exports)),
             (set n | n in available && available[n].isLoaded),
             symbolTable)
    }

    constructor (modulesEnabled: bool)
      ensures Valid() && View() == Loader(modulesEnabled, map[], {}, map[])
    {
      this.modulesEnabled := modulesEnabled;
      available := map[];
      symbolTable := map[];
    }

    method Register(m: KernelModule)
      requires Valid()
      modifies this`available
      ensures Valid() && available == old(available)[m.name := m]
      ensures View() == ModuleModel.Register(old(View()), m.name, Module(m.dependencies, m.exports), m.isLoaded)
    {
      available := available[m.name := m];
      ghost var was := old(View());
      assert View().available == was.available[m.name := Module(m.dependencies, m.exports)];
      assert View().loaded == if m.isLoaded then was.loaded + {m.name} else was.loaded - {m.name};
    }

    method Load(name: string) returns (ok: bool)
      requires Valid()
      modifies this, available.Values
      ensures Valid() && available == old(available)
      ensures (View(), ok) == ModuleModel.Load(old(View()), name)
    {
      if !modulesEnabled || name !in available {
        return false;
      }
      var m := available[name];
      if m.isLoaded {
        return true;
      }
      for i := 0 to |m.dependencies|
        invariant forall d :: d in m.dependencies[..i] ==> d in available && available[d].isLoaded
      {
        var dep := m.dependencies[i];
        if dep !in available || !available[dep].isLoaded {
          assert dep in m.dependencies;
          return false;
        }
      }
      assert m.dependencies[..|m.dependencies|] == m.dependencies;
      m.isLoaded := true;
      for i := 0 to |m.exports|
        invariant Valid() && available == old(available)
        invariant View().loaded == old(View()).loaded + {name}
        invariant AddSymbols(symbolTable, m.exports[i..], name) ==
                  AddSymbols(old(symbolTable), m.exports, name)
      {
        assert m.exports[i..][0] == m.exports[i] && m.exports[i..][1..] == m.exports[i + 1..];
        symbolTable := symbolTable[m.exports[i] := name];
      }
      return true;
    }

    method Unload(name: string) returns (ok: bool)
      requires Valid()
      modifies this, available.Values
      ensures Valid() && available == old(available)
      ensures (View(), ok) == ModuleModel.Unload(old(View()), name)
    {
      if name !in available {
        return false;
      }
      var m := available[name];
      if !m.isLoaded {
        return false;
      }
      var others := available.Keys;
      while others != {}
        invariant others <= available.Keys
        invariant forall o :: o in available && o !in others ==>
                    !(available[o].isLoaded && name in available[o].dependencies)
        decreases |others|
      {
        var o :| o in others;
        if available[o].isLoaded && name in available[o].dependencies {
          assert o in View().available && o in View().loaded && name in View().available[o].dependencies;
          return false;
        }
        others := others - {o};
      }
      assert !Needed(View(), name);
      for i := 0 to |m.exports|
        invariant Valid() && available == old(available)
        invariant forall o :: o in available ==> available[o].isLoaded == old(available[o].isLoaded)
        invariant DropSymbols(symbolTable, m.exports[i..]) == DropSymbols(old(symbolTable), m.exports)
      {
        assert m.exports[i..][0] == m.exports[i] && m.exports[i..][1..] == m.exports[i + 1..];
        symbolTable := symbolTable - {m.exports[i]};
      }
      m.isLoaded := false;
      assert View().loaded == old(View()).loaded - {name};
      return true;
    }

    /**
     The owner of a symbol is a loaded module that exports it; when the index is exact, no owner means
     that no loaded module does.
     */
    method LookupSymbol(symbol: string) returns (owner: Option<string>)
      ensures owner == if symbol in View().symbols then Some(View().symbols[symbol]) else None
      ensures Inv(View()) && owner.Some? ==>
                var m := owner.value;
                m in View().loaded && m in View().available && symbol in View().available[m].exports
      ensures SymbolsExact(View()) ==>
                (owner.None? <==> forall m :: m in View().loaded && m in View().available ==>
                                    symbol !in View().available[m].exports)
    {
      if symbol in symbolTable {
        return Some(symbolTable[symbol]);
      }
      return None;
    }
  }
}
