/** What load, unload and register answer, and what they change in the loaded set and the symbol index. */
module ModuleSteps {
  import opened ModuleModel

  /**
   A load succeeds exactly when modules are enabled, the module is registered and it is loaded already
   or all its dependencies are registered and loaded. A first load adds the module and points all its
   symbols to it; any other call changes nothing.
   */
  lemma LoadExactly(s: Loader, name: string)
    ensures var (s', ok) := Load(s, name);
            && (ok <==> s.enabled && name in s.available &&
                        (name in s.loaded ||
                         forall d :: d in s.available[name].dependencies ==> d in s.available && d in s.loaded))
            && (!ok || name in s.loaded ==> s' == s)
            && s'.available == s.available && s'.enabled == s.enabled
            && (forall n :: n in s'.loaded <==> n in s.loaded || (ok && n == name))
            && (ok && name !in s.loaded ==>
                  && (forall e :: e in s'.symbols <==> e in s.symbols || e in s.available[name].exports)
                  && forall e :: e in s'.symbols ==>
                       s'.symbols[e] == if e in s.available[name].exports then name else s.symbols[e])
  {
    if name in s.available {
      AddSymbolsContents(s.symbols, s.available[name].exports, name);
    }
  }

  /**
   An unload succeeds exactly when the module is registered and loaded and no loaded module depends on
   it. Then the module is not loaded and none of its symbols is in the index, whoever they pointed to;
   a failed call changes nothing.
   */
  lemma UnloadExactly(s: Loader, name: string)
    ensures var (s', ok) := Unload(s, name);
            && (ok <==> name in s.available && name in s.loaded &&
                        forall o :: o in s.available && o in s.loaded ==> name !in s.available[o].dependencies)
            && (!ok ==> s' == s)
            && s'.available == s.available && s'.enabled == s.enabled
            && (forall n :: n in s'.loaded <==> n in s.loaded && !(ok && n == name))
            && (ok ==>
                  && (forall e :: e in s'.symbols <==> e in s.symbols && e !in s.available[name].exports)
                  && forall e :: e in s'.symbols ==> s'.symbols[e] == s.symbols[e])
  {
    if name in s.available {
      DropSymbolsContents(s.symbols, s.available[name].exports);
    }
  }

  /** Registering puts the module under its name, with its own loaded flag, and touches no other name and no symbol. */
  lemma RegisterExactly(s: Loader, name: string, m: Module, isLoaded: bool)
    ensures var s' := Register(s, name, m, isLoaded);
            && s'.available.Keys == s.available.Keys + {name} && s'.available[name] == m
            && (forall n :: n in s.available && n != name ==> s'.available[n] == s.available[n])
            && (name in s'.loaded <==> isLoaded) && (forall n :: n != name ==> (n in s'.loaded <==> n in s.loaded))
            && s'.symbols == s.symbols && s'.enabled == s.enabled
  {
  }

  /** A disabled loader never loads anything, whatever is called; what was loaded can still be unloaded. */
  lemma {:induction false} DisabledLoadsNothing(s: Loader, ops: seq<Op>)
    requires !s.enabled
    ensures Run(s, ops).loaded <= s.loaded && Run(s, ops).symbols.Keys <= s.symbols.Keys && !Run(s, ops).enabled
    decreases |ops|
  {
    if ops != [] {
      LoadExactly(s, ops[0].name);
      UnloadExactly(s, ops[0].name);
      DisabledLoadsNothing(Step(s, ops[0]), ops[1..]);
    }
  }
}
