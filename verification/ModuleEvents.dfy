/** Runs of the module loader in which modules are also registered. */
module ModuleEvents {
  import opened ModuleModel

  /** A module not yet loaded is registered, or a module is loaded or unloaded. */
  datatype Event = Registered(name: string, m: Module) | Called(op: Op)

  /** Only the name of a loaded module must not be registered again; others may be, any number of times. */
  ghost predicate Allowed(s: Loader, e: Event) {
    e.Registered? ==> e.name !in s.loaded
  }

  ghost function Happen(s: Loader, e: Event): Loader {
    match e
    case Registered(name, m) => Register(s, name, m, false)
    case Called(op) => Step(s, op)
  }

  ghost predicate AllowedAll(s: Loader, es: seq<Event>)
    decreases |es|
  {
    es == [] || (Allowed(s, es[0]) && AllowedAll(Happen(s, es[0]), es[1..]))
  }

  ghost function HappenAll(s: Loader, es: seq<Event>): Loader
    decreases |es|
  {
    if es == [] then s else HappenAll(Happen(s, es[0]), es[1..])
  }

  /** Dependency safety and a sound symbol index survive every run of registrations, loads and unloads. */
  lemma {:induction false} EventsKeepInv(s: Loader, es: seq<Event>)
    requires Inv(s) && AllowedAll(s, es)
    ensures Inv(HappenAll(s, es))
    decreases |es|
  {
    if es != [] {
      match es[0] {
        case Registered(name, m) => RegisterKeepsInvExactly(s, name, m);
        case Called(op) => StepKeepsInv(s, op);
      }
      EventsKeepInv(Happen(s, es[0]), es[1..]);
    }
  }

  /** No two modules registered at any time of the run export the same symbol. */
  ghost predicate DisjointThroughout(s: Loader, es: seq<Event>)
    decreases |es|
  {
    DisjointExports(s.available) && (es == [] || DisjointThroughout(Happen(s, es[0]), es[1..]))
  }

  /** With disjoint exports the index is exactly the exports of the loaded modules after every such run. */
  lemma {:induction false} EventsKeepExact(s: Loader, es: seq<Event>)
    requires SymbolsExact(s) && AllowedAll(s, es) && DisjointThroughout(s, es)
    ensures SymbolsExact(HappenAll(s, es))
    decreases |es|
  {
    if es != [] {
      if es[0].Called? {
        RunKeepsExact(s, [es[0].op]);
        assert [es[0].op][1..] == [];
        assert Run(s, [es[0].op]) == Step(s, es[0].op);
      } else {
        RegisterKeepsExact(s, es[0].name, es[0].m);
      }
      EventsKeepExact(Happen(s, es[0]), es[1..]);
    }
  }

  lemma RegisterKeepsExact(s: Loader, name: string, m: Module)
    requires SymbolsExact(s) && name !in s.loaded
    ensures SymbolsExact(Register(s, name, m, false))
  {
  }

  /** Every registration of the run is of a new name. */
  ghost predicate AllNew(s: Loader, es: seq<Event>)
    decreases |es|
  {
    es == [] || ((es[0].Registered? ==> es[0].name !in s.available) && AllNew(Happen(s, es[0]), es[1..]))
  }

  /** When every name is registered once, exports that are disjoint at the end were disjoint all along. */
  lemma {:induction false} NewNamesDisjoint(s: Loader, es: seq<Event>)
    requires AllNew(s, es) && DisjointExports(HappenAll(s, es).available)
    ensures DisjointThroughout(s, es)
    ensures forall n :: n in s.available ==>
              n in HappenAll(s, es).available && HappenAll(s, es).available[n] == s.available[n]
    decreases |es|
  {
    if es != [] {
      var s1, last := Happen(s, es[0]), HappenAll(s, es).available;
      NewNamesDisjoint(s1, es[1..]);
      forall n | n in s.available ensures n in last && last[n] == s.available[n] {
        assert n in s1.available && s1.available[n] == s.available[n];
      }
      assert DisjointExports(s.available);
    }
  }
}
