/** Which modules can be loaded at all: exactly those with registered, cycle-free dependencies. */
module ModuleReach {
  import opened Prelude
  import opened ModuleModel

  ghost predicate OnCycle(available: map<string, Module>, name: string) {
    exists c :: Cycle(available, c) && c[0] == name
  }

  /** Every module reachable through dependencies is registered and none lies on a cycle. */
  ghost predicate Resolvable(available: map<string, Module>, name: string) {
    forall p :: Path(available, p) && p[0] == name ==>
      p[|p| - 1] in available && !OnCycle(available, p[|p| - 1])
  }

  lemma {:induction false} RunConcat(s: Loader, a: seq<Op>, b: seq<Op>)
    ensures Run(s, a + b) == Run(Run(s, a), b)
    decreases |a|
  {
    if a == [] {
      assert a + b == b;
    } else {
      assert (a + b)[1..] == a[1..] + b;
      RunConcat(Step(s, a[0]), a[1..], b);
    }
  }

  /** A list without repetitions is no longer than the set it draws from. */
  lemma {:induction false} NoDupBound(xs: seq<string>, keys: set<string>)
    requires NoDup(xs) && forall x :: x in xs ==> x in keys
    ensures |xs| <= |keys|
    decreases |xs|
  {
    if xs != [] {
      assert xs[0] !in xs[1..];
      NoDupBound(xs[1..], keys - {xs[0]});
    }
  }

  lemma ExtendPath(available: map<string, Module>, p: seq<string>, d: string)
    requires Path(available, p) && p[|p| - 1] in available && d in available[p[|p| - 1]].dependencies
    ensures Path(available, p + [d]) && (p + [d])[0] == p[0]
  {
    var q := p + [d];
    forall i | 0 <= i < |q| - 1
      ensures q[i] in available && q[i + 1] in available[q[i]].dependencies
    {
      if i < |p| - 1 {
        assert q[i] == p[i] && q[i + 1] == p[i + 1];
      }
    }
  }

  lemma PathSuffix(available: map<string, Module>, p: seq<string>, k: nat)
    requires Path(available, p) && k < |p|
    ensures Path(available, p[k..])
  {
    var q := p[k..];
    forall i | 0 <= i < |q| - 1
      ensures q[i] in available && q[i + 1] in available[q[i]].dependencies
    {
      assert q[i] == p[k + i] && q[i + 1] == p[k + i + 1];
    }
  }

  lemma CycleWitness(available: map<string, Module>, c: seq<string>)
    requires Cycle(available, c)
    ensures OnCycle(available, c[0])
  {
  }

  /** From a resolvable start, a trail never meets itself again. */
  lemma TrailStaysFresh(available: map<string, Module>, trail: seq<string>, d: string)
    requires Path(available, trail) && Resolvable(available, trail[0])
    requires trail[|trail| - 1] in available && d in available[trail[|trail| - 1]].dependencies
    ensures Path(available, trail + [d]) && d in available && d !in trail
  {
    ExtendPath(available, trail, d);
    assert (trail + [d])[|trail + [d]| - 1] == d;
    if d in trail {
      var k :| 0 <= k < |trail| && trail[k] == d;
      PathSuffix(available, trail + [d], k);
      var c := (trail + [d])[k..];
      assert c[0] == d && c[|c| - 1] == d;
      CycleWitness(available, c);
    }
  }

  /**
   Depth-first loading along a dependency trail: a list of loads after which the last module of
   the trail, with everything below it, is loaded.
   */
  lemma {:induction false} LoadPlan(s: Loader, trail: seq<string>) returns (ops: seq<Op>)
    requires Inv(s) && s.enabled
    requires Path(s.available, trail) && NoDup(trail) && forall x :: x in trail ==> x in s.available
    requires Resolvable(s.available, trail[0])
    ensures trail[|trail| - 1] in Run(s, ops).loaded
    ensures s.loaded <= Run(s, ops).loaded
    decreases |s.available| - |trail|, 1
  {
    var name := trail[|trail| - 1];
    NoDupBound(trail, s.available.Keys);
    assert name in trail;
    var deps := s.available[name].dependencies;
    ops := LoadDependencies(s, trail, |deps|);
    var s1 := Run(s, ops);
    RunKeepsInv(s, ops);
    RunConcat(s, ops, [OpLoad(name)]);
    assert deps[..|deps|] == deps;
    assert [OpLoad(name)][1..] == [];
    assert Run(s1, [OpLoad(name)]) == Run(Load(s1, name).0, []);
    assert DepsLoaded(s1, name) by {
      var order :| LoadOrder(s1, order);
    }
    ops := ops + [OpLoad(name)];
  }

  /** The inner loop of the depth-first plan: the first n dependencies of the trail's last module. */
  lemma {:induction false} LoadDependencies(s: Loader, trail: seq<string>, n: nat) returns (ops: seq<Op>)
    requires Inv(s) && s.enabled
    requires Path(s.available, trail) && NoDup(trail) && forall x :: x in trail ==> x in s.available
    requires Resolvable(s.available, trail[0])
    requires trail[|trail| - 1] in s.available && n <= |s.available[trail[|trail| - 1]].dependencies|
    ensures forall d :: d in s.available[trail[|trail| - 1]].dependencies[..n] ==> d in Run(s, ops).loaded
    ensures s.loaded <= Run(s, ops).loaded
    decreases |s.available| - |trail|, 0, n
  {
    if n == 0 {
      ops := [];
    } else {
      var deps := s.available[trail[|trail| - 1]].dependencies;
      var d := deps[n - 1];
      assert deps[..n] == deps[..n - 1] + [d];
      ops := LoadDependencies(s, trail, n - 1);
      var s1 := Run(s, ops);
      RunKeepsInv(s, ops);
      assert d in deps;
      TrailStaysFresh(s.available, trail, d);
      AppendNoDup(trail, d);
      NoDupBound(trail + [d], s.available.Keys);
      assert (trail + [d])[0] == trail[0];
      var more := LoadPlan(s1, trail + [d]);
      RunConcat(s, ops, more);
      ops := ops + more;
    }
  }

  /** Sufficient: a resolvable module can be loaded from any reachable state. */
  lemma ResolvableLoads(s: Loader, name: string) returns (ops: seq<Op>)
    requires Inv(s) && s.enabled && Resolvable(s.available, name)
    ensures name in Run(s, ops).loaded
  {
    assert Path(s.available, [name]);
    assert [name][|[name]| - 1] == name;
    ops := LoadPlan(s, [name]);
  }

  /** Necessary: whatever is loaded is resolvable. */
  lemma LoadedResolvable(s: Loader, name: string)
    requires Inv(s) && name in s.loaded
    ensures Resolvable(s.available, name)
  {
    var order :| LoadOrder(s, order);
    var i :| 0 <= i < |order| && order[i] == name;
    forall p | Path(s.available, p) && p[0] == name
      ensures p[|p| - 1] in s.available && !OnCycle(s.available, p[|p| - 1])
    {
      var j := PathDescends(s, order, p, i);
      assert order[j] in order;
      if OnCycle(s.available, p[|p| - 1]) {
        var c :| Cycle(s.available, c) && c[0] == p[|p| - 1];
        LoadedAcyclic(s, c);
      }
    }
  }

  /** Exact reachability: some sequence of loads and unloads brings a module in iff it is resolvable. */
  lemma ReachableExactly(s: Loader, name: string)
    requires Inv(s) && s.enabled
    ensures (exists ops :: name in Run(s, ops).loaded) <==> Resolvable(s.available, name)
  {
    if ops :| name in Run(s, ops).loaded {
      RunKeepsInv(s, ops);
      LoadedResolvable(Run(s, ops), name);
    }
    if Resolvable(s.available, name) {
      var ops := ResolvableLoads(s, name);
    }
  }
}
