/** What each process operation changes, and where zombies and exit codes come from. */
module ProcessSteps {
  import opened Prelude
  import opened TaskStates
  import opened ProcessModel

  /** p is there before and after, the same but perhaps for its children list. */
  ghost predicate SameButChildren(t: Table, t': Table, p: int) {
    p in t.procs && p in t'.procs && t'.procs[p] == t.procs[p].(children := t'.procs[p].children)
  }

  // ---------------------------------------------------------------- one operation

  /** At boot there is only the runnable idle process 0, and 2 is the first pid to hand out. */
  lemma BootExactly()
    ensures Boot().procs.Keys == {0} && Boot().procs[0].state == Runnable
    ensures Boot().procs[0].children == [] && Boot().procs[0].fdt == map[]
    ensures forall name, ppid :: Spawn(Boot(), name, ppid).1 == 2
  {
  }

  /**
   A spawned process is NEW, no zombie, without children or descriptors, and names its parent, whose
   list it ends. Nobody else changes. It gets the pid freed longest ago, or else the next new one.
   */
  lemma SpawnExactly(t: Table, name: string, ppid: int)
    requires Pids(t) && ppid != NextPid(t)
    ensures var (t', r) := Spawn(t, name, ppid);
            && r !in t.procs && t'.procs.Keys == t.procs.Keys + {r}
            && t'.procs[r].state == New && !IsZombie(t', r) && t'.procs[r].exitCode == 0
            && t'.procs[r].name == name && t'.procs[r].ppid == ppid
            && t'.procs[r].children == [] && t'.procs[r].fdt == map[]
            && (forall p :: p in t.procs ==> SameButChildren(t, t', p))
            && (forall p :: p in t.procs ==>
                  t'.procs[p].children == t.procs[p].children + if p == ppid then [r] else [])
            && (t.free != [] ==> r == t.free[0] && t'.free == t.free[1..] && t'.next == t.next)
            && (t.free == [] ==> r == t.next && t'.free == [] && t'.next == t.next + 1)
  {
    SpawnPids(t, name, ppid);
  }

  /** A fork spawns a child of the same name, or refuses a dead caller with -22. */
  lemma ForkExactly(t: Table, pid: int)
    requires Pids(t)
    ensures pid !in t.procs ==> Fork(t, pid) == (t, -22)
    ensures pid in t.procs ==>
              && pid != NextPid(t) && Fork(t, pid) == Spawn(t, t.procs[pid].name, pid)
              && Fork(t, pid).1 in Fork(t, pid).0.procs && Fork(t, pid).1 > 0
              && Fork(t, pid).0.procs[Fork(t, pid).1].name == t.procs[pid].name
  {
    SpawnPids(t, "", pid);
  }

  /** An exit makes its caller a zombie with that code and changes nothing else; a dead caller gets -22. */
  lemma ExitExactly(t: Table, pid: int, code: int)
    ensures pid !in t.procs ==> Exit(t, pid, code) == (t, -22)
    ensures pid in t.procs ==>
              var (t', r) := Exit(t, pid, code);
              && r == 0 && t'.next == t.next && t'.free == t.free && t'.procs.Keys == t.procs.Keys
              && t'.procs[pid].state == Zombie && t'.procs[pid].exitCode == code
              && t'.procs[pid].fdt == t.procs[pid].fdt && t'.procs[pid].children == t.procs[pid].children
              && t'.procs[pid].ppid == t.procs[pid].ppid && t'.procs[pid].name == t.procs[pid].name
              && forall p :: p in t.procs && p != pid ==> t'.procs[p] == t.procs[p]
  {
  }

  /** From t to t' the one process r went, from pid's children too, and its pid was freed last. */
  ghost predicate Reaped(t: Table, t': Table, pid: int, r: int) {
    && r in t.procs && r != pid && pid in t.procs && pid in t'.procs
    && t'.procs.Keys == t.procs.Keys - {r} && t'.free == t.free + [r] && t'.next == t.next
    && (forall p :: p in t'.procs ==> SameButChildren(t, t', p))
    && (forall p :: p in t'.procs && p != pid ==> t'.procs[p].children == t.procs[p].children)
    && t'.procs[pid].children == RemoveFirst(t.procs[pid].children, r)
  }

  lemma RemoveReaps(w: World, pid: int, r: int)
    requires Forest(w) && pid in w.t.procs && r in w.t.procs[pid].children
    ensures Reaped(w.t, Remove(w.t, r), pid, r)
  {
    ChildFacts(w, pid, r);
    RemovePids(w.t, r);
  }

  /** A wait that reaps removes that one process, from its parent's list too, and frees its pid; any other changes nothing. */
  lemma Wait4Frame(w: World, pid: int)
    requires Forest(w)
    ensures var (t', r) := Wait4(w.t, pid);
            if r <= 0 then t' == w.t else r in w.t.procs && Reaped(w.t, t', pid, r)
  {
    if pid in w.t.procs {
      Wait4Positive(w, pid);
      if Wait4(w.t, pid).1 > 0 {
        RemoveReaps(w, pid, Wait4(w.t, pid).1);
      }
    }
  }

  /** The children list loses exactly the reaped child. */
  lemma ReapedChildren(w: World, pid: int, r: int)
    requires Forest(w) && pid in w.t.procs && r in w.t.procs[pid].children
    ensures forall c :: c in RemoveFirst(w.t.procs[pid].children, r) <==> c in w.t.procs[pid].children && c != r
  {
    assert ChildrenOk(w, pid);
    OldestRemove(w.births, w.t.procs[pid].children, r);
  }

  // ---------------------------------------------------------------- where zombies come from

  /**
   The code of the last exit in the run by the incarnation of p that was born with that stamp,
   if it ever exited.
   */
  ghost function LastExit(ops: seq<Op>, p: int, stamp: nat): Option<int>
    decreases |ops|
  {
    if ops == [] then None
    else
      var (before, op) := (Run(Start(), ops[..|ops| - 1]), ops[|ops| - 1]);
      if op.OpExit? && op.pid == p && p in before.births && before.births[p].stamp == stamp then Some(op.code)
      else LastExit(ops[..|ops| - 1], p, stamp)
  }

  lemma {:induction false} RunLast(w: World, ops: seq<Op>)
    requires ops != [] && LegalRun(w, ops)
    ensures LegalRun(w, ops[..|ops| - 1])
    ensures Legal(Run(w, ops[..|ops| - 1]), ops[|ops| - 1])
    ensures Run(w, ops) == Step(Run(w, ops[..|ops| - 1]), ops[|ops| - 1])
    decreases |ops|
  {
    var rest := ops[1..];
    if rest != [] {
      RunLast(Step(w, ops[0]), rest);
      assert ops[..|ops| - 1][1..] == rest[..|rest| - 1];
    }
  }

  /** One step leaves a process's state and exit code alone, unless it exits, or is born: then it is NEW with code 0. */
  lemma StepStates(w: World, op: Op, p: int)
    requires Forest(w) && Legal(w, op) && p in Step(w, op).t.procs
    ensures var w' := Step(w, op);
            && w.clock <= w'.clock && p in w'.births
            && if p in w.births && w'.births[p] == w.births[p] then
                 && p in w.t.procs
                 && if op.OpExit? && op.pid == p then w'.t.procs[p].state == Zombie && w'.t.procs[p].exitCode == op.code
                    else w'.t.procs[p].state == w.t.procs[p].state && w'.t.procs[p].exitCode == w.t.procs[p].exitCode
               else
                 w'.births[p].stamp == w.clock && w'.t.procs[p].state == New && w'.t.procs[p].exitCode == 0
                 && !op.OpExit?
  {
    match op
    case OpSpawn(name, ppid) => SpawnExactly(w.t, name, ppid);
    case OpFork(pid) =>
      if pid in w.t.procs {
        ForkExactly(w.t, pid);
        SpawnExactly(w.t, w.t.procs[pid].name, pid);
      }
    case OpExit(pid, code) =>
    case OpWait4(pid) => Wait4Frame(w, pid);
  }

  /** An incarnation not yet born has not exited. */
  lemma {:induction false} NotYetExited(ops: seq<Op>, p: int, stamp: nat)
    requires LegalRun(Start(), ops) && stamp >= Run(Start(), ops).clock
    ensures LastExit(ops, p, stamp) == None
    decreases |ops|
  {
    if ops != [] {
      var init := ops[..|ops| - 1];
      RunLast(Start(), ops);
      StartForest();
      RunForest(Start(), init);
      ClockAdvances(Run(Start(), init), ops[|ops| - 1]);
      NotYetExited(init, p, stamp);
    }
  }

  lemma ClockAdvances(w: World, op: Op)
    ensures w.clock <= Step(w, op).clock
  {
  }

  /**
   In every run from boot a live process is a zombie exactly when its current incarnation exited, and
   its exit code is that of its last exit.
   */
  lemma {:induction false} ZombieExactly(ops: seq<Op>, p: int)
    requires LegalRun(Start(), ops) && p in Run(Start(), ops).t.procs
    ensures var w := Run(Start(), ops);
            && p in w.births
            && var e := LastExit(ops, p, w.births[p].stamp);
               && (IsZombie(w.t, p) <==> e.Some?)
               && w.t.procs[p].exitCode == if e.Some? then e.value else 0
    decreases |ops|
  {
    if ops != [] {
      var (init, op) := (ops[..|ops| - 1], ops[|ops| - 1]);
      var w0 := Run(Start(), init);
      RunLast(Start(), ops);
      StartForest();
      RunForest(Start(), init);
      StepStates(w0, op, p);
      var w := Step(w0, op);
      if p in w0.births && w.births[p] == w0.births[p] {
        ZombieExactly(init, p);
      } else {
        NotYetExited(init, p, w.births[p].stamp);
      }
    }
  }

  /** wait4 only ever returns a process that exited since it was born; one that has not is never reaped. */
  lemma ReapedHadExited(ops: seq<Op>, pid: int)
    requires LegalRun(Start(), ops)
    ensures var w := Run(Start(), ops);
            var r := Wait4(w.t, pid).1;
            r > 0 ==> r in w.births && LastExit(ops, r, w.births[r].stamp).Some?
    ensures var w := Run(Start(), ops);
            forall c :: c in w.births && LastExit(ops, c, w.births[c].stamp).None? ==> !(Wait4(w.t, pid).1 == c > 0)
  {
    StartForest();
    RunForest(Start(), ops);
    var w := Run(Start(), ops);
    var r := Wait4(w.t, pid).1;
    if r > 0 {
      Wait4Frame(w, pid);
      Wait4Exact(w, pid);
      ZombieExactly(ops, r);
    }
  }

  /** Where that last exit is in the run. */
  lemma {:induction false} LastExitAt(ops: seq<Op>, p: int, stamp: nat) returns (i: nat)
    requires LastExit(ops, p, stamp).Some?
    ensures i < |ops| && ops[i] == OpExit(p, LastExit(ops, p, stamp).value)
    ensures p in Run(Start(), ops[..i]).births && Run(Start(), ops[..i]).births[p].stamp == stamp
    decreases |ops|
  {
    var n := |ops| - 1;
    var before := Run(Start(), ops[..n]);
    if ops[n].OpExit? && ops[n].pid == p && p in before.births && before.births[p].stamp == stamp {
      i := n;
    } else {
      i := LastExitAt(ops[..n], p, stamp);
      assert ops[..n][..i] == ops[..i];
    }
  }
}
