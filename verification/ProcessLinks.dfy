/** When the parent pids of processes can be trusted although pids are recycled. */
module ProcessLinks {
  import opened Prelude
  import opened ProcessModel

  /** The parent pid of c is dead, or names the process that lists c as its child. */
  ghost predicate LinkTrue(t: Table, c: int)
    requires c in t.procs
  {
    t.procs[c].ppid in t.procs ==> c in t.procs[t.procs[c].ppid].children
  }

  /** Every parent pid can be trusted; pid 0 has no parent. */
  ghost predicate LinksTrue(t: Table) {
    forall c :: c in t.procs && c != 0 ==> LinkTrue(t, c)
  }

  /** Some live process other than 0 names pid as its parent. */
  ghost predicate Named(t: Table, pid: int) {
    exists c :: c in t.procs && c != 0 && t.procs[c].ppid == pid
  }

  /** When the links are true, the children of a process are exactly those that name it, and only then. */
  lemma LinksMeanChildren(w: World)
    requires Forest(w)
    ensures LinksTrue(w.t) <==>
              forall p, c :: p in w.t.procs && c in w.t.procs && c != 0 ==>
                (c in w.t.procs[p].children <==> w.t.procs[c].ppid == p)
  {
    forall p, c | p in w.t.procs && c in w.t.procs[p].children ensures w.t.procs[c].ppid == p {
      ChildFacts(w, p, c);
    }
  }

  // ---------------------------------------------------------------- one step

  /** A spawn makes the link of an older process false exactly when the new pid is the one it names. */
  lemma SpawnLink(w: World, name: string, ppid: int, c: int)
    requires Forest(w) && ppid != NextPid(w.t) && c in w.t.procs && c != 0
    ensures c in Spawn(w.t, name, ppid).0.procs
    ensures LinkTrue(Spawn(w.t, name, ppid).0, c) <==>
              LinkTrue(w.t, c) && w.t.procs[c].ppid != NextPid(w.t)
  {
    SpawnPids(w.t, name, ppid);
  }

  /** A spawn keeps all links true exactly when no live process names the pid it hands out. */
  lemma SpawnLinksExactly(w: World, name: string, ppid: int)
    requires Forest(w) && ppid != NextPid(w.t) && LinksTrue(w.t)
    ensures LinksTrue(Spawn(w.t, name, ppid).0) <==> !Named(w.t, NextPid(w.t))
  {
    SpawnPids(w.t, name, ppid);
    var pid := NextPid(w.t);
    var t' := Spawn(w.t, name, ppid).0;
    assert LinkTrue(t', pid);
    forall c | c in w.t.procs && c != 0
      ensures c in t'.procs && (LinkTrue(t', c) <==> w.t.procs[c].ppid != pid)
    {
      SpawnLink(w, name, ppid, c);
    }
    if c :| c in w.t.procs && c != 0 && w.t.procs[c].ppid == pid {
      assert !LinkTrue(t', c);
    }
  }

  lemma ExitLinks(w: World, pid: int, code: int)
    requires Forest(w)
    ensures LinksTrue(Exit(w.t, pid, code).0) <==> LinksTrue(w.t)
  {
    var t' := Exit(w.t, pid, code).0;
    forall c | c in w.t.procs ensures c in t'.procs && (LinkTrue(t', c) <==> LinkTrue(w.t, c)) {
    }
  }

  /** Reaping makes no link false; those that name the reaped pid become true. */
  lemma RemoveLink(w: World, pid: int, c: int)
    requires Forest(w) && pid in w.t.procs && pid != 0 && c in w.t.procs && c != pid && c != 0
    ensures c in Remove(w.t, pid).procs
    ensures LinkTrue(Remove(w.t, pid), c) <==> LinkTrue(w.t, c) || w.t.procs[c].ppid == pid
  {
    RemovePids(w.t, pid);
    var p := w.t.procs[c].ppid;
    if p in w.t.procs && p != pid {
      assert ChildrenOk(w, p);
      OldestRemove(w.births, w.t.procs[p].children, pid);
    }
  }

  lemma Wait4Links(w: World, pid: int)
    requires Forest(w) && LinksTrue(w.t)
    ensures LinksTrue(Wait4(w.t, pid).0)
  {
    if pid in w.t.procs && Wait4(w.t, pid).1 > 0 {
      Wait4Positive(w, pid);
      var r := Wait4(w.t, pid).1;
      ChildFacts(w, pid, r);
      RemovePids(w.t, r);
      forall c | c in Remove(w.t, r).procs && c != 0 ensures LinkTrue(Remove(w.t, r), c) {
        RemoveLink(w, r, c);
      }
    } else if pid in w.t.procs {
      Wait4Positive(w, pid);
    }
  }

  // ---------------------------------------------------------------- whole runs

  /** If the step hands out a pid, no live process names it. */
  ghost predicate CleanStep(w: World, op: Op) {
    op.OpSpawn? || (op.OpFork? && op.pid in w.t.procs) ==> !Named(w.t, NextPid(w.t))
  }

  /** A step keeps true links true exactly when it recycles no pid that a live process names. */
  lemma StepLinksExactly(w: World, op: Op)
    requires Forest(w) && Legal(w, op) && LinksTrue(w.t)
    ensures LinksTrue(Step(w, op).t) <==> CleanStep(w, op)
  {
    StepIsOperation(w, op);
    match op
    case OpSpawn(name, ppid) => SpawnLinksExactly(w, name, ppid);
    case OpFork(pid) =>
      if pid in w.t.procs {
        SpawnPids(w.t, w.t.procs[pid].name, pid);
        SpawnLinksExactly(w, w.t.procs[pid].name, pid);
      }
    case OpExit(pid, code) => ExitLinks(w, pid, code);
    case OpWait4(pid) => Wait4Links(w, pid);
  }

  ghost predicate CleanRun(w: World, ops: seq<Op>)
    decreases |ops|
  {
    ops == [] || (CleanStep(w, ops[0]) && CleanRun(Step(w, ops[0]), ops[1..]))
  }

  /** The links are true in every state of the run. */
  ghost predicate LinksThroughout(w: World, ops: seq<Op>)
    decreases |ops|
  {
    LinksTrue(w.t) && (ops == [] || LinksThroughout(Step(w, ops[0]), ops[1..]))
  }

  /** Parent pids can be trusted throughout a run exactly when it never recycles a pid that a live process names. */
  lemma {:induction false} RunLinksExactly(w: World, ops: seq<Op>)
    requires Forest(w) && LegalRun(w, ops) && LinksTrue(w.t)
    ensures LinksThroughout(w, ops) <==> CleanRun(w, ops)
    decreases |ops|
  {
    if ops != [] {
      StepForest(w, ops[0]);
      StepLinksExactly(w, ops[0]);
      if CleanStep(w, ops[0]) {
        RunLinksExactly(Step(w, ops[0]), ops[1..]);
      }
    }
  }

  lemma StartLinks()
    ensures Forest(Start()) && LinksTrue(Start().t)
  {
    StartForest();
  }

  // ---------------------------------------------------------------- a link that goes stale

  /** 0 forks 2, 2 forks 3, 2 exits. */
  lemma StaleFirst() returns (w: World)
    ensures w == Step(Step(Step(Start(), OpFork(0)), OpFork(2)), OpExit(2, 0))
    ensures w.t.procs.Keys == {0, 2, 3} && w.t.free == [] && w.t.procs[0].children == [2]
    ensures IsZombie(w.t, 2) && w.t.procs[2].ppid == 0 && w.t.procs[3].ppid == 2
  {
    var w1 := Step(Start(), OpFork(0));
    assert w1.t.procs[0].children == [2] && w1.t.next == 3 && w1.t.free == [];
    var w2 := Step(w1, OpFork(2));
    assert w2.t.procs[0].children == [2] && w2.t.procs[3].ppid == 2 && w2.t.free == [];
    w := Step(w2, OpExit(2, 0));
  }

  /** 0 reaps 2 and forks again, recycling the pid; then the orphan 3 exits. */
  lemma StaleSecond(w: World) returns (w': World)
    requires w.t.procs.Keys == {0, 2, 3} && w.t.free == [] && w.t.procs[0].children == [2]
    requires IsZombie(w.t, 2) && w.t.procs[2].ppid == 0 && w.t.procs[3].ppid == 2
    ensures w' == Step(Step(Step(w, OpWait4(0)), OpFork(0)), OpExit(3, 0))
    ensures 2 in w'.t.procs && 3 in w'.t.procs && w'.t.procs[2].children == []
    ensures w'.t.procs[3].ppid == 2 && IsZombie(w'.t, 3)
  {
    var w4 := Step(w, OpWait4(0));
    assert FirstZombie(w.t, [2]) == Some(2);
    assert w4.t.procs.Keys == {0, 3} && w4.t.free == [2] && w4.t.procs[3].ppid == 2;
    var w5 := Step(w4, OpFork(0));
    assert NextPid(w4.t) == 2;
    assert w5.t.procs[2].children == [] && w5.t.procs[3].ppid == 2;
    w' := Step(w5, OpExit(3, 0));
  }

  /** A run that is not clean: pid 2 is recycled while 3 still names it, and 3 is not the new 2's child. */
  lemma StaleParent()
    ensures var w := Run(Start(), [OpFork(0), OpFork(2), OpExit(2, 0), OpWait4(0), OpFork(0), OpExit(3, 0)]);
            && Forest(w) && 2 in w.t.procs && 3 in w.t.procs
            && w.t.procs[3].ppid == 2 && IsZombie(w.t, 3) && Wait4(w.t, 2).1 == 0 && !LinksTrue(w.t)
  {
    var w3 := StaleFirst();
    var w := StaleSecond(w3);
    assert Wait4(w.t, 2).1 == 0 && !LinkTrue(w.t, 3);
    StartForest();
    NoSpawnLegal(Start(), [OpFork(0), OpFork(2), OpExit(2, 0), OpWait4(0), OpFork(0), OpExit(3, 0)]);
    RunForest(Start(), [OpFork(0), OpFork(2), OpExit(2, 0), OpWait4(0), OpFork(0), OpExit(3, 0)]);
    RunSix(Start(), OpFork(0), OpFork(2), OpExit(2, 0), OpWait4(0), OpFork(0), OpExit(3, 0));
  }

  /** Runs of fork, exit and wait4 alone are always legal. */
  lemma {:induction false} NoSpawnLegal(w: World, ops: seq<Op>)
    requires forall op :: op in ops ==> !op.OpSpawn?
    ensures LegalRun(w, ops)
    decreases |ops|
  {
    if ops != [] {
      assert ops[0] in ops;
      NoSpawnLegal(Step(w, ops[0]), ops[1..]);
    }
  }

  lemma RunSix(w: World, a: Op, b: Op, c: Op, d: Op, e: Op, f: Op)
    ensures Run(w, [a, b, c, d, e, f]) == Step(Step(Step(Step(Step(Step(w, a), b), c), d), e), f)
  {
    RunCons(w, a, [b, c, d, e, f]);
    RunCons(Step(w, a), b, [c, d, e, f]);
    RunCons(Step(Step(w, a), b), c, [d, e, f]);
    RunCons(Step(Step(Step(w, a), b), c), d, [e, f]);
    RunCons(Step(Step(Step(Step(w, a), b), c), d), e, [f]);
    RunCons(Step(Step(Step(Step(Step(w, a), b), c), d), e), f, []);
    assert [a] + [b, c, d, e, f] == [a, b, c, d, e, f];
    assert [b] + [c, d, e, f] == [b, c, d, e, f];
    assert [c] + [d, e, f] == [c, d, e, f];
    assert [d] + [e, f] == [d, e, f];
    assert [e] + [f] == [e, f];
    assert [f] + [] == [f];
  }

  lemma RunCons(w: World, op: Op, ops: seq<Op>)
    ensures Run(w, [op] + ops) == Run(Step(w, op), ops)
  {
    assert ([op] + ops)[1..] == ops;
  }
}
