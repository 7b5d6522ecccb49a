/** The process table: PIDs that are recycled, children lists, and reaping by wait4. */
module ProcessModel {
  import opened Prelude
  import opened TaskStates

  const EINVAL := -22

  /** One process; its descriptor table maps descriptors to path and flags. */
  datatype Proc = Proc(
    ppid: int,
    name: string,
    state: TaskState,
    exitCode: int,
    children: seq<int>,
    fdt: map<int, (string, string)>)

  datatype Table = Table(procs: map<int, Proc>, next: int, free: seq<int>)

  // ---------------------------------------------------------------- operations

  function Boot(): Table {
    Table(map[0 := Proc(0, "swapper/0", Runnable, 0, [], map[])], 2, [])
  }

  /** The pid the next allocation hands out. */
  function NextPid(t: Table): int {
    if t.free != [] then t.free[0] else t.next
  }

  function AllocPid(t: Table): Table {
    if t.free != [] then t.(free := t.free[1..]) else t.(next := t.next + 1)
  }

  function FreePid(t: Table, pid: int): Table {
    if pid > 1 then t.(free := t.free + [pid]) else t
  }

  function AddChild(procs: map<int, Proc>, ppid: int, pid: int): map<int, Proc> {
    if ppid in procs then procs[ppid := procs[ppid].(children := procs[ppid].children + [pid])] else procs
  }

  function DropChild(procs: map<int, Proc>, ppid: int, pid: int): map<int, Proc> {
    if ppid in procs then procs[ppid := procs[ppid].(children := RemoveFirst(procs[ppid].children, pid))] else procs
  }

  function Spawn(t: Table, name: string, ppid: int): (Table, int) {
    var pid := NextPid(t);
    var procs := t.procs[pid := Proc(ppid, name, New, 0, [], map[])];
    (AllocPid(t).(procs := AddChild(procs, ppid, pid)), pid)
  }

  function Remove(t: Table, pid: int): Table {
    if pid !in t.procs then t
    else FreePid(t, pid).(procs := DropChild(t.procs - {pid}, t.procs[pid].ppid, pid))
  }

  function Fork(t: Table, pid: int): (Table, int) {
    if pid !in t.procs then (t, EINVAL) else Spawn(t, t.procs[pid].name, pid)
  }

  function Exit(t: Table, pid: int, code: int): (Table, int) {
    if pid !in t.procs then (t, EINVAL)
    else (t.(procs := t.procs[pid := t.procs[pid].(state := Zombie, exitCode := code)]), 0)
  }

  predicate IsZombie(t: Table, pid: int) {
    pid in t.procs && t.procs[pid].state == Zombie
  }

  function FirstZombie(t: Table, cs: seq<int>): Option<int> {
    if cs == [] then None else if IsZombie(t, cs[0]) then Some(cs[0]) else FirstZombie(t, cs[1..])
  }

  /** The requested child and the options are ignored: any zombie child will do. */
  function Wait4(t: Table, pid: int): (Table, int) {
    if pid !in t.procs then (t, EINVAL)
    else
      match FirstZombie(t, t.procs[pid].children)
      case None => (t, 0)
      case Some(c) => (Remove(t, c), c)
  }

  // ---------------------------------------------------------------- PID conservation

  /** Live pids other than 0 and the free list partition [2, next). */
  ghost predicate Pids(t: Table) {
    && t.next >= 2 && 0 in t.procs
    && (forall p :: p in t.procs ==> p == 0 || 2 <= p < t.next)
    && NoDup(t.free)
    && (forall p :: p in t.free ==> 2 <= p < t.next && p !in t.procs)
    && (forall p :: 2 <= p < t.next ==> p in t.procs || p in t.free)
  }

  /** A spawned process gets a pid nobody alive has. */
  lemma SpawnPids(t: Table, name: string, ppid: int)
    requires Pids(t)
    ensures NextPid(t) !in t.procs && NextPid(t) >= 2
    ensures Spawn(t, name, ppid).0.procs.Keys == t.procs.Keys + {NextPid(t)}
    ensures Pids(Spawn(t, name, ppid).0)
  {
    if t.free != [] {
      assert t.free[0] in t.free;
      assert forall p :: p in t.free <==> p == t.free[0] || p in t.free[1..];
    }
  }

  lemma RemovePids(t: Table, pid: int)
    requires Pids(t) && pid != 0
    ensures Remove(t, pid).procs.Keys == t.procs.Keys - {pid}
    ensures Pids(Remove(t, pid))
  {
    if pid in t.procs {
      AppendNoDup(t.free, pid);
      assert forall p :: p in t.free + [pid] <==> p in t.free || p == pid;
    }
  }

  // ---------------------------------------------------------------- incarnations

  /**
   A pid names different processes over time. Each incarnation gets a birth stamp that is never
   reused, and remembers the stamp of the incarnation that created it (0 for none).
   */
  datatype Birth = Birth(stamp: nat, creator: nat)

  datatype World = World(t: Table, births: map<int, Birth>, clock: nat)

  ghost function Start(): World {
    World(Boot(), map[0 := Birth(1, 0)], 2)
  }

  ghost function SpawnW(w: World, name: string, ppid: int): World {
    var (t, pid) := Spawn(w.t, name, ppid);
    World(t, w.births[pid := Birth(w.clock, if ppid in w.births then w.births[ppid].stamp else 0)], w.clock + 1)
  }

  ghost function RemoveW(w: World, pid: int): World {
    World(Remove(w.t, pid), w.births - {pid}, w.clock)
  }

  ghost function ExitW(w: World, pid: int, code: int): World {
    w.(t := Exit(w.t, pid, code).0)
  }

  ghost function ForkW(w: World, pid: int): World {
    if pid !in w.t.procs then w else SpawnW(w, w.t.procs[pid].name, pid)
  }

  ghost function WaitW(w: World, pid: int): World {
    var r := Wait4(w.t, pid).1;
    if r > 0 then RemoveW(w, r) else w
  }

  /** Stamps belong to live processes, are positive, past and distinct. */
  ghost predicate Stamped(w: World) {
    && w.births.Keys == w.t.procs.Keys
    && (forall p :: p in w.births ==> 1 <= w.births[p].stamp < w.clock && w.births[p].creator < w.births[p].stamp)
    && (forall p, q :: p in w.births && q in w.births && w.births[p].stamp == w.births[q].stamp ==> p == q)
  }

  /** The children list of p holds exactly the live processes p's current incarnation created, oldest first. */
  ghost predicate ChildrenOk(w: World, p: int)
    requires Stamped(w) && p in w.t.procs
  {
    var cs := w.t.procs[p].children;
    && (forall c :: c in cs <==> c in w.t.procs && w.births[c].creator == w.births[p].stamp)
    && (forall c :: c in cs ==> w.t.procs[c].ppid == p)
    && Oldest(w.births, cs)
  }

  /** Listed in the order of their birth, hence without repetition. */
  ghost predicate Oldest(births: map<int, Birth>, cs: seq<int>) {
    && (forall i :: 0 <= i < |cs| ==> cs[i] in births)
    && forall i, j :: 0 <= i < j < |cs| ==> births[cs[i]].stamp < births[cs[j]].stamp
  }

  ghost predicate Forest(w: World) {
    && Pids(w.t) && Stamped(w)
    && w.births[0].creator == 0
    && forall p :: p in w.t.procs ==> ChildrenOk(w, p)
  }

  lemma StartForest()
    ensures Forest(Start())
  {
  }

  lemma SpawnStamped(w: World, name: string, ppid: int)
    requires Forest(w) && ppid != NextPid(w.t)
    ensures Pids(SpawnW(w, name, ppid).t) && Stamped(SpawnW(w, name, ppid))
  {
    SpawnPids(w.t, name, ppid);
  }

  lemma OldestAppend(births: map<int, Birth>, cs: seq<int>, c: int)
    requires Oldest(births, cs) && c in births
    requires forall x :: x in cs ==> x in births && births[x].stamp < births[c].stamp
    ensures Oldest(births, cs + [c])
  {
    forall i | 0 <= i < |cs| ensures births[cs[i]].stamp < births[c].stamp {
      var x := cs[i];
      assert x in cs;
    }
  }

  lemma OldestSame(births: map<int, Birth>, births': map<int, Birth>, cs: seq<int>)
    requires Oldest(births, cs) && forall c :: c in cs ==> c in births' && births'[c] == births[c]
    ensures Oldest(births', cs)
  {
    forall i | 0 <= i < |cs| ensures cs[i] in births' && births'[cs[i]] == births[cs[i]] {
      var c := cs[i];
      assert c in cs;
    }
  }

  /** The new process has no children; the creator's list gains it; no other list changes. */
  lemma SpawnChildren(w: World, name: string, ppid: int, p: int)
    requires Forest(w) && ppid != NextPid(w.t) && Stamped(SpawnW(w, name, ppid))
    requires p in SpawnW(w, name, ppid).t.procs
    ensures ChildrenOk(SpawnW(w, name, ppid), p)
  {
    SpawnPids(w.t, name, ppid);
    var w' := SpawnW(w, name, ppid);
    var pid := NextPid(w.t);
    var cs' := w'.t.procs[p].children;
    if p == pid {
      assert cs' == [];
    } else {
      assert ChildrenOk(w, p);
      var cs := w.t.procs[p].children;
      OldestSame(w.births, w'.births, cs);
      if p == ppid {
        assert cs' == cs + [pid];
        OldestAppend(w'.births, cs, pid);
      } else {
        assert cs' == cs;
      }
    }
    SpawnMembers(w, name, ppid, p);
  }

  lemma SpawnMembers(w: World, name: string, ppid: int, p: int)
    requires Forest(w) && ppid != NextPid(w.t) && Stamped(SpawnW(w, name, ppid))
    requires p in SpawnW(w, name, ppid).t.procs
    ensures var w' := SpawnW(w, name, ppid);
            forall c :: c in w'.t.procs[p].children <==>
                          c in w'.t.procs && w'.births[c].creator == w'.births[p].stamp
    ensures var w' := SpawnW(w, name, ppid);
            forall c :: c in w'.t.procs[p].children ==> w'.t.procs[c].ppid == p
  {
    SpawnPids(w.t, name, ppid);
    var w' := SpawnW(w, name, ppid);
    var pid := NextPid(w.t);
    if p != pid {
      assert ChildrenOk(w, p);
      var cs := w.t.procs[p].children;
      assert w'.t.procs[p].children == if p == ppid then cs + [pid] else cs;
    }
    forall c
      ensures c in w'.t.procs[p].children <==> c in w'.t.procs && w'.births[c].creator == w'.births[p].stamp
    {
      if c in w.t.procs {
        assert w'.births[c] == w.births[c];
      }
    }
  }

  lemma SpawnForest(w: World, name: string, ppid: int)
    requires Forest(w) && ppid != NextPid(w.t)
    ensures Forest(SpawnW(w, name, ppid))
  {
    SpawnStamped(w, name, ppid);
    forall p | p in SpawnW(w, name, ppid).t.procs ensures ChildrenOk(SpawnW(w, name, ppid), p) {
      SpawnChildren(w, name, ppid, p);
    }
  }

  lemma OldestNoDup(births: map<int, Birth>, cs: seq<int>)
    requires Oldest(births, cs)
    ensures NoDup(cs)
  {
  }

  lemma OldestCut(births: map<int, Birth>, cs: seq<int>, k: nat)
    requires Oldest(births, cs) && k < |cs|
    ensures Oldest(births, cs[..k] + cs[k + 1..])
  {
    var cut := cs[..k] + cs[k + 1..];
    forall c | c in cut ensures c in births {
      assert c in cs;
    }
    forall i, j | 0 <= i < j < |cut| ensures births[cut[i]].stamp < births[cut[j]].stamp {
      assert cut[i] == cs[if i < k then i else i + 1];
      assert cut[j] == cs[if j < k then j else j + 1];
    }
  }

  lemma OldestRemove(births: map<int, Birth>, cs: seq<int>, x: int)
    requires Oldest(births, cs)
    ensures Oldest(births, RemoveFirst(cs, x))
    ensures forall c :: c in RemoveFirst(cs, x) <==> c in cs && c != x
  {
    OldestNoDup(births, cs);
    RemoveFirstNoDup(cs, x);
    if x in cs {
      var k :| 0 <= k < |cs| && cs[k] == x;
      RemoveFirstAt(cs, x, k);
      OldestCut(births, cs, k);
    } else {
      RemoveAbsent(cs, x);
    }
  }

  lemma RemoveChildren(w: World, pid: int, p: int)
    requires Forest(w) && pid in w.t.procs && pid != 0 && Stamped(RemoveW(w, pid))
    requires p in RemoveW(w, pid).t.procs
    ensures ChildrenOk(RemoveW(w, pid), p)
  {
    RemovePids(w.t, pid);
    var w' := RemoveW(w, pid);
    assert ChildrenOk(w, p);
    var cs := w.t.procs[p].children;
    var cs' := w'.t.procs[p].children;
    OldestRemove(w.births, cs, pid);
    if p == w.t.procs[pid].ppid {
      assert cs' == RemoveFirst(cs, pid);
    } else {
      assert pid !in cs;
      RemoveAbsent(cs, pid);
      assert cs' == cs;
    }
    OldestSame(w.births, w'.births, cs');
    forall c ensures c in cs' <==> c in w'.t.procs && w'.births[c].creator == w'.births[p].stamp {
      assert c in cs' <==> c in cs && c != pid;
    }
  }

  lemma RemoveForest(w: World, pid: int)
    requires Forest(w) && pid in w.t.procs && pid != 0
    ensures Forest(RemoveW(w, pid))
  {
    RemovePids(w.t, pid);
    assert Stamped(RemoveW(w, pid));
    forall p | p in RemoveW(w, pid).t.procs ensures ChildrenOk(RemoveW(w, pid), p) {
      RemoveChildren(w, pid, p);
    }
  }

  lemma ExitForest(w: World, pid: int, code: int)
    requires Forest(w)
    ensures Forest(ExitW(w, pid, code))
  {
    var w' := ExitW(w, pid, code);
    assert w'.t.procs.Keys == w.t.procs.Keys;
    forall p | p in w'.t.procs ensures ChildrenOk(w', p) {
      assert ChildrenOk(w, p);
    }
  }

  /** What the scan for a zombie finds: the first one in the list. */
  lemma {:induction false} FirstZombieIs(t: Table, cs: seq<int>)
    ensures FirstZombie(t, cs).None? <==> forall c :: c in cs ==> !IsZombie(t, c)
    ensures FirstZombie(t, cs).Some? ==>
              exists k :: 0 <= k < |cs| && cs[k] == FirstZombie(t, cs).value && IsZombie(t, cs[k]) &&
                forall i :: 0 <= i < k ==> !IsZombie(t, cs[i])
    decreases |cs|
  {
    if cs != [] {
      FirstZombieIs(t, cs[1..]);
      assert forall c :: c in cs <==> c == cs[0] || c in cs[1..];
      if IsZombie(t, cs[0]) {
        assert cs[0] == FirstZombie(t, cs).value;
      } else if FirstZombie(t, cs).Some? {
        var k :| 0 <= k < |cs[1..]| && cs[1..][k] == FirstZombie(t, cs).value && IsZombie(t, cs[1..][k]) &&
          forall i :: 0 <= i < k ==> !IsZombie(t, cs[1..][i]);
        forall i | 0 <= i < k + 1 ensures !IsZombie(t, cs[i]) {
          if i > 0 {
            assert cs[i] == cs[1..][i - 1];
          }
        }
        assert cs[k + 1] == FirstZombie(t, cs).value;
      }
    }
  }

  /** The first zombie of a list ordered by birth is the oldest one. */
  lemma FirstIsOldest(w: World, pid: int)
    requires Forest(w) && pid in w.t.procs && FirstZombie(w.t, w.t.procs[pid].children).Some?
    ensures var r := FirstZombie(w.t, w.t.procs[pid].children).value;
            && IsZombie(w.t, r) && r in w.t.procs[pid].children
            && forall c :: c in w.t.procs[pid].children && IsZombie(w.t, c) ==>
                 c in w.births && r in w.births && w.births[r].stamp <= w.births[c].stamp
  {
    assert ChildrenOk(w, pid);
    var cs := w.t.procs[pid].children;
    FirstZombieIs(w.t, cs);
    var k :| 0 <= k < |cs| && cs[k] == FirstZombie(w.t, cs).value && IsZombie(w.t, cs[k]) &&
      forall i :: 0 <= i < k ==> !IsZombie(w.t, cs[i]);
    forall c | c in cs && IsZombie(w.t, c)
      ensures c in w.births && cs[k] in w.births && w.births[cs[k]].stamp <= w.births[c].stamp
    {
      var i :| 0 <= i < |cs| && cs[i] == c;
      OldestLe(w.births, cs, k, i);
    }
  }

  lemma OldestLe(births: map<int, Birth>, cs: seq<int>, i: nat, j: nat)
    requires Oldest(births, cs) && i <= j < |cs|
    ensures cs[i] in births && cs[j] in births && births[cs[i]].stamp <= births[cs[j]].stamp
  {
  }

  /** A listed child is alive, was created by this very incarnation, is not 0 and not its own parent. */
  lemma ChildFacts(w: World, pid: int, c: int)
    requires Forest(w) && pid in w.t.procs && c in w.t.procs[pid].children
    ensures c in w.t.procs && c >= 2 && c != pid && w.t.procs[c].ppid == pid
    ensures c in w.births && w.births[c].creator == w.births[pid].stamp < w.births[c].stamp
    ensures forall q :: q in w.t.procs && q != pid ==> c !in w.t.procs[q].children
  {
    assert ChildrenOk(w, pid);
    forall q | q in w.t.procs && q != pid ensures c !in w.t.procs[q].children {
      assert ChildrenOk(w, q);
    }
  }

  /** z is a zombie that the current incarnation of pid created. */
  ghost predicate OwnZombie(w: World, pid: int, z: int)
    requires Stamped(w) && pid in w.t.procs
  {
    IsZombie(w.t, z) && w.births[z].creator == w.births[pid].stamp
  }

  /**
   wait4 in a reachable state: -22 exactly when the caller is not alive, 0 exactly when its current
   incarnation created no zombie, and otherwise the oldest such zombie, which is then gone and its
   pid free.
   */
  lemma Wait4Exact(w: World, pid: int)
    requires Forest(w)
    ensures Wait4(w.t, pid).1 == EINVAL <==> pid !in w.t.procs
    ensures Wait4(w.t, pid).1 == 0 <==> pid in w.t.procs && forall z :: !OwnZombie(w, pid, z)
    ensures pid in w.t.procs && (exists z :: OwnZombie(w, pid, z)) ==>
              var (t', r) := Wait4(w.t, pid);
              && OwnZombie(w, pid, r)
              && (forall z :: OwnZombie(w, pid, z) ==> w.births[r].stamp <= w.births[z].stamp)
              && r !in t'.procs && r in t'.free
  {
    if pid in w.t.procs {
      assert ChildrenOk(w, pid);
      var cs := w.t.procs[pid].children;
      FirstZombieIs(w.t, cs);
      assert forall z :: OwnZombie(w, pid, z) <==> z in cs && IsZombie(w.t, z);
      if FirstZombie(w.t, cs).Some? {
        FirstIsOldest(w, pid);
        var r := FirstZombie(w.t, cs).value;
        ChildFacts(w, pid, r);
        assert OwnZombie(w, pid, r);
        RemovePids(w.t, r);
      }
    }
  }

  // ---------------------------------------------------------------- every run

  datatype Op = OpSpawn(name: string, ppid: int) | OpFork(pid: int) | OpExit(pid: int, code: int) | OpWait4(pid: int)

  /** Nobody can name as parent the pid that is about to be handed out. */
  ghost predicate Legal(w: World, op: Op) {
    op.OpSpawn? ==> op.ppid != NextPid(w.t)
  }

  ghost function Step(w: World, op: Op): World {
    match op
    case OpSpawn(name, ppid) => SpawnW(w, name, ppid)
    case OpFork(pid) => ForkW(w, pid)
    case OpExit(pid, code) => ExitW(w, pid, code)
    case OpWait4(pid) => WaitW(w, pid)
  }

  /** The annotated step does to the table what the operation does. */
  lemma StepIsOperation(w: World, op: Op)
    requires Forest(w)
    ensures Step(w, op).t ==
              match op
              case OpSpawn(name, ppid) => Spawn(w.t, name, ppid).0
              case OpFork(pid) => Fork(w.t, pid).0
              case OpExit(pid, code) => Exit(w.t, pid, code).0
              case OpWait4(pid) => Wait4(w.t, pid).0
  {
    if op.OpWait4? && op.pid in w.t.procs {
      Wait4Positive(w, op.pid);
    }
  }

  lemma Wait4Positive(w: World, pid: int)
    requires Forest(w) && pid in w.t.procs
    ensures FirstZombie(w.t, w.t.procs[pid].children).Some? ==> Wait4(w.t, pid).1 >= 2
    ensures Wait4(w.t, pid).1 > 0 ==>
              Wait4(w.t, pid).1 in w.t.procs[pid].children && Wait4(w.t, pid).0 == Remove(w.t, Wait4(w.t, pid).1)
  {
    if FirstZombie(w.t, w.t.procs[pid].children).Some? {
      FirstIsOldest(w, pid);
      ChildFacts(w, pid, FirstZombie(w.t, w.t.procs[pid].children).value);
    }
  }

  lemma StepForest(w: World, op: Op)
    requires Forest(w) && Legal(w, op)
    ensures Forest(Step(w, op))
  {
    match op
    case OpSpawn(name, ppid) => SpawnForest(w, name, ppid);
    case OpFork(pid) =>
      SpawnPids(w.t, "", pid);
      if pid in w.t.procs {
        SpawnForest(w, w.t.procs[pid].name, pid);
      }
    case OpExit(pid, code) => ExitForest(w, pid, code);
    case OpWait4(pid) =>
      if pid in w.t.procs && Wait4(w.t, pid).1 > 0 {
        Wait4Positive(w, pid);
        ChildFacts(w, pid, Wait4(w.t, pid).1);
        RemoveForest(w, Wait4(w.t, pid).1);
      }
  }

  ghost predicate LegalRun(w: World, ops: seq<Op>)
    decreases |ops|
  {
    ops == [] || (Legal(w, ops[0]) && LegalRun(Step(w, ops[0]), ops[1..]))
  }

  ghost function Run(w: World, ops: seq<Op>): World
    decreases |ops|
  {
    if ops == [] then w else Run(Step(w, ops[0]), ops[1..])
  }

  /** In every run the children lists form the forest of live incarnations, and pids are conserved. */
  lemma {:induction false} RunForest(w: World, ops: seq<Op>)
    requires Forest(w) && LegalRun(w, ops)
    ensures Forest(Run(w, ops))
    decreases |ops|
  {
    if ops != [] {
      StepForest(w, ops[0]);
      RunForest(Step(w, ops[0]), ops[1..]);
    }
  }

  /** A spawn that names its own new pid as parent, and only such a spawn, makes a process its own child. */
  lemma SpawnForestExactly(w: World, name: string, ppid: int)
    requires Forest(w)
    ensures Forest(SpawnW(w, name, ppid)) <==> ppid != NextPid(w.t)
  {
    if ppid != NextPid(w.t) {
      SpawnForest(w, name, ppid);
    } else {
      SpawnPids(w.t, name, ppid);
      var w' := SpawnW(w, name, ppid);
      assert w'.t.procs[ppid].children == [ppid];
      assert ppid in w'.t.procs[ppid].children;
      if Forest(w') {
        ChildFacts(w', ppid, ppid);
      }
    }
  }

  /** A chain of parent-child links. */
  ghost predicate Chain(t: Table, p: seq<int>) {
    && p != []
    && forall i :: 0 <= i < |p| - 1 ==> p[i] in t.procs && p[i + 1] in t.procs[p[i]].children
  }

  /** Down a chain births get later, so no process is its own descendant. */
  lemma {:induction false} ChainAcyclic(w: World, p: seq<int>)
    requires Forest(w) && Chain(w.t, p) && |p| >= 2
    ensures p[0] in w.births && p[|p| - 1] in w.births
    ensures w.births[p[0]].stamp < w.births[p[|p| - 1]].stamp && p[0] != p[|p| - 1]
    decreases |p|
  {
    assert p[0] in w.t.procs && p[0 + 1] in w.t.procs[p[0]].children;
    ChildFacts(w, p[0], p[1]);
    if |p| > 2 {
      var q := p[1..];
      forall i | 0 <= i < |q| - 1 ensures q[i] in w.t.procs && q[i + 1] in w.t.procs[q[i]].children {
        assert q[i] == p[i + 1] && q[i + 1] == p[i + 1 + 1];
      }
      ChainAcyclic(w, q);
    }
  }

  // ---------------------------------------------------------------- draining

  ghost function Zombies(t: Table, cs: seq<int>): seq<int> {
    if cs == [] then [] else (if IsZombie(t, cs[0]) then [cs[0]] else []) + Zombies(t, cs[1..])
  }

  ghost function Others(t: Table, cs: seq<int>): seq<int> {
    if cs == [] then [] else (if IsZombie(t, cs[0]) then [] else [cs[0]]) + Others(t, cs[1..])
  }

  lemma ReapShrinks(t: Table, pid: int)
    requires Wait4(t, pid).1 > 0
    ensures Wait4(t, pid).1 in t.procs
    ensures |Wait4(t, pid).0.procs| < |t.procs|
  {
    FirstZombieIs(t, t.procs[pid].children);
    var r := Wait4(t, pid).1;
    var t' := Wait4(t, pid).0;
    assert t'.procs.Keys == t.procs.Keys - {r};
    assert |t'.procs| == |t'.procs.Keys| && |t.procs| == |t.procs.Keys|;
  }

  /** Call wait4 until it stops returning a pid; the pids in the order they came. */
  ghost function Drain(t: Table, pid: int): (Table, seq<int>)
    decreases |t.procs|
  {
    var (t', r) := Wait4(t, pid);
    if r <= 0 then (t', [])
    else
      ReapShrinks(t, pid);
      var (t'', rest) := Drain(t', pid);
      (t'', [r] + rest)
  }

  lemma {:induction false} ZombiesFirst(t: Table, cs: seq<int>)
    ensures FirstZombie(t, cs).None? ==> Zombies(t, cs) == [] && Others(t, cs) == cs
    ensures FirstZombie(t, cs).Some? ==>
              && Zombies(t, cs) == [FirstZombie(t, cs).value] + Zombies(t, RemoveFirst(cs, FirstZombie(t, cs).value))
              && Others(t, cs) == Others(t, RemoveFirst(cs, FirstZombie(t, cs).value))
    decreases |cs|
  {
    if cs != [] {
      ZombiesFirst(t, cs[1..]);
      if !IsZombie(t, cs[0]) && FirstZombie(t, cs).Some? {
        var z := FirstZombie(t, cs).value;
        FirstZombieIs(t, cs[1..]);
        assert z != cs[0];
        var rest := RemoveFirst(cs[1..], z);
        assert RemoveFirst(cs, z) == [cs[0]] + rest;
        assert ([cs[0]] + rest)[1..] == rest;
      }
    }
  }

  lemma {:induction false} ZombiesSame(t: Table, u: Table, cs: seq<int>)
    requires forall c :: c in cs ==> (IsZombie(t, c) <==> IsZombie(u, c))
    ensures Zombies(t, cs) == Zombies(u, cs) && Others(t, cs) == Others(u, cs)
    decreases |cs|
  {
    if cs != [] {
      assert cs[0] in cs;
      ZombiesSame(t, u, cs[1..]);
    }
  }

  lemma ReapTable(w: World, pid: int)
    requires Forest(w) && pid in w.t.procs && Wait4(w.t, pid).1 > 0
    ensures var (t', r) := Wait4(w.t, pid);
            && FirstZombie(w.t, w.t.procs[pid].children) == Some(r)
            && pid in t'.procs && t'.procs[pid].children == RemoveFirst(w.t.procs[pid].children, r)
            && t'.free == w.t.free + [r]
            && forall c :: c != r ==> (IsZombie(w.t, c) <==> IsZombie(t', c))
  {
    Wait4Positive(w, pid);
    ChildFacts(w, pid, Wait4(w.t, pid).1);
  }

  /** One reaping takes the head of the zombie list and leaves the rest of the family alone. */
  lemma ReapStep(w: World, pid: int)
    requires Forest(w) && pid in w.t.procs && Wait4(w.t, pid).1 > 0
    ensures var (t', r) := Wait4(w.t, pid);
            && pid in t'.procs && t'.free == w.t.free + [r]
            && Zombies(w.t, w.t.procs[pid].children) == [r] + Zombies(t', t'.procs[pid].children)
            && Others(w.t, w.t.procs[pid].children) == Others(t', t'.procs[pid].children)
            && t'.procs.Keys == w.t.procs.Keys - {r}
  {
    var (t', r) := Wait4(w.t, pid);
    var cs := w.t.procs[pid].children;
    ReapTable(w, pid);
    ZombiesFirst(w.t, cs);
    assert ChildrenOk(w, pid);
    OldestRemove(w.births, cs, r);
    ZombiesSame(w.t, t', RemoveFirst(cs, r));
  }

  lemma ReapForest(w: World, pid: int)
    requires Forest(w) && pid in w.t.procs && Wait4(w.t, pid).1 > 0
    ensures Forest(WaitW(w, pid)) && WaitW(w, pid).t == Wait4(w.t, pid).0
  {
    Wait4Positive(w, pid);
    StepForest(w, OpWait4(pid));
  }

  /** What draining achieves, as a relation between the tables before and after. */
  ghost predicate Drained(t: Table, t': Table, pid: int, reaped: seq<int>)
    requires pid in t.procs
  {
    && reaped == Zombies(t, t.procs[pid].children)
    && pid in t'.procs && t'.procs[pid].children == Others(t, t.procs[pid].children)
    && t'.free == t.free + reaped && Wait4(t', pid).1 == 0
    && t'.procs.Keys == t.procs.Keys - set r | r in reaped
  }

  lemma DrainStep(w: World, pid: int, t'': Table, rest: seq<int>)
    requires Forest(w) && pid in w.t.procs && Wait4(w.t, pid).1 > 0
    requires pid in Wait4(w.t, pid).0.procs && Drained(Wait4(w.t, pid).0, t'', pid, rest)
    ensures Drained(w.t, t'', pid, [Wait4(w.t, pid).1] + rest)
  {
    var (t', r) := Wait4(w.t, pid);
    ReapStep(w, pid);
    CutKeys(w.t.procs.Keys, r, rest);
    assert t''.free == w.t.free + ([r] + rest);
  }

  lemma CutKeys(keys: set<int>, r: int, rest: seq<int>)
    ensures keys - {r} - (set x | x in rest) == keys - set x | x in [r] + rest
  {
  }

  lemma DrainEnd(w: World, pid: int)
    requires Forest(w) && pid in w.t.procs && Wait4(w.t, pid).1 <= 0
    ensures Wait4(w.t, pid).0 == w.t && Drained(w.t, w.t, pid, [])
  {
    Wait4Positive(w, pid);
    ZombiesFirst(w.t, w.t.procs[pid].children);
  }

  /**
   Draining terminates and reaps exactly the zombies the caller's incarnation created, oldest first;
   its other children stay, and the pids go to the free list in that order.
   */
  lemma {:induction false} DrainExact(w: World, pid: int)
    requires Forest(w) && pid in w.t.procs
    ensures var (t', reaped) := Drain(w.t, pid); Drained(w.t, t', pid, reaped)
    decreases |w.t.procs|
  {
    if Wait4(w.t, pid).1 > 0 {
      ReapShrinks(w.t, pid);
      ReapStep(w, pid);
      ReapForest(w, pid);
      DrainExact(WaitW(w, pid), pid);
      var (t'', rest) := Drain(Wait4(w.t, pid).0, pid);
      DrainStep(w, pid, t'', rest);
    } else {
      DrainEnd(w, pid);
    }
  }

  lemma {:induction false} ZombiesMembers(t: Table, cs: seq<int>)
    ensures forall z :: z in Zombies(t, cs) <==> z in cs && IsZombie(t, z)
    decreases |cs|
  {
    if cs != [] {
      ZombiesMembers(t, cs[1..]);
      assert forall z :: z in cs <==> z == cs[0] || z in cs[1..];
    }
  }

  /** A parent that keeps waiting after a child's exit reaps that child, and its pid can be handed out again. */
  lemma ExitIsReaped(w: World, pid: int, child: int, code: int)
    requires Forest(w) && pid in w.t.procs && child in w.t.procs[pid].children
    ensures var (t', reaped) := Drain(Exit(w.t, child, code).0, pid);
            child in reaped && child !in t'.procs && child in t'.free
  {
    ChildFacts(w, pid, child);
    ExitForest(w, child, code);
    var w1 := ExitW(w, child, code);
    assert w1.t.procs[pid].children == w.t.procs[pid].children;
    ZombiesMembers(w1.t, w1.t.procs[pid].children);
    DrainExact(w1, pid);
  }

  // ---------------------------------------------------------------- tables without their stamps

  /** The table is the visible part of some well-formed world. */
  ghost predicate HasForest(t: Table) {
    exists births, clock :: Forest(World(t, births, clock))
  }

  ghost function WorldOf(t: Table): (w: World)
    requires HasForest(t)
    ensures w.t == t && Forest(w)
  {
    var births, clock :| Forest(World(t, births, clock));
    World(t, births, clock)
  }

  lemma ForestWitness(w: World)
    requires Forest(w)
    ensures HasForest(w.t)
  {
    assert w == World(w.t, w.births, w.clock);
  }

  lemma ForestPids(t: Table)
    requires HasForest(t)
    ensures Pids(t)
  {
    var w := WorldOf(t);
  }

  lemma BootForest()
    ensures HasForest(Boot())
  {
    StartForest();
    ForestWitness(Start());
  }

  lemma ForkForest(t: Table, pid: int)
    requires HasForest(t)
    ensures HasForest(Fork(t, pid).0)
  {
    var w := WorldOf(t);
    StepForest(w, OpFork(pid));
    StepIsOperation(w, OpFork(pid));
    ForestWitness(Step(w, OpFork(pid)));
  }

  lemma ExitKeepsForest(t: Table, pid: int, code: int)
    requires HasForest(t)
    ensures HasForest(Exit(t, pid, code).0)
  {
    var w := WorldOf(t);
    StepForest(w, OpExit(pid, code));
    ForestWitness(Step(w, OpExit(pid, code)));
  }

  lemma Wait4KeepsForest(t: Table, pid: int)
    requires HasForest(t)
    ensures HasForest(Wait4(t, pid).0)
    ensures var (t', r) := Wait4(t, pid);
            if r > 0 then pid in t.procs && IsZombie(t, r) && t' == Remove(t, r) else t' == t
  {
    var w := WorldOf(t);
    StepForest(w, OpWait4(pid));
    StepIsOperation(w, OpWait4(pid));
    ForestWitness(Step(w, OpWait4(pid)));
    if pid in t.procs {
      Wait4Positive(w, pid);
      FirstZombieIs(t, t.procs[pid].children);
    }
  }

  function SetFdt(t: Table, pid: int, fdt: map<int, (string, string)>): Table
    requires pid in t.procs
  {
    t.(procs := t.procs[pid := t.procs[pid].(fdt := fdt)])
  }

  /** Descriptor tables play no part in the family tree. */
  lemma FdtKeepsForest(t: Table, pid: int, fdt: map<int, (string, string)>)
    requires HasForest(t) && pid in t.procs
    ensures HasForest(SetFdt(t, pid, fdt))
  {
    var w := WorldOf(t);
    var w' := w.(t := SetFdt(t, pid, fdt));
    assert w'.t.procs.Keys == t.procs.Keys;
    forall p | p in w'.t.procs ensures ChildrenOk(w', p) {
      assert ChildrenOk(w, p);
    }
    ForestWitness(w');
  }

  function FdtOf(t: Table, pid: int): map<int, (string, string)> {
    if pid in t.procs then t.procs[pid].fdt else map[]
  }

  /** A fork adds a process with an empty descriptor table. */
  lemma ForkFdts(t: Table, pid: int)
    requires Pids(t)
    ensures forall p :: FdtOf(Fork(t, pid).0, p) == FdtOf(t, p)
  {
    if pid in t.procs {
      SpawnPids(t, t.procs[pid].name, pid);
    }
  }

  lemma ExitFdts(t: Table, pid: int, code: int)
    ensures forall p :: FdtOf(Exit(t, pid, code).0, p) == FdtOf(t, p)
  {
  }

  lemma RemoveFdts(t: Table, pid: int)
    ensures forall p :: FdtOf(Remove(t, pid), p) == if p == pid then map[] else FdtOf(t, p)
  {
  }
}
