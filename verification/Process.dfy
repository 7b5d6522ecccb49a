/** Process objects, their descriptor tables, and the table that spawns and reaps them. */
module ProcessClass {
  import opened Prelude
  import opened TaskStates
  import opened ProcessModel

  class FileDescriptorTable {
    ghost const pid: int
    var table: map<int, (string, string)>

    constructor (ghost pid: int)
      ensures this.pid == pid && table == map[]
    {
      this.pid := pid;
      table := map[];
    }
  }

  class Process {
    const pid: int
    const ppid: int
    const name: string
    const fdt: FileDescriptorTable
    var state: TaskState
    var exitCode: int
    var children: seq<int>

    constructor (pid: int, ppid: int, name: string, state: TaskState)
      ensures this.pid == pid && this.ppid == ppid && fresh(fdt) && fdt.pid == pid
      ensures View() == Proc(ppid, name, state, 0, [], map[])
    {
      this.pid := pid;
      this.ppid := ppid;
      this.name := name;
      this.state := state;
      exitCode := 0;
      children := [];
      fdt := new FileDescriptorTable(pid);
    }

    ghost function View(): Proc
      reads this, fdt
    {
      Proc(ppid, name, state, exitCode, children, fdt.table)
    }
  }

  class PidAllocator {
    var nextPid: int
    var freePids: seq<int>

    constructor ()
      ensures nextPid == 2 && freePids == []
    {
      nextPid := 2;
      freePids := [];
    }

    /** The live pids and the freed ones are exactly the pids ever handed out, none twice. */
    ghost predicate Splits(live: set<int>)
      reads this
    {
      && nextPid >= 2 && NoDup(freePids)
      && (forall p :: p in live ==> 2 <= p < nextPid && p !in freePids)
      && (forall p :: p in freePids ==> 2 <= p < nextPid)
      && (forall p :: 2 <= p < nextPid ==> p in live || p in freePids)
    }

    /** The new pid is none of the live ones, whichever they are, and joins them. */
    method Alloc() returns (pid: int)
      modifies this
      ensures forall live: set<int> :: old(Splits(live)) ==> pid >= 2 && pid !in live && Splits(live + {pid})
      ensures pid == if old(freePids) != [] then old(freePids)[0] else old(nextPid)
      ensures freePids == if old(freePids) != [] then old(freePids)[1..] else []
      ensures nextPid == if old(freePids) != [] then old(nextPid) else old(nextPid) + 1
    {
      if freePids != [] {
        pid := freePids[0];
        freePids := freePids[1..];
        assert forall p :: p in old(freePids) <==> p == pid || p in freePids;
      } else {
        pid := nextPid;
        nextPid := nextPid + 1;
      }
      forall live: set<int> | old(Splits(live)) ensures pid >= 2 && pid !in live && Splits(live + {pid}) {
        assert old(freePids) != [] ==> pid in old(freePids);
      }
    }

    /** A live pid that is freed leaves the live ones and can be handed out again; 0 and 1 never can. */
    method Free(pid: int)
      modifies `freePids
      ensures forall live: set<int> :: old(Splits(live)) && pid in live ==> Splits(live - {pid})
      ensures forall live: set<int> :: old(Splits(live)) && pid <= 1 ==> Splits(live)
      ensures freePids == if pid > 1 then old(freePids) + [pid] else old(freePids)
    {
      if pid > 1 {
        freePids := freePids + [pid];
        assert forall p :: p in freePids <==> p in old(freePids) || p == pid;
      }
    }
  }

  class ProcessTable {
    const pidAlloc: PidAllocator
    var table: map<int, Process>
    /** The table as a value, and the objects that represent it. */
    ghost var state: Table
    ghost var procs: set<Process>
    ghost var fdts: set<FileDescriptorTable>

    ghost predicate ProcOk(p: int)
      requires p in table
      reads this, procs, fdts
    {
      && table[p] in procs && table[p].fdt in fdts && table[p].pid == p && table[p].fdt.pid == p
      && p in state.procs && state.procs[p] == table[p].View()
    }

    ghost predicate Valid()
      reads this, pidAlloc, procs, fdts
    {
      && state.next == pidAlloc.nextPid && state.free == pidAlloc.freePids
      && state.procs.Keys == table.Keys
      && forall p :: p in table ==> ProcOk(p)
    }

    /** The allocator's pids split into live and freed exactly when pids are conserved. */
    lemma PidsSplit()
      requires Valid()
      ensures Pids(state) <==> 0 in state.procs && pidAlloc.Splits(state.procs.Keys - {0})
    {
      var live := state.procs.Keys - {0};
      assert forall p :: p in live <==> p in state.procs && p != 0;
    }

    constructor ()
      ensures Valid() && fresh(pidAlloc) && fresh(procs) && fresh(fdts) && state == Boot()
    {
      pidAlloc := new PidAllocator();
      var idle := new Process(0, 0, "swapper/0", Runnable);
      table := map[0 := idle];
      state := Boot();
      procs, fdts := {idle}, {idle.fdt};
    }

    method Get(pid: int) returns (proc: Process?)
      requires Valid()
      ensures proc != null <==> pid in state.procs
      ensures proc != null ==> pid in table && proc == table[pid] && ProcOk(pid)
    {
      if pid !in table {
        return null;
      }
      assert ProcOk(pid);
      return table[pid];
    }

    /** Objects of different processes are different. */
    lemma Apart(p: int)
      requires Valid() && p in table
      ensures forall q :: q in table && q != p ==> table[q] != table[p] && table[q].fdt != table[p].fdt
    {
      assert ProcOk(p);
      forall q | q in table && q != p ensures table[q] != table[p] && table[q].fdt != table[p].fdt {
        assert ProcOk(q);
      }
    }

    method SetChildren(pid: int, children: seq<int>)
      requires Valid() && pid in table
      modifies `state, table[pid]
      ensures Valid() && pid in old(state).procs
      ensures state == old(state).(procs := old(state).procs[pid := old(state).procs[pid].(children := children)])
    {
      Apart(pid);
      assert ProcOk(pid);
      table[pid].children := children;
      state := state.(procs := state.procs[pid := state.procs[pid].(children := children)]);
      forall q | q in table ensures ProcOk(q) {
        assert old(ProcOk(q));
      }
    }

    /** `proc.state = ZOMBIE; proc.exit_code = code`. */
    method MarkExited(pid: int, code: int)
      requires Valid() && pid in table
      modifies `state, table[pid]
      ensures Valid() && (state, 0) == Exit(old(state), pid, code)
    {
      Apart(pid);
      assert ProcOk(pid);
      table[pid].state := Zombie;
      table[pid].exitCode := code;
      state := Exit(state, pid, code).0;
      forall q | q in table ensures ProcOk(q) {
        assert old(ProcOk(q));
      }
    }

    /** Replace a process's descriptor entries. */
    method SetEntries(pid: int, entries: map<int, (string, string)>)
      requires Valid() && pid in table
      modifies `state, table[pid].fdt
      ensures Valid() && pid in old(state).procs && state == SetFdt(old(state), pid, entries)
    {
      Apart(pid);
      assert ProcOk(pid);
      table[pid].fdt.table := entries;
      state := SetFdt(state, pid, entries);
      forall q | q in table ensures ProcOk(q) {
        assert old(ProcOk(q));
      }
    }

    /** Allocate a pid and enter a fresh process under it. */
    method Enter(name: string, ppid: int) returns (pid: int)
      requires Valid()
      modifies this, pidAlloc
      ensures Valid() && pid == NextPid(old(state))
      ensures forall p :: p in procs ==> p in old(procs) || fresh(p)
      ensures forall t :: t in fdts ==> t in old(fdts) || fresh(t)
      ensures state == AllocPid(old(state)).(procs := old(state).procs[pid := Proc(ppid, name, New, 0, [], map[])])
    {
      pid := pidAlloc.Alloc();
      var proc := new Process(pid, ppid, name, New);
      table := table[pid := proc];
      procs := procs + {proc};
      fdts := fdts + {proc.fdt};
      state := AllocPid(state).(procs := state.procs[pid := proc.View()]);
      forall q | q in table ensures ProcOk(q) {
        if q != pid {
          assert old(ProcOk(q));
        }
      }
    }

    method Spawn(name: string, ppid: int) returns (pid: int)
      requires Valid()
      modifies this, pidAlloc, procs
      ensures Valid() && (state, pid) == ProcessModel.Spawn(old(state), name, ppid)
      ensures forall p :: p in procs ==> p in old(procs) || fresh(p)
      ensures forall t :: t in fdts ==> t in old(fdts) || fresh(t)
    {
      pid := Enter(name, ppid);
      var parent := Get(ppid);
      if parent != null {
        SetChildren(ppid, parent.children + [pid]);
      }
    }

    /** Take a process out of the table and give its pid back. */
    method Discard(pid: int)
      requires Valid() && pid in table
      modifies `table, `state, pidAlloc
      ensures Valid() && state == FreePid(old(state), pid).(procs := old(state).procs - {pid})
      ensures table == old(table) - {pid}
    {
      table := table - {pid};
      pidAlloc.Free(pid);
      state := FreePid(state, pid).(procs := state.procs - {pid});
      forall q | q in table ensures ProcOk(q) {
        assert old(ProcOk(q));
      }
    }

    method Remove(pid: int)
      requires Valid()
      modifies this, pidAlloc, procs
      ensures Valid() && procs == old(procs) && fdts == old(fdts)
      ensures state == ProcessModel.Remove(old(state), pid)
    {
      var proc := Get(pid);
      if proc == null {
        return;
      }
      Discard(pid);
      var parent := Get(proc.ppid);
      if parent != null {
        RemoveListed(parent.children, pid);
        if pid in parent.children {
          SetChildren(proc.ppid, RemoveFirst(parent.children, pid));
        }
      }
    }

    /** Removing what is not listed changes nothing. */
    lemma RemoveListed(cs: seq<int>, pid: int)
      ensures pid !in cs ==> RemoveFirst(cs, pid) == cs
    {
      if pid !in cs {
        RemoveAbsent(cs, pid);
      }
    }
  }
}
