/** The dispatcher's handlers over the process table, VFS and memory-manager objects. */
module SyscallClass {
  import opened Prelude
  import opened ByteStrings
  import opened TaskStates
  import opened SyscallModel
  import P = ProcessModel
  import V = VfsModel
  import M = MemoryModel
  import opened ProcessClass
  import opened VfsClass
  import opened MemoryClass

  lemma WriteForm(k: Kernel, pid: int, fd: int, data: seq<Byte>, vfs: V.Vfs, n: int)
    requires V.MountsOk(k.vfs) && fd in Fdt(k, pid) && fd != 1 && fd != 2
    requires (vfs, n) == V.WriteFd(k.vfs, fd, data)
    ensures SyscallModel.SysWrite(k, pid, fd, data) == (k.(vfs := vfs), n)
  {
  }

  lemma OpenatForm(k: Kernel, pid: int, path: string, flags: string, vfs: V.Vfs, fd: int)
    requires V.MountsOk(k.vfs) && pid in k.pt.procs && path != ""
    requires (vfs, fd) == V.Open(k.vfs, path, flags)
    ensures SyscallModel.SysOpenat(k, pid, path, flags) ==
              (k.(vfs := vfs,
                  pt := if fd >= 0 then P.SetFdt(k.pt, pid, Fdt(k, pid)[fd := (path, flags)]) else k.pt), fd)
  {
  }

  class SyscallDispatcher {
    const pt: ProcessTable
    const vfs: VfsObject
    const vmm: VirtualMemoryManager
    var brk: map<int, int>

    ghost predicate Valid()
      reads this, pt, pt.pidAlloc, pt.procs, pt.fdts
      reads vfs, vfs.disks.Values, vfs.nodes, vfs.handles, vmm
    {
      pt.Valid() && vfs.Valid() && vmm.Valid()
    }

    ghost function Heap(): M.HeapState
      reads this, vmm, vmm.addressSpaces.Values, vmm.pmm.pages
    {
      M.HeapState(vmm.View(), brk)
    }

    ghost function View(): Kernel
      reads this, pt, vfs, vfs.disks.Values, vfs.openFiles.Values
      reads vmm, vmm.addressSpaces.Values, vmm.pmm.pages
    {
      Kernel(pt.state, vfs.View(), Heap())
    }

    constructor (pt: ProcessTable, vfs: VfsObject, vmm: VirtualMemoryManager)
      requires pt.Valid() && vfs.Valid() && vmm.Valid()
      ensures Valid() && this.pt == pt && this.vfs == vfs && this.vmm == vmm
      ensures View() == Kernel(pt.state, vfs.View(), M.HeapState(vmm.View(), map[]))
    {
      this.pt := pt;
      this.vfs := vfs;
      this.vmm := vmm;
      brk := map[];
    }

    // ------------------------------------------------------------ what a call leaves alone

    twostate lemma SameVfs()
      requires old(vfs.Valid())
      requires unchanged(vfs) && unchanged(vfs.disks.Values) && unchanged(vfs.nodes) && unchanged(vfs.handles)
      ensures vfs.Valid() && vfs.View() == old(vfs.View())
    {
      assert forall fd :: fd in vfs.openFiles ==> vfs.openFiles[fd] in vfs.handles;
      assert vfs.Opens() == old(vfs.Opens());
    }

    twostate lemma SameTable()
      requires old(pt.Valid())
      requires unchanged(pt) && unchanged(pt.pidAlloc) && unchanged(pt.procs) && unchanged(pt.fdts)
      ensures pt.Valid() && pt.state == old(pt.state)
    {
    }

    twostate lemma SameMemory()
      requires old(vmm.Valid())
      requires unchanged(vmm) && unchanged(vmm.addressSpaces.Values) && unchanged(vmm.pmm.pages)
      ensures vmm.Valid() && vmm.View() == old(vmm.View())
    {
    }

    // ------------------------------------------------------------ files

    method SysRead(pid: int, fd: int, size: int) returns (r: int)
      requires Valid()
      modifies vfs.handles
      ensures Valid()
      ensures V.MountsOk(old(View()).vfs) && (View(), r) == SyscallModel.SysRead(old(View()), pid, fd, size)
    {
      var proc := pt.Get(pid);
      if proc == null {
        r := EINVAL;
      } else if fd !in proc.fdt.table {
        r := EBADF;
      } else {
        var data := vfs.Read(fd, size);
        r := |data|;
        SameTable();
        SameMemory();
      }
    }

    method WriteFile(fd: int, data: seq<Byte>) returns (n: int)
      requires Valid()
      modifies vfs.handles, vfs.disks.Values, vfs.nodes
      ensures Valid() && V.MountsOk(old(View()).vfs)
      ensures (View().vfs, n) == V.WriteFd(old(View()).vfs, fd, data)
      ensures View() == old(View()).(vfs := View().vfs)
    {
      n := vfs.Write(fd, data);
      SameTable();
      SameMemory();
    }

    method SysWrite(pid: int, fd: int, data: seq<Byte>) returns (r: int)
      requires Valid()
      modifies vfs.handles, vfs.disks.Values, vfs.nodes
      ensures Valid()
      ensures V.MountsOk(old(View()).vfs) && (View(), r) == SyscallModel.SysWrite(old(View()), pid, fd, data)
    {
      var proc := pt.Get(pid);
      if proc == null {
        r := EINVAL;
      } else if fd == 1 || fd == 2 {
        r := |data|;
      } else if fd !in proc.fdt.table {
        r := EBADF;
      } else {
        ghost var k := View();
        r := WriteFile(fd, data);
        WriteForm(k, pid, fd, data, View().vfs, r);
      }
    }

    method OpenFile(path: string, flags: string) returns (fd: int)
      requires Valid()
      modifies vfs`nodes, vfs`openFiles, vfs`handles, vfs`nextFd, vfs.disks.Values, vfs.nodes
      ensures Valid() && V.MountsOk(old(View()).vfs)
      ensures (View().vfs, fd) == V.Open(old(View()).vfs, path, flags)
      ensures View() == old(View()).(vfs := View().vfs)
    {
      fd := vfs.Open(path, flags);
      SameTable();
      SameMemory();
    }

    /** `proc.fdt._table = entries`. */
    method SetEntries(pid: int, entries: map<int, (string, string)>)
      requires Valid() && pid in pt.table
      modifies pt`state, pt.fdts
      ensures Valid() && pid in old(View()).pt.procs
      ensures View() == old(View()).(pt := P.SetFdt(old(View()).pt, pid, entries))
    {
      assert pt.ProcOk(pid);
      pt.SetEntries(pid, entries);
      SameVfs();
      SameMemory();
    }

    method SysOpenat(pid: int, path: string, flags: string) returns (fd: int)
      requires Valid()
      modifies vfs`nodes, vfs`openFiles, vfs`handles, vfs`nextFd, vfs.disks.Values, vfs.nodes
      modifies pt`state, pt.fdts
      ensures Valid()
      ensures V.MountsOk(old(View()).vfs) && (View(), fd) == SyscallModel.SysOpenat(old(View()), pid, path, flags)
    {
      var proc := pt.Get(pid);
      if proc == null || path == "" {
        fd := EINVAL;
      } else {
        ghost var k := View();
        fd := OpenFile(path, flags);
        OpenatForm(k, pid, path, flags, View().vfs, fd);
        if fd >= 0 {
          SetEntries(pid, proc.fdt.table[fd := (path, flags)]);
        }
      }
    }

    method SysClose(pid: int, fd: int) returns (r: int)
      requires Valid()
      modifies vfs`openFiles, pt`state, pt.fdts
      ensures Valid()
      ensures (View(), r) == SyscallModel.SysClose(old(View()), pid, fd)
    {
      var proc := pt.Get(pid);
      if proc == null {
        r := EINVAL;
      } else if fd !in proc.fdt.table {
        r := EBADF;
      } else {
        pt.SetEntries(pid, proc.fdt.table - {fd});
        SameVfs();
        label removed:
        var _ := vfs.Close(fd);
        r := 0;
        SameTable@removed();
        SameMemory();
      }
    }

    // ------------------------------------------------------------ processes

    method SysFork(pid: int) returns (r: int)
      requires Valid()
      modifies pt, pt.pidAlloc, pt.procs, vmm
      ensures Valid()
      ensures (View(), r) == SyscallModel.SysFork(old(View()), pid)
    {
      var parent := pt.Get(pid);
      if parent == null {
        r := EINVAL;
      } else {
        r := pt.Spawn(parent.name, pid);
        SameMemory();
        label spawned:
        var _ := vmm.CreateAddressSpace(r);
        SameTable@spawned();
        SameVfs();
      }
    }

    method SysExit(pid: int, code: int) returns (r: int)
      requires Valid()
      modifies pt`state, pt.procs
      ensures Valid()
      ensures (View(), r) == SyscallModel.SysExit(old(View()), pid, code)
    {
      var proc := pt.Get(pid);
      if proc == null {
        r := EINVAL;
      } else {
        pt.MarkExited(pid, code);
        r := 0;
        SameVfs();
        SameMemory();
      }
    }

    method FindZombie(children: seq<int>) returns (zombie: Option<int>)
      requires pt.Valid()
      ensures zombie == P.FirstZombie(pt.state, children)
    {
      assert children[0..] == children;
      for i := 0 to |children|
        invariant P.FirstZombie(pt.state, children[i..]) == P.FirstZombie(pt.state, children)
      {
        assert children[i..][0] == children[i] && children[i..][1..] == children[i + 1..];
        var child := pt.Get(children[i]);
        if child != null && child.state == Zombie {
          return Some(children[i]);
        }
      }
      assert children[|children|..] == [];
      return None;
    }

    /** The table's part of wait4: the first zombie among the children, in list order, is removed. */
    method ReapChild(pid: int) returns (r: int)
      requires pt.Valid()
      modifies pt, pt.pidAlloc, pt.procs
      ensures pt.Valid() && pt.procs == old(pt.procs) && pt.fdts == old(pt.fdts)
      ensures (pt.state, r) == P.Wait4(old(pt.state), pid)
    {
      var parent := pt.Get(pid);
      if parent == null {
        return EINVAL;
      }
      var zombie := FindZombie(parent.children);
      if zombie.None? {
        return 0;
      }
      pt.Remove(zombie.value);
      return zombie.value;
    }

    method SysWait4(pid: int) returns (r: int)
      requires Valid()
      modifies pt, pt.pidAlloc, pt.procs
      ensures Valid()
      ensures (View(), r) == SyscallModel.SysWait4(old(View()), pid)
    {
      r := ReapChild(pid);
      SameVfs();
      SameMemory();
    }

    // ------------------------------------------------------------ heap

    method GrowHeap(pid: int, newBrk: int)
      requires Valid()
      modifies `brk, vmm.addressSpaces.Values, vmm.pmm.pages
      ensures vmm.Valid() && brk == old(brk)[pid := newBrk]
      ensures vmm.View() == M.BrkMap(old(Heap()), pid, newBrk).0
    {
      var current := if pid in brk then brk[pid] else M.HEAP_BASE;
      var _ := vmm.MapPages(pid, current, newBrk - current, "rw-", "[heap]");
      brk := brk[pid := newBrk];
    }

    method SysBrk(pid: int, newBrk: int) returns (r: int)
      requires Valid()
      modifies `brk, vmm.addressSpaces.Values, vmm.pmm.pages
      ensures Valid()
      ensures (View(), r) == SyscallModel.SysBrk(old(View()), pid, newBrk)
    {
      var current := if pid in brk then brk[pid] else M.HEAP_BASE;
      if newBrk == 0 || newBrk <= current {
        r := current;
      } else {
        GrowHeap(pid, newBrk);
        r := newBrk;
        SameTable();
        SameVfs();
      }
    }
  }
}
