/**
 System calls over the process table, the VFS and the heap: descriptors live both in a process's
 table and in the VFS, and the two must agree.
 */
module SyscallModel {
  import opened ByteStrings
  import P = ProcessModel
  import V = VfsModel
  import Tmp = TmpFsModel
  import M = MemoryModel

  const EINVAL := -22
  const EBADF := -9

  datatype Kernel = Kernel(pt: P.Table, vfs: V.Vfs, heap: M.HeapState)

  // ---------------------------------------------------------------- handlers

  /** The descriptor table of a process; empty when it is not alive. */
  function Fdt(k: Kernel, pid: int): map<int, (string, string)> {
    P.FdtOf(k.pt, pid)
  }

  /** Returns the number of bytes read. */
  function SysRead(k: Kernel, pid: int, fd: int, size: int): (Kernel, int)
    requires V.MountsOk(k.vfs)
  {
    if pid !in k.pt.procs then (k, EINVAL)
    else if fd !in Fdt(k, pid) then (k, EBADF)
    else
      var (vfs, data) := V.ReadFd(k.vfs, fd, size);
      (k.(vfs := vfs), |data|)
  }

  /** Descriptors 1 and 2 are the console and always accept. */
  function SysWrite(k: Kernel, pid: int, fd: int, data: seq<Byte>): (Kernel, int)
    requires V.MountsOk(k.vfs)
  {
    if pid !in k.pt.procs then (k, EINVAL)
    else if fd == 1 || fd == 2 then (k, |data|)
    else if fd !in Fdt(k, pid) then (k, EBADF)
    else
      var (vfs, n) := V.WriteFd(k.vfs, fd, data);
      (k.(vfs := vfs), n)
  }

  function SysOpenat(k: Kernel, pid: int, path: string, flags: string): (Kernel, int)
    requires V.MountsOk(k.vfs)
  {
    if pid !in k.pt.procs || path == "" then (k, EINVAL)
    else
      var (vfs, fd) := V.Open(k.vfs, path, flags);
      if fd < 0 then (k.(vfs := vfs), fd)
      else (k.(vfs := vfs, pt := P.SetFdt(k.pt, pid, Fdt(k, pid)[fd := (path, flags)])), fd)
  }

  function SysClose(k: Kernel, pid: int, fd: int): (Kernel, int) {
    if pid !in k.pt.procs then (k, EINVAL)
    else if fd !in Fdt(k, pid) then (k, EBADF)
    else (k.(vfs := V.CloseFd(k.vfs, fd).0, pt := P.SetFdt(k.pt, pid, Fdt(k, pid) - {fd})), 0)
  }

  /** The child gets an empty descriptor table and a fresh address space. */
  function SysFork(k: Kernel, pid: int): (Kernel, int) {
    var (pt, r) := P.Fork(k.pt, pid);
    if pid !in k.pt.procs then (k, r)
    else (k.(pt := pt, heap := k.heap.(mem := M.CreateSpace(k.heap.mem, r))), r)
  }

  /** Leaves every descriptor of the process open. */
  function SysExit(k: Kernel, pid: int, code: int): (Kernel, int) {
    var (pt, r) := P.Exit(k.pt, pid, code);
    (k.(pt := pt), r)
  }

  function SysWait4(k: Kernel, pid: int): (Kernel, int) {
    var (pt, r) := P.Wait4(k.pt, pid);
    (k.(pt := pt), r)
  }

  function SysBrk(k: Kernel, pid: int, newBrk: int): (Kernel, int) {
    var (heap, r) := M.SysBrk(k.heap, pid, newBrk);
    (k.(heap := heap), r)
  }

  datatype Call =
    | CallRead(fd: int, size: int)
    | CallWrite(fd: int, data: seq<Byte>)
    | CallOpenat(path: string, flags: string)
    | CallClose(fd: int)
    | CallFork
    | CallExit(code: int)
    | CallWait4
    | CallBrk(newBrk: int)

  function Dispatch(k: Kernel, pid: int, call: Call): (Kernel, int)
    requires V.MountsOk(k.vfs)
  {
    match call
    case CallRead(fd, size) => SysRead(k, pid, fd, size)
    case CallWrite(fd, data) => SysWrite(k, pid, fd, data)
    case CallOpenat(path, flags) => SysOpenat(k, pid, path, flags)
    case CallClose(fd) => SysClose(k, pid, fd)
    case CallFork => SysFork(k, pid)
    case CallExit(code) => SysExit(k, pid, code)
    case CallWait4 => SysWait4(k, pid)
    case CallBrk(newBrk) => SysBrk(k, pid, newBrk)
  }

  // ---------------------------------------------------------------- coherence

  /** The descriptor fd that pid holds is open in the VFS with the same path and flags. */
  ghost predicate EntryOk(k: Kernel, pid: int, fd: int)
    requires fd in Fdt(k, pid)
  {
    && fd in k.vfs.open
    && (k.vfs.open[fd].path, k.vfs.open[fd].flags) == Fdt(k, pid)[fd]
  }

  /** Both descriptor levels agree, and no descriptor is in two tables. */
  ghost predicate Coherent(k: Kernel) {
    && (forall pid, fd :: fd in Fdt(k, pid) ==> EntryOk(k, pid, fd))
    && (forall p, q, fd :: fd in Fdt(k, p) && fd in Fdt(k, q) ==> p == q)
  }

  ghost predicate Inv(k: Kernel) {
    V.Inv(k.vfs) && P.HasForest(k.pt) && Coherent(k)
  }

  lemma StartInv(vfs: V.Vfs, heap: M.HeapState)
    requires V.Inv(vfs)
    ensures Inv(Kernel(P.Boot(), vfs, heap))
  {
    P.BootForest();
    var k := Kernel(P.Boot(), vfs, heap);
    assert forall pid :: Fdt(k, pid) == map[];
  }

  lemma OpenFdsBounded(k: Kernel)
    requires V.Inv(k.vfs)
    ensures forall fd :: fd in k.vfs.open ==> 3 <= fd < k.vfs.nextFd
  {
    assert forall fd :: fd in k.vfs.open ==> V.DescriptorOk(k.vfs, fd);
  }

  // ---------------------------------------------------------------- each call

  /** Losing entries, or moving cursors, never breaks the agreement. */
  lemma SubCoherent(k: Kernel, k': Kernel)
    requires Coherent(k)
    requires forall p, fd :: fd in Fdt(k', p) ==> fd in Fdt(k, p) && Fdt(k', p)[fd] == Fdt(k, p)[fd]
    requires forall p, fd :: fd in Fdt(k', p) && fd in k.vfs.open ==> SameFile(k.vfs, k'.vfs, fd)
    ensures Coherent(k')
  {
    forall p, fd | fd in Fdt(k', p) ensures EntryOk(k', p, fd) {
      assert EntryOk(k, p, fd);
      assert SameFile(k.vfs, k'.vfs, fd);
    }
  }

  /** fd stays open on the same path with the same flags. */
  ghost predicate SameFile(v: V.Vfs, v': V.Vfs, fd: int)
    requires fd in v.open
  {
    fd in v'.open && v'.open[fd].path == v.open[fd].path && v'.open[fd].flags == v.open[fd].flags
  }

  lemma ReadKeepsFiles(v: V.Vfs, fd: int, size: int)
    requires V.MountsOk(v)
    ensures V.ReadFd(v, fd, size).0.open.Keys == v.open.Keys
    ensures forall g :: g in v.open ==> SameFile(v, V.ReadFd(v, fd, size).0, g)
  {
  }

  lemma WriteKeepsFiles(v: V.Vfs, fd: int, data: seq<Byte>)
    requires V.MountsOk(v)
    ensures V.WriteFd(v, fd, data).0.open.Keys == v.open.Keys
    ensures forall g :: g in v.open ==> SameFile(v, V.WriteFd(v, fd, data).0, g)
  {
  }

  lemma ReadCoherent(k: Kernel, pid: int, fd: int, size: int)
    requires Inv(k)
    ensures Inv(SysRead(k, pid, fd, size).0)
  {
    V.ReadInv(k.vfs, fd, size);
    ReadKeepsFiles(k.vfs, fd, size);
    SubCoherent(k, SysRead(k, pid, fd, size).0);
  }

  lemma WriteCoherent(k: Kernel, pid: int, fd: int, data: seq<Byte>)
    requires Inv(k)
    ensures Inv(SysWrite(k, pid, fd, data).0)
  {
    V.WriteInv(k.vfs, fd, data);
    WriteKeepsFiles(k.vfs, fd, data);
    SubCoherent(k, SysWrite(k, pid, fd, data).0);
  }

  lemma OpenKeepsOthers(v: V.Vfs, path: string, flags: string)
    requires V.MountsOk(v) && v.nextFd >= 3
    ensures var (v', fd) := V.Open(v, path, flags);
            if fd >= 0 then
              && fd == v.nextFd && v'.nextFd == v.nextFd + 1
              && v'.open.Keys == v.open.Keys + {fd} && v'.open[fd].path == path && v'.open[fd].flags == flags
              && forall g :: g in v.open && g != fd ==> v'.open[g] == v.open[g]
            else v' == v
  {
  }

  lemma OpenatCoherent(k: Kernel, pid: int, path: string, flags: string)
    requires Inv(k)
    ensures Inv(SysOpenat(k, pid, path, flags).0)
  {
    if pid in k.pt.procs && path != "" {
      V.OpenInv(k.vfs, path, flags);
      OpenKeepsOthers(k.vfs, path, flags);
      var (vfs, fd) := V.Open(k.vfs, path, flags);
      if fd >= 0 {
        P.FdtKeepsForest(k.pt, pid, Fdt(k, pid)[fd := (path, flags)]);
        OpenedCoherent(k, pid, path, flags);
      } else {
        SubCoherent(k, SysOpenat(k, pid, path, flags).0);
      }
    }
  }

  lemma OpenedCoherent(k: Kernel, pid: int, path: string, flags: string)
    requires V.Inv(k.vfs) && Coherent(k) && pid in k.pt.procs && path != "" && V.Open(k.vfs, path, flags).1 >= 0
    ensures Coherent(SysOpenat(k, pid, path, flags).0)
  {
    OpenFdsBounded(k);
    OpenKeepsOthers(k.vfs, path, flags);
    var (vfs, fd) := V.Open(k.vfs, path, flags);
    var k' := SysOpenat(k, pid, path, flags).0;
    forall p, g | g in Fdt(k', p)
      ensures EntryOk(k', p, g) && (g == fd ==> p == pid) && (g != fd ==> g in Fdt(k, p))
    {
      if g in Fdt(k, p) {
        assert EntryOk(k, p, g);
      }
    }
  }

  lemma CloseCoherent(k: Kernel, pid: int, fd: int)
    requires Inv(k)
    ensures Inv(SysClose(k, pid, fd).0)
  {
    if fd in Fdt(k, pid) {
      V.CloseInv(k.vfs, fd);
      P.FdtKeepsForest(k.pt, pid, Fdt(k, pid) - {fd});
      ClosedCoherent(k, pid, fd);
    }
  }

  lemma ClosedCoherent(k: Kernel, pid: int, fd: int)
    requires Coherent(k) && fd in Fdt(k, pid)
    ensures Coherent(SysClose(k, pid, fd).0)
  {
    var k' := SysClose(k, pid, fd).0;
    forall p, g | g in Fdt(k', p)
      ensures g in Fdt(k, p) && Fdt(k', p)[g] == Fdt(k, p)[g] && g != fd && g in k'.vfs.open && SameFile(k.vfs, k'.vfs, g)
    {
      assert g in Fdt(k, p);
      assert EntryOk(k, p, g);
    }
    SubCoherent(k, k');
  }

  lemma ForkFdts(k: Kernel, pid: int)
    requires P.HasForest(k.pt)
    ensures forall p :: Fdt(SysFork(k, pid).0, p) == Fdt(k, p)
  {
    P.ForestPids(k.pt);
    P.ForkFdts(k.pt, pid);
  }

  lemma ForkCoherent(k: Kernel, pid: int)
    requires Inv(k)
    ensures Inv(SysFork(k, pid).0)
  {
    P.ForkForest(k.pt, pid);
    ForkFdts(k, pid);
    SubCoherent(k, SysFork(k, pid).0);
  }

  lemma ExitCoherent(k: Kernel, pid: int, code: int)
    requires Inv(k)
    ensures Inv(SysExit(k, pid, code).0)
  {
    P.ExitKeepsForest(k.pt, pid, code);
    P.ExitFdts(k.pt, pid, code);
    SubCoherent(k, SysExit(k, pid, code).0);
  }

  /** Reaping removes one process and leaves the tables of the others alone. */
  lemma Wait4Fdts(k: Kernel, pid: int)
    requires P.HasForest(k.pt)
    ensures forall p :: Fdt(SysWait4(k, pid).0, p) ==
                        if p > 0 && p == SysWait4(k, pid).1 then map[] else Fdt(k, p)
  {
    P.Wait4KeepsForest(k.pt, pid);
    P.RemoveFdts(k.pt, SysWait4(k, pid).1);
  }

  lemma Wait4Coherent(k: Kernel, pid: int)
    requires Inv(k)
    ensures Inv(SysWait4(k, pid).0)
  {
    P.Wait4KeepsForest(k.pt, pid);
    Wait4Fdts(k, pid);
    SubCoherent(k, SysWait4(k, pid).0);
  }

  /** Every system call keeps the two descriptor levels coherent. */
  lemma DispatchCoherent(k: Kernel, pid: int, call: Call)
    requires Inv(k)
    ensures Inv(Dispatch(k, pid, call).0)
  {
    match call
    case CallRead(fd, size) => ReadCoherent(k, pid, fd, size);
    case CallWrite(fd, data) => WriteCoherent(k, pid, fd, data);
    case CallOpenat(path, flags) => OpenatCoherent(k, pid, path, flags);
    case CallClose(fd) => CloseCoherent(k, pid, fd);
    case CallFork => ForkCoherent(k, pid);
    case CallExit(code) => ExitCoherent(k, pid, code);
    case CallWait4 => Wait4Coherent(k, pid);
    case CallBrk(newBrk) => SubCoherent(k, SysBrk(k, pid, newBrk).0);
  }

  // ---------------------------------------------------------------- runs

  ghost function Run(k: Kernel, calls: seq<(int, Call)>): Kernel
    requires Inv(k)
    decreases |calls|
  {
    if calls == [] then k
    else
      DispatchCoherent(k, calls[0].0, calls[0].1);
      Run(Dispatch(k, calls[0].0, calls[0].1).0, calls[1..])
  }

  /** Coherence holds after every run of system calls by any processes. */
  lemma {:induction false} RunCoherent(k: Kernel, calls: seq<(int, Call)>)
    requires Inv(k)
    ensures Inv(Run(k, calls))
    decreases |calls|
  {
    if calls != [] {
      DispatchCoherent(k, calls[0].0, calls[0].1);
      RunCoherent(Dispatch(k, calls[0].0, calls[0].1).0, calls[1..]);
    }
  }

  /** The descriptors a run hands out, in order. */
  ghost function HandedOut(k: Kernel, calls: seq<(int, Call)>): seq<int>
    requires Inv(k)
    decreases |calls|
  {
    if calls == [] then []
    else
      DispatchCoherent(k, calls[0].0, calls[0].1);
      var (k', r) := Dispatch(k, calls[0].0, calls[0].1);
      (if calls[0].1.CallOpenat? && r >= 0 then [r] else []) + HandedOut(k', calls[1..])
  }

  lemma NextFdSteps(k: Kernel, pid: int, call: Call)
    requires Inv(k)
    ensures var (k', r) := Dispatch(k, pid, call);
            if call.CallOpenat? && r >= 0 then r == k.vfs.nextFd && k'.vfs.nextFd == k.vfs.nextFd + 1
            else k'.vfs.nextFd == k.vfs.nextFd
  {
    match call
    case CallOpenat(path, flags) => OpenKeepsOthers(k.vfs, path, flags);
    case _ =>
  }

  /** Descriptor numbers are never reused: a run hands out consecutive new ones, whatever was closed meanwhile. */
  lemma {:induction false} NeverReused(k: Kernel, calls: seq<(int, Call)>)
    requires Inv(k)
    ensures var out := HandedOut(k, calls);
            && Run(k, calls).vfs.nextFd == k.vfs.nextFd + |out|
            && forall i :: 0 <= i < |out| ==> out[i] == k.vfs.nextFd + i
    decreases |calls|
  {
    if calls != [] {
      var (k', r) := Dispatch(k, calls[0].0, calls[0].1);
      DispatchCoherent(k, calls[0].0, calls[0].1);
      NextFdSteps(k, calls[0].0, calls[0].1);
      NeverReused(k', calls[1..]);
      if calls[0].1.CallOpenat? && r >= 0 {
        var rest := HandedOut(k', calls[1..]);
        assert HandedOut(k, calls) == [r] + rest;
      } else {
        assert HandedOut(k, calls) == HandedOut(k', calls[1..]);
      }
    }
  }

  // ---------------------------------------------------------------- results

  /** In a reachable state a descriptor error comes only from the process's own table, never from the VFS. */
  lemma ErrorsExactly(k: Kernel, pid: int, fd: int, size: int, data: seq<Byte>)
    requires Inv(k)
    ensures SysRead(k, pid, fd, size).1 == EINVAL <==> pid !in k.pt.procs
    ensures SysRead(k, pid, fd, size).1 == EBADF <==> pid in k.pt.procs && fd !in Fdt(k, pid)
    ensures fd in Fdt(k, pid) ==> fd in k.vfs.open
    ensures pid in k.pt.procs ==>
              (SysWrite(k, pid, fd, data).1 == EBADF <==> fd != 1 && fd != 2 && fd !in Fdt(k, pid))
    ensures fd in Fdt(k, pid) ==>
              fd in k.vfs.open && V.DescriptorOk(k.vfs, fd) &&
              var (f, ino) := V.Target(k.vfs, fd);
              SysWrite(k, pid, fd, data).1 ==
                if k.vfs.disks[f].inodes[ino].kind == Tmp.File then |data| else EINVAL
  {
    if fd in Fdt(k, pid) {
      assert EntryOk(k, pid, fd);
      assert V.DescriptorOk(k.vfs, fd);
      OpenFdsBounded(k);
    }
  }

  // ---------------------------------------------------------------- leaked descriptors

  /** Descriptors open in the VFS that no live process holds any more. */
  ghost function Leaked(k: Kernel): set<int> {
    set fd | fd in k.vfs.open && forall p :: fd !in Fdt(k, p)
  }

  /** A system call leaks exactly the descriptors of a process it reaps, and nothing ever un-leaks. */
  lemma LeakExactly(k: Kernel, pid: int, call: Call)
    requires Inv(k)
    ensures var (k', r) := Dispatch(k, pid, call);
            Leaked(k') == Leaked(k) + if call.CallWait4? && r > 0 then Fdt(k, r).Keys else {}
  {
    match call
    case CallOpenat(path, flags) => OpenLeaks(k, pid, path, flags);
    case CallClose(fd) => CloseLeaks(k, pid, fd);
    case CallWait4 => Wait4Leaks(k, pid);
    case CallFork =>
      ForkFdts(k, pid);
      SameLeaks(k, SysFork(k, pid).0);
    case CallRead(fd, size) =>
      ReadKeepsFiles(k.vfs, fd, size);
      SameLeaks(k, SysRead(k, pid, fd, size).0);
    case CallWrite(fd, data) =>
      WriteKeepsFiles(k.vfs, fd, data);
      SameLeaks(k, SysWrite(k, pid, fd, data).0);
    case CallExit(code) =>
      P.ExitFdts(k.pt, pid, code);
      SameLeaks(k, SysExit(k, pid, code).0);
    case CallBrk(newBrk) => SameLeaks(k, SysBrk(k, pid, newBrk).0);
  }

  lemma SameLeaks(k: Kernel, k': Kernel)
    requires k'.vfs.open.Keys == k.vfs.open.Keys && forall p :: Fdt(k', p) == Fdt(k, p)
    ensures Leaked(k') == Leaked(k)
  {
  }

  lemma OpenLeaks(k: Kernel, pid: int, path: string, flags: string)
    requires Inv(k)
    ensures Leaked(SysOpenat(k, pid, path, flags).0) == Leaked(k)
  {
    OpenKeepsOthers(k.vfs, path, flags);
    OpenFdsBounded(k);
    var (k', fd) := SysOpenat(k, pid, path, flags);
    if fd >= 0 {
      assert fd in Fdt(k', pid);
      forall p ensures Fdt(k', p) == if p == pid then Fdt(k, p)[fd := (path, flags)] else Fdt(k, p) {
      }
      forall g ensures g in Leaked(k') <==> g in Leaked(k) {
        if g in Leaked(k) {
          assert forall p :: g !in Fdt(k', p);
        }
        if g in Leaked(k') {
          assert forall p :: g !in Fdt(k', p);
          assert forall p :: g !in Fdt(k, p);
        }
      }
    } else {
      SameLeaks(k, k');
    }
  }

  lemma CloseLeaks(k: Kernel, pid: int, fd: int)
    requires Inv(k)
    ensures Leaked(SysClose(k, pid, fd).0) == Leaked(k)
  {
    var k' := SysClose(k, pid, fd).0;
    if fd in Fdt(k, pid) {
      forall p ensures Fdt(k', p) == if p == pid then Fdt(k, p) - {fd} else Fdt(k, p) {
      }
      forall g ensures g in Leaked(k') <==> g in Leaked(k) {
        if g in Leaked(k') {
          assert g != fd;
          assert forall p :: g !in Fdt(k', p);
          assert forall p :: g !in Fdt(k, p);
        }
      }
    }
  }

  lemma Wait4Leaks(k: Kernel, pid: int)
    requires Inv(k)
    ensures var (k', r) := SysWait4(k, pid);
            Leaked(k') == Leaked(k) + if r > 0 then Fdt(k, r).Keys else {}
  {
    Wait4Fdts(k, pid);
    var (k', r) := SysWait4(k, pid);
    forall g ensures g in Leaked(k') <==> g in Leaked(k) || (r > 0 && g in Fdt(k, r)) {
      if r > 0 && g in Fdt(k, r) {
        assert EntryOk(k, r, g);
        assert forall p :: p != r ==> g !in Fdt(k, p);
        assert forall p :: g !in Fdt(k', p);
      }
      if g in Leaked(k') && !(r > 0 && g in Fdt(k, r)) {
        assert forall p :: g !in Fdt(k', p);
        assert forall p :: g !in Fdt(k, p);
      }
    }
  }
}
