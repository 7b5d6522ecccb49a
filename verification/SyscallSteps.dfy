/** What each system call answers and changes, and that a closed descriptor is closed for good. */
module SyscallSteps {
  import opened ByteStrings
  import opened SyscallModel
  import P = ProcessModel
  import V = VfsModel
  import M = MemoryModel
  import ProcessSteps
  import MemorySteps
  import VfsFiles
  import VfsReads
  import VfsDescriptors

  /** Only pid's descriptor table may differ between the process tables. */
  ghost predicate OnlyFdt(t: P.Table, t': P.Table, pid: int) {
    && t'.next == t.next && t'.free == t.free && t'.procs.Keys == t.procs.Keys
    && (forall p :: p in t.procs && p != pid ==> t'.procs[p] == t.procs[p])
    && (pid in t.procs ==> t'.procs[pid] == t.procs[pid].(fdt := t'.procs[pid].fdt))
  }

  lemma HeldIsOpen(k: Kernel)
    requires Coherent(k)
    ensures forall p, fd :: fd in Fdt(k, p) ==> fd in k.vfs.open
  {
    assert forall p, fd :: fd in Fdt(k, p) ==> EntryOk(k, p, fd);
  }

  /** Each call goes to its own handler. */
  lemma DispatchRoutes(k: Kernel, pid: int, fd: int, size: int, data: seq<Byte>, path: string, flags: string, n: int)
    requires V.MountsOk(k.vfs)
    ensures Dispatch(k, pid, CallRead(fd, size)) == SysRead(k, pid, fd, size)
    ensures Dispatch(k, pid, CallWrite(fd, data)) == SysWrite(k, pid, fd, data)
    ensures Dispatch(k, pid, CallOpenat(path, flags)) == SysOpenat(k, pid, path, flags)
    ensures Dispatch(k, pid, CallClose(fd)) == SysClose(k, pid, fd)
    ensures Dispatch(k, pid, CallFork) == SysFork(k, pid) && Dispatch(k, pid, CallExit(n)) == SysExit(k, pid, n)
    ensures Dispatch(k, pid, CallWait4) == SysWait4(k, pid) && Dispatch(k, pid, CallBrk(n)) == SysBrk(k, pid, n)
  {
  }

  // ---------------------------------------------------------------- close

  /**
   close answers -22 for a dead caller, -9 for a descriptor the caller does not hold, both without any
   change, and 0 otherwise. Then the descriptor is gone from the caller's table and from the VFS, and
   every other descriptor, cursor, file, mount and process and the whole memory is as it was.
   */
  lemma CloseExactly(k: Kernel, pid: int, fd: int)
    ensures var (k', r) := SysClose(k, pid, fd);
            && (r == -22 <==> pid !in k.pt.procs)
            && (r == -9 <==> pid in k.pt.procs && fd !in Fdt(k, pid))
            && (r == 0 <==> pid in k.pt.procs && fd in Fdt(k, pid))
            && (r != 0 ==> k' == k)
            && (r == 0 ==>
                  && fd !in Fdt(k', pid) && fd !in k'.vfs.open
                  && (forall g :: g in Fdt(k', pid) <==> g in Fdt(k, pid) && g != fd)
                  && (forall g :: g in Fdt(k', pid) ==> Fdt(k', pid)[g] == Fdt(k, pid)[g])
                  && OnlyFdt(k.pt, k'.pt, pid)
                  && (forall g :: g in k'.vfs.open <==> g in k.vfs.open && g != fd)
                  && (forall g :: g in k'.vfs.open ==> k'.vfs.open[g] == k.vfs.open[g])
                  && k'.vfs == k.vfs.(open := k'.vfs.open) && k'.heap == k.heap)
  {
  }

  /** The descriptor was handed out once and is held by nobody. */
  ghost predicate Gone(k: Kernel, fd: int) {
    fd < k.vfs.nextFd && fd !in k.vfs.open && forall p :: fd !in Fdt(k, p)
  }

  lemma GoneAfterClose(k: Kernel, pid: int, fd: int)
    requires Inv(k) && SysClose(k, pid, fd).1 == 0
    ensures Gone(SysClose(k, pid, fd).0, fd)
  {
    CloseExactly(k, pid, fd);
    assert EntryOk(k, pid, fd);
    OpenFdsBounded(k);
    var k' := SysClose(k, pid, fd).0;
    forall p ensures fd !in Fdt(k', p) {
      if p != pid {
        assert Fdt(k', p) == Fdt(k, p);
      }
    }
  }

  lemma OpenKeys(k: Kernel, pid: int, call: Call)
    requires Inv(k)
    ensures Dispatch(k, pid, call).0.vfs.open.Keys <= k.vfs.open.Keys + {k.vfs.nextFd}
  {
    match call
    case CallOpenat(path, flags) => OpenKeepsOthers(k.vfs, path, flags);
    case CallRead(fd, size) => ReadKeepsFiles(k.vfs, fd, size);
    case CallWrite(fd, data) => WriteKeepsFiles(k.vfs, fd, data);
    case _ =>
  }

  lemma StepGone(k: Kernel, pid: int, call: Call, fd: int)
    requires Inv(k) && Gone(k, fd)
    ensures Gone(Dispatch(k, pid, call).0, fd)
  {
    DispatchCoherent(k, pid, call);
    NextFdSteps(k, pid, call);
    OpenKeys(k, pid, call);
    HeldIsOpen(Dispatch(k, pid, call).0);
  }

  lemma {:induction false} RunGone(k: Kernel, calls: seq<(int, Call)>, fd: int)
    requires Inv(k) && Gone(k, fd)
    ensures Inv(Run(k, calls)) && Gone(Run(k, calls), fd)
    decreases |calls|
  {
    if calls != [] {
      DispatchCoherent(k, calls[0].0, calls[0].1);
      StepGone(k, calls[0].0, calls[0].1, fd);
      RunGone(Dispatch(k, calls[0].0, calls[0].1).0, calls[1..], fd);
    }
  }

  /** After a close no process can ever read, write or close that descriptor again, whatever is called in between. */
  lemma ClosedForGood(k: Kernel, pid: int, fd: int, calls: seq<(int, Call)>, p: int, size: int, data: seq<Byte>)
    requires Inv(k) && SysClose(k, pid, fd).1 == 0
    ensures Inv(SysClose(k, pid, fd).0)
    ensures var k' := Run(SysClose(k, pid, fd).0, calls);
            && V.MountsOk(k'.vfs) && fd !in Fdt(k', p)
            && (p in k'.pt.procs ==> SysRead(k', p, fd, size) == (k', -9))
            && (p in k'.pt.procs ==> SysWrite(k', p, fd, data) == (k', -9))
            && (p in k'.pt.procs ==> SysClose(k', p, fd) == (k', -9))
  {
    CloseCoherent(k, pid, fd);
    GoneAfterClose(k, pid, fd);
    assert EntryOk(k, pid, fd);
    OpenFdsBounded(k);
    RunGone(SysClose(k, pid, fd).0, calls, fd);
  }

  // ---------------------------------------------------------------- read, write, openat

  /**
   A read through a held descriptor answers how many bytes lie between the cursor and where it stops,
   at most as many as asked for and as are left; the cursor moves by that and nothing else changes.
   */
  lemma ReadExactly(k: Kernel, pid: int, fd: int, size: int)
    requires Inv(k) && fd in Fdt(k, pid)
    ensures fd in k.vfs.open && V.DescriptorOk(k.vfs, fd)
    ensures var (k', r) := SysRead(k, pid, fd, size);
            var (f, ino) := V.Target(k.vfs, fd);
            var left := |k.vfs.disks[f].inodes[ino].data| - k.vfs.open[fd].position;
            && 0 <= r <= left && (size >= 0 ==> r == if size < left then size else left)
            && k'.pt == k.pt && k'.heap == k.heap
            && k'.vfs == k.vfs.(open := k'.vfs.open) && k'.vfs.open.Keys == k.vfs.open.Keys
            && (forall g :: g in k.vfs.open && g != fd ==> k'.vfs.open[g] == k.vfs.open[g])
            && k'.vfs.open[fd] == k.vfs.open[fd].(position := k.vfs.open[fd].position + r)
  {
    assert EntryOk(k, pid, fd);
    assert V.DescriptorOk(k.vfs, fd);
    var (f, ino) := V.Target(k.vfs, fd);
    var (d, p) := (k.vfs.disks[f].inodes[ino].data, k.vfs.open[fd].position);
    VfsReads.AtTarget(k.vfs, fd, f, ino);
    VfsReads.ReadOnce(k.vfs, fd, f, ino, d, p, size, p + |Slice(d, p, p + size)|);
  }

  /** Writing to the console takes every byte and changes nothing; a write through a held descriptor touches only the VFS. */
  lemma WriteExactly(k: Kernel, pid: int, fd: int, data: seq<Byte>)
    requires Inv(k)
    ensures var (k', r) := SysWrite(k, pid, fd, data);
            && (pid !in k.pt.procs ==> (k', r) == (k, -22))
            && (pid in k.pt.procs && (fd == 1 || fd == 2) ==> (k', r) == (k, |data|))
            && (pid in k.pt.procs && fd != 1 && fd != 2 && fd !in Fdt(k, pid) ==> (k', r) == (k, -9))
            && k'.pt == k.pt && k'.heap == k.heap
            && (fd in Fdt(k, pid) && fd != 1 && fd != 2 ==> (k'.vfs, r) == V.WriteFd(k.vfs, fd, data))
  {
  }

  /**
   openat refuses a dead caller or an empty path with -22 and an unresolved path with -2, all without
   any change; otherwise the caller alone holds the new descriptor, under the path and flags given.
   */
  lemma OpenatExactly(k: Kernel, pid: int, path: string, flags: string)
    requires Inv(k)
    ensures var (k', r) := SysOpenat(k, pid, path, flags);
            && (r == -22 <==> pid !in k.pt.procs || path == "")
            && (r == -2 <==> pid in k.pt.procs && path != "" && !V.Resolve(k.vfs, path).Found?)
            && (r < 0 ==> k' == k && (r == -22 || r == -2))
            && (r >= 0 ==>
                  && r == k.vfs.nextFd && (k'.vfs, r) == V.Open(k.vfs, path, flags)
                  && r !in Fdt(k, pid) && Fdt(k', pid) == Fdt(k, pid)[r := (path, flags)]
                  && OnlyFdt(k.pt, k'.pt, pid) && k'.heap == k.heap)
  {
    OpenFdsBounded(k);
    OpenKeepsOthers(k.vfs, path, flags);
    VfsFiles.OpenRefused(k.vfs, path, flags);
    HeldIsOpen(k);
  }

  /** Open, then read once: the answer is the number of bytes read_path gives, also when opened for "w". */
  lemma OpenThenSysRead(k: Kernel, pid: int, path: string, flags: string, size: nat)
    requires Inv(k) && pid in k.pt.procs && path != "" && V.Resolve(k.vfs, path).Found?
    requires !VfsFiles.OpensChild(k.vfs, path, flags) && 'a' !in flags
    ensures var (k1, fd) := SysOpenat(k, pid, path, flags);
            && V.MountsOk(k1.vfs)
            && SysRead(k1, pid, fd, size).1 ==
                 match V.ReadPath(k.vfs, path, size) case Some(data) => |data| case None => 0
  {
    OpenatCoherent(k, pid, path, flags);
    OpenatExactly(k, pid, path, flags);
    var (k1, fd) := SysOpenat(k, pid, path, flags);
    VfsDescriptors.InPlaceState(k.vfs, path, flags);
    VfsDescriptors.ReadPathSlice(k.vfs, path, size);
    ReadExactly(k1, pid, fd, size);
  }

  // ---------------------------------------------------------------- processes and memory

  /**
   A fork gives the child no descriptor and a fresh address space of three areas without heap; no file,
   frame, break or other space changes, and nobody's descriptors do.
   */
  lemma ForkExactly(k: Kernel, pid: int)
    requires Inv(k)
    ensures pid !in k.pt.procs ==> SysFork(k, pid) == (k, -22)
    ensures pid in k.pt.procs ==>
              var (k', r) := SysFork(k, pid);
              && r !in k.pt.procs && r > 0 && r in k'.pt.procs && k'.pt.procs.Keys == k.pt.procs.Keys + {r}
              && k'.pt.procs[r].ppid == pid && k'.pt.procs[r].name == k.pt.procs[pid].name
              && Fdt(k', r) == map[] && (forall p :: p in k.pt.procs ==> Fdt(k', p) == Fdt(k, p))
              && k'.vfs == k.vfs && k'.heap.brk == k.heap.brk
              && k'.heap.mem.frames == k.heap.mem.frames
              && k'.heap.mem.spaces.Keys == k.heap.mem.spaces.Keys + {r}
              && MemorySteps.OnlySpace(k.heap.mem, k'.heap.mem, r)
              && |k'.heap.mem.spaces[r]| == 3 && M.HeapTiled(k'.heap, r, M.CurrentBrk(k.heap, r))
  {
    P.ForestPids(k.pt);
    ProcessSteps.ForkExactly(k.pt, pid);
    if pid in k.pt.procs {
      ProcessSteps.SpawnExactly(k.pt, k.pt.procs[pid].name, pid);
      var r := SysFork(k, pid).1;
      MemorySteps.CreateExactly(k.heap.mem, r);
      M.CreateTilesExactly(k.heap, r, M.CurrentBrk(k.heap, r));
    }
  }

  /** exit, wait4 and brk leave the VFS alone; exit leaves every descriptor, wait4 all but the reaped process's. */
  lemma OthersAlone(k: Kernel, pid: int, code: int, newBrk: int)
    requires Inv(k)
    ensures var (k', r) := SysExit(k, pid, code);
            k'.vfs == k.vfs && k'.heap == k.heap && (k'.pt, r) == P.Exit(k.pt, pid, code) && forall p :: Fdt(k', p) == Fdt(k, p)
    ensures var (k', r) := SysWait4(k, pid);
            && k'.vfs == k.vfs && k'.heap == k.heap && (k'.pt, r) == P.Wait4(k.pt, pid)
            && forall p :: Fdt(k', p) == if p > 0 && p == r then map[] else Fdt(k, p)
    ensures var (k', r) := SysBrk(k, pid, newBrk);
            k'.vfs == k.vfs && k'.pt == k.pt && (k'.heap, r) == M.SysBrk(k.heap, pid, newBrk)
  {
    P.ExitFdts(k.pt, pid, code);
    Wait4Fdts(k, pid);
  }
}
