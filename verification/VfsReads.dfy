/** Reads of one descriptor, interleaved with everything that does not write to its file. */
module VfsReads {
  import opened ByteStrings
  import opened MountModel
  import opened VfsModel
  import opened VfsFiles
  import Paths
  import Tmp = TmpFsModel

  // ---------------------------------------------------------------- what leaves a descriptor alone

  /** The filesystem and inode the descriptor stands on. */
  ghost predicate StandsOn(v: Vfs, fd: int, f: int, ino: int) {
    && fd in v.open && v.open[fd].ino == ino
    && Pick(v.mounts, v.open[fd].path).Some? && Pick(v.mounts, v.open[fd].path).value.fs == f
    && f in v.disks && ino in v.disks[f].inodes
  }

  /** The operation neither closes fd nor writes to the file it stands on. */
  ghost predicate Spares(v: Vfs, op: Op, fd: int, f: int, ino: int)
    requires MountsOk(v)
  {
    match op
    case OpClose(g) => g != fd
    case OpWrite(g, _) => !StandsOn(v, g, f, ino)
    case OpWritePath(path, _) => Resolve(v, path) != Found(f, ino)
    case _ => true
  }

  /** The inode is there before and after, the same but perhaps for entries made in it. */
  ghost predicate Kept(v: Vfs, v': Vfs, f: int, ino: int) {
    && f in v.disks && ino in v.disks[f].inodes && f in v'.disks && ino in v'.disks[f].inodes
    && SameButEntries(v.disks[f].inodes[ino], v'.disks[f].inodes[ino])
  }

  ghost predicate SameButEntries(was: Tmp.Inode, now: Tmp.Inode) {
    now == was.(children := now.children)
  }

  /** No inode of a but `written` differs in b by more than entries. */
  ghost predicate OnlyWritten(a: Tmp.Fs, b: Tmp.Fs, written: int) {
    forall i :: i in a.inodes ==> i in b.inodes && (i != written ==> SameButEntries(a.inodes[i], b.inodes[i]))
  }

  lemma CreateBytes(fs: Tmp.Fs, parent: int, name: string, kind: Tmp.Kind)
    requires Tmp.IsTree(fs)
    ensures OnlyWritten(fs, Tmp.Create(fs, parent, name, kind).0, fs.next) && fs.next !in fs.inodes
  {
    var up :| Tmp.Tree(fs, up);
    if Tmp.Create(fs, parent, name, kind).1.Created? {
      Tmp.InsertExactly(fs, parent, name, kind);
      var fs' := Tmp.Create(fs, parent, name, kind).0;
      forall i | i in fs.inodes ensures i in fs'.inodes && SameButEntries(fs.inodes[i], fs'.inodes[i]) {
        assert Tmp.Inserted(fs.inodes[i], fs'.inodes[i], i == parent, name, fs.next);
      }
    }
  }

  lemma WriteBytes(fs: Tmp.Fs, ino: int, offset: int, data: seq<Byte>)
    ensures OnlyWritten(fs, Tmp.Write(fs, ino, offset, data).0, ino)
  {
  }

  lemma FillBytes(fs: Tmp.Fs, fs1: Tmp.Fs, ino: int, content: seq<Byte>)
    requires OnlyWritten(fs, fs1, ino)
    ensures OnlyWritten(fs, FillNew(fs1, ino, content), ino)
  {
    WriteBytes(fs1, ino, 0, content);
  }

  /** Replacing one filesystem, with more than entries at most in an inode that is not ours. */
  lemma DiskKept(v: Vfs, g: int, fs: Tmp.Fs, written: int, f: int, ino: int)
    requires f in v.disks && ino in v.disks[f].inodes && g in v.disks && OnlyWritten(v.disks[g], fs, written)
    requires (g, written) != (f, ino)
    ensures Kept(v, SetDisk(v, g, fs), f, ino)
  {
  }

  lemma MkdirKept(v: Vfs, path: string, f: int, ino: int)
    requires Inv(v) && f in v.disks && ino in v.disks[f].inodes
    ensures Kept(v, Mkdir(v, path).0, f, ino)
  {
    var r := ResolveParent(v, path);
    if r.Found? {
      var fs := v.disks[r.fs];
      CreateBytes(fs, r.ino, Paths.LastName(path), Tmp.Dir);
      DiskKept(v, r.fs, Tmp.Create(fs, r.ino, Paths.LastName(path), Tmp.Dir).0, fs.next, f, ino);
    }
  }

  lemma CreateFileKept(v: Vfs, path: string, content: seq<Byte>, f: int, ino: int)
    requires Inv(v) && f in v.disks && ino in v.disks[f].inodes
    ensures Kept(v, CreateFile(v, path, content).0, f, ino)
  {
    var r := ResolveParent(v, path);
    if r.Found? {
      var fs := v.disks[r.fs];
      CreateBytes(fs, r.ino, Paths.LastName(path), Tmp.File);
      var (fs1, c) := Tmp.Create(fs, r.ino, Paths.LastName(path), Tmp.File);
      if c.Created? {
        FillBytes(fs, fs1, c.ino, content);
        DiskKept(v, r.fs, FillNew(fs1, c.ino, content), fs.next, f, ino);
      } else {
        DiskKept(v, r.fs, fs1, fs.next, f, ino);
      }
    }
  }

  lemma OpenKept(v: Vfs, path: string, flags: string, f: int, ino: int)
    requires Inv(v) && f in v.disks && ino in v.disks[f].inodes
    ensures Kept(v, Open(v, path, flags).0, f, ino)
  {
    OpenRefused(v, path, flags);
    if Resolve(v, path).Found? {
      var r := Resolve(v, path);
      var target := OpenForm(v, path, flags);
      OpenTargetBytes(v.disks[r.fs], r.ino, path, flags);
      DiskKept(v, r.fs, OpenTarget(v.disks[r.fs], r.ino, path, flags).0, v.disks[r.fs].next, f, ino);
    }
  }

  lemma OpenTargetBytes(fs: Tmp.Fs, ino: int, path: string, flags: string)
    requires Tmp.IsTree(fs) && ino in fs.inodes
    ensures OnlyWritten(fs, OpenTarget(fs, ino, path, flags).0, fs.next) && fs.next !in fs.inodes
  {
    OpenTargetIs(fs, ino, path, flags);
    CreateBytes(fs, ino, Paths.LastName(path), Tmp.File);
  }

  lemma WritePathKept(v: Vfs, path: string, data: seq<Byte>, f: int, ino: int)
    requires Inv(v) && f in v.disks && ino in v.disks[f].inodes && Resolve(v, path) != Found(f, ino)
    ensures Kept(v, WritePath(v, path, data).0, f, ino)
  {
    var r := Resolve(v, path);
    if r.Found? {
      WriteBytes(v.disks[r.fs], r.ino, 0, data);
      DiskKept(v, r.fs, Tmp.Write(v.disks[r.fs], r.ino, 0, data).0, r.ino, f, ino);
    } else {
      CreateFileKept(v, path, data, f, ino);
    }
  }

  lemma WriteKept(v: Vfs, g: int, data: seq<Byte>, f: int, ino: int)
    requires Inv(v) && f in v.disks && ino in v.disks[f].inodes && !StandsOn(v, g, f, ino)
    ensures Kept(v, WriteFd(v, g, data).0, f, ino)
  {
    if g in v.open {
      assert DescriptorOk(v, g);
      var (h, i) := Target(v, g);
      WriteBytes(v.disks[h], i, v.open[g].position, data);
      DiskKept(v, h, Tmp.Write(v.disks[h], i, v.open[g].position, data).0, i, f, ino);
    }
  }

  /** The operation is a write to that very inode, through a descriptor or a path. */
  ghost predicate Writes(v: Vfs, op: Op, f: int, ino: int)
    requires MountsOk(v)
  {
    (op.OpWrite? && StandsOn(v, op.fd, f, ino)) || (op.OpWritePath? && Resolve(v, op.path) == Found(f, ino))
  }

  /** No operation changes an inode it does not write to, except by making an entry in it. */
  lemma StepKept(v: Vfs, op: Op, f: int, ino: int)
    requires Inv(v) && Legal(v, op) && f in v.disks && ino in v.disks[f].inodes && !Writes(v, op, f, ino)
    ensures Kept(v, Step(v, op), f, ino)
  {
    match op
    case OpOpen(path, flags) => OpenKept(v, path, flags, f, ino);
    case OpWrite(g, data) => WriteKept(v, g, data, f, ino);
    case OpMkdir(path) => MkdirKept(v, path, f, ino);
    case OpCreateFile(path, content) => CreateFileKept(v, path, content, f, ino);
    case OpWritePath(path, data) => WritePathKept(v, path, data, f, ino);
    case _ =>
  }

  /** A descriptor that is not read, written or closed keeps its cursor, and every other one at least its file. */
  lemma StepKeepsEntry(v: Vfs, op: Op, fd: int)
    requires Inv(v) && Legal(v, op) && fd in v.open
    requires !((op.OpRead? || op.OpWrite? || op.OpClose?) && op.fd == fd)
    ensures var v' := Step(v, op);
            && fd in v'.open && v'.open[fd] == v.open[fd]
            && Pick(v.mounts, v.open[fd].path).Some? && Pick(v'.mounts, v.open[fd].path).Some?
            && Pick(v'.mounts, v.open[fd].path).value.fs == Pick(v.mounts, v.open[fd].path).value.fs
  {
    assert DescriptorOk(v, fd);
    match op
    case OpMount(path, g) => MountTarget(v, path, g, fd);
    case OpOpen(path, flags) =>
      OpenRefused(v, path, flags);
      if Resolve(v, path).Found? {
        var target := OpenForm(v, path, flags);
      }
    case OpCreateFile(path, content) => CreateFileKeepsOpen(v, path, content);
    case OpWritePath(path, data) => CreateFileKeepsOpen(v, path, data);
    case _ =>
  }

  lemma CreateFileKeepsOpen(v: Vfs, path: string, content: seq<Byte>)
    requires MountsOk(v)
    ensures CreateFile(v, path, content).0.open == v.open && CreateFile(v, path, content).0.mounts == v.mounts
    ensures WritePath(v, path, content).0.open == v.open && WritePath(v, path, content).0.mounts == v.mounts
  {
  }

  /** The descriptor and the bytes under it are the same. */
  ghost predicate Untouched(v: Vfs, v': Vfs, fd: int, f: int, ino: int)
    requires StandsOn(v, fd, f, ino)
  {
    StandsOn(v', fd, f, ino) && v'.open[fd] == v.open[fd] && v'.disks[f].inodes[ino].data == v.disks[f].inodes[ino].data
  }

  /** Whatever spares a descriptor and is no read of it leaves the descriptor and the bytes under it alone. */
  lemma StepUntouched(v: Vfs, op: Op, fd: int, f: int, ino: int)
    requires Inv(v) && Legal(v, op) && StandsOn(v, fd, f, ino) && Spares(v, op, fd, f, ino)
    requires op.OpRead? ==> op.fd != fd
    ensures Untouched(v, Step(v, op), fd, f, ino)
  {
    StepKept(v, op, f, ino);
    StepKeepsEntry(v, op, fd);
  }

  // ---------------------------------------------------------------- the reads of a run

  ghost predicate SparesRun(v: Vfs, ops: seq<Op>, fd: int, f: int, ino: int)
    requires MountsOk(v) && LegalRun(v, ops)
    decreases |ops|
  {
    ops == [] || (Spares(v, ops[0], fd, f, ino) && SparesRun(Step(v, ops[0]), ops[1..], fd, f, ino))
  }

  /** What the operation, if it is a read of fd, returns and asks for. */
  ghost function HeardNow(v: Vfs, op: Op, fd: int): seq<Byte>
    requires MountsOk(v)
  {
    if op.OpRead? && op.fd == fd then ReadFd(v, fd, op.size).1 else []
  }

  ghost function AskedNow(op: Op, fd: int): int {
    if op.OpRead? && op.fd == fd then op.size else 0
  }

  /** What the reads of fd return, one after the other. */
  ghost function Heard(v: Vfs, ops: seq<Op>, fd: int): seq<Byte>
    requires MountsOk(v) && LegalRun(v, ops)
    decreases |ops|
  {
    if ops == [] then [] else HeardNow(v, ops[0], fd) + Heard(Step(v, ops[0]), ops[1..], fd)
  }

  /** How many bytes the reads of fd ask for together. */
  ghost function Asked(ops: seq<Op>, fd: int): int {
    if ops == [] then 0 else AskedNow(ops[0], fd) + Asked(ops[1..], fd)
  }

  /** No read of fd asks for a negative number of bytes. */
  ghost predicate AsksForward(ops: seq<Op>, fd: int) {
    ops == [] || (AskedNow(ops[0], fd) >= 0 && AsksForward(ops[1..], fd))
  }

  /** From v to v' the cursor moved over `heard` in unchanged bytes, and as far as `asked` unless that was negative. */
  ghost predicate Advances(v: Vfs, v': Vfs, heard: seq<Byte>, asked: int, forward: bool, fd: int, f: int, ino: int) {
    && StandsOn(v, fd, f, ino) && StandsOn(v', fd, f, ino)
    && v'.disks[f].inodes[ino].data == v.disks[f].inodes[ino].data
    && var (d, p, p') := (v.disks[f].inodes[ino].data, v.open[fd].position, v'.open[fd].position);
       && 0 <= p <= p' <= |d| && heard == d[p..p']
       && (forward ==> asked >= 0 && p' == Min(p + asked, |d|))
  }

  lemma AdvancesTrans(v: Vfs, v1: Vfs, v2: Vfs, x: seq<Byte>, y: seq<Byte>, a: int, b: int, forward: bool,
                      fd: int, f: int, ino: int)
    requires Advances(v, v1, x, a, forward, fd, f, ino) && Advances(v1, v2, y, b, forward, fd, f, ino)
    ensures Advances(v, v2, x + y, a + b, forward, fd, f, ino)
  {
  }

  ghost function MovedTo(v: Vfs, fd: int, q: int): Vfs
    requires fd in v.open
  {
    v.(open := v.open[fd := v.open[fd].(position := q)])
  }

  /** The cursor of fd is at p in the bytes d. */
  ghost predicate At(v: Vfs, fd: int, f: int, ino: int, d: seq<Byte>, p: int) {
    && MountsOk(v) && StandsOn(v, fd, f, ino)
    && v.disks[f].inodes[ino].data == d && (v.disks[f].inodes[ino].kind == Tmp.File || d == [])
    && v.open[fd].position == p && 0 <= p <= |d|
  }

  lemma AtTarget(v: Vfs, fd: int, f: int, ino: int)
    requires Inv(v) && StandsOn(v, fd, f, ino)
    ensures At(v, fd, f, ino, v.disks[f].inodes[ino].data, v.open[fd].position)
  {
    assert DescriptorOk(v, fd);
    var up :| Tmp.Tree(v.disks[f], up);
    assert Tmp.Shape(v.disks[f].inodes[ino]);
  }

  /** One read moves the cursor behind what it returns and keeps the bytes under it. */
  lemma ReadOnce(v: Vfs, fd: int, f: int, ino: int, d: seq<Byte>, p: int, size: int, q: int)
    requires At(v, fd, f, ino, d, p) && q == p + |Slice(d, p, p + size)|
    ensures p <= q <= |d| && ReadFd(v, fd, size) == (MovedTo(v, fd, q), d[p..q])
    ensures At(MovedTo(v, fd, q), fd, f, ino, d, q)
    ensures size >= 0 ==> q == Min(p + size, |d|)
  {
    SliceFromCursor(d, p, size);
  }

  /** One read of the descriptor: the bytes between the old and the new cursor. */
  lemma ReadAdvances(v: Vfs, fd: int, size: int, f: int, ino: int)
    requires Inv(v) && StandsOn(v, fd, f, ino)
    ensures Advances(v, ReadFd(v, fd, size).0, ReadFd(v, fd, size).1, size, size >= 0, fd, f, ino)
  {
    var (d, p) := (v.disks[f].inodes[ino].data, v.open[fd].position);
    AtTarget(v, fd, f, ino);
    ReadOnce(v, fd, f, ino, d, p, size, p + |Slice(d, p, p + size)|);
  }

  lemma StepAdvances(v: Vfs, op: Op, fd: int, f: int, ino: int)
    requires Inv(v) && Legal(v, op) && StandsOn(v, fd, f, ino) && Spares(v, op, fd, f, ino)
    ensures Advances(v, Step(v, op), HeardNow(v, op, fd), AskedNow(op, fd), AskedNow(op, fd) >= 0, fd, f, ino)
  {
    assert DescriptorOk(v, fd);
    if op.OpRead? && op.fd == fd {
      ReadAdvances(v, fd, op.size, f, ino);
    } else {
      StepUntouched(v, op, fd, f, ino);
    }
  }

  /**
   Over any run that does not close fd or write to its file, whatever else it does, the reads of fd
   together are one contiguous slice of the unchanged bytes, from the first cursor to the last; and
   with sizes that are not negative it is as long as they ask for, up to the end.
   */
  lemma {:induction false} ReadsConcatenate(v: Vfs, ops: seq<Op>, fd: int, f: int, ino: int)
    requires Inv(v) && LegalRun(v, ops) && StandsOn(v, fd, f, ino) && SparesRun(v, ops, fd, f, ino)
    ensures Advances(v, Run(v, ops), Heard(v, ops, fd), Asked(ops, fd), AsksForward(ops, fd), fd, f, ino)
    decreases |ops|
  {
    if ops == [] {
      assert DescriptorOk(v, fd);
    } else {
      StepInv(v, ops[0]);
      StepAdvances(v, ops[0], fd, f, ino);
      var v1 := Step(v, ops[0]);
      ReadsConcatenate(v1, ops[1..], fd, f, ino);
      AdvancesTrans(v, v1, Run(v1, ops[1..]), HeardNow(v, ops[0], fd), Heard(v1, ops[1..], fd),
                    AskedNow(ops[0], fd), Asked(ops[1..], fd), AsksForward(ops, fd), fd, f, ino);
    }
  }

  // ---------------------------------------------------------------- reads in a row

  /** A list of reads through one descriptor, one after the other, and everything they return. */
  ghost function ReadAll(v: Vfs, fd: int, sizes: seq<nat>): (Vfs, seq<Byte>)
    requires MountsOk(v)
    decreases |sizes|
  {
    if sizes == [] then (v, [])
    else
      var (v1, x) := ReadFd(v, fd, sizes[0]);
      var (v2, y) := ReadAll(v1, fd, sizes[1..]);
      (v2, x + y)
  }

  ghost function Total(sizes: seq<nat>): nat {
    if sizes == [] then 0 else sizes[0] + Total(sizes[1..])
  }

  lemma ReadForward(v: Vfs, fd: int, f: int, ino: int, d: seq<Byte>, p: int, n: nat, q: int)
    requires At(v, fd, f, ino, d, p) && q == Min(p + n, |d|)
    ensures ReadFd(v, fd, n) == (MovedTo(v, fd, q), d[p..q])
    ensures At(MovedTo(v, fd, q), fd, f, ino, d, q)
  {
    SliceFromCursor(d, p, n);
    ReadOnce(v, fd, f, ino, d, p, n, q);
  }

  lemma MovedOn(v: Vfs, fd: int, q: int, r: int)
    requires fd in v.open
    ensures MovedTo(MovedTo(v, fd, q), fd, r) == MovedTo(v, fd, r)
  {
    assert MovedTo(MovedTo(v, fd, q), fd, r).open == MovedTo(v, fd, r).open;
  }

  lemma ReadAllCons(v: Vfs, fd: int, sizes: seq<nat>, v1: Vfs, x: seq<Byte>, v2: Vfs, y: seq<Byte>)
    requires MountsOk(v) && sizes != [] && ReadFd(v, fd, sizes[0]) == (v1, x)
    requires MountsOk(v1) && ReadAll(v1, fd, sizes[1..]) == (v2, y)
    ensures ReadAll(v, fd, sizes) == (v2, x + y)
  {
  }

  lemma {:induction false} ReadAllForward(v: Vfs, fd: int, f: int, ino: int, d: seq<Byte>, p: int, sizes: seq<nat>, r: int)
    requires At(v, fd, f, ino, d, p) && r == Min(p + Total(sizes), |d|)
    ensures ReadAll(v, fd, sizes) == (MovedTo(v, fd, r), d[p..r])
    decreases |sizes|
  {
    if sizes == [] {
      assert MovedTo(v, fd, p) == v;
    } else {
      var q := Min(p + sizes[0], |d|);
      var v1 := MovedTo(v, fd, q);
      ReadForward(v, fd, f, ino, d, p, sizes[0], q);
      ReadAllForward(v1, fd, f, ino, d, q, sizes[1..], r);
      MovedOn(v, fd, q, r);
      ReadAllCons(v, fd, sizes, v1, d[p..q], MovedTo(v, fd, r), d[q..r]);
      assert d[p..q] + d[q..r] == d[p..r];
    }
  }

  /**
   Any number of reads in a row, of any sizes, return one contiguous slice of the file from the
   cursor on, and leave exactly the state that a single read of the total would.
   */
  lemma ReadAllContiguous(v: Vfs, fd: int, sizes: seq<nat>, f: int, ino: int)
    requires Inv(v) && StandsOn(v, fd, f, ino)
    ensures ReadAll(v, fd, sizes) == ReadFd(v, fd, Total(sizes))
    ensures var (d, p) := (v.disks[f].inodes[ino].data, v.open[fd].position);
            0 <= p <= |d| && ReadAll(v, fd, sizes).1 == d[p..Min(p + Total(sizes), |d|)]
  {
    AtTarget(v, fd, f, ino);
    ReadAllAt(v, fd, f, ino, v.disks[f].inodes[ino].data, v.open[fd].position, sizes);
  }

  lemma ReadAllAt(v: Vfs, fd: int, f: int, ino: int, d: seq<Byte>, p: int, sizes: seq<nat>)
    requires At(v, fd, f, ino, d, p)
    ensures ReadAll(v, fd, sizes) == ReadFd(v, fd, Total(sizes))
    ensures ReadAll(v, fd, sizes).1 == d[p..Min(p + Total(sizes), |d|)]
  {
    ReadAllForward(v, fd, f, ino, d, p, sizes, Min(p + Total(sizes), |d|));
    ReadForward(v, fd, f, ino, d, p, Total(sizes), Min(p + Total(sizes), |d|));
  }
}
