/** The VFS: path operations over a mount table, and descriptors with cursors. */
module VfsModel {
  import opened Prelude
  import opened ByteStrings
  import opened Paths
  import opened MountModel
  import Tmp = TmpFsModel

  const EBADF := -9

  datatype OpenFile = OpenFile(path: string, ino: int, flags: string, position: int)

  datatype Vfs = Vfs(
    mounts: seq<Mount>,
    disks: map<int, Tmp.Fs>,
    open: map<int, OpenFile>,
    nextFd: int)

  // ---------------------------------------------------------------- resolution

  /** No filesystem, a filesystem without the path, or an inode. */
  datatype Resolution = NoFs | Missing(fs: int) | Found(fs: int, ino: int)

  function ResolveIn(disks: map<int, Tmp.Fs>, m: Mount, path: string): Resolution
    requires m.fs in disks
  {
    var rel := Rest(m, path);
    if rel == "" || rel == "/" then Found(m.fs, Tmp.ROOT)
    else
      match Tmp.Walk(disks[m.fs], Tmp.ROOT, Comps(rel))
      case None => Missing(m.fs)
      case Some(ino) => Found(m.fs, ino)
  }

  ghost predicate MountsOk(v: Vfs) {
    Sorted(v.mounts) && forall m :: m in v.mounts ==> m.fs in v.disks
  }

  function Resolve(v: Vfs, path: string): (r: Resolution)
    requires MountsOk(v)
    ensures r.Missing? || r.Found? ==> r.fs in v.disks
  {
    match Pick(v.mounts, path)
    case None => NoFs
    case Some(m) =>
      PickMember(v.mounts, path);
      ResolveIn(v.disks, m, path)
  }

  // ---------------------------------------------------------------- operations

  /** Bring a filesystem into play. */
  function NewDisk(v: Vfs, f: int): Vfs {
    v.(disks := v.disks[f := Tmp.Empty()])
  }

  function MountAt(v: Vfs, path: string, f: int): Vfs {
    v.(mounts := AddMount(v.mounts, Mount(path, f)))
  }

  function SetDisk(v: Vfs, f: int, fs: Tmp.Fs): Vfs {
    v.(disks := v.disks[f := fs])
  }

  predicate Writable(flags: string) {
    'w' in flags || 'a' in flags
  }

  /** The inode a descriptor is opened on: inside a directory, a child named like the path is created or reused. */
  function OpenTarget(fs: Tmp.Fs, ino: int, path: string, flags: string): (Tmp.Fs, int)
    requires ino in fs.inodes
  {
    if Writable(flags) && fs.inodes[ino].kind == Tmp.Dir then
      match Tmp.Create(fs, ino, LastName(path), Tmp.File)
      case (fs', Created(child)) => (fs', child)
      case (fs', _) =>
        (fs', match Tmp.LookupName(fs', ino, LastName(path)) case Some(child) => child case None => ino)
    else (fs, ino)
  }

  function Open(v: Vfs, path: string, flags: string): (Vfs, int)
    requires MountsOk(v)
  {
    match Resolve(v, path)
    case NoFs => (v, Tmp.ENOENT)
    case Missing(_) => (v, Tmp.ENOENT)
    case Found(f, ino) =>
      if ino !in v.disks[f].inodes then (v, Tmp.ENOENT)
      else
        var (fs, target) := OpenTarget(v.disks[f], ino, path, flags);
        var start := if 'a' in flags && target in fs.inodes then fs.inodes[target].size else 0;
        (SetDisk(v, f, fs).(open := v.open[v.nextFd := OpenFile(path, target, flags, start)],
                            nextFd := v.nextFd + 1), v.nextFd)
  }

  function ReadFd(v: Vfs, fd: int, size: int): (Vfs, seq<Byte>)
    requires MountsOk(v)
  {
    if fd !in v.open then (v, [])
    else
      var of := v.open[fd];
      match Pick(v.mounts, of.path)
      case None => (v, [])
      case Some(m) =>
        PickMember(v.mounts, of.path);
        var data := Tmp.Read(v.disks[m.fs], of.ino, of.position, size);
        (v.(open := v.open[fd := of.(position := of.position + |data|)]), data)
  }

  function WriteFd(v: Vfs, fd: int, data: seq<Byte>): (Vfs, int)
    requires MountsOk(v)
  {
    if fd !in v.open then (v, EBADF)
    else
      var of := v.open[fd];
      match Pick(v.mounts, of.path)
      case None => (v, Tmp.ENOENT)
      case Some(m) =>
        PickMember(v.mounts, of.path);
        var (fs, n) := Tmp.Write(v.disks[m.fs], of.ino, of.position, data);
        (SetDisk(v, m.fs, fs).(open := if n > 0 then v.open[fd := of.(position := of.position + n)] else v.open), n)
  }

  function CloseFd(v: Vfs, fd: int): (Vfs, bool) {
    (v.(open := v.open - {fd}), fd in v.open)
  }

  /** The parent of a new entry, if it resolves. */
  function ResolveParent(v: Vfs, path: string): (r: Resolution)
    requires MountsOk(v)
    ensures r.Missing? || r.Found? ==> r.fs in v.disks
  {
    Resolve(v, ParentPath(path))
  }

  function Mkdir(v: Vfs, path: string): (Vfs, bool)
    requires MountsOk(v)
  {
    match ResolveParent(v, path)
    case Found(f, parent) =>
      var (fs, r) := Tmp.Create(v.disks[f], parent, LastName(path), Tmp.Dir);
      (SetDisk(v, f, fs), r.Created?)
    case _ => (v, false)
  }

  /** `if content: fs.write(ino, 0, content); inode.size = len(content)`. */
  function FillNew(fs: Tmp.Fs, ino: int, content: seq<Byte>): Tmp.Fs {
    if content == [] then fs
    else
      var fs' := Tmp.Write(fs, ino, 0, content).0;
      if ino in fs'.inodes then fs'.(inodes := fs'.inodes[ino := fs'.inodes[ino].(size := |content|)]) else fs'
  }

  function CreateFile(v: Vfs, path: string, content: seq<Byte>): (Vfs, bool)
    requires MountsOk(v)
  {
    match ResolveParent(v, path)
    case Found(f, parent) =>
      (match Tmp.Create(v.disks[f], parent, LastName(path), Tmp.File)
       case (fs, Created(ino)) => (SetDisk(v, f, FillNew(fs, ino, content)), true)
       case (fs, _) => (SetDisk(v, f, fs), false))
    case _ => (v, false)
  }

  function ReadPath(v: Vfs, path: string, size: int): Option<seq<Byte>>
    requires MountsOk(v)
  {
    match Resolve(v, path)
    case Found(f, ino) =>
      if ino !in v.disks[f].inodes || v.disks[f].inodes[ino].kind != Tmp.File then None
      else Some(Tmp.Read(v.disks[f], ino, 0, size))
    case _ => None
  }

  function WritePath(v: Vfs, path: string, data: seq<Byte>): (Vfs, int)
    requires MountsOk(v)
  {
    match Resolve(v, path)
    case Found(f, ino) =>
      var (fs, n) := Tmp.Write(v.disks[f], ino, 0, data);
      (SetDisk(v, f, fs), n)
    case _ =>
      var (v', ok) := CreateFile(v, path, data);
      (v', if ok then |data| else Tmp.ENOENT)
  }

  datatype Op =
    | OpNewDisk(f: int)
    | OpMount(path: string, f: int)
    | OpOpen(path: string, flags: string)
    | OpRead(fd: int, size: int)
    | OpWrite(fd: int, data: seq<Byte>)
    | OpClose(fd: int)
    | OpMkdir(path: string)
    | OpCreateFile(path: string, content: seq<Byte>)
    | OpWritePath(path: string, data: seq<Byte>)

  function Step(v: Vfs, op: Op): Vfs
    requires MountsOk(v)
  {
    match op
    case OpNewDisk(f) => NewDisk(v, f)
    case OpMount(path, f) => MountAt(v, path, f)
    case OpOpen(path, flags) => Open(v, path, flags).0
    case OpRead(fd, size) => ReadFd(v, fd, size).0
    case OpWrite(fd, data) => WriteFd(v, fd, data).0
    case OpClose(fd) => CloseFd(v, fd).0
    case OpMkdir(path) => Mkdir(v, path).0
    case OpCreateFile(path, content) => CreateFile(v, path, content).0
    case OpWritePath(path, data) => WritePath(v, path, data).0
  }

  // ---------------------------------------------------------------- the invariant

  /** The file a descriptor denotes. */
  ghost function Target(v: Vfs, fd: int): (int, int)
    requires fd in v.open && Pick(v.mounts, v.open[fd].path).Some?
  {
    (Pick(v.mounts, v.open[fd].path).value.fs, v.open[fd].ino)
  }

  /** The descriptor's path still leads to a filesystem holding its inode, and its cursor is within the data. */
  ghost predicate DescriptorOk(v: Vfs, fd: int)
    requires MountsOk(v)
  {
    && fd in v.open && 3 <= fd < v.nextFd
    && Pick(v.mounts, v.open[fd].path).Some?
    && var (f, ino) := Target(v, fd);
       && f in v.disks && ino in v.disks[f].inodes
       && 0 <= v.open[fd].position <= |v.disks[f].inodes[ino].data|
  }

  ghost predicate Inv(v: Vfs) {
    && MountsOk(v)
    && v.nextFd >= 3
    && (forall f :: f in v.disks ==> Tmp.IsTree(v.disks[f]))
    && (forall fd :: fd in v.open ==> DescriptorOk(v, fd))
  }

  /** A new mount leaves the path on the filesystem it was on. */
  ghost predicate Harmless(ms: seq<Mount>, m: Mount, path: string) {
    TakesOver(ms, m, path) ==> Pick(ms, path).Some? && Pick(ms, path).value.fs == m.fs
  }

  /** What callers respect: filesystems enter once, and no mount moves an open descriptor to another one. */
  ghost predicate Legal(v: Vfs, op: Op) {
    match op
    case OpNewDisk(f) => f !in v.disks
    case OpMount(path, f) =>
      f in v.disks && forall fd :: fd in v.open ==> Harmless(v.mounts, Mount(path, f), v.open[fd].path)
    case _ => true
  }

  lemma StartInv()
    ensures Inv(Vfs([], map[], map[], 3))
  {
  }

  /** A filesystem has developed: it is still a tree, nothing was unlinked, and no file got shorter. */
  ghost predicate Developed(a: Tmp.Fs, b: Tmp.Fs) {
    && Tmp.IsTree(b) && Tmp.Grows(a, b)
    && forall i :: i in a.inodes ==> i in b.inodes && |a.inodes[i].data| <= |b.inodes[i].data|
  }

  lemma DevelopedRefl(a: Tmp.Fs)
    requires Tmp.IsTree(a)
    ensures Developed(a, a)
  {
  }

  /** Replacing one filesystem by a later version of itself keeps the invariant. */
  lemma SetDiskInv(v: Vfs, f: int, fs: Tmp.Fs)
    requires Inv(v) && f in v.disks && Developed(v.disks[f], fs)
    ensures Inv(SetDisk(v, f, fs))
  {
    forall fd | fd in v.open ensures DescriptorOk(SetDisk(v, f, fs), fd) {
      assert DescriptorOk(v, fd);
    }
  }

  lemma CreateDeveloped(fs: Tmp.Fs, parent: int, name: string, kind: Tmp.Kind)
    requires Tmp.IsTree(fs)
    ensures Developed(fs, Tmp.Create(fs, parent, name, kind).0)
    ensures Tmp.Create(fs, parent, name, kind).1.Created? ==>
              fs.next !in fs.inodes && fs.next in Tmp.Create(fs, parent, name, kind).0.inodes
              && Tmp.Create(fs, parent, name, kind).0.inodes[fs.next] == Tmp.NewInode(kind)
  {
    Tmp.CreateGrows(fs, parent, name, kind);
    Tmp.StepTree(fs, Tmp.OpCreate(parent, name, kind));
    var up :| Tmp.Tree(fs, up);
  }

  lemma WriteDeveloped(fs: Tmp.Fs, ino: int, offset: int, data: seq<Byte>)
    requires Tmp.IsTree(fs) && offset >= 0
    ensures Developed(fs, Tmp.Write(fs, ino, offset, data).0)
  {
    Tmp.WriteGrows(fs, ino, offset, data);
    Tmp.StepTree(fs, Tmp.OpWrite(ino, offset, data));
    if ino in fs.inodes {
      var was := fs.inodes[ino].data;
      if offset <= |was| {
        Tmp.OverwriteOverlays(was, offset, data);
      } else {
        Tmp.OverwriteFills(was, offset, data);
      }
    }
  }

  lemma DevelopedTrans(a: Tmp.Fs, b: Tmp.Fs, c: Tmp.Fs)
    requires Developed(a, b) && Developed(b, c)
    ensures Developed(a, c)
  {
    Tmp.GrowsTrans(a, b, c);
  }

  /** After a write of content at 0 to a fresh file, setting the size changes nothing. */
  lemma FillNewIsWrite(fs: Tmp.Fs, ino: int, content: seq<Byte>)
    requires ino in fs.inodes && fs.inodes[ino] == Tmp.NewInode(Tmp.File)
    ensures content != [] ==> FillNew(fs, ino, content) == Tmp.Write(fs, ino, 0, content).0
    ensures ino in FillNew(fs, ino, content).inodes
    ensures FillNew(fs, ino, content).inodes[ino] == Tmp.Inode(Tmp.File, |content|, content, map[])
  {
    if content != [] {
      assert Tmp.Overwrite([], 0, content) == content;
    }
  }

  lemma FillNewDeveloped(fs: Tmp.Fs, ino: int, content: seq<Byte>)
    requires Tmp.IsTree(fs) && ino in fs.inodes && fs.inodes[ino] == Tmp.NewInode(Tmp.File)
    ensures Developed(fs, FillNew(fs, ino, content))
  {
    FillNewIsWrite(fs, ino, content);
    if content == [] {
      DevelopedRefl(fs);
    } else {
      WriteDeveloped(fs, ino, 0, content);
    }
  }

  /** A lookup or a walk from an inode of a tree stays inside the tree. */
  lemma {:induction false} WalkInside(fs: Tmp.Fs, ino: int, names: seq<string>)
    requires Tmp.Walk(fs, ino, names).Some? && ino in fs.inodes
    ensures Tmp.Walk(fs, ino, names).value in fs.inodes
    decreases |names|
  {
    if names != [] {
      WalkInside(fs, Tmp.LookupName(fs, ino, names[0]).value, names[1..]);
    }
  }

  lemma ResolveInside(v: Vfs, path: string)
    requires Inv(v) && Resolve(v, path).Found?
    ensures Resolve(v, path).fs in v.disks && Resolve(v, path).ino in v.disks[Resolve(v, path).fs].inodes
    ensures Pick(v.mounts, path).Some? && Pick(v.mounts, path).value.fs == Resolve(v, path).fs
  {
    PickMember(v.mounts, path);
    var m := Pick(v.mounts, path).value;
    var fs := v.disks[m.fs];
    var up :| Tmp.Tree(fs, up);
    var rel := Rest(m, path);
    if rel != "" && rel != "/" {
      WalkInside(fs, Tmp.ROOT, Comps(rel));
    }
  }

  lemma OpenTargetDeveloped(fs: Tmp.Fs, ino: int, path: string, flags: string)
    requires Tmp.IsTree(fs) && ino in fs.inodes
    ensures var (fs', target) := OpenTarget(fs, ino, path, flags);
            Developed(fs, fs') && target in fs'.inodes && fs'.inodes[target].size == |fs'.inodes[target].data|
  {
    if Writable(flags) && fs.inodes[ino].kind == Tmp.Dir {
      CreateDeveloped(fs, ino, LastName(path), Tmp.File);
    } else {
      DevelopedRefl(fs);
    }
    var fs' := OpenTarget(fs, ino, path, flags).0;
    var up :| Tmp.Tree(fs', up);
    assert forall i :: i in fs'.inodes ==> Tmp.Shape(fs'.inodes[i]);
  }

  lemma OpenInv(v: Vfs, path: string, flags: string)
    requires Inv(v)
    ensures Inv(Open(v, path, flags).0)
    ensures Open(v, path, flags).1 >= 0 ==> Open(v, path, flags).1 == v.nextFd
  {
    if Resolve(v, path).Found? {
      ResolveInside(v, path);
      var f, ino := Resolve(v, path).fs, Resolve(v, path).ino;
      OpenTargetDeveloped(v.disks[f], ino, path, flags);
      var (fs, target) := OpenTarget(v.disks[f], ino, path, flags);
      SetDiskInv(v, f, fs);
      var v1 := SetDisk(v, f, fs);
      var v' := Open(v, path, flags).0;
      forall fd | fd in v'.open ensures DescriptorOk(v', fd) {
        if fd != v.nextFd {
          assert DescriptorOk(v1, fd);
        }
      }
    }
  }

  /** A read moves the cursor to the end of what it returned, which is inside the data for sizes of either sign. */
  lemma SliceFromCursor(data: seq<Byte>, position: int, size: int)
    requires 0 <= position <= |data|
    ensures var r := Slice(data, position, position + size);
            && position + |r| <= |data| && r == data[position..position + |r|]
            && (size >= 0 ==> |r| == if position + size <= |data| then size else |data| - position)
  {
  }

  lemma ReadInv(v: Vfs, fd: int, size: int)
    requires Inv(v)
    ensures Inv(ReadFd(v, fd, size).0)
  {
    if fd in v.open {
      assert DescriptorOk(v, fd);
      var (f, ino) := Target(v, fd);
      SliceFromCursor(v.disks[f].inodes[ino].data, v.open[fd].position, size);
      var v' := ReadFd(v, fd, size).0;
      forall g | g in v'.open ensures DescriptorOk(v', g) {
        assert DescriptorOk(v, g);
      }
    }
  }

  lemma WriteInv(v: Vfs, fd: int, data: seq<Byte>)
    requires Inv(v)
    ensures Inv(WriteFd(v, fd, data).0)
  {
    if fd in v.open {
      assert DescriptorOk(v, fd);
      var (f, ino) := Target(v, fd);
      var position := v.open[fd].position;
      var (fs, n) := Tmp.Write(v.disks[f], ino, position, data);
      WriteDeveloped(v.disks[f], ino, position, data);
      SetDiskInv(v, f, fs);
      Tmp.OverwriteOverlays(v.disks[f].inodes[ino].data, position, data);
      var v1 := SetDisk(v, f, fs);
      var v' := WriteFd(v, fd, data).0;
      forall g | g in v'.open ensures DescriptorOk(v', g) {
        assert DescriptorOk(v1, g);
      }
    }
  }

  lemma MkdirInv(v: Vfs, path: string)
    requires Inv(v)
    ensures Inv(Mkdir(v, path).0)
  {
    var r := ResolveParent(v, path);
    if r.Found? {
      CreateDeveloped(v.disks[r.fs], r.ino, LastName(path), Tmp.Dir);
      SetDiskInv(v, r.fs, Tmp.Create(v.disks[r.fs], r.ino, LastName(path), Tmp.Dir).0);
    }
  }

  lemma CreateFileInv(v: Vfs, path: string, content: seq<Byte>)
    requires Inv(v)
    ensures Inv(CreateFile(v, path, content).0)
  {
    var r := ResolveParent(v, path);
    if r.Found? {
      var fs0 := v.disks[r.fs];
      CreateDeveloped(fs0, r.ino, LastName(path), Tmp.File);
      var (fs1, c) := Tmp.Create(fs0, r.ino, LastName(path), Tmp.File);
      if c.Created? {
        FillNewDeveloped(fs1, c.ino, content);
        DevelopedTrans(fs0, fs1, FillNew(fs1, c.ino, content));
        SetDiskInv(v, r.fs, FillNew(fs1, c.ino, content));
      } else {
        SetDiskInv(v, r.fs, fs1);
      }
    }
  }

  lemma WritePathInv(v: Vfs, path: string, data: seq<Byte>)
    requires Inv(v)
    ensures Inv(WritePath(v, path, data).0)
  {
    var r := Resolve(v, path);
    if r.Found? {
      WriteDeveloped(v.disks[r.fs], r.ino, 0, data);
      SetDiskInv(v, r.fs, Tmp.Write(v.disks[r.fs], r.ino, 0, data).0);
    } else {
      CreateFileInv(v, path, data);
    }
  }

  /** A mount leaves a descriptor on its file exactly when it is harmless for the descriptor's path. */
  lemma MountTarget(v: Vfs, path: string, f: int, fd: int)
    requires Inv(v) && f in v.disks && fd in v.open
    ensures Pick(v.mounts, v.open[fd].path).Some?
    ensures Pick(MountAt(v, path, f).mounts, v.open[fd].path).Some?
    ensures Target(MountAt(v, path, f), fd) == Target(v, fd) <==>
              Harmless(v.mounts, Mount(path, f), v.open[fd].path)
  {
    assert DescriptorOk(v, fd);
    PickAfterMount(v.mounts, Mount(path, f), v.open[fd].path);
  }

  lemma MountInv(v: Vfs, path: string, f: int)
    requires Inv(v) && Legal(v, OpMount(path, f))
    ensures Inv(MountAt(v, path, f))
  {
    AddMountInserts(v.mounts, Mount(path, f));
    var v' := MountAt(v, path, f);
    forall fd | fd in v.open ensures DescriptorOk(v', fd) {
      assert DescriptorOk(v, fd);
      MountTarget(v, path, f, fd);
    }
  }

  lemma NewDiskInv(v: Vfs, f: int)
    requires Inv(v) && f !in v.disks
    ensures Inv(NewDisk(v, f))
  {
    Tmp.EmptyTree();
    forall fd | fd in v.open ensures DescriptorOk(NewDisk(v, f), fd) {
      assert DescriptorOk(v, fd);
    }
  }

  lemma CloseInv(v: Vfs, fd: int)
    requires Inv(v)
    ensures Inv(CloseFd(v, fd).0)
  {
    forall g | g in CloseFd(v, fd).0.open ensures DescriptorOk(CloseFd(v, fd).0, g) {
      assert DescriptorOk(v, g);
    }
  }

  /** Every legal operation keeps trees trees, cursors within the data and descriptors alive. */
  lemma StepInv(v: Vfs, op: Op)
    requires Inv(v) && Legal(v, op)
    ensures Inv(Step(v, op))
  {
    match op
    case OpNewDisk(f) => NewDiskInv(v, f);
    case OpMount(path, f) => MountInv(v, path, f);
    case OpOpen(path, flags) => OpenInv(v, path, flags);
    case OpRead(fd, size) => ReadInv(v, fd, size);
    case OpWrite(fd, data) => WriteInv(v, fd, data);
    case OpClose(fd) => CloseInv(v, fd);
    case OpMkdir(path) => MkdirInv(v, path);
    case OpCreateFile(path, content) => CreateFileInv(v, path, content);
    case OpWritePath(path, data) => WritePathInv(v, path, data);
  }

  ghost predicate LegalRun(v: Vfs, ops: seq<Op>)
    requires MountsOk(v)
    decreases |ops|
  {
    ops == [] ||
    (Legal(v, ops[0]) && MountsOk(Step(v, ops[0])) && LegalRun(Step(v, ops[0]), ops[1..]))
  }

  ghost function Run(v: Vfs, ops: seq<Op>): Vfs
    requires MountsOk(v) && LegalRun(v, ops)
    decreases |ops|
  {
    if ops == [] then v else Run(Step(v, ops[0]), ops[1..])
  }

  /** The VFS invariant holds after every legal run. */
  lemma {:induction false} RunInv(v: Vfs, ops: seq<Op>)
    requires Inv(v) && LegalRun(v, ops)
    ensures Inv(Run(v, ops))
    decreases |ops|
  {
    if ops != [] {
      StepInv(v, ops[0]);
      RunInv(Step(v, ops[0]), ops[1..]);
    }
  }
}
