/** The VFS object: a mount table, the mounted filesystems by number, and open-file objects. */
module VfsClass {
  import opened Prelude
  import opened ByteStrings
  import opened Paths
  import opened MountModel
  import opened VfsModel
  import Tmp = TmpFsModel
  import opened TmpFsClass

  class OpenFileObject {
    const fd: int
    const path: string
    const ino: int
    const flags: string
    var position: int

    constructor (fd: int, path: string, ino: int, flags: string, position: int)
      ensures this.fd == fd && View() == OpenFile(path, ino, flags, position)
    {
      this.fd := fd;
      this.path := path;
      this.ino := ino;
      this.flags := flags;
      this.position := position;
    }

    ghost function View(): OpenFile
      reads this
    {
      OpenFile(path, ino, flags, position)
    }
  }

  ghost function CreatedIn(v: Vfs, f: int, parent: int, name: string, kind: Tmp.Kind): (Vfs, Tmp.CreateResult)
    requires f in v.disks
  {
    var (fs, r) := Tmp.Create(v.disks[f], parent, name, kind);
    (SetDisk(v, f, fs), r)
  }

  ghost function WrittenIn(v: Vfs, f: int, ino: int, offset: int, data: seq<Byte>): (Vfs, int)
    requires f in v.disks
  {
    var (fs, n) := Tmp.Write(v.disks[f], ino, offset, data);
    (SetDisk(v, f, fs), n)
  }

  ghost function FilledIn(v: Vfs, f: int, ino: int, content: seq<Byte>): Vfs
    requires f in v.disks
  {
    SetDisk(v, f, FillNew(v.disks[f], ino, content))
  }

  lemma FilledForm(v: Vfs, f: int, ino: int, content: seq<Byte>)
    requires f in v.disks
    ensures content == [] ==> FilledIn(v, f, ino, content) == v
    ensures content != [] ==>
              var v1 := WrittenIn(v, f, ino, 0, content).0;
              FilledIn(v, f, ino, content) ==
                if ino in v1.disks[f].inodes
                then SetDisk(v1, f, v1.disks[f].(inodes := v1.disks[f].inodes[ino := v1.disks[f].inodes[ino].(size := |content|)]))
                else v1
  {
    if content == [] {
      assert v.disks[f := v.disks[f]] == v.disks;
    } else {
      var v1 := WrittenIn(v, f, ino, 0, content).0;
      var fs' := FillNew(v.disks[f], ino, content);
      assert v1.disks[f := fs'] == v.disks[f := fs'];
    }
  }

  lemma MkdirForm(v: Vfs, path: string)
    requires MountsOk(v)
    ensures ResolveParent(v, path).Found? ==>
              var r := ResolveParent(v, path);
              var (v', c) := CreatedIn(v, r.fs, r.ino, LastName(path), Tmp.Dir);
              Mkdir(v, path) == (v', c.Created?)
    ensures !ResolveParent(v, path).Found? ==> Mkdir(v, path) == (v, false)
  {
  }

  lemma CreateFileForm(v: Vfs, path: string, content: seq<Byte>)
    requires MountsOk(v)
    ensures ResolveParent(v, path).Found? ==>
              var r := ResolveParent(v, path);
              var (v', c) := CreatedIn(v, r.fs, r.ino, LastName(path), Tmp.File);
              CreateFile(v, path, content) == if c.Created? then (FilledIn(v', r.fs, c.ino, content), true) else (v', false)
    ensures !ResolveParent(v, path).Found? ==> CreateFile(v, path, content) == (v, false)
  {
    if ResolveParent(v, path).Found? {
      var r := ResolveParent(v, path);
      var (v', c) := CreatedIn(v, r.fs, r.ino, LastName(path), Tmp.File);
      if c.Created? {
        var fs := v'.disks[r.fs];
        assert v'.disks[r.fs := FillNew(fs, c.ino, content)] == v.disks[r.fs := FillNew(fs, c.ino, content)];
      }
    }
  }

  lemma WritePathForm(v: Vfs, path: string, data: seq<Byte>)
    requires MountsOk(v)
    ensures Resolve(v, path).Found? ==>
              WritePath(v, path, data) == WrittenIn(v, Resolve(v, path).fs, Resolve(v, path).ino, 0, data)
    ensures !Resolve(v, path).Found? ==>
              var (v', ok) := CreateFile(v, path, data);
              WritePath(v, path, data) == (v', if ok then |data| else Tmp.ENOENT)
  {
  }

  ghost function NamedIn(v: Vfs, f: int, dir: int, name: string): (Vfs, int)
    requires f in v.disks
  {
    var (v', r) := CreatedIn(v, f, dir, name, Tmp.File);
    (v', match r
         case Created(child) => child
         case _ => match Tmp.LookupName(v'.disks[f], dir, name) case Some(child) => child case None => dir)
  }

  /** A descriptor on the inode, at the start or for append at the end. */
  ghost function EnteredAt(v: Vfs, f: int, target: int, path: string, flags: string): (Vfs, int)
    requires f in v.disks
  {
    var start := if 'a' in flags && target in v.disks[f].inodes then v.disks[f].inodes[target].size else 0;
    (v.(open := v.open[v.nextFd := OpenFile(path, target, flags, start)], nextFd := v.nextFd + 1), v.nextFd)
  }

  ghost function OpenedAt(v: Vfs, f: int, ino: int, path: string, flags: string): (Vfs, int)
    requires f in v.disks && ino in v.disks[f].inodes
  {
    var (fs, target) := OpenTarget(v.disks[f], ino, path, flags);
    EnteredAt(SetDisk(v, f, fs), f, target, path, flags)
  }

  lemma OpenForm(v: Vfs, path: string, flags: string)
    requires MountsOk(v)
    ensures var r := Resolve(v, path);
            Open(v, path, flags) ==
              if r.Found? && r.ino in v.disks[r.fs].inodes then OpenedAt(v, r.fs, r.ino, path, flags)
              else (v, Tmp.ENOENT)
  {
  }

  lemma WriteFdForm(v: Vfs, fd: int, data: seq<Byte>)
    requires MountsOk(v) && fd in v.open && Pick(v.mounts, v.open[fd].path).Some?
    ensures Pick(v.mounts, v.open[fd].path).value.fs in v.disks
    ensures var (v', n) := WrittenIn(v, Pick(v.mounts, v.open[fd].path).value.fs, v.open[fd].ino, v.open[fd].position, data);
            WriteFd(v, fd, data) == (if n > 0 then MovedCursor(v', fd, n) else v', n)
  {
    PickMember(v.mounts, v.open[fd].path);
  }

  lemma ReadFdForm(v: Vfs, fd: int, size: int, m: Mount, data: seq<Byte>)
    requires MountsOk(v) && fd in v.open && Pick(v.mounts, v.open[fd].path) == Some(m) && m.fs in v.disks
    requires data == Tmp.Read(v.disks[m.fs], v.open[fd].ino, v.open[fd].position, size)
    ensures ReadFd(v, fd, size) == (MovedCursor(v, fd, |data|), data)
  {
  }

  ghost function MovedCursor(v: Vfs, fd: int, n: int): Vfs
    requires fd in v.open
  {
    v.(open := v.open[fd := v.open[fd].(position := v.open[fd].position + n)])
  }

  class VfsObject {
    var mounts: seq<Mount>
    var disks: map<int, TmpFs>
    var openFiles: map<int, OpenFileObject>
    var nextFd: int
    /** The inode objects of all the filesystems, and the open-file objects. */
    ghost var nodes: set<InodeObject>
    ghost var handles: set<OpenFileObject>

    ghost predicate DiskOk(f: int)
      requires f in disks
      reads `disks, `nodes, disks.Values, nodes
    {
      disks[f].id == f && disks[f].nodes <= nodes && disks[f].Valid()
    }

    ghost predicate Valid()
      reads this, disks.Values, nodes, handles
    {
      && (forall f :: f in disks ==> DiskOk(f))
      && (forall fd :: fd in openFiles ==> openFiles[fd] in handles && openFiles[fd].fd == fd)
      && Sorted(mounts)
      && (forall m :: m in mounts ==> m.fs in disks)
    }

    ghost function Disks(): map<int, Tmp.Fs>
      reads `disks, disks.Values
    {
      map f | f in disks :: disks[f].state
    }

    ghost function Opens(): map<int, OpenFile>
      reads `openFiles, openFiles.Values
    {
      map fd | fd in openFiles :: openFiles[fd].View()
    }

    ghost function View(): Vfs
      reads this, disks.Values, openFiles.Values
    {
      Vfs(mounts, Disks(), Opens(), nextFd)
    }

    constructor ()
      ensures Valid() && fresh(nodes) && fresh(handles) && disks == map[]
      ensures View() == Vfs([], map[], map[], 3)
    {
      mounts := [];
      disks := map[];
      openFiles := map[];
      nextFd := 3;
      nodes, handles := {}, {};
    }

    /** Distinct filesystems share no object. */
    lemma DisksApart(f: int)
      requires Valid() && f in disks
      ensures forall g :: g in disks && g != f ==> disks[g] != disks[f] && disks[g].nodes !! disks[f].nodes
    {
      assert DiskOk(f);
      forall g | g in disks && g != f ensures disks[g] != disks[f] && disks[g].nodes !! disks[f].nodes {
        assert DiskOk(g);
        forall n | n in disks[g].nodes ensures n !in disks[f].nodes {
          assert n.home == g;
        }
      }
    }

    /** When only filesystem f was written, the others stay valid and only its entry changes. */
    twostate lemma OneDiskChanged(f: int)
      requires disks == old(disks) && old(nodes) <= nodes && f in disks && DiskOk(f)
      requires forall g :: g in disks && g != f ==> old(DiskOk(g)) && unchanged(disks[g]) && unchanged(disks[g].nodes)
      ensures forall g :: g in disks ==> DiskOk(g)
      ensures Disks() == old(Disks())[f := disks[f].state]
    {
      forall g | g in disks ensures DiskOk(g) && (g != f ==> disks[g].state == old(disks[g].state)) {
        if g != f {
          assert old(DiskOk(g)) && unchanged(disks[g]);
        }
      }
      forall g | g in Disks() ensures Disks()[g] == old(Disks())[f := disks[f].state][g] {
        assert DiskOk(g);
      }
    }

    /** The same on the whole view. */
    twostate lemma OnlyDisk(f: int)
      requires unchanged(`mounts) && unchanged(`disks) && unchanged(`openFiles) && unchanged(`nextFd)
      requires unchanged(openFiles.Values) && f in disks
      requires Disks() == old(Disks())[f := disks[f].state]
      ensures View() == SetDisk(old(View()), f, disks[f].state)
    {
      assert Opens() == old(Opens());
    }

    // ------------------------------------------------------------ one filesystem at a time

    method CreateEntry(f: int, parent: int, name: string, kind: Tmp.Kind) returns (r: Tmp.CreateResult)
      requires Valid() && f in disks
      modifies `nodes, disks[f], disks[f].nodes
      ensures Valid() && f in old(View()).disks
      ensures forall n :: n in nodes ==> n in old(nodes) || fresh(n)
      ensures (View(), r) == CreatedIn(old(View()), f, parent, name, kind)
    {
      DisksApart(f);
      assert DiskOk(f);
      r := disks[f].Create(parent, name, kind);
      nodes := nodes + disks[f].nodes;
      forall g | g in disks && g != f ensures old(DiskOk(g)) && unchanged(disks[g]) && unchanged(disks[g].nodes) {
        assert old(DiskOk(g));
      }
      OneDiskChanged(f);
      OnlyDisk(f);
    }

    method WriteEntry(f: int, ino: int, offset: int, data: seq<Byte>) returns (n: int)
      requires Valid() && f in disks
      modifies disks[f], disks[f].nodes
      ensures Valid() && f in old(View()).disks
      ensures disks[f].inodes == old(disks[f].inodes) && disks[f].nodes == old(disks[f].nodes)
      ensures (View(), n) == WrittenIn(old(View()), f, ino, offset, data)
    {
      DisksApart(f);
      assert DiskOk(f);
      n := disks[f].Write(ino, offset, data);
      forall g | g in disks && g != f ensures old(DiskOk(g)) && unchanged(disks[g]) && unchanged(disks[g].nodes) {
        assert old(DiskOk(g));
      }
      OneDiskChanged(f);
      OnlyDisk(f);
    }

    method SizeEntry(f: int, ino: int, size: int)
      requires Valid() && f in disks && ino in disks[f].inodes
      modifies disks[f], disks[f].nodes
      ensures Valid() && f in old(View()).disks && ino in old(View()).disks[f].inodes
      ensures var fs := old(View()).disks[f];
              View() == SetDisk(old(View()), f, fs.(inodes := fs.inodes[ino := fs.inodes[ino].(size := size)]))
    {
      DisksApart(f);
      assert DiskOk(f);
      disks[f].SetSize(ino, size);
      forall g | g in disks && g != f ensures old(DiskOk(g)) && unchanged(disks[g]) && unchanged(disks[g].nodes) {
        assert old(DiskOk(g));
      }
      OneDiskChanged(f);
      OnlyDisk(f);
    }

    /** Content of a file just created. */
    method FillEntry(f: int, ino: int, content: seq<Byte>)
      requires Valid() && f in disks
      modifies disks[f], disks[f].nodes
      ensures Valid() && f in old(View()).disks
      ensures View() == FilledIn(old(View()), f, ino, content)
    {
      FilledForm(View(), f, ino, content);
      if content != [] {
        var _ := WriteEntry(f, ino, 0, content);
        assert DiskOk(f) && View().disks[f] == disks[f].state;
        var node := disks[f].Lookup(ino);
        if node != null {
          SizeEntry(f, ino, |content|);
        }
      }
    }

    // ------------------------------------------------------------ mounting and resolving

    /** Bring in a fresh filesystem; its number must be new. */
    method AddDisk(disk: TmpFs)
      requires Valid() && disk.Valid() && disk.id !in disks && disk.state == Tmp.Empty()
      modifies this
      ensures Valid() && disks == old(disks)[disk.id := disk] && nodes == old(nodes) + disk.nodes
      ensures handles == old(handles)
      ensures View() == NewDisk(old(View()), disk.id)
    {
      disks := disks[disk.id := disk];
      nodes := nodes + disk.nodes;
      forall g | g in disks ensures DiskOk(g) {
        if g != disk.id {
          assert old(DiskOk(g));
        }
      }
      assert Disks() == old(Disks())[disk.id := Tmp.Empty()];
    }

    method MountDisk(mountpoint: string, f: int)
      requires Valid() && f in disks
      modifies `mounts
      ensures Valid()
      ensures View() == MountAt(old(View()), mountpoint, f)
    {
      AddMountInserts(mounts, Mount(mountpoint, f));
      mounts := AddMount(mounts, Mount(mountpoint, f));
      forall g | g in disks ensures DiskOk(g) {
        assert old(DiskOk(g));
      }
    }

    method PickMount(path: string) returns (best: Option<Mount>)
      requires Valid()
      ensures best == Pick(mounts, path) && (best.Some? ==> best.value.fs in disks)
    {
      best := None;
      for i := 0 to |mounts|
        invariant PickFrom(mounts[i..], path, best) == Pick(mounts, path)
        invariant best.Some? ==> best.value in mounts
      {
        assert mounts[i..][0] == mounts[i] && mounts[i..][1..] == mounts[i + 1..];
        if Matches(path, mounts[i].path) {
          assert mounts[i] in mounts;
          return Some(mounts[i]);
        }
        if mounts[i].path == "/" && best.None? {
          best := Some(mounts[i]);
        }
      }
    }

    method ResolvePath(path: string) returns (r: Resolution)
      requires Valid()
      ensures MountsOk(View()) && r == Resolve(View(), path)
      ensures r.Missing? || r.Found? ==> r.fs in disks
    {
      var best := PickMount(path);
      if best.None? {
        return NoFs;
      }
      var m := best.value;
      var rel := Rest(m, path);
      if rel == "" || rel == "/" {
        return Found(m.fs, Tmp.ROOT);
      }
      assert DiskOk(m.fs);
      var parts := Comps(rel);
      var current := Tmp.ROOT;
      assert parts[0..] == parts;
      for i := 0 to |parts|
        invariant Tmp.Walk(disks[m.fs].state, current, parts[i..]) == Tmp.Walk(disks[m.fs].state, Tmp.ROOT, parts)
      {
        assert parts[i..][0] == parts[i] && parts[i..][1..] == parts[i + 1..];
        var child := disks[m.fs].LookupChild(current, parts[i]);
        if child.None? {
          return Missing(m.fs);
        }
        current := child.value;
      }
      assert parts[|parts|..] == [];
      return Found(m.fs, current);
    }

    // ------------------------------------------------------------ descriptors

    method AddEntry(path: string, ino: int, flags: string, position: int) returns (fd: int)
      requires Valid()
      modifies `openFiles, `handles, `nextFd
      ensures Valid() && fd == old(nextFd) && forall h :: h in handles ==> h in old(handles) || fresh(h)
      ensures View() == old(View()).(open := old(View()).open[fd := OpenFile(path, ino, flags, position)],
                                     nextFd := fd + 1)
    {
      fd := nextFd;
      nextFd := nextFd + 1;
      var of := new OpenFileObject(fd, path, ino, flags, position);
      openFiles := openFiles[fd := of];
      handles := handles + {of};
      assert Opens() == old(Opens())[fd := of.View()];
      forall g | g in disks ensures DiskOk(g) {
        assert old(DiskOk(g));
      }
    }

    method MoveEntry(fd: int, n: int)
      requires Valid() && fd in openFiles
      modifies openFiles[fd]
      ensures Valid() && fd in old(View()).open
      ensures View() == MovedCursor(old(View()), fd, n)
    {
      var of := openFiles[fd];
      of.position := of.position + n;
      forall g | g in openFiles && g != fd ensures openFiles[g] != of {
        assert openFiles[g].fd == g;
      }
      assert Opens() == old(Opens())[fd := of.View()];
      forall g | g in disks ensures DiskOk(g) {
        assert old(DiskOk(g));
      }
    }

    /** Inside a directory, create or reuse the child the path is named after. */
    method OpenInside(f: int, ino: int, path: string, flags: string) returns (target: int)
      requires Valid() && f in disks && ino in disks[f].inodes
      modifies `nodes, disks[f], disks[f].nodes
      ensures Valid() && forall n :: n in nodes ==> n in old(nodes) || fresh(n)
      ensures f in old(View()).disks && ino in old(View()).disks[f].inodes
      ensures View() == SetDisk(old(View()), f, OpenTarget(old(View()).disks[f], ino, path, flags).0)
      ensures target == OpenTarget(old(View()).disks[f], ino, path, flags).1
    {
      ghost var v := View();
      assert DiskOk(f) && v.disks[f] == disks[f].state;
      var node := disks[f].Lookup(ino);
      if Writable(flags) && node.kind == Tmp.Dir {
        target := ChildNamed(f, ino, LastName(path));
      } else {
        assert v.disks[f := v.disks[f]] == v.disks;
        target := ino;
      }
    }

    /** The file of that name in a directory, created if missing. */
    method ChildNamed(f: int, dir: int, name: string) returns (target: int)
      requires Valid() && f in disks && dir in disks[f].inodes
      modifies `nodes, disks[f], disks[f].nodes
      ensures Valid() && forall n :: n in nodes ==> n in old(nodes) || fresh(n)
      ensures f in old(View()).disks
      ensures (View(), target) == NamedIn(old(View()), f, dir, name)
    {
      var c := CreateEntry(f, dir, name, Tmp.File);
      assert DiskOk(f) && View().disks[f] == disks[f].state;
      var child := disks[f].LookupChild(dir, name);
      target := if c.Created? then c.ino else if child.Some? then child.value else dir;
    }

    /** Where a descriptor starts: at the end for append. */
    method StartPosition(f: int, target: int, flags: string) returns (start: int)
      requires Valid() && f in disks
      ensures f in View().disks
      ensures start == if 'a' in flags && target in View().disks[f].inodes then View().disks[f].inodes[target].size else 0
    {
      assert DiskOk(f) && View().disks[f] == disks[f].state;
      var node := disks[f].Lookup(target);
      start := if 'a' in flags && node != null then node.size else 0;
    }

    method EnterAt(f: int, target: int, path: string, flags: string) returns (fd: int)
      requires Valid() && f in disks
      modifies `openFiles, `handles, `nextFd
      ensures Valid() && forall h :: h in handles ==> h in old(handles) || fresh(h)
      ensures f in old(View()).disks && (View(), fd) == EnteredAt(old(View()), f, target, path, flags)
    {
      var start := StartPosition(f, target, flags);
      fd := AddEntry(path, target, flags, start);
    }

    method OpenAt(f: int, ino: int, path: string, flags: string) returns (fd: int)
      requires Valid() && f in disks && ino in disks[f].inodes
      modifies `nodes, `openFiles, `handles, `nextFd, disks[f], disks[f].nodes
      ensures Valid() && forall n :: n in nodes ==> n in old(nodes) || fresh(n)
      ensures forall h :: h in handles ==> h in old(handles) || fresh(h)
      ensures f in old(View()).disks && ino in old(View()).disks[f].inodes
      ensures (View(), fd) == OpenedAt(old(View()), f, ino, path, flags)
    {
      var target := OpenInside(f, ino, path, flags);
      fd := EnterAt(f, target, path, flags);
    }

    /** Open what a path resolved to, if that inode exists. */
    method OpenResolved(f: int, ino: int, path: string, flags: string) returns (fd: int)
      requires Valid() && f in disks
      modifies `nodes, `openFiles, `handles, `nextFd, disks[f], disks[f].nodes
      ensures Valid() && forall n :: n in nodes ==> n in old(nodes) || fresh(n)
      ensures forall h :: h in handles ==> h in old(handles) || fresh(h)
      ensures f in old(View()).disks
      ensures (View(), fd) == if ino in old(View()).disks[f].inodes then OpenedAt(old(View()), f, ino, path, flags)
                              else (old(View()), Tmp.ENOENT)
    {
      assert DiskOk(f) && View().disks[f] == disks[f].state;
      var node := disks[f].Lookup(ino);
      if node == null {
        return Tmp.ENOENT;
      }
      fd := OpenAt(f, ino, path, flags);
    }

    method Open(path: string, flags: string) returns (fd: int)
      requires Valid()
      modifies `nodes, `openFiles, `handles, `nextFd, disks.Values, nodes
      ensures Valid() && forall n :: n in nodes ==> n in old(nodes) || fresh(n)
      ensures forall h :: h in handles ==> h in old(handles) || fresh(h)
      ensures MountsOk(old(View())) && (View(), fd) == VfsModel.Open(old(View()), path, flags)
    {
      var r := ResolvePath(path);
      OpenForm(View(), path, flags);
      if !r.Found? {
        return Tmp.ENOENT;
      }
      assert DiskOk(r.fs);
      fd := OpenResolved(r.fs, r.ino, path, flags);
    }

    method Read(fd: int, size: int) returns (data: seq<Byte>)
      requires Valid()
      modifies handles
      ensures Valid()
      ensures MountsOk(old(View())) && (View(), data) == ReadFd(old(View()), fd, size)
    {
      if fd !in openFiles {
        return [];
      }
      var of := openFiles[fd];
      var best := PickMount(of.path);
      if best.None? {
        return [];
      }
      var f := best.value.fs;
      assert DiskOk(f) && View().disks[f] == disks[f].state;
      data := disks[f].Read(of.ino, of.position, size);
      ReadFdForm(View(), fd, size, best.value, data);
      MoveEntry(fd, |data|);
    }

    method Write(fd: int, data: seq<Byte>) returns (n: int)
      requires Valid()
      modifies handles, disks.Values, nodes
      ensures Valid()
      ensures MountsOk(old(View())) && (View(), n) == WriteFd(old(View()), fd, data)
    {
      if fd !in openFiles {
        return EBADF;
      }
      var of := openFiles[fd];
      var best := PickMount(of.path);
      if best.None? {
        return Tmp.ENOENT;
      }
      WriteFdForm(View(), fd, data);
      assert DiskOk(best.value.fs);
      n := WriteEntry(best.value.fs, of.ino, of.position, data);
      if n > 0 {
        MoveEntry(fd, n);
      }
    }

    method Close(fd: int) returns (ok: bool)
      requires Valid()
      modifies `openFiles
      ensures Valid()
      ensures (View(), ok) == CloseFd(old(View()), fd)
    {
      ok := fd in openFiles;
      openFiles := openFiles - {fd};
      assert Opens() == old(Opens()) - {fd};
    }

    // ------------------------------------------------------------ path operations

    method Mkdir(path: string) returns (ok: bool)
      requires Valid()
      modifies `nodes, disks.Values, nodes
      ensures Valid() && forall n :: n in nodes ==> n in old(nodes) || fresh(n)
      ensures MountsOk(old(View())) && (View(), ok) == VfsModel.Mkdir(old(View()), path)
    {
      var r := ResolvePath(ParentPath(path));
      MkdirForm(View(), path);
      if !r.Found? {
        return false;
      }
      assert DiskOk(r.fs);
      var c := CreateEntry(r.fs, r.ino, LastName(path), Tmp.Dir);
      return c.Created?;
    }

    method CreateFile(path: string, content: seq<Byte>) returns (ok: bool)
      requires Valid()
      modifies `nodes, disks.Values, nodes
      ensures Valid() && forall n :: n in nodes ==> n in old(nodes) || fresh(n)
      ensures MountsOk(old(View())) && (View(), ok) == VfsModel.CreateFile(old(View()), path, content)
    {
      var r := ResolvePath(ParentPath(path));
      CreateFileForm(View(), path, content);
      if !r.Found? {
        return false;
      }
      assert DiskOk(r.fs);
      var c := CreateEntry(r.fs, r.ino, LastName(path), Tmp.File);
      if !c.Created? {
        return false;
      }
      assert DiskOk(r.fs);
      FillEntry(r.fs, c.ino, content);
      return true;
    }

    method ReadPath(path: string, size: int) returns (data: Option<seq<Byte>>)
      requires Valid()
      ensures MountsOk(View()) && data == VfsModel.ReadPath(View(), path, size)
    {
      var r := ResolvePath(path);
      if !r.Found? {
        return None;
      }
      assert DiskOk(r.fs) && View().disks[r.fs] == disks[r.fs].state;
      var node := disks[r.fs].Lookup(r.ino);
      if node == null || node.kind != Tmp.File {
        return None;
      }
      var bytes := disks[r.fs].Read(r.ino, 0, size);
      return Some(bytes);
    }

    method WritePath(path: string, data: seq<Byte>) returns (n: int)
      requires Valid()
      modifies `nodes, disks.Values, nodes
      ensures Valid() && forall n :: n in nodes ==> n in old(nodes) || fresh(n)
      ensures MountsOk(old(View())) && (View(), n) == VfsModel.WritePath(old(View()), path, data)
    {
      var r := ResolvePath(path);
      WritePathForm(View(), path, data);
      if r.Found? {
        assert DiskOk(r.fs);
        n := WriteEntry(r.fs, r.ino, 0, data);
        return;
      }
      var created := CreateFile(path, data);
      return if created then |data| else Tmp.ENOENT;
    }
  }
}
