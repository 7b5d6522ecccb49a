/** What the path operations and failing descriptor calls answer, and that they change nothing else. */
module VfsSteps {
  import opened ByteStrings
  import opened Paths
  import opened MountModel
  import opened VfsModel
  import opened VfsFiles
  import Tmp = TmpFsModel

  /** Mounts and descriptors are the same, and no filesystem but f changes. */
  ghost predicate OnlyDisk(v: Vfs, v': Vfs, f: int) {
    && v' == v.(disks := v'.disks) && v'.disks.Keys == v.disks.Keys
    && forall g :: g in v.disks && g != f ==> v'.disks[g] == v.disks[g]
  }

  /** From fs to fs' one inode was made, and the one change to the others is its entry in the parent. */
  ghost predicate Made(fs: Tmp.Fs, fs': Tmp.Fs, parent: int, name: string, node: Tmp.Inode) {
    && fs.next !in fs.inodes && fs'.inodes.Keys == fs.inodes.Keys + {fs.next} && fs'.next == fs.next + 1
    && fs'.inodes[fs.next] == node
    && forall i :: i in fs.inodes ==> Tmp.Inserted(fs.inodes[i], fs'.inodes[i], i == parent, name, fs.next)
  }

  // ---------------------------------------------------------------- creating

  /** A successful mkdir makes one empty directory under the parent, and a failed one nothing. */
  lemma MkdirExactly(v: Vfs, path: string)
    requires Inv(v)
    ensures var (v', ok) := Mkdir(v, path);
            && (!ok ==> v' == v)
            && (ok ==>
                  && Resolve(v, ParentPath(path)).Found?
                  && var (f, parent) := (Resolve(v, ParentPath(path)).fs, Resolve(v, ParentPath(path)).ino);
                     && OnlyDisk(v, v', f)
                     && Made(v.disks[f], v'.disks[f], parent, LastName(path), Tmp.Inode(Tmp.Dir, 0, [], map[])))
  {
    var r := Resolve(v, ParentPath(path));
    if r.Found? {
      if Mkdir(v, path).1 {
        DirMade(v.disks[r.fs], r.ino, LastName(path));
      } else {
        assert v.disks[r.fs := v.disks[r.fs]] == v.disks;
      }
    }
  }

  lemma DirMade(fs: Tmp.Fs, parent: int, name: string)
    requires Tmp.IsTree(fs) && Tmp.Create(fs, parent, name, Tmp.Dir).1.Created?
    ensures Made(fs, Tmp.Create(fs, parent, name, Tmp.Dir).0, parent, name, Tmp.Inode(Tmp.Dir, 0, [], map[]))
  {
    var up :| Tmp.Tree(fs, up);
    Tmp.InsertExactly(fs, parent, name, Tmp.Dir);
  }

  /** A successful create_file makes one file with exactly the content under the parent, and a failed one nothing. */
  lemma CreateFileExactly(v: Vfs, path: string, content: seq<Byte>)
    requires Inv(v)
    ensures var (v', ok) := CreateFile(v, path, content);
            && (!ok ==> v' == v)
            && (ok ==>
                  && Resolve(v, ParentPath(path)).Found?
                  && var (f, parent) := (Resolve(v, ParentPath(path)).fs, Resolve(v, ParentPath(path)).ino);
                     && OnlyDisk(v, v', f)
                     && Made(v.disks[f], v'.disks[f], parent, LastName(path),
                             Tmp.Inode(Tmp.File, |content|, content, map[])))
  {
    var r := Resolve(v, ParentPath(path));
    if r.Found? {
      if CreateFile(v, path, content).1 {
        FileMade(v.disks[r.fs], r.ino, LastName(path), content);
      } else {
        assert v.disks[r.fs := v.disks[r.fs]] == v.disks;
      }
    }
  }

  lemma FileMade(fs: Tmp.Fs, parent: int, name: string, content: seq<Byte>)
    requires Tmp.IsTree(fs) && Tmp.Create(fs, parent, name, Tmp.File).1.Created?
    ensures var (fs1, c) := Tmp.Create(fs, parent, name, Tmp.File);
            Made(fs, FillNew(fs1, c.ino, content), parent, name, Tmp.Inode(Tmp.File, |content|, content, map[]))
  {
    var up :| Tmp.Tree(fs, up);
    var (fs1, c) := Tmp.Create(fs, parent, name, Tmp.File);
    Tmp.InsertExactly(fs, parent, name, Tmp.File);
    FillNewIsWrite(fs1, c.ino, content);
    FillOnly(fs1, c.ino, content);
  }

  lemma FillOnly(fs: Tmp.Fs, ino: int, content: seq<Byte>)
    requires ino in fs.inodes && fs.inodes[ino] == Tmp.NewInode(Tmp.File)
    ensures var fs' := FillNew(fs, ino, content);
            fs'.next == fs.next && fs'.inodes.Keys == fs.inodes.Keys &&
            forall i :: i in fs.inodes && i != ino ==> fs'.inodes[i] == fs.inodes[i]
  {
  }

  // ---------------------------------------------------------------- write_path

  /**
   write_path over a regular file puts the data over its start, keeps the rest of its bytes, and answers
   how many it wrote; over anything else that resolves it refuses with -22. When the path does not
   resolve it creates the file, or refuses with -2. A refusal changes nothing.
   */
  lemma WritePathExactly(v: Vfs, path: string, data: seq<Byte>)
    requires Inv(v)
    ensures var (v', n) := WritePath(v, path, data);
            var r := Resolve(v, path);
            && (n < 0 ==> v' == v && (n == -22 || n == -2))
            && (n >= 0 ==> n == |data|)
            && (n == -2 <==> !r.Found? && !CreateFile(v, path, data).1)
            && (r.Found? ==> r.ino in v.disks[r.fs].inodes)
            && (n == -22 <==> r.Found? && v.disks[r.fs].inodes[r.ino].kind != Tmp.File)
            && (!r.Found? ==> v' == CreateFile(v, path, data).0)
            && (r.Found? && n >= 0 ==>
                  && OnlyDisk(v, v', r.fs)
                  && v'.disks[r.fs].next == v.disks[r.fs].next
                  && v'.disks[r.fs].inodes.Keys == v.disks[r.fs].inodes.Keys
                  && (forall i :: i in v.disks[r.fs].inodes && i != r.ino ==>
                        v'.disks[r.fs].inodes[i] == v.disks[r.fs].inodes[i])
                  && var was := v.disks[r.fs].inodes[r.ino].data;
                     v'.disks[r.fs].inodes[r.ino].data == data + if |data| < |was| then was[|data|..] else [])
  {
    var r := Resolve(v, path);
    if r.Found? {
      ResolveInside(v, path);
      WrittenOver(v.disks[r.fs], r.ino, data);
      assert v.disks[r.fs := v.disks[r.fs]] == v.disks;
    } else {
      CreateFileExactly(v, path, data);
    }
  }

  lemma WrittenOver(fs: Tmp.Fs, ino: int, data: seq<Byte>)
    requires ino in fs.inodes
    ensures var (fs', n) := Tmp.Write(fs, ino, 0, data);
            if fs.inodes[ino].kind != Tmp.File then (fs', n) == (fs, -22)
            else
              && n == |data| && fs'.next == fs.next && fs'.inodes.Keys == fs.inodes.Keys
              && (forall i :: i in fs.inodes && i != ino ==> fs'.inodes[i] == fs.inodes[i])
              && var was := fs.inodes[ino].data;
                 fs'.inodes[ino].data == data + if |data| < |was| then was[|data|..] else []
  {
    OverwriteIsSplice(fs.inodes[ino].data, 0, data);
    assert fs.inodes[ino].data[..0] + data == data;
  }

  // ---------------------------------------------------------------- descriptors that are not open

  /** A descriptor that is not open reads nothing, refuses writes with -9 and closing, and nothing changes. */
  lemma NotOpen(v: Vfs, fd: int, size: int, data: seq<Byte>)
    requires MountsOk(v) && fd !in v.open
    ensures ReadFd(v, fd, size) == (v, [])
    ensures WriteFd(v, fd, data) == (v, -9)
    ensures CloseFd(v, fd) == (v, false)
  {
    assert v.open - {fd} == v.open;
  }

  // ---------------------------------------------------------------- mounting

  /** A mount adds itself to the table, keeps it sorted by length, and changes nothing else. */
  lemma MountExactly(v: Vfs, path: string, f: int)
    requires Sorted(v.mounts)
    ensures var v' := MountAt(v, path, f);
            && v' == v.(mounts := v'.mounts) && Sorted(v'.mounts)
            && multiset(v'.mounts) == multiset(v.mounts) + multiset{Mount(path, f)}
  {
    AddMountInserts(v.mounts, Mount(path, f));
    InsertMultiset(v.mounts, Mount(path, f));
  }
}
