/** What a descriptor reads and writes is what the path operations read under a path to the same file. */
module VfsDescriptors {
  import opened Prelude
  import opened ByteStrings
  import opened VfsModel
  import opened VfsFiles
  import opened VfsReads
  import opened VfsResolve
  import Tmp = TmpFsModel

  /** The path leads to the file the descriptor stands on. */
  ghost predicate LeadsTo(v: Vfs, path: string, fd: int)
    requires Inv(v) && fd in v.open
  {
    InvPlaced(v);
    var (f, ino) := CursorOf(v.mounts, v.open[fd]).file;
    Resolve(v, path) == Found(f, ino)
  }

  /** read_path gives the first bytes of the flat file a path leads to, and nothing for a directory. */
  lemma ReadPathRefines(v: Vfs, path: string, size: nat)
    requires Inv(v) && Resolve(v, path).Found?
    ensures Placed(v.mounts, v.open)
    ensures var file := (Resolve(v, path).fs, Resolve(v, path).ino);
            ReadPath(v, path, size) ==
              if file in FlatView(v).files
              then Some(FlatView(v).files[file][..Min(size, |FlatView(v).files[file]|)]) else None
  {
    InvPlaced(v);
    ResolveInside(v, path);
    FileAt(v.disks, Resolve(v, path).fs, Resolve(v, path).ino, size);
  }

  lemma FileAt(disks: map<int, Tmp.Fs>, f: int, ino: int, size: nat)
    requires f in disks && ino in disks[f].inodes
    ensures (f, ino) in FilesOf(disks) <==> disks[f].inodes[ino].kind == Tmp.File
    ensures (f, ino) in FilesOf(disks) ==>
              Tmp.Read(disks[f], ino, 0, size) == FilesOf(disks)[(f, ino)][..Min(size, |FilesOf(disks)[(f, ino)]|)]
  {
    SliceFromCursor(disks[f].inodes[ino].data, 0, size);
  }

  // ---------------------------------------------------------------- opening, then reading

  lemma InPlaceState(v: Vfs, path: string, flags: string)
    requires Inv(v) && Resolve(v, path).Found? && !OpensChild(v, path, flags)
    ensures var (v', fd) := Open(v, path, flags);
            && Inv(v') && v'.disks == v.disks && v'.mounts == v.mounts
            && StandsOn(v', fd, Resolve(v, path).fs, Resolve(v, path).ino)
            && v'.open[fd].position ==
                 if 'a' in flags then |v.disks[Resolve(v, path).fs].inodes[Resolve(v, path).ino].data| else 0
  {
    OpenInv(v, path, flags);
    ResolveInside(v, path);
    var r := Resolve(v, path);
    OpenTargetIs(v.disks[r.fs], r.ino, path, flags);
    var target := OpenForm(v, path, flags);
    assert v.disks[r.fs := v.disks[r.fs]] == v.disks;
  }

  /** Opening in place changes no file and puts the cursor on what the path leads to. */
  lemma OpenInPlace(v: Vfs, path: string, flags: string)
    requires Inv(v) && Resolve(v, path).Found? && !OpensChild(v, path, flags)
    ensures var (v', fd) := Open(v, path, flags);
            && Inv(v') && fd in v'.open && LeadsTo(v', path, fd)
            && Placed(v.mounts, v.open) && Placed(v'.mounts, v'.open)
            && FlatView(v').files == FlatView(v).files
            && (forall other, n :: Resolve(v, other).Found? ==> ReadPath(v', other, n) == ReadPath(v, other, n))
  {
    InPlaceState(v, path, flags);
    InvPlaced(v);
    InvPlaced(Open(v, path, flags).0);
  }

  /**
   Open, then read any number of times: unless the path is a directory opened writable, the reads
   together give what one read_path of the total size gives, even when opened for writing.
   */
  lemma OpenThenRead(v: Vfs, path: string, flags: string, sizes: seq<nat>)
    requires Inv(v) && Resolve(v, path).Found? && !OpensChild(v, path, flags) && 'a' !in flags
    ensures var (v', fd) := Open(v, path, flags);
            && MountsOk(v')
            && ReadAll(v', fd, sizes).1 ==
                 match ReadPath(v, path, Total(sizes)) case Some(data) => data case None => []
  {
    InPlaceState(v, path, flags);
    ReadPathSlice(v, path, Total(sizes));
    var (v', fd) := Open(v, path, flags);
    ReadAllContiguous(v', fd, sizes, Resolve(v, path).fs, Resolve(v, path).ino);
  }

  lemma ReadPathSlice(v: Vfs, path: string, size: nat)
    requires Inv(v) && Resolve(v, path).Found?
    ensures var r := Resolve(v, path);
            && r.ino in v.disks[r.fs].inodes
            && var d := v.disks[r.fs].inodes[r.ino].data;
               match ReadPath(v, path, size) case Some(data) => data == d[0..Min(size, |d|)] case None => d == []
  {
    ResolveInside(v, path);
    var r := Resolve(v, path);
    SliceFromCursor(v.disks[r.fs].inodes[r.ino].data, 0, size);
    var up :| Tmp.Tree(v.disks[r.fs], up);
    assert Tmp.Shape(v.disks[r.fs].inodes[r.ino]);
  }

  // ---------------------------------------------------------------- writing, then read_path

  /** What a descriptor writes is what read_path returns for every path that leads to its file. */
  lemma WriteThenReadPath(v: Vfs, fd: int, data: seq<Byte>, path: string, size: nat)
    requires Inv(v) && fd in v.open && LeadsTo(v, path, fd) && WriteFd(v, fd, data).1 >= 0
    ensures MountsOk(WriteFd(v, fd, data).0) && Placed(v.mounts, v.open) && FlatOk(FlatView(v))
    ensures var file := FlatView(v).cursors[fd].file;
            var now := Contents(FlatWrite(FlatView(v), fd, data).0, file);
            ReadPath(WriteFd(v, fd, data).0, path, size) == Some(now[..Min(size, |now|)])
  {
    WriteInv(v, fd, data);
    WriteRefines(v, fd, data);
    WriteResolves(v, fd, data, path);
    ReadPathRefines(WriteFd(v, fd, data).0, path, size);
  }

  lemma WriteResolves(v: Vfs, fd: int, data: seq<Byte>, path: string)
    requires Inv(v) && Resolve(v, path).Found?
    ensures MountsOk(WriteFd(v, fd, data).0) && Resolve(WriteFd(v, fd, data).0, path) == Resolve(v, path)
  {
    var op := OpWrite(fd, data);
    assert Step(v, op) == WriteFd(v, fd, data).0;
    StepResolves(v, op, path);
  }

  /** What one write leaves of a file just opened: overlaid from the start, or appended to. */
  function WrittenOnce(was: seq<Byte>, flags: string, data: seq<Byte>): seq<Byte> {
    if 'a' in flags then was + data else data + if |data| < |was| then was[|data|..] else []
  }

  lemma FlatWriteOnce(s: Flat, fd: int, flags: string, data: seq<Byte>)
    requires FlatOk(s) && fd in s.cursors && s.cursors[fd].file in s.files
    requires s.cursors[fd].position == if 'a' in flags then |s.files[s.cursors[fd].file]| else 0
    ensures FlatWrite(s, fd, data).1 == |data|
    ensures Contents(FlatWrite(s, fd, data).0, s.cursors[fd].file) == WrittenOnce(s.files[s.cursors[fd].file], flags, data)
  {
    var was := s.files[s.cursors[fd].file];
    assert was[..|was|] == was && was[..0] == [];
  }

  /** Opening a regular file puts the cursor on its bytes, at the start or for "a" at the end. */
  lemma OpenFile(v: Vfs, path: string, flags: string)
    requires Inv(v) && ReadPath(v, path, 0).Some?
    ensures var (v', fd) := Open(v, path, flags);
            && Resolve(v, path).Found? && Inv(v') && fd in v'.open && LeadsTo(v', path, fd)
            && Placed(v.mounts, v.open) && Placed(v'.mounts, v'.open) && FlatOk(FlatView(v'))
            && var file := FlatView(v').cursors[fd].file;
               && file == (Resolve(v, path).fs, Resolve(v, path).ino)
               && file in FlatView(v).files && FlatView(v').files == FlatView(v).files
               && FlatView(v').cursors[fd].position == if 'a' in flags then |FlatView(v).files[file]| else 0
  {
    ResolveInside(v, path);
    OpenInPlace(v, path, flags);
    OpenRefines(v, path, flags);
    FlatViewOk(Open(v, path, flags).0);
  }

  /**
   Open a regular file and write once: as read_path then shows, its bytes are overlaid from the
   start and never truncated, or with "a" appended to.
   */
  lemma OpenThenWrite(v: Vfs, path: string, flags: string, data: seq<Byte>, size: nat)
    requires Inv(v) && ReadPath(v, path, 0).Some?
    ensures var (v1, fd) := Open(v, path, flags);
            && Resolve(v, path).Found? && Placed(v.mounts, v.open) && MountsOk(v1)
            && WriteFd(v1, fd, data).1 == |data| && MountsOk(WriteFd(v1, fd, data).0)
            && var file := (Resolve(v, path).fs, Resolve(v, path).ino);
               && file in FlatView(v).files
               && var now := WrittenOnce(FlatView(v).files[file], flags, data);
                  ReadPath(WriteFd(v1, fd, data).0, path, size) == Some(now[..Min(size, |now|)])
  {
    OpenFile(v, path, flags);
    var (v1, fd) := Open(v, path, flags);
    FlatWriteOnce(FlatView(v1), fd, flags, data);
    WriteRefines(v1, fd, data);
    WriteThenReadPath(v1, fd, data, path, size);
  }
}
