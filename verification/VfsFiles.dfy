/** Descriptors refine flat byte files with cursors. */
module VfsFiles {
  import opened Prelude
  import opened ByteStrings
  import opened MountModel
  import Paths
  import opened VfsModel
  import Tmp = TmpFsModel

  // ---------------------------------------------------------------- the flat specification

  /** A file is named by its filesystem and inode number. */
  type FileId = (int, int)

  datatype Cursor = Cursor(file: FileId, position: int)

  /** Just byte strings, and for every descriptor a position in one of them. */
  datatype Flat = Flat(files: map<FileId, seq<Byte>>, cursors: map<int, Cursor>)

  function Contents(s: Flat, file: FileId): seq<Byte> {
    if file in s.files then s.files[file] else []
  }

  function Min(a: int, b: int): int {
    if a < b then a else b
  }

  ghost predicate FlatOk(s: Flat) {
    forall fd :: fd in s.cursors ==> 0 <= s.cursors[fd].position <= |Contents(s, s.cursors[fd].file)|
  }

  /** The next bytes from the cursor, at most size of them, and the cursor behind them. */
  function FlatRead(s: Flat, fd: int, size: nat): (Flat, seq<Byte>)
    requires FlatOk(s) && fd in s.cursors
  {
    var c := s.cursors[fd];
    var stop := Min(c.position + size, |Contents(s, c.file)|);
    (s.(cursors := s.cursors[fd := c.(position := stop)]), Contents(s, c.file)[c.position..stop])
  }

  /** data in place of the bytes from p on. */
  function Splice(was: seq<Byte>, p: int, data: seq<Byte>): seq<Byte>
    requires 0 <= p <= |was|
  {
    was[..p] + data + if p + |data| < |was| then was[p + |data|..] else []
  }

  /** Replace the bytes under the cursor, lengthening the file if needed. */
  function FlatWrite(s: Flat, fd: int, data: seq<Byte>): (Flat, int)
    requires FlatOk(s) && fd in s.cursors
  {
    var c := s.cursors[fd];
    if c.file !in s.files then (s, Tmp.EINVAL)
    else
      (Flat(s.files[c.file := Splice(s.files[c.file], c.position, data)],
            s.cursors[fd := Cursor(c.file, c.position + |data|)]), |data|)
  }

  // ---------------------------------------------------------------- the abstraction

  /** The regular files of all filesystems. */
  ghost function FileIds(disks: map<int, Tmp.Fs>): (r: set<FileId>)
    ensures forall f, i :: (f, i) in r <==> f in disks && i in disks[f].inodes && disks[f].inodes[i].kind == Tmp.File
    ensures forall x :: x in r ==> x.0 in disks && x.1 in disks[x.0].inodes && disks[x.0].inodes[x.1].kind == Tmp.File
  {
    set f, i | f in disks && i in disks[f].inodes && disks[f].inodes[i].kind == Tmp.File :: (f, i)
  }

  ghost function FilesOf(disks: map<int, Tmp.Fs>): map<FileId, seq<Byte>> {
    map x | x in FileIds(disks) :: disks[x.0].inodes[x.1].data
  }

  ghost function CursorOf(mounts: seq<Mount>, of: OpenFile): Cursor
    requires Pick(mounts, of.path).Some?
  {
    Cursor((Pick(mounts, of.path).value.fs, of.ino), of.position)
  }

  ghost predicate Placed(mounts: seq<Mount>, open: map<int, OpenFile>) {
    forall fd :: fd in open ==> Pick(mounts, open[fd].path).Some?
  }

  ghost function CursorsOf(mounts: seq<Mount>, open: map<int, OpenFile>): map<int, Cursor>
    requires Placed(mounts, open)
  {
    map fd | fd in open :: CursorOf(mounts, open[fd])
  }

  lemma InvPlaced(v: Vfs)
    requires Inv(v)
    ensures Placed(v.mounts, v.open)
  {
    forall fd | fd in v.open ensures Pick(v.mounts, v.open[fd].path).Some? {
      assert DescriptorOk(v, fd);
    }
  }

  ghost function FlatView(v: Vfs): Flat
    requires Placed(v.mounts, v.open)
  {
    Flat(FilesOf(v.disks), CursorsOf(v.mounts, v.open))
  }

  lemma CursorsMove(mounts: seq<Mount>, open: map<int, OpenFile>, fd: int, of: OpenFile)
    requires Placed(mounts, open) && Pick(mounts, of.path).Some?
    ensures Placed(mounts, open[fd := of])
    ensures CursorsOf(mounts, open[fd := of]) == CursorsOf(mounts, open)[fd := CursorOf(mounts, of)]
  {
  }

  /** Replacing a file's inode by another file replaces one entry of the flat files. */
  lemma FilesUpdate(disks: map<int, Tmp.Fs>, f: int, ino: int, node: Tmp.Inode)
    requires f in disks && ino in disks[f].inodes && disks[f].inodes[ino].kind == Tmp.File == node.kind
    ensures FilesOf(disks[f := disks[f].(inodes := disks[f].inodes[ino := node])]) ==
            FilesOf(disks)[(f, ino) := node.data]
  {
  }

  /** Creating an empty file adds one empty entry. */
  lemma FilesInsert(disks: map<int, Tmp.Fs>, f: int, parent: int, name: string)
    requires f in disks && Tmp.IsDir(disks[f], parent) && disks[f].next !in disks[f].inodes
    ensures FilesOf(disks[f := Tmp.Insert(disks[f], parent, name, Tmp.File)]) ==
            FilesOf(disks)[(f, disks[f].next) := []]
    ensures (f, disks[f].next) !in FilesOf(disks)
  {
    var fs := disks[f];
    Tmp.InsertExactly(fs, parent, name, Tmp.File);
    FilesGrow(disks, f, Tmp.Insert(fs, parent, name, Tmp.File), fs.next);
  }

  lemma FilesGrow(disks: map<int, Tmp.Fs>, f: int, fs': Tmp.Fs, ino: int)
    requires f in disks && ino !in disks[f].inodes && fs'.inodes.Keys == disks[f].inodes.Keys + {ino}
    requires fs'.inodes[ino] == Tmp.NewInode(Tmp.File)
    requires forall i :: i in disks[f].inodes ==>
               fs'.inodes[i].kind == disks[f].inodes[i].kind && fs'.inodes[i].data == disks[f].inodes[i].data
    ensures FilesOf(disks[f := fs']) == FilesOf(disks)[(f, ino) := []]
  {
    var a, b := FilesOf(disks[f := fs']), FilesOf(disks)[(f, ino) := []];
    forall file: FileId
      ensures file in a <==> file in b
      ensures file in a ==> a[file] == b[file]
    {
      var (g, i) := file;
    }
  }

  /** What a descriptor stands on: its file's bytes, which are empty when it is not a regular file. */
  ghost function BytesUnder(v: Vfs, fd: int): seq<Byte>
    requires Placed(v.mounts, v.open) && fd in v.open
  {
    Contents(FlatView(v), CursorOf(v.mounts, v.open[fd]).file)
  }

  /** The descriptor leads to an existing inode whose bytes are those of the flat file, cursor inside. */
  ghost predicate Stands(v: Vfs, fd: int)
    requires Placed(v.mounts, v.open) && fd in v.open
  {
    var (f, ino) := CursorOf(v.mounts, v.open[fd]).file;
    && f in v.disks && ino in v.disks[f].inodes
    && BytesUnder(v, fd) == v.disks[f].inodes[ino].data
    && ((f, ino) in FilesOf(v.disks) <==> v.disks[f].inodes[ino].kind == Tmp.File)
    && 0 <= v.open[fd].position <= |BytesUnder(v, fd)|
  }

  lemma Under(v: Vfs, fd: int)
    requires Inv(v) && fd in v.open
    ensures Placed(v.mounts, v.open) && Stands(v, fd)
  {
    InvPlaced(v);
    assert DescriptorOk(v, fd);
    var (f, ino) := CursorOf(v.mounts, v.open[fd]).file;
    var up :| Tmp.Tree(v.disks[f], up);
    assert Tmp.Shape(v.disks[f].inodes[ino]);
  }

  /** In every reachable state each cursor is within its file: the flat state is well formed. */
  lemma FlatViewOk(v: Vfs)
    requires Inv(v)
    ensures Placed(v.mounts, v.open) && FlatOk(FlatView(v))
  {
    InvPlaced(v);
    forall fd | fd in v.open
      ensures 0 <= FlatView(v).cursors[fd].position <= |Contents(FlatView(v), FlatView(v).cursors[fd].file)|
    {
      Under(v, fd);
    }
  }

  // ---------------------------------------------------------------- reading

  ghost function Moved(of: OpenFile, n: int): OpenFile {
    of.(position := of.position + n)
  }

  ghost function MovedBy(v: Vfs, fd: int, n: int): Vfs
    requires fd in v.open
  {
    v.(open := v.open[fd := Moved(v.open[fd], n)])
  }

  /** A read returns what lies between the cursor and its new position, and moves nothing but the cursor. */
  lemma ReadForm(v: Vfs, fd: int, size: int)
    requires MountsOk(v) && Placed(v.mounts, v.open) && fd in v.open && Stands(v, fd)
    ensures var data := Slice(BytesUnder(v, fd), v.open[fd].position, v.open[fd].position + size);
            ReadFd(v, fd, size) == (MovedBy(v, fd, |data|), data)
  {
  }

  lemma MovedFlat(v: Vfs, fd: int, n: int)
    requires Placed(v.mounts, v.open) && fd in v.open
    ensures Placed(MovedBy(v, fd, n).mounts, MovedBy(v, fd, n).open)
    ensures var c := FlatView(v).cursors[fd];
            FlatView(MovedBy(v, fd, n)) ==
              FlatView(v).(cursors := FlatView(v).cursors[fd := c.(position := c.position + n)])
  {
    CursorsMove(v.mounts, v.open, fd, Moved(v.open[fd], n));
  }

  lemma ReadFlat(v: Vfs, fd: int, size: nat)
    requires MountsOk(v) && Placed(v.mounts, v.open) && fd in v.open && Stands(v, fd) && FlatOk(FlatView(v))
    ensures Placed(ReadFd(v, fd, size).0.mounts, ReadFd(v, fd, size).0.open)
    ensures (FlatView(ReadFd(v, fd, size).0), ReadFd(v, fd, size).1) == FlatRead(FlatView(v), fd, size)
  {
    ReadForm(v, fd, size);
    var data := ReadFd(v, fd, size).1;
    SliceFromCursor(BytesUnder(v, fd), v.open[fd].position, size);
    MovedFlat(v, fd, |data|);
  }

  /** Reading a descriptor is reading the flat file. */
  lemma ReadRefines(v: Vfs, fd: int, size: nat)
    requires Inv(v) && fd in v.open
    ensures Placed(v.mounts, v.open) && FlatOk(FlatView(v))
    ensures Placed(ReadFd(v, fd, size).0.mounts, ReadFd(v, fd, size).0.open)
    ensures (FlatView(ReadFd(v, fd, size).0), ReadFd(v, fd, size).1) == FlatRead(FlatView(v), fd, size)
  {
    FlatViewOk(v);
    Under(v, fd);
    ReadFlat(v, fd, size);
  }

  // ---------------------------------------------------------------- writing

  lemma OverwriteIsSplice(was: seq<Byte>, position: int, data: seq<Byte>)
    requires 0 <= position <= |was|
    ensures Tmp.Overwrite(was, position, data) == Splice(was, position, data)
  {
    Tmp.OverwriteOverlays(was, position, data);
  }

  /** One file's bytes replaced. */
  ghost function WithData(disks: map<int, Tmp.Fs>, f: int, ino: int, d: seq<Byte>): map<int, Tmp.Fs>
    requires f in disks && ino in disks[f].inodes
  {
    disks[f := disks[f].(inodes := disks[f].inodes[ino := disks[f].inodes[ino].(data := d, size := |d|)])]
  }

  lemma WriteFileForm(v: Vfs, fd: int, data: seq<Byte>)
    requires MountsOk(v) && Placed(v.mounts, v.open) && fd in v.open && Stands(v, fd)
    requires CursorOf(v.mounts, v.open[fd]).file in FilesOf(v.disks)
    ensures var (f, ino) := CursorOf(v.mounts, v.open[fd]).file;
            && f in v.disks && ino in v.disks[f].inodes && v.disks[f].inodes[ino].kind == Tmp.File
            && var (v', n) := WriteFd(v, fd, data);
               && n == |data| && v'.mounts == v.mounts && v'.open == v.open[fd := Moved(v.open[fd], |data|)]
               && v'.disks == WithData(v.disks, f, ino, Tmp.Overwrite(BytesUnder(v, fd), v.open[fd].position, data))
  {
  }

  lemma WriteNoFile(v: Vfs, fd: int, data: seq<Byte>)
    requires MountsOk(v) && Placed(v.mounts, v.open) && fd in v.open && Stands(v, fd)
    requires CursorOf(v.mounts, v.open[fd]).file !in FilesOf(v.disks)
    ensures WriteFd(v, fd, data) == (v, Tmp.EINVAL)
  {
    var f := CursorOf(v.mounts, v.open[fd]).file.0;
    assert v.disks[f := v.disks[f]] == v.disks;
  }

  /** Writing a descriptor is writing the flat file: no zero is ever filled in, no other file changes. */
  lemma WriteRefines(v: Vfs, fd: int, data: seq<Byte>)
    requires Inv(v) && fd in v.open
    ensures Placed(v.mounts, v.open) && FlatOk(FlatView(v))
    ensures Placed(WriteFd(v, fd, data).0.mounts, WriteFd(v, fd, data).0.open)
    ensures (FlatView(WriteFd(v, fd, data).0), WriteFd(v, fd, data).1) == FlatWrite(FlatView(v), fd, data)
  {
    FlatViewOk(v);
    Under(v, fd);
    if CursorOf(v.mounts, v.open[fd]).file in FilesOf(v.disks) {
      WriteFlat(v, fd, data);
    } else {
      WriteNoFile(v, fd, data);
    }
  }

  lemma WriteFlat(v: Vfs, fd: int, data: seq<Byte>)
    requires MountsOk(v) && Placed(v.mounts, v.open) && fd in v.open && Stands(v, fd) && FlatOk(FlatView(v))
    requires CursorOf(v.mounts, v.open[fd]).file in FilesOf(v.disks)
    ensures Placed(WriteFd(v, fd, data).0.mounts, WriteFd(v, fd, data).0.open)
    ensures (FlatView(WriteFd(v, fd, data).0), WriteFd(v, fd, data).1) == FlatWrite(FlatView(v), fd, data)
  {
    WrittenBytes(v, fd, data);
    WrittenCursor(v, fd, data);
  }

  lemma WrittenBytes(v: Vfs, fd: int, data: seq<Byte>)
    requires MountsOk(v) && Placed(v.mounts, v.open) && fd in v.open && Stands(v, fd)
    requires CursorOf(v.mounts, v.open[fd]).file in FilesOf(v.disks)
    ensures var c := CursorOf(v.mounts, v.open[fd]);
            && 0 <= c.position <= |FilesOf(v.disks)[c.file]|
            && FilesOf(WriteFd(v, fd, data).0.disks) ==
                 FilesOf(v.disks)[c.file := Splice(FilesOf(v.disks)[c.file], c.position, data)]
  {
    WriteFileForm(v, fd, data);
    var c := CursorOf(v.mounts, v.open[fd]);
    OverwriteIsSplice(FilesOf(v.disks)[c.file], c.position, data);
    WrittenFiles(v.disks, c.file.0, c.file.1, Splice(FilesOf(v.disks)[c.file], c.position, data));
  }

  lemma WrittenCursor(v: Vfs, fd: int, data: seq<Byte>)
    requires MountsOk(v) && Placed(v.mounts, v.open) && fd in v.open && Stands(v, fd)
    requires CursorOf(v.mounts, v.open[fd]).file in FilesOf(v.disks)
    ensures var (v', n) := WriteFd(v, fd, data);
            var c := CursorOf(v.mounts, v.open[fd]);
            && n == |data| && Placed(v'.mounts, v'.open)
            && CursorsOf(v'.mounts, v'.open) ==
                 CursorsOf(v.mounts, v.open)[fd := Cursor(c.file, c.position + |data|)]
  {
    WriteFileForm(v, fd, data);
    CursorsMove(v.mounts, v.open, fd, Moved(v.open[fd], |data|));
  }

  lemma WrittenFiles(disks: map<int, Tmp.Fs>, f: int, ino: int, d: seq<Byte>)
    requires f in disks && ino in disks[f].inodes && disks[f].inodes[ino].kind == Tmp.File
    ensures FilesOf(WithData(disks, f, ino, d)) == FilesOf(disks)[(f, ino) := d]
  {
    FilesUpdate(disks, f, ino, disks[f].inodes[ino].(data := d, size := |d|));
  }

  // ---------------------------------------------------------------- opening and closing

  /** Closing forgets the cursor and nothing else. */
  lemma CloseRefines(v: Vfs, fd: int)
    requires Inv(v)
    ensures Placed(v.mounts, v.open) && Placed(CloseFd(v, fd).0.mounts, CloseFd(v, fd).0.open)
    ensures FlatView(CloseFd(v, fd).0) == FlatView(v).(cursors := FlatView(v).cursors - {fd})
    ensures CloseFd(v, fd).1 <==> fd in v.open
  {
    InvPlaced(v);
    assert Placed(v.mounts, v.open - {fd});
    assert CursorsOf(v.mounts, v.open - {fd}) == CursorsOf(v.mounts, v.open) - {fd};
  }

  lemma NextFdFresh(v: Vfs)
    requires Inv(v)
    ensures v.nextFd !in v.open
  {
    assert forall fd :: fd in v.open ==> DescriptorOk(v, fd);
  }

  /** Opening for "w" or "a" on a directory goes to the child named like the path, and makes it if it is absent. */
  ghost predicate OpensChild(v: Vfs, path: string, flags: string)
    requires MountsOk(v) && Resolve(v, path).Found?
  {
    ('w' in flags || 'a' in flags) && Tmp.IsDir(v.disks[Resolve(v, path).fs], Resolve(v, path).ino)
  }

  ghost predicate OpensNew(v: Vfs, path: string, flags: string)
    requires MountsOk(v) && Resolve(v, path).Found?
  {
    var r := Resolve(v, path);
    OpensChild(v, path, flags) && Tmp.LookupName(v.disks[r.fs], r.ino, Paths.LastName(path)).None?
  }

  lemma OpenTargetIs(fs: Tmp.Fs, ino: int, path: string, flags: string)
    requires Tmp.IsTree(fs) && ino in fs.inodes
    ensures var (fs', target) := OpenTarget(fs, ino, path, flags);
            var name := Paths.LastName(path);
            if !(('w' in flags || 'a' in flags) && Tmp.IsDir(fs, ino)) then (fs', target) == (fs, ino)
            else
              && Tmp.LookupName(fs', ino, name) == Some(target)
              && if Tmp.LookupName(fs, ino, name).Some? then fs' == fs
                 else target == fs.next && target !in fs.inodes && fs' == Tmp.Insert(fs, ino, name, Tmp.File)
  {
    var up :| Tmp.Tree(fs, up);
  }

  lemma OpenForm(v: Vfs, path: string, flags: string) returns (target: int)
    requires Inv(v) && Resolve(v, path).Found?
    ensures var r := Resolve(v, path);
            var (v', fd) := Open(v, path, flags);
            && r.ino in v.disks[r.fs].inodes && r.fs in v'.disks && target in v'.disks[r.fs].inodes
            && target == OpenTarget(v.disks[r.fs], r.ino, path, flags).1
            && v'.disks == v.disks[r.fs := OpenTarget(v.disks[r.fs], r.ino, path, flags).0]
            && fd == v.nextFd && v'.mounts == v.mounts
            && v'.open == v.open[fd := OpenFile(path, target, flags,
                                                if 'a' in flags then |v'.disks[r.fs].inodes[target].data| else 0)]
  {
    ResolveInside(v, path);
    var r := Resolve(v, path);
    OpenTargetDeveloped(v.disks[r.fs], r.ino, path, flags);
    target := OpenTarget(v.disks[r.fs], r.ino, path, flags).1;
  }

  lemma OpenFiles(v: Vfs, path: string, flags: string)
    requires Inv(v) && Resolve(v, path).Found?
    ensures var r := Resolve(v, path);
            && r.ino in v.disks[r.fs].inodes
            && var (fs', target) := OpenTarget(v.disks[r.fs], r.ino, path, flags);
               var disks' := v.disks[r.fs := fs'];
               && FilesOf(disks') ==
                    (if OpensNew(v, path, flags) then FilesOf(v.disks)[(r.fs, target) := []] else FilesOf(v.disks))
               && (OpensNew(v, path, flags) ==> (r.fs, target) !in FilesOf(v.disks))
  {
    ResolveInside(v, path);
    var r := Resolve(v, path);
    var fs := v.disks[r.fs];
    OpenTargetIs(fs, r.ino, path, flags);
    if OpensNew(v, path, flags) {
      FilesInsert(v.disks, r.fs, r.ino, Paths.LastName(path));
    } else {
      assert v.disks[r.fs := fs] == v.disks;
    }
  }

  /** The one new cursor of an open. */
  lemma OpenCursor(v: Vfs, path: string, flags: string) returns (c: Cursor)
    requires Inv(v) && Resolve(v, path).Found?
    ensures var r := Resolve(v, path);
            var (v', fd) := Open(v, path, flags);
            && r.ino in v.disks[r.fs].inodes && c.file == (r.fs, OpenTarget(v.disks[r.fs], r.ino, path, flags).1)
            && Placed(v.mounts, v.open) && Placed(v'.mounts, v'.open)
            && fd == v.nextFd && fd !in v.open && fd in v'.open
            && CursorsOf(v'.mounts, v'.open) == CursorsOf(v.mounts, v.open)[fd := c]
            && c.position == (if 'a' in flags then |Contents(FlatView(v'), c.file)| else 0)
  {
    OpenInv(v, path, flags);
    NextFdFresh(v);
    InvPlaced(v);
    var target := OpenForm(v, path, flags);
    var (v', fd) := Open(v, path, flags);
    CursorsMove(v.mounts, v.open, fd, v'.open[fd]);
    c := CursorOf(v'.mounts, v'.open[fd]);
    Under(v', fd);
  }

  lemma OpenRefused(v: Vfs, path: string, flags: string)
    requires Inv(v)
    ensures Open(v, path, flags).1 >= 0 <==> Resolve(v, path).Found?
    ensures Open(v, path, flags).1 < 0 ==> Open(v, path, flags) == (v, Tmp.ENOENT)
  {
    if Resolve(v, path).Found? {
      var target := OpenForm(v, path, flags);
    }
  }

  /**
   An open succeeds exactly when the path resolves, and then adds one cursor under a new number, at
   the end for append and at the start otherwise. The cursor stands on what the path resolves to, or
   on the child named like it when that is a directory opened writable. A file is new exactly when
   that child was absent; it is empty, and every other file stays as it is, truncated never.
   */
  lemma OpenRefines(v: Vfs, path: string, flags: string)
    requires Inv(v)
    ensures Open(v, path, flags).1 >= 0 <==> Resolve(v, path).Found?
    ensures Open(v, path, flags).1 < 0 ==> Open(v, path, flags) == (v, Tmp.ENOENT)
    ensures Resolve(v, path).Found? ==>
              var r := Resolve(v, path);
              var (v', fd) := Open(v, path, flags);
              && Placed(v.mounts, v.open) && Placed(v'.mounts, v'.open)
              && fd == v.nextFd && fd !in v.open && fd in v'.open && r.fs in v'.disks
              && var c := FlatView(v').cursors[fd];
                 && FlatView(v').cursors == FlatView(v).cursors[fd := c]
                 && c.position == (if 'a' in flags then |Contents(FlatView(v'), c.file)| else 0)
                 && (if OpensChild(v, path, flags)
                     then c.file.0 == r.fs && Tmp.LookupName(v'.disks[r.fs], r.ino, Paths.LastName(path)) == Some(c.file.1)
                     else c.file == (r.fs, r.ino))
                 && FlatView(v').files ==
                      (if OpensNew(v, path, flags) then FlatView(v).files[c.file := []] else FlatView(v).files)
                 && (OpensNew(v, path, flags) ==> c.file !in FlatView(v).files)
  {
    OpenRefused(v, path, flags);
    if Resolve(v, path).Found? {
      var c := OpenCursor(v, path, flags);
      OpenFiles(v, path, flags);
      OpenPlace(v, path, flags);
    }
  }

  lemma OpenPlace(v: Vfs, path: string, flags: string)
    requires Inv(v) && Resolve(v, path).Found?
    ensures var r := Resolve(v, path);
            var v' := Open(v, path, flags).0;
            && r.ino in v.disks[r.fs].inodes && r.fs in v'.disks
            && v'.disks == v.disks[r.fs := OpenTarget(v.disks[r.fs], r.ino, path, flags).0]
            && var target := OpenTarget(v.disks[r.fs], r.ino, path, flags).1;
               if OpensChild(v, path, flags)
               then Tmp.LookupName(v'.disks[r.fs], r.ino, Paths.LastName(path)) == Some(target)
               else target == r.ino
  {
    var target := OpenForm(v, path, flags);
    OpenTargetIs(v.disks[Resolve(v, path).fs], Resolve(v, path).ino, path, flags);
  }

  /**
   The same with the filesystems in full and the flags written out. Without "w" or "a", or on a regular
   file, an open changes no filesystem and stands on what the path resolves to. With one of them on a
   directory it stands on the entry named like the path, which it makes, as an empty file and nothing
   else, exactly when the directory has none.
   */
  lemma OpenExactly(v: Vfs, path: string, flags: string)
    requires Inv(v) && Resolve(v, path).Found?
    ensures var r := Resolve(v, path);
            var (v', fd) := Open(v, path, flags);
            var (fs, name) := (v.disks[r.fs], Paths.LastName(path));
            && fd == v.nextFd && v'.nextFd == fd + 1 && v'.mounts == v.mounts
            && fd !in v.open && fd in v'.open && v'.open == v.open[fd := v'.open[fd]]
            && v'.open[fd].path == path && v'.open[fd].flags == flags
            && v'.disks.Keys == v.disks.Keys && (forall f :: f in v.disks && f != r.fs ==> v'.disks[f] == v.disks[f])
            && ('w' !in flags && 'a' !in flags ==> v'.disks == v.disks && v'.open[fd].ino == r.ino)
            && (!Tmp.IsDir(fs, r.ino) ==> v'.disks == v.disks && v'.open[fd].ino == r.ino)
            && (('w' in flags || 'a' in flags) && Tmp.IsDir(fs, r.ino) ==>
                  && Tmp.LookupName(v'.disks[r.fs], r.ino, name) == Some(v'.open[fd].ino)
                  && (Tmp.LookupName(fs, r.ino, name).Some? ==> v'.disks == v.disks)
                  && (Tmp.LookupName(fs, r.ino, name).None? ==> MadeIn(fs, v'.disks[r.fs], r.ino, name, v'.open[fd].ino)))
  {
    NextFdFresh(v);
    ResolveInside(v, path);
    var r := Resolve(v, path);
    var fs := v.disks[r.fs];
    var target := OpenForm(v, path, flags);
    OpenTargetIs(fs, r.ino, path, flags);
    assert v.disks[r.fs := fs] == v.disks;
    if OpensNew(v, path, flags) {
      Tmp.InsertExactly(fs, r.ino, Paths.LastName(path), Tmp.File);
    }
  }

  /** The one new inode is an empty file, and the one change to the others is its entry in the parent. */
  ghost predicate MadeIn(fs: Tmp.Fs, fs': Tmp.Fs, parent: int, name: string, c: int) {
    && c !in fs.inodes && fs'.inodes.Keys == fs.inodes.Keys + {c}
    && fs'.inodes[c] == Tmp.Inode(Tmp.File, 0, [], map[])
    && forall i :: i in fs.inodes ==> Tmp.Inserted(fs.inodes[i], fs'.inodes[i], i == parent, name, c)
  }

  // ---------------------------------------------------------------- consequences

  /** What one descriptor writes, any descriptor on the same file reads at that place; no other cursor moves. */
  lemma WriteVisible(v: Vfs, fd: int, other: int, data: seq<Byte>)
    requires Inv(v) && fd in v.open && other in v.open && other != fd && Placed(v.mounts, v.open)
    requires FlatView(v).cursors[fd].file == FlatView(v).cursors[other].file && WriteFd(v, fd, data).1 >= 0
    ensures var v' := WriteFd(v, fd, data).0;
            && MountsOk(v') && Placed(v'.mounts, v'.open) && other in v'.open
            && FlatView(v').cursors[other] == FlatView(v).cursors[other]
            && (FlatView(v).cursors[other].position == FlatView(v).cursors[fd].position ==>
                  ReadFd(v', other, |data|).1 == data)
  {
    WriteRefines(v, fd, data);
    WriteInv(v, fd, data);
    var v' := WriteFd(v, fd, data).0;
    ReadRefines(v', other, |data|);
    FlatWriteVisible(FlatView(v), fd, other, data);
  }

  lemma FlatWriteVisible(s: Flat, fd: int, other: int, data: seq<Byte>)
    requires FlatOk(s) && fd in s.cursors && other in s.cursors && other != fd
    requires s.cursors[fd].file == s.cursors[other].file && s.cursors[fd].file in s.files
    requires FlatOk(FlatWrite(s, fd, data).0)
    ensures s.cursors[other].position == s.cursors[fd].position ==>
              FlatRead(FlatWrite(s, fd, data).0, other, |data|).1 == data
  {
    var p := s.cursors[fd].position;
    var was := s.files[s.cursors[fd].file];
    var now := FlatWrite(s, fd, data).0.files[s.cursors[fd].file];
    assert now[p..p + |data|] == data;
  }
}
