/** When a path that was written can be read back, for any mount table. */
module VfsRoundTrip {
  import opened Prelude
  import opened ByteStrings
  import opened Paths
  import opened MountModel
  import opened VfsModel
  import opened VfsResolve
  import Tmp = TmpFsModel

  // ---------------------------------------------------------------- where a path and its parent lead

  /**
   The path and its parent go through mounts of the same filesystem, and below them the path has the
   parent's components and the last name. A caller can decide this from the table and the string.
   */
  ghost predicate SamePlace(ms: seq<Mount>, path: string) {
    var m, pm := Pick(ms, path), Pick(ms, ParentPath(path));
    && m.Some? && pm.Some? && m.value.fs == pm.value.fs
    && Comps(Rest(m.value, path)) == Comps(Rest(pm.value, ParentPath(path))) + [LastName(path)]
  }

  /** Resolving a path below a resolved parent is looking its last name up there. */
  lemma ResolveInParent(v: Vfs, path: string)
    requires MountsOk(v) && SamePlace(v.mounts, path) && Resolve(v, ParentPath(path)).Found?
    ensures var r := Resolve(v, ParentPath(path));
            Resolve(v, path) ==
              match Tmp.LookupName(v.disks[r.fs], r.ino, LastName(path))
              case None => Missing(r.fs)
              case Some(child) => Found(r.fs, child)
  {
    var pp := ParentPath(path);
    ResolveIsWalk(v, pp);
    ResolveIsWalk(v, path);
    var (f, names) := (Resolve(v, pp).fs, Comps(Rest(Pick(v.mounts, pp).value, pp)));
    Tmp.WalkConcat(v.disks[f], Tmp.ROOT, names, [LastName(path)]);
    Tmp.WalkOne(v.disks[f], Resolve(v, pp).ino, LastName(path));
  }

  /** A slash-free path never shares its parent's place: it is created under its name but looked up without its start. */
  lemma SlashFreeNotSame(ms: seq<Mount>, path: string)
    requires '/' !in RStrip(path)
    ensures !SamePlace(ms, path)
  {
    NoParent(path);
    var s := RStrip(path);
    if Pick(ms, path).Some? && Pick(ms, "/").Some? {
      var (m, pm) := (Pick(ms, path).value, Pick(ms, "/").value);
      CompsEmpty();
      CompsSlash("");
      assert "/" + "" == "/";
      assert Comps(Rest(pm, "/")) == [];
      assert [] + [s] == [s];
      CompsValid(Rest(m, path));
      if s != "" {
        PickMember(ms, path);
        RStripEnd(path);
        assert path[0] == s[0] && s[0] in s;
        assert |m.path| > 0;
        ShorterRest(path, |m.path|);
      }
    }
  }

  lemma ShorterRest(path: string, k: nat)
    requires '/' !in RStrip(path) && k > 0 && RStrip(path) != ""
    ensures Comps(Drop(path, k)) != [RStrip(path)]
  {
    var s := RStrip(path);
    RStripEnd(path);
    CompsEmpty();
    if k < |s| {
      CompsOfTail(path, k);
      assert '/' !in s[k..];
      CompsName(s[k..]);
      assert |s[k..]| < |s|;
    } else if k <= |path| {
      CompsTrailing("", path[k..]);
      assert "" + path[k..] == path[k..];
    }
  }

  // ---------------------------------------------------------------- a creation adds one walk

  /** The lookups of fs2 are those of fs and one more, which leads to the next inode number. */
  ghost predicate OneEntryMore(fs: Tmp.Fs, fs2: Tmp.Fs, parent: int, name: string) {
    && Tmp.IsTree(fs) && parent in fs.inodes && fs.next !in fs.inodes && Tmp.LookupName(fs, parent, name).None?
    && forall i, n :: Tmp.LookupName(fs2, i, n) ==
                      if i == parent && n == name then Some(fs.next) else Tmp.LookupName(fs, i, n)
  }

  lemma InsertedLookup(fs: Tmp.Fs, parent: int, name: string, kind: Tmp.Kind, i: int, n: string)
    requires Tmp.IsTree(fs) && Tmp.IsDir(fs, parent) && name !in fs.inodes[parent].children
    ensures Tmp.LookupName(Tmp.Insert(fs, parent, name, kind), i, n) ==
              if i == parent && n == name then Some(fs.next) else Tmp.LookupName(fs, i, n)
  {
    var up :| Tmp.Tree(fs, up);
    Tmp.InsertExactly(fs, parent, name, kind);
    if i in fs.inodes {
      assert Tmp.Inserted(fs.inodes[i], Tmp.Insert(fs, parent, name, kind).inodes[i], i == parent, name, fs.next);
    }
  }

  lemma CreatedEntry(fs: Tmp.Fs, parent: int, name: string, kind: Tmp.Kind)
    requires Tmp.IsTree(fs) && Tmp.Create(fs, parent, name, kind).1.Created?
    ensures OneEntryMore(fs, Tmp.Create(fs, parent, name, kind).0, parent, name)
  {
    var up :| Tmp.Tree(fs, up);
    forall i, n
      ensures Tmp.LookupName(Tmp.Create(fs, parent, name, kind).0, i, n) ==
              if i == parent && n == name then Some(fs.next) else Tmp.LookupName(fs, i, n)
    {
      InsertedLookup(fs, parent, name, kind, i, n);
    }
  }

  lemma FilledLookup(fs: Tmp.Fs, ino: int, content: seq<Byte>, i: int, n: string)
    ensures Tmp.LookupName(FillNew(fs, ino, content), i, n) == Tmp.LookupName(fs, i, n)
  {
  }

  lemma FilledEntry(fs: Tmp.Fs, parent: int, name: string, content: seq<Byte>)
    requires Tmp.IsTree(fs) && Tmp.Create(fs, parent, name, Tmp.File).1.Created?
    ensures var (fs1, c) := Tmp.Create(fs, parent, name, Tmp.File);
            && OneEntryMore(fs, FillNew(fs1, c.ino, content), parent, name)
            && c.ino == fs.next && c.ino in FillNew(fs1, c.ino, content).inodes
            && FillNew(fs1, c.ino, content).inodes[c.ino] == Tmp.Inode(Tmp.File, |content|, content, map[])
  {
    var (fs1, c) := Tmp.Create(fs, parent, name, Tmp.File);
    CreatedEntry(fs, parent, name, Tmp.File);
    CreateDeveloped(fs, parent, name, Tmp.File);
    FillNewIsWrite(fs1, c.ino, content);
    var fs2 := FillNew(fs1, c.ino, content);
    forall i, n ensures Tmp.LookupName(fs2, i, n) == Tmp.LookupName(fs1, i, n) {
      FilledLookup(fs1, c.ino, content, i, n);
    }
  }

  lemma {:induction false} OldWalk(fs: Tmp.Fs, fs2: Tmp.Fs, parent: int, name: string, ino: int, names: seq<string>)
    requires OneEntryMore(fs, fs2, parent, name) && Tmp.Walk(fs, ino, names).Some?
    ensures Tmp.Walk(fs2, ino, names) == Tmp.Walk(fs, ino, names)
    decreases |names|
  {
    if names != [] {
      OldWalk(fs, fs2, parent, name, Tmp.LookupName(fs, ino, names[0]).value, names[1..]);
    }
  }

  /** A walk that succeeds only afterwards goes to the parent as before and then takes the new entry. */
  lemma {:induction false} NewWalk(fs: Tmp.Fs, fs2: Tmp.Fs, parent: int, name: string, ino: int, names: seq<string>)
    requires OneEntryMore(fs, fs2, parent, name)
    requires Tmp.Walk(fs, ino, names).None? && Tmp.Walk(fs2, ino, names).Some?
    ensures names != [] && names[|names| - 1] == name
    ensures Tmp.Walk(fs, ino, names[..|names| - 1]) == Some(parent)
    decreases |names|
  {
    var rest := names[1..];
    if ino == parent && names[0] == name {
      assert forall n :: Tmp.LookupName(fs2, fs.next, n).None?;
      assert names[..|names| - 1] == [];
    } else {
      NewWalk(fs, fs2, parent, name, Tmp.LookupName(fs, ino, names[0]).value, rest);
      assert names[..|names| - 1] == [names[0]] + rest[..|rest| - 1];
    }
  }

  /** The one new walk is the parent's and the new name. */
  lemma NewWalkIs(fs: Tmp.Fs, fs2: Tmp.Fs, parent: int, name: string, pnames: seq<string>, names: seq<string>)
    requires OneEntryMore(fs, fs2, parent, name) && Tmp.Walk(fs, Tmp.ROOT, pnames) == Some(parent)
    requires Tmp.Walk(fs, Tmp.ROOT, names).None? && Tmp.Walk(fs2, Tmp.ROOT, names).Some?
    ensures names == pnames + [name]
  {
    NewWalk(fs, fs2, parent, name, Tmp.ROOT, names);
    var front := names[..|names| - 1];
    var up :| Tmp.Tree(fs, up);
    Tmp.WalkUnique(fs, up, front);
    Tmp.WalkUnique(fs, up, pnames);
    assert names == front + [name];
  }

  /** After an entry for the path's last name was made under its parent, the path leads there exactly in the same place. */
  lemma FoundAfter(v: Vfs, path: string, fs2: Tmp.Fs)
    requires Inv(v) && Resolve(v, ParentPath(path)).Found? && !Resolve(v, path).Found?
    requires var r := Resolve(v, ParentPath(path)); OneEntryMore(v.disks[r.fs], fs2, r.ino, LastName(path))
    ensures var r := Resolve(v, ParentPath(path));
            var v' := SetDisk(v, r.fs, fs2);
            && MountsOk(v')
            && (Resolve(v', path).Found? <==> SamePlace(v.mounts, path))
            && (SamePlace(v.mounts, path) ==> Resolve(v', path) == Found(r.fs, v.disks[r.fs].next))
  {
    var pp := ParentPath(path);
    var (f, parent) := (Resolve(v, pp).fs, Resolve(v, pp).ino);
    var v' := SetDisk(v, f, fs2);
    ResolveIsWalk(v, pp);
    var pnames := Comps(Rest(Pick(v.mounts, pp).value, pp));
    if SamePlace(v.mounts, path) {
      ResolveIsWalk(v', pp);
      OldWalk(v.disks[f], fs2, parent, LastName(path), Tmp.ROOT, pnames);
      ResolveInParent(v', path);
    } else if Resolve(v', path).Found? {
      FoundIsSamePlace(v, path, fs2);
    }
  }

  lemma FoundIsSamePlace(v: Vfs, path: string, fs2: Tmp.Fs)
    requires Inv(v) && Resolve(v, ParentPath(path)).Found? && !Resolve(v, path).Found?
    requires var r := Resolve(v, ParentPath(path));
             && OneEntryMore(v.disks[r.fs], fs2, r.ino, LastName(path))
             && Resolve(SetDisk(v, r.fs, fs2), path).Found?
    ensures SamePlace(v.mounts, path)
  {
    var pp := ParentPath(path);
    var (f, parent) := (Resolve(v, pp).fs, Resolve(v, pp).ino);
    ResolveIsWalk(v, pp);
    ResolveIsWalk(v, path);
    ResolveIsWalk(SetDisk(v, f, fs2), path);
    var pnames := Comps(Rest(Pick(v.mounts, pp).value, pp));
    var names := Comps(Rest(Pick(v.mounts, path).value, path));
    NewWalkIs(v.disks[f], fs2, parent, LastName(path), pnames, names);
  }

  // ---------------------------------------------------------------- creating

  /** The path resolves to a directory without an entry of that name. */
  ghost predicate FreeIn(v: Vfs, path: string, name: string)
    requires MountsOk(v)
  {
    var r := Resolve(v, path);
    r.Found? && Tmp.IsDir(v.disks[r.fs], r.ino) && Tmp.LookupName(v.disks[r.fs], r.ino, name).None?
  }

  /** In a tree a name is free in a directory exactly when looking it up finds nothing. */
  lemma FreeName(fs: Tmp.Fs, dir: int, name: string, kind: Tmp.Kind)
    requires Tmp.IsTree(fs)
    ensures Tmp.Create(fs, dir, name, kind).1.Created? <==>
              Tmp.IsDir(fs, dir) && Tmp.LookupName(fs, dir, name).None?
  {
    var up :| Tmp.Tree(fs, up);
  }

  /**
   mkdir and create_file succeed exactly when the parent is a directory in which the name is free.
   When the path led nowhere before, the directory made is found under it, empty, exactly if path
   and parent are in the same place; otherwise the path still leads nowhere.
   */
  lemma CreationExactly(v: Vfs, path: string, content: seq<Byte>)
    requires Inv(v)
    ensures Mkdir(v, path).1 <==> FreeIn(v, ParentPath(path), LastName(path))
    ensures CreateFile(v, path, content).1 <==> Mkdir(v, path).1
    ensures MountsOk(Mkdir(v, path).0)
    ensures Mkdir(v, path).1 && !Resolve(v, path).Found? ==>
              var v' := Mkdir(v, path).0;
              var r := Resolve(v', path);
              && (r.Found? <==> SamePlace(v.mounts, path))
              && (r.Found? ==> r.ino in v'.disks[r.fs].inodes && v'.disks[r.fs].inodes[r.ino] == Tmp.NewInode(Tmp.Dir))
  {
    MkdirInv(v, path);
    var r := Resolve(v, ParentPath(path));
    if r.Found? {
      FreeName(v.disks[r.fs], r.ino, LastName(path), Tmp.Dir);
      FreeName(v.disks[r.fs], r.ino, LastName(path), Tmp.File);
      if Mkdir(v, path).1 && !Resolve(v, path).Found? {
        CreatedEntry(v.disks[r.fs], r.ino, LastName(path), Tmp.Dir);
        CreateDeveloped(v.disks[r.fs], r.ino, LastName(path), Tmp.Dir);
        FoundAfter(v, path, Mkdir(v, path).0.disks[r.fs]);
      }
    }
  }

  /** A new file is read back under its path exactly if path and parent are in the same place; otherwise nothing is. */
  lemma CreateRoundTrip(v: Vfs, path: string, data: seq<Byte>, size: int)
    requires Inv(v) && !Resolve(v, path).Found? && CreateFile(v, path, data).1
    ensures MountsOk(CreateFile(v, path, data).0)
    ensures ReadPath(CreateFile(v, path, data).0, path, size) ==
              if SamePlace(v.mounts, path) then Some(Slice(data, 0, size)) else None
  {
    CreateFileInv(v, path, data);
    var r := Resolve(v, ParentPath(path));
    FilledEntry(v.disks[r.fs], r.ino, LastName(path), data);
    FoundAfter(v, path, CreateFile(v, path, data).0.disks[r.fs]);
  }

  // ---------------------------------------------------------------- write_path then read_path

  /** Writing over an existing file: what was written is what is read. */
  lemma OverwriteRoundTrip(v: Vfs, path: string, data: seq<Byte>)
    requires Inv(v) && Resolve(v, path).Found? && WritePath(v, path, data).1 >= 0
    ensures MountsOk(WritePath(v, path, data).0)
    ensures ReadPath(WritePath(v, path, data).0, path, |data|) == Some(data)
  {
    StepResolves(v, OpWritePath(path, data), path);
    WritePathInv(v, path, data);
    var r := Resolve(v, path);
    Tmp.ReadAfterWrite(v.disks[r.fs], r.ino, 0, data);
  }

  /**
   write_path followed by read_path, for every mount table, every string and every content: when
   the write reports success, reading the same path back gives exactly the content if and only if
   the path resolved before or is in the same place as its parent.
   */
  lemma RoundTripExactly(v: Vfs, path: string, data: seq<Byte>)
    requires Inv(v)
    ensures MountsOk(WritePath(v, path, data).0)
    ensures WritePath(v, path, data).1 >= 0 ==>
              (ReadPath(WritePath(v, path, data).0, path, |data|) == Some(data) <==>
                 Resolve(v, path).Found? || SamePlace(v.mounts, path))
  {
    if WritePath(v, path, data).1 < 0 {
      WritePathInv(v, path, data);
    } else if Resolve(v, path).Found? {
      OverwriteRoundTrip(v, path, data);
    } else {
      CreateRoundTrip(v, path, data, |data|);
      assert Slice(data, 0, |data|) == data;
    }
  }

  /** Whatever the mounts, a new file written to a path without a slash is never found under it. */
  lemma SingleNameIsLost(v: Vfs, path: string, data: seq<Byte>, size: int)
    requires Inv(v) && '/' !in RStrip(path)
    requires !Resolve(v, path).Found? && CreateFile(v, path, data).1
    ensures MountsOk(CreateFile(v, path, data).0)
    ensures ReadPath(CreateFile(v, path, data).0, path, size) == None
  {
    SlashFreeNotSame(v.mounts, path);
    CreateRoundTrip(v, path, data, size);
  }

  ghost function RootMounted(): Vfs {
    Vfs([Mount("/", 0)], map[0 := Tmp.Empty()], map[], 3)
  }

  /** A written "xy" is lost; writing "x" is refused, because without its one letter it is the root directory. */
  lemma RelativeNames(data: seq<Byte>)
    ensures var v := RootMounted();
            && Inv(v)
            && MountsOk(WritePath(v, "xy", data).0) && WritePath(v, "xy", data).1 == |data|
            && ReadPath(WritePath(v, "xy", data).0, "xy", |data|) == None
            && WritePath(v, "x", data) == (v, Tmp.EINVAL)
  {
    var v := RootMounted();
    Tmp.EmptyTree();
    RelativePicks();
    ResolveIsWalk(v, "xy");
    Tmp.WalkOne(v.disks[0], Tmp.ROOT, "y");
    assert Resolve(v, "xy") == Missing(0) && Resolve(v, "/") == Found(0, Tmp.ROOT);
    SingleNameIsLost(v, "xy", data, |data|);
    assert Resolve(v, "x") == Found(0, Tmp.ROOT);
    assert v.disks[0 := v.disks[0]] == v.disks;
  }

  lemma RelativePicks()
    ensures var ms := [Mount("/", 0)];
            && Pick(ms, "xy") == Pick(ms, "x") == Pick(ms, "/") == Some(ms[0])
            && Rest(ms[0], "x") == "" && Rest(ms[0], "/") == "" && Comps(Rest(ms[0], "xy")) == ["y"]
    ensures '/' !in RStrip("xy") && ParentPath("xy") == "/" && LastName("xy") == "xy"
  {
    var ms := [Mount("/", 0)];
    assert ms[1..] == [];
    assert RStrip("/") == "" by {
      assert "/"[..0] == "" && RStrip("") == "";
    }
    assert "xy"[1..] == "y";
    CompsName("y");
    NoParent("xy");
  }

  // ---------------------------------------------------------------- normal mountpoints

  /** Mountpoints as the kernel writes them: "/" or an absolute path without trailing slash. */
  predicate Normal(mountpoint: string) {
    mountpoint == "/" ||
    (mountpoint != "" && mountpoint[0] == '/' && mountpoint[|mountpoint| - 1] != '/')
  }

  ghost predicate NormalMounts(ms: seq<Mount>) {
    forall m :: m in ms ==> Normal(m.path)
  }

  lemma NormalRStrip(mountpoint: string)
    requires Normal(mountpoint) && mountpoint != "/"
    ensures RStrip(mountpoint) == mountpoint
  {
  }

  lemma {:induction false} PickSameMatches(ms: seq<Mount>, p: string, q: string, best: Option<Mount>)
    requires forall m :: m in ms ==> (Matches(p, m.path) <==> Matches(q, m.path))
    ensures PickFrom(ms, p, best) == PickFrom(ms, q, best)
    decreases |ms|
  {
    if ms != [] {
      assert ms[0] in ms;
      PickSameMatches(ms[1..], p, q, if ms[0].path == "/" && best.None? then Some(ms[0]) else best);
    }
  }

  /** A normal mountpoint below "/" that matches a path is no longer than the stripped path. */
  lemma MatchFits(path: string, mp: string)
    requires Normal(mp) && mp != "/" && Matches(path, mp)
    ensures mp == RStrip(path) || mp + "/" <= RStrip(path)
  {
    NormalRStrip(mp);
    RStripEnd(path);
    var s := RStrip(path);
    if path == mp {
      assert RStrip(path) == path;
    } else {
      assert path[|mp|] == '/' && path[..|mp|] == mp;
      assert path[|mp| - 1] == mp[|mp| - 1];
      if |mp| == |s| {
        assert mp == s;
      } else if |mp| < |s| {
        assert s == path[..|s|];
        assert s[..|mp| + 1] == mp + "/";
      }
    }
  }

  /** A mount sitting on the stripped path is the one that is picked: no longer one matches. */
  lemma MountOnPathIsPicked(ms: seq<Mount>, path: string, x: Mount)
    requires Sorted(ms) && NormalMounts(ms) && x in ms
    requires '/' in RStrip(path) && x.path == RStrip(path)
    ensures Pick(ms, path).Some? && Pick(ms, path).value.path == RStrip(path)
  {
    var s := RStrip(path);
    RStripEnd(path);
    NormalIsNotRoot(path);
    NormalRStrip(s);
    assert Matches(path, s) by {
      if |path| > |s| {
        assert path[..|s| + 1] == s + "/";
      }
    }
    var i :| 0 <= i < |ms| && ms[i] == x;
    var k := FirstMatch(ms, path);
    PickFirst(ms, path, None, k);
    FirstNotAfter(ms, path, k, i);
    assert ms[k] in ms;
    if ms[k].path != "/" {
      MatchFits(path, ms[k].path);
    }
  }

  lemma FirstNotAfter(ms: seq<Mount>, path: string, k: nat, i: nat)
    requires k < |ms| && i < |ms| && NoMatch(ms[..k], path) && Matches(path, ms[i].path) && Sorted(ms)
    ensures k <= i && |ms[k].path| >= |ms[i].path|
  {
    var before := ms[..k];
    assert forall j :: 0 <= j < k ==> before[j] == ms[j];
  }

  /** If a path does not resolve to an inode, no mount sits exactly on it. */
  lemma NoMountOnMissing(v: Vfs, path: string, x: Mount)
    requires Inv(v) && NormalMounts(v.mounts) && x in v.mounts
    requires '/' in RStrip(path) && x.path == RStrip(path)
    ensures Resolve(v, path).Found?
  {
    var s := RStrip(path);
    MountOnPathIsPicked(v.mounts, path, x);
    ResolveIsWalk(v, path);
    CompsOfTail(path, |s|);
    assert s[|s|..] == "";
    CompsEmpty();
  }

  /** A stripped path that still has a slash is longer than "/". */
  lemma NormalIsNotRoot(path: string)
    requires '/' in RStrip(path)
    ensures |RStrip(path)| >= 2 && RStrip(path) != "/"
  {
    RStripEnd(path);
  }

  lemma NameHasNoSlash(s: string, a: string, name: string)
    requires s == a + "/" + name && '/' !in name
    ensures forall i :: |a| < i < |s| ==> s[i] != '/'
  {
    forall i | |a| < i < |s| ensures s[i] != '/' {
      assert s[i] == name[i - |a| - 1];
    }
  }

  /** A path and its parent go through the same mounts, unless a mount sits on the path itself. */
  lemma SameMatches(path: string, mp: string)
    requires '/' in RStrip(path) && Normal(mp) && mp != RStrip(path)
    ensures Matches(path, mp) <==> Matches(ParentPath(path), mp)
  {
    var a := ParentAndName(path);
    RStripEnd(path);
    if mp == "/" {
      RStripRoot();
      assert path[0] == RStrip(path)[0];
      assert ParentPath(path)[0] == RStrip(path)[0];
      AtRoot(path);
      AtRoot(ParentPath(path));
    } else {
      if Matches(path, mp) {
        MatchFits(path, mp);
        MatchUp(a, LastName(path), mp);
      }
      if Matches(ParentPath(path), mp) {
        MatchDown(path, a, LastName(path), mp);
      }
    }
  }

  lemma AtRoot(path: string)
    requires path != ""
    ensures Matches(path, "/") <==> path[0] == '/'
  {
    RStripRoot();
    assert "/" <= path <==> path[0] == '/';
  }

  lemma MatchUp(a: string, name: string, mp: string)
    requires Normal(mp) && mp != "/" && mp + "/" <= a + "/" + name && '/' !in name
    ensures Matches(if a == "" then "/" else a, mp)
  {
    NormalRStrip(mp);
    var s := a + "/" + name;
    NameHasNoSlash(s, a, name);
    assert s[|mp|] == '/' && s[..|mp|] == mp;
    if |mp| == |a| {
      assert mp == a;
    } else {
      assert a[..|mp| + 1] == mp + "/";
    }
  }

  lemma MatchDown(path: string, a: string, name: string, mp: string)
    requires Normal(mp) && mp != "/" && RStrip(path) == a + "/" + name
    requires Matches(if a == "" then "/" else a, mp)
    ensures Matches(path, mp)
  {
    NormalRStrip(mp);
    RStripEnd(path);
    assert mp + "/" <= a + "/" by {
      if mp != a {
        assert mp + "/" <= a;
      }
    }
    assert path[..|mp| + 1] == mp + "/";
  }

  lemma SamePick(v: Vfs, path: string)
    requires Inv(v) && NormalMounts(v.mounts) && '/' in RStrip(path) && !Resolve(v, path).Found?
    ensures Pick(v.mounts, path) == Pick(v.mounts, ParentPath(path))
  {
    forall m | m in v.mounts
      ensures Matches(path, m.path) <==> Matches(ParentPath(path), m.path)
    {
      if m.path == RStrip(path) {
        NoMountOnMissing(v, path, m);
      }
      SameMatches(path, m.path);
    }
    PickSameMatches(v.mounts, path, ParentPath(path), None);
  }

  /** A matching normal mount is no longer than the parent's own prefix. */
  lemma MountWithinParent(path: string, a: string, mp: string)
    requires Normal(mp) && (mp == "/" || Matches(if a == "" then "/" else a, mp))
    ensures a == "" ==> mp == "/"
    ensures |mp| <= |a| || a == ""
  {
    if mp != "/" {
      NormalRStrip(mp);
    }
  }

  /** Below the common mount the path has exactly the parent's components and the new name. */
  lemma RestOfParent(path: string, m: Mount)
    requires '/' in RStrip(path) && Normal(m.path)
    requires m.path == "/" || Matches(ParentPath(path), m.path)
    ensures Comps(Rest(m, path)) == Comps(Rest(m, ParentPath(path))) + [LastName(path)]
  {
    var a := ParentAndName(path);
    MountWithinParent(path, a, m.path);
    if a == "" {
      TailAtRoot(path, LastName(path));
      CompsEmpty();
      assert Drop("/", 1) == "";
    } else {
      TailBelow(path, a, LastName(path), |m.path|);
    }
  }

  lemma TailAtRoot(path: string, name: string)
    requires RStrip(path) == "" + "/" + name && ValidName(name)
    ensures Comps(Drop(path, 1)) == [name]
  {
    CompsOfTail(path, 1);
    assert RStrip(path)[1..] == name;
    CompsName(name);
  }

  lemma TailBelow(path: string, a: string, name: string, k: nat)
    requires RStrip(path) == a + "/" + name && ValidName(name) && k <= |a|
    ensures Comps(Drop(path, k)) == Comps(Drop(a, k)) + [name]
  {
    CompsOfTail(path, k);
    assert RStrip(path)[k..] == a[k..] + "/" + name;
    CompsAt(a[k..], name);
    CompsName(name);
  }

  /** A path and a parent that go through the same normal mount are in the same place. */
  lemma SamePlaceIfPicked(ms: seq<Mount>, path: string, m: Mount)
    requires '/' in RStrip(path) && Normal(m.path)
    requires Pick(ms, path) == Some(m) == Pick(ms, ParentPath(path))
    ensures SamePlace(ms, path)
  {
    PickMember(ms, ParentPath(path));
    RestOfParent(path, m);
  }

  /**
   With normal mountpoints: a successful write is read back exactly when the path resolved before or
   has a slash once trailing ones are stripped.
   */
  lemma RoundTripNormal(v: Vfs, path: string, data: seq<Byte>)
    requires Inv(v) && NormalMounts(v.mounts)
    ensures MountsOk(WritePath(v, path, data).0)
    ensures WritePath(v, path, data).1 >= 0 ==>
              (ReadPath(WritePath(v, path, data).0, path, |data|) == Some(data) <==>
                 Resolve(v, path).Found? || '/' in RStrip(path))
  {
    RoundTripExactly(v, path, data);
    if '/' !in RStrip(path) {
      SlashFreeNotSame(v.mounts, path);
    } else if !Resolve(v, path).Found? && WritePath(v, path, data).1 >= 0 {
      SamePick(v, path);
      var m := Pick(v.mounts, ParentPath(path)).value;
      PickMember(v.mounts, path);
      SamePlaceIfPicked(v.mounts, path, m);
    }
  }

  /** "/" with a directory mnt, and a second filesystem mounted at "/mnt/". */
  ghost function SlashMounted(): Vfs {
    Vfs([Mount("/mnt/", 1), Mount("/", 0)],
        map[0 := Tmp.Create(Tmp.Empty(), Tmp.ROOT, "mnt", Tmp.Dir).0, 1 := Tmp.Empty()], map[], 3)
  }

  /** A mountpoint with a trailing slash: the file is created below "/" and looked up in the mount. */
  lemma TrailingSlashMount(data: seq<Byte>)
    ensures var v := SlashMounted();
            && Inv(v) && !SamePlace(v.mounts, "/mnt/x")
            && MountsOk(WritePath(v, "/mnt/x", data).0) && WritePath(v, "/mnt/x", data).1 == |data|
            && ReadPath(WritePath(v, "/mnt/x", data).0, "/mnt/x", |data|) == None
  {
    SlashMountedInv();
    MntResolves();
    MntNames();
    MntPicks();
    CreateRoundTrip(SlashMounted(), "/mnt/x", data, |data|);
  }

  lemma SlashMountedInv()
    ensures Inv(SlashMounted())
  {
    Tmp.EmptyTree();
    var up := Tmp.CreateTree(Tmp.Empty(), map[], Tmp.ROOT, "mnt", Tmp.Dir);
  }

  lemma MntResolves()
    ensures var v := SlashMounted();
            && MountsOk(v) && Resolve(v, "/mnt/x") == Missing(1) && Resolve(v, "/mnt") == Found(0, 2)
            && Tmp.Create(v.disks[0], 2, "x", Tmp.File).1.Created?
  {
    MntMissing();
    MntFound();
  }

  lemma MntMissing()
    ensures MountsOk(SlashMounted()) && Resolve(SlashMounted(), "/mnt/x") == Missing(1)
  {
    var v := SlashMounted();
    MntComps();
    MntPicks();
    assert MountsOk(v);
    ResolveIsWalk(v, "/mnt/x");
    Tmp.WalkOne(v.disks[1], Tmp.ROOT, "x");
  }

  lemma MntFound()
    ensures MountsOk(SlashMounted()) && Resolve(SlashMounted(), "/mnt") == Found(0, 2)
  {
    var v := SlashMounted();
    MntComps();
    MntPicks();
    assert MountsOk(v);
    ResolveIsWalk(v, "/mnt");
    Tmp.WalkOne(v.disks[0], Tmp.ROOT, "mnt");
  }

  lemma MntComps()
    ensures RStrip("/mnt/") == "/mnt" && RStrip("/") == ""
    ensures Comps("x") == ["x"] && Comps("mnt") == ["mnt"]
  {
    assert "/mnt/"[..4] == "/mnt" && RStrip("/mnt") == "/mnt";
    assert "/"[..0] == "" && RStrip("") == "";
    CompsName("x");
    CompsName("mnt");
  }

  lemma MntNames()
    ensures ParentPath("/mnt/x") == "/mnt" && LastName("/mnt/x") == "x"
  {
    assert RStrip("/mnt/x") == "/mnt/x" == "/mnt" + "/" + "x";
    SplitAt("/mnt", "x");
    SplitNoSlash("x");
    assert (Split("/mnt") + ["x"])[..|Split("/mnt")|] == Split("/mnt");
    JoinSplit("/mnt");
  }

  lemma MntPicks()
    ensures var ms := [Mount("/mnt/", 1), Mount("/", 0)];
            && Pick(ms, "/mnt/x") == Some(Mount("/mnt/", 1)) && Rest(ms[0], "/mnt/x") == "x"
            && Pick(ms, "/mnt") == Some(Mount("/", 0)) && Rest(ms[1], "/mnt") == "mnt"
  {
    MntComps();
    var ms := [Mount("/mnt/", 1), Mount("/", 0)];
    assert !Matches("/mnt", "/mnt/") && Matches("/mnt/x", "/mnt/") && Matches("/mnt", "/");
    assert ms[1..] == [Mount("/", 0)];
    assert "/mnt/x"[5..] == "x" && "/mnt"[1..] == "mnt";
  }
}
