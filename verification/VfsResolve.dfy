/** What path resolution means, and how stable it is. */
module VfsResolve {
  import opened Prelude
  import opened ByteStrings
  import opened Paths
  import opened MountModel
  import opened VfsModel
  import Tmp = TmpFsModel

  // ---------------------------------------------------------------- refinement to components

  /** Resolution on component lists: the longest mount, then a walk along what is left. */
  ghost function ResolveComponents(v: Vfs, m: Mount, cs: seq<string>): Resolution
    requires m.fs in v.disks && |Comps(m.path)| <= |cs|
  {
    match Tmp.Walk(v.disks[m.fs], Tmp.ROOT, cs[|Comps(m.path)|..])
    case None => Missing(m.fs)
    case Some(ino) => Found(m.fs, ino)
  }

  /** Whatever the string looked like, resolution is a walk along the components of the rest. */
  lemma ResolveIsWalk(v: Vfs, path: string)
    requires MountsOk(v) && Pick(v.mounts, path).Some?
    ensures Pick(v.mounts, path).value.fs in v.disks
    ensures var m := Pick(v.mounts, path).value;
            Resolve(v, path) ==
              match Tmp.Walk(v.disks[m.fs], Tmp.ROOT, Comps(Rest(m, path)))
              case None => Missing(m.fs)
              case Some(ino) => Found(m.fs, ino)
  {
    PickMember(v.mounts, path);
    CompsEmpty();
    CompsSlash("");
    assert "/" + "" == "/";
  }

  /** String resolution walks exactly the components left over by the longest matching mount. */
  lemma ResolveRefines(v: Vfs, path: string, cs: seq<string>)
    requires MountsOk(v) && Canonical(v.mounts) && PathWith(path, cs)
    ensures forall m :: Longest(v.mounts, cs, m) ==> Resolve(v, path) == ResolveComponents(v, m, cs)
    ensures (forall m :: !Longest(v.mounts, cs, m)) ==> Resolve(v, path) == NoFs
  {
    PickIsLongest(v.mounts, path, cs);
    forall m | Longest(v.mounts, cs, m)
      ensures Resolve(v, path) == ResolveComponents(v, m, cs)
    {
      assert Pick(v.mounts, path) == Some(m);
      PickedWalk(v, path, cs, m);
    }
    if Pick(v.mounts, path).Some? {
      assert Longest(v.mounts, cs, Pick(v.mounts, path).value);
    }
  }

  lemma PickedWalk(v: Vfs, path: string, cs: seq<string>, m: Mount)
    requires MountsOk(v) && Canonical(v.mounts) && PathWith(path, cs)
    requires m in v.mounts && Comps(m.path) <= cs && Pick(v.mounts, path) == Some(m)
    ensures Resolve(v, path) == ResolveComponents(v, m, cs)
  {
    MatchIsPrefix(path, cs, Comps(m.path));
    ResolveIsWalk(v, path);
  }

  // ---------------------------------------------------------------- stability

  /** Every filesystem has only developed. */
  ghost predicate DisksDeveloped(v: Vfs, v': Vfs) {
    forall f :: f in v.disks ==> f in v'.disks && Developed(v.disks[f], v'.disks[f])
  }

  lemma SameDeveloped(v: Vfs, v': Vfs)
    requires Inv(v) && v'.disks == v.disks
    ensures DisksDeveloped(v, v')
  {
    forall f | f in v.disks ensures Developed(v.disks[f], v'.disks[f]) {
      DevelopedRefl(v.disks[f]);
    }
  }

  lemma CreateFileDevelops(v: Vfs, path: string, content: seq<Byte>)
    requires Inv(v)
    ensures DisksDeveloped(v, CreateFile(v, path, content).0)
  {
    SameDeveloped(v, v);
    var r := ResolveParent(v, path);
    if r.Found? {
      var fs0 := v.disks[r.fs];
      CreateDeveloped(fs0, r.ino, LastName(path), Tmp.File);
      var (fs1, c) := Tmp.Create(fs0, r.ino, LastName(path), Tmp.File);
      if c.Created? {
        FillNewDeveloped(fs1, c.ino, content);
        DevelopedTrans(fs0, fs1, FillNew(fs1, c.ino, content));
      }
    }
  }

  lemma OpenDevelops(v: Vfs, path: string, flags: string)
    requires Inv(v)
    ensures DisksDeveloped(v, Open(v, path, flags).0)
  {
    SameDeveloped(v, v);
    var r := Resolve(v, path);
    if r.Found? {
      ResolveInside(v, path);
      OpenTargetDeveloped(v.disks[r.fs], r.ino, path, flags);
    }
  }

  lemma WriteFdDevelops(v: Vfs, fd: int, data: seq<Byte>)
    requires Inv(v)
    ensures DisksDeveloped(v, WriteFd(v, fd, data).0)
  {
    SameDeveloped(v, v);
    if fd in v.open {
      assert DescriptorOk(v, fd);
      var (f, ino) := Target(v, fd);
      WriteDeveloped(v.disks[f], ino, v.open[fd].position, data);
    }
  }

  lemma MkdirDevelops(v: Vfs, path: string)
    requires Inv(v)
    ensures DisksDeveloped(v, Mkdir(v, path).0)
  {
    SameDeveloped(v, v);
    var r := ResolveParent(v, path);
    if r.Found? {
      CreateDeveloped(v.disks[r.fs], r.ino, LastName(path), Tmp.Dir);
    }
  }

  lemma WritePathDevelops(v: Vfs, path: string, data: seq<Byte>)
    requires Inv(v)
    ensures DisksDeveloped(v, WritePath(v, path, data).0)
  {
    SameDeveloped(v, v);
    var r := Resolve(v, path);
    if r.Found? {
      WriteDeveloped(v.disks[r.fs], r.ino, 0, data);
    } else {
      CreateFileDevelops(v, path, data);
    }
  }

  /** No operation takes anything out of a filesystem. */
  lemma StepDevelops(v: Vfs, op: Op)
    requires Inv(v) && Legal(v, op)
    ensures DisksDeveloped(v, Step(v, op))
  {
    match op
    case OpOpen(path, flags) => OpenDevelops(v, path, flags);
    case OpWrite(fd, data) => WriteFdDevelops(v, fd, data);
    case OpMkdir(path) => MkdirDevelops(v, path);
    case OpCreateFile(path, content) => CreateFileDevelops(v, path, content);
    case OpWritePath(path, data) => WritePathDevelops(v, path, data);
    case OpRead(fd, size) => SameDeveloped(v, Step(v, op));
    case _ => SameDeveloped(v, v);
  }

  lemma WritePathKeepsMounts(v: Vfs, path: string, data: seq<Byte>)
    requires MountsOk(v)
    ensures CreateFile(v, path, data).0.mounts == v.mounts
    ensures WritePath(v, path, data).0.mounts == v.mounts
  {
  }

  lemma OpenKeepsMounts(v: Vfs, path: string, flags: string)
    requires MountsOk(v)
    ensures Open(v, path, flags).0.mounts == v.mounts
  {
  }

  lemma StepKeepsMounts(v: Vfs, op: Op)
    requires MountsOk(v) && !op.OpMount?
    ensures Step(v, op).mounts == v.mounts
  {
    match op
    case OpOpen(path, flags) => OpenKeepsMounts(v, path, flags);
    case OpCreateFile(path, content) => WritePathKeepsMounts(v, path, content);
    case OpWritePath(path, data) => WritePathKeepsMounts(v, path, data);
    case _ =>
  }

  /** The mount is not picked for the path, or leads the rest of it the same way in the same filesystem. */
  ghost predicate SameWay(ms: seq<Mount>, m: Mount, path: string) {
    TakesOver(ms, m, path) ==>
      && Pick(ms, path).Some? && Pick(ms, path).value.fs == m.fs
      && Comps(Rest(m, path)) == Comps(Rest(Pick(ms, path).value, path))
  }

  /** A mount leaves a resolved path's result alone exactly when it leads the same way. */
  lemma MountResolves(v: Vfs, mountpoint: string, f: int, path: string)
    requires Inv(v) && f in v.disks && Resolve(v, path).Found?
    ensures MountsOk(MountAt(v, mountpoint, f))
    ensures Resolve(MountAt(v, mountpoint, f), path) == Resolve(v, path) <==>
              SameWay(v.mounts, Mount(mountpoint, f), path)
  {
    var m := Mount(mountpoint, f);
    var v' := MountAt(v, mountpoint, f);
    AddMountInserts(v.mounts, m);
    PickAfterMount(v.mounts, m, path);
    ResolveIsWalk(v, path);
    ResolveIsWalk(v', path);
    if TakesOver(v.mounts, m, path) && Resolve(v', path) == Resolve(v, path) {
      var up :| Tmp.Tree(v.disks[f], up);
      Tmp.WalkUnique(v.disks[f], up, Comps(Rest(m, path)));
      Tmp.WalkUnique(v.disks[f], up, Comps(Rest(Pick(v.mounts, path).value, path)));
    }
  }

  /** Only a mount can change what a resolved path resolves to. */
  ghost predicate Undisturbed(v: Vfs, op: Op, path: string) {
    op.OpMount? ==> SameWay(v.mounts, Mount(op.path, op.f), path)
  }

  /** One step leaves a resolved path's result alone, unless it is a mount that leads another way. */
  lemma StepResolves(v: Vfs, op: Op, path: string)
    requires Inv(v) && Legal(v, op) && Resolve(v, path).Found?
    ensures MountsOk(Step(v, op))
    ensures Resolve(Step(v, op), path) == Resolve(v, path) <==> Undisturbed(v, op, path)
  {
    StepInv(v, op);
    if op.OpMount? {
      MountResolves(v, op.path, op.f, path);
    } else {
      StepDevelops(v, op);
      StepKeepsMounts(v, op);
      ResolveDeveloped(v, Step(v, op), path);
    }
  }

  lemma ResolveDeveloped(v: Vfs, v': Vfs, path: string)
    requires MountsOk(v) && MountsOk(v') && v'.mounts == v.mounts && DisksDeveloped(v, v')
    requires Resolve(v, path).Found?
    ensures Resolve(v', path) == Resolve(v, path)
  {
    var m := Pick(v.mounts, path).value;
    PickMember(v.mounts, path);
    ResolveIsWalk(v, path);
    ResolveIsWalk(v', path);
    Tmp.WalkStable(v.disks[m.fs], v'.disks[m.fs], Tmp.ROOT, Comps(Rest(m, path)));
  }

  ghost predicate UndisturbedRun(v: Vfs, ops: seq<Op>, path: string)
    requires MountsOk(v) && LegalRun(v, ops)
    decreases |ops|
  {
    ops == [] || (Undisturbed(v, ops[0], path) && UndisturbedRun(Step(v, ops[0]), ops[1..], path))
  }

  /** The path resolves to r in every state of the run. */
  ghost predicate ResolvesThroughout(v: Vfs, ops: seq<Op>, path: string, r: Resolution)
    requires MountsOk(v) && LegalRun(v, ops)
    decreases |ops|
  {
    Resolve(v, path) == r && (ops == [] || ResolvesThroughout(Step(v, ops[0]), ops[1..], path, r))
  }

  /**
   Once a path resolves to an inode, it resolves to the same one in every later state of a run
   exactly when no mount of the run leads it another way.
   */
  lemma {:induction false} ResolutionStable(v: Vfs, ops: seq<Op>, path: string)
    requires Inv(v) && LegalRun(v, ops) && Resolve(v, path).Found?
    ensures ResolvesThroughout(v, ops, path, Resolve(v, path)) <==> UndisturbedRun(v, ops, path)
    ensures Inv(Run(v, ops))
    ensures UndisturbedRun(v, ops, path) ==> Resolve(Run(v, ops), path) == Resolve(v, path)
    decreases |ops|
  {
    if ops != [] {
      StepInv(v, ops[0]);
      StepResolves(v, ops[0], path);
      RunInv(Step(v, ops[0]), ops[1..]);
      if Undisturbed(v, ops[0], path) {
        ResolutionStable(Step(v, ops[0]), ops[1..], path);
      }
    }
  }
}
