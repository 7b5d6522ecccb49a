/** Which inodes can be reached by path strings, through any table of canonical mounts. */
module VfsReach {
  import opened Prelude
  import opened Paths
  import opened MountModel
  import opened VfsModel
  import opened VfsResolve
  import Tmp = TmpFsModel

  // ---------------------------------------------------------------- by the canonical path

  /** No mount lies further along the components than m. */
  ghost predicate NoLonger(ms: seq<Mount>, m: Mount, cs: seq<string>) {
    forall x :: x in ms && Comps(x.path) <= cs ==> |Comps(x.path)| <= |Comps(m.path)|
  }

  /** A path that resolves to an inode leaves exactly that inode's names below the mount. */
  lemma NamesLeft(v: Vfs, path: string, f: int, up: Tmp.Parents, ino: int)
    requires MountsOk(v) && f in v.disks && Tmp.Tree(v.disks[f], up) && ino in v.disks[f].inodes
    requires Resolve(v, path) == Found(f, ino)
    ensures Pick(v.mounts, path).Some? && Pick(v.mounts, path).value in v.mounts
    ensures Pick(v.mounts, path).value.fs == f
    ensures Comps(Rest(Pick(v.mounts, path).value, path)) == Tmp.PathOf(v.disks[f], up, ino)
    ensures ValidNames(Tmp.PathOf(v.disks[f], up, ino))
  {
    PickMember(v.mounts, path);
    var rest := Rest(Pick(v.mounts, path).value, path);
    ResolveIsWalk(v, path);
    Tmp.WalkUnique(v.disks[f], up, Comps(rest));
    CompsValid(rest);
  }

  /**
   The canonical path of an inode below a mount leads to it exactly when the names on the way are
   non-empty and slash-free and no longer mount claims the path.
   */
  lemma CanonicalPathReaches(v: Vfs, m: Mount, up: Tmp.Parents, ino: int)
    requires MountsOk(v) && Canonical(v.mounts) && m in v.mounts
    requires Tmp.Tree(v.disks[m.fs], up) && ino in v.disks[m.fs].inodes
    ensures var names := Tmp.PathOf(v.disks[m.fs], up, ino);
            var cs := Comps(m.path) + names;
            Resolve(v, Render(cs)) == Found(m.fs, ino) <==> ValidNames(names) && NoLonger(v.mounts, m, cs)
  {
    var names := Tmp.PathOf(v.disks[m.fs], up, ino);
    var cs := Comps(m.path) + names;
    if Resolve(v, Render(cs)) == Found(m.fs, ino) {
      NamesLeft(v, Render(cs), m.fs, up, ino);
    }
    if ValidNames(names) {
      CompsValid(m.path);
      PickIsLongest(v.mounts, Render(cs), cs);
      if NoLonger(v.mounts, m, cs) {
        assert Longest(v.mounts, cs, m);
        PickedWalk(v, Render(cs), cs, m);
        assert cs[|Comps(m.path)|..] == names;
        Tmp.WalkPathOf(v.disks[m.fs], up, ino);
      } else if Resolve(v, Render(cs)) == Found(m.fs, ino) {
        var b := Pick(v.mounts, Render(cs)).value;
        assert Longest(v.mounts, cs, b);
        MatchIsPrefix(Render(cs), cs, Comps(b.path));
      }
    }
  }

  // ---------------------------------------------------------------- by any string

  lemma {:induction false} NoDoubleSlash(cs: seq<string>, i: nat)
    requires ValidNames(cs) && i + 1 < |Slashed(cs)|
    ensures Slashed(cs)[i] != '/' || Slashed(cs)[i + 1] != '/'
    decreases |cs|
  {
    var name, rest := cs[0], Slashed(cs[1..]);
    assert Slashed(cs) == "/" + name + rest;
    if i < |name| {
      assert Slashed(cs)[i + 1] == name[i];
    } else if i == |name| {
      assert Slashed(cs)[i] == name[i - 1];
    } else {
      assert Slashed(cs)[i] == rest[i - 1 - |name|] && Slashed(cs)[i + 1] == rest[i - |name|];
      NoDoubleSlash(cs[1..], i - 1 - |name|);
    }
  }

  /** The names below a mount, behind a doubled slash that no mountpoint can match beyond. */
  function Doubled(m: Mount, names: seq<string>): string {
    RStrip(m.path) + "/" + Render(names)
  }

  /** A slashed prefix of a string cannot reach across a doubled slash. */
  lemma BeforeDouble(d: string, k: nat, xcs: seq<string>)
    requires k + 1 < |d| && d[k] == '/' && d[k + 1] == '/'
    requires ValidNames(xcs) && xcs != [] && Slashed(xcs) <= d
    ensures |Slashed(xcs)| <= k
  {
    var b := Slashed(xcs);
    SlashedComps(xcs);
    if |b| >= k + 2 {
      assert b[k] == d[k] && b[k + 1] == d[k + 1];
      NoDoubleSlash(xcs, k);
    }
  }

  lemma DoubledShape(m: Mount, names: seq<string>)
    requires ValidNames(names)
    ensures var (d, k) := (Doubled(m, names), |RStrip(m.path)|);
            k + 1 < |d| && d[..k] == RStrip(m.path) && d[..k + 1] == RStrip(m.path) + "/"
            && d[k] == '/' && d[k + 1] == '/'
  {
    RenderComps(names);
  }

  lemma DoubledMatch(m: Mount, names: seq<string>, x: Mount)
    requires ValidNames(names) && ValidNames(Comps(m.path)) && m.path == Render(Comps(m.path))
    requires ValidNames(Comps(x.path)) && x.path == Render(Comps(x.path))
    requires Matches(Doubled(m, names), x.path)
    ensures |x.path| < |m.path| || x.path == m.path
  {
    var (mcs, xcs, d) := (Comps(m.path), Comps(x.path), Doubled(m, names));
    RenderRStrip(mcs);
    DoubledShape(m, names);
    if xcs != [] {
      RenderRStrip(xcs);
      assert x.path <= d;
      BeforeDouble(d, |RStrip(m.path)|, xcs);
      if |x.path| == |RStrip(m.path)| {
        assert x.path == RStrip(m.path);
      }
    }
  }

  lemma DoubledRest(m: Mount, names: seq<string>)
    requires ValidNames(names) && ValidNames(Comps(m.path)) && m.path == Render(Comps(m.path))
    ensures Comps(Rest(m, Doubled(m, names))) == names
  {
    var d := Doubled(m, names);
    RenderRStrip(Comps(m.path));
    RenderComps(names);
    CompsSlash(Render(names));
    if Comps(m.path) == [] {
      assert Drop(d, 1) == Render(names);
    } else {
      assert Drop(d, |m.path|) == "/" + Render(names);
    }
  }

  lemma DoubledPick(ms: seq<Mount>, m: Mount, names: seq<string>)
    requires Sorted(ms) && Canonical(ms) && m in ms && ValidNames(names)
    ensures Pick(ms, Doubled(m, names)) == Some(m)
  {
    var d := Doubled(m, names);
    var i :| 0 <= i < |ms| && ms[i] == m;
    DoubledShape(m, names);
    assert Matches(d, m.path);
    var k := FirstMatch(ms, d);
    PickFirst(ms, d, None, k);
    MatchNotBefore(ms, d, k, i);
    assert ms[k] in ms;
    DoubledMatch(m, names, ms[k]);
  }

  /**
   Some string resolves to an inode exactly when its filesystem is mounted and every name on the way
   to it is non-empty and slash-free: other mounts hide no file from every path.
   */
  lemma ReachableByPathExactly(v: Vfs, f: int, up: Tmp.Parents, ino: int)
    requires MountsOk(v) && Canonical(v.mounts)
    requires f in v.disks && Tmp.Tree(v.disks[f], up) && ino in v.disks[f].inodes
    ensures (exists path :: Resolve(v, path) == Found(f, ino)) <==>
              ValidNames(Tmp.PathOf(v.disks[f], up, ino)) && exists m :: m in v.mounts && m.fs == f
  {
    var names := Tmp.PathOf(v.disks[f], up, ino);
    if path :| Resolve(v, path) == Found(f, ino) {
      NamesLeft(v, path, f, up, ino);
    }
    if m :| ValidNames(names) && m in v.mounts && m.fs == f {
      DoubledPick(v.mounts, m, names);
      DoubledRest(m, names);
      ResolveIsWalk(v, Doubled(m, names));
      Tmp.WalkPathOf(v.disks[f], up, ino);
      assert Resolve(v, Doubled(m, names)) == Found(f, ino);
    }
  }
}
