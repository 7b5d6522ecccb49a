/** The in-memory filesystem: numbered inodes, directories as maps from names to numbers. */
module TmpFsModel {
  import opened Prelude
  import opened ByteStrings

  datatype Kind = File | Dir | Symlink | Block | Char | Fifo | Socket

  datatype Inode = Inode(kind: Kind, size: int, data: seq<Byte>, children: map<string, int>)

  datatype Fs = Fs(inodes: map<int, Inode>, next: int)

  const ROOT := 1
  const ENOENT := -2
  const EINVAL := -22

  // ---------------------------------------------------------------- operations

  function NewInode(kind: Kind): Inode {
    Inode(kind, 0, [], map[])
  }

  /** A new filesystem has only its root directory, inode 1. */
  function Empty(): Fs {
    Fs(map[ROOT := NewInode(Dir)], 2)
  }

  predicate IsDir(fs: Fs, ino: int) {
    ino in fs.inodes && fs.inodes[ino].kind == Dir
  }

  function LookupName(fs: Fs, parent: int, name: string): Option<int> {
    if IsDir(fs, parent) && name in fs.inodes[parent].children && fs.inodes[parent].children[name] in fs.inodes
    then Some(fs.inodes[parent].children[name])
    else None
  }

  /** The parent is no directory (ValueError), or has an entry of that name (FileExistsError). */
  datatype CreateResult = Created(ino: int) | NotADirectory | AlreadyExists

  function Create(fs: Fs, parent: int, name: string, kind: Kind): (Fs, CreateResult) {
    if !IsDir(fs, parent) then (fs, NotADirectory)
    else if name in fs.inodes[parent].children then (fs, AlreadyExists)
    else (Insert(fs, parent, name, kind), Created(fs.next))
  }

  function Insert(fs: Fs, parent: int, name: string, kind: Kind): Fs
    requires parent in fs.inodes
  {
    var withChild := fs.inodes[fs.next := NewInode(kind)];
    var dir := withChild[parent];
    Fs(withChild[parent := dir.(children := dir.children[name := fs.next])], fs.next + 1)
  }

  function Read(fs: Fs, ino: int, offset: int, size: int): seq<Byte> {
    if ino !in fs.inodes || fs.inodes[ino].kind != File then []
    else Slice(fs.inodes[ino].data, offset, offset + size)
  }

  /** Pad with zeros up to the offset, then overwrite. */
  function Overwrite(was: seq<Byte>, offset: int, data: seq<Byte>): seq<Byte> {
    var padded := if offset > |was| then was + Zeros(offset - |was|) else was;
    Slice(padded, 0, offset) + data + Slice(padded, offset + |data|, |padded|)
  }

  function Write(fs: Fs, ino: int, offset: int, data: seq<Byte>): (Fs, int) {
    if ino !in fs.inodes then (fs, ENOENT)
    else if fs.inodes[ino].kind != File then (fs, EINVAL)
    else
      var d := Overwrite(fs.inodes[ino].data, offset, data);
      (fs.(inodes := fs.inodes[ino := fs.inodes[ino].(data := d, size := |d|)]), |data|)
  }

  /** Follow names down from an inode. */
  function Walk(fs: Fs, ino: int, names: seq<string>): Option<int>
    decreases |names|
  {
    if names == [] then Some(ino)
    else
      match LookupName(fs, ino, names[0])
      case None => None
      case Some(child) => Walk(fs, child, names[1..])
  }

  // ---------------------------------------------------------------- the inode tree

  /** For every inode but the root, the directory it was created in and its name there. */
  type Parents = map<int, (int, string)>

  /**
   The children maps form a tree rooted at inode 1: inodes are numbered 1..next-1, `up` gives the
   one entry that leads to each of them, and it lies in a directory with a smaller number. Sizes
   and data agree, and only directories have children, only files have data.
   */
  ghost predicate Tree(fs: Fs, up: Parents) {
    && fs.next >= 2
    && (forall i :: i in fs.inodes <==> 1 <= i < fs.next)
    && fs.inodes[ROOT].kind == Dir
    && (forall i :: i in up <==> 2 <= i < fs.next)
    && (forall p, name :: p in fs.inodes && name in fs.inodes[p].children ==>
          var c := fs.inodes[p].children[name]; c in up && up[c] == (p, name))
    && (forall c :: c in up ==> Above(fs, up[c], c))
    && (forall i :: i in fs.inodes ==> Shape(fs.inodes[i]))
  }

  /** The entry `at` is that of inode c, in a directory older than c. */
  ghost predicate Above(fs: Fs, at: (int, string), c: int) {
    IsDir(fs, at.0) && at.0 < c && at.1 in fs.inodes[at.0].children && fs.inodes[at.0].children[at.1] == c
  }

  ghost predicate Shape(node: Inode) {
    && node.size == |node.data|
    && (node.kind != Dir ==> node.children == map[])
    && (node.kind != File ==> node.data == [])
  }

  ghost predicate IsTree(fs: Fs) {
    exists up :: Tree(fs, up)
  }

  lemma EmptyTree()
    ensures Tree(Empty(), map[])
  {
  }

  /** An inode before and after an entry was made: only its parent gains the one entry. */
  ghost predicate Inserted(was: Inode, now: Inode, isParent: bool, name: string, c: int) {
    now == was.(children := if isParent then was.children[name := c] else was.children)
  }

  lemma InsertExactly(fs: Fs, parent: int, name: string, kind: Kind)
    requires parent in fs.inodes && fs.next !in fs.inodes
    ensures var fs' := Insert(fs, parent, name, kind);
            && fs'.next == fs.next + 1 && fs'.inodes.Keys == fs.inodes.Keys + {fs.next}
            && fs'.inodes[fs.next] == NewInode(kind)
            && forall i :: i in fs.inodes ==> Inserted(fs.inodes[i], fs'.inodes[i], i == parent, name, fs.next)
  {
  }

  lemma InsertAbove(fs: Fs, up: Parents, parent: int, name: string, kind: Kind, c: int)
    requires Tree(fs, up) && IsDir(fs, parent) && name !in fs.inodes[parent].children
    requires 2 <= c <= fs.next
    ensures Above(Insert(fs, parent, name, kind), up[fs.next := (parent, name)][c], c)
  {
    InsertExactly(fs, parent, name, kind);
    if c != fs.next {
      assert Above(fs, up[c], c);
      assert Inserted(fs.inodes[up[c].0], Insert(fs, parent, name, kind).inodes[up[c].0], up[c].0 == parent, name, fs.next);
    } else {
      assert Inserted(fs.inodes[parent], Insert(fs, parent, name, kind).inodes[parent], true, name, fs.next);
    }
  }

  lemma InsertTree(fs: Fs, up: Parents, parent: int, name: string, kind: Kind)
    requires Tree(fs, up) && IsDir(fs, parent) && name !in fs.inodes[parent].children
    ensures Tree(Insert(fs, parent, name, kind), up[fs.next := (parent, name)])
  {
    var fs' := Insert(fs, parent, name, kind);
    var up' := up[fs.next := (parent, name)];
    InsertExactly(fs, parent, name, kind);
    forall c | c in up' ensures Above(fs', up'[c], c) {
      InsertAbove(fs, up, parent, name, kind, c);
    }
    forall i | i in fs'.inodes ensures Shape(fs'.inodes[i]) {
      InsertShape(fs, up, parent, name, kind, i);
    }
    forall p, n | p in fs'.inodes && n in fs'.inodes[p].children
      ensures var c := fs'.inodes[p].children[n]; c in up' && up'[c] == (p, n)
    {
      if p != fs.next {
        assert Inserted(fs.inodes[p], fs'.inodes[p], p == parent, name, fs.next);
      }
    }
    assert Inserted(fs.inodes[ROOT], fs'.inodes[ROOT], ROOT == parent, name, fs.next);
  }

  lemma InsertShape(fs: Fs, up: Parents, parent: int, name: string, kind: Kind, i: int)
    requires Tree(fs, up) && IsDir(fs, parent) && i in Insert(fs, parent, name, kind).inodes
    ensures Shape(Insert(fs, parent, name, kind).inodes[i])
  {
    InsertExactly(fs, parent, name, kind);
    if i != fs.next {
      assert Inserted(fs.inodes[i], Insert(fs, parent, name, kind).inodes[i], i == parent, name, fs.next);
      assert Shape(fs.inodes[i]);
    }
  }

  lemma CreateTree(fs: Fs, up: Parents, parent: int, name: string, kind: Kind) returns (up': Parents)
    requires Tree(fs, up)
    ensures Tree(Create(fs, parent, name, kind).0, up')
  {
    if IsDir(fs, parent) && name !in fs.inodes[parent].children {
      InsertTree(fs, up, parent, name, kind);
      up' := up[fs.next := (parent, name)];
    } else {
      up' := up;
    }
  }

  lemma WriteTree(fs: Fs, up: Parents, ino: int, offset: int, data: seq<Byte>)
    requires Tree(fs, up)
    ensures Tree(Write(fs, ino, offset, data).0, up)
  {
    var fs' := Write(fs, ino, offset, data).0;
    forall c | c in up ensures Above(fs', up[c], c) {
      assert Above(fs, up[c], c);
    }
  }

  // ---------------------------------------------------------------- every reachable filesystem

  datatype Op =
    | OpCreate(parent: int, name: string, kind: Kind)
    | OpWrite(ino: int, offset: int, data: seq<Byte>)

  function Step(fs: Fs, op: Op): Fs {
    match op
    case OpCreate(p, n, k) => Create(fs, p, n, k).0
    case OpWrite(i, o, d) => Write(fs, i, o, d).0
  }

  function Run(fs: Fs, ops: seq<Op>): Fs
    decreases |ops|
  {
    if ops == [] then fs else Run(Step(fs, ops[0]), ops[1..])
  }

  lemma StepTree(fs: Fs, op: Op)
    requires IsTree(fs)
    ensures IsTree(Step(fs, op))
  {
    var up :| Tree(fs, up);
    match op {
      case OpCreate(p, n, k) => var up' := CreateTree(fs, up, p, n, k);
      case OpWrite(i, o, d) => WriteTree(fs, up, i, o, d);
    }
  }

  lemma {:induction false} RunTree(fs: Fs, ops: seq<Op>)
    requires IsTree(fs)
    ensures IsTree(Run(fs, ops))
    decreases |ops|
  {
    if ops != [] {
      StepTree(fs, ops[0]);
      RunTree(Step(fs, ops[0]), ops[1..]);
    }
  }

  // ---------------------------------------------------------------- paths and inodes

  /** The names on the way from the root down to an inode. */
  ghost function PathOf(fs: Fs, up: Parents, ino: int): seq<string>
    requires Tree(fs, up) && ino in fs.inodes
    decreases ino
  {
    if ino == ROOT then []
    else
      assert Above(fs, up[ino], ino);
      PathOf(fs, up, up[ino].0) + [up[ino].1]
  }

  lemma {:induction false} WalkConcat(fs: Fs, ino: int, a: seq<string>, b: seq<string>)
    ensures Walk(fs, ino, a + b) ==
            match Walk(fs, ino, a) case None => None case Some(mid) => Walk(fs, mid, b)
    decreases |a|
  {
    if a == [] {
      assert a + b == b;
    } else {
      assert (a + b)[0] == a[0] && (a + b)[1..] == a[1..] + b;
      match LookupName(fs, ino, a[0])
      case None =>
      case Some(child) => WalkConcat(fs, child, a[1..], b);
    }
  }

  lemma WalkOne(fs: Fs, ino: int, name: string)
    ensures Walk(fs, ino, [name]) == LookupName(fs, ino, name)
  {
    assert [name][1..] == [];
  }

  /** Walking an inode's path from the root arrives at it. */
  lemma {:induction false} WalkPathOf(fs: Fs, up: Parents, ino: int)
    requires Tree(fs, up) && ino in fs.inodes
    ensures Walk(fs, ROOT, PathOf(fs, up, ino)) == Some(ino)
    decreases ino
  {
    if ino != ROOT {
      var (p, name) := up[ino];
      assert Above(fs, up[ino], ino);
      WalkPathOf(fs, up, p);
      WalkConcat(fs, ROOT, PathOf(fs, up, p), [name]);
      WalkOne(fs, p, name);
    }
  }

  /** Whatever a walk from the root arrives at, the names walked are that inode's path. */
  lemma {:induction false} WalkUnique(fs: Fs, up: Parents, names: seq<string>)
    requires Tree(fs, up) && Walk(fs, ROOT, names).Some?
    ensures Walk(fs, ROOT, names).value in fs.inodes
    ensures names == PathOf(fs, up, Walk(fs, ROOT, names).value)
    decreases |names|
  {
    if names != [] {
      var k := |names| - 1;
      assert names == names[..k] + [names[k]];
      WalkConcat(fs, ROOT, names[..k], [names[k]]);
      WalkUnique(fs, up, names[..k]);
      var p := Walk(fs, ROOT, names[..k]).value;
      WalkOne(fs, p, names[k]);
      var c := fs.inodes[p].children[names[k]];
      assert c in up && up[c] == (p, names[k]);
    }
  }

  /** Paths and inodes are in bijection: a walk reaches an inode exactly along its own path. */
  lemma PathInodeBijection(fs: Fs, up: Parents, names: seq<string>, ino: int)
    requires Tree(fs, up) && ino in fs.inodes
    ensures Walk(fs, ROOT, names) == Some(ino) <==> names == PathOf(fs, up, ino)
  {
    WalkPathOf(fs, up, ino);
    if Walk(fs, ROOT, names) == Some(ino) {
      WalkUnique(fs, up, names);
    }
  }

  /** Every non-root inode of a reachable filesystem has exactly one directory entry, in an older directory. */
  lemma OneEntryEach(ops: seq<Op>, ino: int)
    requires ino in Run(Empty(), ops).inodes && ino != ROOT
    ensures exists p, name :: Above(Run(Empty(), ops), (p, name), ino)
    ensures forall p, name, q, other ::
              Above(Run(Empty(), ops), (p, name), ino) && Above(Run(Empty(), ops), (q, other), ino) ==>
              p == q && name == other
  {
    EmptyTree();
    RunTree(Empty(), ops);
    var fs := Run(Empty(), ops);
    var up :| Tree(fs, up);
    var (p, name) := up[ino];
    assert Above(fs, (p, name), ino);
  }

  // ---------------------------------------------------------------- growth

  /** Nothing is ever unlinked or replaced: kinds stay, entries stay. */
  ghost predicate Grows(a: Fs, b: Fs) {
    a.next <= b.next && forall i :: i in a.inodes ==> i in b.inodes && GrownNode(a.inodes[i], b.inodes[i])
  }

  ghost predicate GrownNode(was: Inode, now: Inode) {
    && now.kind == was.kind
    && forall n :: n in was.children ==> n in now.children && now.children[n] == was.children[n]
  }

  lemma CreateGrows(fs: Fs, parent: int, name: string, kind: Kind)
    requires IsTree(fs)
    ensures Grows(fs, Create(fs, parent, name, kind).0)
  {
    if Create(fs, parent, name, kind).1.Created? {
      var up :| Tree(fs, up);
      InsertExactly(fs, parent, name, kind);
      var fs' := Create(fs, parent, name, kind).0;
      forall i | i in fs.inodes ensures GrownNode(fs.inodes[i], fs'.inodes[i]) {
        assert Inserted(fs.inodes[i], fs'.inodes[i], i == parent, name, fs.next);
        assert Shape(fs.inodes[i]);
      }
    }
  }

  lemma WriteGrows(fs: Fs, ino: int, offset: int, data: seq<Byte>)
    ensures Grows(fs, Write(fs, ino, offset, data).0)
  {
  }

  lemma GrowsTrans(a: Fs, b: Fs, c: Fs)
    requires Grows(a, b) && Grows(b, c)
    ensures Grows(a, c)
  {
  }

  /** A walk that succeeds keeps succeeding with the same result. */
  lemma {:induction false} WalkStable(a: Fs, b: Fs, ino: int, names: seq<string>)
    requires Grows(a, b) && Walk(a, ino, names).Some?
    ensures Walk(b, ino, names) == Walk(a, ino, names)
    decreases |names|
  {
    if names != [] {
      WalkStable(a, b, LookupName(a, ino, names[0]).value, names[1..]);
    }
  }

  // ---------------------------------------------------------------- one call

  /** A lookup finds exactly the existing inode that a directory lists under the name. */
  lemma LookupExactly(fs: Fs, parent: int, name: string, c: int)
    ensures LookupName(fs, parent, name) == Some(c) <==>
              && parent in fs.inodes && fs.inodes[parent].kind == Dir
              && name in fs.inodes[parent].children && fs.inodes[parent].children[name] == c && c in fs.inodes
  {
  }

  /** A creation is refused when the parent is no directory, or else when it has an entry of that name, and then changes nothing. */
  lemma CreateExactly(fs: Fs, parent: int, name: string, kind: Kind)
    requires fs.next !in fs.inodes
    ensures var (fs', r) := Create(fs, parent, name, kind);
            var isDir := parent in fs.inodes && fs.inodes[parent].kind == Dir;
            && (r == NotADirectory <==> !isDir)
            && (r == AlreadyExists <==> isDir && name in fs.inodes[parent].children)
            && (!r.Created? ==> fs' == fs)
            && (r.Created? ==>
                  && r.ino == fs.next && fs'.next == fs.next + 1 && fs'.inodes.Keys == fs.inodes.Keys + {r.ino}
                  && fs'.inodes[r.ino] == Inode(kind, 0, [], map[])
                  && (forall i :: i in fs.inodes && i != parent ==> fs'.inodes[i] == fs.inodes[i])
                  && fs'.inodes[parent] == fs.inodes[parent].(children := fs.inodes[parent].children[name := r.ino]))
  {
  }

  /** A write is refused with -2 for a missing inode and -22 for one that is no file; else only its bytes and size change. */
  lemma WriteExactly(fs: Fs, ino: int, offset: int, data: seq<Byte>)
    ensures var (fs', n) := Write(fs, ino, offset, data);
            && (n == -2 <==> ino !in fs.inodes)
            && (n == -22 <==> ino in fs.inodes && fs.inodes[ino].kind != File)
            && (n < 0 ==> fs' == fs && (n == -2 || n == -22))
            && (n >= 0 ==>
                  && n == |data| && fs'.next == fs.next && fs'.inodes.Keys == fs.inodes.Keys
                  && (forall i :: i in fs.inodes && i != ino ==> fs'.inodes[i] == fs.inodes[i])
                  && fs'.inodes[ino].kind == File && fs'.inodes[ino].children == fs.inodes[ino].children
                  && fs'.inodes[ino].size == |fs'.inodes[ino].data|)
  {
  }

  /** Only a regular file reads anything, from an offset inside it at most what is left. */
  lemma ReadExactly(fs: Fs, ino: int, offset: nat, size: nat)
    ensures ino !in fs.inodes || fs.inodes[ino].kind != File ==> Read(fs, ino, offset, size) == []
    ensures ino in fs.inodes && fs.inodes[ino].kind == File ==>
              var (d, r) := (fs.inodes[ino].data, Read(fs, ino, offset, size));
              && (offset >= |d| ==> r == [])
              && (offset < |d| ==> r == d[offset..if offset + size < |d| then offset + size else |d|])
  {
    if ino in fs.inodes {
      SliceForward(fs.inodes[ino].data, offset, offset + size);
    }
  }

  // ---------------------------------------------------------------- contents

  /** A write at an offset inside the file is a pointwise overlay of length max(old, offset + n). */
  lemma OverwriteOverlays(was: seq<Byte>, offset: int, data: seq<Byte>)
    requires 0 <= offset <= |was|
    ensures |Overwrite(was, offset, data)| == if offset + |data| > |was| then offset + |data| else |was|
    ensures forall k :: 0 <= k < |Overwrite(was, offset, data)| ==>
              Overwrite(was, offset, data)[k] == if offset <= k < offset + |data| then data[k - offset] else was[k]
  {
    assert Slice(was, 0, offset) == was[..offset];
  }

  /** Past the end the gap is filled with zeros. */
  lemma OverwriteFills(was: seq<Byte>, offset: int, data: seq<Byte>)
    requires offset > |was|
    ensures Overwrite(was, offset, data) == was + Zeros(offset - |was|) + data
  {
    var padded := was + Zeros(offset - |was|);
    assert Slice(padded, 0, offset) == padded;
  }

  /** Reading back what was just written gives it back. */
  lemma ReadAfterWrite(fs: Fs, ino: int, offset: int, data: seq<Byte>)
    requires offset >= 0 && Write(fs, ino, offset, data).1 >= 0
    ensures Read(Write(fs, ino, offset, data).0, ino, offset, |data|) == data
  {
    var was := fs.inodes[ino].data;
    var d := Overwrite(was, offset, data);
    if offset <= |was| {
      OverwriteOverlays(was, offset, data);
    } else {
      OverwriteFills(was, offset, data);
    }
    assert |d| >= offset + |data| && d[offset..offset + |data|] == data;
  }
}
