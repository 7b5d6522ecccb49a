/** The in-memory filesystem as an object: a dictionary of inode objects changed in place. */
module TmpFsClass {
  import opened Prelude
  import opened ByteStrings
  import opened TmpFsModel

  class InodeObject {
    const ino: int
    const kind: Kind
    /** Number of the filesystem the inode was created in. */
    ghost const home: int
    var size: int
    var data: seq<Byte>
    var children: map<string, int>

    constructor (ino: int, kind: Kind, ghost home: int)
      ensures this.ino == ino && this.kind == kind && this.home == home
      ensures View() == NewInode(kind)
    {
      this.ino := ino;
      this.kind := kind;
      this.home := home;
      size := 0;
      data := [];
      children := map[];
    }

    ghost function View(): Inode
      reads this
    {
      Inode(kind, size, data, children)
    }
  }

  class TmpFs {
    /** Tells filesystems apart. */
    const id: int
    var inodes: map<int, InodeObject>
    var nextIno: int
    /** The filesystem as a value, and the objects that represent it. */
    ghost var state: Fs
    ghost var nodes: set<InodeObject>

    ghost predicate Valid()
      reads this, nodes
    {
      && (forall i :: i in inodes ==>
            inodes[i] in nodes && i < nextIno && inodes[i].ino == i && inodes[i].home == id)
      && (forall n :: n in nodes ==> n.home == id)
      && state.next == nextIno
      && state.inodes.Keys == inodes.Keys
      && (forall i :: i in inodes ==> state.inodes[i] == inodes[i].View())
    }

    constructor (id: int)
      ensures Valid() && fresh(nodes) && this.id == id && state == Empty()
    {
      this.id := id;
      var root := new InodeObject(ROOT, Dir, id);
      inodes := map[ROOT := root];
      nextIno := 2;
      state := Empty();
      nodes := {root};
    }

    /** The inode object with a number, if there is one. */
    method Lookup(ino: int) returns (node: InodeObject?)
      requires Valid()
      ensures node != null <==> ino in state.inodes
      ensures node != null ==> node in nodes && node == inodes[ino] && node.View() == state.inodes[ino]
    {
      return if ino in inodes then inodes[ino] else null;
    }

    method LookupChild(parent: int, name: string) returns (child: Option<int>)
      requires Valid()
      ensures child == LookupName(state, parent, name)
    {
      if parent !in inodes || inodes[parent].kind != Dir {
        return None;
      }
      if name !in inodes[parent].children || inodes[parent].children[name] !in inodes {
        return None;
      }
      var c := inodes[parent].children[name];
      assert inodes[c].ino == c;
      return Some(inodes[c].ino);
    }

    method NewInodeObject(kind: Kind) returns (node: InodeObject)
      requires Valid()
      modifies this
      ensures Valid() && fresh(node) && nodes == old(nodes) + {node} && node.ino == old(nextIno) && node.kind == kind
      ensures inodes == old(inodes)[old(nextIno) := node] && nextIno == old(nextIno) + 1
      ensures state == Fs(old(state).inodes[old(nextIno) := NewInode(kind)], old(nextIno) + 1)
    {
      node := new InodeObject(nextIno, kind, id);
      inodes := inodes[nextIno := node];
      nodes := nodes + {node};
      state := Fs(state.inodes[nextIno := NewInode(kind)], nextIno + 1);
      nextIno := nextIno + 1;
    }

    method Create(parent: int, name: string, kind: Kind) returns (r: CreateResult)
      requires Valid()
      modifies this, nodes
      ensures Valid() && fresh(nodes - old(nodes)) && old(nodes) <= nodes
      ensures (state, r) == TmpFsModel.Create(old(state), parent, name, kind)
    {
      if parent !in inodes || inodes[parent].kind != Dir {
        return NotADirectory;
      }
      var dir := inodes[parent];
      if name in dir.children {
        return AlreadyExists;
      }
      var child := NewInodeObject(kind);
      AddEntry(parent, name, child.ino);
      return Created(child.ino);
    }

    /** `parent.children[name] = child`. */
    method AddEntry(parent: int, name: string, child: int)
      requires Valid() && parent in inodes
      modifies `state, nodes
      ensures Valid()
      ensures parent in old(state).inodes
      ensures var dir := old(state).inodes[parent];
              state == old(state).(inodes := old(state).inodes[parent := dir.(children := dir.children[name := child])])
    {
      var dir := inodes[parent];
      forall i | i in inodes && i != parent ensures inodes[i] != dir {
        assert inodes[i].ino == i && dir.ino == parent;
      }
      dir.children := dir.children[name := child];
      state := state.(inodes := state.inodes[parent := dir.View()]);
    }

    method Read(ino: int, offset: int, size: int) returns (data: seq<Byte>)
      requires Valid()
      ensures data == TmpFsModel.Read(state, ino, offset, size)
    {
      if ino !in inodes || inodes[ino].kind != File {
        return [];
      }
      return Slice(inodes[ino].data, offset, offset + size);
    }

    method Write(ino: int, offset: int, data: seq<Byte>) returns (n: int)
      requires Valid()
      modifies `state, nodes
      ensures Valid()
      ensures (state, n) == TmpFsModel.Write(old(state), ino, offset, data)
    {
      if ino !in inodes {
        return ENOENT;
      }
      var node := inodes[ino];
      if node.kind != File {
        return EINVAL;
      }
      forall i | i in inodes && i != ino ensures inodes[i] != node {
        assert inodes[i].ino == i && node.ino == ino;
      }
      var bytes := node.data;
      if offset > |bytes| {
        bytes := bytes + Zeros(offset - |bytes|);
      }
      bytes := Slice(bytes, 0, offset) + data + Slice(bytes, offset + |data|, |bytes|);
      node.data, node.size := bytes, |bytes|;
      state := state.(inodes := state.inodes[ino := node.View()]);
      return |data|;
    }

    /** `inode.size = size`. */
    method SetSize(ino: int, size: int)
      requires Valid() && ino in inodes
      modifies `state, nodes
      ensures Valid()
      ensures ino in old(state).inodes
      ensures state == old(state).(inodes := old(state).inodes[ino := old(state).inodes[ino].(size := size)])
    {
      var node := inodes[ino];
      forall i | i in inodes && i != ino ensures inodes[i] != node {
        assert inodes[i].ino == i && node.ino == ino;
      }
      node.size := size;
      state := state.(inodes := state.inodes[ino := node.View()]);
    }
  }
}
