/** What each memory operation answers, which areas it leaves and what one call undoes. */
module MemorySteps {
  import opened FrameModel
  import opened MemoryModel

  /** The areas of no space but pid's change. */
  ghost predicate OnlySpace(m: Mem, m': Mem, pid: int) {
    && m'.spaces.Keys - {pid} == m.spaces.Keys - {pid}
    && forall p :: p in m.spaces && p in m'.spaces && p != pid ==> m'.spaces[p] == m.spaces[p]
  }

  // ---------------------------------------------------------------- unmapping

  /** `kept` is what is left of `areas`, in order, when exactly the areas at start are dropped; `from` says where each was. */
  ghost predicate Kept(areas: seq<Vma>, start: int, kept: seq<Vma>, from: seq<int>) {
    && |from| == |kept|
    && (forall i :: 0 <= i < |from| ==> 0 <= from[i] < |areas| && kept[i] == areas[from[i]] && kept[i].start != start)
    && (forall i, j :: 0 <= i < j < |from| ==> from[i] < from[j])
    && (forall k :: 0 <= k < |areas| && areas[k].start != start ==> k in from)
  }

  lemma {:induction false} WithoutStartKeeps(areas: seq<Vma>, start: int) returns (from: seq<int>)
    ensures Kept(areas, start, WithoutStart(areas, start), from)
    decreases |areas|
  {
    if areas == [] {
      from := [];
    } else {
      var (a, tail) := (areas[0], areas[1..]);
      var rest := WithoutStartKeeps(tail, start);
      assert areas == [a] + tail;
      if a.start == start {
        KeptDrop(a, tail, start, WithoutStart(tail, start), rest);
        assert WithoutStart(areas, start) == WithoutStart(tail, start);
        from := Shift(rest);
      } else {
        KeptTake(a, tail, start, WithoutStart(tail, start), rest);
        from := [0] + Shift(rest);
      }
    }
  }

  function Shift(xs: seq<int>): (r: seq<int>)
    ensures |r| == |xs| && forall i :: 0 <= i < |xs| ==> r[i] == xs[i] + 1
  {
    seq(|xs|, i requires 0 <= i < |xs| => xs[i] + 1)
  }

  lemma ShiftMember(xs: seq<int>, x: int)
    requires x in xs
    ensures x + 1 in Shift(xs)
  {
    var i :| 0 <= i < |xs| && xs[i] == x;
    assert Shift(xs)[i] == x + 1;
  }

  lemma KeptDrop(a: Vma, tail: seq<Vma>, start: int, kept: seq<Vma>, rest: seq<int>)
    requires a.start == start && Kept(tail, start, kept, rest)
    ensures Kept([a] + tail, start, kept, Shift(rest))
  {
    var areas, from := [a] + tail, Shift(rest);
    forall i | 0 <= i < |from|
      ensures 0 <= from[i] < |areas| && kept[i] == areas[from[i]] && kept[i].start != start
    {
      assert areas[rest[i] + 1] == tail[rest[i]];
    }
    forall k | 0 <= k < |areas| && areas[k].start != start ensures k in from {
      assert areas[k] == tail[k - 1];
      ShiftMember(rest, k - 1);
    }
  }

  lemma KeptTake(a: Vma, tail: seq<Vma>, start: int, kept: seq<Vma>, rest: seq<int>)
    requires a.start != start && Kept(tail, start, kept, rest)
    ensures Kept([a] + tail, start, [a] + kept, [0] + Shift(rest))
  {
    var areas, from, all := [a] + tail, [0] + Shift(rest), [a] + kept;
    forall i | 0 <= i < |from|
      ensures 0 <= from[i] < |areas| && all[i] == areas[from[i]] && all[i].start != start
    {
      if i > 0 {
        assert all[i] == kept[i - 1];
        assert areas[rest[i - 1] + 1] == tail[rest[i - 1]];
      }
    }
    ShiftIncreasing(rest);
    forall k | 0 <= k < |areas| && areas[k].start != start ensures k in from {
      TakenStays(a, tail, start, rest, k);
    }
  }

  lemma ShiftIncreasing(rest: seq<int>)
    requires forall i, j :: 0 <= i < j < |rest| ==> rest[i] < rest[j]
    requires forall i :: 0 <= i < |rest| ==> rest[i] >= 0
    ensures var from := [0] + Shift(rest); forall i, j :: 0 <= i < j < |from| ==> from[i] < from[j]
  {
  }

  lemma TakenStays(a: Vma, tail: seq<Vma>, start: int, rest: seq<int>, k: nat)
    requires k < |[a] + tail| && ([a] + tail)[k].start != start
    requires forall j :: 0 <= j < |tail| && tail[j].start != start ==> j in rest
    ensures k in [0] + Shift(rest)
  {
    if k > 0 {
      assert ([a] + tail)[k] == tail[k - 1];
      ShiftMember(rest, k - 1);
      assert k in Shift(rest);
    }
  }

  /** An area stays exactly if it starts elsewhere, and as often as it was there. */
  lemma {:induction false} WithoutStartMembers(areas: seq<Vma>, start: int)
    ensures forall a :: multiset(WithoutStart(areas, start))[a] == if a.start == start then 0 else multiset(areas)[a]
    ensures forall a :: a in WithoutStart(areas, start) <==> a in areas && a.start != start
    ensures |WithoutStart(areas, start)| <= |areas|
    ensures |WithoutStart(areas, start)| == |areas| <==> forall a :: a in areas ==> a.start != start
    decreases |areas|
  {
    if areas != [] {
      WithoutStartMembers(areas[1..], start);
      assert areas == [areas[0]] + areas[1..];
      assert forall a :: a in areas <==> a == areas[0] || a in areas[1..];
    }
  }

  /**
   Unmapping answers whether some area of the pid starts there. Afterwards none does, every other area
   of the pid is still there, and no other space, no frame and no failed call changes anything.
   */
  lemma UnmapExactly(m: Mem, pid: int, vaddr: int)
    ensures var (m', ok) := UnmapPages(m, pid, vaddr);
            && (ok <==> pid in m.spaces && exists a :: a in m.spaces[pid] && a.start == vaddr)
            && (!ok ==> m' == m)
            && m'.frames == m.frames && m'.spaces.Keys == m.spaces.Keys && OnlySpace(m, m', pid)
            && (pid in m.spaces ==>
                  forall a :: multiset(m'.spaces[pid])[a] == if a.start == vaddr then 0 else multiset(m.spaces[pid])[a])
  {
    if pid in m.spaces {
      WithoutStartMembers(m.spaces[pid], vaddr);
      UnmapNothing(m, pid, vaddr);
    }
  }

  lemma UnmapNothing(m: Mem, pid: int, vaddr: int)
    requires pid in m.spaces
    ensures (forall a :: a in m.spaces[pid] ==> a.start != vaddr) ==> UnmapPages(m, pid, vaddr) == (m, false)
  {
    if forall a :: a in m.spaces[pid] ==> a.start != vaddr {
      NothingThere(m.spaces[pid], vaddr);
      assert m.spaces[pid := m.spaces[pid]] == m.spaces;
    }
  }

  /** What unmapping leaves is in its old order. */
  lemma UnmapKeepsOrder(m: Mem, pid: int, vaddr: int) returns (from: seq<int>)
    requires pid in m.spaces
    ensures pid in UnmapPages(m, pid, vaddr).0.spaces
    ensures Kept(m.spaces[pid], vaddr, UnmapPages(m, pid, vaddr).0.spaces[pid], from)
  {
    from := WithoutStartKeeps(m.spaces[pid], vaddr);
  }

  lemma {:induction false} NothingThere(areas: seq<Vma>, start: int)
    requires forall a :: a in areas ==> a.start != start
    ensures WithoutStart(areas, start) == areas
    decreases |areas|
  {
    if areas != [] {
      assert areas[0] in areas;
      NothingThere(areas[1..], start);
      assert areas == [areas[0]] + areas[1..];
    }
  }

  lemma {:induction false} WithoutStartConcat(a: seq<Vma>, b: seq<Vma>, start: int)
    ensures WithoutStart(a + b, start) == WithoutStart(a, start) + WithoutStart(b, start)
    decreases |a|
  {
    if a == [] {
      assert a + b == b;
    } else {
      assert (a + b)[0] == a[0] && (a + b)[1..] == a[1..] + b;
      WithoutStartConcat(a[1..], b, start);
    }
  }

  // ---------------------------------------------------------------- mapping

  /** A successful mapping adds one area with the given extent, flags and name, last in its space, and a failed one nothing. */
  lemma MapExactly(m: Mem, pid: int, vaddr: int, size: int, flags: string, name: string)
    requires CleanFree(m.frames)
    ensures var (m', ok) := MapPages(m, pid, vaddr, size, flags, name);
            && (!ok ==> m' == m)
            && m'.spaces.Keys == m.spaces.Keys && OnlySpace(m, m', pid)
            && (ok ==>
                  && pid in m.spaces && |m'.spaces[pid]| == |m.spaces[pid]| + 1
                  && m'.spaces[pid][..|m.spaces[pid]|] == m.spaces[pid]
                  && var a := m'.spaces[pid][|m.spaces[pid]|];
                     a.start == vaddr && a.end - a.start == size && a.flags == flags && a.name == name)
  {
    MapPagesExact(m, pid, vaddr, size, flags, name);
  }

  /** Unmapping undoes a mapping at a start not in use, but for the frames, which stay taken. */
  lemma UnmapUndoesMap(m: Mem, pid: int, vaddr: int, size: int, flags: string, name: string)
    requires MapPages(m, pid, vaddr, size, flags, name).1
    requires pid in m.spaces && forall a :: a in m.spaces[pid] ==> a.start != vaddr
    ensures var m1 := MapPages(m, pid, vaddr, size, flags, name).0;
            UnmapPages(m1, pid, vaddr) == (m1.(spaces := m.spaces), true)
  {
    var m1 := MapPages(m, pid, vaddr, size, flags, name).0;
    var (areas, a) := (m.spaces[pid], Vma(vaddr, vaddr + size, flags, name));
    assert m1.spaces[pid] == areas + [a];
    WithoutStartConcat(areas, [a], vaddr);
    NothingThere(areas, vaddr);
    assert [a][1..] == [];
    assert WithoutStart(areas + [a], vaddr) == areas;
    assert m1.spaces[pid := areas] == m.spaces;
  }

  // ---------------------------------------------------------------- address spaces

  /** A new space has text, data and stack, apart from each other, executable or writable but never both. */
  lemma CreateExactly(m: Mem, pid: int)
    ensures var m' := CreateSpace(m, pid);
            && m'.frames == m.frames && m'.spaces.Keys == m.spaces.Keys + {pid} && OnlySpace(m, m', pid)
            && var areas := m'.spaces[pid];
               && |areas| == 3 && (areas[0].name, areas[1].name, areas[2].name) == ("[text]", "[data]", "[stack]")
               && (areas[0].start, areas[1].start, areas[2].start) == (0x400000, 0x600000, 0x7fff00000000)
               && areas[0].end == 0x401000 && areas[1].end == 0x601000 && areas[2].end == 0x7fff00100000
               && areas[0].flags == "r-x" && areas[1].flags == areas[2].flags == "rw-"
               && areas[0].end <= areas[1].start && areas[1].end == HEAP_BASE <= areas[2].start
  {
  }

  /** Destroying forgets one space and frees no frame. */
  lemma DestroyExactly(m: Mem, pid: int)
    ensures var m' := DestroySpace(m, pid);
            && m'.frames == m.frames && pid !in m'.spaces
            && m'.spaces.Keys == m.spaces.Keys - {pid} && OnlySpace(m, m', pid)
  {
  }

  // ---------------------------------------------------------------- the break

  /**
   brk answers the break it leaves: the old one, with nothing changed, for 0 or no growth, and otherwise
   the new one. Nobody else's break or areas change; a growth that found frames adds one heap area
   from the old break to the new.
   */
  lemma BrkExactly(h: HeapState, pid: int, newBrk: int)
    requires CleanFree(h.mem.frames)
    ensures var (h', r) := SysBrk(h, pid, newBrk);
            && r == CurrentBrk(h', pid) && CurrentBrk(h, pid) <= r
            && (newBrk == 0 || newBrk <= CurrentBrk(h, pid) ==> h' == h)
            && (newBrk != 0 && newBrk > CurrentBrk(h, pid) ==> r == newBrk)
            && (forall p :: p != pid ==> CurrentBrk(h', p) == CurrentBrk(h, p))
            && h'.mem.spaces.Keys == h.mem.spaces.Keys && OnlySpace(h.mem, h'.mem, pid)
            && (h'.mem != h.mem ==>
                  && pid in h.mem.spaces && |h'.mem.spaces[pid]| == |h.mem.spaces[pid]| + 1
                  && h'.mem.spaces[pid][..|h.mem.spaces[pid]|] == h.mem.spaces[pid]
                  && var a := h'.mem.spaces[pid][|h.mem.spaces[pid]|];
                     a.start == CurrentBrk(h, pid) && a.end == r && a.flags == "rw-" && a.name == "[heap]")
    ensures pid !in h.brk ==> CurrentBrk(h, pid) == 0x601000
  {
    MapExactly(h.mem, pid, CurrentBrk(h, pid), newBrk - CurrentBrk(h, pid), "rw-", "[heap]");
  }

  // ---------------------------------------------------------------- frames

  /** Freeing resets the one frame of that number, and nothing for a number out of range. */
  lemma FreeExactly(fs: Frames, pfn: int)
    ensures var fs' := FreePage(fs, pfn);
            && |fs'| == |fs|
            && forall k :: 0 <= k < |fs| ==> if k == pfn then !fs'[k].inUse && fs'[k].owner == 0 else fs'[k] == fs[k]
  {
  }
}
