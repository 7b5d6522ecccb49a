/** The memory managers as objects: page frames flipped in place, one area list per address space. */
module MemoryClass {
  import opened Prelude
  import opened FrameModel
  import MemoryModel

  class Page {
    const pfn: nat
    var inUse: bool
    var ownerPid: int

    constructor (pfn: nat)
      ensures this.pfn == pfn && !inUse && ownerPid == 0
    {
      this.pfn := pfn;
      inUse := false;
      ownerPid := 0;
    }

    function State(): Frame
      reads this
    {
      Frame(inUse, ownerPid)
    }
  }

  function FramesOf(ps: seq<Page>): (r: Frames)
    reads ps
    ensures |r| == |ps| && forall k :: 0 <= k < |ps| ==> r[k] == ps[k].State()
  {
    seq(|ps|, i requires 0 <= i < |ps| reads ps => ps[i].State())
  }

  class PhysicalMemoryManager {
    const totalPages: nat
    const pages: seq<Page>

    ghost predicate Valid() {
      && |pages| == totalPages
      && forall k :: 0 <= k < |pages| ==> pages[k].pfn == k
    }

    ghost function View(): Frames
      reads pages
    {
      FramesOf(pages)
    }

    constructor (totalPages: nat)
      ensures Valid() && fresh(pages) && this.totalPages == totalPages
      ensures CleanFree(View()) && |FreeList(View())| == totalPages
    {
      var ps: seq<Page> := [];
      for i := 0 to totalPages
        invariant |ps| == i && fresh(ps)
        invariant forall k :: 0 <= k < i ==> ps[k].pfn == k && ps[k].State() == Frame(false, 0)
      {
        var p := new Page(i);
        ps := ps + [p];
      }
      this.totalPages := totalPages;
      pages := ps;
      new;
      AllFree(View(), 0);
    }

    static lemma {:induction false} AllFree(fs: Frames, i: nat)
      requires i <= |fs| && forall k :: 0 <= k < |fs| ==> !fs[k].inUse
      ensures |FreeFrom(fs, i)| == |fs| - i
      decreases |fs| - i
    {
      if i < |fs| {
        AllFree(fs, i + 1);
      }
    }

    method FreePages() returns (count: nat)
      requires Valid()
      ensures count == |FreeList(View())|
    {
      count := 0;
      var i := |pages|;
      assert FreeFrom(View(), |pages|) == [];
      while i > 0
        invariant 0 <= i <= |pages| && count == |FreeFrom(View(), i)|
      {
        i := i - 1;
        if !pages[i].inUse {
          count := count + 1;
        }
      }
    }

    method AllocPage(pid: int) returns (page: Page?)
      requires Valid()
      modifies pages
      ensures page != null ==> page in pages
      ensures (View(), if page == null then None else Some(page.pfn)) == FrameModel.AllocPage(old(View()), pid)
    {
      var i := 0;
      while i < |pages|
        invariant 0 <= i <= |pages|
        invariant forall k :: 0 <= k < i ==> pages[k].inUse
        invariant View() == old(View())
      {
        if !pages[i].inUse {
          assert FirstFree(View()) == i;
          pages[i].inUse := true;
          pages[i].ownerPid := pid;
          assert View() == old(View())[i := Frame(true, pid)];
          return pages[i];
        }
        i := i + 1;
      }
      return null;
    }

    method FreePage(pfn: int)
      requires Valid()
      modifies pages
      ensures View() == FrameModel.FreePage(old(View()), pfn)
    {
      if 0 <= pfn < totalPages {
        pages[pfn].inUse := false;
        pages[pfn].ownerPid := 0;
        assert View() == old(View())[pfn := Frame(false, 0)];
      }
    }

    /** The rollback of a batch that ran out of frames. */
    method FreeEach(taken: seq<Page>)
      requires Valid()
      modifies pages
      ensures View() == FreeAll(old(View()), Pfns(taken))
    {
      for i := 0 to |taken|
        invariant FreeAll(View(), Pfns(taken)[i..]) == FreeAll(old(View()), Pfns(taken))
      {
        assert Pfns(taken)[i..][0] == taken[i].pfn;
        assert Pfns(taken)[i..][1..] == Pfns(taken)[i + 1..];
        FreePage(taken[i].pfn);
      }
    }

    method AllocPages(n: int, pid: int) returns (result: seq<Page>)
      requires Valid()
      modifies pages
      ensures forall p :: p in result ==> p in pages
      ensures (View(), Pfns(result)) == FrameModel.AllocPages(old(View()), n, pid)
    {
      result := [];
      var left := n;
      ghost var (fs, got) := (View(), Pfns(result));
      while left > 0
        invariant forall p :: p in result ==> p in pages
        invariant View() == fs && Pfns(result) == got
        invariant AllocLoop(fs, left, pid, got) == FrameModel.AllocPages(old(View()), n, pid)
        decreases left
      {
        var p := AllocPage(pid);
        AllocLoopStep(fs, left, pid, got, View(), if p == null then None else Some(p.pfn));
        if p == null {
          FreeEach(result);
          return [];
        }
        result := AddPage(result, p);
        left := left - 1;
        fs, got := View(), got + [p.pfn];
      }
    }
  }

  function Pfns(ps: seq<Page>): (r: seq<nat>)
    ensures |r| == |ps|
  {
    seq(|ps|, i requires 0 <= i < |ps| => ps[i].pfn)
  }

  function AddPage(ps: seq<Page>, p: Page): (r: seq<Page>)
    ensures Pfns(r) == Pfns(ps) + [p.pfn] && forall q :: q in r ==> q in ps || q == p
  {
    ps + [p]
  }

  type Vma = MemoryModel.Vma

  class AddressSpace {
    const pid: int
    var areas: seq<Vma>

    constructor (pid: int)
      ensures this.pid == pid && areas == []
    {
      this.pid := pid;
      areas := [];
    }

    method MapArea(start: int, size: int, flags: string, name: string)
      modifies this
      ensures areas == old(areas) + [MemoryModel.Vma(start, start + size, flags, name)]
    {
      areas := areas + [MemoryModel.Vma(start, start + size, flags, name)];
    }

    method Unmap(start: int) returns (removed: bool)
      modifies this
      ensures areas == MemoryModel.WithoutStart(old(areas), start)
      ensures removed == (|areas| < |old(areas)|)
    {
      var kept: seq<Vma> := [];
      var i := |areas|;
      assert areas[|areas|..] == [];
      while i > 0
        invariant 0 <= i <= |areas| && areas == old(areas)
        invariant kept == MemoryModel.WithoutStart(areas[i..], start)
      {
        i := i - 1;
        assert areas[i..] == [areas[i]] + areas[i + 1..];
        if areas[i].start != start {
          kept := [areas[i]] + kept;
        }
      }
      assert areas[0..] == areas;
      removed := |kept| < |areas|;
      areas := kept;
    }
  }

  class VirtualMemoryManager {
    const pmm: PhysicalMemoryManager
    var addressSpaces: map<int, AddressSpace>

    ghost predicate Valid()
      reads this
    {
      && pmm.Valid()
      && forall p :: p in addressSpaces ==> addressSpaces[p].pid == p
    }

    ghost function View(): MemoryModel.Mem
      reads this, addressSpaces.Values, pmm.pages
    {
      MemoryModel.Mem(pmm.View(), map p | p in addressSpaces :: addressSpaces[p].areas)
    }

    constructor (pmm: PhysicalMemoryManager)
      requires pmm.Valid()
      ensures Valid() && this.pmm == pmm && addressSpaces == map[]
      ensures View() == MemoryModel.Mem(pmm.View(), map[])
    {
      this.pmm := pmm;
      addressSpaces := map[];
    }

    static method DefaultSpace(pid: int) returns (space: AddressSpace)
      ensures fresh(space) && space.pid == pid && space.areas == MemoryModel.DefaultAreas()
    {
      space := new AddressSpace(pid);
      space.MapArea(0x400000, 0x1000, "r-x", "[text]");
      space.MapArea(0x600000, 0x1000, "rw-", "[data]");
      space.MapArea(0x7fff00000000, 0x100000, "rw-", "[stack]");
    }

    /** Writing one address space leaves the areas of all the others alone. */
    twostate lemma OneSpaceChanged(pid: int)
      requires addressSpaces == old(addressSpaces) && pid in addressSpaces
      requires forall p :: p in addressSpaces ==> addressSpaces[p].pid == p
      requires forall p :: p in addressSpaces && addressSpaces[p] != addressSpaces[pid] ==>
                 addressSpaces[p].areas == old(addressSpaces[p].areas)
      ensures View().spaces == old(View()).spaces[pid := addressSpaces[pid].areas]
    {
      forall p | p in addressSpaces && p != pid
        ensures View().spaces[p] == old(View()).spaces[p]
      {
        assert addressSpaces[p].pid == p && addressSpaces[pid].pid == pid;
      }
    }

    method CreateAddressSpace(pid: int) returns (space: AddressSpace)
      requires Valid()
      modifies this
      ensures Valid() && fresh(space) && addressSpaces == old(addressSpaces)[pid := space]
      ensures View() == MemoryModel.CreateSpace(old(View()), pid)
    {
      space := DefaultSpace(pid);
      addressSpaces := addressSpaces[pid := space];
    }

    method DestroyAddressSpace(pid: int)
      requires Valid()
      modifies this
      ensures Valid() && addressSpaces == old(addressSpaces) - {pid}
      ensures View() == MemoryModel.DestroySpace(old(View()), pid)
    {
      addressSpaces := addressSpaces - {pid};
    }

    method MapPages(pid: int, vaddr: int, size: int, flags: string, name: string) returns (ok: bool)
      requires Valid()
      modifies addressSpaces.Values, pmm.pages
      ensures Valid()
      ensures (View(), ok) == MemoryModel.MapPages(old(View()), pid, vaddr, size, flags, name)
    {
      if pid !in addressSpaces {
        return false;
      }
      var space := addressSpaces[pid];
      var pagesNeeded := (size + MemoryModel.PAGE_SIZE - 1) / MemoryModel.PAGE_SIZE;
      var pages := pmm.AllocPages(pagesNeeded, pid);
      if pages == [] {
        assert View().spaces == old(View()).spaces;
        return false;
      }
      space.MapArea(vaddr, size, flags, name);
      OneSpaceChanged(pid);
      return true;
    }

    method UnmapPages(pid: int, vaddr: int) returns (ok: bool)
      requires Valid()
      modifies addressSpaces.Values
      ensures Valid()
      ensures (View(), ok) == MemoryModel.UnmapPages(old(View()), pid, vaddr)
    {
      if pid !in addressSpaces {
        return false;
      }
      ok := addressSpaces[pid].Unmap(vaddr);
      OneSpaceChanged(pid);
    }
  }
}
