/** Address spaces on top of the frames, and the program break on top of both. */
module MemoryModel {
  import opened FrameModel

  const PAGE_SIZE := 4096
  const HEAP_BASE := 0x601000

  /** A virtual memory area [start, end). */
  datatype Vma = Vma(start: int, end: int, flags: string, name: string)

  datatype Mem = Mem(frames: Frames, spaces: map<int, seq<Vma>>)

  // ---------------------------------------------------------------- address spaces

  function DefaultAreas(): seq<Vma> {
    [Vma(0x400000, 0x401000, "r-x", "[text]"),
     Vma(0x600000, 0x601000, "rw-", "[data]"),
     Vma(0x7fff00000000, 0x7fff00100000, "rw-", "[stack]")]
  }

  function CreateSpace(m: Mem, pid: int): Mem {
    m.(spaces := m.spaces[pid := DefaultAreas()])
  }

  /** Forgets the areas; the frames stay allocated. */
  function DestroySpace(m: Mem, pid: int): Mem {
    m.(spaces := m.spaces - {pid})
  }

  function PagesNeeded(size: int): int {
    (size + PAGE_SIZE - 1) / PAGE_SIZE
  }

  function MapPages(m: Mem, pid: int, vaddr: int, size: int, flags: string, name: string): (Mem, bool) {
    if pid !in m.spaces then (m, false)
    else
      var (fs, pages) := AllocPages(m.frames, PagesNeeded(size), pid);
      if pages == [] then (m.(frames := fs), false)
      else (Mem(fs, m.spaces[pid := m.spaces[pid] + [Vma(vaddr, vaddr + size, flags, name)]]), true)
  }

  /** `[a for a in areas if a.start != start]`. */
  function WithoutStart(areas: seq<Vma>, start: int): seq<Vma> {
    if areas == [] then []
    else (if areas[0].start != start then [areas[0]] else []) + WithoutStart(areas[1..], start)
  }

  function UnmapPages(m: Mem, pid: int, vaddr: int): (Mem, bool) {
    if pid !in m.spaces then (m, false)
    else
      var areas := WithoutStart(m.spaces[pid], vaddr);
      (m.(spaces := m.spaces[pid := areas]), |areas| < |m.spaces[pid]|)
  }

  /** A mapping of any size succeeds exactly when the space exists and 1 to `free` pages are needed; a failure changes nothing. */
  lemma MapPagesExact(m: Mem, pid: int, vaddr: int, size: int, flags: string, name: string)
    requires CleanFree(m.frames)
    ensures MapPages(m, pid, vaddr, size, flags, name).1 <==>
              pid in m.spaces && 1 <= PagesNeeded(size) <= |FreeList(m.frames)|
    ensures !MapPages(m, pid, vaddr, size, flags, name).1 ==> MapPages(m, pid, vaddr, size, flags, name).0 == m
    ensures CleanFree(MapPages(m, pid, vaddr, size, flags, name).0.frames)
  {
    var n := PagesNeeded(size);
    AllocPagesExact(m.frames, n, pid);
    AllocKeepsClean(m.frames, n, pid);
    if n <= 0 {
      assert AllocPages(m.frames, n, pid) == (m.frames, []);
    }
  }

  /** The page count is the ceiling of the quotient, for sizes of either sign. */
  lemma PagesNeededCeiling(size: int, n: int)
    ensures PagesNeeded(size) == n <==> (n - 1) * 4096 < size <= n * 4096
  {
  }

  // ---------------------------------------------------------------- frame conservation

  datatype Op =
    | OpCreate(pid: int)
    | OpDestroy(pid: int)
    | OpMap(pid: int, vaddr: int, size: int, flags: string, name: string)
    | OpUnmap(pid: int, vaddr: int)

  function Step(m: Mem, op: Op): Mem {
    match op
    case OpCreate(pid) => CreateSpace(m, pid)
    case OpDestroy(pid) => DestroySpace(m, pid)
    case OpMap(pid, vaddr, size, flags, name) => MapPages(m, pid, vaddr, size, flags, name).0
    case OpUnmap(pid, vaddr) => UnmapPages(m, pid, vaddr).0
  }

  function Run(m: Mem, ops: seq<Op>): Mem
    decreases |ops|
  {
    if ops == [] then m else Run(Step(m, ops[0]), ops[1..])
  }

  /** Pages granted by this operation if it is a successful mapping. */
  ghost function GrantedPages(m: Mem, op: Op): int {
    if op.OpMap? && MapPages(m, op.pid, op.vaddr, op.size, op.flags, op.name).1 then PagesNeeded(op.size) else 0
  }

  /** Sum of the page counts of pid's successful mappings over a run. */
  ghost function MappedPages(m: Mem, ops: seq<Op>, pid: int): int
    decreases |ops|
  {
    if ops == [] then 0
    else (if ops[0].pid == pid then GrantedPages(m, ops[0]) else 0) + MappedPages(Step(m, ops[0]), ops[1..], pid)
  }

  ghost function AllMappedPages(m: Mem, ops: seq<Op>): int
    decreases |ops|
  {
    if ops == [] then 0 else GrantedPages(m, ops[0]) + AllMappedPages(Step(m, ops[0]), ops[1..])
  }

  lemma StepConserves(m: Mem, op: Op, pid: int)
    requires CleanFree(m.frames)
    ensures CleanFree(Step(m, op).frames)
    ensures Owned(Step(m, op).frames, pid) == Owned(m.frames, pid) + if op.pid == pid then GrantedPages(m, op) else 0
    ensures |FreeList(Step(m, op).frames)| == |FreeList(m.frames)| - GrantedPages(m, op)
  {
    match op
    case OpMap(p, vaddr, size, flags, name) =>
      MapPagesExact(m, p, vaddr, size, flags, name);
      if MapPages(m, p, vaddr, size, flags, name).1 {
        AllocLoopOwned(m.frames, PagesNeeded(size), p, [], pid);
      }
    case _ =>
  }

  /**
   Frame conservation: over every run a pid owns what it owned before plus the pages of its
   successful mappings, and the pool shrinks by the same amounts. Unmapping and destroying an
   address space give nothing back.
   */
  lemma {:induction false} FrameConservation(m: Mem, ops: seq<Op>, pid: int)
    requires CleanFree(m.frames)
    ensures CleanFree(Run(m, ops).frames)
    ensures Owned(Run(m, ops).frames, pid) == Owned(m.frames, pid) + MappedPages(m, ops, pid)
    ensures |FreeList(Run(m, ops).frames)| == |FreeList(m.frames)| - AllMappedPages(m, ops)
    decreases |ops|
  {
    if ops != [] {
      StepConserves(m, ops[0], pid);
      FrameConservation(Step(m, ops[0]), ops[1..], pid);
    }
  }

  // ---------------------------------------------------------------- the program break

  datatype HeapState = HeapState(mem: Mem, brk: map<int, int>)

  function CurrentBrk(h: HeapState, pid: int): int {
    if pid in h.brk then h.brk[pid] else HEAP_BASE
  }

  predicate Grows(h: HeapState, pid: int, newBrk: int) {
    newBrk != 0 && newBrk > CurrentBrk(h, pid)
  }

  /** sys_brk moves the break even when the mapping fails. */
  function SysBrk(h: HeapState, pid: int, newBrk: int): (HeapState, int) {
    var current := CurrentBrk(h, pid);
    if newBrk == 0 || newBrk <= current then (h, current)
    else (HeapState(BrkMap(h, pid, newBrk).0, h.brk[pid := newBrk]), newBrk)
  }

  function BrkMap(h: HeapState, pid: int, newBrk: int): (Mem, bool) {
    MapPages(h.mem, pid, CurrentBrk(h, pid), newBrk - CurrentBrk(h, pid), "rw-", "[heap]")
  }

  function HeapAreas(areas: seq<Vma>): seq<Vma> {
    if areas == [] then [] else (if areas[0].name == "[heap]" then [areas[0]] else []) + HeapAreas(areas[1..])
  }

  /** The areas are non-empty and lie end to end from lo to hi, in order. */
  predicate Tiles(areas: seq<Vma>, lo: int, hi: int) {
    if areas == [] then lo == hi
    else areas[0].start == lo && lo < areas[0].end && Tiles(areas[1..], areas[0].end, hi)
  }

  /** The heap areas of pid tile exactly [base, brk). */
  ghost predicate HeapTiled(h: HeapState, pid: int, base: int) {
    pid in h.mem.spaces && Tiles(HeapAreas(h.mem.spaces[pid]), base, CurrentBrk(h, pid))
  }

  lemma {:induction false} HeapAreasAppend(areas: seq<Vma>, a: Vma)
    ensures HeapAreas(areas + [a]) == HeapAreas(areas) + if a.name == "[heap]" then [a] else []
    decreases |areas|
  {
    if areas == [] {
      assert areas + [a] == [a];
      assert [a][1..] == [];
    } else {
      assert (areas + [a])[1..] == areas[1..] + [a] && (areas + [a])[0] == areas[0];
      HeapAreasAppend(areas[1..], a);
      var head := if areas[0].name == "[heap]" then [areas[0]] else [];
      assert HeapAreas(areas + [a]) == head + HeapAreas(areas[1..] + [a]);
    }
  }

  lemma {:induction false} TilesAppend(areas: seq<Vma>, a: Vma, lo: int, mid: int)
    requires Tiles(areas, lo, mid) && a.start == mid < a.end
    ensures Tiles(areas + [a], lo, a.end)
    decreases |areas|
  {
    if areas == [] {
      assert (areas + [a])[1..] == [];
    } else {
      assert (areas + [a])[1..] == areas[1..] + [a];
      TilesAppend(areas[1..], a, areas[0].end, mid);
    }
  }

  lemma {:induction false} TilesEnd(areas: seq<Vma>, lo: int, a: int, b: int)
    requires Tiles(areas, lo, a) && Tiles(areas, lo, b)
    ensures a == b
    decreases |areas|
  {
    if areas != [] {
      TilesEnd(areas[1..], areas[0].end, a, b);
    }
  }

  /** Every address of the tiled range lies in a heap area, and every heap area inside the range. */
  lemma {:induction false} TilesCover(areas: seq<Vma>, lo: int, hi: int, addr: int)
    requires Tiles(areas, lo, hi)
    ensures lo <= hi
    ensures lo <= addr < hi <==> exists a :: a in areas && a.start <= addr < a.end
    decreases |areas|
  {
    if areas != [] {
      TilesCover(areas[1..], areas[0].end, hi, addr);
      assert areas[0] in areas;
    }
  }

  /** Growing the heap keeps the tiling exactly when the mapping succeeds; the break moves either way. */
  lemma BrkTilesExactly(h: HeapState, pid: int, base: int, newBrk: int)
    requires CleanFree(h.mem.frames) && HeapTiled(h, pid, base) && Grows(h, pid, newBrk)
    ensures SysBrk(h, pid, newBrk).1 == newBrk == CurrentBrk(SysBrk(h, pid, newBrk).0, pid)
    ensures HeapTiled(SysBrk(h, pid, newBrk).0, pid, base) <==>
              PagesNeeded(newBrk - CurrentBrk(h, pid)) <= |FreeList(h.mem.frames)|
  {
    var current := CurrentBrk(h, pid);
    var size := newBrk - current;
    var h' := SysBrk(h, pid, newBrk).0;
    MapPagesExact(h.mem, pid, current, size, "rw-", "[heap]");
    PagesNeededCeiling(size, PagesNeeded(size));
    var areas := h.mem.spaces[pid];
    if BrkMap(h, pid, newBrk).1 {
      var a := Vma(current, newBrk, "rw-", "[heap]");
      HeapAreasAppend(areas, a);
      TilesAppend(HeapAreas(areas), a, base, current);
      assert h'.mem.spaces[pid] == areas + [a];
    } else if HeapTiled(h', pid, base) {
      TilesEnd(HeapAreas(areas), base, current, newBrk);
    }
  }

  datatype HeapOp = OpBrk(pid: int, newBrk: int) | OpMem(op: Op)

  function HeapStep(h: HeapState, op: HeapOp): HeapState {
    match op
    case OpBrk(pid, newBrk) => SysBrk(h, pid, newBrk).0
    case OpMem(op) => h.(mem := Step(h.mem, op))
  }

  function HeapRun(h: HeapState, ops: seq<HeapOp>): HeapState
    decreases |ops|
  {
    if ops == [] then h else HeapRun(HeapStep(h, ops[0]), ops[1..])
  }

  /** pid itself only moves its break, and each growth finds enough free frames; others do as they like. */
  ghost predicate OnlyGrows(h: HeapState, ops: seq<HeapOp>, pid: int)
    decreases |ops|
  {
    ops == [] ||
    (&& (ops[0].OpMem? ==> ops[0].op.pid != pid)
     && (ops[0].OpBrk? && ops[0].pid == pid && Grows(h, pid, ops[0].newBrk) ==>
           PagesNeeded(ops[0].newBrk - CurrentBrk(h, pid)) <= |FreeList(h.mem.frames)|)
     && OnlyGrows(HeapStep(h, ops[0]), ops[1..], pid))
  }

  lemma HeapStepTiles(h: HeapState, op: HeapOp, pid: int, base: int)
    requires CleanFree(h.mem.frames) && HeapTiled(h, pid, base)
    requires op.OpMem? ==> op.op.pid != pid
    requires op.OpBrk? && op.pid == pid && Grows(h, pid, op.newBrk) ==>
               PagesNeeded(op.newBrk - CurrentBrk(h, pid)) <= |FreeList(h.mem.frames)|
    ensures CleanFree(HeapStep(h, op).mem.frames) && HeapTiled(HeapStep(h, op), pid, base)
    ensures CurrentBrk(h, pid) <= CurrentBrk(HeapStep(h, op), pid)
  {
    match op
    case OpMem(o) => StepConserves(h.mem, o, pid);
    case OpBrk(p, newBrk) =>
      MapPagesExact(h.mem, p, CurrentBrk(h, p), newBrk - CurrentBrk(h, p), "rw-", "[heap]");
      if p == pid && Grows(h, pid, newBrk) {
        BrkTilesExactly(h, pid, base, newBrk);
      }
  }

  /** Heap tiling over runs: the heap areas always tile [base, brk), and the break never goes back. */
  lemma {:induction false} HeapTiling(h: HeapState, ops: seq<HeapOp>, pid: int, base: int)
    requires CleanFree(h.mem.frames) && HeapTiled(h, pid, base) && OnlyGrows(h, ops, pid)
    ensures HeapTiled(HeapRun(h, ops), pid, base)
    ensures CurrentBrk(h, pid) <= CurrentBrk(HeapRun(h, ops), pid)
    decreases |ops|
  {
    if ops != [] {
      HeapStepTiles(h, ops[0], pid, base);
      HeapTiling(HeapStep(h, ops[0]), ops[1..], pid, base);
    }
  }

  function Recreated(h: HeapState, pid: int): HeapState {
    h.(mem := CreateSpace(h.mem, pid))
  }

  /** A new address space is tiled from exactly the break its pid left behind: the break survives pid reuse. */
  lemma CreateTilesExactly(h: HeapState, pid: int, base: int)
    ensures HeapTiled(Recreated(h, pid), pid, base) <==> base == CurrentBrk(h, pid)
  {
    var areas := DefaultAreas();
    assert HeapAreas(areas) == [] by {
      assert HeapAreas(areas[1..][1..][1..]) == [];
      assert HeapAreas(areas[1..][1..]) == [];
      assert HeapAreas(areas[1..]) == [];
    }
  }

  /** From its creation on, for a new or a recycled pid, an address space's heap areas tile from the break it found. */
  lemma TilingFromCreation(h: HeapState, ops: seq<HeapOp>, pid: int)
    requires CleanFree(h.mem.frames) && OnlyGrows(Recreated(h, pid), ops, pid)
    ensures HeapTiled(HeapRun(Recreated(h, pid), ops), pid, CurrentBrk(h, pid))
    ensures pid !in h.brk ==> CurrentBrk(h, pid) == HEAP_BASE
  {
    CreateTilesExactly(h, pid, CurrentBrk(h, pid));
    HeapTiling(Recreated(h, pid), ops, pid, CurrentBrk(h, pid));
  }
}
