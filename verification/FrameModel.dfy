/** Physical frames: first-fit allocation, and batches that either succeed or leave no trace. */
module FrameModel {
  import opened Prelude

  datatype Frame = Frame(inUse: bool, owner: int)

  type Frames = seq<Frame>

  // ---------------------------------------------------------------- operations

  /** Index of the first free frame, or the number of frames when there is none. */
  function FirstFree(fs: Frames): (i: nat)
    ensures i <= |fs|
    ensures i < |fs| ==> !fs[i].inUse
    ensures forall k :: 0 <= k < i ==> fs[k].inUse
  {
    if fs == [] || !fs[0].inUse then 0 else 1 + FirstFree(fs[1..])
  }

  function AllocPage(fs: Frames, pid: int): (r: (Frames, Option<nat>))
    ensures |r.0| == |fs| && (r.1.Some? ==> r.1.value < |fs|)
  {
    var i := FirstFree(fs);
    if i < |fs| then (fs[i := Frame(true, pid)], Some(i)) else (fs, None)
  }

  function FreePage(fs: Frames, pfn: int): Frames {
    if 0 <= pfn < |fs| then fs[pfn := Frame(false, 0)] else fs
  }

  function FreeAll(fs: Frames, pfns: seq<nat>): Frames
    decreases |pfns|
  {
    if pfns == [] then fs else FreeAll(FreePage(fs, pfns[0]), pfns[1..])
  }

  /** The loop of alloc_pages with `got` already taken and n frames to go. */
  function AllocLoop(fs: Frames, n: int, pid: int, got: seq<nat>): (Frames, seq<nat>)
    decreases n
  {
    if n <= 0 then (fs, got)
    else
      match AllocPage(fs, pid)
      case (_, None) => (FreeAll(fs, got), [])
      case (fs', Some(p)) => AllocLoop(fs', n - 1, pid, got + [p])
  }

  lemma AllocLoopStep(fs: Frames, n: int, pid: int, got: seq<nat>, fs': Frames, p: Option<nat>)
    requires n > 0 && (fs', p) == AllocPage(fs, pid)
    ensures AllocLoop(fs, n, pid, got) ==
              match p case None => (FreeAll(fs, got), []) case Some(i) => AllocLoop(fs', n - 1, pid, got + [i])
  {
  }

  function AllocPages(fs: Frames, n: int, pid: int): (Frames, seq<nat>) {
    AllocLoop(fs, n, pid, [])
  }

  // ---------------------------------------------------------------- what the operations mean

  /** The free frame numbers from i on, in ascending order. */
  function FreeFrom(fs: Frames, i: nat): seq<nat>
    requires i <= |fs|
    decreases |fs| - i
  {
    if i == |fs| then [] else (if fs[i].inUse then [] else [i]) + FreeFrom(fs, i + 1)
  }

  function FreeList(fs: Frames): seq<nat> {
    FreeFrom(fs, 0)
  }

  /** Free frames are owned by nobody. */
  ghost predicate CleanFree(fs: Frames) {
    forall k :: 0 <= k < |fs| && !fs[k].inUse ==> fs[k].owner == 0
  }

  /** The frames after pid has been given exactly the frames in `taken`. */
  ghost predicate Granted(before: Frames, after: Frames, taken: seq<nat>, pid: int) {
    && |after| == |before|
    && forall k :: 0 <= k < |before| ==> after[k] == if k in taken then Frame(true, pid) else before[k]
  }

  /** The free list is what its name says: ascending, and exactly the free frames. */
  lemma {:induction false} FreeFromContents(fs: Frames, i: nat)
    requires i <= |fs|
    ensures forall k :: k in FreeFrom(fs, i) <==> i <= k < |fs| && !fs[k].inUse
    ensures forall a, b :: 0 <= a < b < |FreeFrom(fs, i)| ==> FreeFrom(fs, i)[a] < FreeFrom(fs, i)[b]
    decreases |fs| - i
  {
    if i < |fs| {
      FreeFromContents(fs, i + 1);
      var rest := FreeFrom(fs, i + 1);
      forall b | 0 <= b < |rest| ensures i < rest[b] {
        assert rest[b] in rest;
      }
    }
  }

  lemma {:induction false} FreeFromSkip(fs: Frames, i: nat, j: nat)
    requires i <= j <= |fs| && forall k :: i <= k < j ==> fs[k].inUse
    ensures FreeFrom(fs, i) == FreeFrom(fs, j)
    decreases j - i
  {
    if i < j {
      FreeFromSkip(fs, i + 1, j);
    }
  }

  lemma {:induction false} FreeFromSame(fs: Frames, gs: Frames, i: nat)
    requires |fs| == |gs| && i <= |fs| && forall k :: i <= k < |fs| ==> fs[k].inUse == gs[k].inUse
    ensures FreeFrom(fs, i) == FreeFrom(gs, i)
    decreases |fs| - i
  {
    if i < |fs| {
      FreeFromSame(fs, gs, i + 1);
    }
  }

  /** One allocation takes the head of the free list. */
  lemma AllocPageTakesHead(fs: Frames, pid: int)
    ensures FreeList(fs) == [] <==> AllocPage(fs, pid).1.None?
    ensures FreeList(fs) != [] ==>
              && AllocPage(fs, pid).1 == Some(FreeList(fs)[0])
              && FreeList(AllocPage(fs, pid).0) == FreeList(fs)[1..]
              && Granted(fs, AllocPage(fs, pid).0, [FreeList(fs)[0]], pid)
  {
    var i := FirstFree(fs);
    FreeFromSkip(fs, 0, i);
    if i < |fs| {
      var gs := fs[i := Frame(true, pid)];
      FreeFromSkip(gs, 0, i + 1);
      FreeFromSame(fs, gs, i + 1);
    }
  }

  /** Freeing a list of frames resets exactly those. */
  lemma {:induction false} FreeAllContents(fs: Frames, pfns: seq<nat>)
    requires forall p :: p in pfns ==> p < |fs|
    ensures |FreeAll(fs, pfns)| == |fs|
    ensures forall k :: 0 <= k < |fs| ==> FreeAll(fs, pfns)[k] == if k in pfns then Frame(false, 0) else fs[k]
    decreases |pfns|
  {
    if pfns != [] {
      assert pfns[0] in pfns && forall p :: p in pfns[1..] ==> p in pfns;
      FreeAllContents(FreePage(fs, pfns[0]), pfns[1..]);
      assert forall k :: k in pfns <==> k == pfns[0] || k in pfns[1..];
    }
  }

  lemma GrantedTrans(a: Frames, b: Frames, c: Frames, xs: seq<nat>, ys: seq<nat>, pid: int)
    requires Granted(a, b, xs, pid) && Granted(b, c, ys, pid)
    ensures Granted(a, c, xs + ys, pid)
  {
  }

  /** One round of the loop started in `fs0`: the head of the free list moves over to `got`. */
  lemma AllocRound(fs0: Frames, fs: Frames, pid: int, got: seq<nat>)
    requires Granted(fs0, fs, got, pid) && FreeList(fs0) == got + FreeList(fs) && FreeList(fs) != []
    ensures AllocPage(fs, pid).1.Some?
    ensures var (fs', p) := AllocPage(fs, pid);
            && Granted(fs0, fs', got + [p.value], pid)
            && FreeList(fs0) == (got + [p.value]) + FreeList(fs')
            && |FreeList(fs')| == |FreeList(fs)| - 1
  {
    AllocPageTakesHead(fs, pid);
    var p := FreeList(fs)[0];
    GrantedTrans(fs0, fs, AllocPage(fs, pid).0, got, [p], pid);
    assert got + FreeList(fs) == (got + [p]) + FreeList(fs)[1..];
  }

  lemma {:induction false} AllocLoopSucceeds(fs0: Frames, fs: Frames, n: int, pid: int, got: seq<nat>)
    requires Granted(fs0, fs, got, pid) && FreeList(fs0) == got + FreeList(fs)
    requires 0 <= n <= |FreeList(fs)|
    ensures AllocLoop(fs, n, pid, got).1 == FreeList(fs0)[..|got| + n]
    ensures Granted(fs0, AllocLoop(fs, n, pid, got).0, AllocLoop(fs, n, pid, got).1, pid)
    decreases n
  {
    if n == 0 {
      assert FreeList(fs0)[..|got|] == got;
    } else {
      AllocRound(fs0, fs, pid, got);
      var (fs', p) := AllocPage(fs, pid);
      AllocLoopSucceeds(fs0, fs', n - 1, pid, got + [p.value]);
    }
  }

  lemma {:induction false} AllocLoopFails(fs0: Frames, fs: Frames, n: int, pid: int, got: seq<nat>)
    requires Granted(fs0, fs, got, pid) && FreeList(fs0) == got + FreeList(fs)
    requires n > |FreeList(fs)|
    ensures AllocLoop(fs, n, pid, got).1 == []
    ensures |AllocLoop(fs, n, pid, got).0| == |fs0|
    ensures forall k :: 0 <= k < |fs0| ==>
              AllocLoop(fs, n, pid, got).0[k] == if fs0[k].inUse then fs0[k] else Frame(false, 0)
    decreases n
  {
    if FreeList(fs) == [] {
      AllocPageTakesHead(fs, pid);
      assert got == FreeList(fs0);
      FreeFromContents(fs0, 0);
      FreeAllContents(fs, got);
    } else {
      AllocRound(fs0, fs, pid, got);
      var (fs', p) := AllocPage(fs, pid);
      AllocLoopFails(fs0, fs', n - 1, pid, got + [p.value]);
    }
  }

  /**
   alloc_pages is atomic first fit: it hands out exactly the n lowest free frames in ascending
   order and touches nothing else, or, when fewer are free, returns [] and restores every frame.
   */
  lemma AllocPagesExact(fs: Frames, n: int, pid: int)
    ensures n <= |FreeList(fs)| ==>
              && AllocPages(fs, n, pid).1 == FreeList(fs)[..if n <= 0 then 0 else n]
              && Granted(fs, AllocPages(fs, n, pid).0, AllocPages(fs, n, pid).1, pid)
    ensures n > |FreeList(fs)| ==> AllocPages(fs, n, pid).1 == []
    ensures n > |FreeList(fs)| ==> (AllocPages(fs, n, pid).0 == fs <==> CleanFree(fs))
  {
    assert [] + FreeList(fs) == FreeList(fs);
    if 0 <= n <= |FreeList(fs)| {
      AllocLoopSucceeds(fs, fs, n, pid, []);
    }
    if n > |FreeList(fs)| {
      AllocLoopFails(fs, fs, n, pid, []);
      var gs := AllocPages(fs, n, pid).0;
      if CleanFree(fs) {
        assert forall k :: 0 <= k < |fs| ==> gs[k] == fs[k];
      } else {
        var k :| 0 <= k < |fs| && !fs[k].inUse && fs[k].owner != 0;
        assert gs[k] != fs[k];
      }
    }
  }

  /** Allocation keeps free frames ownerless, whatever pid it is done for; so does freeing. */
  lemma AllocKeepsClean(fs: Frames, n: int, pid: int)
    requires CleanFree(fs)
    ensures CleanFree(AllocPages(fs, n, pid).0)
  {
    AllocPagesExact(fs, n, pid);
  }

  lemma FreeKeepsClean(fs: Frames, pfn: int)
    requires CleanFree(fs)
    ensures CleanFree(FreePage(fs, pfn))
  {
  }

  /** A batch followed by freeing each of its frames leaves the memory as it was. */
  lemma FreeInvertsAlloc(fs: Frames, n: int, pid: int)
    requires CleanFree(fs)
    ensures FreeAll(AllocPages(fs, n, pid).0, AllocPages(fs, n, pid).1) == fs
  {
    AllocPagesExact(fs, n, pid);
    var (gs, taken) := AllocPages(fs, n, pid);
    FreeFromContents(fs, 0);
    forall p | p in taken ensures p < |gs| && !fs[p].inUse {
      assert p in FreeList(fs);
    }
    FreeAllContents(gs, taken);
  }

  // ---------------------------------------------------------------- counting

  /** How many frames in use belong to pid. */
  ghost function Owned(fs: Frames, pid: int): nat {
    if fs == [] then 0 else (if fs[0].inUse && fs[0].owner == pid then 1 else 0) + Owned(fs[1..], pid)
  }

  lemma {:induction false} OwnedUpdate(fs: Frames, i: nat, f: Frame, pid: int)
    requires i < |fs|
    ensures Owned(fs[i := f], pid) + (if fs[i].inUse && fs[i].owner == pid then 1 else 0)
         == Owned(fs, pid) + (if f.inUse && f.owner == pid then 1 else 0)
    decreases |fs|
  {
    if i == 0 {
      assert fs[0 := f][1..] == fs[1..];
    } else {
      assert fs[i := f][1..] == fs[1..][i - 1 := f];
      OwnedUpdate(fs[1..], i - 1, f, pid);
    }
  }

  /** A successful loop adds exactly its n frames to pid's account and none to another's. */
  lemma {:induction false} AllocLoopOwned(fs: Frames, n: int, pid: int, got: seq<nat>, q: int)
    requires 0 <= n <= |FreeList(fs)|
    ensures Owned(AllocLoop(fs, n, pid, got).0, q) == Owned(fs, q) + if q == pid then n else 0
    ensures |FreeList(AllocLoop(fs, n, pid, got).0)| == |FreeList(fs)| - n
    decreases n
  {
    if n > 0 {
      AllocPageTakesHead(fs, pid);
      OwnedUpdate(fs, FirstFree(fs), Frame(true, pid), q);
      AllocLoopOwned(AllocPage(fs, pid).0, n - 1, pid, got + [FirstFree(fs)], q);
    }
  }
}
