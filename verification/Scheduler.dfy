/** The scheduler object: lists of thread objects whose fields the methods update in place. */
module SchedulerClass {
  import opened Prelude
  import opened SchedulerModel
  import opened TaskStates

  class Thread {
    const tid: Tid
    const timeslice: int
    var state: TaskState
    var remainingTicks: int
    var waitReason: string

    constructor (tid: Tid, timeslice: int)
      ensures this.tid == tid && this.timeslice == timeslice
      ensures state == New && remainingTicks == timeslice && waitReason == ""
    {
      this.tid := tid;
      this.timeslice := timeslice;
      state := New;
      remainingTicks := timeslice;
      waitReason := "";
    }

    function Info(): ThreadInfo
      reads this
    {
      ThreadInfo(state, timeslice, remainingTicks, waitReason)
    }
  }

  function Tids(q: seq<Thread>): (r: seq<Tid>)
    ensures |r| == |q| && forall i :: 0 <= i < |q| ==> r[i] == q[i].tid
  {
    seq(|q|, i requires 0 <= i < |q| => q[i].tid)
  }

  /** No other thread in the list shares t's tid. */
  ghost predicate Unambiguous(q: seq<Thread>, t: Thread) {
    forall u :: u in q ==> u.tid == t.tid ==> u == t
  }

  lemma InTids(q: seq<Thread>, t: Thread)
    requires Unambiguous(q, t)
    ensures t in q <==> t.tid in Tids(q)
  {
    if t in q {
      var i :| 0 <= i < |q| && q[i] == t;
      assert Tids(q)[i] == t.tid;
    }
    if t.tid in Tids(q) {
      var i :| 0 <= i < |q| && Tids(q)[i] == t.tid;
      assert q[i] in q;
    }
  }

  lemma {:induction false} RemoveFirstTids(q: seq<Thread>, t: Thread)
    requires Unambiguous(q, t)
    ensures Tids(RemoveFirst(q, t)) == RemoveFirst(Tids(q), t.tid)
    ensures forall u :: u in RemoveFirst(q, t) ==> u in q
    decreases |q|
  {
    if q != [] {
      assert q[0] in q;
      assert Tids(q)[1..] == Tids(q[1..]);
      if q[0] != t {
        assert q[0].tid != t.tid;
        RemoveFirstTids(q[1..], t);
        assert Tids(q) == [q[0].tid] + Tids(q[1..]);
      }
    }
  }

  class Scheduler {
    var runqueue: seq<Thread>
    var currentThread: Thread?
    var idleThread: Thread?
    var tickCount: nat
    var contextSwitches: nat
    var blocked: seq<Thread>
    /** Every thread the scheduler has been shown, by its unique tid. */
    ghost var known: map<Tid, Thread>

    ghost predicate IsKnown(t: Thread)
      reads `known
    {
      t.tid in known && known[t.tid] == t
    }

    ghost predicate Valid()
      reads `known, `runqueue, `blocked, `currentThread, `idleThread
    {
      && (forall i :: i in known ==> known[i].tid == i)
      && (forall t :: t in runqueue ==> IsKnown(t))
      && (forall t :: t in blocked ==> IsKnown(t))
      && (currentThread != null ==> IsKnown(currentThread))
      && (idleThread != null ==> IsKnown(idleThread))
    }

    ghost function Threads(): map<Tid, ThreadInfo>
      reads `known, known.Values
    {
      map i | i in known :: known[i].Info()
    }

    /** When t is the only thread object written, only t's entry of the view changes. */
    twostate lemma OneThreadChanged(t: Thread)
      requires known == old(known) && IsKnown(t)
      requires forall i :: i in known && i != t.tid ==> known[i].Info() == old(known[i].Info())
      ensures Threads() == old(Threads())[t.tid := t.Info()]
    {
    }

    ghost function View(): Sched
      requires Valid()
      reads this, known.Values
    {
      Sched(Threads(),
            Tids(runqueue), Tids(blocked),
            if currentThread == null then None else Some(currentThread.tid),
            if idleThread == null then None else Some(idleThread.tid),
            tickCount, contextSwitches)
    }

    lemma ViewWellFormed()
      requires Valid()
      ensures WellFormed(View())
    {
      forall i | i in Tids(runqueue) ensures i in known {
        var k :| 0 <= k < |runqueue| && runqueue[k].tid == i;
        assert runqueue[k] in runqueue;
      }
      forall i | i in Tids(blocked) ensures i in known {
        var k :| 0 <= k < |blocked| && blocked[k].tid == i;
        assert blocked[k] in blocked;
      }
    }

    constructor ()
      ensures Valid() && known == map[]
      ensures View() == Sched(map[], [], [], None, None, 0, 0)
    {
      runqueue, blocked := [], [];
      currentThread, idleThread := null, null;
      tickCount, contextSwitches := 0, 0;
      known := map[];
    }

    /** Make a spawned thread known; the tid must not belong to another thread. */
    ghost method Register(t: Thread)
      requires Valid() && t.tid !in known
      modifies this`known
      ensures Valid() && IsKnown(t) && known == old(known)[t.tid := t]
      ensures View() == old(View()).(threads := old(View()).threads[t.tid := t.Info()])
    {
      known := known[t.tid := t];
    }

    method Init(idle: Thread)
      requires Valid() && IsKnown(idle)
      modifies this`idleThread, idle`state
      ensures Valid() && known == old(known)
      ensures View() == SchedulerModel.Init(old(View()), idle.tid)
    {
      idle.state := Runnable;
      idleThread := idle;
      OneThreadChanged(idle);
    }

    method AddThread(t: Thread)
      requires Valid() && IsKnown(t)
      modifies this`runqueue, t`state
      ensures Valid() && known == old(known)
      ensures View() == SchedulerModel.AddThread(old(View()), t.tid)
    {
      InTids(runqueue, t);
      t.state := Runnable;
      if t !in runqueue {
        runqueue := runqueue + [t];
      }
      assert Tids(old(runqueue) + [t]) == Tids(old(runqueue)) + [t.tid];
      OneThreadChanged(t);
    }

    method RemoveThread(tid: Tid)
      requires Valid()
      modifies this`runqueue
      ensures Valid() && known == old(known)
      ensures View() == SchedulerModel.RemoveThread(old(View()), tid)
    {
      var kept: seq<Thread> := [];
      var i := |runqueue|;
      while i > 0
        invariant 0 <= i <= |runqueue| && runqueue == old(runqueue)
        invariant forall u :: u in kept ==> u in runqueue
        invariant Tids(kept) == RemoveAll(Tids(runqueue)[i..], tid)
      {
        i := i - 1;
        assert Tids(runqueue)[i..] == [runqueue[i].tid] + Tids(runqueue)[i + 1..];
        if runqueue[i].tid != tid {
          assert Tids([runqueue[i]] + kept) == [runqueue[i].tid] + Tids(kept);
          kept := [runqueue[i]] + kept;
        }
      }
      runqueue := kept;
    }

    /** `t.state = state; t.wait_reason = reason`. */
    method Relabel(t: Thread, state: TaskState, reason: string)
      requires Valid() && IsKnown(t)
      modifies t
      ensures Valid() && t.tid in old(View()).threads
      ensures var info := old(View()).threads[t.tid];
              View() == old(View()).(threads := old(View()).threads[t.tid := info.(state := state, waitReason := reason)])
    {
      t.state := state;
      t.waitReason := reason;
      OneThreadChanged(t);
    }

    /** Take t off the queue and the CPU, and on to the blocked list. */
    method Unqueue(t: Thread)
      requires Valid() && t in runqueue
      modifies `runqueue, `blocked, `currentThread
      ensures Valid()
      ensures View() == old(View()).(runqueue := RemoveFirst(old(View()).runqueue, t.tid),
                                     blocked := old(View()).blocked + [t.tid],
                                     current := if old(View()).current == Some(t.tid) then None else old(View()).current)
    {
      RemoveFirstTids(runqueue, t);
      assert Tids(blocked + [t]) == Tids(blocked) + [t.tid];
      runqueue := RemoveFirst(runqueue, t);
      blocked := blocked + [t];
      if currentThread != null && currentThread.tid == t.tid {
        currentThread := null;
      }
    }

    method PutToSleep(t: Thread, reason: string)
      requires Valid() && t in runqueue
      modifies this, t
      ensures Valid() && known == old(known)
      ensures WellFormed(old(View())) && t.tid in old(View()).runqueue
      ensures View() == SchedulerModel.BlockThread(old(View()), t.tid, reason)
    {
      ViewWellFormed();
      InTids(runqueue, t);
      Relabel(t, SleepInt, reason);
      Unqueue(t);
    }

    method BlockThread(tid: Tid, reason: string)
      requires Valid()
      modifies this, known.Values
      ensures Valid() && known == old(known)
      ensures WellFormed(old(View())) && View() == SchedulerModel.BlockThread(old(View()), tid, reason)
    {
      ViewWellFormed();
      var i := 0;
      while i < |runqueue|
        invariant 0 <= i <= |runqueue|
        invariant tid !in Tids(runqueue)[..i]
      {
        var t := runqueue[i];
        if t.tid == tid {
          assert t in runqueue;
          PutToSleep(t, reason);
          return;
        }
        assert Tids(runqueue)[..i + 1] == Tids(runqueue)[..i] + [t.tid];
        i := i + 1;
      }
      assert Tids(runqueue)[..i] == Tids(runqueue);
    }

    method Rouse(t: Thread)
      requires Valid() && t in blocked
      modifies this`runqueue, this`blocked, t
      ensures Valid() && known == old(known)
      ensures WellFormed(old(View())) && t.tid in old(View()).blocked
      ensures View() == SchedulerModel.WakeThread(old(View()), t.tid)
    {
      ViewWellFormed();
      InTids(blocked, t);
      RemoveFirstTids(blocked, t);
      assert Tids(runqueue + [t]) == Tids(runqueue) + [t.tid];
      Relabel(t, Runnable, "");
      blocked := RemoveFirst(blocked, t);
      runqueue := runqueue + [t];
    }

    method WakeThread(tid: Tid)
      requires Valid()
      modifies this, known.Values
      ensures Valid() && known == old(known)
      ensures WellFormed(old(View())) && View() == SchedulerModel.WakeThread(old(View()), tid)
    {
      ViewWellFormed();
      var i := 0;
      while i < |blocked|
        invariant 0 <= i <= |blocked|
        invariant tid !in Tids(blocked)[..i]
      {
        var t := blocked[i];
        if t.tid == tid {
          assert t in blocked;
          Rouse(t);
          return;
        }
        assert Tids(blocked)[..i + 1] == Tids(blocked)[..i] + [t.tid];
        i := i + 1;
      }
      assert Tids(blocked)[..i] == Tids(blocked);
    }

    method DispatchHead()
      requires Valid() && runqueue != []
      modifies this`currentThread, runqueue[0]
      ensures Valid() && runqueue == old(runqueue) && currentThread == runqueue[0]
      ensures runqueue[0].tid in old(View()).threads
      ensures View() == Dispatch(old(View()), runqueue[0].tid)
    {
      assert runqueue[0] in runqueue;
      currentThread := runqueue[0];
      currentThread.state := Running;
      currentThread.remainingTicks := currentThread.timeslice;
      OneThreadChanged(runqueue[0]);
    }

    method Refill(t: Thread)
      requires Valid() && IsKnown(t)
      modifies t
      ensures Valid() && t.tid in old(View()).threads
      ensures var info := old(View()).threads[t.tid];
              View() == old(View()).(threads := old(View()).threads[t.tid := info.(state := Runnable, remaining := info.timeslice)])
    {
      t.state := Runnable;
      t.remainingTicks := t.timeslice;
      OneThreadChanged(t);
    }

    /** Take t off the queue and put it at the end: a context switch. */
    method ToTail(t: Thread)
      requires Valid() && t in runqueue
      modifies `runqueue, `contextSwitches
      ensures Valid() && runqueue != []
      ensures View() == old(View()).(runqueue := RemoveFirst(old(View()).runqueue, t.tid) + [t.tid],
                                     switches := old(View()).switches + 1)
    {
      RemoveFirstTids(runqueue, t);
      ghost var rest := RemoveFirst(runqueue, t);
      runqueue := RemoveFirst(runqueue, t) + [t];
      contextSwitches := contextSwitches + 1;
      assert Tids(runqueue) == Tids(rest) + [t.tid];
    }

    /** Refill the expired thread and move it to the tail. */
    method MoveToTail(t: Thread)
      requires Valid() && t in runqueue
      modifies this`runqueue, this`contextSwitches, t
      ensures Valid() && runqueue != []
      ensures WellFormed(old(View())) && t.tid in old(View()).runqueue
      ensures View() == Requeue(old(View()), t.tid)
    {
      ViewWellFormed();
      InTids(runqueue, t);
      Refill(t);
      ToTail(t);
    }

    /** The branch of tick taken when the running thread's slice has expired. */
    method RotateOut(t: Thread)
      requires Valid() && t in runqueue
      modifies this, known.Values
      ensures Valid() && known == old(known)
      ensures WellFormed(old(View())) && t.tid in old(View()).runqueue
      ensures View() == Rotate(old(View()), t.tid)
    {
      MoveToTail(t);
      assert runqueue[0] in runqueue && known[runqueue[0].tid] == runqueue[0];
      DispatchHead();
    }

    /** Whether the current thread is still queued. */
    method CurrentIsQueued() returns (queued: bool)
      requires Valid()
      ensures queued == CurrentQueued(View())
      ensures queued ==> currentThread != null && currentThread in runqueue
    {
      if currentThread != null {
        InTids(runqueue, currentThread);
      }
      return currentThread != null && currentThread in runqueue;
    }

    method CountTick()
      requires Valid()
      modifies `tickCount
      ensures Valid() && View() == old(View()).(tickCount := old(View()).tickCount + 1)
    {
      tickCount := tickCount + 1;
    }

    /** Make sure a queued thread is running. */
    method EnsureDispatched()
      requires Valid() && runqueue != []
      modifies this`currentThread, this`tickCount, known.Values
      ensures Valid() && currentThread != null && currentThread in runqueue
      ensures WellFormed(old(View())) && old(View()).runqueue != []
      ensures View() == Dispatched(old(View()))
    {
      ViewWellFormed();
      CountTick();
      var queued := CurrentIsQueued();
      if !queued {
        assert runqueue[0] in runqueue && known[runqueue[0].tid] == runqueue[0];
        DispatchHead();
      }
    }

    method ChargeTick(t: Thread)
      requires Valid() && IsKnown(t)
      modifies t`remainingTicks
      ensures Valid()
      ensures View() == Charge(old(View()), t.tid)
    {
      t.remainingTicks := t.remainingTicks - 1;
      OneThreadChanged(t);
    }

    method Tick() returns (running: Thread?)
      requires Valid()
      modifies this, known.Values
      ensures Valid() && known == old(known)
      ensures WellFormed(old(View())) && View() == SchedulerModel.Tick(old(View()))
      ensures running == currentThread
    {
      ViewWellFormed();
      if runqueue == [] {
        tickCount := tickCount + 1;
        currentThread := idleThread;
        return idleThread;
      }
      EnsureDispatched();
      var t := currentThread;
      assert known[t.tid] == t;
      ChargeTick(t);
      assert View().threads[t.tid].remaining == t.remainingTicks;
      if t.remainingTicks <= 0 {
        RotateOut(t);
      }
      running := currentThread;
    }

    method RunTicks(n: nat)
      requires Valid()
      modifies this, known.Values
      ensures Valid() && known == old(known)
      ensures WellFormed(old(View())) && View() == TickN(old(View()), n)
    {
      ViewWellFormed();
      for i := 0 to n
        invariant Valid() && known == old(known)
        invariant View() == TickN(old(View()), i)
      {
        var _ := Tick();
      }
    }
  }
}
