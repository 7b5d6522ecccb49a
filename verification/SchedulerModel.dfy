/**
 The round-robin scheduler as a state machine on values: threads are identified by their
 tid, and the mutable part of every thread object is an entry of `threads`.
 */
module SchedulerModel {
  import opened Prelude
  import opened TaskStates

  type Tid = int

  datatype ThreadInfo = ThreadInfo(state: TaskState, timeslice: int, remaining: int, waitReason: string)

  datatype Sched = Sched(
    threads: map<Tid, ThreadInfo>,
    runqueue: seq<Tid>,
    blocked: seq<Tid>,
    current: Option<Tid>,
    idle: Option<Tid>,
    tickCount: nat,
    switches: nat)

  /** Every tid the scheduler refers to belongs to an existing thread. */
  ghost predicate WellFormed(s: Sched) {
    && (forall t :: t in s.runqueue ==> t in s.threads)
    && (forall t :: t in s.blocked ==> t in s.threads)
    && (s.current.Some? ==> s.current.value in s.threads)
    && (s.idle.Some? ==> s.idle.value in s.threads)
  }

  // ---------------------------------------------------------------- operations

  function Init(s: Sched, idle: Tid): Sched
    requires idle in s.threads
  {
    s.(idle := Some(idle), threads := s.threads[idle := s.threads[idle].(state := Runnable)])
  }

  /** ThreadTable.spawn, as far as the scheduler sees it. */
  function Spawn(s: Sched, t: Tid, timeslice: int): Sched {
    s.(threads := s.threads[t := ThreadInfo(New, timeslice, timeslice, "")])
  }

  function AddThread(s: Sched, t: Tid): Sched
    requires t in s.threads
  {
    s.(threads := s.threads[t := s.threads[t].(state := Runnable)],
       runqueue := if t in s.runqueue then s.runqueue else s.runqueue + [t])
  }

  /** Leaves `current_thread` and the thread's own fields alone. */
  function RemoveThread(s: Sched, t: Tid): Sched {
    s.(runqueue := RemoveAll(s.runqueue, t))
  }

  function BlockThread(s: Sched, t: Tid, reason: string): Sched
    requires WellFormed(s)
  {
    if t !in s.runqueue then s
    else
      s.(threads := s.threads[t := s.threads[t].(state := SleepInt, waitReason := reason)],
         runqueue := RemoveFirst(s.runqueue, t),
         blocked := s.blocked + [t],
         current := if s.current == Some(t) then None else s.current)
  }

  function WakeThread(s: Sched, t: Tid): Sched
    requires WellFormed(s)
  {
    if t !in s.blocked then s
    else
      s.(threads := s.threads[t := s.threads[t].(state := Runnable, waitReason := "")],
         blocked := RemoveFirst(s.blocked, t),
         runqueue := s.runqueue + [t])
  }

  /** Put `t` on the CPU with a full timeslice. */
  function Dispatch(s: Sched, t: Tid): Sched
    requires t in s.threads
  {
    s.(current := Some(t),
       threads := s.threads[t := s.threads[t].(state := Running, remaining := s.threads[t].timeslice)])
  }

  predicate CurrentQueued(s: Sched) {
    s.current.Some? && s.current.value in s.runqueue
  }

  function Charge(s: Sched, t: Tid): Sched
    requires t in s.threads
  {
    s.(threads := s.threads[t := s.threads[t].(remaining := s.threads[t].remaining - 1)])
  }

  /** The expired thread goes to the tail with its slice refilled; this counts as a context switch. */
  function Requeue(s: Sched, t: Tid): (r: Sched)
    requires WellFormed(s) && t in s.runqueue
    ensures r.runqueue != [] && r.runqueue[0] in r.threads
  {
    RemoveFirstMembers(s.runqueue, t);
    var q := RemoveFirst(s.runqueue, t) + [t];
    var head := q[0];
    assert head == t || head in RemoveFirst(s.runqueue, t);
    s.(threads := s.threads[t := s.threads[t].(state := Runnable, remaining := s.threads[t].timeslice)],
       runqueue := q,
       switches := s.switches + 1)
  }

  /** A context switch: the expired thread is requeued and the new head dispatched. */
  function Rotate(s: Sched, t: Tid): Sched
    requires WellFormed(s) && t in s.runqueue
  {
    var s := Requeue(s, t);
    Dispatch(s, s.runqueue[0])
  }

  /** The tick's running thread, once the head has been dispatched if nobody was running. */
  function Dispatched(s: Sched): (r: Sched)
    requires WellFormed(s) && s.runqueue != []
    ensures CurrentQueued(r) && WellFormed(r) && r.runqueue == s.runqueue
  {
    var s := s.(tickCount := s.tickCount + 1);
    if CurrentQueued(s) then s else Dispatch(s, s.runqueue[0])
  }

  function Tick(s: Sched): Sched
    requires WellFormed(s)
  {
    if s.runqueue == [] then s.(tickCount := s.tickCount + 1, current := s.idle)
    else
      var s := Dispatched(s);
      var t := s.current.value;
      var s := Charge(s, t);
      if s.threads[t].remaining <= 0 then Rotate(s, t) else s
  }

  function TickN(s: Sched, n: nat): (r: Sched)
    requires WellFormed(s)
    ensures WellFormed(r)
  {
    if n == 0 then s
    else
      TickWellFormed(TickN(s, n - 1));
      Tick(TickN(s, n - 1))
  }

  lemma {:induction false} RemoveFirstMembers<T>(xs: seq<T>, x: T)
    ensures forall y :: y in RemoveFirst(xs, x) ==> y in xs
    ensures forall y :: y in RemoveAll(xs, x) ==> y in xs
  {
    if xs != [] {
      RemoveFirstMembers(xs[1..], x);
    }
  }

  lemma TickWellFormed(s: Sched)
    requires WellFormed(s)
    ensures WellFormed(Tick(s))
  {
    if s.runqueue != [] {
      RemoveFirstMembers(s.runqueue, Dispatched(s).current.value);
    }
  }

  // ---------------------------------------------------------------- the partition invariant

  /** Positive timeslices, as every caller of ThreadTable.spawn passes. */
  ghost predicate PositiveSlices(s: Sched) {
    forall t :: t in s.threads ==> s.threads[t].timeslice >= 1
  }

  /**
   Run queue and sleepers partition the schedulable threads, sleepers sleep, the only queued
   RUNNING thread is the current one, and it heads the queue with some slice left.
   */
  ghost predicate Inv(s: Sched) {
    && Partition(s)
    && (CurrentQueued(s) ==>
          1 <= s.threads[s.current.value].remaining <= s.threads[s.current.value].timeslice)
  }

  /** The part of the invariant that does not speak of the slice that is left. */
  ghost predicate Partition(s: Sched) {
    && WellFormed(s)
    && PositiveSlices(s)
    && NoDup(s.runqueue) && NoDup(s.blocked)
    && (forall t :: t in s.runqueue ==> t !in s.blocked)
    && (s.idle.Some? ==> s.idle.value !in s.runqueue && s.idle.value !in s.blocked)
    && (forall t :: t in s.blocked ==> s.threads[t].state == SleepInt && s.current != Some(t))
    && (forall t :: t in s.runqueue ==>
          s.threads[t].state == if s.current == Some(t) then Running else Runnable)
    && (CurrentQueued(s) ==> s.runqueue[0] == s.current.value)
  }

  datatype Op =
    | OpSpawn(tid: Tid, timeslice: int)
    | OpAdd(tid: Tid)
    | OpRemove(tid: Tid)
    | OpBlock(tid: Tid, reason: string)
    | OpWake(tid: Tid)
    | OpTick

  /** What the kernel's callers respect: fresh tids, and no add of a sleeping, idle or current thread. */
  ghost predicate Legal(s: Sched, op: Op) {
    match op
    case OpSpawn(t, n) => t !in s.threads && n >= 1
    case OpAdd(t) => t in s.threads && t !in s.blocked && s.idle != Some(t) && s.current != Some(t)
    case _ => true
  }

  function Step(s: Sched, op: Op): Sched
    requires WellFormed(s) && Legal(s, op)
  {
    match op
    case OpSpawn(t, n) => Spawn(s, t, n)
    case OpAdd(t) => AddThread(s, t)
    case OpRemove(t) => RemoveThread(s, t)
    case OpBlock(t, reason) => BlockThread(s, t, reason)
    case OpWake(t) => WakeThread(s, t)
    case OpTick => Tick(s)
  }

  lemma DispatchKeepsInv(s: Sched)
    requires Partition(s) && s.runqueue != [] && !CurrentQueued(s)
    ensures Inv(Dispatch(s, s.runqueue[0])) && CurrentQueued(Dispatch(s, s.runqueue[0]))
  {
    assert s.runqueue[0] in s.runqueue;
  }

  lemma RotateKeepsInv(s: Sched)
    requires Partition(s) && CurrentQueued(s)
    ensures Inv(Rotate(s, s.current.value)) && CurrentQueued(Rotate(s, s.current.value))
    ensures Rotate(s, s.current.value).runqueue == s.runqueue[1..] + [s.runqueue[0]]
  {
    var t := s.current.value;
    var q := s.runqueue;
    assert RemoveFirst(q, t) == q[1..];
    assert q == [t] + q[1..] && t !in q[1..];
    AppendNoDup(q[1..], t);
    var refilled := s.threads[t := s.threads[t].(state := Runnable, remaining := s.threads[t].timeslice)];
    var s1 := s.(threads := refilled, runqueue := q[1..] + [t], switches := s.switches + 1, current := None);
    assert forall y :: y in s1.runqueue <==> y in q;
    DispatchKeepsInv(s1);
    assert Dispatch(s1, s1.runqueue[0]) == Rotate(s, t);
  }

  lemma DispatchedKeepsInv(s: Sched)
    requires Inv(s) && s.runqueue != []
    ensures Inv(Dispatched(s))
  {
    var s1 := s.(tickCount := s.tickCount + 1);
    assert Inv(s1);
    if !CurrentQueued(s1) {
      DispatchKeepsInv(s1);
    }
  }

  lemma ChargeKeepsPartition(s: Sched)
    requires Inv(s) && CurrentQueued(s)
    ensures Partition(Charge(s, s.current.value)) && CurrentQueued(Charge(s, s.current.value))
    ensures Charge(s, s.current.value).threads[s.current.value].remaining > 0 ==> Inv(Charge(s, s.current.value))
  {
  }

  /** A tick keeps the invariant and leaves the head running with between 1 and a full slice left. */
  lemma TickKeepsInv(s: Sched)
    requires Inv(s)
    ensures Inv(Tick(s))
    ensures s.runqueue == [] ==> Tick(s).current == s.idle
    ensures s.runqueue != [] ==> CurrentQueued(Tick(s)) && Tick(s).runqueue[0] == Tick(s).current.value
    ensures Tick(s).runqueue == s.runqueue ||
            (s.runqueue != [] && Tick(s).runqueue == s.runqueue[1..] + [s.runqueue[0]])
    ensures Tick(s).blocked == s.blocked && Tick(s).tickCount == s.tickCount + 1
  {
    if s.runqueue != [] {
      DispatchedKeepsInv(s);
      var s2 := Dispatched(s);
      ChargeKeepsPartition(s2);
      var s3 := Charge(s2, s2.current.value);
      if s3.threads[s3.current.value].remaining <= 0 {
        RotateKeepsInv(s3);
      }
    }
  }

  /** Removal from the queue keeps the head, unless it is the head that goes. */
  lemma QueueRemoval(s: Sched, t: Tid)
    requires Inv(s)
    ensures NoDup(RemoveAll(s.runqueue, t)) && RemoveAll(s.runqueue, t) == RemoveFirst(s.runqueue, t)
    ensures forall y :: y in RemoveAll(s.runqueue, t) <==> y in s.runqueue && y != t
    ensures s.runqueue != [] && s.runqueue[0] != t ==>
              RemoveAll(s.runqueue, t) != [] && RemoveAll(s.runqueue, t)[0] == s.runqueue[0]
  {
    RemoveFirstNoDup(s.runqueue, t);
  }

  lemma BlockKeepsInv(s: Sched, t: Tid, reason: string)
    requires Inv(s)
    ensures Inv(BlockThread(s, t, reason))
  {
    if t in s.runqueue {
      QueueRemoval(s, t);
      AppendNoDup(s.blocked, t);
      var s' := BlockThread(s, t, reason);
      assert forall y :: y in s'.blocked <==> y in s.blocked || y == t;
    }
  }

  /** Waking undoes blocking, but for the thread's place in the queue, its state and the CPU it gave up. */
  lemma BlockThenWake(s: Sched, t: Tid, reason: string)
    requires Inv(s) && t in s.runqueue
    ensures WellFormed(BlockThread(s, t, reason))
    ensures WakeThread(BlockThread(s, t, reason), t) ==
              s.(threads := s.threads[t := s.threads[t].(state := Runnable, waitReason := "")],
                 runqueue := RemoveFirst(s.runqueue, t) + [t],
                 current := if s.current == Some(t) then None else s.current)
  {
    BlockKeepsInv(s, t, reason);
    var s1 := BlockThread(s, t, reason);
    assert s1.blocked[..|s.blocked|] == s.blocked && s1.blocked[|s.blocked| + 1..] == [];
    RemoveFirstAt(s1.blocked, t, |s.blocked|);
  }

  lemma WakeKeepsInv(s: Sched, t: Tid)
    requires Inv(s)
    ensures Inv(WakeThread(s, t))
  {
    if t in s.blocked {
      RemoveFirstNoDup(s.blocked, t);
      AppendNoDup(s.runqueue, t);
      var s' := WakeThread(s, t);
      assert forall y :: y in s'.runqueue <==> y in s.runqueue || y == t;
    }
  }

  lemma RemoveKeepsInv(s: Sched, t: Tid)
    requires Inv(s)
    ensures Inv(RemoveThread(s, t))
  {
    QueueRemoval(s, t);
  }

  /** No legal operation breaks the invariant. */
  lemma StepKeepsInv(s: Sched, op: Op)
    requires Inv(s) && Legal(s, op)
    ensures Inv(Step(s, op))
  {
    match op
    case OpTick => TickKeepsInv(s);
    case OpRemove(t) => RemoveKeepsInv(s, t);
    case OpBlock(t, reason) => BlockKeepsInv(s, t, reason);
    case OpWake(t) => WakeKeepsInv(s, t);
    case OpAdd(t) => AddKeepsInvExactly(s, t);
    case OpSpawn(_, _) =>
  }

  /** Exactly which threads `add_thread` may be given in a good state without breaking it. */
  lemma AddKeepsInvExactly(s: Sched, t: Tid)
    requires Inv(s) && t in s.threads
    ensures Inv(AddThread(s, t)) <==> t !in s.blocked && s.idle != Some(t) && s.current != Some(t)
  {
    var s' := AddThread(s, t);
    if t in s.blocked || s.idle == Some(t) {
      assert t in s'.runqueue;
    } else if s.current == Some(t) {
      assert t in s'.runqueue && s'.threads[t].state == Runnable;
    } else if t !in s.runqueue {
      AppendNoDup(s.runqueue, t);
      assert forall y :: y in s'.runqueue <==> y in s.runqueue || y == t;
    }
  }

  // ---------------------------------------------------------------- runs

  ghost predicate LegalRun(s: Sched, ops: seq<Op>)
    requires WellFormed(s)
    decreases |ops|
  {
    ops == [] || (Legal(s, ops[0]) && WellFormed(Step(s, ops[0])) && LegalRun(Step(s, ops[0]), ops[1..]))
  }

  ghost function Run(s: Sched, ops: seq<Op>): Sched
    requires WellFormed(s) && LegalRun(s, ops)
    decreases |ops|
  {
    if ops == [] then s else Run(Step(s, ops[0]), ops[1..])
  }

  /** The partition invariant holds after every run. */
  lemma {:induction false} RunKeepsInv(s: Sched, ops: seq<Op>)
    requires Inv(s) && LegalRun(s, ops)
    ensures Inv(Run(s, ops))
    decreases |ops|
  {
    if ops != [] {
      StepKeepsInv(s, ops[0]);
      RunKeepsInv(Step(s, ops[0]), ops[1..]);
    }
  }

  /** An empty scheduler over any threads with positive slices is a good starting point. */
  lemma FreshInv(threads: map<Tid, ThreadInfo>, idle: Tid)
    requires idle in threads && forall t :: t in threads ==> threads[t].timeslice >= 1
    ensures Inv(Init(Sched(threads, [], [], None, None, 0, 0), idle))
  {
  }
}
