/** Bounded waiting: no queued thread starves, whatever else is blocked, woken, added or removed. */
module SchedulerWaiting {
  import opened Prelude
  import opened SchedulerModel
  import SchedulerRounds

  /** Ticks thread x still has coming before it gives up the CPU: its rest if running, else a full slice. */
  ghost function Cost(s: Sched, x: Tid): int
    requires x in s.threads
  {
    if s.current == Some(x) then s.threads[x].remaining else s.threads[x].timeslice
  }

  ghost predicate Known(s: Sched, q: seq<Tid>) {
    forall x :: x in q ==> x in s.threads
  }

  ghost predicate Positive(s: Sched, q: seq<Tid>)
    requires Known(s, q)
  {
    forall x :: x in q ==> Cost(s, x) >= 0
  }

  /** Total cost of the threads in front of t. */
  ghost function Ahead(s: Sched, q: seq<Tid>, t: Tid): int
    requires Known(s, q) && t in q
  {
    if q[0] == t then 0
    else
      assert Known(s, q[1..]);
      Cost(s, q[0]) + Ahead(s, q[1..], t)
  }

  ghost function Wait(s: Sched, t: Tid): int
    requires WellFormed(s) && t in s.runqueue
  {
    Ahead(s, s.runqueue, t)
  }

  lemma {:induction false} AheadSame(s: Sched, s': Sched, q: seq<Tid>, t: Tid)
    requires Known(s, q) && Known(s', q) && t in q
    requires forall x :: x in q ==> Cost(s, x) == Cost(s', x)
    ensures Ahead(s, q, t) == Ahead(s', q, t)
    decreases |q|
  {
    if q[0] != t {
      AheadSame(s, s', q[1..], t);
    }
  }

  lemma {:induction false} AheadAppend(s: Sched, q: seq<Tid>, y: Tid, t: Tid)
    requires Known(s, q + [y]) && Known(s, q) && t in q
    ensures Ahead(s, q + [y], t) == Ahead(s, q, t)
    decreases |q|
  {
    assert (q + [y])[0] == q[0];
    assert t in q + [y];
    if q[0] != t {
      assert (q + [y])[1..] == q[1..] + [y];
      assert Known(s, q[1..] + [y]);
      AheadAppend(s, q[1..], y, t);
    }
  }

  lemma {:induction false} AheadRemove(s: Sched, q: seq<Tid>, x: Tid, t: Tid)
    requires Known(s, q) && Positive(s, q) && t in q && x != t
    ensures t in RemoveFirst(q, x) && Known(s, RemoveFirst(q, x))
    ensures Ahead(s, RemoveFirst(q, x), t) <= Ahead(s, q, t)
    decreases |q|
  {
    if q[0] == x {
      assert t in q[1..];
    } else if q[0] == t {
      assert RemoveFirst(q, x)[0] == t;
      RemoveFirstMembers(q, x);
    } else {
      AheadRemove(s, q[1..], x, t);
      RemoveFirstMembers(q, x);
      assert RemoveFirst(q, x) == [q[0]] + RemoveFirst(q[1..], x);
      assert RemoveFirst(q, x)[1..] == RemoveFirst(q[1..], x);
      assert t in RemoveFirst(q, x);
    }
  }

  lemma {:induction false} AheadNonNegative(s: Sched, q: seq<Tid>, t: Tid)
    requires Known(s, q) && Positive(s, q) && t in q
    ensures Ahead(s, q, t) >= 0
    decreases |q|
  {
    if q[0] != t {
      AheadNonNegative(s, q[1..], t);
    }
  }

  lemma QueuePositive(s: Sched)
    requires Inv(s)
    ensures Known(s, s.runqueue) && Positive(s, s.runqueue)
    ensures forall t :: t in s.runqueue ==> Wait(s, t) >= 0
  {
    forall t | t in s.runqueue ensures Wait(s, t) >= 0 {
      AheadNonNegative(s, s.runqueue, t);
    }
  }

  // ---------------------------------------------------------------- ticks

  lemma DispatchedWait(s: Sched, t: Tid)
    requires Inv(s) && t in s.runqueue
    ensures Wait(Dispatched(s), t) == Wait(s, t)
  {
    AheadSame(s, Dispatched(s), s.runqueue, t);
  }

  lemma ChargeWait(s: Sched, t: Tid)
    requires Inv(s) && CurrentQueued(s) && t in s.runqueue && s.runqueue[0] != t
    ensures WellFormed(Charge(s, s.current.value))
    ensures Wait(Charge(s, s.current.value), t) == Wait(s, t) - 1
  {
    var q := s.runqueue;
    var s' := Charge(s, s.current.value);
    assert q == [q[0]] + q[1..];
    assert t in q[1..] && q[0] !in q[1..];
    AheadSame(s, s', q[1..], t);
  }

  lemma RotateWait(s: Sched, t: Tid)
    requires Partition(s) && CurrentQueued(s) && s.threads[s.current.value].remaining == 0
    requires t in s.runqueue && s.runqueue[0] != t
    ensures WellFormed(Rotate(s, s.current.value)) && t in Rotate(s, s.current.value).runqueue
    ensures Wait(Rotate(s, s.current.value), t) == Wait(s, t)
  {
    var q := s.runqueue;
    var s' := Rotate(s, s.current.value);
    RotateKeepsInv(s);
    assert q == [q[0]] + q[1..];
    assert t in q[1..] && q[0] !in q[1..];
    AheadSame(s, s', q[1..], t);
    AheadAppend(s', q[1..], q[0], t);
  }

  /** A tick brings every queued thread that is not the head exactly one tick closer to the CPU. */
  lemma TickWait(s: Sched, t: Tid)
    requires Inv(s) && t in s.runqueue && s.runqueue[0] != t
    ensures Inv(Tick(s)) && t in Tick(s).runqueue
    ensures Wait(Tick(s), t) == Wait(s, t) - 1
  {
    TickKeepsInv(s);
    DispatchedKeepsInv(s);
    DispatchedWait(s, t);
    var s2 := Dispatched(s);
    ChargeKeepsPartition(s2);
    ChargeWait(s2, t);
    var s3 := Charge(s2, s2.current.value);
    if s3.threads[s3.current.value].remaining <= 0 {
      RotateWait(s3, t);
    }
  }

  /** Ticking alone: after k <= Wait ticks the wait is Wait - k, so t is charged at tick Wait + 1 and not before. */
  lemma TicksWait(s: Sched, k: nat, t: Tid)
    requires Inv(s) && t in s.runqueue && k <= Wait(s, t)
    ensures Inv(TickN(s, k)) && t in TickN(s, k).runqueue
    ensures Wait(TickN(s, k), t) == Wait(s, t) - k
    ensures SchedulerRounds.Charged(TickN(s, k)) == t <==> k == Wait(s, t)
  {
    for p := 0 to k
      invariant Inv(TickN(s, p)) && t in TickN(s, p).runqueue
      invariant Wait(TickN(s, p), t) == Wait(s, t) - p
    {
      TickWait(TickN(s, p), t);
      assert TickN(s, p + 1) == Tick(TickN(s, p));
    }
    HeadIsZero(TickN(s, k), t);
  }

  lemma HeadIsZero(s: Sched, t: Tid)
    requires Inv(s) && t in s.runqueue
    ensures Wait(s, t) == 0 <==> s.runqueue[0] == t
    ensures SchedulerRounds.Charged(s) == s.runqueue[0]
  {
    var q := s.runqueue;
    if q[0] != t {
      assert t in q[1..];
      QueuePositive(s);
      AheadNonNegative(s, q[1..], t);
      var h := q[0];
      assert h in q;
    }
  }

  // ---------------------------------------------------------------- interleavings

  /** The operation does not take t itself off the queue. */
  predicate Spares(op: Op, t: Tid) {
    !(op.OpBlock? && op.tid == t) && !(op.OpRemove? && op.tid == t)
  }

  lemma RemovalWait(s: Sched, s': Sched, x: Tid, t: Tid)
    requires Inv(s) && WellFormed(s') && t in s.runqueue && x != t
    requires s'.runqueue == RemoveFirst(s.runqueue, x)
    requires forall y :: y in s.runqueue && y != x ==> y in s'.threads && Cost(s', y) == Cost(s, y)
    ensures t in s'.runqueue && Wait(s', t) <= Wait(s, t)
  {
    QueuePositive(s);
    AheadRemove(s, s.runqueue, x, t);
    RemoveFirstNoDup(s.runqueue, x);
    AheadSame(s, s', s'.runqueue, t);
  }

  lemma AppendWait(s: Sched, s': Sched, x: Tid, t: Tid)
    requires Inv(s) && WellFormed(s') && t in s.runqueue
    requires s'.runqueue == s.runqueue || s'.runqueue == s.runqueue + [x]
    requires forall y :: y in s.runqueue ==> y in s'.threads && Cost(s', y) == Cost(s, y)
    ensures t in s'.runqueue && Wait(s', t) == Wait(s, t)
  {
    AheadSame(s, s', s.runqueue, t);
    if s'.runqueue == s.runqueue + [x] {
      AheadAppend(s', s.runqueue, x, t);
    }
  }

  /** Nothing another thread can do ever moves t back. */
  lemma StepWait(s: Sched, op: Op, t: Tid)
    requires Inv(s) && Legal(s, op) && t in s.runqueue && Spares(op, t) && s.runqueue[0] != t
    ensures Inv(Step(s, op)) && t in Step(s, op).runqueue
    ensures Wait(Step(s, op), t) <= Wait(s, t) - if op.OpTick? then 1 else 0
  {
    StepKeepsInv(s, op);
    match op
    case OpTick => TickWait(s, t);
    case OpSpawn(x, n) => AppendWait(s, Spawn(s, x, n), x, t);
    case OpAdd(x) => AppendWait(s, AddThread(s, x), x, t);
    case OpWake(x) => AppendWait(s, WakeThread(s, x), x, t);
    case OpRemove(x) =>
      QueueRemoval(s, x);
      RemovalWait(s, RemoveThread(s, x), x, t);
    case OpBlock(x, reason) =>
      RemoveAbsentOrBlock(s, x, reason, t);
  }

  lemma RemoveAbsentOrBlock(s: Sched, x: Tid, reason: string, t: Tid)
    requires Inv(s) && t in s.runqueue && x != t
    ensures WellFormed(BlockThread(s, x, reason)) && t in BlockThread(s, x, reason).runqueue
    ensures Wait(BlockThread(s, x, reason), t) <= Wait(s, t)
  {
    BlockKeepsInv(s, x, reason);
    if x in s.runqueue {
      RemovalWait(s, BlockThread(s, x, reason), x, t);
    }
  }

  /** Once at the head, t stays there until a tick is charged to it. */
  lemma StepAtHead(s: Sched, op: Op, t: Tid)
    requires Inv(s) && Legal(s, op) && t in s.runqueue && Spares(op, t) && s.runqueue[0] == t && !op.OpTick?
    ensures Inv(Step(s, op)) && t in Step(s, op).runqueue && Step(s, op).runqueue[0] == t
  {
    StepKeepsInv(s, op);
    match op
    case OpRemove(x) => QueueRemoval(s, x);
    case OpBlock(x, _) => QueueRemoval(s, x);
    case _ =>
  }

  ghost function TickCount(ops: seq<Op>): nat {
    if ops == [] then 0 else (if ops[0].OpTick? then 1 else 0) + TickCount(ops[1..])
  }

  /** Some tick of the run consumes t's slice. */
  ghost predicate GetsCpu(s: Sched, ops: seq<Op>, t: Tid)
    requires WellFormed(s) && LegalRun(s, ops)
    decreases |ops|
  {
    ops != [] &&
    ((ops[0].OpTick? && s.runqueue != [] && SchedulerRounds.Charged(s) == t) ||
     GetsCpu(Step(s, ops[0]), ops[1..], t))
  }

  /**
   No starvation: in any run that leaves t queued, t gets the CPU no later than tick Wait + 1,
   where Wait is fixed when the run starts and later arrivals cannot increase it.
   */
  lemma {:induction false} NoStarvation(s: Sched, ops: seq<Op>, t: Tid)
    requires Inv(s) && LegalRun(s, ops) && t in s.runqueue
    requires forall op :: op in ops ==> Spares(op, t)
    requires TickCount(ops) > Wait(s, t)
    ensures GetsCpu(s, ops, t)
    decreases |ops|
  {
    QueuePositive(s);
    var op := ops[0];
    assert op in ops;
    HeadIsZero(s, t);
    if op.OpTick? && s.runqueue[0] == t {
    } else if s.runqueue[0] == t {
      StepAtHead(s, op, t);
      HeadIsZero(Step(s, op), t);
      NoStarvation(Step(s, op), ops[1..], t);
    } else {
      StepWait(s, op, t);
      NoStarvation(Step(s, op), ops[1..], t);
    }
  }
}
