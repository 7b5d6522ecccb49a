/** What each scheduler operation does to the thread it names, and that it does nothing else. */
module SchedulerSteps {
  import opened Prelude
  import opened TaskStates
  import opened SchedulerModel
  import opened SchedulerWaiting

  /** No thread but t is created, lost or changed. */
  ghost predicate OnlyThread(s: Sched, s': Sched, t: Tid) {
    && s'.threads.Keys == s.threads.Keys
    && forall x :: x in s.threads && x != t ==> s'.threads[x] == s.threads[x]
  }

  /** t is taken out of a list and everything else keeps its order. */
  ghost predicate TakenOut(q: seq<Tid>, q': seq<Tid>, t: Tid) {
    exists a, b :: q == a + [t] + b && q' == a + b
  }

  lemma RemovalTakesOut(q: seq<Tid>, t: Tid)
    requires NoDup(q) && t in q
    ensures TakenOut(q, RemoveFirst(q, t), t) && t !in RemoveFirst(q, t)
    ensures RemoveAll(q, t) == RemoveFirst(q, t)
  {
    var k :| 0 <= k < |q| && q[k] == t;
    RemoveFirstNoDup(q, t);
    TakenOutAt(q, t, k);
  }

  lemma TakenOutAt(q: seq<Tid>, t: Tid, k: nat)
    requires k < |q| && q[k] == t && NoDup(q)
    ensures TakenOut(q, RemoveFirst(q, t), t)
  {
    assert t !in q[..k];
    RemoveFirstAt(q, t, k);
    var a, b := q[..k], q[k + 1..];
    assert q == a + [t] + b;
  }

  // ---------------------------------------------------------------- one operation

  /** Initialising makes the thread the idle one and RUNNABLE; the next tick of an empty queue runs it. */
  lemma InitExactly(s: Sched, t: Tid)
    requires WellFormed(s) && t in s.threads
    ensures var s' := Init(s, t);
            && OnlyThread(s, s', t) && s'.threads[t] == s.threads[t].(state := Runnable)
            && s' == s.(threads := s'.threads, idle := s'.idle)
            && WellFormed(s') && (s.runqueue == [] ==> Tick(s').current == Some(t))
  {
  }

  /** A spawned thread is NEW with a full slice, and known to nobody's queue. */
  lemma SpawnExactly(s: Sched, t: Tid, timeslice: int)
    requires WellFormed(s) && t !in s.threads
    ensures var s' := Spawn(s, t, timeslice);
            && s'.threads.Keys == s.threads.Keys + {t} && s' == s.(threads := s'.threads)
            && (forall x :: x in s.threads ==> s'.threads[x] == s.threads[x])
            && s'.threads[t].state == New && s'.threads[t].timeslice == s'.threads[t].remaining == timeslice
            && s'.threads[t].waitReason == "" && t !in s'.runqueue && t !in s'.blocked
  {
  }

  /** An added thread is RUNNABLE and in the queue: where it was, else at the tail. Nothing else changes. */
  lemma AddExactly(s: Sched, t: Tid)
    requires t in s.threads
    ensures var s' := AddThread(s, t);
            && OnlyThread(s, s', t) && s'.threads[t] == s.threads[t].(state := Runnable)
            && s'.runqueue == (if t in s.runqueue then s.runqueue else s.runqueue + [t])
            && s' == s.(threads := s'.threads, runqueue := s'.runqueue)
  {
  }

  /** A removed thread is off the queue; the others keep their order and everything else its value. */
  lemma RemoveExactly(s: Sched, t: Tid)
    requires NoDup(s.runqueue)
    ensures var s' := RemoveThread(s, t);
            && t !in s'.runqueue
            && (if t in s.runqueue then TakenOut(s.runqueue, s'.runqueue, t) else s'.runqueue == s.runqueue)
            && s' == s.(runqueue := s'.runqueue)
  {
    if t in s.runqueue {
      RemovalTakesOut(s.runqueue, t);
    } else {
      RemoveAbsent(s.runqueue, t);
    }
  }

  /** A queued thread that is blocked sleeps with its reason, last among the sleepers, off queue and CPU; any other call does nothing. */
  lemma BlockExactly(s: Sched, t: Tid, reason: string)
    requires WellFormed(s) && NoDup(s.runqueue)
    ensures t !in s.runqueue ==> BlockThread(s, t, reason) == s
    ensures t in s.runqueue ==>
              var s' := BlockThread(s, t, reason);
              && OnlyThread(s, s', t) && s'.threads[t] == s.threads[t].(state := SleepInt, waitReason := reason)
              && TakenOut(s.runqueue, s'.runqueue, t) && t !in s'.runqueue
              && s'.blocked == s.blocked + [t] && s'.current != Some(t)
              && (s.current != Some(t) ==> s'.current == s.current) && (s.current == Some(t) ==> s'.current == None)
              && s' == s.(threads := s'.threads, runqueue := s'.runqueue, blocked := s'.blocked, current := s'.current)
  {
    if t in s.runqueue {
      RemovalTakesOut(s.runqueue, t);
    }
  }

  /** Any sleeper that is woken is RUNNABLE without a reason, at the tail of the queue; any other call does nothing. */
  lemma WakeExactly(s: Sched, t: Tid)
    requires WellFormed(s) && NoDup(s.blocked)
    ensures t !in s.blocked ==> WakeThread(s, t) == s
    ensures t in s.blocked ==>
              var s' := WakeThread(s, t);
              && OnlyThread(s, s', t) && s'.threads[t] == s.threads[t].(state := Runnable, waitReason := "")
              && TakenOut(s.blocked, s'.blocked, t) && t !in s'.blocked
              && s'.runqueue == s.runqueue + [t]
              && s' == s.(threads := s'.threads, runqueue := s'.runqueue, blocked := s'.blocked)
  {
    if t in s.blocked {
      RemovalTakesOut(s.blocked, t);
    }
  }

  /** A tick of an empty queue only counts and turns to the idle thread. */
  lemma IdleTick(s: Sched)
    requires WellFormed(s) && s.runqueue == []
    ensures var s' := Tick(s);
            s'.tickCount == s.tickCount + 1 && s'.current == s.idle
            && s' == s.(tickCount := s'.tickCount, current := s'.current)
  {
  }

  /** A tick that leaves the head some of its slice only charges it. */
  lemma ChargingTick(s: Sched)
    requires Inv(s) && s.runqueue != [] && Cost(s, s.runqueue[0]) > 1
    ensures var (s', h) := (Tick(s), s.runqueue[0]);
            && OnlyThread(s, s', h)
            && s'.threads[h] == s.threads[h].(state := Running, remaining := Cost(s, h) - 1)
            && s'.current == Some(h) && s'.tickCount == s.tickCount + 1
            && s' == s.(threads := s'.threads, current := s'.current, tickCount := s'.tickCount)
  {
    assert s.runqueue[0] in s.runqueue;
  }

  /** A tick that uses the head's slice up refills it, moves it to the tail and dispatches the next thread: one switch. */
  lemma ExpiringTick(s: Sched)
    requires Inv(s) && s.runqueue != [] && Cost(s, s.runqueue[0]) == 1
    ensures var (s', h, q) := (Tick(s), s.runqueue[0], s.runqueue[1..] + [s.runqueue[0]]);
            var n := q[0];
            && s'.threads.Keys == s.threads.Keys
            && (forall x :: x in s.threads && x != h && x != n ==> s'.threads[x] == s.threads[x])
            && s'.threads[n] == s.threads[n].(state := Running, remaining := s.threads[n].timeslice)
            && (n != h ==> s'.threads[h] == s.threads[h].(state := Runnable, remaining := s.threads[h].timeslice))
            && s'.runqueue == q && s'.current == Some(n)
            && s'.tickCount == s.tickCount + 1 && s'.switches == s.switches + 1
            && s'.blocked == s.blocked && s'.idle == s.idle
  {
    var h := s.runqueue[0];
    assert h in s.runqueue;
    DispatchedKeepsInv(s);
    var s2 := Dispatched(s);
    ChargeKeepsPartition(s2);
    RotateKeepsInv(Charge(s2, h));
  }

  /** The head's slice always has something left, so every tick of a queue is one of the two. */
  lemma HeadHasSlice(s: Sched)
    requires Inv(s) && s.runqueue != []
    ensures Cost(s, s.runqueue[0]) >= 1
  {
    assert s.runqueue[0] in s.runqueue;
  }

  // ---------------------------------------------------------------- joining the queue

  /** All the ticks the queued threads still have coming before one at the tail gets the CPU. */
  ghost function QueueCost(s: Sched, q: seq<Tid>): int
    requires Known(s, q)
  {
    if q == [] then 0
    else
      assert Known(s, q[1..]);
      Cost(s, q[0]) + QueueCost(s, q[1..])
  }

  lemma {:induction false} AheadOfTail(s: Sched, q: seq<Tid>, t: Tid)
    requires Known(s, q) && t in s.threads && t !in q
    ensures t in q + [t] && Known(s, q + [t]) && Ahead(s, q + [t], t) == QueueCost(s, q)
    decreases |q|
  {
    if q == [] {
      assert (q + [t])[0] == t;
    } else {
      assert (q + [t])[0] == q[0] && (q + [t])[1..] == q[1..] + [t];
      AheadOfTail(s, q[1..], t);
    }
  }

  lemma {:induction false} QueueCostSame(s: Sched, s': Sched, q: seq<Tid>)
    requires Known(s, q) && Known(s', q) && forall x :: x in q ==> Cost(s, x) == Cost(s', x)
    ensures QueueCost(s, q) == QueueCost(s', q)
    decreases |q|
  {
    if q != [] {
      QueueCostSame(s, s', q[1..]);
    }
  }

  /** A thread that joins the queue, added or woken, waits exactly for those queued before it. */
  ghost predicate Joins(s: Sched, op: Op, t: Tid) {
    (op == OpAdd(t) && t !in s.runqueue) || (op == OpWake(t) && t in s.blocked)
  }

  lemma JoinWait(s: Sched, op: Op, t: Tid)
    requires Inv(s) && Legal(s, op) && Joins(s, op, t)
    ensures var s' := Step(s, op);
            Inv(s') && t in s'.runqueue && Known(s, s.runqueue) && Wait(s', t) == QueueCost(s, s.runqueue)
  {
    StepKeepsInv(s, op);
    var s' := Step(s, op);
    assert s'.runqueue == s.runqueue + [t];
    assert t !in s.runqueue;
    AheadOfTail(s', s.runqueue, t);
    QueueCostSame(s, s', s.runqueue);
  }

  /** A run that starts by adding or waking t, leaves it queued and ticks longer than the queue took then, runs t. */
  lemma JoinGetsCpu(s: Sched, ops: seq<Op>, t: Tid)
    requires Inv(s) && LegalRun(s, ops) && ops != [] && Joins(s, ops[0], t)
    requires forall op :: op in ops ==> Spares(op, t)
    requires Known(s, s.runqueue) && TickCount(ops) > QueueCost(s, s.runqueue)
    ensures GetsCpu(s, ops, t)
  {
    JoinWait(s, ops[0], t);
    NoStarvation(Step(s, ops[0]), ops[1..], t);
  }
}
