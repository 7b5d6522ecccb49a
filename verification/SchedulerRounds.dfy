/**
 Whole-run behaviour of an undisturbed scheduler: after k ticks everything is a function of
 k modulo the sum of the timeslices.
 */
module SchedulerRounds {
  import opened Prelude
  import opened SchedulerModel

  /** A queue that has been filled but not ticked: nobody in it is running yet. */
  ghost predicate Fresh(s: Sched) {
    Inv(s) && s.runqueue != [] && !CurrentQueued(s)
  }

  ghost function Slice(s: Sched, i: nat): int
    requires WellFormed(s) && i < |s.runqueue|
  {
    var t := s.runqueue[i];
    assert t in s.runqueue;
    s.threads[t].timeslice
  }

  /** Sum of the timeslices of the first i queued threads. */
  ghost function Prefix(s: Sched, i: nat): int
    requires WellFormed(s) && i <= |s.runqueue|
  {
    if i == 0 then 0 else Prefix(s, i - 1) + Slice(s, i - 1)
  }

  ghost function Period(s: Sched): int
    requires WellFormed(s)
  {
    Prefix(s, |s.runqueue|)
  }

  lemma {:induction false} PrefixMonotone(s: Sched, i: nat, j: nat)
    requires Inv(s) && i <= j <= |s.runqueue|
    ensures Prefix(s, i) + (j - i) <= Prefix(s, j)
  {
    if i < j {
      var t := s.runqueue[j - 1];
      assert t in s.runqueue;
      PrefixMonotone(s, i, j - 1);
    }
  }

  /** `s` is what `s0` looks like in its c-th round with the i-th thread running and r ticks left. */
  ghost predicate Phase(s0: Sched, s: Sched, c: nat, i: nat, r: int)
    requires WellFormed(s0)
  {
    && WellFormed(s)
    && i < |s0.runqueue| && 1 <= r <= Slice(s0, i)
    && s.runqueue == s0.runqueue[i..] + s0.runqueue[..i]
    && s.current == Some(s0.runqueue[i])
    && s.threads[s0.runqueue[i]].remaining == r
    && s.switches == s0.switches + c * |s0.runqueue| + i
    && (forall t :: t in s0.runqueue ==> s.threads[t].timeslice == s0.threads[t].timeslice)
  }

  /** The first tick behaves as if the head had been dispatched beforehand. */
  lemma FreshPhase(s0: Sched)
    requires Fresh(s0)
    ensures WellFormed(Dispatch(s0, s0.runqueue[0]))
    ensures Phase(s0, Dispatch(s0, s0.runqueue[0]), 0, 0, Slice(s0, 0))
    ensures Tick(s0) == Tick(Dispatch(s0, s0.runqueue[0]))
  {
    assert s0.runqueue[0] in s0.runqueue;
  }

  /** Successor of a phase: one tick less, else the next thread, else the next round. */
  lemma PhaseTick(s0: Sched, s: Sched, c: nat, i: nat, r: int)
    requires Inv(s0) && Phase(s0, s, c, i, r)
    ensures r > 1 ==> Phase(s0, Tick(s), c, i, r - 1)
    ensures r == 1 && i + 1 < |s0.runqueue| ==> Phase(s0, Tick(s), c, i + 1, Slice(s0, i + 1))
    ensures r == 1 && i + 1 == |s0.runqueue| ==> Phase(s0, Tick(s), c + 1, 0, Slice(s0, 0))
  {
    var q := s0.runqueue;
    var t := q[i];
    TickWellFormed(s);
    assert s.runqueue[0] == t && t in s.runqueue;
    if r == 1 {
      var i' := if i + 1 < |q| then i + 1 else 0;
      assert RemoveFirst(s.runqueue, t) + [t] == q[i'..] + q[..i'];
      assert q[i'] in q && q[i'] in s.runqueue;
      assert (c + 1) * |q| == c * |q| + |q|;
    }
  }

  /** The thread whose slice the next tick consumes. */
  ghost function Charged(s: Sched): Tid
    requires s.runqueue != []
  {
    if CurrentQueued(s) then s.current.value else s.runqueue[0]
  }

  /** How many of the first k ticks are charged to t. */
  ghost function ChargedTicks(s: Sched, k: nat, t: Tid): nat
    requires WellFormed(s)
  {
    if k == 0 then 0
    else
      var before := TickN(s, k - 1);
      ChargedTicks(s, k - 1, t) + if before.runqueue != [] && Charged(before) == t then 1 else 0
  }

  /** What thread j has consumed by phase (c, i, r). */
  ghost function Share(s0: Sched, j: nat, c: nat, i: nat, r: int): int
    requires WellFormed(s0) && j < |s0.runqueue|
  {
    c * Slice(s0, j) + if j < i then Slice(s0, j) else if j == i then Slice(s0, j) - r else 0
  }

  /** The successor of the coordinates (round, thread, ticks left). */
  ghost function Next(s0: Sched, c: nat, i: nat, r: int): (nat, nat, int)
    requires WellFormed(s0) && i < |s0.runqueue|
  {
    if r > 1 then (c, i, r - 1)
    else if i + 1 < |s0.runqueue| then (c, i + 1, Slice(s0, i + 1))
    else (c + 1, 0, Slice(s0, 0))
  }

  /** Advancing the coordinates accounts for exactly one tick... */
  lemma NextElapsed(s0: Sched, c: nat, i: nat, r: int)
    requires WellFormed(s0) && i < |s0.runqueue| && r >= 1
    ensures var (c', i', r') := Next(s0, c, i, r);
            c' * Period(s0) + Prefix(s0, i' + 1) - r' == c * Period(s0) + Prefix(s0, i + 1) - r + 1
  {
    assert (c + 1) * Period(s0) == c * Period(s0) + Period(s0);
    assert Prefix(s0, 1) == Prefix(s0, 0) + Slice(s0, 0);
    if i + 1 < |s0.runqueue| {
      assert Prefix(s0, i + 2) == Prefix(s0, i + 1) + Slice(s0, i + 1);
    }
  }

  /** ... and that tick goes to thread i alone. */
  lemma NextShare(s0: Sched, j: nat, c: nat, i: nat, r: int)
    requires Inv(s0) && i < |s0.runqueue| && j < |s0.runqueue| && r >= 1
    ensures var (c', i', r') := Next(s0, c, i, r);
            Share(s0, j, c', i', r') == Share(s0, j, c, i, r) + if j == i then 1 else 0
  {
    assert (c + 1) * Slice(s0, j) == c * Slice(s0, j) + Slice(s0, j);
  }

  /** The state that stands for k ticks: the queue with its head dispatched when k == 0. */
  ghost function After(s0: Sched, k: nat): Sched
    requires Fresh(s0)
  {
    assert s0.runqueue[0] in s0.runqueue;
    if k == 0 then Dispatch(s0, s0.runqueue[0]) else TickN(s0, k)
  }

  lemma AfterTick(s0: Sched, k: nat, c: nat, i: nat, r: int)
    requires Fresh(s0) && Phase(s0, After(s0, k), c, i, r)
    ensures After(s0, k + 1) == Tick(After(s0, k))
    ensures var before := TickN(s0, k); before.runqueue != [] && Charged(before) == s0.runqueue[i]
  {
    FreshPhase(s0);
    assert TickN(s0, k + 1) == Tick(TickN(s0, k));
    assert After(s0, k).runqueue[0] == s0.runqueue[i];
    if k == 0 {
      assert TickN(s0, 0) == s0;
      assert i == 0;
    }
  }

  lemma AfterPhase(s0: Sched, k: nat, c: nat, i: nat, r: int)
    requires Fresh(s0) && Phase(s0, After(s0, k), c, i, r)
    ensures var (c', i', r') := Next(s0, c, i, r); Phase(s0, After(s0, k + 1), c', i', r')
  {
    AfterTick(s0, k, c, i, r);
    PhaseTick(s0, After(s0, k), c, i, r);
  }

  /** (round, thread, ticks left) after k ticks. */
  ghost function Coords(s0: Sched, k: nat): (r: (nat, nat, int))
    requires Fresh(s0)
    ensures r.1 < |s0.runqueue| && 1 <= r.2 <= Slice(s0, r.1)
  {
    SlicesPositive(s0);
    if k == 0 then (0, 0, Slice(s0, 0))
    else
      var (c, i, r) := Coords(s0, k - 1);
      Next(s0, c, i, r)
  }

  lemma SlicesPositive(s0: Sched)
    requires Inv(s0)
    ensures forall i :: 0 <= i < |s0.runqueue| ==> Slice(s0, i) >= 1
  {
    forall i | 0 <= i < |s0.runqueue| ensures Slice(s0, i) >= 1 {
      var t := s0.runqueue[i];
      assert t in s0.runqueue;
    }
  }

  lemma {:induction false} CoordsElapsed(s0: Sched, k: nat)
    requires Fresh(s0)
    ensures var (c, i, r) := Coords(s0, k); k == c * Period(s0) + Prefix(s0, i + 1) - r
  {
    if k == 0 {
      assert Prefix(s0, 1) == Prefix(s0, 0) + Slice(s0, 0);
    } else {
      CoordsElapsed(s0, k - 1);
      var (c, i, r) := Coords(s0, k - 1);
      NextElapsed(s0, c, i, r);
    }
  }

  lemma CoordsPhaseStep(s0: Sched, k: nat)
    requires Fresh(s0)
    requires var (c, i, r) := Coords(s0, k); Phase(s0, After(s0, k), c, i, r)
    ensures var (c, i, r) := Coords(s0, k + 1); Phase(s0, After(s0, k + 1), c, i, r)
  {
    var (c, i, r) := Coords(s0, k);
    AfterPhase(s0, k, c, i, r);
  }

  lemma CoordsPhaseBase(s0: Sched)
    requires Fresh(s0)
    ensures var (c, i, r) := Coords(s0, 0); Phase(s0, After(s0, 0), c, i, r)
  {
    FreshPhase(s0);
  }

  lemma CoordsPhase(s0: Sched, k: nat)
    requires Fresh(s0)
    ensures var (c, i, r) := Coords(s0, k); Phase(s0, After(s0, k), c, i, r)
  {
    CoordsPhaseBase(s0);
    for p := 0 to k
      invariant var (c, i, r) := Coords(s0, p); Phase(s0, After(s0, p), c, i, r)
    {
      CoordsPhaseStep(s0, p);
    }
  }

  lemma NextCharged(s0: Sched, k: nat, j: nat)
    requires Fresh(s0) && j < |s0.runqueue|
    ensures ChargedTicks(s0, k + 1, s0.runqueue[j]) ==
            ChargedTicks(s0, k, s0.runqueue[j]) + if j == Coords(s0, k).1 then 1 else 0
  {
    CoordsPhase(s0, k);
    var (c, i, r) := Coords(s0, k);
    AfterTick(s0, k, c, i, r);
    assert s0.runqueue[j] == s0.runqueue[i] <==> j == i;
  }

  lemma CoordsShareBase(s0: Sched, j: nat)
    requires Fresh(s0) && j < |s0.runqueue|
    ensures var (c, i, r) := Coords(s0, 0); ChargedTicks(s0, 0, s0.runqueue[j]) == Share(s0, j, c, i, r)
  {
  }

  lemma CoordsShareStep(s0: Sched, k: nat, j: nat)
    requires Fresh(s0) && j < |s0.runqueue|
    requires var (c, i, r) := Coords(s0, k); ChargedTicks(s0, k, s0.runqueue[j]) == Share(s0, j, c, i, r)
    ensures var (c, i, r) := Coords(s0, k + 1); ChargedTicks(s0, k + 1, s0.runqueue[j]) == Share(s0, j, c, i, r)
  {
    var (c, i, r) := Coords(s0, k);
    NextCharged(s0, k, j);
    NextShare(s0, j, c, i, r);
  }

  lemma CoordsShare(s0: Sched, k: nat, j: nat)
    requires Fresh(s0) && j < |s0.runqueue|
    ensures var (c, i, r) := Coords(s0, k); ChargedTicks(s0, k, s0.runqueue[j]) == Share(s0, j, c, i, r)
  {
    CoordsShareBase(s0, j);
    for p := 0 to k
      invariant var (c, i, r) := Coords(s0, p); ChargedTicks(s0, p, s0.runqueue[j]) == Share(s0, j, c, i, r)
    {
      CoordsShareStep(s0, p, j);
    }
  }

  /** The coordinates are quotient and remainder of k by the period. */
  lemma CoordsDivMod(s0: Sched, k: nat)
    requires Fresh(s0)
    ensures Period(s0) > 0
    ensures var (c, i, r) := Coords(s0, k);
            k / Period(s0) == c && k % Period(s0) == Prefix(s0, i + 1) - r &&
            Prefix(s0, i) <= k % Period(s0) < Prefix(s0, i + 1)
  {
    var (c, i, r) := Coords(s0, k);
    CoordsElapsed(s0, k);
    PrefixMonotone(s0, 0, i);
    PrefixMonotone(s0, i + 1, |s0.runqueue|);
    DivModUnique(k, Period(s0), c, Prefix(s0, i + 1) - r);
  }

  lemma MulAtLeast(d: int, p: int)
    requires d >= 1 && p > 0
    ensures d * p >= p
  {
  }

  lemma DivModUnique(k: nat, p: int, c: nat, m: int)
    requires p > 0 && k == c * p + m && 0 <= m < p
    ensures k / p == c && k % p == m
  {
    var d := k / p - c;
    assert d * p == (k / p) * p - c * p;
    assert k == (k / p) * p + k % p;
    assert (-d) * p == -(d * p);
    if d >= 1 {
      MulAtLeast(d, p);
    } else if d <= -1 {
      MulAtLeast(-d, p);
    }
  }

  /**
   Closed form of round-robin. With S the sum of the slices and P_i the sum of the first i, after
   k >= 1 ticks the thread running is the one whose interval [P_i, P_{i+1}) holds k mod S; what is
   left of its slice, the rotation of the queue and the number of context switches follow.
   */
  lemma ClosedForm(s0: Sched, k: nat) returns (i: nat)
    requires Fresh(s0) && k >= 1
    ensures Period(s0) > 0
    ensures i < |s0.runqueue|
    ensures Prefix(s0, i) <= k % Period(s0) < Prefix(s0, i + 1)
    ensures TickN(s0, k).current == Some(s0.runqueue[i])
    ensures TickN(s0, k).threads[s0.runqueue[i]].remaining == Prefix(s0, i + 1) - k % Period(s0)
    ensures TickN(s0, k).runqueue == s0.runqueue[i..] + s0.runqueue[..i]
    ensures TickN(s0, k).switches == s0.switches + (k / Period(s0)) * |s0.runqueue| + i
  {
    CoordsPhase(s0, k);
    CoordsDivMod(s0, k);
    i := Coords(s0, k).1;
  }

  /** The interval, and so the running thread, is determined by k. */
  lemma IntervalUnique(s0: Sched, m: int, i: nat, j: nat)
    requires Inv(s0) && i < |s0.runqueue| && j < |s0.runqueue|
    requires Prefix(s0, i) <= m < Prefix(s0, i + 1)
    requires Prefix(s0, j) <= m < Prefix(s0, j + 1)
    ensures i == j
  {
    if i < j {
      PrefixMonotone(s0, i + 1, j);
    } else if j < i {
      PrefixMonotone(s0, j + 1, i);
    }
  }

  /** Fairness: over any whole number of periods each thread is charged exactly its slice per period. */
  lemma FairShare(s0: Sched, rounds: nat, j: nat)
    requires Fresh(s0) && j < |s0.runqueue|
    ensures Period(s0) > 0
    ensures rounds * Period(s0) >= 0
    ensures ChargedTicks(s0, rounds * Period(s0), s0.runqueue[j]) == rounds * Slice(s0, j)
  {
    PrefixMonotone(s0, 0, |s0.runqueue|);
    MulNonNegative(rounds, Period(s0));
    var k := rounds * Period(s0);
    CoordsShare(s0, k, j);
    CoordsDivMod(s0, k);
    DivModUnique(k, Period(s0), rounds, 0);
    PrefixMonotone(s0, 0, Coords(s0, k).1);
  }

  lemma MulNonNegative(a: nat, b: nat)
    ensures a * b >= 0
  {
  }
}
