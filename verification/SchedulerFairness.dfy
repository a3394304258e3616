/**
 Bounded waiting. A READY process other than idle has a rank made of its queue level, its
 waiting time, its place in the queue and the quantum of the running process. Every timer
 tick lowers the rank, no other step raises it, and it is at most 717 ticks: two trips
 through the aging threshold plus one quantum for every process that can be ahead.
 */
module SchedulerFairness {
  import opened SchedulerModel
  import opened SchedulerInvariant
  import Arithmetic

  const AGING_TICKS: nat := AGING_THRESHOLD + 1
  const ROUND: nat := SCHED_QUANTUM_TICKS * (PROCESS_MAX - 1)
  const WAIT_BOUND: nat := 2 * AGING_TICKS + ROUND

  predicate Waiting(s: State, p: nat)
    requires WellFormed(s)
  {
    0 < p < PROCESS_MAX && s.procs[p].state == Ready
  }

  /** The number of processes ahead of p in its queue. */
  ghost function Ahead(s: State, p: nat): (n: nat)
    requires Inv(s) && Waiting(s, p)
    ensures n < |s.queues[s.procs[p].priority]|
  {
    Standing(s, p);
    IndexOf(s.queues[s.procs[p].priority], p)
  }

  /** A waiting process stands in the queue of its priority. */
  lemma Standing(s: State, p: nat)
    requires QueueInv(s) && TableInv(s) && Waiting(s, p)
    ensures s.procs[p].priority < PRIORITY_LEVELS && p in s.queues[s.procs[p].priority]
    ensures s.procs[p].waitTicks <= AGING_THRESHOLD
  {
    assert PcbInv(s.procs[p], p);
    assert Queued(s.procs[p], p, s.procs[p].priority);
  }

  ghost function Rank(s: State, p: nat): (n: int)
    requires Inv(s) && Waiting(s, p)
  {
    var pcb := s.procs[p];
    if pcb.priority == 0 then SCHED_QUANTUM_TICKS * Ahead(s, p) + s.procs[s.cur].quantumLeft
    else (AGING_TICKS - pcb.waitTicks) + ROUND + (pcb.priority - 1) * AGING_TICKS
  }

  // ---------------------------------------------------------------------------
  // At most 63 processes can be queued
  // ---------------------------------------------------------------------------

  lemma QueueLength(s: State, q: nat)
    requires QueueInv(s) && q < PRIORITY_LEVELS
    ensures |s.queues[q]| <= PROCESS_MAX - 1
  {
    forall k | 0 <= k < |s.queues[q]| ensures 1 <= s.queues[q][k] < PROCESS_MAX {
      var x := s.queues[q][k];
      assert x in s.queues[q] <==> Queued(s.procs[x], x, q);
    }
    if |s.queues[q]| > PROCESS_MAX - 1 {
      var i, j := Arithmetic.Repeats(s.queues[q], 1, PROCESS_MAX - 1);
      assert false;
    }
  }

  lemma RankBounds(s: State, p: nat)
    requires Inv(s) && Waiting(s, p)
    ensures 1 <= Rank(s, p) <= WAIT_BOUND
    ensures s.procs[p].priority == 0 ==> Rank(s, p) <= ROUND
  {
    Standing(s, p);
    QueueLength(s, s.procs[p].priority);
  }

  // ---------------------------------------------------------------------------
  // Places in a queue
  // ---------------------------------------------------------------------------

  lemma {:induction false} IndexOfAppend(xs: seq<nat>, y: nat, x: nat)
    requires x in xs
    ensures IndexOf(xs + [y], x) == IndexOf(xs, x)
  {
    if xs[0] != x {
      assert (xs + [y])[1..] == xs[1..] + [y];
      IndexOfAppend(xs[1..], y, x);
    }
  }

  /** Taking out one place moves nobody else back. */
  lemma {:induction false} IndexOfCut(xs: seq<nat>, k: nat, x: nat)
    requires k < |xs| && x in xs && xs[k] != x
    ensures
      var r := xs[..k] + xs[k + 1..];
      x in r && IndexOf(r, x) <= IndexOf(xs, x)
    decreases k
  {
    var r := xs[..k] + xs[k + 1..];
    if k == 0 {
      assert r == xs[1..];
    } else if xs[0] == x {
      assert r[0] == x;
    } else {
      assert r[1..] == xs[1..][..k - 1] + xs[1..][k..];
      IndexOfCut(xs[1..], k - 1, x);
      assert r[0] == xs[0];
    }
  }

  lemma IndexOfRemove(xs: seq<nat>, y: nat, x: nat)
    requires x in xs && x != y
    ensures x in Remove(xs, y) && IndexOf(Remove(xs, y), x) <= IndexOf(xs, x)
  {
    var k := IndexOf(xs, y);
    if k < |xs| { IndexOfCut(xs, k, x); }
  }

  // ---------------------------------------------------------------------------
  // What the steps do to a waiting process
  // ---------------------------------------------------------------------------

  /** p still waits as before, and nobody has overtaken it. */
  ghost predicate KeepsPlace(s: State, r: State, p: nat)
    requires SchedInv(s) && Waiting(s, p)
  {
    Standing(s, p);
    && SchedInv(r)
    && r.procs[p] == s.procs[p]
    && (var q := s.procs[p].priority;
        p in r.queues[q] && IndexOf(r.queues[q], p) <= IndexOf(s.queues[q], p))
  }

  lemma MakeReadyPlace(s: State, x: nat, p: nat)
    requires SchedInv(s) && Waiting(s, p) && 0 < x < PROCESS_MAX && x != s.cur
    requires s.procs[x].state == Blocked || s.procs[x].state == Sleeping
    ensures KeepsPlace(s, MakeReady(s, x), p)
  {
    Standing(s, p);
    MakeReadyInv(s, x);
    IndexOfAppend(s.queues[s.procs[p].priority], x, p);
  }

  lemma WakeOnePlace(s: State, i: nat, p: nat)
    requires SchedInv(s) && s.procs[s.cur].state == Running && Waiting(s, p) && i < PROCESS_MAX
    ensures KeepsPlace(s, WakeOne(s, i), p)
  {
    Standing(s, p);
    if Due(s, i) {
      assert PcbInv(s.procs[i], i);
      MakeReadyPlace(s, i, p);
    }
  }

  lemma {:induction false} WakePlace(s: State, i: nat, p: nat)
    requires SchedInv(s) && s.procs[s.cur].state == Running && Waiting(s, p) && i <= PROCESS_MAX
    ensures KeepsPlace(s, WakeFrom(s, i), p)
    decreases PROCESS_MAX - i
  {
    Standing(s, p);
    if i < PROCESS_MAX {
      WakeOneInv(s, i);
      WakeOnePlace(s, i, p);
      WakePlace(WakeOne(s, i), i + 1, p);
    }
  }

  lemma AgeOtherPlace(s: State, x: nat, q: nat, p: nat)
    requires SchedInv(s) && s.procs[s.cur].state == Running && Waiting(s, p)
    requires 0 < q < PRIORITY_LEVELS && x in s.queues[q] && x != p
    ensures KeepsPlace(s, AgeItem(s, x, q), p)
  {
    Standing(s, p);
    AgeItemInv(s, x, q);
    assert Queued(s.procs[x], x, q);
    var l := s.procs[p].priority;
    if s.procs[x].waitTicks + 1 > AGING_THRESHOLD {
      var s1 := OneTickOlder(s, x);
      BumpPromoteInv(s, x, q);
      PromoteOtherQueues(s, x, q);
      IndexOfRemove(s.queues[l], x, p);
      IndexOfAppend(s.queues[l], x, p);
    }
  }

  /** The queues after an aging promotion. */
  lemma PromoteOtherQueues(s: State, x: nat, q: nat)
    requires SchedInv(s) && 0 < q < PRIORITY_LEVELS && x in s.queues[q] && s.procs[x].waitTicks + 1 > AGING_THRESHOLD
    ensures AgeItem(s, x, q).queues == s.queues[q := Remove(s.queues[q], x)][q - 1 := s.queues[q - 1] + [x]]
  {
    assert Queued(s.procs[x], x, q);
    assert PcbInv(s.procs[x], x);
    var pcb := SchedulerModel.Older(s.procs[x]);
    QuietUpdate(s, x, pcb);
    PromoteShape(s.(procs := s.procs[x := pcb]), x, q);
  }

  lemma {:induction false} AgeOthersPlace(s: State, items: seq<nat>, q: nat, p: nat)
    requires SchedInv(s) && s.procs[s.cur].state == Running && Waiting(s, p) && 0 < q < PRIORITY_LEVELS
    requires NoDup(items) && p !in items && forall k :: 0 <= k < |items| ==> items[k] in s.queues[q]
    ensures forall k :: 0 <= k < |items| ==> items[k] < PROCESS_MAX
    ensures KeepsPlace(s, AgeItems(s, items, q), p)
    decreases |items|
  {
    Standing(s, p);
    if items != [] {
      AgeItemInv(s, items[0], q);
      AgeOtherPlace(s, items[0], q, p);
      AgeOthersPlace(AgeItem(s, items[0], q), items[1..], q, p);
      assert forall k :: 0 <= k < |items| ==> items[k] in s.queues[q];
    }
  }

  /** p has aged one tick at its level, or has moved up one level with a fresh waiting time. */
  predicate Aged(before: Pcb, after: Pcb) {
    && after.state == Ready
    && if before.waitTicks < 200
       then after.priority == before.priority && after.waitTicks == before.waitTicks + 1
       else after.priority == before.priority - 1 && after.waitTicks == 0
  }

  lemma AgeSelf(s: State, q: nat, p: nat)
    requires SchedInv(s) && s.procs[s.cur].state == Running && Waiting(s, p)
    requires 0 < q < PRIORITY_LEVELS && p in s.queues[q]
    ensures Aged(s.procs[p], AgeItem(s, p, q).procs[p])
  {
    Standing(s, p);
    assert Queued(s.procs[p], p, q);
    if s.procs[p].waitTicks + 1 > AGING_THRESHOLD {
      BumpPromoteInv(s, p, q);
    }
  }

  lemma AgeListFromSelf(s: State, items: seq<nat>, q: nat, p: nat)
    requires SchedInv(s) && s.procs[s.cur].state == Running && Waiting(s, p) && 0 < q < PRIORITY_LEVELS
    requires NoDup(items) && items != [] && items[0] == p && forall k :: 0 <= k < |items| ==> items[k] in s.queues[q]
    ensures forall k :: 0 <= k < |items| ==> items[k] < PROCESS_MAX
    ensures Aged(s.procs[p], AgeItems(s, items, q).procs[p])
  {
    assert forall k :: 0 <= k < |items| ==> items[k] in s.queues[q];
    AgeItemInv(s, p, q);
    AgeSelf(s, q, p);
    AgeOthersPlace(AgeItem(s, p, q), items[1..], q, p);
  }

  lemma {:induction false} AgeListWithSelf(s: State, items: seq<nat>, q: nat, p: nat)
    requires SchedInv(s) && s.procs[s.cur].state == Running && Waiting(s, p) && 0 < q < PRIORITY_LEVELS
    requires NoDup(items) && p in items && forall k :: 0 <= k < |items| ==> items[k] in s.queues[q]
    ensures forall k :: 0 <= k < |items| ==> items[k] < PROCESS_MAX
    ensures Aged(s.procs[p], AgeItems(s, items, q).procs[p])
    decreases |items|
  {
    assert forall k :: 0 <= k < |items| ==> items[k] in s.queues[q];
    if items[0] == p {
      AgeListFromSelf(s, items, q, p);
    } else {
      AgeItemInv(s, items[0], q);
      AgeOtherPlace(s, items[0], q, p);
      AgeListWithSelf(AgeItem(s, items[0], q), items[1..], q, p);
    }
  }

  /** The bookkeeping half of a tick, seen from a waiting process. */
  ghost predicate Older(s: State, r: State, p: nat)
    requires SchedInv(s) && Waiting(s, p)
  {
    if s.procs[p].priority == 0 then KeepsPlace(s, r, p)
    else WellFormed(r) && Aged(s.procs[p], r.procs[p])
  }

  lemma AgingOlder(s: State, p: nat)
    requires SchedInv(s) && s.procs[s.cur].state == Running && Waiting(s, p)
    ensures Older(s, ApplyAging(s), p)
  {
    Standing(s, p);
    AgeItemsInv(s, s.queues[1], 1);
    var s1 := AgeItems(s, s.queues[1], 1);
    assert p in s.queues[1] <==> Queued(s.procs[p], p, 1);
    if s.procs[p].priority == 1 {
      AgeListWithSelf(s, s.queues[1], 1, p);
      assert p in s1.queues[2] <==> Queued(s1.procs[p], p, 2);
      AgeOthersPlace(s1, s1.queues[2], 2, p);
    } else {
      AgeOthersPlace(s, s.queues[1], 1, p);
      assert p in s1.queues[2] <==> Queued(s1.procs[p], p, 2);
      if s.procs[p].priority == 2 {
        AgeListWithSelf(s1, s1.queues[2], 2, p);
      } else {
        AgeOthersPlace(s1, s1.queues[2], 2, p);
      }
    }
  }

  lemma BookkeepingOlder(s: State, p: nat)
    requires Inv(s) && Waiting(s, p)
    ensures Older(s, TickBookkeeping(s), p)
  {
    WakeInv(s, 0);
    WakePlace(s, 0, p);
    AgingOlder(WakeFrom(s, 0), p);
  }

  /** p gets the CPU, or it keeps its place and somebody ahead of it (at level 0) has left the queue. */
  ghost predicate Advances(s: State, r: State, p: nat)
    requires SchedInv(s) && Waiting(s, p)
  {
    Standing(s, p);
    && Inv(r)
    && (r.cur != p ==>
          && r.procs[p] == s.procs[p]
          && r.procs[r.cur].quantumLeft == SCHED_QUANTUM_TICKS
          && (s.procs[p].priority == 0 ==> IndexOf(r.queues[0], p) + 1 == IndexOf(s.queues[0], p)))
  }

  lemma DispatchAdvances(s: State, p: nat)
    requires SchedInv(s) && s.started && Waiting(s, p) && p != s.cur
    ensures Advances(s, Dispatch(s), p)
  {
    Standing(s, p);
    DispatchInv(s);
    var q := BestQueue(s);
    var next := s.queues[q][0];
    if next != p { PassedOver(s, q, next, p); }
  }

  /** The head of the best queue leaves, and the current process may come to a tail. */
  lemma PassedOver(s: State, q: nat, next: nat, p: nat)
    requires SchedInv(s) && Waiting(s, p) && p != s.cur && q == BestQueue(s) < PRIORITY_LEVELS
    requires next == s.queues[q][0] != p && s.procs[p].priority < PRIORITY_LEVELS && p in s.queues[s.procs[p].priority]
    ensures
      var l, r := s.procs[p].priority, SwitchTo(Pop(s, q), next);
      r.procs[p] == s.procs[p] && (l == 0 ==> IndexOf(r.queues[0], p) + 1 == IndexOf(s.queues[0], p))
  {
    var l := s.procs[p].priority;
    SwitchQueue(Pop(s, q), next, l);
    if l == 0 { OneCloser(s.queues[0], s.cur, p); }
  }

  /** A switch leaves a queue as it is, or appends the process that gives up the CPU. */
  lemma SwitchQueue(s: State, next: nat, l: nat)
    requires WellFormed(s) && next < PROCESS_MAX && l < PRIORITY_LEVELS
    ensures
      var r := SwitchTo(s, next);
      r.queues[l] == s.queues[l] || r.queues[l] == s.queues[l] + [s.cur]
  {
  }

  lemma OneCloser(xs: seq<nat>, y: nat, x: nat)
    requires x in xs && xs[0] != x
    ensures x in xs[1..] && IndexOf(xs[1..], x) + 1 == IndexOf(xs, x) == IndexOf(xs[1..] + [y], x) + 1
  {
    assert xs == [xs[0]] + xs[1..];
    IndexOfAppend(xs[1..], y, x);
  }

  lemma {:induction false} ReapPlace(s: State, i: nat, p: nat)
    requires SchedInv(s) && i <= PROCESS_MAX && p < PROCESS_MAX && s.procs[p].state != Zombie
    ensures ReapFrom(s, i).procs[p] == s.procs[p]
    decreases PROCESS_MAX - i
  {
    if i < PROCESS_MAX {
      ReapOneInv(s, i);
      ReapPlace(ReapOne(s, i), i + 1, p);
    }
  }

  lemma ScheduleAdvances(s: State, p: nat)
    requires SchedInv(s) && s.started && Waiting(s, p) && p != s.cur
    ensures Advances(s, Schedule(s), p)
  {
    ReapInv(s, 0);
    ReapPlace(s, 0, p);
    DispatchAdvances(ReapFrom(s, 0), p);
  }

  // ---------------------------------------------------------------------------
  // The rank along one step
  // ---------------------------------------------------------------------------

  /** p is dispatched, or it still waits and its rank has dropped by at least d. */
  ghost predicate Lowers(s: State, r: State, p: nat, d: nat)
    requires Inv(s) && Waiting(s, p)
  {
    Inv(r) && (r.cur == p || (Waiting(r, p) && Rank(r, p) + d <= Rank(s, p)))
  }

  lemma OlderRank(s: State, r: State, p: nat)
    requires Inv(s) && Waiting(s, p) && Inv(r) && CurrentKept(s, r) && Older(s, r, p)
    ensures Waiting(r, p) && Rank(r, p) + (if s.procs[p].priority == 0 then 0 else 1) <= Rank(s, p)
    ensures s.procs[p].priority == 0 ==> r.procs[p].priority == 0
  {
    Standing(s, p);
    RankBounds(r, p);
  }

  lemma PlaceRank(s: State, r: State, p: nat)
    requires Inv(s) && Waiting(s, p) && Inv(r) && KeepsPlace(s, r, p)
    requires r.procs[r.cur].quantumLeft <= s.procs[s.cur].quantumLeft
    ensures Lowers(s, r, p, 0)
  {
  }

  lemma AdvancesRank(s: State, m: State, r: State, p: nat)
    requires Inv(s) && Waiting(s, p) && KeepsPlace(s, m, p) && Advances(m, r, p)
    ensures Lowers(s, r, p, if s.procs[p].priority == 0 then 1 else 0)
  {
    Standing(s, p);
  }

  lemma BurnPlace(s: State, p: nat)
    requires Inv(s) && Waiting(s, p)
    ensures KeepsPlace(s, Burn(s), p)
  {
    Standing(s, p);
    BurnInv(s);
  }

  lemma PreemptRank(s: State, p: nat)
    requires Inv(s) && s.started && Waiting(s, p)
    ensures Lowers(s, Preempt(s), p, if s.procs[p].priority == 0 then 1 else 0)
  {
    BurnInv(s);
    BurnPlace(s, p);
    PreemptInv(s);
    if HigherReady(s) || Burn(s).procs[s.cur].quantumLeft == 0 {
      ScheduleAdvances(Burn(s), p);
      AdvancesRank(s, Burn(s), Schedule(Burn(s)), p);
    }
  }

  lemma BookkeepThenPreemptRank(s: State, p: nat)
    requires Inv(s) && s.started && Waiting(s, p)
    ensures Lowers(s, Preempt(TickBookkeeping(s)), p, 1)
  {
    BookkeepingInv(s);
    BookkeepingOlder(s, p);
    OlderRank(s, TickBookkeeping(s), p);
    PreemptRank(TickBookkeeping(s), p);
  }

  lemma ClockRank(s: State, p: nat)
    requires Inv(s) && Waiting(s, p)
    ensures Inv(Advance(s)) && Waiting(Advance(s), p) && Rank(Advance(s), p) == Rank(s, p)
  {
    ClockInv(s);
  }

  /** Every timer tick lowers the rank of every waiting process. */
  lemma TickRank(s: State, p: nat)
    requires Inv(s) && s.started && Waiting(s, p)
    ensures Lowers(s, Tick(s), p, 1)
  {
    ClockRank(s, p);
    BookkeepThenPreemptRank(Advance(s), p);
  }

  lemma WakeParentPlace(s: State, x: nat, p: nat)
    requires SchedInv(s) && x < PROCESS_MAX && s.procs[s.cur].state != Blocked && Waiting(s, p)
    ensures KeepsPlace(s, WakeParent(s, x), p)
  {
    Standing(s, p);
    WakeParentInv(s, x);
    var parent := ByPid(s.procs, s.procs[x].ppid);
    if parent < PROCESS_MAX && s.procs[parent].parentWaiting && s.procs[parent].state == Blocked {
      assert PcbInv(s.procs[parent], parent);
      MakeReadyPlace(s, parent, p);
    }
  }

  lemma ScheduleRank(s: State, m: State, p: nat)
    requires Inv(s) && Waiting(s, p) && SchedInv(m) && m.started && m.cur == s.cur && KeepsPlace(s, m, p)
    ensures Lowers(s, Schedule(m), p, 0)
  {
    ScheduleAdvances(m, p);
    AdvancesRank(s, m, Schedule(m), p);
  }

  lemma StopRank(s: State, pcb: Pcb, p: nat)
    requires Inv(s) && Waiting(s, p) && s.cur != 0 && s.started
    requires pcb.state == Blocked || pcb.state == Sleeping
    requires pcb.pid == s.procs[s.cur].pid && pcb.priority == s.procs[s.cur].priority
    requires pcb.basePriority == s.procs[s.cur].basePriority
    ensures Lowers(s, Schedule(StopCurrent(s, pcb)), p, 0)
  {
    Standing(s, p);
    StopCurrentInv(s, pcb);
    ScheduleRank(s, StopCurrent(s, pcb), p);
  }

  lemma YieldRank(s: State, p: nat)
    requires Inv(s) && Waiting(s, p) && s.started
    ensures Lowers(s, Yield(s), p, 0)
  {
    Standing(s, p);
    QuantumInv(s, 0);
    ScheduleRank(s, SetQuantum(s, 0), p);
  }

  lemma ZombieCurrentInv(s: State, code: int)
    requires Inv(s) && s.cur != 0
    ensures SchedInv(MakeZombie(s, s.cur, code))
  {
    StopCurrentInv(s, s.procs[s.cur].(state := Zombie, exitCode := code, hasUserStack := false));
  }

  lemma ExitRank(s: State, code: int, p: nat)
    requires Inv(s) && Waiting(s, p) && s.cur != 0 && s.started
    ensures Lowers(s, Exit(s, code), p, 0)
  {
    Standing(s, p);
    ZombieCurrentInv(s, code);
    var z := MakeZombie(s, s.cur, code);
    WakeParentInv(z, s.cur);
    WakeParentPlace(z, s.cur, p);
    ScheduleRank(s, WakeParent(z, s.cur), p);
  }

  lemma KilledPlace(s: State, x: nat, p: nat)
    requires Inv(s) && Waiting(s, p) && 0 < x < PROCESS_MAX && x != s.cur && x != p && Live(s.procs[x])
    ensures WellFormed(Dequeue(s, x)) && KeepsPlace(s, MakeZombie(Dequeue(s, x), x, -1), p)
  {
    Standing(s, p);
    var pcb := s.procs[x].(state := Zombie, exitCode := -1, hasUserStack := false);
    DequeueStopped(s, x, pcb);
    assert PcbInv(s.procs[x], x);
    var q := QueueHolding(s, x);
    if q < PRIORITY_LEVELS && q == s.procs[p].priority {
      IndexOfRemove(s.queues[q], x, p);
    }
  }

  lemma KillRank(s: State, pid: nat, p: nat)
    requires Inv(s) && Waiting(s, p) && s.cur != 0 && s.started
    requires ByPid(s.procs, pid) != p
    ensures Lowers(s, Kill(s, pid), p, 0)
  {
    var x := ByPid(s.procs, pid);
    if pid == 0 || x == PROCESS_MAX || s.procs[x].state == Zombie {
    } else if x == s.cur {
      ExitRank(s, -1, p);
    } else {
      assert PcbInv(s.procs[x], x);
      KilledPlace(s, x, p);
      KilledThenWakeRank(s, x, p);
    }
  }

  lemma KilledThenWakeRank(s: State, x: nat, p: nat)
    requires Inv(s) && Waiting(s, p) && 0 < x < PROCESS_MAX && x != s.cur && x != p && Live(s.procs[x])
    ensures WellFormed(Dequeue(s, x))
    ensures Lowers(s, WakeParent(MakeZombie(Dequeue(s, x), x, -1), x), p, 0)
  {
    KilledPlace(s, x, p);
    var z := MakeZombie(Dequeue(s, x), x, -1);
    WakeParentInv(z, x);
    WakeParentPlace(z, x, p);
    PlaceRank(s, WakeParent(z, x), p);
  }

  lemma CreateRank(s: State, priority: nat, valid: bool, user: bool, p: nat)
    requires Inv(s) && Waiting(s, p) && s.nextPid != 0
    ensures Lowers(s, Create(s, priority, valid, user), p, 0)
  {
    Standing(s, p);
    CreateInv(s, priority, valid, user);
    IndexOfAppend(s.queues[s.procs[p].priority], FreeSlotFrom(s.procs, 0), p);
    PlaceRank(s, Create(s, priority, valid, user), p);
  }

  lemma ForkRank(s: State, stacks: bool, p: nat)
    requires Inv(s) && Waiting(s, p) && s.cur != 0
    ensures Lowers(s, Fork(s, stacks), p, 0)
  {
    Standing(s, p);
    ForkInv(s, stacks);
    IndexOfAppend(s.queues[s.procs[p].priority], FreeSlotFrom(s.procs, 0), p);
    PlaceRank(s, Fork(s, stacks), p);
  }

  lemma WaitRank(s: State, p: nat)
    requires Inv(s) && Waiting(s, p) && s.cur != 0 && s.started
    ensures Lowers(s, Wait(s), p, 0)
  {
    var z := ZombieChildFrom(s.procs, s.cur, 0);
    if z < PROCESS_MAX {
      Standing(s, p);
      WaitInv(s);
      PlaceRank(s, Wait(s), p);
    } else if HasChild(s.procs, s.cur) {
      StopRank(s, s.procs[s.cur].(state := Blocked, parentWaiting := true), p);
    }
  }

  /** The action is a kill aimed at the process in slot p. */
  predicate Kills(s: State, a: Action, p: nat) {
    a.KillA? && ByPid(s.procs, a.pid) == p
  }

  /** No step raises the rank of a waiting process it does not kill, and a tick lowers it. */
  lemma StepRank(s: State, a: Action, p: nat)
    requires Inv(s) && s.started && Waiting(s, p) && Enabled(s, a) && !Kills(s, a, p)
    ensures Lowers(s, Next(s, a), p, if a.TickA? then 1 else 0)
  {
    match a
    case TickA => TickRank(s, p);
    case StartA =>
    case CreateA(priority, valid, user) => CreateRank(s, priority, valid, user, p);
    case ForkA(stacks) => ForkRank(s, stacks, p);
    case ExitA(code) => ExitRank(s, code, p);
    case KillA(pid) => KillRank(s, pid, p);
    case WaitA => WaitRank(s, p);
    case ResumeA =>
      Standing(s, p);
      StepInv(s, a);
      PlaceRank(s, Resume(s), p);
    case SleepA(ms) =>
      if ms == 0 { YieldRank(s, p); } else { StopRank(s, Asleep(s, ms), p); }
    case YieldA => YieldRank(s, p);
  }

  // ---------------------------------------------------------------------------
  // Every run
  // ---------------------------------------------------------------------------

  function Ticks(acts: seq<Action>): nat {
    if acts == [] then 0 else (if acts[0].TickA? then 1 else 0) + Ticks(acts[1..])
  }

  predicate NeverKilled(s: State, acts: seq<Action>, p: nat)
    requires WellFormed(s)
    decreases |acts|
  {
    acts == [] || (!Kills(s, acts[0], p) && NeverKilled(Next(s, acts[0]), acts[1..], p))
  }

  /** p holds the CPU in some state of the run. */
  predicate Dispatched(s: State, acts: seq<Action>, p: nat)
    requires WellFormed(s)
    decreases |acts|
  {
    s.cur == p || (acts != [] && Dispatched(Next(s, acts[0]), acts[1..], p))
  }

  lemma StartedForever(s: State, a: Action)
    requires Inv(s) && Enabled(s, a) && s.started
    ensures Next(s, a).started
  {
  }

  lemma {:induction false} UndispatchedTicks(s: State, acts: seq<Action>, p: nat)
    requires Inv(s) && s.started && Waiting(s, p) && Legal(s, acts) && NeverKilled(s, acts, p)
    requires !Dispatched(s, acts, p)
    ensures Ticks(acts) < Rank(s, p)
    decreases |acts|
  {
    if acts == [] {
      RankBounds(s, p);
    } else {
      StepRank(s, acts[0], p);
      StartedForever(s, acts[0]);
      UndispatchedTicks(Next(s, acts[0]), acts[1..], p);
    }
  }

  /**
   Bounded waiting: once the scheduler is active, a READY process other than idle that nobody
   kills is dispatched before WAIT_BOUND = 2 * 201 + 5 * 63 timer ticks have passed, whatever
   the other processes do.
   */
  lemma BoundedWaiting(s: State, acts: seq<Action>, p: nat)
    requires Inv(s) && s.started && Waiting(s, p) && Legal(s, acts) && NeverKilled(s, acts, p)
    requires Ticks(acts) >= WAIT_BOUND
    ensures Dispatched(s, acts, p)
  {
    if !Dispatched(s, acts, p) {
      RankBounds(s, p);
      UndispatchedTicks(s, acts, p);
    }
  }
}
