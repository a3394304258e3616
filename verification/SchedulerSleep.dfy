/**
 Two kinds of process that the scheduler must leave alone: a sleeper before its deadline, and
 a zombie whose parent may still collect it. One step lemma covers both. From it follow the
 exact wake-up tick of process_sleep and the rule that only the parent reaps.
 */
module SchedulerSleep {
  import opened SchedulerModel
  import opened SchedulerInvariant
  import opened SchedulerFairness
  import opened SchedulerWakeup

  /** q is the living parent, other than idle, of the zombie in slot x. */
  ghost predicate LivingParent(s: State, x: nat, q: nat)
    requires WellFormed(s) && x < PROCESS_MAX
  {
    && 0 < q < PROCESS_MAX && Alive(s.procs[q]) && s.procs[q].pid == s.procs[x].ppid
    && UniquePids(s.procs)
  }

  ghost predicate Settled(s: State, x: nat, q: nat)
    requires WellFormed(s)
  {
    x < PROCESS_MAX && (s.procs[x].state == Sleeping || (s.procs[x].state == Zombie && LivingParent(s, x, q)))
  }

  lemma SettledBenign(s: State, r: State, x: nat, q: nat)
    requires WellFormed(s) && WellFormed(r) && Settled(s, x, q)
    requires Benign(s.procs, r.procs) && r.procs[x] == s.procs[x]
    ensures Settled(r, x, q)
  {
    if s.procs[x].state == Zombie {
      assert BenignPcb(s.procs[q], r.procs[q]);
      BenignUnique(s.procs, r.procs);
    }
  }

  lemma ReapOneSettled(s: State, i: nat, x: nat, q: nat)
    requires SchedInv(s) && i < PROCESS_MAX && Settled(s, x, q)
    ensures ReapOne(s, i).procs[x] == s.procs[x] && Settled(ReapOne(s, i), x, q)
  {
    if s.procs[x].state == Zombie {
      assert PcbInv(s.procs[q], q);
      ByPidUnique(s.procs, q);
    }
    assert Benign(s.procs, ReapOne(s, i).procs);
    SettledBenign(s, ReapOne(s, i), x, q);
  }

  lemma {:induction false} ReapSettled(s: State, i: nat, x: nat, q: nat)
    requires SchedInv(s) && i <= PROCESS_MAX && Settled(s, x, q)
    ensures ReapFrom(s, i).procs[x] == s.procs[x]
    decreases PROCESS_MAX - i
  {
    if i < PROCESS_MAX {
      ReapOneInv(s, i);
      ReapOneSettled(s, i, x, q);
      ReapSettled(ReapOne(s, i), i + 1, x, q);
    }
  }

  lemma DispatchSettled(s: State, x: nat)
    requires SchedInv(s) && x < PROCESS_MAX && (s.procs[x].state == Sleeping || s.procs[x].state == Zombie)
    ensures Dispatch(s).procs[x] == s.procs[x]
  {
    IdleIsSlotZero(s);
    assert PcbInv(s.procs[x], x);
    var q := BestQueue(s);
    if q < PRIORITY_LEVELS {
      var next := s.queues[q][0];
      assert next in s.queues[q];
      assert Queued(s.procs[next], next, q);
    }
  }

  lemma ScheduleSettled(s: State, x: nat, q: nat)
    requires SchedInv(s) && Settled(s, x, q)
    ensures Schedule(s).procs[x] == s.procs[x]
  {
    if s.started {
      ReapInv(s, 0);
      ReapSettled(s, 0, x, q);
      DispatchSettled(ReapFrom(s, 0), x);
    }
  }

  lemma {:induction false} WakeSettled(s: State, i: nat, x: nat)
    requires WellFormed(s) && i <= PROCESS_MAX && x < PROCESS_MAX && !Due(s, x)
    ensures WakeFrom(s, i).procs[x] == s.procs[x]
    decreases PROCESS_MAX - i
  {
    if i < PROCESS_MAX {
      WakeSettled(WakeOne(s, i), i + 1, x);
    }
  }

  lemma AgeItemOthers(s: State, p: nat, q: nat, x: nat)
    requires WellFormed(s) && 0 < q < PRIORITY_LEVELS && p < PROCESS_MAX && x < PROCESS_MAX && x != p
    ensures AgeItem(s, p, q).procs[x] == s.procs[x]
  {
  }

  lemma {:induction false} AgeSettled(s: State, items: seq<nat>, q: nat, x: nat)
    requires WellFormed(s) && 0 < q < PRIORITY_LEVELS && x < PROCESS_MAX && x !in items
    requires forall k :: 0 <= k < |items| ==> items[k] < PROCESS_MAX
    ensures AgeItems(s, items, q).procs[x] == s.procs[x]
    decreases |items|
  {
    if items != [] {
      AgeItemOthers(s, items[0], q, x);
      AgeSettled(AgeItem(s, items[0], q), items[1..], q, x);
    }
  }

  lemma BookkeepingSettled(s: State, x: nat, q: nat)
    requires Inv(s) && Settled(s, x, q) && !Due(s, x)
    ensures TickBookkeeping(s).procs[x] == s.procs[x]
  {
    WakeSettled(s, 0, x);
    WakeInv(s, 0);
    var s1 := WakeFrom(s, 0);
    assert x in s1.queues[1] <==> Queued(s1.procs[x], x, 1);
    AgeSettled(s1, s1.queues[1], 1, x);
    AgeItemsInv(s1, s1.queues[1], 1);
    var s2 := AgeItems(s1, s1.queues[1], 1);
    assert x in s2.queues[2] <==> Queued(s2.procs[x], x, 2);
    AgeSettled(s2, s2.queues[2], 2, x);
  }

  lemma PreemptSettled(s: State, x: nat, q: nat)
    requires Inv(s) && Settled(s, x, q)
    ensures Preempt(s).procs[x] == s.procs[x]
  {
    BurnInv(s);
    assert Benign(s.procs, Burn(s).procs);
    SettledBenign(s, Burn(s), x, q);
    ScheduleSettled(Burn(s), x, q);
  }

  lemma TickSettled(s: State, x: nat, q: nat)
    requires Inv(s) && Settled(s, x, q) && !Due(Advance(s), x)
    ensures Tick(s).procs[x] == s.procs[x]
  {
    ClockInv(s);
    var s1 := Advance(s);
    if s.started {
      BookkeepingSettled(s1, x, q);
      BookkeepingInv(s1);
      BookkeepingBenign(s1);
      SettledBenign(s1, TickBookkeeping(s1), x, q);
      PreemptSettled(TickBookkeeping(s1), x, q);
    }
  }

  lemma StopSettled(s: State, pcb: Pcb, x: nat, q: nat)
    requires Inv(s) && s.cur != 0 && Settled(s, x, q)
    requires pcb.state == Blocked || pcb.state == Sleeping
    requires pcb.pid == s.procs[s.cur].pid && pcb.priority == s.procs[s.cur].priority
    requires pcb.basePriority == s.procs[s.cur].basePriority && pcb.ppid == s.procs[s.cur].ppid
    ensures Schedule(StopCurrent(s, pcb)).procs[x] == s.procs[x]
  {
    StopCurrentInv(s, pcb);
    var s1 := StopCurrent(s, pcb);
    if s.procs[x].state == Zombie {
      forall i, j | 0 <= i < j < |s1.procs| && Live(s1.procs[i]) && Live(s1.procs[j])
        ensures s1.procs[i].pid != s1.procs[j].pid
      {
        assert Live(s.procs[i]) && Live(s.procs[j]);
      }
    }
    ScheduleSettled(s1, x, q);
  }

  lemma ExitSettled(s: State, code: int, x: nat, q: nat)
    requires Inv(s) && s.cur != 0 && Settled(s, x, q) && (s.procs[x].state == Zombie ==> s.cur != q)
    ensures Exit(s, code).procs[x] == s.procs[x]
  {
    ZombieCurrentInv(s, code);
    var z := MakeZombie(s, s.cur, code);
    if s.procs[x].state == Zombie { MakeZombieUnique(s, s.cur, code); }
    assert Settled(z, x, q);
    var r := WakeParent(z, s.cur);
    WakeParentInv(z, s.cur);
    WakeParentBenign(z, s.cur);
    SettledBenign(z, r, x, q);
    ScheduleSettled(r, x, q);
  }

  lemma ExitEndsCurrent(s: State, code: int)
    requires Inv(s) && s.cur != 0
    ensures !Alive(Exit(s, code).procs[s.cur])
  {
    ZombieCurrentInv(s, code);
    var z := MakeZombie(s, s.cur, code);
    WakeParentInv(z, s.cur);
    ScheduleBenign(WakeParent(z, s.cur));
    assert BenignPcb(WakeParent(z, s.cur).procs[s.cur], Exit(s, code).procs[s.cur]);
  }

  /** Why a settled process may change in one step. */
  ghost predicate MayChange(s: State, a: Action, x: nat, q: nat)
    requires WellFormed(s) && Settled(s, x, q)
  {
    if s.procs[x].state == Sleeping then (a.TickA? && Due(Advance(s), x)) || Kills(s, a, x)
    else (a.WaitA? && s.cur == q) || !Alive(Next(s, a).procs[q])
  }

  lemma KillOtherSettled(s: State, p: nat, x: nat)
    requires WellFormed(s) && p < PROCESS_MAX && x < PROCESS_MAX && x != p
    requires s.procs[x].state == Sleeping || s.procs[x].state == Zombie
    ensures WakeParent(MakeZombie(Dequeue(s, p), p, -1), p).procs[x] == s.procs[x]
  {
  }

  lemma KillSettled(s: State, pid: nat, x: nat, q: nat)
    requires Inv(s) && s.cur != 0 && Settled(s, x, q) && (s.procs[x].state == Sleeping ==> ByPid(s.procs, pid) != x)
    requires s.procs[x].state == Zombie ==> s.cur != q || ByPid(s.procs, pid) != q
    ensures Kill(s, pid).procs[x] == s.procs[x]
  {
    var p := ByPid(s.procs, pid);
    if pid == 0 || p == PROCESS_MAX || s.procs[p].state == Zombie {
    } else if p == s.cur {
      ExitSettled(s, -1, x, q);
    } else {
      KillOtherSettled(s, p, x);
    }
  }

  lemma SuicideEndsCurrent(s: State, pid: nat)
    requires Inv(s) && s.cur != 0 && ByPid(s.procs, pid) == s.cur
    ensures !Alive(Kill(s, pid).procs[s.cur])
  {
    assert PcbInv(s.procs[s.cur], s.cur);
    ExitEndsCurrent(s, -1);
  }

  lemma WaitSettled(s: State, x: nat, q: nat)
    requires Inv(s) && s.cur != 0 && Settled(s, x, q) && !MayChange(s, WaitA, x, q)
    ensures Wait(s).procs[x] == s.procs[x]
  {
    var z := ZombieChildFrom(s.procs, s.cur, 0);
    if z < PROCESS_MAX {
      if z == x { ByPidUnique(s.procs, q); ByPidUnique(s.procs, s.cur); }
    } else if HasChild(s.procs, s.cur) {
      StopSettled(s, s.procs[s.cur].(state := Blocked, parentWaiting := true), x, q);
    }
  }

  /** A settled process is left exactly as it is by every other step. */
  lemma StepSettled(s: State, a: Action, x: nat, q: nat)
    requires Inv(s) && Enabled(s, a) && Settled(s, x, q) && !MayChange(s, a, x, q)
    ensures Next(s, a).procs[x] == s.procs[x]
  {
    match a
    case TickA => TickSettled(s, x, q);
    case StartA =>
    case CreateA(priority, valid, user) =>
    case ForkA(stacks) =>
    case ExitA(code) =>
      if s.cur == q { ExitEndsCurrent(s, code); }
      ExitSettled(s, code, x, q);
    case KillA(pid) =>
      if s.cur == q && ByPid(s.procs, pid) == q { SuicideEndsCurrent(s, pid); }
      KillSettled(s, pid, x, q);
    case WaitA => WaitSettled(s, x, q);
    case ResumeA =>
    case SleepA(ms) => SleepSettled(s, ms, x, q);
    case YieldA => YieldSettled(s, x, q);
  }

  lemma YieldSettled(s: State, x: nat, q: nat)
    requires Inv(s) && Settled(s, x, q)
    ensures Yield(s).procs[x] == s.procs[x]
  {
    QuantumInv(s, 0);
    assert Benign(s.procs, SetQuantum(s, 0).procs);
    SettledBenign(s, SetQuantum(s, 0), x, q);
    ScheduleSettled(SetQuantum(s, 0), x, q);
  }

  lemma SleepSettled(s: State, ms: nat, x: nat, q: nat)
    requires Inv(s) && s.cur != 0 && Settled(s, x, q)
    ensures Sleep(s, ms).procs[x] == s.procs[x]
  {
    if ms == 0 { YieldSettled(s, x, q); } else { StopSettled(s, Asleep(s, ms), x, q); }
  }

  // ---------------------------------------------------------------------------
  // Only the parent reaps
  // ---------------------------------------------------------------------------

  /** A zombie disappears only when its parent collects it, or when the parent is gone by then. */
  lemma OnlyParentReaps(s: State, a: Action, z: nat, q: nat)
    requires Inv(s) && UniquePids(s.procs) && Enabled(s, a) && z < PROCESS_MAX && s.procs[z].state == Zombie
    requires 0 < q < PROCESS_MAX && Alive(s.procs[q]) && s.procs[q].pid == s.procs[z].ppid
    requires Next(s, a).procs[z].state != Zombie && Alive(Next(s, a).procs[q])
    ensures a.WaitA? && s.cur == q
  {
    if !(a.WaitA? && s.cur == q) {
      StepSettled(s, a, z, q);
    }
  }

  // ---------------------------------------------------------------------------
  // Sleeping to the tick
  // ---------------------------------------------------------------------------

  lemma {:induction false} WakeReaches(s: State, i: nat, x: nat)
    requires WellFormed(s) && i <= x < PROCESS_MAX && Due(s, x)
    ensures WakeFrom(s, i).procs[x].state == Ready
    decreases PROCESS_MAX - i
  {
    if i == x {
      WakeSettled(WakeOne(s, i), i + 1, x);
    } else {
      WakeReaches(WakeOne(s, i), i + 1, x);
    }
  }

  lemma BookkeepingWakes(s: State, x: nat)
    requires Inv(s) && x < PROCESS_MAX && Due(s, x)
    ensures Waiting(TickBookkeeping(s), x)
  {
    assert PcbInv(s.procs[x], x);
    WakeReaches(s, 0, x);
    WakeInv(s, 0);
    AgingOlder(WakeFrom(s, 0), x);
  }

  /** The tick that reaches the deadline makes the sleeper runnable. */
  lemma TickWakes(s: State, x: nat)
    requires Inv(s) && s.started && x < PROCESS_MAX && Due(Advance(s), x)
    ensures Tick(s).procs[x].state == Ready || Tick(s).procs[x].state == Running
  {
    ClockInv(s);
    BookkeepingWakes(Advance(s), x);
    BookkeepingInv(Advance(s));
    PreemptRank(TickBookkeeping(Advance(s)), x);
  }

  /** Time advances by one on a tick and not otherwise. */
  lemma StepClock(s: State, a: Action)
    requires WellFormed(s)
    ensures Next(s, a).now == s.now + if a.TickA? then 1 else 0
  {
  }

  lemma {:induction false} StaysAsleep(s: State, acts: seq<Action>, x: nat)
    requires Inv(s) && Legal(s, acts) && NeverKilled(s, acts, x) && x < PROCESS_MAX
    requires s.procs[x].state == Sleeping && (Ticks(acts) == 0 || s.now + Ticks(acts) < s.procs[x].sleepUntil)
    ensures Inv(Run(s, acts)) && Run(s, acts).now == s.now + Ticks(acts) && Run(s, acts).procs[x] == s.procs[x]
    ensures s.started ==> Run(s, acts).started
    decreases |acts|
  {
    if acts != [] {
      StepInv(s, acts[0]);
      StepSettled(s, acts[0], x, 0);
      StepClock(s, acts[0]);
      if s.started { StartedForever(s, acts[0]); }
      StaysAsleep(Next(s, acts[0]), acts[1..], x);
    }
  }

  /** Ticks a sleep of ms milliseconds lasts: at least one, even if the 32-bit sum wraps. */
  function SleepLength(ms: nat): nat {
    if SleepTicks(ms) == 0 then 1 else SleepTicks(ms)
  }

  lemma GoesToSleep(s: State, ms: nat)
    requires Inv(s) && s.started && s.cur != 0 && 0 < ms < UINT32_SIZE
    ensures Inv(Sleep(s, ms)) && Sleep(s, ms).procs[s.cur] == Asleep(s, ms) && Sleep(s, ms).now == s.now
    ensures Sleep(s, ms).started
  {
    SleepInv(s, ms);
    StopCurrentInv(s, Asleep(s, ms));
    ScheduleSettled(StopCurrent(s, Asleep(s, ms)), s.cur, 0);
  }

  /**
   process_sleep(ms) ends at precisely the tick numbered start + SleepLength(ms): in every run
   that does not kill the sleeper it is still asleep after `acts` as long as that tick has not
   come, and the tick itself makes it runnable.
   */
  lemma SleepExactness(s: State, ms: nat, acts: seq<Action>)
    requires Inv(s) && s.started && s.cur != 0 && 0 < ms < UINT32_SIZE
    requires Legal(Sleep(s, ms), acts) && NeverKilled(Sleep(s, ms), acts, s.cur)
    requires Ticks(acts) < SleepLength(ms)
    ensures
      var before := Run(Sleep(s, ms), acts);
      && before.now == s.now + Ticks(acts) && before.procs[s.cur].state == Sleeping
      && (before.now + 1 == s.now + SleepLength(ms) ==>
            Tick(before).procs[s.cur].state == Ready || Tick(before).procs[s.cur].state == Running)
  {
    GoesToSleep(s, ms);
    StaysAsleep(Sleep(s, ms), acts, s.cur);
    var before := Run(Sleep(s, ms), acts);
    if before.now + 1 == s.now + SleepLength(ms) {
      TickWakes(before, s.cur);
    }
  }

  /** The sleep lasts ceil(ms / 10) ticks exactly when ms + 9 does not wrap. */
  lemma SleepLengthIsRoundedUp(ms: nat)
    requires 0 < ms < UINT32_SIZE
    ensures SleepLength(ms) == (ms + 9) / 10 <==> ms <= UINT32_SIZE - 10
  {
  }

  // ---------------------------------------------------------------------------
  // Between steps every sleeper's deadline lies ahead
  // ---------------------------------------------------------------------------

  ghost predicate DeadlinesAhead(s: State) {
    forall x :: 0 <= x < |s.procs| && s.procs[x].state == Sleeping ==> s.now < s.procs[x].sleepUntil
  }

  /** Every sleeper of b already slept in a, until the same tick. */
  ghost predicate NoNewSleepers(a: seq<Pcb>, b: seq<Pcb>) {
    |a| == |b| && forall x :: 0 <= x < |a| && b[x].state == Sleeping ==>
        a[x].state == Sleeping && a[x].sleepUntil == b[x].sleepUntil
  }

  lemma BenignSleepers(a: seq<Pcb>, b: seq<Pcb>)
    requires Benign(a, b)
    ensures NoNewSleepers(a, b)
  {
    forall x | 0 <= x < |a| && b[x].state == Sleeping
      ensures a[x].state == Sleeping && a[x].sleepUntil == b[x].sleepUntil
    {
      assert BenignPcb(a[x], b[x]);
    }
  }

  lemma ScheduleSleepers(s: State)
    requires SchedInv(s)
    ensures NoNewSleepers(s.procs, Schedule(s).procs)
  {
    ScheduleBenign(s);
    BenignSleepers(s.procs, Schedule(s).procs);
  }

  lemma ExitSleepers(s: State, code: int)
    requires Inv(s) && s.cur != 0
    ensures NoNewSleepers(s.procs, Exit(s, code).procs)
  {
    ZombieCurrentInv(s, code);
    var z := MakeZombie(s, s.cur, code);
    WakeParentInv(z, s.cur);
    WakeParentBenign(z, s.cur);
    BenignSleepers(z.procs, WakeParent(z, s.cur).procs);
    ScheduleSleepers(WakeParent(z, s.cur));
  }

  lemma KillSleepers(s: State, pid: nat)
    requires Inv(s) && s.cur != 0
    ensures NoNewSleepers(s.procs, Kill(s, pid).procs)
  {
    var p := ByPid(s.procs, pid);
    if pid == 0 || p == PROCESS_MAX || s.procs[p].state == Zombie {
    } else if p == s.cur {
      ExitSleepers(s, -1);
    } else {
      var z := MakeZombie(Dequeue(s, p), p, -1);
      WakeParentBenign(z, p);
      BenignSleepers(z.procs, WakeParent(z, p).procs);
    }
  }

  lemma WaitSleepers(s: State)
    requires Inv(s) && s.cur != 0
    ensures NoNewSleepers(s.procs, Wait(s).procs)
  {
    var z := ZombieChildFrom(s.procs, s.cur, 0);
    if z == PROCESS_MAX && HasChild(s.procs, s.cur) {
      var pcb := s.procs[s.cur].(state := Blocked, parentWaiting := true);
      StopCurrentInv(s, pcb);
      ScheduleSleepers(StopCurrent(s, pcb));
    }
  }

  lemma YieldSleepers(s: State)
    requires Inv(s)
    ensures NoNewSleepers(s.procs, Yield(s).procs)
  {
    YieldBenign(s);
    BenignSleepers(s.procs, Yield(s).procs);
  }

  lemma TickDeadlines(s: State)
    requires Inv(s) && s.started && DeadlinesAhead(s)
    ensures DeadlinesAhead(Tick(s))
  {
    TickBenign(s);
    BenignSleepers(s.procs, Tick(s).procs);
    forall x | 0 <= x < PROCESS_MAX && Tick(s).procs[x].state == Sleeping
      ensures s.now + 1 < Tick(s).procs[x].sleepUntil
    {
      if Due(Advance(s), x) { TickWakes(s, x); }
    }
  }

  lemma DozeDeadlines(s: State, ms: nat)
    requires Inv(s) && DeadlinesAhead(s) && 0 < ms <= UINT32_SIZE - 10
    ensures DeadlinesAhead(StopCurrent(s, Asleep(s, ms)))
  {
  }

  lemma ThenScheduleDeadlines(s: State)
    requires SchedInv(s) && DeadlinesAhead(s)
    ensures DeadlinesAhead(Schedule(s))
  {
    ScheduleSleepers(s);
  }

  lemma SleepDeadlines(s: State, ms: nat)
    requires Inv(s) && s.started && s.cur != 0 && DeadlinesAhead(s) && ms <= UINT32_SIZE - 10
    ensures DeadlinesAhead(Sleep(s, ms))
  {
    if ms == 0 {
      YieldSleepers(s);
    } else {
      StopCurrentInv(s, Asleep(s, ms));
      DozeDeadlines(s, ms);
      ThenScheduleDeadlines(StopCurrent(s, Asleep(s, ms)));
    }
  }

  /** Nobody sleeps before the scheduler starts; from then on every deadline lies ahead. */
  ghost predicate Timely(s: State) {
    DeadlinesAhead(s) && (!s.started ==> forall x :: 0 <= x < |s.procs| ==> s.procs[x].state != Sleeping)
  }

  /** The sleep asked for, if any, has a length that does not wrap. */
  predicate NoWrappedSleep(a: Action) {
    a.SleepA? ==> a.ms <= UINT32_SIZE - 10
  }

  /** Every step keeps it, as long as nobody asks for a sleep whose length wraps. */
  lemma StepTimely(s: State, a: Action)
    requires Inv(s) && Enabled(s, a) && Timely(s) && NoWrappedSleep(a)
    ensures Timely(Next(s, a))
  {
    if s.started {
      StepDeadlines(s, a);
      StartedForever(s, a);
    }
  }

  lemma {:induction false} RunTimely(s: State, acts: seq<Action>)
    requires Inv(s) && Legal(s, acts) && Timely(s) && forall i :: 0 <= i < |acts| ==> NoWrappedSleep(acts[i])
    ensures Timely(Run(s, acts))
    decreases |acts|
  {
    if acts != [] {
      StepInv(s, acts[0]);
      StepTimely(s, acts[0]);
      RunTimely(Next(s, acts[0]), acts[1..]);
    }
  }

  /** In every state reachable from boot without wrapped sleeps, every sleeper's deadline lies ahead. */
  lemma DeadlinesAlwaysAhead(acts: seq<Action>)
    requires Legal(Init(), acts) && forall i :: 0 <= i < |acts| ==> NoWrappedSleep(acts[i])
    ensures DeadlinesAhead(Run(Init(), acts))
  {
    InitInv();
    RunTimely(Init(), acts);
  }

  /** A sleep whose length wraps leaves a sleeper whose deadline is already there: the bound is exact. */
  lemma WrappedSleepIsLate(s: State, ms: nat)
    requires Inv(s) && s.started && s.cur != 0 && DeadlinesAhead(s) && 0 < ms < UINT32_SIZE
    ensures DeadlinesAhead(Sleep(s, ms)) <==> NoWrappedSleep(SleepA(ms))
  {
    if ms <= UINT32_SIZE - 10 {
      SleepDeadlines(s, ms);
    } else {
      GoesToSleep(s, ms);
      NoTicks(ms);
      LateSleeper(Sleep(s, ms), s.cur);
    }
  }

  lemma NoTicks(ms: nat)
    requires UINT32_SIZE - 10 < ms < UINT32_SIZE
    ensures SleepTicks(ms) == 0
  {
  }

  lemma LateSleeper(s: State, x: nat)
    requires x < |s.procs| && s.procs[x].state == Sleeping && s.procs[x].sleepUntil <= s.now
    ensures !DeadlinesAhead(s)
  {
  }

  lemma StepDeadlines(s: State, a: Action)
    requires Inv(s) && Enabled(s, a) && DeadlinesAhead(s) && s.started && NoWrappedSleep(a)
    ensures DeadlinesAhead(Next(s, a))
  {
    StepClock(s, a);
    match a
    case TickA => TickDeadlines(s);
    case StartA =>
    case CreateA(priority, valid, user) =>
    case ForkA(stacks) =>
    case ExitA(code) => ExitSleepers(s, code);
    case KillA(pid) => KillSleepers(s, pid);
    case WaitA => WaitSleepers(s);
    case ResumeA =>
    case SleepA(ms) => SleepDeadlines(s, ms);
    case YieldA => YieldSleepers(s);
  }
}
