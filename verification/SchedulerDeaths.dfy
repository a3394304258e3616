/**
 Exactly when wakeups are lost, whatever the pids. A process blocked in process_wait waits in
 vain from the moment a child of it dies unheard: process_by_pid, asked for the parent's pid,
 finds a lower slot that has the same pid. No other step loses a wakeup.
 */
module SchedulerDeaths {
  import opened SchedulerModel
  import opened SchedulerInvariant
  import opened SchedulerFairness
  import opened SchedulerWakeup

  /** Every process blocked over the child x is the one its pid leads to. */
  ghost predicate Heard(procs: seq<Pcb>, x: nat)
    requires x < |procs|
  {
    forall p :: 0 <= p < |procs| && procs[p].state == Blocked && IsChild(procs, p, x) ==>
        ByPid(procs, procs[p].pid) == p
  }

  /** The process a step ends, or PROCESS_MAX. */
  function Victim(s: State, a: Action): (x: nat)
    requires WellFormed(s)
    ensures x <= PROCESS_MAX
  {
    match a
    case ExitA(_) => s.cur
    case KillA(pid) =>
      var p := ByPid(s.procs, pid);
      if pid == 0 || p == PROCESS_MAX || s.procs[p].state == Zombie then PROCESS_MAX else p
    case _ => PROCESS_MAX
  }

  /** The step ends nobody, or the death is heard by all who wait for it. */
  ghost predicate DeathIsHeard(s: State, a: Action)
    requires WellFormed(s)
  {
    var x := Victim(s, a);
    x == PROCESS_MAX || Heard(s.procs, x)
  }

  // ---------------------------------------------------------------------------
  // Deaths
  // ---------------------------------------------------------------------------

  /** p waits for x, whose death it does not hear of. */
  ghost predicate Deaf(procs: seq<Pcb>, p: nat, x: nat) {
    && p < |procs| && x < |procs| && procs[p].state == Blocked && procs[p].parentWaiting
    && IsChild(procs, p, x) && ByPid(procs, procs[p].pid) != p
  }

  /** A process that is blocked over a zombie child waits in vain. */
  lemma ZombieChildIsLost(procs: seq<Pcb>, p: nat, x: nat)
    requires p < |procs| && x < |procs| && procs[p].state == Blocked && procs[x].state == Zombie && IsChild(procs, p, x)
    ensures !NoLostWakeup(procs)
  {
    assert !WaitsForSomeone(procs, p);
  }

  lemma DeafStaysBlocked(s: State, x: nat, code: int, p: nat)
    requires WellFormed(s) && x < PROCESS_MAX && Alive(s.procs[x]) && Deaf(s.procs, p, x)
    ensures
      var r := WakeParent(MakeZombie(s, x, code), x).procs;
      r[p].state == Blocked && r[x].state == Zombie && IsChild(r, p, x)
  {
    DeathReaches(s, x, code, p);
  }

  lemma UnheardIsDeaf(procs: seq<Pcb>, x: nat) returns (p: nat)
    requires x < |procs| && NoLostWakeup(procs) && !Heard(procs, x)
    ensures Deaf(procs, p, x)
  {
    p :| 0 <= p < |procs| && procs[p].state == Blocked && IsChild(procs, p, x) && ByPid(procs, procs[p].pid) != p;
    assert WaitsForSomeone(procs, p);
  }

  lemma HeardDeath(s: State, x: nat, code: int)
    requires WellFormed(s) && x < PROCESS_MAX && Alive(s.procs[x]) && NoLostWakeup(s.procs) && Heard(s.procs, x)
    ensures NoLostWakeup(WakeParent(MakeZombie(s, x, code), x).procs)
  {
    var r := WakeParent(MakeZombie(s, x, code), x).procs;
    forall p | 0 <= p < |r| && r[p].state == Blocked ensures WaitsForSomeone(r, p) {
      assert p != x && s.procs[p].state == Blocked;
      assert WaitsForSomeone(s.procs, p);
      if s.procs[x].ppid == s.procs[p].pid {
        DeathReaches(s, x, code, p);
      } else {
        DeathWaits(s, x, code, p);
      }
    }
  }

  lemma {:induction false} ReapSkipsCurrent(s: State, i: nat)
    requires WellFormed(s) && i <= PROCESS_MAX
    ensures ReapFrom(s, i).procs[s.cur] == s.procs[s.cur] && ReapFrom(s, i).cur == s.cur
    decreases PROCESS_MAX - i
  {
    if i < PROCESS_MAX { ReapSkipsCurrent(ReapOne(s, i), i + 1); }
  }

  lemma DispatchKeepsZombie(s: State, x: nat)
    requires SchedInv(s) && x < PROCESS_MAX && s.procs[x].state == Zombie
    ensures Dispatch(s).procs[x] == s.procs[x]
  {
    IdleIsSlotZero(s);
    assert PcbInv(s.procs[x], x);
    var q := BestQueue(s);
    if q < PRIORITY_LEVELS {
      var next := s.queues[q][0];
      assert next in s.queues[q];
      assert Queued(s.procs[next], next, q);
    }
  }

  /** schedule() keeps the zombie it is called by, and a process blocked over it. */
  lemma ScheduleKeepsLost(s: State, p: nat)
    requires SchedInv(s) && p < PROCESS_MAX && s.procs[p].state == Blocked
    requires s.procs[s.cur].state == Zombie && IsChild(s.procs, p, s.cur)
    ensures !NoLostWakeup(Schedule(s).procs)
  {
    var r := Schedule(s).procs;
    if s.started {
      ReapInv(s, 0);
      ReapSkipsCurrent(s, 0);
      DispatchKeepsZombie(ReapFrom(s, 0), s.cur);
      ReapKeepsBlocked(s, 0, p);
      DispatchKeepsBlocked(ReapFrom(s, 0), p);
    }
    assert r[p] == s.procs[p] && r[s.cur] == s.procs[s.cur];
    ZombieChildIsLost(r, p, s.cur);
  }

  lemma ExitIff(s: State, code: int)
    requires Inv(s) && s.cur != 0 && NoLostWakeup(s.procs)
    ensures NoLostWakeup(Exit(s, code).procs) <==> Heard(s.procs, s.cur)
  {
    var z := MakeZombie(s, s.cur, code);
    var w := WakeParent(z, s.cur);
    ZombieCurrentInv(s, code);
    WakeParentInv(z, s.cur);
    if Heard(s.procs, s.cur) {
      HeardDeath(s, s.cur, code);
      ScheduleBenign(w);
      BenignNoLostWakeup(w.procs, Schedule(w).procs);
    } else {
      var p := UnheardIsDeaf(s.procs, s.cur);
      DeafStaysBlocked(s, s.cur, code, p);
      ScheduleKeepsLost(w, p);
    }
  }

  lemma KillIff(s: State, pid: nat)
    requires Inv(s) && s.cur != 0 && NoLostWakeup(s.procs)
    ensures NoLostWakeup(Kill(s, pid).procs) <==> DeathIsHeard(s, KillA(pid))
  {
    var x := Victim(s, KillA(pid));
    if x == PROCESS_MAX {
    } else if x == s.cur {
      ExitIff(s, -1);
    } else if Heard(s.procs, x) {
      HeardDeath(Dequeue(s, x), x, -1);
    } else {
      var p := UnheardIsDeaf(s.procs, x);
      DeafStaysBlocked(Dequeue(s, x), x, -1, p);
      ZombieChildIsLost(Kill(s, pid).procs, p, x);
    }
  }

  // ---------------------------------------------------------------------------
  // Steps and runs
  // ---------------------------------------------------------------------------

  lemma ThenScheduleNoLost(s: State)
    requires SchedInv(s) && NoLostWakeup(s.procs)
    ensures NoLostWakeup(Schedule(s).procs)
  {
    ScheduleBenign(s);
    BenignNoLostWakeup(s.procs, Schedule(s).procs);
  }

  lemma ForkNoLost(s: State, stacks: bool)
    requires Inv(s) && s.cur != 0 && NoLostWakeup(s.procs)
    ensures NoLostWakeup(Fork(s, stacks).procs)
  {
    if Forks(s, stacks) {
      ForkedChild(s, stacks);
      BirthNoLostWakeup(s.procs, FreeSlotFrom(s.procs, 0), Fork(s, stacks).procs[FreeSlotFrom(s.procs, 0)]);
    }
  }

  lemma WaitNoLost(s: State)
    requires Inv(s) && s.cur != 0 && NoLostWakeup(s.procs)
    ensures NoLostWakeup(Wait(s).procs)
  {
    if ZombieChildFrom(s.procs, s.cur, 0) < PROCESS_MAX {
      assert Benign(s.procs, Wait(s).procs);
      BenignNoLostWakeup(s.procs, Wait(s).procs);
    } else if HasChild(s.procs, s.cur) {
      var pcb := s.procs[s.cur].(state := Blocked, parentWaiting := true);
      BlockNoLostWakeup(s);
      StopCurrentInv(s, pcb);
      ThenScheduleNoLost(StopCurrent(s, pcb));
    }
  }

  lemma SleepNoLost(s: State, ms: nat)
    requires Inv(s) && s.cur != 0 && NoLostWakeup(s.procs)
    ensures NoLostWakeup(Sleep(s, ms).procs)
  {
    if ms == 0 {
      YieldBenign(s);
      BenignNoLostWakeup(s.procs, Yield(s).procs);
    } else {
      DozeNoLostWakeup(s, ms);
      StopCurrentInv(s, Asleep(s, ms));
      ThenScheduleNoLost(StopCurrent(s, Asleep(s, ms)));
    }
  }

  /** A step loses a wakeup exactly if it ends a process and somebody who waits for it does not hear of it. */
  lemma StepLosesIff(s: State, a: Action)
    requires Inv(s) && Enabled(s, a) && NoLostWakeup(s.procs)
    ensures NoLostWakeup(Next(s, a).procs) <==> DeathIsHeard(s, a)
  {
    match a
    case TickA => TickBenign(s); BenignNoLostWakeup(s.procs, Tick(s).procs);
    case StartA =>
    case CreateA(priority, valid, user) => CreateNoLostWakeup(s, priority, valid, user);
    case ForkA(stacks) => ForkNoLost(s, stacks);
    case ExitA(code) => ExitIff(s, code);
    case KillA(pid) => KillIff(s, pid);
    case WaitA => WaitNoLost(s);
    case ResumeA => assert Benign(s.procs, Resume(s).procs); BenignNoLostWakeup(s.procs, Resume(s).procs);
    case SleepA(ms) => SleepNoLost(s, ms);
    case YieldA => YieldBenign(s); BenignNoLostWakeup(s.procs, Yield(s).procs);
  }

  /** In every state of the run. */
  ghost predicate NeverLost(s: State, acts: seq<Action>)
    requires WellFormed(s)
    decreases |acts|
  {
    NoLostWakeup(s.procs) && (acts == [] || NeverLost(Next(s, acts[0]), acts[1..]))
  }

  ghost predicate AllHeard(s: State, acts: seq<Action>)
    requires WellFormed(s)
    decreases |acts|
  {
    acts == [] || (DeathIsHeard(s, acts[0]) && AllHeard(Next(s, acts[0]), acts[1..]))
  }

  lemma {:induction false} RunLosesIff(s: State, acts: seq<Action>)
    requires Inv(s) && Legal(s, acts) && NoLostWakeup(s.procs)
    ensures NeverLost(s, acts) <==> AllHeard(s, acts)
    decreases |acts|
  {
    if acts != [] {
      var t := Next(s, acts[0]);
      StepInv(s, acts[0]);
      StepLosesIff(s, acts[0]);
      if NoLostWakeup(t.procs) { RunLosesIff(t, acts[1..]); }
    }
  }

  /** In runs from boot, whatever the pids, no wakeup is ever lost if and only if every death is heard. */
  lemma LostIff(acts: seq<Action>)
    requires Legal(Init(), acts)
    ensures NeverLost(Init(), acts) <==> AllHeard(Init(), acts)
  {
    InitInv();
    RunLosesIff(Init(), acts);
  }
}
