/**
 Waiting for children. As long as every created process draws a pid that no live
 process has, a process blocked in process_wait always has a living child and no zombie one,
 so the next child to die wakes it. The pid hypothesis is needed: process_create and sys_fork
 number processes independently, and a run that collides them loses a wakeup.
 */
module SchedulerWakeup {
  import opened SchedulerModel
  import opened SchedulerInvariant
  import opened SchedulerFairness

  ghost predicate UniquePids(procs: seq<Pcb>) {
    forall i, j :: 0 <= i < j < |procs| && Live(procs[i]) && Live(procs[j]) ==> procs[i].pid != procs[j].pid
  }

  predicate Alive(p: Pcb) {
    p.state != Unused && p.state != Zombie
  }

  ghost predicate HasLivingChild(procs: seq<Pcb>, p: nat)
    requires p < |procs|
  {
    exists c :: 0 <= c < |procs| && IsChild(procs, p, c) && Alive(procs[c])
  }

  /** A process blocked in process_wait still has something to wait for. */
  ghost predicate WaitsForSomeone(procs: seq<Pcb>, p: nat)
    requires p < |procs|
  {
    && procs[p].parentWaiting
    && HasLivingChild(procs, p)
    && forall c :: 0 <= c < |procs| && IsChild(procs, p, c) ==> procs[c].state != Zombie
  }

  ghost predicate NoLostWakeup(procs: seq<Pcb>) {
    forall p :: 0 <= p < |procs| && procs[p].state == Blocked ==> WaitsForSomeone(procs, p)
  }

  // ---------------------------------------------------------------------------
  // Steps that only schedule
  // ---------------------------------------------------------------------------

  /** A zombie is released, or the process keeps its identity, stays alive or dead, and neither blocks nor dozes off. */
  predicate BenignPcb(a: Pcb, b: Pcb) {
    || (a.state == Zombie && b.state == Unused)
    || (&& a.pid == b.pid && a.ppid == b.ppid && a.isUser == b.isUser && a.hasUserStack == b.hasUserStack
        && (Alive(a) <==> Alive(b))
        && (a.state == Zombie <==> b.state == Zombie)
        && (b.state == Blocked ==> a.state == Blocked && b.parentWaiting == a.parentWaiting)
        && (b.state == Sleeping ==> a.state == Sleeping && b.sleepUntil == a.sleepUntil))
  }

  ghost predicate Benign(a: seq<Pcb>, b: seq<Pcb>) {
    |a| == |b| && forall x :: 0 <= x < |a| ==> BenignPcb(a[x], b[x])
  }

  lemma BenignTransitive(a: seq<Pcb>, b: seq<Pcb>, c: seq<Pcb>)
    requires Benign(a, b) && Benign(b, c)
    ensures Benign(a, c)
  {
    forall x | 0 <= x < |a| ensures BenignPcb(a[x], c[x]) {
      assert BenignPcb(a[x], b[x]) && BenignPcb(b[x], c[x]);
    }
  }

  lemma BenignUnique(a: seq<Pcb>, b: seq<Pcb>)
    requires Benign(a, b) && UniquePids(a)
    ensures UniquePids(b)
  {
    forall i, j | 0 <= i < j < |b| && Live(b[i]) && Live(b[j]) ensures b[i].pid != b[j].pid {
      assert BenignPcb(a[i], b[i]) && BenignPcb(a[j], b[j]);
    }
  }

  lemma BenignWaits(a: seq<Pcb>, b: seq<Pcb>, p: nat)
    requires Benign(a, b) && p < |a| && b[p].state == Blocked && WaitsForSomeone(a, p)
    ensures WaitsForSomeone(b, p)
  {
    assert BenignPcb(a[p], b[p]);
    var c :| 0 <= c < |a| && IsChild(a, p, c) && Alive(a[c]);
    assert BenignPcb(a[c], b[c]);
    assert IsChild(b, p, c) && Alive(b[c]);
    forall x | 0 <= x < |b| && IsChild(b, p, x) ensures b[x].state != Zombie {
      assert BenignPcb(a[x], b[x]);
      assert IsChild(a, p, x);
    }
  }

  lemma BenignNoLostWakeup(a: seq<Pcb>, b: seq<Pcb>)
    requires Benign(a, b) && NoLostWakeup(a)
    ensures NoLostWakeup(b)
  {
    forall p | 0 <= p < |b| && b[p].state == Blocked ensures WaitsForSomeone(b, p) {
      assert BenignPcb(a[p], b[p]);
      BenignWaits(a, b, p);
    }
  }

  lemma {:induction false} ReapBenign(s: State, i: nat)
    requires WellFormed(s) && i <= PROCESS_MAX
    ensures Benign(s.procs, ReapFrom(s, i).procs)
    decreases PROCESS_MAX - i
  {
    if i < PROCESS_MAX {
      assert Benign(s.procs, ReapOne(s, i).procs);
      ReapBenign(ReapOne(s, i), i + 1);
      BenignTransitive(s.procs, ReapOne(s, i).procs, ReapFrom(s, i).procs);
    }
  }

  lemma SwitchBenign(s: State, next: nat)
    requires WellFormed(s) && next < PROCESS_MAX && Alive(s.procs[next])
    ensures Benign(s.procs, SwitchTo(s, next).procs)
  {
    var s1 := if s.procs[s.cur].state == Running then Requeue(s) else s;
    assert Benign(s.procs, s1.procs);
    assert Benign(s1.procs, SwitchTo(s, next).procs);
    BenignTransitive(s.procs, s1.procs, SwitchTo(s, next).procs);
  }

  lemma DispatchBenign(s: State)
    requires SchedInv(s)
    ensures Benign(s.procs, Dispatch(s).procs)
  {
    IdleIsSlotZero(s);
    var q := BestQueue(s);
    if q < PRIORITY_LEVELS {
      var next := s.queues[q][0];
      assert next in s.queues[q];
      assert Queued(s.procs[next], next, q);
      SwitchBenign(Pop(s, q), next);
    } else if s.procs[s.cur].state != Running {
      assert PcbInv(s.procs[0], 0);
      SwitchBenign(s, 0);
    }
  }

  lemma ScheduleBenign(s: State)
    requires SchedInv(s)
    ensures Benign(s.procs, Schedule(s).procs)
  {
    if s.started {
      ReapInv(s, 0);
      ReapBenign(s, 0);
      DispatchBenign(ReapFrom(s, 0));
      BenignTransitive(s.procs, ReapFrom(s, 0).procs, Schedule(s).procs);
    }
  }

  lemma {:induction false} WakeBenign(s: State, i: nat)
    requires WellFormed(s) && i <= PROCESS_MAX
    ensures Benign(s.procs, WakeFrom(s, i).procs)
    decreases PROCESS_MAX - i
  {
    if i < PROCESS_MAX {
      assert Benign(s.procs, WakeOne(s, i).procs);
      WakeBenign(WakeOne(s, i), i + 1);
      BenignTransitive(s.procs, WakeOne(s, i).procs, WakeFrom(s, i).procs);
    }
  }

  lemma AgeItemBenign(s: State, p: nat, q: nat)
    requires WellFormed(s) && 0 < q < PRIORITY_LEVELS && p < PROCESS_MAX
    ensures Benign(s.procs, AgeItem(s, p, q).procs)
  {
    var s1 := OneTickOlder(s, p);
    assert Benign(s.procs, s1.procs);
    PromoteBenign(s1, p, q);
    BenignTransitive(s.procs, s1.procs, Promote(s1, p, q).procs);
  }

  lemma PromoteBenign(s: State, p: nat, q: nat)
    requires WellFormed(s) && 0 < q < PRIORITY_LEVELS && p < PROCESS_MAX
    ensures Benign(s.procs, Promote(s, p, q).procs)
  {
    var r := Promote(s, p, q).procs;
    assert BenignPcb(s.procs[p], r[p]);
    assert forall x :: 0 <= x < PROCESS_MAX && x != p ==> r[x] == s.procs[x];
  }

  lemma {:induction false} AgeBenign(s: State, items: seq<nat>, q: nat)
    requires WellFormed(s) && 0 < q < PRIORITY_LEVELS
    requires forall k :: 0 <= k < |items| ==> items[k] < PROCESS_MAX
    ensures Benign(s.procs, AgeItems(s, items, q).procs)
    decreases |items|
  {
    if items != [] {
      var s1 := AgeItem(s, items[0], q);
      AgeItemBenign(s, items[0], q);
      AgeBenign(s1, items[1..], q);
      BenignTransitive(s.procs, s1.procs, AgeItems(s, items, q).procs);
    }
  }

  lemma BookkeepingBenign(s: State)
    requires WellFormed(s)
    ensures Benign(s.procs, TickBookkeeping(s).procs)
  {
    var s1 := WakeFrom(s, 0);
    var s2 := AgeItems(s1, s1.queues[1], 1);
    WakeBenign(s, 0);
    AgeBenign(s1, s1.queues[1], 1);
    AgeBenign(s2, s2.queues[2], 2);
    BenignTransitive(s.procs, s1.procs, s2.procs);
    BenignTransitive(s.procs, s2.procs, TickBookkeeping(s).procs);
  }

  lemma ThenScheduleBenign(s: State, s1: State)
    requires SchedInv(s) && SchedInv(s1) && Benign(s.procs, s1.procs)
    ensures Benign(s.procs, Schedule(s1).procs)
  {
    ScheduleBenign(s1);
    BenignTransitive(s.procs, s1.procs, Schedule(s1).procs);
  }

  lemma PreemptBenign(s: State)
    requires Inv(s)
    ensures Benign(s.procs, Preempt(s).procs)
  {
    BurnInv(s);
    ThenScheduleBenign(s, Burn(s));
  }

  lemma TickBenign(s: State)
    requires Inv(s)
    ensures Benign(s.procs, Tick(s).procs)
  {
    ClockInv(s);
    if s.started {
      BookkeepingBenign(Advance(s));
      BookkeepingInv(Advance(s));
      PreemptBenign(TickBookkeeping(Advance(s)));
      BenignTransitive(s.procs, TickBookkeeping(Advance(s)).procs, Tick(s).procs);
    }
  }

  lemma YieldBenign(s: State)
    requires Inv(s)
    ensures Benign(s.procs, Yield(s).procs)
  {
    QuantumInv(s, 0);
    ThenScheduleBenign(s, SetQuantum(s, 0));
  }

  // ---------------------------------------------------------------------------
  // Births and deaths
  // ---------------------------------------------------------------------------

  ghost predicate Sound(s: State) {
    UniquePids(s.procs) && NoLostWakeup(s.procs)
  }

  lemma BenignSound(s: State, r: State)
    requires Sound(s) && Benign(s.procs, r.procs)
    ensures Sound(r)
  {
    BenignUnique(s.procs, r.procs);
    BenignNoLostWakeup(s.procs, r.procs);
  }

  lemma ByPidUnique(procs: seq<Pcb>, i: nat)
    requires UniquePids(procs) && i < |procs| && Live(procs[i])
    ensures ByPid(procs, procs[i].pid) == i
  {
  }

  lemma MakeZombieUnique(s: State, x: nat, code: int)
    requires WellFormed(s) && x < PROCESS_MAX && Live(s.procs[x]) && UniquePids(s.procs)
    ensures UniquePids(MakeZombie(s, x, code).procs)
  {
    var z := MakeZombie(s, x, code).procs;
    forall i, j | 0 <= i < j < |z| && Live(z[i]) && Live(z[j]) ensures z[i].pid != z[j].pid {
      assert Live(s.procs[i]) && Live(s.procs[j]);
    }
  }

  /** After x dies and its parent has been told, a process still blocked does not have x as a child. */
  lemma DeathIsNoticed(s: State, x: nat, code: int, p: nat)
    requires WellFormed(s) && x < PROCESS_MAX && Live(s.procs[x]) && UniquePids(s.procs) && NoLostWakeup(s.procs)
    requires p < PROCESS_MAX && WakeParent(MakeZombie(s, x, code), x).procs[p].state == Blocked
    ensures s.procs[p].state == Blocked && s.procs[x].ppid != s.procs[p].pid
  {
    var z := MakeZombie(s, x, code);
    MakeZombieUnique(s, x, code);
    assert z.procs[p].state == Blocked;
    assert WaitsForSomeone(s.procs, p);
    if s.procs[x].ppid == s.procs[p].pid {
      ByPidUnique(z.procs, p);
    }
  }

  lemma WakeParentBenign(s: State, x: nat)
    requires WellFormed(s) && x < PROCESS_MAX
    ensures Benign(s.procs, WakeParent(s, x).procs)
  {
  }

  /** The death of a stranger leaves a waiter its children. */
  lemma DeathWaits(s: State, x: nat, code: int, p: nat)
    requires WellFormed(s) && x < PROCESS_MAX && Live(s.procs[x]) && NoLostWakeup(s.procs)
    requires p < PROCESS_MAX && WakeParent(MakeZombie(s, x, code), x).procs[p].state == Blocked
    requires s.procs[x].ppid != s.procs[p].pid
    ensures WaitsForSomeone(WakeParent(MakeZombie(s, x, code), x).procs, p)
  {
    var z := MakeZombie(s, x, code);
    assert WaitsForSomeone(s.procs, p);
    var c :| 0 <= c < |s.procs| && IsChild(s.procs, p, c) && Alive(s.procs[c]);
    assert z.procs[c] == s.procs[c] && IsChild(z.procs, p, c);
    assert forall k :: 0 <= k < |z.procs| && IsChild(z.procs, p, k) ==>
        IsChild(s.procs, p, k) && z.procs[k] == s.procs[k];
    WakeParentBenign(z, x);
    assert WaitsForSomeone(z.procs, p);
    BenignWaits(z.procs, WakeParent(z, x).procs, p);
  }

  lemma DeathSound(s: State, x: nat, code: int)
    requires WellFormed(s) && x < PROCESS_MAX && Live(s.procs[x]) && Sound(s)
    ensures Sound(WakeParent(MakeZombie(s, x, code), x))
  {
    var z := MakeZombie(s, x, code);
    var r := WakeParent(z, x);
    MakeZombieUnique(s, x, code);
    WakeParentBenign(z, x);
    BenignUnique(z.procs, r.procs);
    forall p | 0 <= p < |r.procs| && r.procs[p].state == Blocked ensures WaitsForSomeone(r.procs, p) {
      DeathIsNoticed(s, x, code, p);
      DeathWaits(s, x, code, p);
    }
  }

  lemma ThenScheduleSound(s: State)
    requires SchedInv(s) && Sound(s)
    ensures Sound(Schedule(s))
  {
    ScheduleBenign(s);
    BenignSound(s, Schedule(s));
  }

  lemma ExitSound(s: State, code: int)
    requires Inv(s) && s.cur != 0 && Sound(s)
    ensures Sound(Exit(s, code))
  {
    ZombieCurrentInv(s, code);
    DeathSound(s, s.cur, code);
    WakeParentInv(MakeZombie(s, s.cur, code), s.cur);
    ThenScheduleSound(WakeParent(MakeZombie(s, s.cur, code), s.cur));
  }

  lemma KillSound(s: State, pid: nat)
    requires Inv(s) && s.cur != 0 && Sound(s)
    ensures Sound(Kill(s, pid))
  {
    var p := ByPid(s.procs, pid);
    if pid == 0 || p == PROCESS_MAX || s.procs[p].state == Zombie {
    } else if p == s.cur {
      ExitSound(s, -1);
    } else {
      DeathSound(Dequeue(s, p), p, -1);
    }
  }

  /** A process that goes to sleep keeps its identity and leaves every waiter its children. */
  lemma DozeNoLostWakeup(s: State, ms: nat)
    requires Inv(s) && NoLostWakeup(s.procs)
    ensures NoLostWakeup(StopCurrent(s, Asleep(s, ms)).procs)
  {
    var r := StopCurrent(s, Asleep(s, ms)).procs;
    forall p | 0 <= p < |r| && r[p].state == Blocked ensures WaitsForSomeone(r, p) {
      assert WaitsForSomeone(s.procs, p);
      var c :| 0 <= c < PROCESS_MAX && IsChild(s.procs, p, c) && Alive(s.procs[c]);
      assert IsChild(r, p, c) && Alive(r[c]);
      assert forall k :: 0 <= k < PROCESS_MAX && IsChild(r, p, k) ==> IsChild(s.procs, p, k);
    }
  }

  lemma SleepSound(s: State, ms: nat)
    requires Inv(s) && s.cur != 0 && Sound(s)
    ensures Sound(Sleep(s, ms))
  {
    if ms == 0 {
      YieldBenign(s);
      BenignSound(s, Yield(s));
    } else {
      DozeNoLostWakeup(s, ms);
      StopCurrentInv(s, Asleep(s, ms));
      ThenScheduleSound(StopCurrent(s, Asleep(s, ms)));
    }
  }

  lemma BlockNoLostWakeup(s: State)
    requires Inv(s) && s.cur != 0 && NoLostWakeup(s.procs)
    requires ZombieChildFrom(s.procs, s.cur, 0) == PROCESS_MAX && HasChild(s.procs, s.cur)
    ensures NoLostWakeup(StopCurrent(s, s.procs[s.cur].(state := Blocked, parentWaiting := true)).procs)
  {
    var r := StopCurrent(s, s.procs[s.cur].(state := Blocked, parentWaiting := true));
    forall p | 0 <= p < |r.procs| && r.procs[p].state == Blocked ensures WaitsForSomeone(r.procs, p) {
      var c :| 0 <= c < PROCESS_MAX && IsChild(s.procs, p, c) && Alive(s.procs[c]);
      assert IsChild(r.procs, p, c) && Alive(r.procs[c]);
      assert forall k :: 0 <= k < PROCESS_MAX && IsChild(r.procs, p, k) ==> IsChild(s.procs, p, k);
    }
  }

  lemma WaitSound(s: State)
    requires Inv(s) && s.cur != 0 && Sound(s)
    ensures Sound(Wait(s))
  {
    var z := ZombieChildFrom(s.procs, s.cur, 0);
    if z < PROCESS_MAX {
      assert Benign(s.procs, Wait(s).procs);
      BenignSound(s, Wait(s));
    } else if HasChild(s.procs, s.cur) {
      BlockNoLostWakeup(s);
      var pcb := s.procs[s.cur].(state := Blocked, parentWaiting := true);
      StopCurrentInv(s, pcb);
      ThenScheduleSound(StopCurrent(s, pcb));
    }
  }

  /** A new process in an unused slot disturbs no waiter. */
  lemma BirthNoLostWakeup(procs: seq<Pcb>, c: nat, pcb: Pcb)
    requires c < |procs| && procs[c].state == Unused && pcb.state == Ready && NoLostWakeup(procs)
    ensures NoLostWakeup(procs[c := pcb])
  {
    var r := procs[c := pcb];
    forall p | 0 <= p < |r| && r[p].state == Blocked ensures WaitsForSomeone(r, p) {
      assert WaitsForSomeone(procs, p);
      var k :| 0 <= k < |procs| && IsChild(procs, p, k) && Alive(procs[k]);
      assert IsChild(r, p, k) && Alive(r[k]);
      assert forall x :: 0 <= x < |r| && x != c && IsChild(r, p, x) ==> IsChild(procs, p, x);
    }
  }

  predicate PidInUse(procs: seq<Pcb>, pid: nat) {
    exists i :: 0 <= i < |procs| && Live(procs[i]) && procs[i].pid == pid
  }

  /** A birth keeps pids unique exactly when nobody alive or zombie has the new pid. */
  lemma BirthUnique(procs: seq<Pcb>, c: nat, pcb: Pcb)
    requires c < |procs| && procs[c].state == Unused && pcb.state == Ready && UniquePids(procs)
    ensures UniquePids(procs[c := pcb]) <==> !PidInUse(procs, pcb.pid)
  {
    var r := procs[c := pcb];
    if PidInUse(procs, pcb.pid) {
      var i :| 0 <= i < |procs| && Live(procs[i]) && procs[i].pid == pcb.pid;
      assert r[i] == procs[i] && Live(r[c]);
    } else {
      forall i, j | 0 <= i < j < |r| && Live(r[i]) && Live(r[j]) ensures r[i].pid != r[j].pid {
        if i != c && j != c {
          assert r[i] == procs[i] && r[j] == procs[j];
        }
      }
    }
  }

  lemma CreateTable(s: State, priority: nat, valid: bool, user: bool)
    requires WellFormed(s)
    ensures Creates(s, priority, valid) ==>
              exists pcb: Pcb :: pcb.state == Ready && pcb.pid == s.nextPid && pcb.ppid == s.procs[s.cur].pid &&
                Create(s, priority, valid, user).procs == s.procs[FreeSlotFrom(s.procs, 0) := pcb]
    ensures !Creates(s, priority, valid) ==> Create(s, priority, valid, user) == s
  {
    if Creates(s, priority, valid) {
      var c := FreeSlotFrom(s.procs, 0);
      var pcb := Pcb(s.nextPid, s.procs[s.cur].pid, Ready, priority, priority, SCHED_QUANTUM_TICKS,
                     0, 0, 0, false, user, user);
      assert Create(s, priority, valid, user).procs == s.procs[c := pcb];
    }
  }

  /** Exactly when a creation keeps pids unique: it fails, or the counter's pid is not in use. */
  lemma CreateUniqueIff(s: State, priority: nat, valid: bool, user: bool)
    requires WellFormed(s) && UniquePids(s.procs)
    ensures UniquePids(Create(s, priority, valid, user).procs)
            <==> !Creates(s, priority, valid) || !PidInUse(s.procs, s.nextPid)
  {
    CreateTable(s, priority, valid, user);
    if Creates(s, priority, valid) {
      var c := FreeSlotFrom(s.procs, 0);
      var pcb: Pcb :| pcb.state == Ready && pcb.pid == s.nextPid && pcb.ppid == s.procs[s.cur].pid &&
        Create(s, priority, valid, user).procs == s.procs[c := pcb];
      BirthUnique(s.procs, c, pcb);
    }
  }

  lemma CreateNoLostWakeup(s: State, priority: nat, valid: bool, user: bool)
    requires WellFormed(s) && NoLostWakeup(s.procs)
    ensures NoLostWakeup(Create(s, priority, valid, user).procs)
  {
    CreateTable(s, priority, valid, user);
    if Creates(s, priority, valid) {
      var c := FreeSlotFrom(s.procs, 0);
      var pcb: Pcb :| pcb.state == Ready && pcb.pid == s.nextPid && pcb.ppid == s.procs[s.cur].pid &&
        Create(s, priority, valid, user).procs == s.procs[c := pcb];
      BirthNoLostWakeup(s.procs, c, pcb);
    }
  }

  /** fork() succeeds in taking a slot. */
  predicate Forks(s: State, stacks: bool)
    requires WellFormed(s)
  {
    s.procs[s.cur].isUser && s.procs[s.cur].hasUserStack && stacks && FreeSlotFrom(s.procs, 0) < PROCESS_MAX
  }

  /** The pid scan of fork() always finds a pid nobody has, and the caller becomes the parent. */
  lemma ForkedChild(s: State, stacks: bool)
    requires Inv(s) && s.cur != 0 && Forks(s, stacks)
    ensures
      var c, r := FreeSlotFrom(s.procs, 0), Fork(s, stacks).procs;
      && r == s.procs[c := r[c]] && r[c].state == Ready
      && r[c].pid > 0 && !PidInUse(s.procs, r[c].pid) && IsChild(r, s.cur, c)
      && forall k :: 0 < k < r[c].pid ==> PidInUse(s.procs, k)
  {
    var c := FreeSlotFrom(s.procs, 0);
    var pid := FreshPidFrom(s.procs, c, 1);
    forall k | 0 < k < pid ensures PidInUse(s.procs, k) {
      assert PidTaken(s.procs, c, k);
    }
  }

  lemma ForkSound(s: State, stacks: bool)
    requires Inv(s) && s.cur != 0 && Sound(s)
    ensures Sound(Fork(s, stacks))
  {
    if Forks(s, stacks) {
      var c, r := FreeSlotFrom(s.procs, 0), Fork(s, stacks).procs;
      ForkedChild(s, stacks);
      BirthUnique(s.procs, c, r[c]);
      BirthNoLostWakeup(s.procs, c, r[c]);
    }
  }

  // ---------------------------------------------------------------------------
  // Every run in which the pid counter stays fresh
  // ---------------------------------------------------------------------------

  /** A successful creation draws a pid that is not in use. */
  predicate DrawsFreshPid(s: State, a: Action)
    requires WellFormed(s)
  {
    a.CreateA? && Creates(s, a.priority, a.valid) ==> !PidInUse(s.procs, s.nextPid)
  }

  lemma StepSound(s: State, a: Action)
    requires Inv(s) && Enabled(s, a) && Sound(s) && DrawsFreshPid(s, a)
    ensures Sound(Next(s, a))
  {
    match a
    case TickA => TickBenign(s); BenignSound(s, Tick(s));
    case StartA =>
    case CreateA(priority, valid, user) =>
      CreateUniqueIff(s, priority, valid, user);
      CreateNoLostWakeup(s, priority, valid, user);
    case ForkA(stacks) => ForkSound(s, stacks);
    case ExitA(code) => ExitSound(s, code);
    case KillA(pid) => KillSound(s, pid);
    case WaitA => WaitSound(s);
    case ResumeA => assert Benign(s.procs, Resume(s).procs); BenignSound(s, Resume(s));
    case SleepA(ms) => SleepSound(s, ms);
    case YieldA => YieldBenign(s); BenignSound(s, Yield(s));
  }

  predicate FreshPids(s: State, acts: seq<Action>)
    requires WellFormed(s)
    decreases |acts|
  {
    acts == [] || (DrawsFreshPid(s, acts[0]) && FreshPids(Next(s, acts[0]), acts[1..]))
  }

  lemma {:induction false} RunSound(s: State, acts: seq<Action>)
    requires Inv(s) && Sound(s) && Legal(s, acts) && FreshPids(s, acts)
    ensures Inv(Run(s, acts)) && Sound(Run(s, acts))
    decreases |acts|
  {
    if acts != [] {
      StepInv(s, acts[0]);
      StepSound(s, acts[0]);
      RunSound(Next(s, acts[0]), acts[1..]);
    }
  }

  /** No wakeup is lost in any run from boot whose creations draw fresh pids. */
  lemma NoWakeupIsLost(acts: seq<Action>)
    requires Legal(Init(), acts) && FreshPids(Init(), acts)
    ensures UniquePids(Run(Init(), acts).procs) && NoLostWakeup(Run(Init(), acts).procs)
  {
    InitInv();
    RunSound(Init(), acts);
  }

  // ---------------------------------------------------------------------------
  // Exactly when a dying child wakes its parent
  // ---------------------------------------------------------------------------

  /** Whoever is BLOCKED has raised its waiting flag. */
  ghost predicate WaitersFlagged(procs: seq<Pcb>) {
    forall p :: 0 <= p < |procs| && procs[p].state == Blocked ==> procs[p].parentWaiting
  }

  lemma BenignFlagged(a: seq<Pcb>, b: seq<Pcb>)
    requires WaitersFlagged(a) && Benign(a, b)
    ensures WaitersFlagged(b)
  {
    forall p | 0 <= p < |b| && b[p].state == Blocked ensures b[p].parentWaiting { assert BenignPcb(a[p], b[p]); }
  }

  lemma ThenScheduleFlagged(s: State)
    requires SchedInv(s) && WaitersFlagged(s.procs)
    ensures WaitersFlagged(Schedule(s).procs)
  {
    ScheduleBenign(s);
    BenignFlagged(s.procs, Schedule(s).procs);
  }

  lemma StopFlagged(s: State, pcb: Pcb)
    requires Inv(s) && s.cur != 0 && WaitersFlagged(s.procs) && (pcb.state == Blocked ==> pcb.parentWaiting)
    requires SchedInv(StopCurrent(s, pcb))
    ensures WaitersFlagged(Schedule(StopCurrent(s, pcb)).procs)
  {
    ThenScheduleFlagged(StopCurrent(s, pcb));
  }

  lemma ExitFlagged(s: State, code: int)
    requires Inv(s) && s.cur != 0 && WaitersFlagged(s.procs)
    ensures WaitersFlagged(Exit(s, code).procs)
  {
    var z := MakeZombie(s, s.cur, code);
    ZombieCurrentInv(s, code);
    WakeParentInv(z, s.cur);
    WakeParentBenign(z, s.cur);
    BenignFlagged(z.procs, WakeParent(z, s.cur).procs);
    ThenScheduleFlagged(WakeParent(z, s.cur));
  }

  lemma KillFlagged(s: State, pid: nat)
    requires Inv(s) && s.cur != 0 && WaitersFlagged(s.procs)
    ensures WaitersFlagged(Kill(s, pid).procs)
  {
    var p := ByPid(s.procs, pid);
    if pid == 0 || p == PROCESS_MAX || s.procs[p].state == Zombie {
    } else if p == s.cur {
      ExitFlagged(s, -1);
    } else {
      var z := MakeZombie(Dequeue(s, p), p, -1);
      WakeParentBenign(z, p);
      BenignFlagged(z.procs, WakeParent(z, p).procs);
    }
  }

  lemma StepFlagged(s: State, a: Action)
    requires Inv(s) && Enabled(s, a) && WaitersFlagged(s.procs)
    ensures WaitersFlagged(Next(s, a).procs)
  {
    match a
    case TickA => TickBenign(s); BenignFlagged(s.procs, Tick(s).procs);
    case StartA =>
    case CreateA(priority, valid, user) =>
    case ForkA(stacks) =>
    case ExitA(code) => ExitFlagged(s, code);
    case KillA(pid) => KillFlagged(s, pid);
    case WaitA =>
      var pcb := s.procs[s.cur].(state := Blocked, parentWaiting := true);
      StopCurrentInv(s, pcb);
      StopFlagged(s, pcb);
    case ResumeA => assert Benign(s.procs, Resume(s).procs); BenignFlagged(s.procs, Resume(s).procs);
    case SleepA(ms) =>
      if ms == 0 { YieldBenign(s); BenignFlagged(s.procs, Yield(s).procs); }
      else { StopCurrentInv(s, Asleep(s, ms)); StopFlagged(s, Asleep(s, ms)); }
    case YieldA => YieldBenign(s); BenignFlagged(s.procs, Yield(s).procs);
  }

  /** In every reachable state, whatever the pids. */
  lemma {:induction false} RunFlagged(s: State, acts: seq<Action>)
    requires Inv(s) && Legal(s, acts) && WaitersFlagged(s.procs)
    ensures WaitersFlagged(Run(s, acts).procs)
    decreases |acts|
  {
    if acts != [] {
      StepInv(s, acts[0]);
      StepFlagged(s, acts[0]);
      RunFlagged(Next(s, acts[0]), acts[1..]);
    }
  }

  /** Dying does not hide a process from process_by_pid. */
  lemma {:induction false} ByPidIgnoresDeath(procs: seq<Pcb>, c: nat, dead: Pcb, pid: nat)
    requires c < |procs| && Live(procs[c]) && Live(dead) && dead.pid == procs[c].pid
    ensures ByPid(procs[c := dead], pid) == ByPid(procs, pid)
  {
    var after := procs[c := dead];
    assert forall k :: 0 <= k < |procs| ==>
        (Live(after[k]) && after[k].pid == pid <==> Live(procs[k]) && procs[k].pid == pid);
  }

  lemma {:induction false} ReapKeepsBlocked(s: State, i: nat, p: nat)
    requires WellFormed(s) && i <= PROCESS_MAX && p < PROCESS_MAX && s.procs[p].state == Blocked
    ensures ReapFrom(s, i).procs[p] == s.procs[p]
    decreases PROCESS_MAX - i
  {
    if i < PROCESS_MAX { ReapKeepsBlocked(ReapOne(s, i), i + 1, p); }
  }

  /** schedule() does not touch a process that is blocked. */
  lemma ScheduleKeepsBlocked(s: State, p: nat)
    requires SchedInv(s) && p < PROCESS_MAX && s.procs[p].state == Blocked
    ensures Schedule(s).procs[p].state == Blocked
  {
    if s.started {
      ReapInv(s, 0);
      ReapKeepsBlocked(s, 0, p);
      DispatchKeepsBlocked(ReapFrom(s, 0), p);
    }
  }

  lemma DispatchKeepsBlocked(s: State, p: nat)
    requires SchedInv(s) && p < PROCESS_MAX && s.procs[p].state == Blocked
    ensures Dispatch(s).procs[p] == s.procs[p]
  {
    IdleIsSlotZero(s);
    assert PcbInv(s.procs[p], p);
    var q := BestQueue(s);
    if q < PRIORITY_LEVELS {
      var next := s.queues[q][0];
      assert next in s.queues[q];
      assert Queued(s.procs[next], next, q);
    }
  }

  /** Telling the parent of the dead process c reaches p exactly when p is what process_by_pid finds. */
  lemma DeathReaches(s: State, c: nat, code: int, p: nat)
    requires WellFormed(s) && p < PROCESS_MAX && c < PROCESS_MAX && Alive(s.procs[c]) && IsChild(s.procs, p, c)
    requires s.procs[p].state == Blocked && s.procs[p].parentWaiting
    ensures
      var r := WakeParent(MakeZombie(s, c, code), c);
      r.procs[p].state == if ByPid(s.procs, s.procs[p].pid) == p then Ready else Blocked
  {
    var z := MakeZombie(s, c, code);
    ByPidIgnoresDeath(s.procs, c, z.procs[c], s.procs[p].pid);
  }

  /**
   A living child of a blocked process dies, by exit or by kill: the parent becomes runnable
   exactly when no lower slot has its pid, that is, when process_by_pid finds it.
   */
  lemma ChildDeathWakesIff(s: State, a: Action, p: nat, c: nat)
    requires Inv(s) && s.started && Enabled(s, a) && p < PROCESS_MAX && c < PROCESS_MAX && Alive(s.procs[c])
    requires s.procs[p].state == Blocked && s.procs[p].parentWaiting && IsChild(s.procs, p, c)
    requires (a.ExitA? && s.cur == c) || (a.KillA? && a.pid != 0 && ByPid(s.procs, a.pid) == c)
    ensures
      var after := Next(s, a).procs[p].state;
      if ByPid(s.procs, s.procs[p].pid) == p then after == Ready || after == Running else after == Blocked
  {
    assert PcbInv(s.procs[p], p) && PcbInv(s.procs[c], c);
    if s.cur == c {
      ExitReaches(s, if a.ExitA? then a.code else -1, p);
    } else {
      DeathReaches(Dequeue(s, c), c, -1, p);
    }
  }

  lemma ExitReaches(s: State, code: int, p: nat)
    requires Inv(s) && s.started && s.cur != 0 && 0 < p < PROCESS_MAX
    requires s.procs[p].state == Blocked && s.procs[p].parentWaiting && IsChild(s.procs, p, s.cur)
    ensures
      var after := Exit(s, code).procs[p].state;
      if ByPid(s.procs, s.procs[p].pid) == p then after == Ready || after == Running else after == Blocked
  {
    DeathReaches(s, s.cur, code, p);
    ZombieCurrentInv(s, code);
    var z := MakeZombie(s, s.cur, code);
    WakeParentInv(z, s.cur);
    var w := WakeParent(z, s.cur);
    if ByPid(s.procs, s.procs[p].pid) == p { ScheduleAdvances(w, p); } else { ScheduleKeepsBlocked(w, p); }
  }

  /** With unique pids, whenever a child of a blocked process dies the parent becomes runnable. */
  lemma ChildDeathWakesParent(s: State, a: Action, p: nat, c: nat)
    requires Inv(s) && Sound(s) && s.started && Enabled(s, a) && p < PROCESS_MAX && c < PROCESS_MAX
    requires s.procs[p].state == Blocked && IsChild(s.procs, p, c)
    requires (a.ExitA? && s.cur == c) || (a.KillA? && a.pid == s.procs[c].pid)
    ensures Next(s, a).procs[p].state == Ready || Next(s, a).procs[p].state == Running
  {
    assert PcbInv(s.procs[p], p) && PcbInv(s.procs[c], c);
    ByPidUnique(s.procs, c);
    ByPidUnique(s.procs, p);
    assert WaitsForSomeone(s.procs, p);
    ChildDeathWakesIff(s, a, p, c);
  }
}
