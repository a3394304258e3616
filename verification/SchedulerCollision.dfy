/**
 Why NoWakeupIsLost needs fresh pids: a run the kernel can take. The shell starts the fork test
 twice. The first instance, pid 2, forks pid 3; the counter of process_create then gives pid 3
 to the second instance as well. The second instance forks and waits, the shell kills its
 child, and process_by_pid finds the first instance's child instead of the waiting parent.

 Between these calls only the timer ticks; that the right process gets the CPU is bounded
 waiting. Slot 1 is the shell, slots 2 and 4 are the fork tests, slots 3 and 5 their children.
 */
module SchedulerCollision {
  import opened SchedulerModel
  import opened SchedulerInvariant
  import opened SchedulerFairness
  import opened SchedulerWakeup

  const SHELL: Action := CreateA(0, true, false)
  const FORK_TEST: Action := CreateA(1, true, true)

  function TickTimes(n: nat): (acts: seq<Action>) {
    seq(n, i => TickA)
  }

  /** The run up to the collision; the numbers are the ticks between the calls. */
  function CollidingRun(a: nat, b: nat, c: nat): (acts: seq<Action>) {
    [SHELL, StartA] + TickTimes(a) + [FORK_TEST] + TickTimes(b) + [ForkA(true)] + TickTimes(c) + [FORK_TEST]
  }

  /** How it goes on; `pid` is the pid of the second child. */
  function LosingTail(d: nat, e: nat, pid: nat): (acts: seq<Action>) {
    TickTimes(d) + [ForkA(true)] + [WaitA] + TickTimes(e) + [KillA(pid)]
  }

  /**
   Who is there: slot i lives with the given pid and parent, a fork test from slot 2 on, and is
   awake, unless it is slot 4, which may wait; all other slots are unused.
   */
  ghost predicate Cast(procs: seq<Pcb>, who: seq<(nat, nat)>) {
    && |procs| == PROCESS_MAX && |who| < PROCESS_MAX
    && forall i :: 0 <= i < PROCESS_MAX ==>
         if i < |who| then
           && (|| procs[i].state == Ready
               || procs[i].state == Running
               || (i == 4 && procs[i].state == Blocked && procs[i].parentWaiting))
           && procs[i].pid == who[i].0 && procs[i].ppid == who[i].1
           && (i >= 2 ==> procs[i].isUser && procs[i].hasUserStack)
         else procs[i].state == Unused
  }

  ghost predicate Scene(s: State, who: seq<(nat, nat)>, nextPid: nat) {
    Inv(s) && s.started && Cast(s.procs, who) && s.nextPid == nextPid
  }

  lemma BenignCast(a: seq<Pcb>, b: seq<Pcb>, who: seq<(nat, nat)>)
    requires Benign(a, b) && Cast(a, who)
    ensures Cast(b, who)
  {
    forall i | 0 <= i < PROCESS_MAX
      ensures BenignPcb(a[i], b[i]) && a[i].state != Zombie && a[i].state != Sleeping
    {
    }
  }

  // ---------------------------------------------------------------------------
  // Ticks until a process runs
  // ---------------------------------------------------------------------------

  /** The actions may be taken in s, and lead to t. */
  ghost predicate Leads(s: State, acts: seq<Action>, t: State) {
    WellFormed(s) && Legal(s, acts) && Run(s, acts) == t
  }

  lemma LeadsOne(s: State, a: Action, t: State)
    requires WellFormed(s) && Enabled(s, a) && t == Next(s, a)
    ensures Leads(s, [a], t)
  {
    assert [a][1..] == [];
  }

  lemma {:induction false} LeadsOn(s: State, a: seq<Action>, t: State, b: seq<Action>, u: State)
    requires Leads(s, a, t) && Leads(t, b, u)
    ensures Leads(s, a + b, u)
    decreases |a|
  {
    if a == [] {
      assert a + b == b;
    } else {
      LeadsOn(Next(s, a[0]), a[1..], t, b, u);
      LeadsFirst(s, a[0], Next(s, a[0]), a[1..] + b, u);
      assert [a[0]] + (a[1..] + b) == a + b;
    }
  }

  lemma LeadsFirst(s: State, a: Action, t: State, rest: seq<Action>, u: State)
    requires WellFormed(s) && Enabled(s, a) && t == Next(s, a) && Leads(t, rest, u)
    ensures Leads(s, [a] + rest, u)
  {
    var acts := [a] + rest;
    assert acts[0] == a && acts[1..] == rest;
  }

  /** A blocked process sleeps through a tick. */
  lemma TickKeepsBlocked(s: State, p: nat)
    requires Inv(s) && s.started && p < PROCESS_MAX && s.procs[p].state == Blocked
    ensures Tick(s).procs[p].state == Blocked
  {
    var t := Advance(s);
    ClockInv(s);
    BookkeepingInv(t);
    BookkeepingKeepsBlocked(t, p);
    var b := TickBookkeeping(t);
    BurnInv(b);
    if HigherReady(b) || Burn(b).procs[b.cur].quantumLeft == 0 { ScheduleKeepsBlocked(Burn(b), p); }
  }

  lemma BookkeepingKeepsBlocked(s: State, p: nat)
    requires SchedInv(s) && p < PROCESS_MAX && s.procs[p].state == Blocked
    ensures TickBookkeeping(s).procs[p].state == Blocked
  {
    WakeKeepsBlocked(s, 0, p);
    var w := WakeFrom(s, 0);
    AgeKeepsBlocked(w, w.queues[1], 1, p);
    var a := AgeItems(w, w.queues[1], 1);
    AgeKeepsBlocked(a, a.queues[2], 2, p);
  }

  lemma {:induction false} WakeKeepsBlocked(s: State, i: nat, p: nat)
    requires WellFormed(s) && i <= PROCESS_MAX && p < PROCESS_MAX && s.procs[p].state == Blocked
    ensures WakeFrom(s, i).procs[p].state == Blocked
    decreases PROCESS_MAX - i
  {
    if i < PROCESS_MAX { WakeKeepsBlocked(WakeOne(s, i), i + 1, p); }
  }

  lemma {:induction false} AgeKeepsBlocked(s: State, items: seq<nat>, q: nat, p: nat)
    requires WellFormed(s) && 0 < q < PRIORITY_LEVELS && p < PROCESS_MAX && s.procs[p].state == Blocked
    requires forall k :: 0 <= k < |items| ==> items[k] < PROCESS_MAX
    ensures AgeItems(s, items, q).procs[p].state == Blocked
    decreases |items|
  {
    if items != [] { AgeKeepsBlocked(AgeItem(s, items[0], q), items[1..], q, p); }
  }

  lemma TickScene(s: State, who: seq<(nat, nat)>, next: nat, b: nat)
    requires Scene(s, who, next) && b < PROCESS_MAX
    ensures Scene(Tick(s), who, next) && (s.procs[b].state == Blocked ==> Tick(s).procs[b].state == Blocked)
  {
    StepInv(s, TickA);
    StartedForever(s, TickA);
    TickBenign(s);
    BenignCast(s.procs, Tick(s).procs, who);
    if s.procs[b].state == Blocked { TickKeepsBlocked(s, b); }
  }

  /** p runs, or waits with at most the given rank. */
  ghost predicate Near(s: State, p: nat, rank: int)
    requires Inv(s)
  {
    s.cur == p || (Waiting(s, p) && Rank(s, p) <= rank)
  }

  lemma TickNearer(s: State, who: seq<(nat, nat)>, next: nat, p: nat, b: nat, rank: int) returns (t: State)
    requires Scene(s, who, next) && s.cur != p && Near(s, p, rank) && b < PROCESS_MAX
    ensures rank >= 1 && t == Tick(s) && Scene(t, who, next) && Near(t, p, rank - 1)
    ensures s.procs[b].state == Blocked ==> t.procs[b].state == Blocked
  {
    t := Tick(s);
    TickScene(s, who, next, b);
    RankBounds(s, p);
    TickRank(s, p);
  }

  lemma TickFirst(s: State, u: State, m: nat, n: nat, t: State)
    requires WellFormed(s) && u == Tick(s) && Leads(u, TickTimes(m), t) && n == m + 1
    ensures Leads(s, TickTimes(n), t)
  {
    LeadsFirst(s, TickA, u, TickTimes(m), t);
    assert [TickA] + TickTimes(m) == TickTimes(n);
  }

  /** After some ticks p, which is awake, runs; the cast is the same, and b, if it was blocked, still is. */
  lemma {:induction false} TicksUntil(s: State, who: seq<(nat, nat)>, next: nat, p: nat, b: nat, rank: nat)
    returns (n: nat, t: State)
    requires Scene(s, who, next) && Near(s, p, rank) && b < PROCESS_MAX
    ensures Leads(s, TickTimes(n), t) && Scene(t, who, next) && t.cur == p
    ensures s.procs[b].state == Blocked ==> t.procs[b].state == Blocked
    decreases rank
  {
    if s.cur == p {
      n, t := 0, s;
    } else {
      var u := TickNearer(s, who, next, p, b, rank);
      var m;
      m, t := TicksUntil(u, who, next, p, b, rank - 1);
      n := m + 1;
      TickFirst(s, u, m, n, t);
    }
  }

  /** Somebody who is awake gets the CPU after some ticks. */
  lemma GetsTheCpu(s: State, who: seq<(nat, nat)>, next: nat, p: nat, b: nat) returns (n: nat, t: State)
    requires Scene(s, who, next) && 0 < p < |who| && s.procs[p].state != Blocked && b < PROCESS_MAX
    ensures Leads(s, TickTimes(n), t) && Scene(t, who, next) && t.cur == p
    ensures s.procs[b].state == Blocked ==> t.procs[b].state == Blocked
  {
    assert s.procs[p].state == Ready || s.procs[p].state == Running;
    if s.cur != p { RankBounds(s, p); }
    n, t := TicksUntil(s, who, next, p, b, WAIT_BOUND);
  }

  // ---------------------------------------------------------------------------
  // Births
  // ---------------------------------------------------------------------------

  lemma NextSlot(procs: seq<Pcb>, who: seq<(nat, nat)>)
    requires Cast(procs, who)
    ensures FreeSlotFrom(procs, 0) == |who|
  {
    assert procs[|who|].state == Unused;
    assert forall j :: 0 <= j < |who| ==> procs[j].state != Unused;
  }

  lemma BirthCast(procs: seq<Pcb>, who: seq<(nat, nat)>, pcb: Pcb)
    requires Cast(procs, who) && |who| + 1 < PROCESS_MAX && pcb.state == Ready
    requires |who| >= 2 ==> pcb.isUser && pcb.hasUserStack
    ensures Cast(procs[|who| := pcb], who + [(pcb.pid, pcb.ppid)])
  {
  }

  /** The running process creates one: it gets the next slot and the counter's pid. */
  lemma CreateScene(s: State, who: seq<(nat, nat)>, next: nat, after: nat) returns (t: State)
    requires Scene(s, who, next) && 0 < next && after == next + 1 < UINT32_SIZE && 2 <= |who| < PROCESS_MAX - 1
    requires s.cur < |who|
    ensures Leads(s, [FORK_TEST], t) && Scene(t, who + [(next, who[s.cur].0)], after)
    ensures t.cur == s.cur && t.procs[|who|].state == Ready && t.procs[..|who|] == s.procs[..|who|]
  {
    NextSlot(s.procs, who);
    t := Create(s, 1, true, true);
    var pcb := Pcb(next, s.procs[s.cur].pid, Ready, 1, 1, SCHED_QUANTUM_TICKS, 0, 0, 0, false, true, true);
    assert t.procs == s.procs[|who| := pcb];
    BirthCast(s.procs, who, pcb);
    StepInv(s, FORK_TEST);
    LeadsOne(s, FORK_TEST, t);
  }

  /** A fork test forks: the child gets the next slot and the least pid nobody has. */
  lemma ForkScene(s: State, who: seq<(nat, nat)>, next: nat) returns (t: State, pid: nat)
    requires Scene(s, who, next) && |who| < PROCESS_MAX - 1 && 2 <= s.cur < |who|
    ensures Leads(s, [ForkA(true)], t) && Scene(t, who + [(pid, who[s.cur].0)], next)
    ensures t.cur == s.cur && t.procs[|who|].state == Ready && t.procs[..|who|] == s.procs[..|who|]
    ensures pid > 0 && !PidInUse(s.procs, pid) && forall k :: 0 < k < pid ==> PidInUse(s.procs, k)
  {
    NextSlot(s.procs, who);
    t := Fork(s, true);
    var c := |who|;
    ForkedChild(s, true);
    pid := t.procs[c].pid;
    assert t.procs[c].isUser && t.procs[c].hasUserStack;
    BirthCast(s.procs, who, t.procs[c]);
    StepInv(s, ForkA(true));
    LeadsOne(s, ForkA(true), t);
  }

  /** The pids in use are those of the cast. */
  lemma PidsOfCast(procs: seq<Pcb>, who: seq<(nat, nat)>, pid: nat)
    requires Cast(procs, who)
    ensures PidInUse(procs, pid) <==> exists i :: 0 <= i < |who| && who[i].0 == pid
  {
    if PidInUse(procs, pid) {
      var i :| 0 <= i < |procs| && Live(procs[i]) && procs[i].pid == pid;
      assert who[i].0 == pid;
    }
    if i :| 0 <= i < |who| && who[i].0 == pid { assert Live(procs[i]) && procs[i].pid == pid; }
  }

  // ---------------------------------------------------------------------------
  // The run
  // ---------------------------------------------------------------------------

  const CAST2: seq<(nat, nat)> := [(0, 0), (1, 0)]
  const CAST3: seq<(nat, nat)> := [(0, 0), (1, 0), (2, 1)]
  const CAST4: seq<(nat, nat)> := [(0, 0), (1, 0), (2, 1), (3, 2)]
  const CAST5: seq<(nat, nat)> := [(0, 0), (1, 0), (2, 1), (3, 2), (3, 1)]

  lemma Boots() returns (s: State)
    ensures Leads(Init(), [SHELL, StartA], s) && Scene(s, CAST2, 2) && s.procs[1].state == Ready
  {
    var c := Create(Init(), 0, true, false);
    s := c.(started := true);
    InitInv();
    assert FreeSlotFrom(Init().procs, 0) == 1;
    StepInv(Init(), SHELL);
    StepInv(c, StartA);
    LeadsOne(Init(), SHELL, c);
    LeadsOne(c, StartA, s);
    LeadsOn(Init(), [SHELL], c, [StartA], s);
    assert [SHELL] + [StartA] == [SHELL, StartA];
  }

  /** The shell starts the first fork test, which forks. */
  lemma FirstForks() returns (a: nat, b: nat, t: State)
    ensures Leads(Init(), [SHELL, StartA] + TickTimes(a) + [FORK_TEST] + TickTimes(b) + [ForkA(true)], t)
    ensures Scene(t, CAST4, 3)
  {
    var s0 := Boots();
    var s1: State, s2: State, s3: State, pid: nat;
    var acts := [SHELL, StartA];
    a, s1 := GetsTheCpu(s0, CAST2, 2, 1, 0);
    LeadsOn(Init(), acts, s0, TickTimes(a), s1);
    acts := acts + TickTimes(a);
    s2 := CreateScene(s1, CAST2, 2, 3);
    LeadsOn(Init(), acts, s1, [FORK_TEST], s2);
    acts := acts + [FORK_TEST];
    assert CAST2 + [(2, 1)] == CAST3;
    b, s3 := GetsTheCpu(s2, CAST3, 3, 2, 0);
    LeadsOn(Init(), acts, s2, TickTimes(b), s3);
    acts := acts + TickTimes(b);
    t, pid := ForkScene(s3, CAST3, 3);
    LeadsOn(Init(), acts, s3, [ForkA(true)], t);
    ThirdPid(s3.procs, pid);
    assert CAST3 + [(3, 2)] == CAST4;
  }

  /** The run from boot is legal, and at its end slots 3 and 4 share pid 3. */
  lemma PidsCollide() returns (a: nat, b: nat, c: nat, t: State)
    ensures Leads(Init(), CollidingRun(a, b, c), t) && Scene(t, CAST5, 4) && t.procs[4].state == Ready
    ensures !UniquePids(t.procs)
  {
    var s: State, u: State;
    a, b, s := FirstForks();
    var acts := [SHELL, StartA] + TickTimes(a) + [FORK_TEST] + TickTimes(b) + [ForkA(true)];
    c, u := GetsTheCpu(s, CAST4, 3, 1, 0);
    LeadsOn(Init(), acts, s, TickTimes(c), u);
    t := CreateScene(u, CAST4, 3, 4);
    LeadsOn(Init(), acts + TickTimes(c), u, [FORK_TEST], t);
    assert CAST4 + [(3, 1)] == CAST5;
    assert t.procs[3].pid == CAST5[3].0 && t.procs[4].pid == CAST5[4].0;
  }

  /** A fork test with a child, and none that is dead, waits. */
  lemma WaitScene(s: State, who: seq<(nat, nat)>, next: nat, c: nat) returns (t: State)
    requires Scene(s, who, next) && s.cur == 4 < |who| && c < |who| && c != 4 && who[c].1 == who[4].0
    ensures Leads(s, [WaitA], t) && Scene(t, who, next) && t.procs[4].state == Blocked
  {
    assert IsChild(s.procs, 4, c);
    assert ZombieChildFrom(s.procs, 4, 0) == PROCESS_MAX;
    var pcb := s.procs[4].(state := Blocked, parentWaiting := true);
    var w := StopCurrent(s, pcb);
    StopCurrentInv(s, pcb);
    assert Cast(w.procs, who);
    ScheduleBenign(w);
    BenignCast(w.procs, Schedule(w).procs, who);
    ScheduleKeepsBlocked(w, 4);
    t := Schedule(w);
    StepInv(s, WaitA);
    StartedForever(s, WaitA);
    LeadsOne(s, WaitA, t);
  }

  /** The shell kills the second child; its parent is not what process_by_pid finds. */
  lemma KillScene(s: State, pid: nat) returns (t: State)
    requires Scene(s, CAST5 + [(pid, 3)], 4) && s.cur == 1 && s.procs[4].state == Blocked && pid > 3
    ensures Leads(s, [KillA(pid)], t) && t.procs[4].state == Blocked && IsChild(t.procs, 4, 5)
    ensures t.procs[5].state == Zombie
  {
    var who := CAST5 + [(pid, 3)];
    assert who[0].0 == 0 && who[1].0 == 1 && who[2].0 == 2 && who[3].0 == 3 && who[4].0 == 3 && who[5] == (pid, 3);
    assert ByPid(s.procs, pid) == 5;
    assert Live(s.procs[3]) && s.procs[3].pid == 3;
    assert ByPid(s.procs, 3) == 3;
    ChildDeathWakesIff(s, KillA(pid), 4, 5);
    t := Kill(s, pid);
    LeadsOne(s, KillA(pid), t);
  }

  /** Continued, the run leaves the second fork test blocked although its only child is a zombie. */
  lemma AWakeupIsLost() returns (a: nat, b: nat, c: nat, d: nat, e: nat, pid: nat, t: State)
    ensures Leads(Init(), CollidingRun(a, b, c) + LosingTail(d, e, pid), t)
    ensures t.procs[4].state == Blocked && IsChild(t.procs, 4, 5) && t.procs[5].state == Zombie
    ensures !NoLostWakeup(t.procs)
  {
    var s: State, s1: State, s2: State, s3: State, s4: State;
    a, b, c, s := PidsCollide();
    d, s1 := GetsTheCpu(s, CAST5, 4, 4, 0);
    s2, pid := ForkScene(s1, CAST5, 4);
    FourthPid(s1.procs, pid);
    var who := CAST5 + [(pid, 3)];
    s3 := WaitScene(s2, who, 4, 5);
    e, s4 := GetsTheCpu(s3, who, 4, 1, 4);
    t := KillScene(s4, pid);
    LeadsOn(s, TickTimes(d), s1, [ForkA(true)], s2);
    LeadsOn(s, TickTimes(d) + [ForkA(true)], s2, [WaitA], s3);
    LeadsOn(s, TickTimes(d) + [ForkA(true)] + [WaitA], s3, TickTimes(e), s4);
    LeadsOn(s, TickTimes(d) + [ForkA(true)] + [WaitA] + TickTimes(e), s4, [KillA(pid)], t);
    LeadsOn(Init(), CollidingRun(a, b, c), s, LosingTail(d, e, pid), t);
    assert !WaitsForSomeone(t.procs, 4);
  }

  lemma FourthPid(procs: seq<Pcb>, pid: nat)
    requires Cast(procs, CAST5) && pid > 0 && !PidInUse(procs, pid)
    ensures pid > 3
  {
    PidsOfCast(procs, CAST5, pid);
    assert CAST5[1].0 == 1 && CAST5[2].0 == 2 && CAST5[3].0 == 3;
  }

  lemma ThirdPid(procs: seq<Pcb>, pid: nat)
    requires Cast(procs, CAST3) && pid > 0 && !PidInUse(procs, pid) && forall k :: 0 < k < pid ==> PidInUse(procs, k)
    ensures pid == 3
  {
    PidsOfCast(procs, CAST3, 3);
    PidsOfCast(procs, CAST3, pid);
    assert CAST3[1].0 == 1 && CAST3[2].0 == 2;
  }
}
