/**
 The whole effect of the calls that start, stop and collect processes, stated over table and
 queues: who is born with what, who dies and who hears of it, who waits or sleeps. Whoever has
 the CPU afterwards follows from what schedule() does.
 */
module SchedulerLifecycle {
  import opened SchedulerModel
  import opened SchedulerInvariant
  import opened SchedulerFairness
  import opened SchedulerWakeup
  import opened SchedulerDispatch

  const LAST_PID: nat := 0xFFFF_FFFF

  /** c is the lowest slot nobody uses. */
  ghost predicate LowestUnused(procs: seq<Pcb>, c: nat) {
    c < |procs| && procs[c].state == Unused && forall j :: 0 <= j < c ==> procs[j].state != Unused
  }

  ghost predicate TableFull(procs: seq<Pcb>) {
    forall j :: 0 <= j < |procs| ==> procs[j].state != Unused
  }

  lemma FreeSlotIs(procs: seq<Pcb>)
    ensures
      var c := FreeSlotFrom(procs, 0);
      if TableFull(procs) then c == |procs| else LowestUnused(procs, c)
  {
  }

  // ---------------------------------------------------------------------------
  // Birth
  // ---------------------------------------------------------------------------

  /** r is s with the process `child` in slot c, READY and last in line at its priority. */
  ghost predicate Born(s: State, r: State, c: nat, child: Pcb)
    requires WellFormed(s) && WellFormed(r)
  {
    && LowestUnused(s.procs, c) && child.state == Ready && child.priority < PRIORITY_LEVELS
    && r.procs == s.procs[c := child]
    && r.queues == s.queues[child.priority := s.queues[child.priority] + [c]]
    && r.cur == s.cur && r.now == s.now && r.started == s.started
  }

  /** A process made from nothing: a full quantum, no wait, no sleep, no status, and the priority asked for. */
  function NewPcb(pid: nat, parent: nat, level: nat, user: bool): Pcb {
    Pcb(pid := pid, ppid := parent, state := Ready, priority := level, basePriority := level,
        quantumLeft := 5, waitTicks := 0, sleepUntil := 0, exitCode := 0, parentWaiting := false,
        isUser := user, hasUserStack := user)
  }

  /** With the pid of idle, which the counter gives out when it has wrapped, a new process is in no queue. */
  ghost predicate Stillborn(s: State, r: State, c: nat, child: Pcb)
    requires WellFormed(s)
  {
    && LowestUnused(s.procs, c) && r.procs == s.procs[c := child] && r.queues == s.queues
    && r.cur == s.cur && r.now == s.now && r.started == s.started
  }

  /** process_create and process_create_user: refused, or one process more, and the counter one further. */
  lemma CreateLaw(s: State, level: nat, valid: bool, user: bool)
    requires WellFormed(s) && s.nextPid <= LAST_PID
    ensures
      var r, child := Create(s, level, valid, user), NewPcb(s.nextPid, s.procs[s.cur].pid, level, user);
      if !valid || level >= 3 || TableFull(s.procs) then r == s
      else
        && (exists c: nat :: if s.nextPid != 0 then Born(s, r, c, child) else Stillborn(s, r, c, child))
        && r.nextPid == if s.nextPid == LAST_PID then 0 else s.nextPid + 1
  {
    FreeSlotIs(s.procs);
    if valid && level < PRIORITY_LEVELS && !TableFull(s.procs) {
      var c := FreeSlotFrom(s.procs, 0);
      var r, child := Create(s, level, valid, user), NewPcb(s.nextPid, s.procs[s.cur].pid, level, user);
      assert r.procs == s.procs[c := child];
      assert if s.nextPid != 0 then Born(s, r, c, child) else Stillborn(s, r, c, child);
    }
  }

  /** What a child has from its parent: everything but its identity and its place in the queue. */
  predicate Takes(child: Pcb, parent: Pcb) {
    && child.ppid == parent.pid && child.state == Ready && !child.parentWaiting && child.waitTicks == 0
    && child.priority == parent.priority && child.basePriority == parent.basePriority
    && child.quantumLeft == parent.quantumLeft && child.sleepUntil == parent.sleepUntil
    && child.exitCode == parent.exitCode && child.isUser == parent.isUser && child.hasUserStack == parent.hasUserStack
  }

  /** pid is the least above 0 that nobody has. */
  ghost predicate LeastFreePid(procs: seq<Pcb>, pid: nat) {
    pid > 0 && !PidInUse(procs, pid) && forall k :: 0 < k < pid ==> PidInUse(procs, k)
  }

  /** fork(): refused to kernel threads, without memory for the stacks and on a full table; else one child more. */
  lemma ForkLaw(s: State, stacks: bool)
    requires Inv(s) && s.cur != 0
    ensures
      var r, p := Fork(s, stacks), s.procs[s.cur];
      if !p.isUser || !p.hasUserStack || !stacks || TableFull(s.procs) then r == s
      else
        && r.nextPid == s.nextPid
        && exists c: nat, child: Pcb :: Born(s, r, c, child) && Takes(child, p) && LeastFreePid(s.procs, child.pid)
  {
    FreeSlotIs(s.procs);
    if Forks(s, stacks) {
      ForkedChild(s, stacks);
      ForkBirth(s, stacks);
    }
  }

  lemma ForkBirth(s: State, stacks: bool)
    requires Inv(s) && s.cur != 0 && Forks(s, stacks)
    ensures
      var c, r := FreeSlotFrom(s.procs, 0), Fork(s, stacks);
      Born(s, r, c, r.procs[c]) && Takes(r.procs[c], s.procs[s.cur])
  {
    assert PcbInv(s.procs[s.cur], s.cur);
    FreeSlotIs(s.procs);
    var c, r := FreeSlotFrom(s.procs, 0), Fork(s, stacks);
    assert r.procs == s.procs[c := r.procs[c]];
  }

  /** Whoever is born waits for the CPU, and unless it is killed has it before 717 ticks have passed. */
  lemma NewbornRuns(s: State, r: State, c: nat, child: Pcb, acts: seq<Action>)
    requires WellFormed(s) && WellFormed(r) && Born(s, r, c, child) && Inv(s) && Inv(r) && s.started
    requires Legal(r, acts) && NeverKilled(r, acts, c) && Ticks(acts) >= WAIT_BOUND
    ensures Waiting(r, c) && Dispatched(r, acts, c)
  {
    assert PcbInv(s.procs[0], 0);
    BoundedWaiting(r, acts, c);
  }

  /** The kernel's own start: the shell, created before the scheduler is started, has the CPU after the first tick. */
  lemma ShellRunsAtOnce()
    ensures Run(Init(), [CreateA(0, true, false), StartA, TickA]).cur == 1
  {
    var z, made := Init(), CreateA(0, true, false);
    ThreeSteps(z, made, StartA, TickA);
    InitInv();
    StepInv(z, made);
    OnlyShell(Next(z, made));
    StepInv(Next(z, made), StartA);
    FirstTick(Next(Next(z, made), StartA));
  }

  lemma ThreeSteps(s: State, a: Action, b: Action, c: Action)
    requires WellFormed(s)
    ensures Run(s, [a, b, c]) == Next(Next(Next(s, a), b), c)
  {
    FirstStep(s, a, [b, c]);
    FirstStep(Next(s, a), b, [c]);
    FirstStep(Next(Next(s, a), b), c, []);
    assert [a] + [b, c] == [a, b, c] && [b] + [c] == [b, c] && [c] + [] == [c];
  }

  lemma FirstStep(s: State, a: Action, rest: seq<Action>)
    requires WellFormed(s)
    ensures Run(s, [a] + rest) == Run(Next(s, a), rest)
  {
    assert ([a] + rest)[1..] == rest;
  }

  lemma OnlyShell(s: State)
    requires s == Create(Init(), 0, true, false)
    ensures s.cur == 0 && Waiting(s, 1) && forall x :: 1 < x < PROCESS_MAX ==> s.procs[x].state == Unused
  {
    var z := Init();
    CreateLaw(z, 0, true, false);
    assert z.procs[1].state == Unused && z.procs[0].state == Running;
    var c: nat :| Born(z, s, c, NewPcb(z.nextPid, z.procs[z.cur].pid, 0, false));
    assert c == 1;
  }

  lemma FirstTick(t: State)
    requires Inv(t) && t.started && t.cur == 0 && Waiting(t, 1)
    requires forall x :: 1 < x < PROCESS_MAX ==> t.procs[x].state == Unused
    ensures Tick(t).cur == 1
  {
    TickPreempts(t, 1);
    BookkeepingSameLives(Advance(t));
    var m, next := TickBookkeeping(Advance(t)), Tick(t).cur;
    assert SameLife(t.procs[next], m.procs[next]);
  }

  // ---------------------------------------------------------------------------
  // Death
  // ---------------------------------------------------------------------------

  /** Slot q is where a lookup of the pid ends: the lowest in use that has it. */
  ghost predicate Found(procs: seq<Pcb>, pid: nat, q: nat) {
    && q < |procs| && Live(procs[q]) && procs[q].pid == pid
    && forall j :: 0 <= j < q ==> !Live(procs[j]) || procs[j].pid != pid
  }

  ghost predicate Nobody(procs: seq<Pcb>, pid: nat) {
    forall j :: 0 <= j < |procs| ==> !Live(procs[j]) || procs[j].pid != pid
  }

  lemma LookupIs(procs: seq<Pcb>, pid: nat)
    ensures
      var q := ByPid(procs, pid);
      if Nobody(procs, pid) then q == |procs| else Found(procs, pid, q)
    ensures forall q: nat :: Found(procs, pid, q) ==> q == ByPid(procs, pid)
  {
    var q := ByPid(procs, pid);
    forall k: nat | Found(procs, pid, k) ensures k == q { assert !(k < q) && !(q < k); }
  }

  /** Slot q, other than the dead one, holds the parent the dead process finds, asleep in process_wait. */
  ghost predicate Hears(procs: seq<Pcb>, x: nat, q: nat)
    requires x < |procs|
  {
    Found(procs, procs[x].ppid, q) && q != x && procs[q].parentWaiting && procs[q].state == Blocked
  }

  /** q is the parent that hears of the death, or PROCESS_MAX if none does. */
  ghost predicate Woken(procs: seq<Pcb>, x: nat, q: nat)
    requires x < |procs|
  {
    if q < |procs| then Hears(procs, x, q) else q == |procs| && forall k: nat :: !Hears(procs, x, k)
  }

  /** ys is xs without x, in the same order, with `tail` behind it. */
  ghost predicate LeftOut(xs: seq<nat>, x: nat, tail: seq<nat>, ys: seq<nat>) {
    if x in xs then exists i :: 0 <= i < |xs| && xs[i] == x && ys == xs[..i] + xs[i + 1..] + tail else ys == xs + tail
  }

  /** x is a zombie with the status; its waiting parent q, if any, is READY, last in line; nobody else changed. */
  ghost predicate Died(s: State, m: State, x: nat, code: int, q: nat)
    requires WellFormed(s) && WellFormed(m) && x < PROCESS_MAX
  {
    && Woken(s.procs, x, q)
    && m.procs[x] == s.procs[x].(state := Zombie, exitCode := code, hasUserStack := false)
    && (q < PROCESS_MAX ==> m.procs[q] == s.procs[q].(state := Ready, waitTicks := 0))
    && (forall k :: 0 <= k < PROCESS_MAX && k != x && k != q ==> m.procs[k] == s.procs[k])
    && (forall l :: 0 <= l < PRIORITY_LEVELS ==>
          LeftOut(s.queues[l], x, if q < PROCESS_MAX && s.procs[q].priority == l then [q] else [], m.queues[l]))
    && m.cur == s.cur && m.now == s.now && m.nextPid == s.nextPid && m.started == s.started
  }

  lemma RemoveLeavesOut(s: State, x: nat, l: nat, tail: seq<nat>)
    requires QueueInv(s) && x < PROCESS_MAX && l < PRIORITY_LEVELS
    ensures LeftOut(s.queues[l], x, tail, Dequeue(s, x).queues[l] + tail)
  {
    assert forall q :: 0 <= q < PRIORITY_LEVELS ==> (x in s.queues[q] <==> Queued(s.procs[x], x, q));
    if x in s.queues[l] {
      assert QueueHolding(s, x) == l;
      var i := IndexOf(s.queues[l], x);
      assert i < |s.queues[l]| && s.queues[l][i] == x;
    }
  }

  /** The state process_exit and process_kill make before anybody is scheduled. */
  ghost function Dead(s: State, x: nat, code: int): (m: State)
    requires WellFormed(s) && x < PROCESS_MAX
    ensures WellFormed(m)
  {
    WakeParent(MakeZombie(Dequeue(s, x), x, code), x)
  }

  /** The parent found after the death is the one found before. */
  lemma ParentStays(s: State, x: nat, code: int) returns (q: nat)
    requires SchedInv(s) && 0 < x < PROCESS_MAX && Alive(s.procs[x])
    ensures Woken(s.procs, x, q)
    ensures
      var z := MakeZombie(Dequeue(s, x), x, code);
      if q < PROCESS_MAX then
        Dead(s, x, code) == MakeReady(z, q) && s.procs[q].pid != 0 && s.procs[q].priority < PRIORITY_LEVELS
      else Dead(s, x, code) == z
  {
    var z := MakeZombie(Dequeue(s, x), x, code);
    var k := ByPid(s.procs, s.procs[x].ppid);
    ByPidIgnoresDeath(s.procs, x, z.procs[x], s.procs[x].ppid);
    LookupIs(s.procs, s.procs[x].ppid);
    if k < PROCESS_MAX && Hears(s.procs, x, k) {
      assert PcbInv(s.procs[k], k);
      q := k;
    } else {
      q := PROCESS_MAX;
    }
  }

  lemma ReadyEffect(z: State, q: nat)
    requires WellFormed(z) && q < PROCESS_MAX && z.procs[q].pid != 0 && z.procs[q].priority < PRIORITY_LEVELS
    ensures
      var m, l := MakeReady(z, q), z.procs[q].priority;
      && m.procs == z.procs[q := z.procs[q].(state := Ready, waitTicks := 0)]
      && m.queues == z.queues[l := z.queues[l] + [q]] && m.cur == z.cur
  {
  }

  /** Queue l after the death: x is out of it, and the parent, if it is the one woken, is last in it. */
  lemma DeadQueue(s: State, x: nat, code: int, q: nat, l: nat)
    requires SchedInv(s) && 0 < x < PROCESS_MAX && Woken(s.procs, x, q) && l < PRIORITY_LEVELS
    requires
      var z := MakeZombie(Dequeue(s, x), x, code);
      if q < PROCESS_MAX then
        Dead(s, x, code) == MakeReady(z, q) && s.procs[q].pid != 0 && s.procs[q].priority < PRIORITY_LEVELS
      else Dead(s, x, code) == z
    ensures LeftOut(s.queues[l], x, if q < PROCESS_MAX && s.procs[q].priority == l then [q] else [],
                    Dead(s, x, code).queues[l])
  {
    var tail := if q < PROCESS_MAX && s.procs[q].priority == l then [q] else [];
    if q < PROCESS_MAX { ReadyEffect(MakeZombie(Dequeue(s, x), x, code), q); }
    RemoveLeavesOut(s, x, l, tail);
    assert Dead(s, x, code).queues[l] == Dequeue(s, x).queues[l] + tail;
  }

  lemma DeadHasDied(s: State, x: nat, code: int) returns (q: nat)
    requires SchedInv(s) && 0 < x < PROCESS_MAX && Alive(s.procs[x])
    ensures Died(s, Dead(s, x, code), x, code, q)
  {
    q := ParentStays(s, x, code);
    if q < PROCESS_MAX { ReadyEffect(MakeZombie(Dequeue(s, x), x, code), q); }
    forall l | 0 <= l < PRIORITY_LEVELS
      ensures LeftOut(s.queues[l], x, if q < PROCESS_MAX && s.procs[q].priority == l then [q] else [],
                      Dead(s, x, code).queues[l])
    {
      DeadQueue(s, x, code, q, l);
    }
  }

  /** Nobody is queued while it runs. */
  lemma RunnerIsNotQueued(s: State)
    requires Inv(s)
    ensures Dequeue(s, s.cur) == s
  {
    assert forall q :: 0 <= q < PRIORITY_LEVELS ==> (s.cur in s.queues[q] <==> Queued(s.procs[s.cur], s.cur, q));
  }

  /** exit(): the caller dies, and the CPU goes to whoever is foremost then. */
  lemma ExitLaw(s: State, code: int) returns (m: State, q: nat)
    requires Inv(s) && s.started && s.cur != 0
    ensures WellFormed(m) && Died(s, m, s.cur, code, q) && Scheduled(m, Exit(s, code))
  {
    m := Dead(s, s.cur, code);
    RunnerIsNotQueued(s);
    q := DeadHasDied(s, s.cur, code);
    StopCurrentInv(s, s.procs[s.cur].(state := Zombie, exitCode := code, hasUserStack := false));
    WakeParentInv(MakeZombie(s, s.cur, code), s.cur);
    ScheduleLaw(m);
  }

  /** process_kill has no effect on idle, on a pid nobody has and on the dead. */
  lemma KillSpares(s: State, pid: nat)
    requires Inv(s)
    requires pid == 0 || Nobody(s.procs, pid) || exists x: nat :: Found(s.procs, pid, x) && s.procs[x].state == Zombie
    ensures Kill(s, pid) == s
  {
    LookupIs(s.procs, pid);
  }

  /** With the pid of process x: an exit with -1 if x is the caller; else x dies with -1 and the caller goes on. */
  lemma KillLaw(s: State, pid: nat, x: nat) returns (m: State, q: nat)
    requires Inv(s) && s.started && s.cur != 0 && pid != 0 && Found(s.procs, pid, x) && s.procs[x].state != Zombie
    ensures WellFormed(m) && Died(s, m, x, -1, q)
    ensures if x == s.cur then Scheduled(m, Kill(s, pid)) else Kill(s, pid) == m
  {
    LookupIs(s.procs, pid);
    assert PcbInv(s.procs[x], x);
    if x == s.cur {
      m, q := ExitLaw(s, -1);
    } else {
      m := Dead(s, x, -1);
      q := DeadHasDied(s, x, -1);
    }
  }

  // ---------------------------------------------------------------------------
  // Waiting and sleeping
  // ---------------------------------------------------------------------------

  /** Slot z holds a dead child of the process in slot p. */
  predicate DeadChild(procs: seq<Pcb>, p: nat, z: nat)
    requires p < |procs| && z < |procs|
  {
    z != p && procs[z].state == Zombie && procs[z].ppid == procs[p].pid
  }

  /** Slot z holds a child of the process in slot p that lives. */
  predicate LiveChild(procs: seq<Pcb>, p: nat, z: nat)
    requires p < |procs| && z < |procs|
  {
    z != p && Alive(procs[z]) && procs[z].ppid == procs[p].pid
  }

  /** The caller's PCB, and nothing else, has changed before it enters schedule(). */
  function WithCurrent(s: State, p: Pcb): (m: State)
    requires WellFormed(s)
    ensures WellFormed(m)
  {
    s.(procs := s.procs[s.cur := p])
  }

  lemma StopLaw(s: State, p: Pcb)
    requires Inv(s) && s.started && s.cur != 0 && (p.state == Blocked || p.state == Sleeping)
    requires p.pid == s.procs[s.cur].pid && p.priority == s.procs[s.cur].priority
    requires p.basePriority == s.procs[s.cur].basePriority
    ensures Scheduled(WithCurrent(s, p), Schedule(StopCurrent(s, p)))
  {
    StopCurrentInv(s, p);
    ScheduleLaw(StopCurrent(s, p));
  }

  /** The lowest dead child of the caller has been collected, and nothing else has changed. */
  ghost predicate Collected(s: State, r: State, z: nat)
    requires WellFormed(s)
  {
    && z < PROCESS_MAX && DeadChild(s.procs, s.cur, z)
    && (forall j :: 0 <= j < z ==> !DeadChild(s.procs, s.cur, j))
    && r == s.(procs := s.procs[z := Freed(s.procs[z])])
  }

  /**
   One pass of process_wait: it collects the lowest dead child if there is one, gives up if there
   is no child at all, and blocks while all its children live.
   */
  lemma WaitLaw(s: State)
    requires Inv(s) && s.started && s.cur != 0
    ensures
      var r, p := Wait(s), s.procs[s.cur];
      if exists z :: 0 <= z < PROCESS_MAX && DeadChild(s.procs, s.cur, z) then exists z: nat :: Collected(s, r, z)
      else if exists z :: 0 <= z < PROCESS_MAX && LiveChild(s.procs, s.cur, z) then
        Scheduled(WithCurrent(s, p.(state := Blocked, parentWaiting := true)), r)
      else r == s
  {
    var z := ZombieChildFrom(s.procs, s.cur, 0);
    assert forall j :: 0 <= j < PROCESS_MAX ==>
        (DeadChild(s.procs, s.cur, j) <==> IsChild(s.procs, s.cur, j) && s.procs[j].state == Zombie);
    if z < PROCESS_MAX {
      assert Collected(s, Wait(s), z);
    } else {
      assert forall j :: 0 <= j < PROCESS_MAX ==> (LiveChild(s.procs, s.cur, j) <==> IsChild(s.procs, s.cur, j));
      if HasChild(s.procs, s.cur) { StopLaw(s, s.procs[s.cur].(state := Blocked, parentWaiting := true)); }
    }
  }

  /** Back from schedule() inside process_wait, the caller is no longer marked as waiting. */
  lemma ResumeLaw(s: State)
    requires WellFormed(s)
    ensures
      var r := Resume(s);
      && !r.procs[s.cur].parentWaiting
      && WithCurrent(r, s.procs[s.cur]) == s
  {
  }

  /** ms / 10, rounded up; the rounding of the last nine values wraps to nothing. */
  function TicksFor(ms: nat): nat {
    if ms <= 0xFFFF_FFF6 then (ms + 9) / 10 else 0
  }

  /** A sleep of ms > 0 milliseconds: the caller sleeps for that many ticks, and the CPU passes on. */
  lemma SleepLaw(s: State, ms: nat)
    requires Inv(s) && s.started && s.cur != 0 && 0 < ms < UINT32_SIZE
    ensures
      var asleep := s.procs[s.cur].(state := Sleeping, sleepUntil := s.now + TicksFor(ms));
      Scheduled(WithCurrent(s, asleep), Sleep(s, ms))
  {
    var asleep := s.procs[s.cur].(state := Sleeping, sleepUntil := s.now + TicksFor(ms));
    SleepIs(s, ms, asleep);
    StopLaw(s, asleep);
  }

  lemma SleepIs(s: State, ms: nat, asleep: Pcb)
    requires WellFormed(s) && 0 < ms < UINT32_SIZE
    requires asleep == s.procs[s.cur].(state := Sleeping, sleepUntil := s.now + TicksFor(ms))
    ensures Sleep(s, ms) == Schedule(StopCurrent(s, asleep))
  {
    SleepTicksIs(ms);
  }

  lemma SleepTicksIs(ms: nat)
    requires ms < UINT32_SIZE
    ensures SleepTicks(ms) == TicksFor(ms)
  {
  }
}
