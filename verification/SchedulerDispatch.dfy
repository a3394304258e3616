/**
 Who gets the CPU, and when. Stated over the processes that wait and the levels they wait at:
 what schedule() does, when a timer tick takes the CPU away, what yield gives up, and which
 zombies are released.
 */
module SchedulerDispatch {
  import opened SchedulerModel
  import opened SchedulerInvariant
  import opened SchedulerFairness
  import opened SchedulerWakeup

  ghost predicate SomeoneWaits(s: State)
    requires WellFormed(s)
  {
    exists p: nat :: Waiting(s, p)
  }

  /** First in line at the best level anybody waits at. */
  ghost predicate Foremost(s: State, p: nat)
    requires WellFormed(s)
  {
    && Waiting(s, p) && s.procs[p].priority < PRIORITY_LEVELS
    && (forall x: nat :: Waiting(s, x) ==> s.procs[p].priority <= s.procs[x].priority)
    && s.queues[s.procs[p].priority] != [] && s.queues[s.procs[p].priority][0] == p
  }

  lemma HeadIsForemost(s: State)
    requires SchedInv(s)
    ensures
      var q := BestQueue(s);
      if q < PRIORITY_LEVELS then Foremost(s, s.queues[q][0]) && s.procs[s.queues[q][0]].priority == q
      else !SomeoneWaits(s)
  {
    var q := BestQueue(s);
    if q < PRIORITY_LEVELS {
      assert s.queues[q][0] in s.queues[q];
    }
    forall x: nat | Waiting(s, x) ensures q <= s.procs[x].priority < PRIORITY_LEVELS { Standing(s, x); }
  }

  // ---------------------------------------------------------------------------
  // schedule()
  // ---------------------------------------------------------------------------

  /** The process that gets the CPU: at its base priority, with a full quantum. */
  function Incoming(p: Pcb): Pcb {
    p.(state := Running, priority := p.basePriority, quantumLeft := SCHED_QUANTUM_TICKS)
  }

  /** The process in slot x that gives it up while it could go on: READY at its base priority. */
  function Outgoing(p: Pcb, x: nat): Pcb {
    p.(state := Ready, priority := p.basePriority, waitTicks := if x == 0 then p.waitTicks else 0)
  }

  /** Queue l when `next` has left its head and the current process, if it can go on, has come to its tail. */
  function QueueAfter(s: State, next: nat, l: nat): seq<nat>
    requires WellFormed(s) && next < PROCESS_MAX && l < PRIORITY_LEVELS
  {
    var p := s.procs[s.cur];
    (if l == s.procs[next].priority && s.queues[l] != [] then s.queues[l][1..] else s.queues[l])
    + (if s.cur != 0 && p.state == Running && l == p.basePriority then [s.cur] else [])
  }

  /** The CPU goes from the current process of s to `next`. */
  ghost predicate HandsOver(s: State, r: State, next: nat)
    requires WellFormed(s) && WellFormed(r)
  {
    && next < PROCESS_MAX && r.cur == next && r.procs[next] == Incoming(s.procs[next])
    && (s.procs[s.cur].state == Running ==> r.procs[s.cur] == Outgoing(s.procs[s.cur], s.cur))
    && (forall l :: 0 <= l < PRIORITY_LEVELS ==> r.queues[l] == QueueAfter(s, next, l))
    && forall x :: 0 <= x < PROCESS_MAX && x != next && Stays(s, x) ==> r.procs[x] == s.procs[x]
  }

  /** Not the running process, and no zombie. */
  predicate Stays(s: State, x: nat)
    requires WellFormed(s) && x < PROCESS_MAX
  {
    !(x == s.cur && s.procs[x].state == Running) && s.procs[x].state != Zombie
  }

  /** Nobody waits: the current process goes on if it can, with a full quantum, and idle takes over if not. */
  ghost predicate NobodyElse(s: State, r: State)
    requires WellFormed(s) && WellFormed(r)
  {
    var next := if s.procs[s.cur].state == Running then s.cur else 0;
    && r.cur == next && r.queues == s.queues
    && r.procs[next] == (if next == s.cur then s.procs[next].(quantumLeft := SCHED_QUANTUM_TICKS)
                         else Incoming(s.procs[next]))
    && forall x :: 0 <= x < PROCESS_MAX && x != next && s.procs[x].state != Zombie ==> r.procs[x] == s.procs[x]
  }

  /** What schedule() leaves. */
  ghost predicate Scheduled(s: State, r: State)
    requires WellFormed(s) && WellFormed(r)
  {
    if SomeoneWaits(s) then Foremost(s, r.cur) && r.cur != s.cur && HandsOver(s, r, r.cur) else NobodyElse(s, r)
  }

  lemma SwitchLaw(s: State, q: nat)
    requires SchedInv(s) && q == BestQueue(s) < PRIORITY_LEVELS
    ensures HandsOver(s, SwitchTo(Pop(s, q), s.queues[q][0]), s.queues[q][0])
    ensures s.queues[q][0] != s.cur || s.procs[s.cur].state != Running
  {
    var next := s.queues[q][0];
    assert next in s.queues[q];
    assert Queued(s.procs[next], next, q);
    assert PcbInv(s.procs[s.cur], s.cur);
  }

  lemma DispatchLaw(s: State)
    requires SchedInv(s) && s.started && !Waiting(s, s.cur)
    ensures Scheduled(s, Dispatch(s))
  {
    var q := BestQueue(s);
    HeadIsForemost(s);
    IdleIsSlotZero(s);
    if q < PRIORITY_LEVELS {
      SwitchLaw(s, q);
      assert Waiting(s, s.queues[q][0]);
    } else {
      assert PcbInv(s.procs[0], 0);
    }
  }

  lemma {:induction false} ReapTouchesZombies(s: State, i: nat)
    requires SchedInv(s) && i <= PROCESS_MAX
    ensures ReapFrom(s, i).queues == s.queues && ReapFrom(s, i).cur == s.cur
    ensures forall x :: 0 <= x < PROCESS_MAX && s.procs[x].state != Zombie ==> ReapFrom(s, i).procs[x] == s.procs[x]
    ensures forall x :: 0 <= x < PROCESS_MAX && s.procs[x].state == Zombie ==>
              ReapFrom(s, i).procs[x].state == Zombie || ReapFrom(s, i).procs[x].state == Unused
    decreases PROCESS_MAX - i
  {
    if i < PROCESS_MAX {
      ReapOneInv(s, i);
      ReapTouchesZombies(ReapOne(s, i), i + 1);
    }
  }

  /** m differs from s only in zombies, which may be gone. */
  ghost predicate ReapedTo(s: State, m: State) {
    && WellFormed(s) && WellFormed(m) && m.queues == s.queues && m.cur == s.cur && s.procs[0].state != Zombie
    && (forall x :: 0 <= x < PROCESS_MAX && s.procs[x].state != Zombie ==> m.procs[x] == s.procs[x])
    && (forall x :: 0 <= x < PROCESS_MAX && s.procs[x].state == Zombie ==> m.procs[x].state in {Zombie, Unused})
  }

  lemma Reaping(s: State)
    requires SchedInv(s) && s.started
    ensures ReapedTo(s, ReapFrom(s, 0)) && SchedInv(ReapFrom(s, 0)) && ReapFrom(s, 0).started
  {
    ReapInv(s, 0);
    ReapTouchesZombies(s, 0);
    assert PcbInv(s.procs[0], 0);
  }

  lemma AfterReaping(s: State, m: State, r: State)
    requires ReapedTo(s, m) && WellFormed(r) && Scheduled(m, r)
    ensures Scheduled(s, r)
  {
    assert forall x: nat :: Waiting(s, x) <==> Waiting(m, x);
    if SomeoneWaits(m) {
      assert Foremost(s, r.cur);
      assert forall l :: 0 <= l < PRIORITY_LEVELS ==> QueueAfter(m, r.cur, l) == QueueAfter(s, r.cur, l);
    }
  }

  /**
   schedule(), entered by a process that runs or has just stopped: whoever is foremost among
   those who wait gets the CPU, and the caller, if it could go on, goes to the tail of its base
   queue; if nobody waits, the caller goes on or idle takes over.
   */
  lemma ScheduleLaw(s: State)
    requires SchedInv(s) && s.started && !Waiting(s, s.cur)
    ensures Scheduled(s, Schedule(s))
  {
    var m := ReapFrom(s, 0);
    Reaping(s);
    assert !Waiting(m, m.cur);
    DispatchLaw(m);
    AfterReaping(s, m, Dispatch(m));
  }

  // ---------------------------------------------------------------------------
  // yield and sleep(0)
  // ---------------------------------------------------------------------------

  /** The CPU has been given up for r: the foremost waiter has it and the caller is last in its base queue. */
  ghost predicate GivenUp(s: State, r: State)
    requires WellFormed(s) && WellFormed(r)
  {
    var p := s.procs[s.cur];
    && Foremost(s, r.cur) && r.cur != s.cur && r.procs[r.cur] == Incoming(s.procs[r.cur])
    && r.procs[s.cur].state == Ready && r.procs[s.cur].priority == p.basePriority
    && (s.cur != 0 && p.basePriority < PRIORITY_LEVELS ==>
          var back := r.queues[p.basePriority];
          back != [] && back[|back| - 1] == s.cur)
  }

  /** yield, and sleep(0), give the CPU to the foremost waiter; alone, the caller goes on with a full quantum. */
  lemma YieldGivesUp(s: State)
    requires Inv(s) && s.started
    ensures
      var r := Yield(s);
      if SomeoneWaits(s) then GivenUp(s, r)
      else
        && r.cur == s.cur && r.queues == s.queues
        && r.procs[s.cur] == s.procs[s.cur].(quantumLeft := SCHED_QUANTUM_TICKS)
    ensures Sleep(s, 0) == Yield(s)
  {
    var z := SetQuantum(s, 0);
    QuantumInv(s, 0);
    ScheduleLaw(z);
    SameWaiters(s, z);
    if SomeoneWaits(s) { HandedOver(s, z, Yield(s)); }
  }

  /** The waiters do not depend on how much quantum the running process has left. */
  lemma SameWaiters(s: State, z: State)
    requires WellFormed(s) && WellFormed(z) && s.procs[s.cur].state == Running && z.cur == s.cur && z.queues == s.queues
    requires exists n: nat :: z.procs == s.procs[s.cur := s.procs[s.cur].(quantumLeft := n)]
    ensures SomeoneWaits(s) <==> SomeoneWaits(z)
    ensures forall x: nat :: Foremost(z, x) <==> Foremost(s, x)
    ensures forall x: nat :: Waiting(z, x) ==> z.procs[x] == s.procs[x]
  {
    assert forall x: nat :: Waiting(s, x) <==> Waiting(z, x);
    if SomeoneWaits(s) {
      var x: nat :| Waiting(s, x);
      assert Waiting(z, x);
    }
  }

  lemma HandedOver(s: State, z: State, r: State)
    requires Inv(s) && WellFormed(z) && WellFormed(r) && z.cur == s.cur && Foremost(s, r.cur) && r.cur != s.cur
    requires HandsOver(z, r, r.cur) && z.procs[r.cur] == s.procs[r.cur]
    requires z.procs[s.cur] == s.procs[s.cur].(quantumLeft := z.procs[s.cur].quantumLeft)
    ensures GivenUp(s, r)
  {
    assert PcbInv(s.procs[s.cur], s.cur);
    var l := s.procs[s.cur].basePriority;
    assert r.queues[l] == QueueAfter(z, r.cur, l);
  }

  // ---------------------------------------------------------------------------
  // The timer tick
  // ---------------------------------------------------------------------------

  /** Somebody waits at a better level than the running process, or idle runs and anybody waits. */
  ghost predicate Outranked(s: State)
    requires WellFormed(s)
  {
    exists p: nat :: Waiting(s, p) && (s.cur == 0 || s.procs[p].priority < s.procs[s.cur].priority)
  }

  lemma OutrankedIff(s: State)
    requires Inv(s)
    ensures HigherReady(s) <==> Outranked(s)
  {
    HeadIsForemost(s);
    assert PcbInv(s.procs[s.cur], s.cur);
    var q := BestQueue(s);
    if HigherReady(s) { assert Waiting(s, s.queues[q][0]); }
    if Outranked(s) {
      var p: nat :| Waiting(s, p) && (s.cur == 0 || s.procs[p].priority < s.procs[s.cur].priority);
      Standing(s, p);
    }
  }

  /** What a tick of the quantum leaves of it; the last one starts a new quantum. */
  function NextQuantum(left: nat): nat {
    if left <= 1 then SCHED_QUANTUM_TICKS else left - 1
  }

  /** The decision of a tick in m: r is m with the CPU handed over, or with the running process a tick further. */
  ghost predicate Decided(m: State, r: State)
    requires WellFormed(m) && WellFormed(r)
  {
    var p := m.procs[m.cur];
    if Outranked(m) || (p.quantumLeft == 1 && SomeoneWaits(m)) then GivenUp(m, r)
    else r.cur == m.cur && r.queues == m.queues && r.procs[m.cur] == p.(quantumLeft := NextQuantum(p.quantumLeft))
  }

  /**
   A tick, after sleepers have woken and waiters aged: the running process loses the CPU to the
   foremost waiter exactly if it is outranked or its quantum ends while somebody waits; else it
   keeps it, with one tick of quantum less, or a new quantum if that was the last.
   */
  lemma TickLaw(s: State)
    requires Inv(s) && s.started
    ensures
      var m := TickBookkeeping(Advance(s));
      m.cur == s.cur && m.procs[s.cur] == s.procs[s.cur] && Decided(m, Tick(s))
  {
    ClockInv(s);
    BookkeepingInv(Advance(s));
    PreemptLaw(TickBookkeeping(Advance(s)));
  }

  lemma PreemptLaw(m: State)
    requires Inv(m) && m.started
    ensures Decided(m, Preempt(m))
  {
    var b, r := Burn(m), Preempt(m);
    OutrankedIff(m);
    BurnInv(m);
    SameWaiters(m, b);
    ScheduleLaw(b);
    if r.cur != m.cur { HandedOver(m, b, r); }
  }

  /** Seen from a process that waits at a better level than the running one, or while idle runs. */
  lemma TickPreempts(s: State, p: nat)
    requires Inv(s) && s.started && Waiting(s, p) && (s.cur == 0 || s.procs[p].priority < s.procs[s.cur].priority)
    ensures
      var m, r := TickBookkeeping(Advance(s)), Tick(s);
      && r.cur != s.cur && Waiting(m, r.cur) && m.procs[r.cur].priority <= s.procs[p].priority
      && r.procs[r.cur].state == Running
  {
    var m := TickBookkeeping(Advance(s));
    ClockInv(s);
    BookkeepingOlder(Advance(s), p);
    TickLaw(s);
    assert Waiting(m, p) && m.procs[p].priority <= s.procs[p].priority;
    assert Outranked(m);
  }

  // ---------------------------------------------------------------------------
  // Orphans
  // ---------------------------------------------------------------------------

  /** A zombie whose parent, if it had one other than idle, lives no more. */
  ghost predicate Orphan(procs: seq<Pcb>, i: nat)
    requires i < |procs|
  {
    procs[i].state == Zombie && forall k :: 0 < k < |procs| && Alive(procs[k]) ==> procs[k].pid != procs[i].ppid
  }

  /** A slot that has been given back. */
  function Freed(p: Pcb): Pcb {
    p.(state := Unused, pid := 0, hasUserStack := false)
  }

  lemma ReapableIff(s: State, i: nat)
    requires SchedInv(s) && UniquePids(s.procs) && i < PROCESS_MAX && s.procs[i].state == Zombie && i != s.cur
    ensures Reapable(s, i) <==> Orphan(s.procs, i)
  {
    var parent := ByPid(s.procs, s.procs[i].ppid);
    assert PcbInv(s.procs[0], 0);
    if parent < PROCESS_MAX { assert PcbInv(s.procs[parent], parent); }
    forall k | 0 < k < PROCESS_MAX && Alive(s.procs[k]) && s.procs[k].pid == s.procs[i].ppid
      ensures !Reapable(s, i)
    {
      ByPidUnique(s.procs, k);
      assert PcbInv(s.procs[k], k);
    }
  }

  /** Releasing zombies makes nobody an orphan who was none, and saves none. */
  lemma SameOrphans(a: seq<Pcb>, b: seq<Pcb>, i: nat)
    requires |a| == |b| && i < |a| && b[i] == a[i]
    requires forall k :: 0 <= k < |a| ==> b[k] == a[k] || (a[k].state == Zombie && b[k].state == Unused)
    ensures Orphan(a, i) <==> Orphan(b, i)
  {
    if Orphan(b, i) {
      forall k | 0 < k < |a| && Alive(a[k]) ensures a[k].pid != a[i].ppid { assert b[k] == a[k]; }
    }
  }

  lemma {:induction false} ReapLeavesBelow(s: State, k: nat, i: nat)
    requires WellFormed(s) && i < k <= PROCESS_MAX
    ensures ReapFrom(s, k).procs[i] == s.procs[i]
    decreases PROCESS_MAX - k
  {
    if k < PROCESS_MAX { ReapLeavesBelow(ReapOne(s, k), k + 1, i); }
  }

  lemma {:induction false} ReapsIff(s: State, k: nat, i: nat)
    requires SchedInv(s) && UniquePids(s.procs) && k <= i < PROCESS_MAX && s.procs[i].state == Zombie && i != s.cur
    ensures ReapFrom(s, k).procs[i] == if Orphan(s.procs, i) then Freed(s.procs[i]) else s.procs[i]
    decreases PROCESS_MAX - k
  {
    var s1 := ReapOne(s, k);
    ReapOneInv(s, k);
    if k == i {
      ReapableIff(s, i);
      ReapLeavesBelow(s1, k + 1, i);
    } else {
      ReapOneSpares(s, k, i);
      ReapsIff(s1, k + 1, i);
    }
  }

  lemma ReapOneSpares(s: State, k: nat, i: nat)
    requires WellFormed(s) && UniquePids(s.procs) && k < PROCESS_MAX && i < PROCESS_MAX && k != i
    ensures
      var r := ReapOne(s, k);
      UniquePids(r.procs) && r.procs[i] == s.procs[i] && (Orphan(s.procs, i) <==> Orphan(r.procs, i))
  {
    var r := ReapOne(s, k);
    assert Benign(s.procs, r.procs);
    BenignUnique(s.procs, r.procs);
    SameOrphans(s.procs, r.procs, i);
  }

  lemma DispatchKeepsDead(s: State, i: nat)
    requires SchedInv(s) && i < PROCESS_MAX && !Alive(s.procs[i])
    ensures Dispatch(s).procs[i] == s.procs[i]
  {
    IdleIsSlotZero(s);
    assert PcbInv(s.procs[0], 0);
    var q := BestQueue(s);
    if q < PRIORITY_LEVELS {
      var next := s.queues[q][0];
      assert next in s.queues[q];
      assert Queued(s.procs[next], next, q);
    }
  }

  /** schedule() releases a zombie other than its caller exactly if it is an orphan. */
  lemma ScheduleReapsIff(s: State, i: nat)
    requires SchedInv(s) && s.started && UniquePids(s.procs) && i < PROCESS_MAX
    requires s.procs[i].state == Zombie && i != s.cur
    ensures Schedule(s).procs[i] == if Orphan(s.procs, i) then Freed(s.procs[i]) else s.procs[i]
  {
    ReapInv(s, 0);
    ReapsIff(s, 0, i);
    DispatchKeepsDead(ReapFrom(s, 0), i);
  }

  /** Nobody has been born or has died, and everybody has kept its pid and its parent's. */
  ghost predicate SameLives(a: seq<Pcb>, b: seq<Pcb>) {
    |a| == |b| && forall k :: 0 <= k < |a| ==> SameLife(a[k], b[k])
  }

  predicate SameLife(a: Pcb, b: Pcb) {
    && a.pid == b.pid && a.ppid == b.ppid
    && (Alive(a) <==> Alive(b)) && (a.state == Zombie <==> b.state == Zombie)
  }

  lemma SameLivesThrough(a: seq<Pcb>, b: seq<Pcb>, c: seq<Pcb>)
    requires SameLives(a, b) && SameLives(b, c)
    ensures SameLives(a, c)
  {
    forall k | 0 <= k < |a| ensures SameLife(a[k], c[k]) { assert SameLife(a[k], b[k]) && SameLife(b[k], c[k]); }
  }

  lemma OrphanThrough(a: seq<Pcb>, b: seq<Pcb>, i: nat)
    requires SameLives(a, b) && i < |a| && UniquePids(a) && Orphan(a, i)
    ensures UniquePids(b) && Orphan(b, i)
  {
    assert forall k :: 0 <= k < |a| ==> SameLife(a[k], b[k]);
    forall j, k | 0 <= j < k < |b| && Live(b[j]) && Live(b[k]) ensures b[j].pid != b[k].pid {
      assert SameLife(a[j], b[j]) && SameLife(a[k], b[k]);
    }
  }

  lemma {:induction false} WakeSameLives(s: State, i: nat)
    requires WellFormed(s) && i <= PROCESS_MAX
    ensures SameLives(s.procs, WakeFrom(s, i).procs)
    decreases PROCESS_MAX - i
  {
    if i < PROCESS_MAX {
      assert SameLives(s.procs, WakeOne(s, i).procs);
      WakeSameLives(WakeOne(s, i), i + 1);
      SameLivesThrough(s.procs, WakeOne(s, i).procs, WakeFrom(s, i).procs);
    }
  }

  lemma AgeItemSameLives(s: State, p: nat, q: nat)
    requires WellFormed(s) && 0 < q < PRIORITY_LEVELS && p < PROCESS_MAX
    ensures SameLives(s.procs, AgeItem(s, p, q).procs)
  {
    var s1 := OneTickOlder(s, p);
    assert SameLives(s.procs, s1.procs);
    PromoteSameLives(s1, p, q);
    SameLivesThrough(s.procs, s1.procs, Promote(s1, p, q).procs);
  }

  lemma PromoteSameLives(s: State, p: nat, q: nat)
    requires WellFormed(s) && 0 < q < PRIORITY_LEVELS && p < PROCESS_MAX
    ensures SameLives(s.procs, Promote(s, p, q).procs)
  {
    var r := Promote(s, p, q).procs;
    assert SameLife(s.procs[p], r[p]);
    assert forall x :: 0 <= x < PROCESS_MAX && x != p ==> r[x] == s.procs[x];
  }

  lemma {:induction false} AgeSameLives(s: State, items: seq<nat>, q: nat)
    requires WellFormed(s) && 0 < q < PRIORITY_LEVELS
    requires forall k :: 0 <= k < |items| ==> items[k] < PROCESS_MAX
    ensures SameLives(s.procs, AgeItems(s, items, q).procs)
    decreases |items|
  {
    if items != [] {
      var s1 := AgeItem(s, items[0], q);
      AgeItemSameLives(s, items[0], q);
      AgeSameLives(s1, items[1..], q);
      SameLivesThrough(s.procs, s1.procs, AgeItems(s, items, q).procs);
    }
  }

  lemma BookkeepingSameLives(s: State)
    requires WellFormed(s)
    ensures SameLives(s.procs, TickBookkeeping(s).procs)
  {
    var s1 := WakeFrom(s, 0);
    var s2 := AgeItems(s1, s1.queues[1], 1);
    WakeSameLives(s, 0);
    AgeSameLives(s1, s1.queues[1], 1);
    AgeSameLives(s2, s2.queues[2], 2);
    SameLivesThrough(s.procs, s1.procs, s2.procs);
    SameLivesThrough(s.procs, s2.procs, TickBookkeeping(s).procs);
  }

  /** A started kernel with unique pids and an orphan in slot i. */
  ghost predicate Orphaned(s: State, i: nat) {
    Inv(s) && s.started && UniquePids(s.procs) && i < PROCESS_MAX && Orphan(s.procs, i)
  }

  /** yield, like every call that enters schedule() as a runnable process, frees the slots of all orphans. */
  lemma YieldFreesOrphans(s: State, i: nat)
    requires Orphaned(s, i)
    ensures Yield(s).procs[i].state == Unused
  {
    var z := SetQuantum(s, 0);
    QuantumInv(s, 0);
    OrphanThrough(s.procs, z.procs, i);
    ScheduleReapsIff(z, i);
  }

  lemma PreemptOrphan(m: State, i: nat)
    requires Orphaned(m, i)
    ensures
      var r := Preempt(m);
      || r.procs[i].state == Unused
      || (r == Burn(m) && UniquePids(r.procs) && Orphan(r.procs, i) && r.procs[r.cur].quantumLeft > 0)
  {
    var b := Burn(m);
    BurnInv(m);
    OrphanThrough(m.procs, b.procs, i);
    ScheduleReapsIff(b, i);
  }

  lemma BookkeepingOrphan(s: State, i: nat)
    requires Orphaned(s, i)
    ensures
      var m := TickBookkeeping(Advance(s));
      Orphaned(m, i) && m.cur == s.cur && m.procs[s.cur] == s.procs[s.cur]
  {
    ClockInv(s);
    BookkeepingInv(Advance(s));
    BookkeepingSameLives(Advance(s));
    OrphanThrough(s.procs, TickBookkeeping(Advance(s)).procs, i);
  }

  /** A tick frees the slot of an orphan, or uses up a tick of the quantum and leaves it an orphan. */
  lemma TickOrphan(s: State, i: nat)
    requires Orphaned(s, i)
    ensures
      var r := Tick(s);
      || r.procs[i].state == Unused
      || (Orphaned(r, i) && r.procs[r.cur].quantumLeft == s.procs[s.cur].quantumLeft - 1)
  {
    BookkeepingOrphan(s, i);
    PreemptOrphan(TickBookkeeping(Advance(s)), i);
    StepInv(s, TickA);
  }

  lemma TickThen(s: State, n: nat, k: nat)
    requires WellFormed(s) && n == k + 1
    ensures Run(s, seq(n, _ => TickA)) == Run(Tick(s), seq(k, _ => TickA))
  {
    assert seq(n, _ => TickA)[1..] == seq(k, _ => TickA);
  }

  /** So the slot of an orphan is free again within one quantum. */
  lemma {:induction false} OrphanFreedSoon(s: State, i: nat) returns (n: nat)
    requires Orphaned(s, i)
    ensures 0 < n <= s.procs[s.cur].quantumLeft && Run(s, seq(n, _ => TickA)).procs[i].state == Unused
    decreases s.procs[s.cur].quantumLeft
  {
    var k := 0;
    TickOrphan(s, i);
    if Tick(s).procs[i].state != Unused { k := OrphanFreedSoon(Tick(s), i); }
    n := k + 1;
    TickThen(s, n, k);
  }
}
