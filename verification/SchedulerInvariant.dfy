/**
 What every step keeps: exactly one RUNNING process, which is current; a process other than
 idle is READY exactly when it stands, once, in the queue of its priority; idle, zombies and
 unused slots are never queued.
 */
module SchedulerInvariant {
  import opened SchedulerModel

  predicate Queued(p: Pcb, x: nat, q: nat) {
    x != 0 && p.state == Ready && p.priority == q
  }

  ghost predicate QueueInv(s: State) {
    && WellFormed(s)
    && (forall q :: 0 <= q < PRIORITY_LEVELS ==> NoDup(s.queues[q]))
    && (forall q, x :: 0 <= q < PRIORITY_LEVELS && 0 <= x < PROCESS_MAX ==>
          (x in s.queues[q] <==> Queued(s.procs[x], x, q)))
  }

  predicate PcbInv(p: Pcb, x: nat) {
    && (p.state != Unused ==>
          p.priority < PRIORITY_LEVELS && p.basePriority < PRIORITY_LEVELS && (p.pid == 0 <==> x == 0))
    && (p.state == Ready && x != 0 ==> p.waitTicks <= AGING_THRESHOLD)
    && (x == 0 ==> (p.state == Ready || p.state == Running) && p.ppid == 0)
  }

  ghost predicate TableInv(s: State) {
    && WellFormed(s)
    && (forall x :: 0 <= x < PROCESS_MAX ==> PcbInv(s.procs[x], x))
    && (forall x :: 0 <= x < PROCESS_MAX ==> s.procs[x].state == Running ==> x == s.cur)
  }

  /** Holds whenever schedule() is entered: the current process may just have stopped running. */
  ghost predicate SchedInv(s: State) {
    && QueueInv(s)
    && TableInv(s)
    && (s.cur == 0 ==> s.procs[0].state == Running)
    && (!s.started ==> s.cur == 0)
  }

  /** Holds between steps. */
  ghost predicate Inv(s: State) {
    && SchedInv(s)
    && s.procs[s.cur].state == Running
    && 1 <= s.procs[s.cur].quantumLeft <= SCHED_QUANTUM_TICKS
  }

  // ---------------------------------------------------------------------------
  // Queue updates
  // ---------------------------------------------------------------------------

  lemma RemoveFacts(xs: seq<nat>, p: nat)
    requires NoDup(xs)
    ensures NoDup(Remove(xs, p))
    ensures forall x :: x in Remove(xs, p) <==> x in xs && x != p
  {
    var i := IndexOf(xs, p);
    if i < |xs| {
      var r := xs[..i] + xs[i + 1..];
      assert xs == xs[..i] + [p] + xs[i + 1..];
      forall a, b | 0 <= a < b < |r| ensures r[a] != r[b] {
        assert r[a] == if a < i then xs[a] else xs[a + 1];
        assert r[b] == if b < i then xs[b] else xs[b + 1];
      }
      assert p !in r;
    }
  }

  /** A slot that becomes READY and is enqueued. */
  lemma EnqueueReady(s: State, p: nat, pcb: Pcb)
    requires QueueInv(s) && 0 < p < PROCESS_MAX && s.procs[p].state != Ready
    requires pcb.state == Ready && pcb.pid != 0 && pcb.priority < PRIORITY_LEVELS
    ensures QueueInv(Enqueue(s.(procs := s.procs[p := pcb]), p))
  {
    var r := Enqueue(s.(procs := s.procs[p := pcb]), p);
    var l := pcb.priority;
    assert p !in s.queues[l];
    forall q, x | 0 <= q < PRIORITY_LEVELS && 0 <= x < PROCESS_MAX
      ensures x in r.queues[q] <==> Queued(r.procs[x], x, q)
    {
      assert x in s.queues[q] <==> Queued(s.procs[x], x, q);
    }
  }

  /** A slot that stops being READY and is dequeued. */
  lemma DequeueStopped(s: State, p: nat, pcb: Pcb)
    requires QueueInv(s) && 0 < p < PROCESS_MAX && pcb.state != Ready
    ensures WellFormed(Dequeue(s, p)) && QueueInv(Dequeue(s, p).(procs := s.procs[p := pcb]))
  {
    var d := Dequeue(s, p);
    var h := QueueHolding(s, p);
    if h < PRIORITY_LEVELS { RemoveFacts(s.queues[h], p); }
    var r := d.(procs := s.procs[p := pcb]);
    forall q, x | 0 <= q < PRIORITY_LEVELS && 0 <= x < PROCESS_MAX
      ensures x in r.queues[q] <==> Queued(r.procs[x], x, q)
    {
      assert x in s.queues[q] <==> Queued(s.procs[x], x, q);
      assert p in s.queues[q] <==> Queued(s.procs[p], p, q);
      assert h < PRIORITY_LEVELS ==> Queued(s.procs[p], p, h);
    }
  }

  /** A change to one slot that touches neither its state nor its priority. */
  lemma QuietUpdate(s: State, p: nat, pcb: Pcb)
    requires QueueInv(s) && p < PROCESS_MAX
    requires pcb.state == s.procs[p].state && pcb.priority == s.procs[p].priority
    ensures QueueInv(s.(procs := s.procs[p := pcb]))
  {
    var r := s.(procs := s.procs[p := pcb]);
    forall q, x | 0 <= q < PRIORITY_LEVELS && 0 <= x < PROCESS_MAX
      ensures x in r.queues[q] <==> Queued(r.procs[x], x, q)
    {
      assert x in s.queues[q] <==> Queued(s.procs[x], x, q);
    }
  }

  /** A slot outside the queues that changes to another state outside the queues. */
  lemma UnqueuedUpdate(s: State, p: nat, pcb: Pcb)
    requires QueueInv(s) && p < PROCESS_MAX
    requires p == 0 || (pcb.state != Ready && s.procs[p].state != Ready)
    ensures QueueInv(s.(procs := s.procs[p := pcb]))
  {
    var r := s.(procs := s.procs[p := pcb]);
    forall q, x | 0 <= q < PRIORITY_LEVELS && 0 <= x < PROCESS_MAX
      ensures x in r.queues[q] <==> Queued(r.procs[x], x, q)
    {
      assert x in s.queues[q] <==> Queued(s.procs[x], x, q);
    }
  }

  /** The head of a queue, popped and made RUNNING. */
  lemma PopRunning(s: State, q: nat, pcb: Pcb)
    requires QueueInv(s) && q < PRIORITY_LEVELS && s.queues[q] != [] && pcb.state == Running
    ensures var p := s.queues[q][0]; QueueInv(Pop(s, q).(procs := s.procs[p := pcb]))
  {
    var p := s.queues[q][0];
    var r := Pop(s, q).(procs := s.procs[p := pcb]);
    assert s.queues[q] == [p] + r.queues[q];
    forall l, x | 0 <= l < PRIORITY_LEVELS && 0 <= x < PROCESS_MAX
      ensures x in r.queues[l] <==> Queued(r.procs[x], x, l)
    {
      assert x in s.queues[l] <==> Queued(s.procs[x], x, l);
      assert p in s.queues[l] <==> Queued(s.procs[p], p, l);
      assert p in s.queues[q];
    }
  }

  // ---------------------------------------------------------------------------
  // Housekeeping keeps the invariant and leaves the current process alone
  // ---------------------------------------------------------------------------

  /** r differs from s only in processes other than the current one. */
  predicate CurrentKept(s: State, r: State)
    requires WellFormed(s) && WellFormed(r)
  {
    CurrentRestKept(s, r) && r.procs[s.cur] == s.procs[s.cur]
  }

  lemma MakeReadyInv(s: State, p: nat)
    requires SchedInv(s) && 0 < p < PROCESS_MAX && p != s.cur
    requires s.procs[p].state == Blocked || s.procs[p].state == Sleeping
    ensures SchedInv(MakeReady(s, p)) && CurrentKept(s, MakeReady(s, p))
  {
    EnqueueReady(s, p, s.procs[p].(state := Ready));
  }

  lemma ReapOneInv(s: State, i: nat)
    requires SchedInv(s) && i < PROCESS_MAX
    ensures SchedInv(ReapOne(s, i)) && CurrentKept(s, ReapOne(s, i))
    ensures ReapOne(s, i).queues == s.queues
  {
    if Reapable(s, i) {
      UnqueuedUpdate(s, i, s.procs[i].(state := Unused, pid := 0, hasUserStack := false));
    }
  }

  lemma {:induction false} ReapInv(s: State, i: nat)
    requires SchedInv(s) && i <= PROCESS_MAX
    ensures SchedInv(ReapFrom(s, i)) && CurrentKept(s, ReapFrom(s, i))
    ensures ReapFrom(s, i).queues == s.queues
    decreases PROCESS_MAX - i
  {
    if i < PROCESS_MAX {
      ReapOneInv(s, i);
      ReapInv(ReapOne(s, i), i + 1);
    }
  }

  lemma WakeOneInv(s: State, i: nat)
    requires SchedInv(s) && s.procs[s.cur].state == Running && i < PROCESS_MAX
    ensures SchedInv(WakeOne(s, i)) && CurrentKept(s, WakeOne(s, i))
  {
    if Due(s, i) {
      assert PcbInv(s.procs[i], i);
      MakeReadyInv(s, i);
    }
  }

  lemma {:induction false} WakeInv(s: State, i: nat)
    requires SchedInv(s) && s.procs[s.cur].state == Running && i <= PROCESS_MAX
    ensures SchedInv(WakeFrom(s, i)) && CurrentKept(s, WakeFrom(s, i))
    decreases PROCESS_MAX - i
  {
    if i < PROCESS_MAX {
      WakeOneInv(s, i);
      WakeInv(WakeOne(s, i), i + 1);
    }
  }

  /** A promotion, spelled out: out of queue q, to the end of queue q - 1, waiting time reset. */
  lemma PromoteShape(s: State, p: nat, q: nat)
    requires QueueInv(s) && 0 < q < PRIORITY_LEVELS && p in s.queues[q] && s.procs[p].pid != 0
    ensures Promote(s, p, q).procs == s.procs[p := s.procs[p].(priority := q - 1, waitTicks := 0)]
    ensures Promote(s, p, q).queues == s.queues[q := Remove(s.queues[q], p)][q - 1 := s.queues[q - 1] + [p]]
    ensures CurrentRestKept(s, Promote(s, p, q))
  {
    assert p in s.queues[q] <==> Queued(s.procs[p], p, q);
    assert forall l :: 0 <= l < PRIORITY_LEVELS && l != q ==> (p in s.queues[l] <==> Queued(s.procs[p], p, l));
    assert QueueHolding(s, p) == q;
  }

  predicate CurrentRestKept(s: State, r: State) {
    r.cur == s.cur && r.now == s.now && r.nextPid == s.nextPid && r.started == s.started
  }

  lemma PromoteInv(s: State, p: nat, q: nat)
    requires QueueInv(s) && 0 < q < PRIORITY_LEVELS && p in s.queues[q] && s.procs[p].pid != 0
    ensures QueueInv(Promote(s, p, q))
  {
    assert p in s.queues[q] <==> Queued(s.procs[p], p, q);
    PromoteShape(s, p, q);
    RemoveFacts(s.queues[q], p);
    var r := Promote(s, p, q);
    assert p in s.queues[q - 1] <==> Queued(s.procs[p], p, q - 1);
    forall l, x | 0 <= l < PRIORITY_LEVELS && 0 <= x < PROCESS_MAX
      ensures x in r.queues[l] <==> Queued(r.procs[x], x, l)
    {
      assert x in s.queues[l] <==> Queued(s.procs[x], x, l);
    }
  }

  lemma BumpInv(s: State, p: nat, q: nat)
    requires SchedInv(s) && 0 < q < PRIORITY_LEVELS && p in s.queues[q] && s.procs[p].waitTicks < AGING_THRESHOLD
    ensures SchedInv(OneTickOlder(s, p))
  {
    assert Queued(s.procs[p], p, q);
    assert PcbInv(s.procs[p], p);
    QuietUpdate(s, p, SchedulerModel.Older(s.procs[p]));
  }

  lemma BumpPromoteInv(s: State, p: nat, q: nat)
    requires SchedInv(s) && 0 < q < PRIORITY_LEVELS && p in s.queues[q]
    ensures
      var s1 := OneTickOlder(s, p);
      && SchedInv(Promote(s1, p, q)) && Promote(s1, p, q).queues[q] == Remove(s.queues[q], p)
      && CurrentRestKept(s, Promote(s1, p, q))
      && Promote(s1, p, q).procs == s.procs[p := s.procs[p].(priority := q - 1, waitTicks := 0)]
  {
    assert Queued(s.procs[p], p, q);
    assert PcbInv(s.procs[p], p);
    var pcb := SchedulerModel.Older(s.procs[p]);
    QuietUpdate(s, p, pcb);
    var s1 := s.(procs := s.procs[p := pcb]);
    PromoteInv(s1, p, q);
    PromoteShape(s1, p, q);
  }

  lemma AgeItemInv(s: State, p: nat, q: nat)
    requires SchedInv(s) && 0 < q < PRIORITY_LEVELS && p in s.queues[q] && s.procs[s.cur].state == Running
    ensures SchedInv(AgeItem(s, p, q)) && CurrentKept(s, AgeItem(s, p, q))
    ensures forall x :: x in s.queues[q] && x != p ==> x in AgeItem(s, p, q).queues[q]
  {
    assert Queued(s.procs[p], p, q);
    if s.procs[p].waitTicks + 1 > AGING_THRESHOLD {
      BumpPromoteInv(s, p, q);
      RemoveFacts(s.queues[q], p);
    } else {
      BumpInv(s, p, q);
    }
  }

  lemma {:induction false} AgeItemsInv(s: State, items: seq<nat>, q: nat)
    requires SchedInv(s) && 0 < q < PRIORITY_LEVELS && s.procs[s.cur].state == Running
    requires NoDup(items) && forall k :: 0 <= k < |items| ==> items[k] in s.queues[q]
    ensures forall k :: 0 <= k < |items| ==> items[k] < PROCESS_MAX
    ensures SchedInv(AgeItems(s, items, q)) && CurrentKept(s, AgeItems(s, items, q))
    decreases |items|
  {
    if items != [] {
      AgeItemInv(s, items[0], q);
      AgeItemsInv(AgeItem(s, items[0], q), items[1..], q);
      assert forall k :: 0 <= k < |items| ==> items[k] in s.queues[q];
    }
  }

  lemma BookkeepingInv(s: State)
    requires Inv(s)
    ensures Inv(TickBookkeeping(s)) && CurrentKept(s, TickBookkeeping(s))
  {
    WakeInv(s, 0);
    var s1 := WakeFrom(s, 0);
    AgeItemsInv(s1, s1.queues[1], 1);
    var s2 := AgeItems(s1, s1.queues[1], 1);
    AgeItemsInv(s2, s2.queues[2], 2);
  }

  // ---------------------------------------------------------------------------
  // schedule()
  // ---------------------------------------------------------------------------

  lemma IdleIsSlotZero(s: State)
    requires TableInv(s)
    ensures ByPid(s.procs, 0) == 0
  {
    assert PcbInv(s.procs[0], 0);
  }

  lemma SwitchInv(s: State, next: nat)
    requires SchedInv(s) && s.started && BestQueue(s) < PRIORITY_LEVELS && next == s.queues[BestQueue(s)][0]
    ensures Inv(SwitchTo(Pop(s, BestQueue(s)), next))
  {
    var q := BestQueue(s);
    var prev := s.procs[s.cur];
    assert next in s.queues[q];
    assert Queued(s.procs[next], next, q);
    assert PcbInv(s.procs[next], next) && PcbInv(prev, s.cur);
    var n := s.procs[next].(state := Running, priority := s.procs[next].basePriority,
        quantumLeft := SCHED_QUANTUM_TICKS);
    PopRunning(s, q, n);
    var s1 := Pop(s, q).(procs := s.procs[next := n]);
    var r := SwitchTo(Pop(s, q), next);
    if prev.state == Running {
      var back := prev.(state := Ready, priority := prev.basePriority);
      if s.cur == 0 {
        UnqueuedUpdate(s1, 0, back);
        assert r.queues == s1.queues && r.procs == s1.procs[0 := back];
      } else {
        EnqueueReady(s1, s.cur, back);
        assert r.procs == Enqueue(s1.(procs := s1.procs[s.cur := back]), s.cur).procs;
      }
    }
    assert r.cur == next;
  }

  lemma FallToIdleInv(s: State)
    requires SchedInv(s) && s.started && s.procs[s.cur].state != Running
    ensures Inv(SwitchTo(s, 0))
  {
    assert PcbInv(s.procs[0], 0);
    var n := s.procs[0].(state := Running, priority := s.procs[0].basePriority, quantumLeft := SCHED_QUANTUM_TICKS);
    UnqueuedUpdate(s, 0, n);
  }

  lemma DispatchInv(s: State)
    requires SchedInv(s) && s.started
    ensures Inv(Dispatch(s))
  {
    IdleIsSlotZero(s);
    if BestQueue(s) < PRIORITY_LEVELS {
      SwitchInv(s, s.queues[BestQueue(s)][0]);
    } else if s.procs[s.cur].state == Running {
      QuietUpdate(s, s.cur, s.procs[s.cur].(quantumLeft := SCHED_QUANTUM_TICKS));
      assert PcbInv(s.procs[s.cur], s.cur);
    } else {
      FallToIdleInv(s);
    }
  }

  lemma ScheduleInv(s: State)
    requires SchedInv(s) && s.started
    ensures Inv(Schedule(s))
  {
    ReapInv(s, 0);
    DispatchInv(ReapFrom(s, 0));
  }

  // ---------------------------------------------------------------------------
  // Every step
  // ---------------------------------------------------------------------------

  lemma QuantumInv(s: State, n: nat)
    requires SchedInv(s) && s.procs[s.cur].state == Running
    ensures SchedInv(SetQuantum(s, n))
  {
    QuietUpdate(s, s.cur, s.procs[s.cur].(quantumLeft := n));
    assert PcbInv(s.procs[s.cur], s.cur);
  }

  lemma BurnInv(s: State)
    requires Inv(s)
    ensures SchedInv(Burn(s)) && Burn(s).procs[s.cur].state == Running
  {
    QuantumInv(s, s.procs[s.cur].quantumLeft - 1);
  }

  lemma PreemptInv(s: State)
    requires Inv(s) && s.started
    ensures Inv(Preempt(s))
  {
    BurnInv(s);
    if HigherReady(s) || Burn(s).procs[s.cur].quantumLeft == 0 {
      ScheduleInv(Burn(s));
    }
  }

  lemma ClockInv(s: State)
    requires Inv(s)
    ensures Inv(Advance(s))
  {
  }

  lemma BookkeepThenPreemptInv(s: State)
    requires Inv(s) && s.started
    ensures Inv(Preempt(TickBookkeeping(s)))
  {
    BookkeepingInv(s);
    PreemptInv(TickBookkeeping(s));
  }

  lemma TickInv(s: State)
    requires Inv(s)
    ensures Inv(Tick(s))
  {
    ClockInv(s);
    if s.started { BookkeepThenPreemptInv(Advance(s)); }
  }

  lemma YieldInv(s: State)
    requires Inv(s)
    ensures Inv(Yield(s))
  {
    if s.started {
      QuantumInv(s, 0);
      ScheduleInv(SetQuantum(s, 0));
    }
  }

  /** The current process, other than idle, leaves the RUNNING state. */
  lemma StopCurrentInv(s: State, pcb: Pcb)
    requires Inv(s) && s.cur != 0
    requires pcb.state == Zombie || pcb.state == Blocked || pcb.state == Sleeping
    requires pcb.pid == s.procs[s.cur].pid && pcb.priority == s.procs[s.cur].priority
    requires pcb.basePriority == s.procs[s.cur].basePriority
    ensures SchedInv(StopCurrent(s, pcb))
  {
    UnqueuedUpdate(s, s.cur, pcb);
    assert PcbInv(s.procs[s.cur], s.cur);
  }

  lemma StopAndScheduleInv(s: State, pcb: Pcb)
    requires Inv(s) && s.cur != 0 && s.started
    requires pcb.state == Blocked || pcb.state == Sleeping
    requires pcb.pid == s.procs[s.cur].pid && pcb.priority == s.procs[s.cur].priority
    requires pcb.basePriority == s.procs[s.cur].basePriority
    ensures Inv(Schedule(StopCurrent(s, pcb)))
  {
    StopCurrentInv(s, pcb);
    ScheduleInv(StopCurrent(s, pcb));
  }

  lemma WakeParentInv(s: State, p: nat)
    requires SchedInv(s) && p < PROCESS_MAX
    requires s.procs[s.cur].state != Blocked
    ensures SchedInv(WakeParent(s, p)) && CurrentKept(s, WakeParent(s, p))
  {
    var parent := ByPid(s.procs, s.procs[p].ppid);
    if parent < PROCESS_MAX && s.procs[parent].parentWaiting && s.procs[parent].state == Blocked {
      assert PcbInv(s.procs[parent], parent);
      MakeReadyInv(s, parent);
    }
  }

  lemma ExitInv(s: State, code: int)
    requires Inv(s) && s.cur != 0
    ensures Inv(Exit(s, code))
  {
    StopCurrentInv(s, s.procs[s.cur].(state := Zombie, exitCode := code, hasUserStack := false));
    WakeParentInv(MakeZombie(s, s.cur, code), s.cur);
    ScheduleInv(WakeParent(MakeZombie(s, s.cur, code), s.cur));
  }

  lemma KillInv(s: State, pid: nat)
    requires Inv(s) && s.cur != 0
    ensures Inv(Kill(s, pid))
  {
    var p := ByPid(s.procs, pid);
    if pid == 0 || p == PROCESS_MAX || s.procs[p].state == Zombie {
    } else if p == s.cur {
      ExitInv(s, -1);
    } else {
      assert PcbInv(s.procs[p], p);
      var pcb := s.procs[p].(state := Zombie, exitCode := -1, hasUserStack := false);
      DequeueStopped(s, p, pcb);
      WakeParentInv(MakeZombie(Dequeue(s, p), p, -1), p);
    }
  }

  lemma WaitInv(s: State)
    requires Inv(s) && s.cur != 0
    ensures Inv(Wait(s))
  {
    var z := ZombieChildFrom(s.procs, s.cur, 0);
    if z < PROCESS_MAX {
      UnqueuedUpdate(s, z, s.procs[z].(state := Unused, pid := 0, hasUserStack := false));
      assert PcbInv(s.procs[z], z);
    } else if HasChild(s.procs, s.cur) {
      var pcb := s.procs[s.cur].(state := Blocked, parentWaiting := true);
      StopAndScheduleInv(s, pcb);
    }
  }

  lemma SleepInv(s: State, ms: nat)
    requires Inv(s) && s.cur != 0
    ensures Inv(Sleep(s, ms))
  {
    if ms == 0 { YieldInv(s); } else { StopAndScheduleInv(s, Asleep(s, ms)); }
  }

  lemma CreateInv(s: State, priority: nat, valid: bool, user: bool)
    requires Inv(s) && s.nextPid != 0
    ensures Inv(Create(s, priority, valid, user))
  {
    var c := FreeSlotFrom(s.procs, 0);
    if valid && priority < PRIORITY_LEVELS && c < PROCESS_MAX {
      assert PcbInv(s.procs[0], 0);
      var p := Pcb(s.nextPid, s.procs[s.cur].pid, Ready, priority, priority, SCHED_QUANTUM_TICKS,
                   0, 0, 0, false, user, user);
      EnqueueReady(s.(nextPid := Successor(s.nextPid)), c, p);
    }
  }

  /** process_create succeeds in taking a slot. */
  predicate Creates(s: State, priority: nat, valid: bool)
    requires WellFormed(s)
  {
    valid && priority < PRIORITY_LEVELS && FreeSlotFrom(s.procs, 0) < PROCESS_MAX
  }

  /** Creation keeps the invariant exactly if it fails or the pid counter has not wrapped to the pid of idle. */
  lemma CreateInvIff(s: State, priority: nat, valid: bool, user: bool)
    requires Inv(s)
    ensures Inv(Create(s, priority, valid, user)) <==> s.nextPid != 0 || !Creates(s, priority, valid)
  {
    var c, r := FreeSlotFrom(s.procs, 0), Create(s, priority, valid, user);
    if s.nextPid != 0 {
      CreateInv(s, priority, valid, user);
    } else if Creates(s, priority, valid) {
      assert PcbInv(s.procs[0], 0);
      assert r.procs[c].pid == 0 && !PcbInv(r.procs[c], c);
    }
  }

  lemma ForkInv(s: State, stacks: bool)
    requires Inv(s) && s.cur != 0
    ensures Inv(Fork(s, stacks))
  {
    var p := s.procs[s.cur];
    var c := FreeSlotFrom(s.procs, 0);
    if p.isUser && p.hasUserStack && stacks && c < PROCESS_MAX {
      assert PcbInv(s.procs[0], 0) && PcbInv(p, s.cur);
      var child := p.(pid := FreshPidFrom(s.procs, c, 1), ppid := p.pid, state := Ready,
                      parentWaiting := false, waitTicks := 0);
      EnqueueReady(s, c, child);
    }
  }

  /** Every enabled step keeps the invariant. */
  lemma StepInv(s: State, a: Action)
    requires Inv(s) && Enabled(s, a)
    ensures Inv(Next(s, a))
  {
    match a
    case TickA => TickInv(s);
    case StartA =>
    case CreateA(priority, valid, user) => CreateInv(s, priority, valid, user);
    case ForkA(stacks) => ForkInv(s, stacks);
    case ExitA(code) => ExitInv(s, code);
    case KillA(pid) => KillInv(s, pid);
    case WaitA => WaitInv(s);
    case ResumeA =>
      QuietUpdate(s, s.cur, s.procs[s.cur].(parentWaiting := false));
      assert PcbInv(s.procs[s.cur], s.cur);
    case SleepA(ms) => SleepInv(s, ms);
    case YieldA => YieldInv(s);
  }

  lemma InitInv()
    ensures Inv(Init())
  {
  }

  /** Main theorem: the invariant holds after every legal run of the kernel from boot. */
  lemma {:induction false} RunInv(s: State, acts: seq<Action>)
    requires Inv(s) && Legal(s, acts)
    ensures Inv(Run(s, acts))
    decreases |acts|
  {
    if acts != [] {
      StepInv(s, acts[0]);
      RunInv(Next(s, acts[0]), acts[1..]);
    }
  }

  lemma EveryReachableStateIsSound(acts: seq<Action>)
    requires Legal(Init(), acts)
    ensures Inv(Run(Init(), acts))
  {
    InitInv();
    RunInv(Init(), acts);
  }
}
