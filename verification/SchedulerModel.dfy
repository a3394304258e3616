/**
 The process table, the three ready queues and the scheduler as a pure state machine.

 Every operation of process/scheduler.c, process/process.c and the process-table half of
 sys_fork runs with interrupts off, so each one is a single step here. The queues are
 plain FIFO sequences of table slots; `SchedulerLinked.dfy` refines them to the
 head/tail/next links of the kernel.
 */
module SchedulerModel {

  const PROCESS_MAX: nat := 64
  const PRIORITY_LEVELS: nat := 3
  const PRIORITY_LOW: nat := 2
  const SCHED_QUANTUM_TICKS: nat := 5
  const AGING_THRESHOLD: nat := 200
  const UINT32_SIZE: nat := 0x1_0000_0000

  datatype ProcessState = Unused | Ready | Running | Blocked | Sleeping | Zombie

  datatype Pcb = Pcb(
    pid: nat,
    ppid: nat,
    state: ProcessState,
    priority: nat,
    basePriority: nat,
    quantumLeft: nat,
    waitTicks: nat,
    sleepUntil: nat,
    exitCode: int,
    parentWaiting: bool,
    isUser: bool,
    hasUserStack: bool)

  datatype State = State(
    procs: seq<Pcb>,
    queues: seq<seq<nat>>,
    cur: nat,
    now: nat,
    nextPid: nat,
    started: bool)

  /** Shape only: 64 slots, three queues of slot numbers, a current slot. */
  predicate WellFormed(s: State) {
    && |s.procs| == PROCESS_MAX
    && |s.queues| == PRIORITY_LEVELS
    && s.cur < PROCESS_MAX
    && forall q, k :: 0 <= q < PRIORITY_LEVELS && 0 <= k < |s.queues[q]| ==> s.queues[q][k] < PROCESS_MAX
  }

  /** r has the clock, the pid counter and the started flag of s. */
  predicate SameClock(s: State, r: State) {
    r.now == s.now && r.nextPid == s.nextPid && r.started == s.started
  }

  // ---------------------------------------------------------------------------
  // Sequences used as FIFO queues
  // ---------------------------------------------------------------------------

  predicate NoDup(xs: seq<nat>) {
    forall i, j :: 0 <= i < j < |xs| ==> xs[i] != xs[j]
  }

  /** Position of the first x, or |xs| when x is absent. */
  function IndexOf(xs: seq<nat>, x: nat): (i: nat)
    ensures i <= |xs|
    ensures i < |xs| ==> xs[i] == x
    ensures forall j :: 0 <= j < i ==> xs[j] != x
  {
    if xs == [] || xs[0] == x then 0 else 1 + IndexOf(xs[1..], x)
  }

  function Remove(xs: seq<nat>, x: nat): (r: seq<nat>) {
    var i := IndexOf(xs, x);
    if i == |xs| then xs else xs[..i] + xs[i + 1..]
  }

  // ---------------------------------------------------------------------------
  // Ready queues
  // ---------------------------------------------------------------------------

  /** The queue scheduler_enqueue uses: the priority, clamped to the lowest level. */
  function Level(p: Pcb): (q: nat)
    ensures q < PRIORITY_LEVELS
  {
    if p.priority >= PRIORITY_LEVELS then PRIORITY_LEVELS - 1 else p.priority
  }

  function Enqueue(s: State, p: nat): (r: State)
    requires WellFormed(s) && p < PROCESS_MAX
    ensures WellFormed(r) && SameClock(s, r)
  {
    if s.procs[p].pid == 0 then s else
      var q := Level(s.procs[p]);
      s.(procs := s.procs[p := s.procs[p].(waitTicks := 0)],
         queues := s.queues[q := s.queues[q] + [p]])
  }

  /** The first queue holding p, or PRIORITY_LEVELS. */
  function QueueHolding(s: State, p: nat): (q: nat)
    requires WellFormed(s)
    ensures q <= PRIORITY_LEVELS
    ensures q < PRIORITY_LEVELS ==> p in s.queues[q]
    ensures forall r :: 0 <= r < q ==> p !in s.queues[r]
  {
    if p in s.queues[0] then 0 else if p in s.queues[1] then 1 else if p in s.queues[2] then 2 else 3
  }

  function Dequeue(s: State, p: nat): (r: State)
    requires WellFormed(s)
    ensures WellFormed(r) && SameClock(s, r)
  {
    var q := QueueHolding(s, p);
    if q == PRIORITY_LEVELS then s else s.(queues := s.queues[q := Remove(s.queues[q], p)])
  }

  /** The best non-empty queue, or PRIORITY_LEVELS when all are empty. */
  function BestQueue(s: State): (q: nat)
    requires WellFormed(s)
    ensures q <= PRIORITY_LEVELS
    ensures q < PRIORITY_LEVELS ==> s.queues[q] != []
    ensures forall r :: 0 <= r < q ==> s.queues[r] == []
  {
    if s.queues[0] != [] then 0 else if s.queues[1] != [] then 1 else if s.queues[2] != [] then 2 else 3
  }

  /** Queue q without its head. */
  function Pop(s: State, q: nat): (r: State)
    requires WellFormed(s) && q < PRIORITY_LEVELS && s.queues[q] != []
    ensures WellFormed(r) && SameClock(s, r)
  {
    s.(queues := s.queues[q := s.queues[q][1..]])
  }

  function SetState(s: State, p: nat, st: ProcessState): (r: State)
    requires WellFormed(s) && p < PROCESS_MAX
    ensures WellFormed(r) && SameClock(s, r)
  {
    s.(procs := s.procs[p := s.procs[p].(state := st)])
  }

  function MakeReady(s: State, p: nat): (r: State)
    requires WellFormed(s) && p < PROCESS_MAX
    ensures WellFormed(r) && SameClock(s, r)
  {
    Enqueue(SetState(s, p, Ready), p)
  }

  // ---------------------------------------------------------------------------
  // Table lookups
  // ---------------------------------------------------------------------------

  predicate Live(p: Pcb) {
    p.state != Unused
  }

  /** process_by_pid: the lowest live slot at or above i with that pid, or |procs|. */
  function ByPidFrom(procs: seq<Pcb>, pid: nat, i: nat): (r: nat)
    requires i <= |procs|
    ensures i <= r <= |procs|
    ensures r < |procs| ==> Live(procs[r]) && procs[r].pid == pid
    ensures forall j :: i <= j < r ==> !(Live(procs[j]) && procs[j].pid == pid)
    decreases |procs| - i
  {
    if i == |procs| then i
    else if Live(procs[i]) && procs[i].pid == pid then i
    else ByPidFrom(procs, pid, i + 1)
  }

  function ByPid(procs: seq<Pcb>, pid: nat): (r: nat)
    ensures r <= |procs|
    ensures r < |procs| ==> Live(procs[r]) && procs[r].pid == pid
    ensures forall j :: 0 <= j < r ==> !(Live(procs[j]) && procs[j].pid == pid)
  {
    ByPidFrom(procs, pid, 0)
  }

  /** The lowest unused slot at or above i, or |procs|. */
  function FreeSlotFrom(procs: seq<Pcb>, i: nat): (r: nat)
    requires i <= |procs|
    ensures i <= r <= |procs|
    ensures r < |procs| ==> procs[r].state == Unused
    ensures forall j :: i <= j < r ==> procs[j].state != Unused
    decreases |procs| - i
  {
    if i == |procs| then i
    else if procs[i].state == Unused then i
    else FreeSlotFrom(procs, i + 1)
  }

  // ---------------------------------------------------------------------------
  // Housekeeping loops
  // ---------------------------------------------------------------------------

  /** Nobody will ever collect a child of this parent slot (PROCESS_MAX = no parent). */
  predicate AbandonsChildren(procs: seq<Pcb>, parent: nat)
    requires parent <= |procs|
  {
    parent == |procs| || procs[parent].state == Zombie || procs[parent].pid == 0
  }

  predicate Reapable(s: State, i: nat)
    requires WellFormed(s) && i < PROCESS_MAX
  {
    && s.procs[i].state == Zombie
    && i != s.cur
    && AbandonsChildren(s.procs, ByPid(s.procs, s.procs[i].ppid))
  }

  /** process_release on a slot other than the current one. */
  function Release(s: State, i: nat): (r: State)
    requires WellFormed(s) && i < PROCESS_MAX
    ensures WellFormed(r) && SameClock(s, r)
  {
    if i == s.cur then s
    else s.(procs := s.procs[i := s.procs[i].(state := Unused, pid := 0, hasUserStack := false)])
  }

  function ReapOne(s: State, i: nat): (r: State)
    requires WellFormed(s) && i < PROCESS_MAX
    ensures WellFormed(r)
    ensures SameClock(s, r)
  {
    if Reapable(s, i) then Release(s, i) else s
  }

  function ReapFrom(s: State, i: nat): (r: State)
    requires WellFormed(s) && i <= PROCESS_MAX
    ensures WellFormed(r)
    ensures SameClock(s, r)
    decreases PROCESS_MAX - i
  {
    if i == PROCESS_MAX then s else ReapFrom(ReapOne(s, i), i + 1)
  }

  function Promote(s: State, p: nat, q: nat): (r: State)
    requires WellFormed(s) && p < PROCESS_MAX && 0 < q < PRIORITY_LEVELS
    ensures WellFormed(r)
    ensures SameClock(s, r)
  {
    var s1 := Dequeue(s, p);
    Enqueue(s1.(procs := s1.procs[p := s1.procs[p].(priority := q - 1)]), p)
  }

  function Older(p: Pcb): Pcb {
    p.(waitTicks := p.waitTicks + 1)
  }

  function OneTickOlder(s: State, p: nat): (r: State)
    requires WellFormed(s) && p < PROCESS_MAX
    ensures WellFormed(r) && SameClock(s, r)
  {
    s.(procs := s.procs[p := Older(s.procs[p])])
  }

  /** One queued process gets one tick older; past the threshold it moves up one level. */
  function AgeItem(s: State, p: nat, q: nat): (r: State)
    requires WellFormed(s) && p < PROCESS_MAX && 0 < q < PRIORITY_LEVELS
    ensures WellFormed(r)
    ensures SameClock(s, r)
  {
    var s1 := OneTickOlder(s, p);
    if s1.procs[p].waitTicks > AGING_THRESHOLD then Promote(s1, p, q) else s1
  }

  function AgeItems(s: State, items: seq<nat>, q: nat): (r: State)
    requires WellFormed(s) && 0 < q < PRIORITY_LEVELS
    requires forall k :: 0 <= k < |items| ==> items[k] < PROCESS_MAX
    ensures WellFormed(r)
    ensures SameClock(s, r)
    decreases |items|
  {
    if items == [] then s else AgeItems(AgeItem(s, items[0], q), items[1..], q)
  }

  function ApplyAging(s: State): (r: State)
    requires WellFormed(s)
    ensures WellFormed(r)
    ensures SameClock(s, r)
  {
    var s1 := AgeItems(s, s.queues[1], 1);
    AgeItems(s1, s1.queues[2], 2)
  }

  predicate Due(s: State, i: nat)
    requires WellFormed(s) && i < PROCESS_MAX
  {
    s.procs[i].state == Sleeping && s.now >= s.procs[i].sleepUntil
  }

  function WakeOne(s: State, i: nat): (r: State)
    requires WellFormed(s) && i < PROCESS_MAX
    ensures WellFormed(r)
    ensures SameClock(s, r)
  {
    if Due(s, i) then MakeReady(s, i) else s
  }

  function WakeFrom(s: State, i: nat): (r: State)
    requires WellFormed(s) && i <= PROCESS_MAX
    ensures WellFormed(r)
    ensures SameClock(s, r)
    decreases PROCESS_MAX - i
  {
    if i == PROCESS_MAX then s else WakeFrom(WakeOne(s, i), i + 1)
  }

  // ---------------------------------------------------------------------------
  // schedule() and the timer tick
  // ---------------------------------------------------------------------------

  /** Put the outgoing process back in the queue of its base priority. */
  function Requeue(s: State): (r: State)
    requires WellFormed(s)
    ensures WellFormed(r)
    ensures SameClock(s, r)
  {
    var p := s.procs[s.cur];
    Enqueue(s.(procs := s.procs[s.cur := p.(state := Ready, priority := p.basePriority)]), s.cur)
  }

  function SwitchTo(s: State, next: nat): (r: State)
    requires WellFormed(s) && next < PROCESS_MAX
    ensures WellFormed(r)
    ensures SameClock(s, r)
  {
    var s1 := if s.procs[s.cur].state == Running then Requeue(s) else s;
    var n := s1.procs[next];
    s1.(procs := s1.procs[next := n.(state := Running, priority := n.basePriority,
                                     quantumLeft := SCHED_QUANTUM_TICKS)],
        cur := next)
  }

  function SetQuantum(s: State, n: nat): (r: State)
    requires WellFormed(s)
    ensures WellFormed(r)
    ensures SameClock(s, r)
  {
    s.(procs := s.procs[s.cur := s.procs[s.cur].(quantumLeft := n)])
  }

  /** The half of schedule() after reap_orphans. */
  function Dispatch(s: State): (r: State)
    requires WellFormed(s)
    ensures WellFormed(r)
    ensures SameClock(s, r)
  {
    var q := BestQueue(s);
    if q < PRIORITY_LEVELS then SwitchTo(Pop(s, q), s.queues[q][0])
    else if s.procs[s.cur].state == Running then SetQuantum(s, SCHED_QUANTUM_TICKS)
    else
      var idle := ByPid(s.procs, 0);
      if idle == PROCESS_MAX || idle == s.cur then s else SwitchTo(s, idle)
  }

  function Schedule(s: State): (r: State)
    requires WellFormed(s)
    ensures WellFormed(r)
    ensures SameClock(s, r)
  {
    if !s.started then s else Dispatch(ReapFrom(s, 0))
  }

  predicate HigherReady(s: State)
    requires WellFormed(s)
  {
    var q := BestQueue(s);
    q < s.procs[s.cur].priority || (s.procs[s.cur].pid == 0 && q < PRIORITY_LEVELS)
  }

  /** Everything scheduler_tick does before it decides whether to preempt. */
  function TickBookkeeping(s: State): (r: State)
    requires WellFormed(s)
    ensures WellFormed(r)
    ensures SameClock(s, r)
  {
    ApplyAging(WakeFrom(s, 0))
  }

  /** One tick of the running process's quantum is used up. */
  function Burn(s: State): (r: State)
    requires WellFormed(s)
    ensures WellFormed(r)
    ensures SameClock(s, r)
  {
    var left := s.procs[s.cur].quantumLeft;
    SetQuantum(s, if left > 0 then left - 1 else left)
  }

  function Preempt(s: State): (r: State)
    requires WellFormed(s)
    ensures WellFormed(r)
    ensures SameClock(s, r)
  {
    if HigherReady(s) || Burn(s).procs[s.cur].quantumLeft == 0 then Schedule(Burn(s)) else Burn(s)
  }

  /** timer_handler counts the tick before it calls the scheduler. */
  function Advance(s: State): (r: State) {
    s.(now := s.now + 1)
  }

  function Tick(s: State): (r: State)
    requires WellFormed(s)
    ensures WellFormed(r)
  {
    if !s.started then Advance(s) else Preempt(TickBookkeeping(Advance(s)))
  }

  function Yield(s: State): (r: State)
    requires WellFormed(s)
    ensures WellFormed(r)
    ensures SameClock(s, r)
  {
    if !s.started then s else Schedule(SetQuantum(s, 0))
  }

  // ---------------------------------------------------------------------------
  // Process life cycle
  // ---------------------------------------------------------------------------

  /** The 32-bit pid counter. */
  function Successor(pid: nat): nat {
    (pid + 1) % UINT32_SIZE
  }

  /** process_create / process_create_user: pid from the counter, parent is the current process. */
  function Create(s: State, priority: nat, valid: bool, user: bool): (r: State)
    requires WellFormed(s)
    ensures WellFormed(r)
  {
    var c := FreeSlotFrom(s.procs, 0);
    if !valid || priority >= PRIORITY_LEVELS || c == PROCESS_MAX then s
    else
      var p := Pcb(s.nextPid, s.procs[s.cur].pid, Ready, priority, priority, SCHED_QUANTUM_TICKS,
                   0, 0, 0, false, user, user);
      Enqueue(s.(procs := s.procs[c := p], nextPid := Successor(s.nextPid)), c)
  }

  predicate PidTaken(procs: seq<Pcb>, child: nat, pid: nat) {
    exists i :: 0 <= i < |procs| && i != child && Live(procs[i]) && procs[i].pid == pid
  }

  /** Slots whose pid the scan of sys_fork may still run into. */
  function Contenders(procs: seq<Pcb>, child: nat, pid: nat): set<nat> {
    set i | 0 <= i < |procs| && i != child && Live(procs[i]) && procs[i].pid >= pid
  }

  /** The smallest pid at or above the given one that no other live slot uses. */
  function FreshPidFrom(procs: seq<Pcb>, child: nat, pid: nat): (r: nat)
    ensures r >= pid && !PidTaken(procs, child, r)
    ensures forall k :: pid <= k < r ==> PidTaken(procs, child, k)
    decreases Contenders(procs, child, pid)
  {
    if PidTaken(procs, child, pid) then
      ContendersShrink(procs, child, pid);
      FreshPidFrom(procs, child, pid + 1)
    else pid
  }

  lemma ContendersShrink(procs: seq<Pcb>, child: nat, pid: nat)
    requires PidTaken(procs, child, pid)
    ensures Contenders(procs, child, pid + 1) < Contenders(procs, child, pid)
  {
    var i :| 0 <= i < |procs| && i != child && Live(procs[i]) && procs[i].pid == pid;
    assert i in Contenders(procs, child, pid) && i !in Contenders(procs, child, pid + 1);
  }

  /** The process-table half of sys_fork. */
  function Fork(s: State, stacks: bool): (r: State)
    requires WellFormed(s)
    ensures WellFormed(r)
    ensures SameClock(s, r)
  {
    var p := s.procs[s.cur];
    var c := FreeSlotFrom(s.procs, 0);
    if !p.isUser || !p.hasUserStack || !stacks || c == PROCESS_MAX then s
    else
      var child := p.(pid := FreshPidFrom(s.procs, c, 1), ppid := p.pid, state := Ready,
                      parentWaiting := false, waitTicks := 0);
      Enqueue(s.(procs := s.procs[c := child]), c)
  }

  /** Wake the parent of p if it is blocked in process_wait. */
  function WakeParent(s: State, p: nat): (r: State)
    requires WellFormed(s) && p < PROCESS_MAX
    ensures WellFormed(r)
    ensures SameClock(s, r)
  {
    var parent := ByPid(s.procs, s.procs[p].ppid);
    if parent < PROCESS_MAX && s.procs[parent].parentWaiting && s.procs[parent].state == Blocked
    then MakeReady(s, parent) else s
  }

  function MakeZombie(s: State, p: nat, code: int): (r: State)
    requires WellFormed(s) && p < PROCESS_MAX
    ensures WellFormed(r)
    ensures SameClock(s, r)
  {
    s.(procs := s.procs[p := s.procs[p].(state := Zombie, exitCode := code, hasUserStack := false)])
  }

  function Exit(s: State, code: int): (r: State)
    requires WellFormed(s)
    ensures WellFormed(r)
    ensures SameClock(s, r)
  {
    Schedule(WakeParent(MakeZombie(s, s.cur, code), s.cur))
  }

  function Kill(s: State, pid: nat): (r: State)
    requires WellFormed(s)
    ensures WellFormed(r)
    ensures SameClock(s, r)
  {
    var p := ByPid(s.procs, pid);
    if pid == 0 || p == PROCESS_MAX || s.procs[p].state == Zombie then s
    else if p == s.cur then Exit(s, -1)
    else WakeParent(MakeZombie(Dequeue(s, p), p, -1), p)
  }

  /** Slot i is a child of the process in slot p, as process_wait sees it. */
  predicate IsChild(procs: seq<Pcb>, p: nat, i: nat)
    requires p < |procs| && i < |procs|
  {
    Live(procs[i]) && procs[i].ppid == procs[p].pid && i != p
  }

  /** The lowest zombie child of p at or above slot i, or |procs|. */
  function ZombieChildFrom(procs: seq<Pcb>, p: nat, i: nat): (r: nat)
    requires p < |procs| && i <= |procs|
    ensures i <= r <= |procs|
    ensures r < |procs| ==> IsChild(procs, p, r) && procs[r].state == Zombie
    ensures forall j :: i <= j < r ==> !(IsChild(procs, p, j) && procs[j].state == Zombie)
    decreases |procs| - i
  {
    if i == |procs| then i
    else if IsChild(procs, p, i) && procs[i].state == Zombie then i
    else ZombieChildFrom(procs, p, i + 1)
  }

  predicate HasChild(procs: seq<Pcb>, p: nat)
    requires p < |procs|
  {
    exists i :: 0 <= i < |procs| && IsChild(procs, p, i)
  }

  /** The current process takes the given PCB, about to give up the CPU. */
  function StopCurrent(s: State, pcb: Pcb): (r: State)
    requires WellFormed(s)
    ensures WellFormed(r)
    ensures SameClock(s, r)
  {
    s.(procs := s.procs[s.cur := pcb])
  }

  /** One pass of the loop in process_wait: collect a zombie child, give up, or block. */
  function Wait(s: State): (r: State)
    requires WellFormed(s)
    ensures WellFormed(r)
    ensures SameClock(s, r)
  {
    var z := ZombieChildFrom(s.procs, s.cur, 0);
    if z < PROCESS_MAX then Release(s, z)
    else if !HasChild(s.procs, s.cur) then s
    else Schedule(StopCurrent(s, s.procs[s.cur].(state := Blocked, parentWaiting := true)))
  }

  /** What a process does when schedule() returns to it inside process_wait. */
  function Resume(s: State): (r: State)
    requires WellFormed(s)
    ensures WellFormed(r)
    ensures SameClock(s, r)
  {
    s.(procs := s.procs[s.cur := s.procs[s.cur].(parentWaiting := false)])
  }

  /** 10 ms per tick, rounded up, in 32-bit arithmetic. */
  function SleepTicks(ms: nat): nat {
    ((ms + 9) % UINT32_SIZE) / 10
  }

  function Asleep(s: State, ms: nat): (p: Pcb)
    requires WellFormed(s)
  {
    s.procs[s.cur].(state := Sleeping, sleepUntil := s.now + SleepTicks(ms))
  }

  function Sleep(s: State, ms: nat): (r: State)
    requires WellFormed(s)
    ensures WellFormed(r)
    ensures SameClock(s, r)
  {
    if ms == 0 then Yield(s) else Schedule(StopCurrent(s, Asleep(s, ms)))
  }

  // ---------------------------------------------------------------------------
  // Steps and runs
  // ---------------------------------------------------------------------------

  datatype Action =
    | TickA
    | StartA
    | CreateA(priority: nat, valid: bool, user: bool)
    | ForkA(stacks: bool)
    | ExitA(code: int)
    | KillA(pid: nat)
    | WaitA
    | ResumeA
    | SleepA(ms: nat)
    | YieldA

  function Next(s: State, a: Action): (r: State)
    requires WellFormed(s)
    ensures WellFormed(r)
  {
    match a
    case TickA => Tick(s)
    case StartA => s.(started := true)
    case CreateA(priority, valid, user) => Create(s, priority, valid, user)
    case ForkA(stacks) => Fork(s, stacks)
    case ExitA(code) => Exit(s, code)
    case KillA(pid) => Kill(s, pid)
    case WaitA => Wait(s)
    case ResumeA => Resume(s)
    case SleepA(ms) => Sleep(s, ms)
    case YieldA => Yield(s)
  }

  /**
   Who may act: the timer and process_create always; everything else is a call made by a
   running process other than idle, whose loop only halts (kernel/kernel.c:181-183). The pid
   counter is assumed not to have wrapped to the idle pid.
   */
  predicate Enabled(s: State, a: Action) {
    match a
    case TickA => true
    case StartA => true
    case CreateA(_, _, _) => s.nextPid != 0
    case SleepA(ms) => s.started && s.cur != 0 && ms < UINT32_SIZE
    case _ => s.started && s.cur != 0
  }

  /** process_init: slot 0 is idle and running, every other slot is unused. */
  function Init(): (s: State)
    ensures WellFormed(s)
  {
    var idle := Pcb(0, 0, Running, PRIORITY_LOW, PRIORITY_LOW, SCHED_QUANTUM_TICKS, 0, 0, 0, false, false, false);
    var free := Pcb(0, 0, Unused, 0, 0, 0, 0, 0, 0, false, false, false);
    State(seq(PROCESS_MAX, i => if i == 0 then idle else free), [[], [], []], 0, 0, 1, false)
  }

  function Run(s: State, acts: seq<Action>): (r: State)
    requires WellFormed(s)
    ensures WellFormed(r)
    decreases |acts|
  {
    if acts == [] then s else Run(Next(s, acts[0]), acts[1..])
  }

  predicate Legal(s: State, acts: seq<Action>)
    requires WellFormed(s)
    decreases |acts|
  {
    acts == [] || (Enabled(s, acts[0]) && Legal(Next(s, acts[0]), acts[1..]))
  }
}
