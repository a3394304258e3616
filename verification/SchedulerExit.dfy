/**
 From exit to wait: the status a process exits with is kept in its zombie, whatever else the
 kernel does, until its living parent collects it.
 */
module SchedulerExit {
  import opened SchedulerModel
  import opened SchedulerInvariant
  import opened SchedulerFairness
  import opened SchedulerWakeup
  import opened SchedulerSleep

  /** The exiting process is a zombie with its status; not even an orphan is reaped while it is still current. */
  lemma ExitLeavesStatus(s: State, code: int)
    requires Inv(s) && s.cur != 0 && s.started
    ensures Exit(s, code).procs[s.cur] == s.procs[s.cur].(state := Zombie, exitCode := code, hasUserStack := false)
  {
    var z := MakeZombie(s, s.cur, code);
    ZombieCurrentInv(s, code);
    WakeParentInv(z, s.cur);
    var w := WakeParent(z, s.cur);
    ReapInv(w, 0);
    DispatchSettled(ReapFrom(w, 0), s.cur);
  }

  /** Killing leaves the status -1, in the process the pid leads to. */
  lemma KillLeavesStatus(s: State, p: nat)
    requires Inv(s) && s.cur != 0 && s.started && 0 < p < PROCESS_MAX && Alive(s.procs[p])
    requires ByPid(s.procs, s.procs[p].pid) == p
    ensures
      var z := Kill(s, s.procs[p].pid).procs[p];
      z.state == Zombie && z.exitCode == -1 && z.pid == s.procs[p].pid && z.ppid == s.procs[p].ppid
  {
    assert PcbInv(s.procs[p], p);
    if p == s.cur { ExitLeavesStatus(s, -1); }
  }

  /** Throughout the run q lives on as the parent of z and does not wait. */
  ghost predicate Unclaimed(s: State, acts: seq<Action>, z: nat, q: nat)
    requires WellFormed(s) && z < PROCESS_MAX
    decreases |acts|
  {
    && LivingParent(s, z, q)
    && (acts == [] || (!(acts[0].WaitA? && s.cur == q) && Unclaimed(Next(s, acts[0]), acts[1..], z, q)))
  }

  /** A zombie its parent has not claimed is left exactly as it is by every run. */
  lemma {:induction false} ZombieStays(s: State, acts: seq<Action>, z: nat, q: nat)
    requires Inv(s) && Legal(s, acts) && z < PROCESS_MAX && s.procs[z].state == Zombie && Unclaimed(s, acts, z, q)
    ensures Inv(Run(s, acts)) && Run(s, acts).procs[z] == s.procs[z] && LivingParent(Run(s, acts), z, q)
    decreases |acts|
  {
    if acts != [] {
      var t := Next(s, acts[0]);
      StepInv(s, acts[0]);
      assert LivingParent(t, z, q);
      StepSettled(s, acts[0], z, q);
      ZombieStays(t, acts[1..], z, q);
    }
  }

  /**
   A process exits with some status, anything else happens, and then its parent waits: if no
   lower slot holds another dead child, the slot waited for is that of the process, with that
   status, and it is free afterwards.
   */
  lemma StatusIsDelivered(s: State, code: int, acts: seq<Action>, q: nat)
    requires Inv(s) && s.cur != 0 && s.started && Legal(Exit(s, code), acts) && Unclaimed(Exit(s, code), acts, s.cur, q)
    requires Run(Exit(s, code), acts).cur == q
    ensures
      var t := Run(Exit(s, code), acts);
      var first := ZombieChildFrom(t.procs, q, 0);
      && first <= s.cur && t.procs[s.cur].exitCode == code && t.procs[s.cur].pid == s.procs[s.cur].pid
      && (first == s.cur <==> forall i :: 0 <= i < s.cur ==> !(IsChild(t.procs, q, i) && t.procs[i].state == Zombie))
      && (first == s.cur ==> Wait(t).procs[s.cur].state == Unused)
  {
    ExitLeavesStatus(s, code);
    ExitInv(s, code);
    ZombieStays(Exit(s, code), acts, s.cur, q);
    var t := Run(Exit(s, code), acts);
    assert IsChild(t.procs, q, s.cur);
  }
}
