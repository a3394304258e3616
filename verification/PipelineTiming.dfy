/**
 Exact timing of the pipeline: the simulator is in its closed form at every cycle, instruction
 i enters EX in a cycle that is known in advance, and the whole program takes one cycle per
 instruction, one per dependent neighbour, and five more.
 */
module PipelineTiming {
  import opened PipelineModel

  /** The program counter never wraps while it is inside the program. */
  predicate Addressable(program: seq<nat>) {
    0 < |program| && 4 * |program| < UINT32_SIZE
  }

  // ---------------------------------------------------------------------------
  // One cycle of the closed form
  // ---------------------------------------------------------------------------

  lemma IssueStep(deps: seq<bool>, t: int)
    ensures Issued(deps, t) <= Issued(deps, t + 1) <= Issued(deps, t) + 1
    ensures t >= 1 ==> (Issued(deps, t + 1) == Issued(deps, t)
                        <==> Issued(deps, t) == |deps| || HeldUp(deps, t))
  {
  }

  lemma StalledIff(program: seq<nat>, t: nat)
    requires Addressable(program)
    ensures Stalled(ClosedForm(program, t)) <==> HeldUp(Deps(program), t)
  {
    IssueStep(Deps(program), t - 1);
  }

  lemma FetchStep(program: seq<nat>, t: nat)
    requires Addressable(program)
    ensures
      var c := ClosedForm(program, t);
      && c.pc / 4 == Fetched(Deps(program), t) && c.pc + 4 < UINT32_SIZE + 4
      && Fetched(Deps(program), t + 1) ==
         (if !HeldUp(Deps(program), t) && Fetched(Deps(program), t) < |program| then Fetched(Deps(program), t) + 1
          else Fetched(Deps(program), t))
  {
    IssueStep(Deps(program), t);
  }

  /** What ID holds one cycle later. */
  lemma DecodeStep(program: seq<nat>, t: nat)
    requires Addressable(program)
    ensures
      var c, d := ClosedForm(program, t), ClosedForm(program, t + 1);
      && (HeldUp(Deps(program), t) ==> d.id == c.id && d.ex == Empty)
      && (!HeldUp(Deps(program), t) ==> d.ex == c.id)
      && (!HeldUp(Deps(program), t) && Fetched(Deps(program), t) < |program| ==>
          d.id == Holds(Instr(program, Fetched(Deps(program), t))))
      && (!HeldUp(Deps(program), t) && Fetched(Deps(program), t) == |program| ==> d.id == Empty)
  {
    IssueStep(Deps(program), t);
    IssueStep(Deps(program), t - 1);
  }

  /** The instruction in WB is the next one in program order. */
  lemma RetireStep(program: seq<nat>, t: nat)
    requires Addressable(program)
    ensures
      var c, d := ClosedForm(program, t), ClosedForm(program, t + 1);
      && (c.wb.Holds? ==>
            c.retired < |program| && c.wb.instr == Instr(program, c.retired) && d.retired == c.retired + 1)
      && (c.wb.Empty? ==> d.retired == c.retired)
  {
    IssueStep(Deps(program), t - 3);
  }

  lemma {:induction false} IssuedMonotone(deps: seq<bool>, t: int, u: int)
    requires t <= u
    ensures Issued(deps, t) <= Issued(deps, u)
    decreases u - t
  {
    if t < u {
      IssueStep(deps, u - 1);
      IssuedMonotone(deps, t, u - 1);
    }
  }

  lemma DrainStep(program: seq<nat>, t: nat)
    requires Addressable(program)
    ensures
      var c := ClosedForm(program, t);
      (Fetched(Deps(program), t) == |program| && Drained(c)) <==> Issued(Deps(program), t - 3) == |program|
  {
    IssuedMonotone(Deps(program), t - 3, t - 2);
    IssuedMonotone(Deps(program), t - 2, t - 1);
    IssuedMonotone(Deps(program), t - 1, t);
  }

  lemma NextPcIs(f: nat, g: nat, m: nat)
    requires f < m && 4 * m < UINT32_SIZE && g == f + 1
    ensures NextPc(WordAddress(f)) == WordAddress(g)
  {
  }

  /** The program counter after one simulated cycle. */
  lemma PcOfCycle(program: seq<nat>, t: nat)
    requires Addressable(program) && ClosedForm(program, t).running
    ensures Cycle(ClosedForm(program, t), program).pc == ClosedForm(program, t + 1).pc
  {
    StalledIff(program, t);
    FetchStep(program, t);
    var f := Fetched(Deps(program), t);
    if f < |program| { NextPcIs(f, f + 1, |program|); }
  }

  /** ID and EX after one simulated cycle. */
  lemma FrontOfCycle(program: seq<nat>, t: nat)
    requires Addressable(program) && ClosedForm(program, t).running
    ensures
      var r, d := Cycle(ClosedForm(program, t), program), ClosedForm(program, t + 1);
      r.id == d.id && r.ex == d.ex
  {
    StalledIff(program, t);
    FetchStep(program, t);
    DecodeStep(program, t);
  }

  /** MEM, WB and the register file after one simulated cycle. */
  lemma BackOfCycle(program: seq<nat>, t: nat)
    requires Addressable(program) && ClosedForm(program, t).running
    ensures
      var r, d := Cycle(ClosedForm(program, t), program), ClosedForm(program, t + 1);
      r.mem == d.mem && r.wb == d.wb && r.registers == d.registers && r.retired == d.retired
  {
    RetireStep(program, t);
  }

  /** The counters and the running flag after one simulated cycle. */
  lemma CountersOfCycle(program: seq<nat>, t: nat)
    requires Addressable(program) && ClosedForm(program, t).running
    ensures
      var r, d := Cycle(ClosedForm(program, t), program), ClosedForm(program, t + 1);
      r.cycles == d.cycles && r.stalls == d.stalls && r.running == d.running
  {
    StalledIff(program, t);
    FetchStep(program, t);
    DrainStep(program, t);
  }

  /** While the CPU runs, simulating one cycle advances the closed form by one. */
  lemma CycleClosedForm(program: seq<nat>, t: nat)
    requires Addressable(program) && ClosedForm(program, t).running
    ensures Cycle(ClosedForm(program, t), program) == ClosedForm(program, t + 1)
  {
    PcOfCycle(program, t);
    FrontOfCycle(program, t);
    BackOfCycle(program, t);
    CountersOfCycle(program, t);
  }

  lemma CycleTo(program: seq<nat>, t: nat, u: nat)
    requires Addressable(program) && ClosedForm(program, t).running && u == t + 1
    ensures Cycle(ClosedForm(program, t), program) == ClosedForm(program, u)
  {
    CycleClosedForm(program, t);
  }

  // ---------------------------------------------------------------------------
  // When each instruction moves
  // ---------------------------------------------------------------------------

  /** How many of the first n instructions depend on their predecessor; the first one has none. */
  function Dependencies(deps: seq<bool>, n: nat): (d: nat)
    requires n <= |deps|
    ensures d <= n && (n > 0 ==> d < n)
  {
    if n <= 1 then 0 else Dependencies(deps, n - 1) + if deps[n - 1] then 1 else 0
  }

  /** The cycle in which instruction i enters EX. */
  function EntersEx(deps: seq<bool>, i: nat): nat
    requires i < |deps|
  {
    2 + i + Dependencies(deps, i + 1)
  }

  lemma {:induction false} IssueTime(deps: seq<bool>, i: nat)
    requires i < |deps|
    ensures Issued(deps, EntersEx(deps, i)) == i + 1 && Issued(deps, EntersEx(deps, i) - 1) == i
  {
    if i > 0 {
      IssueTime(deps, i - 1);
      NextIssue(deps, i, EntersEx(deps, i - 1));
    }
  }

  /**
   One instruction enters EX in cycle u; the next one follows in the cycle after, or one later if
   it depends on it.
   */
  lemma NextIssue(deps: seq<bool>, i: nat, u: int)
    requires 0 < i < |deps| && u >= 1 && Issued(deps, u) == i && Issued(deps, u - 1) == i - 1
    ensures
      var x := u + 1 + if deps[i] then 1 else 0;
      Issued(deps, x) == i + 1 && Issued(deps, x - 1) == i
  {
    IssueStep(deps, u);
    if deps[i] {
      assert HeldUp(deps, u);
      IssueStep(deps, u + 1);
    }
  }

  /** Every cycle after the first, as long as instructions remain, either issues one or stalls. */
  lemma {:induction false} IssueOrStall(deps: seq<bool>, t: nat)
    requires t >= 1 && Issued(deps, t - 1) < |deps|
    ensures Issued(deps, t) + StallsBy(deps, t) == t - 1
    decreases t
  {
    if t > 1 {
      IssueStep(deps, t - 2);
      IssueOrStall(deps, t - 1);
      IssueStep(deps, t - 1);
    }
  }

  lemma {:induction false} NoStallAfterLast(deps: seq<bool>, t: int, u: int)
    requires t <= u && Issued(deps, t) == |deps|
    ensures StallsBy(deps, u) == StallsBy(deps, t)
    decreases u - t
  {
    if t < u {
      IssuedMonotone(deps, t, u - 1);
      NoStallAfterLast(deps, t, u - 1);
    }
  }

  /** An instruction waits in ID for at most one extra cycle. */
  lemma StallsOnce(deps: seq<bool>, t: nat)
    requires HeldUp(deps, t)
    ensures !HeldUp(deps, t + 1)
  {
    IssueStep(deps, t);
  }

  /** Cycles until the first n instructions have retired. */
  function RetireTime(deps: seq<bool>, n: nat): nat
    requires 0 < n <= |deps|
  {
    EntersEx(deps, n - 1) + 3
  }

  lemma RetireTimeIs(deps: seq<bool>, n: nat)
    requires 0 < n <= |deps|
    ensures RetireTime(deps, n) == n + Dependencies(deps, n) + 4 <= 2 * n + 3
    ensures Issued(deps, RetireTime(deps, n) - 3) == n && Issued(deps, RetireTime(deps, n) - 4) == n - 1
  {
    IssueTime(deps, n - 1);
  }

  /** The simulator is in its closed form until one cycle after the last instruction has retired. */
  lemma {:induction false} SimulationIsClosedForm(program: seq<nat>, t: nat)
    requires Addressable(program) && t <= RetireTime(Deps(program), |program|) + 1
    ensures Cycles(Reset(), program, t) == ClosedForm(program, t)
  {
    if t == 0 {
      ResetIsClosedForm(program);
    } else {
      SimulationIsClosedForm(program, t - 1);
      SimulateOneMore(program, t - 1, t);
    }
  }

  lemma SimulateOneMore(program: seq<nat>, t: nat, u: nat)
    requires Addressable(program) && t <= RetireTime(Deps(program), |program|) && u == t + 1
    requires Cycles(Reset(), program, t) == ClosedForm(program, t)
    ensures Cycles(Reset(), program, u) == ClosedForm(program, u)
  {
    StillRunning(program, t);
    CycleTo(program, t, u);
  }

  lemma ResetIsClosedForm(program: seq<nat>)
    requires Addressable(program)
    ensures Reset() == ClosedForm(program, 0)
  {
    assert InOrder(program, 0) == Reset().registers;
  }

  /** By cycle t at least n instructions have been issued exactly when t has reached the n-th issue. */
  lemma IssuedIff(deps: seq<bool>, t: int, n: nat)
    requires 0 < n <= |deps|
    ensures Issued(deps, t) >= n <==> t >= EntersEx(deps, n - 1)
  {
    var x := EntersEx(deps, n - 1);
    IssueTime(deps, n - 1);
    if t >= x { IssuedMonotone(deps, x, t); } else { IssuedMonotone(deps, t, x - 1); }
  }

  lemma StillRunning(program: seq<nat>, t: nat)
    requires Addressable(program)
    ensures ClosedForm(program, t).running <==> t <= RetireTime(Deps(program), |program|)
  {
    IssuedIff(Deps(program), t - 4, |program|);
  }

  /** Instruction number n has retired exactly from cycle RetireTime(n) on. */
  lemma RetiredIff(program: seq<nat>, u: nat, n: nat)
    requires 0 < n <= |program|
    ensures ClosedForm(program, u).retired >= n <==> u >= RetireTime(Deps(program), n)
  {
    IssuedIff(Deps(program), u - 3, n);
  }

  /** The CPU is still running before cycle n of a run from reset. */
  ghost predicate RunsFor(program: seq<nat>, n: nat) {
    forall t: nat :: t < n ==> Cycles(Reset(), program, t).running
  }

  /** The CPU has stopped in cycle n with everything done, in order. */
  ghost predicate AtEnd(program: seq<nat>, c: Cpu, n: nat) {
    && !c.running && c.cycles == n && c.retired == |program|
    && c.stalls == Dependencies(Deps(program), |program|)
    && c.registers == InOrder(program, |program|)
  }

  /** The cycles a program takes; the empty one is noticed in the first. */
  function RunLength(program: seq<nat>): (n: nat) {
    if program == [] then 1 else |program| + Dependencies(Deps(program), |program|) + 5
  }

  /**
   Exact timing: from reset, a program of M > 0 words runs for M + D + 5 cycles, D being the
   number of instructions that depend on their predecessor, and no longer; the empty program
   runs for one. All M instructions have retired by then, in order, and exactly D cycles were
   stalls.
   */
  lemma ProgramTiming(program: seq<nat>, n: nat)
    requires 4 * |program| < UINT32_SIZE && n == RunLength(program)
    ensures RunsFor(program, n) && AtEnd(program, Cycles(Reset(), program, n), n)
  {
    if program == [] {
      EmptyProgram(program, n);
    } else {
      EndCycle(program, n);
      RunsBefore(program, n);
      EndOfRun(program, n);
    }
  }

  lemma EmptyProgram(program: seq<nat>, n: nat)
    requires program == [] && n == 1
    ensures RunsFor(program, n) && AtEnd(program, Cycles(Reset(), program, n), n)
  {
    assert Cycles(Reset(), program, n) == Cycle(Cycles(Reset(), program, n - 1), program);
    assert forall t: nat :: t < n ==> Cycles(Reset(), program, t) == Reset();
  }

  lemma EndCycle(program: seq<nat>, n: nat)
    requires Addressable(program) && n == |program| + Dependencies(Deps(program), |program|) + 5
    ensures n == RetireTime(Deps(program), |program|) + 1
  {
    RetireTimeIs(Deps(program), |program|);
  }

  lemma EndOfRun(program: seq<nat>, n: nat)
    requires Addressable(program) && n == RetireTime(Deps(program), |program|) + 1
    ensures AtEnd(program, Cycles(Reset(), program, n), n)
  {
    SimulationIsClosedForm(program, n);
    EndState(program, n);
  }

  lemma RunsBefore(program: seq<nat>, n: nat)
    requires Addressable(program) && n == RetireTime(Deps(program), |program|) + 1
    ensures RunsFor(program, n)
  {
    forall t: nat | t < n ensures Cycles(Reset(), program, t).running { RunsUntil(program, t); }
  }

  lemma EndState(program: seq<nat>, n: nat)
    requires Addressable(program) && n == RetireTime(Deps(program), |program|) + 1
    ensures AtEnd(program, ClosedForm(program, n), n)
  {
    AllRetired(program, n);
    StallsAtEnd(program, n);
    RegistersOfRetired(program, n, |program|);
  }

  lemma AllRetired(program: seq<nat>, n: nat)
    requires Addressable(program) && n == RetireTime(Deps(program), |program|) + 1
    ensures !ClosedForm(program, n).running && ClosedForm(program, n).retired == |program|
  {
    StillRunning(program, n);
    RetiredIff(program, n, |program|);
  }

  lemma StallsAtEnd(program: seq<nat>, n: nat)
    requires Addressable(program) && n == RetireTime(Deps(program), |program|) + 1
    ensures ClosedForm(program, n).stalls == Dependencies(Deps(program), |program|)
  {
    StallsField(program, n);
    TotalStalls(Deps(program), n);
  }

  lemma StallsField(program: seq<nat>, t: nat)
    ensures ClosedForm(program, t).stalls == StallsBy(Deps(program), t)
  {
  }

  lemma RegistersOfRetired(program: seq<nat>, t: nat, k: nat)
    requires k <= |program| && ClosedForm(program, t).retired == k
    ensures ClosedForm(program, t).registers == InOrder(program, k)
  {
  }

  lemma RunsUntil(program: seq<nat>, t: nat)
    requires Addressable(program) && t <= RetireTime(Deps(program), |program|)
    ensures Cycles(Reset(), program, t).running
  {
    SimulationIsClosedForm(program, t);
    StillRunning(program, t);
  }

  lemma TotalStalls(deps: seq<bool>, n: nat)
    requires deps != [] && n == RetireTime(deps, |deps|) + 1
    ensures StallsBy(deps, n) == Dependencies(deps, |deps|)
  {
    RetireTimeIs(deps, |deps|);
    IssueOrStall(deps, n - 4);
    NoStallAfterLast(deps, n - 4, n);
  }

  /** At every cycle the register file is that of the retired prefix executed in order, and register 0 is zero. */
  lemma RegistersFollowProgramOrder(program: seq<nat>, t: nat)
    requires Addressable(program) && t <= RetireTime(Deps(program), |program|) + 1
    ensures
      var c := Cycles(Reset(), program, t);
      c.retired <= |program| && c.registers == InOrder(program, c.retired) && c.registers[0] == 0
  {
    SimulationIsClosedForm(program, t);
  }

  /** A program that fills the address space is fetched forever: the counter wraps before it leaves the program. */
  lemma {:induction false} OversizedProgramNeverStops(program: seq<nat>, t: nat)
    requires 4 * |program| >= UINT32_SIZE
    ensures Cycles(Reset(), program, t).running && Cycles(Reset(), program, t).pc < UINT32_SIZE
  {
    if t > 0 { OversizedProgramNeverStops(program, t - 1); }
  }
}
