/**
 The pipeline as the kernel has it: a CPU record whose stage array, register file and counters
 pipeline_cycle and pipeline_execute update in place, proved against the closed form.
 */
module PipelineMachine {
  import opened PipelineModel
  import opened PipelineTiming

  const STAGE_ID: nat := 1
  const STAGE_EX: nat := 2
  const STAGE_MEM: nat := 3
  const STAGE_WB: nat := 4
  const STAGE_COUNT: nat := 5

  class PipelineCPU {
    const stages: array<Latch>
    const registers: array<nat>
    var pc: nat
    var cycleCount: nat
    var instructionCount: nat
    var stallCount: nat
    var running: bool

    ghost predicate Shape()
      reads this
    {
      stages.Length == STAGE_COUNT && registers.Length == REGISTERS
    }

    ghost function Abs(): Cpu
      requires Shape()
      reads this, stages, registers
    {
      Cpu(stages[STAGE_ID], stages[STAGE_EX], stages[STAGE_MEM], stages[STAGE_WB], pc, registers[..],
          cycleCount, instructionCount, stallCount, running)
    }

    ghost predicate Valid()
      reads this, stages, registers
    {
      Shape() && WellFormed(Abs())
    }

    /** pipeline_init. */
    constructor ()
      ensures Valid() && Abs() == Reset()
      ensures fresh(stages) && fresh(registers)
    {
      stages := new Latch[STAGE_COUNT](_ => Empty);
      registers := new nat[REGISTERS](_ => 0);
      pc, cycleCount, instructionCount, stallCount, running := 0, 0, 0, 0, true;
      new;
      assert registers[..] == Reset().registers;
    }

    /** pipeline_detect_hazard. */
    method DetectHazard() returns (stall: bool)
      requires Valid()
      ensures stall == Stalled(Abs())
    {
      stall := false;
      if stages[STAGE_ID].Holds? && stages[STAGE_EX].Holds? {
        var id, ex := stages[STAGE_ID].instr, stages[STAGE_EX].instr;
        if ex.rd != 0 && ex.opcode != STORE && (id.rs1 == ex.rd || id.rs2 == ex.rd) { stall := true; }
      }
    }

    method Retire()
      requires Valid()
      modifies this`instructionCount, registers
      ensures Valid()
      ensures stages[STAGE_WB].Holds? ==>
                registers[..] == WriteBack(old(registers[..]), stages[STAGE_WB].instr)
                    && instructionCount == old(instructionCount) + 1
      ensures stages[STAGE_WB].Empty? ==>
          registers[..] == old(registers[..]) && instructionCount == old(instructionCount)
    {
      if stages[STAGE_WB].Holds? {
        var instr := stages[STAGE_WB].instr;
        if instr.rd != 0 && instr.opcode != STORE { registers[instr.rd] := instr.immediate; }
        instructionCount := instructionCount + 1;
      }
    }

    /** MEM moves to WB, EX to MEM, and ID to EX unless it stalls. */
    method MoveLatches(stall: bool) returns (next: array<Latch>)
      requires Valid() && stall == Stalled(Abs())
      modifies this`stallCount
      ensures fresh(next) && next.Length == STAGE_COUNT
      ensures next[STAGE_WB] == stages[STAGE_MEM] && next[STAGE_MEM] == stages[STAGE_EX]
      ensures next[STAGE_EX] == (if stall then Empty else stages[STAGE_ID])
      ensures next[STAGE_ID] == (if stall then stages[STAGE_ID] else Empty)
      ensures stallCount == old(stallCount) + if stall then 1 else 0
    {
      next := new Latch[STAGE_COUNT](_ => Empty);
      if stages[STAGE_MEM].Holds? { next[STAGE_WB] := stages[STAGE_MEM]; }
      if stages[STAGE_EX].Holds? { next[STAGE_MEM] := stages[STAGE_EX]; }
      if stages[STAGE_ID].Holds? {
        if !stall {
          next[STAGE_EX] := stages[STAGE_ID];
        } else {
          next[STAGE_ID] := stages[STAGE_ID];
          stallCount := stallCount + 1;
        }
      }
    }

    method CopyStages(next: array<Latch>)
      requires Shape() && next != stages && next.Length == STAGE_COUNT
      modifies stages
      ensures stages[..] == next[..]
    {
      for i := 0 to STAGE_COUNT
        invariant forall k :: 0 <= k < i ==> stages[k] == next[k]
      {
        stages[i] := next[i];
      }
    }

    /** The fetch of pipeline_cycle, and its test for the end of the program. */
    method Fetch(memory: array<nat>, next: array<Latch>, stall: bool)
      requires Valid() && running && next != stages && next.Length == STAGE_COUNT
      modifies this`pc, this`running, next
      ensures
        var fetched := !stall && old(pc) / 4 < memory.Length;
        && next[..] == old(next[..])[STAGE_ID := if fetched then Holds(Decode(memory[old(pc) / 4], old(pc)))
            else old(next[STAGE_ID])]
        && pc == if fetched then NextPc(old(pc)) else old(pc)
      ensures running == !(old(pc) / 4 >= memory.Length && Drained(old(Abs())))
    {
      if !stall && pc / 4 < memory.Length {
        next[STAGE_ID] := Holds(Decode(memory[pc / 4], pc));
        pc := NextPc(pc);
      } else if pc / 4 >= memory.Length {
        if stages[STAGE_ID].Empty? && stages[STAGE_EX].Empty? && stages[STAGE_MEM].Empty? && stages[STAGE_WB].Empty? {
          running := false;
        }
      }
    }

    /** pipeline_cycle: the next stages are assembled in a second array and copied over at the end. */
    method Cycle(memory: array<nat>)
      requires Valid() && memory != registers
      modifies this, stages, registers
      ensures Valid() && Abs() == PipelineModel.Cycle(old(Abs()), memory[..])
    {
      if running { RunCycle(memory); }
    }

    method RunCycle(memory: array<nat>)
      requires Valid() && memory != registers && running
      modifies this, stages, registers
      ensures Valid() && Abs() == PipelineModel.Cycle(old(Abs()), memory[..])
    {
      var stall := DetectHazard();
      Retire();
      var next := MoveLatches(stall);
      Fetch(memory, next, stall);
      CopyStages(next);
      cycleCount := cycleCount + 1;
    }

    /** One cycle of a running CPU, in terms of the closed form. */
    method Step(memory: array<nat>, ghost t: nat, ghost u: nat)
      requires Valid() && memory != registers && Addressable(memory[..]) && running
      requires Abs() == ClosedForm(memory[..], t)
      requires u == t + 1
      modifies this, stages, registers
      ensures Valid() && Abs() == ClosedForm(memory[..], u) && cycleCount == u
    {
      CycleTo(memory[..], t, u);
      Cycle(memory);
    }

    /**
     pipeline_execute, from a state the program reaches after t cycles. With target the number
     of instructions that should have retired at the end, it stops in the very cycle in which
     the last of them retires, or one cycle after the last instruction of the program; the
     safety break after 10 * target cycles never fires.
     */
    method Execute(memory: array<nat>, num: nat, ghost t: nat) returns (ghost u: nat)
      requires Valid() && memory != registers && Addressable(memory[..])
      requires Abs() == ClosedForm(memory[..], t)
      modifies this, stages, registers
      ensures Valid() && Abs() == ClosedForm(memory[..], u)
      ensures !old(running) || num == 0 ==> Abs() == old(Abs())
      ensures old(running) && 0 < num ==> Finished(memory[..], Abs(), old(instructionCount) + num)
    {
      var target := instructionCount + num;
      ghost var before;
      u, before := RunUntil(memory, target, t);
      if u > t { FinishedTime(memory[..], Abs(), before, u, target); }
    }

    /** The body of the loop of pipeline_execute: the safety check never asks to stop. */
    method Turn(memory: array<nat>, target: nat, ghost t: nat, ghost u: nat) returns (stop: bool)
      requires Valid() && memory != registers && Addressable(memory[..]) && Abs() == ClosedForm(memory[..], t)
      requires running && instructionCount < target && u == t + 1
      modifies this, stages, registers
      ensures Valid() && Abs() == ClosedForm(memory[..], u) && !stop && InTime(Deps(memory[..]), t, target)
    {
      UnfinishedTime(memory[..], t, target);
      Step(memory, t, u);
      stop := cycleCount > target * 10;
    }

    /** The loop of pipeline_execute: it ends one cycle after the last state in which it had to go on. */
    method RunUntil(memory: array<nat>, target: nat, ghost t: nat) returns (ghost u: nat, ghost before: nat)
      requires Valid() && memory != registers && Addressable(memory[..])
      requires Abs() == ClosedForm(memory[..], t)
      modifies this, stages, registers
      ensures Valid() && Abs() == ClosedForm(memory[..], u) && !(running && instructionCount < target)
      ensures if old(running) && old(instructionCount) < target
              then u > t && u == before + 1 && InTime(Deps(memory[..]), before, target) else u == t
    {
      ghost var deps := Deps(memory[..]);
      u, before := t, t;
      while running && instructionCount < target
        invariant Valid() && Deps(memory[..]) == deps && memory[..] == old(memory[..])
        invariant Abs() == ClosedForm(memory[..], u)
        invariant if old(running) && old(instructionCount) < target
                  then u == t || (u > t && u == before + 1 && InTime(deps, before, target)) else u == t
        decreases RetireTime(deps, |deps|) + 1 - u
      {
        before, u := u, u + 1;
        var stop := Turn(memory, target, before, u);
        if stop { break; }
      }
    }
  }

  /** After t cycles neither the target nor the end of the program has been reached. */
  ghost predicate InTime(deps: seq<bool>, t: nat, target: nat)
    requires deps != []
  {
    0 < target && t <= RetireTime(deps, |deps|) && (target <= |deps| ==> t < RetireTime(deps, target))
  }

  lemma UnfinishedTime(program: seq<nat>, u: nat, target: nat)
    requires Addressable(program) && ClosedForm(program, u).running && ClosedForm(program, u).retired < target
    ensures InTime(Deps(program), u, target) && u + 1 <= target * 10
  {
    StillRunning(program, u);
    if target <= |program| {
      RetiredIff(program, u, target);
      RetireTimeIs(Deps(program), target);
    } else {
      RetireTimeIs(Deps(program), |program|);
    }
  }

  /** The target was reached in the cycle of its retirement, or the program ended in the cycle after its last one. */
  ghost predicate Finished(program: seq<nat>, c: Cpu, target: nat)
    requires program != [] && target > 0
  {
    if target <= |program| then c.retired == target && c.cycles == RetireTime(Deps(program), target)
    else c.retired == |program| && !c.running && c.cycles == RetireTime(Deps(program), |program|) + 1
  }

  lemma FinishedTime(program: seq<nat>, c: Cpu, t: nat, u: nat, target: nat)
    requires Addressable(program) && u == t + 1 && InTime(Deps(program), t, target)
    requires c == ClosedForm(program, u) && !(c.running && c.retired < target)
    ensures Finished(program, c, target)
  {
    StillRunning(program, u);
    RetiredIff(program, u, |program|);
    if target <= |program| {
      TargetTime(Deps(program), u, target);
      RetiredIff(program, u, target);
    }
  }

  /** At the n-th retirement exactly n instructions have retired, no later than the last one. */
  lemma TargetTime(deps: seq<bool>, u: nat, target: nat)
    requires 0 < target <= |deps|
    ensures RetireTime(deps, target) <= RetireTime(deps, |deps|)
    ensures u == RetireTime(deps, target) ==> RetiredBy(deps, u) == target
  {
    RetireTimeIs(deps, target);
    RetireTimeIs(deps, |deps|);
    IssuedIff(deps, RetireTime(deps, |deps|) - 3, target);
  }
}
