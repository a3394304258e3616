/**
 The five-stage pipeline simulator of kernel/cpu/pipeline.c. The IF stage of the source never
 holds an instruction, so four latches remain. Cycle is one clock cycle; ClosedForm gives the
 whole CPU after t cycles without simulating, from the issue schedule alone.
 */
module PipelineModel {

  const STORE: nat := 0x23
  const REGISTERS: nat := 32
  const UINT32_SIZE: nat := 0x1_0000_0000

  datatype Instruction = Instruction(opcode: nat, rd: nat, rs1: nat, rs2: nat, immediate: nat, pc: nat)

  datatype Latch = Empty | Holds(instr: Instruction)

  datatype Cpu = Cpu(id: Latch, ex: Latch, mem: Latch, wb: Latch, pc: nat, registers: seq<nat>,
                     cycles: nat, retired: nat, stalls: nat, running: bool)

  predicate WellFormed(c: Cpu) {
    && |c.registers| == REGISTERS
    && (c.wb.Holds? ==> c.wb.instr.rd < REGISTERS)
    && (c.mem.Holds? ==> c.mem.instr.rd < REGISTERS)
    && (c.ex.Holds? ==> c.ex.instr.rd < REGISTERS)
    && (c.id.Holds? ==> c.id.instr.rd < REGISTERS)
  }

  /** The fields of an instruction word. */
  function Decode(raw: nat, pc: nat): (i: Instruction)
    ensures i.rd < REGISTERS && i.rs1 < REGISTERS && i.rs2 < REGISTERS && i.opcode < 0x80
  {
    Instruction(raw % 0x80, (raw / 0x80) % 0x20, (raw / 0x8000) % 0x20, (raw / 0x10_0000) % 0x20, raw / 0x10_0000, pc)
  }

  /** The instruction in ID reads what the one in EX has yet to write. */
  predicate Hazard(ex: Instruction, id: Instruction) {
    ex.rd != 0 && ex.opcode != STORE && (id.rs1 == ex.rd || id.rs2 == ex.rd)
  }

  predicate Stalled(c: Cpu) {
    c.id.Holds? && c.ex.Holds? && Hazard(c.ex.instr, c.id.instr)
  }

  /** Write-back: the immediate stands in for the result; register 0 and stores write nothing. */
  function WriteBack(registers: seq<nat>, i: Instruction): (r: seq<nat>)
    requires |registers| == REGISTERS && i.rd < REGISTERS
    ensures |r| == REGISTERS
  {
    if i.rd != 0 && i.opcode != STORE then registers[i.rd := i.immediate] else registers
  }

  predicate Drained(c: Cpu) {
    c.id.Empty? && c.ex.Empty? && c.mem.Empty? && c.wb.Empty?
  }

  /** The 32-bit program counter moves on by one word. */
  function NextPc(pc: nat): nat {
    (pc + 4) % UINT32_SIZE
  }

  function Cycle(c: Cpu, program: seq<nat>): (r: Cpu)
    requires WellFormed(c)
    ensures WellFormed(r)
  {
    if !c.running then c else
      var stall := Stalled(c);
      var fetch := !stall && c.pc / 4 < |program|;
      Cpu(if stall then c.id else if fetch then Holds(Decode(program[c.pc / 4], c.pc)) else Empty,
          if stall then Empty else c.id,
          c.ex,
          c.mem,
          if fetch then NextPc(c.pc) else c.pc,
          if c.wb.Holds? then WriteBack(c.registers, c.wb.instr) else c.registers,
          c.cycles + 1,
          c.retired + if c.wb.Holds? then 1 else 0,
          c.stalls + if stall then 1 else 0,
          !(c.pc / 4 >= |program| && Drained(c)))
  }

  function Reset(): (c: Cpu)
    ensures WellFormed(c)
  {
    Cpu(Empty, Empty, Empty, Empty, 0, seq(REGISTERS, _ => 0), 0, 0, 0, true)
  }

  function Cycles(c: Cpu, program: seq<nat>, t: nat): (r: Cpu)
    requires WellFormed(c)
    ensures WellFormed(r)
  {
    if t == 0 then c else Cycle(Cycles(c, program, t - 1), program)
  }

  // ---------------------------------------------------------------------------
  // The issue schedule
  // ---------------------------------------------------------------------------

  function Instr(program: seq<nat>, i: nat): (r: Instruction)
    requires i < |program|
    ensures r.rd < REGISTERS
  {
    Decode(program[i], WordAddress(i))
  }

  /** Instruction i cannot follow instruction i - 1 into EX without a bubble. */
  predicate Depends(program: seq<nat>, i: nat) {
    0 < i < |program| && Hazard(Instr(program, i - 1), Instr(program, i))
  }

  /** Which instructions depend on their predecessor: all the schedule needs to know of a program. */
  function Deps(program: seq<nat>): (d: seq<bool>)
    ensures |d| == |program|
  {
    seq(|program|, i requires 0 <= i < |program| => Depends(program, i))
  }

  /** How many instructions have moved from ID to EX after t cycles. */
  function Issued(deps: seq<bool>, t: int): (n: nat)
    ensures n <= |deps|
    decreases t, 0
  {
    if t <= 1 then 0 else
      var e := Issued(deps, t - 1);
      if e == |deps| || HeldUp(deps, t - 1) then e else e + 1
  }

  /** After t cycles the instruction in ID waits for the one in EX. */
  predicate HeldUp(deps: seq<bool>, t: int)
    decreases t, 1
  {
    var e := Issued(deps, t);
    t >= 1 && e > Issued(deps, t - 1) && e < |deps| && deps[e]
  }

  /** How many cycles up to t were stalls. */
  function StallsBy(deps: seq<bool>, t: int): nat
    decreases t
  {
    if t <= 1 then 0 else StallsBy(deps, t - 1) + if HeldUp(deps, t - 1) then 1 else 0
  }

  /** The register file after the first n instructions, executed in order one at a time. */
  function InOrder(program: seq<nat>, n: nat): (r: seq<nat>)
    requires n <= |program|
    ensures |r| == REGISTERS && r[0] == 0
  {
    if n == 0 then seq(REGISTERS, _ => 0) else WriteBack(InOrder(program, n - 1), Instr(program, n - 1))
  }

  /** The instruction that issued in cycle t, if any. */
  function IssuedIn(program: seq<nat>, t: int): (l: Latch)
    ensures l.Holds? ==> l.instr.rd < REGISTERS
  {
    var e := Issued(Deps(program), t);
    if e > Issued(Deps(program), t - 1) then Holds(Instr(program, e - 1)) else Empty
  }

  function Fetched(deps: seq<bool>, t: int): nat {
    if t <= 0 then 0 else if Issued(deps, t) < |deps| then Issued(deps, t) + 1 else |deps|
  }

  function Waiting(program: seq<nat>, t: nat): (l: Latch)
    ensures l.Holds? ==> l.instr.rd < REGISTERS
  {
    var e := Issued(Deps(program), t);
    if t >= 1 && e < |program| then Holds(Instr(program, e)) else Empty
  }

  function WordAddress(i: nat): nat {
    4 * i
  }

  /** An instruction retires three cycles after it entered EX. */
  function RetiredBy(deps: seq<bool>, t: nat): (n: nat)
    ensures n <= |deps|
  {
    Issued(deps, t - 3)
  }

  /** The CPU after t cycles. */
  function ClosedForm(program: seq<nat>, t: nat): (c: Cpu)
    ensures WellFormed(c)
  {
    var d := Deps(program);
    Cpu(Waiting(program, t), IssuedIn(program, t), IssuedIn(program, t - 1), IssuedIn(program, t - 2),
        WordAddress(Fetched(d, t)), InOrder(program, RetiredBy(d, t)),
        t, RetiredBy(d, t), StallsBy(d, t), Issued(d, t - 4) < |program|)
  }
}
