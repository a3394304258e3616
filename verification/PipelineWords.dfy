/**
 The pipeline seen from the fields of its instruction words: an encoder written apart from the
 decoder, which words make their successor wait, when each word is in which stage, and what
 the registers hold in the end. Nothing here is stated through the decoder, the hazard test
 or the write-back of the simulator.
 */
module PipelineWords {
  import Arithmetic
  import opened PipelineModel
  import opened PipelineTiming

  /** A word as its five fields; bits 12 to 14 are not looked at. */
  datatype Word = Word(op: nat, rd: nat, f3: nat, rs1: nat, imm: nat)

  predicate Legal(w: Word) {
    w.op < 0x80 && w.rd < 0x20 && w.f3 < 8 && w.rs1 < 0x20 && w.imm < 0x1000
  }

  function Encode(w: Word): (raw: nat) {
    w.op + 0x80 * w.rd + 0x1000 * w.f3 + 0x8000 * w.rs1 + 0x10_0000 * w.imm
  }

  /** Decoding undoes encoding; the second source is the low five bits of the immediate. */
  lemma DecodeEncode(w: Word, pc: nat)
    requires Legal(w)
    ensures Encode(w) < UINT32_SIZE
    ensures Decode(Encode(w), pc) == Instruction(w.op, w.rd, w.rs1, w.imm % 0x20, w.imm, pc)
  {
    var raw := Encode(w);
    var upper := w.rd + 0x20 * (w.f3 + 8 * (w.rs1 + 0x20 * w.imm));
    Arithmetic.DivModUnique(raw, 0x80, upper, w.op);
    Arithmetic.DivModUnique(upper, 0x20, w.f3 + 8 * (w.rs1 + 0x20 * w.imm), w.rd);
    Arithmetic.DivModUnique(raw, 0x8000, w.rs1 + 0x20 * w.imm, w.op + 0x80 * w.rd + 0x1000 * w.f3);
    Arithmetic.DivModUnique(w.rs1 + 0x20 * w.imm, 0x20, w.imm, w.rs1);
    Arithmetic.DivModUnique(raw, 0x10_0000, w.imm, w.op + 0x80 * w.rd + 0x1000 * w.f3 + 0x8000 * w.rs1);
  }

  /** Every 32-bit word is the encoding of some fields. */
  lemma EveryWordIsEncoded(raw: nat) returns (w: Word)
    requires raw < UINT32_SIZE
    ensures Legal(w) && Encode(w) == raw
  {
    var a := raw / 0x80;
    var b := a / 0x20;
    var c := b / 8;
    w := Word(raw % 0x80, a % 0x20, b % 8, c % 0x20, c / 0x20);
    assert raw == 0x80 * a + w.op && a == 0x20 * b + w.rd && b == 8 * c + w.f3 && c == 0x20 * w.imm + w.rs1;
  }

  // ---------------------------------------------------------------------------
  // Programs of words
  // ---------------------------------------------------------------------------

  ghost predicate AllLegal(ws: seq<Word>) {
    forall i :: 0 <= i < |ws| ==> Legal(ws[i])
  }

  function Assemble(ws: seq<Word>): (program: seq<nat>)
    ensures |program| == |ws| && forall i :: 0 <= i < |ws| ==> program[i] == Encode(ws[i])
  {
    seq(|ws|, i requires 0 <= i < |ws| => Encode(ws[i]))
  }

  /** The word changes register r: stores change none, and register 0 never changes. */
  predicate Writes(w: Word, r: nat) {
    w.op != 0x23 && w.rd == r && r != 0
  }

  /** The word reads register r, as its first source or through its second. */
  predicate Reads(w: Word, r: nat) {
    w.rs1 == r || w.imm % 0x20 == r
  }

  /** The word at i reads the register its predecessor changes. */
  predicate Waits(ws: seq<Word>, i: int) {
    0 < i < |ws| && exists r :: 0 <= r < REGISTERS && Writes(ws[i - 1], r) && Reads(ws[i], r)
  }

  /** The places, before n, where a word waits for its predecessor. */
  ghost function Bubbles(ws: seq<Word>, n: nat): set<int> {
    set i | 0 < i < n && Waits(ws, i)
  }

  lemma DependsIff(ws: seq<Word>, i: nat)
    requires AllLegal(ws) && i < |ws|
    ensures Deps(Assemble(ws))[i] <==> Waits(ws, i)
  {
    DecodeEncode(ws[i], WordAddress(i));
    if i > 0 {
      DecodeEncode(ws[i - 1], WordAddress(i - 1));
      if Deps(Assemble(ws))[i] {
        var r := ws[i - 1].rd;
        assert Writes(ws[i - 1], r) && Reads(ws[i], r);
      }
    }
  }

  lemma CountBubbles(ws: seq<Word>, n: nat)
    requires AllLegal(ws) && n <= |ws|
    ensures Dependencies(Deps(Assemble(ws)), n) == |Bubbles(ws, n)|
  {
    var d := Deps(Assemble(ws));
    forall i | 0 <= i < |ws| ensures d[i] <==> Waits(ws, i) { DependsIff(ws, i); }
    Count(d, ws, n);
  }

  lemma {:induction false} Count(d: seq<bool>, ws: seq<Word>, n: nat)
    requires n <= |d| == |ws| && forall i :: 0 <= i < |ws| ==> (d[i] <==> Waits(ws, i))
    ensures Dependencies(d, n) == |Bubbles(ws, n)|
  {
    if n <= 1 {
      assert Bubbles(ws, n) == {};
    } else {
      Count(d, ws, n - 1);
      NextBubble(ws, n - 1, n);
    }
  }

  lemma NextBubble(ws: seq<Word>, k: nat, n: nat)
    requires n == k + 1 && k > 0
    ensures |Bubbles(ws, n)| == |Bubbles(ws, k)| + if Waits(ws, k) then 1 else 0
  {
    if Waits(ws, k) {
      assert Bubbles(ws, n) == Bubbles(ws, k) + {k};
    } else {
      assert Bubbles(ws, n) == Bubbles(ws, k);
    }
  }

  // ---------------------------------------------------------------------------
  // Registers
  // ---------------------------------------------------------------------------

  /** v is the immediate of the last of the first n words that changes register r, or zero if none does. */
  ghost predicate LastWritten(ws: seq<Word>, n: nat, r: nat, v: nat)
    requires n <= |ws|
  {
    || (v == 0 && forall j :: 0 <= j < n ==> !Writes(ws[j], r))
    || exists i :: 0 <= i < n && Writes(ws[i], r) && v == ws[i].imm && forall j :: i < j < n ==> !Writes(ws[j], r)
  }

  lemma {:induction false} RegisterIsLastWritten(ws: seq<Word>, n: nat, r: nat)
    requires AllLegal(ws) && n <= |ws| && r < REGISTERS
    ensures LastWritten(ws, n, r, InOrder(Assemble(ws), n)[r])
  {
    if n > 0 {
      var k := n - 1;
      RegisterIsLastWritten(ws, k, r);
      DecodeEncode(ws[k], WordAddress(k));
      var before, after := InOrder(Assemble(ws), k)[r], InOrder(Assemble(ws), n)[r];
      if Writes(ws[k], r) {
        assert after == ws[k].imm;
      } else {
        assert after == before;
        NotWritten(ws, k, n, r, before);
      }
    }
  }

  lemma NotWritten(ws: seq<Word>, k: nat, n: nat, r: nat, v: nat)
    requires n == k + 1 <= |ws| && LastWritten(ws, k, r, v) && !Writes(ws[k], r)
    ensures LastWritten(ws, n, r, v)
  {
    if exists i :: 0 <= i < k && Writes(ws[i], r) && v == ws[i].imm && forall j :: i < j < k ==> !Writes(ws[j], r) {
      var i :| 0 <= i < k && Writes(ws[i], r) && v == ws[i].imm && forall j :: i < j < k ==> !Writes(ws[j], r);
      assert forall j :: i < j < n ==> !Writes(ws[j], r);
    }
  }

  // ---------------------------------------------------------------------------
  // Whole runs
  // ---------------------------------------------------------------------------

  /** The CPU has stopped after n cycles; what it counted and what its registers hold. */
  ghost predicate Finished(ws: seq<Word>, c: Cpu, n: nat)
    requires WellFormed(c)
  {
    && !c.running && c.cycles == n && c.retired == |ws| && c.stalls == |Bubbles(ws, |ws|)|
    && forall r :: 0 <= r < REGISTERS ==> LastWritten(ws, |ws|, r, c.registers[r])
  }

  /**
   A program of M > 0 words, D of which read what their predecessor changes, runs for exactly
   M + D + 5 cycles; D of them are stalls, and every register ends up with the immediate of the
   last word that changes it. The empty program runs for one cycle.
   */
  lemma WordTiming(ws: seq<Word>, n: nat)
    requires AllLegal(ws) && 4 * |ws| < UINT32_SIZE
    requires n == if ws == [] then 1 else |ws| + |Bubbles(ws, |ws|)| + 5
    ensures RunsFor(Assemble(ws), n) && Finished(ws, Cycles(Reset(), Assemble(ws), n), n)
  {
    var program := Assemble(ws);
    CountBubbles(ws, |ws|);
    ProgramTiming(program, n);
    forall r | 0 <= r < REGISTERS ensures LastWritten(ws, |ws|, r, InOrder(program, |ws|)[r]) {
      RegisterIsLastWritten(ws, |ws|, r);
    }
  }

  /** The latch holds word i of the program. */
  ghost predicate HoldsWord(l: Latch, ws: seq<Word>, i: nat)
    requires i < |ws|
  {
    && l.Holds? && l.instr.pc == 4 * i && l.instr.opcode == ws[i].op && l.instr.rd == ws[i].rd
    && l.instr.rs1 == ws[i].rs1 && l.instr.rs2 == ws[i].imm % 0x20 && l.instr.immediate == ws[i].imm
  }

  /**
   Word i is in EX after i + 2 cycles and one more for each bubble up to it, and in MEM and WB in
   the two cycles after that.
   */
  lemma OnTime(ws: seq<Word>, i: nat, t: nat)
    requires AllLegal(ws) && 4 * |ws| < UINT32_SIZE && i < |ws| && t == i + 2 + |Bubbles(ws, i + 1)|
    ensures HoldsWord(Cycles(Reset(), Assemble(ws), t).ex, ws, i)
    ensures HoldsWord(Cycles(Reset(), Assemble(ws), t + 1).mem, ws, i)
    ensures HoldsWord(Cycles(Reset(), Assemble(ws), t + 2).wb, ws, i)
  {
    var program := Assemble(ws);
    var d := Deps(program);
    CountBubbles(ws, i + 1);
    IssueTime(d, i);
    DecodeEncode(ws[i], WordAddress(i));
    BeforeTheEnd(d, i, t);
    SimulationIsClosedForm(program, t);
    SimulationIsClosedForm(program, t + 1);
    SimulationIsClosedForm(program, t + 2);
  }

  lemma BeforeTheEnd(d: seq<bool>, i: nat, t: nat)
    requires i < |d| && t == EntersEx(d, i)
    ensures t + 3 <= RetireTime(d, |d|)
  {
    MoreBubbles(d, i + 1, |d|);
  }

  lemma {:induction false} MoreBubbles(d: seq<bool>, m: nat, n: nat)
    requires m <= n <= |d|
    ensures Dependencies(d, m) <= Dependencies(d, n)
    decreases n - m
  {
    if m < n { MoreBubbles(d, m, n - 1); }
  }
}
