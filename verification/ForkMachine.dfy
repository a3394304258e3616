/**
 The register half of sys_fork: the frame int 0x80 saves, the kernel stack sys_fork builds by
 hand for the child, and the pushes and pops of context_switch and fork_child_return that
 turn it back into a running user context. Memory is a map from word addresses to words.
 */
module ForkMachine {
  import opened ForkStack

  const REGS_SIZE: nat := 68
  const SWITCH_SIZE: nat := 24
  const KERNEL_DATA_SEGMENT: nat := 0x10
  const EFLAGS_RESERVED: nat := 0x002
  const EFLAGS_IF: nat := 0x202
  // Code addresses, left symbolic by giving each routine a name of its own.
  const FORK_CHILD_RETURN: nat := 1
  const THREAD_EXIT: nat := 2

  datatype Cpu = Cpu(
    eax: nat, ebx: nat, ecx: nat, edx: nat, esi: nat, edi: nat, ebp: nat, esp: nat,
    eip: nat, eflags: nat, cs: nat, ss: nat, ds: nat, es: nat, fs: nat, gs: nat)

  type Memory = map<nat, nat>

  function Load(m: Memory, a: nat): nat {
    if a in m then m[a] else 0
  }

  /** The n words from address `a` upwards. */
  function Words(m: Memory, a: nat, n: nat): (w: seq<nat>)
    ensures |w| == n
  {
    seq(n, i requires 0 <= i < n => Load(m, a + 4 * i))
  }

  /** Nothing outside [lo, hi) differs. */
  ghost predicate SameOutside(m: Memory, n: Memory, lo: nat, hi: nat) {
    forall a: nat {:trigger Load(n, a)} :: a < lo || a >= hi ==> Load(n, a) == Load(m, a)
  }

  lemma SameWords(m: Memory, n: Memory, lo: nat, hi: nat, a: nat, k: nat)
    requires SameOutside(m, n, lo, hi) && (a + 4 * k <= lo || hi <= a)
    ensures Words(n, a, k) == Words(m, a, k)
  {
  }

  lemma JoinWords(m: Memory, a: nat, k: nat, b: nat, n: nat)
    requires b == a + 4 * k
    ensures Words(m, a, k + n) == Words(m, a, k) + Words(m, b, n)
  {
  }

  // ---------------------------------------------------------------------------
  // Frames as values
  // ---------------------------------------------------------------------------

  /** regs_t, lowest address first: segments, the PUSHA block, the CPU's interrupt frame. */
  function SavedFrame(u: Cpu, dummy: nat): (f: seq<nat>)
    ensures |f| == 17
  {
    [u.gs, u.fs, u.es, u.ds]
    + [u.edi, u.esi, u.ebp, dummy, u.ebx, u.edx, u.ecx, u.eax]
    + [u.eip, u.cs, u.eflags, u.esp, u.ss]
  }

  /** What unwinding a register frame leaves in the CPU. */
  function ContextOf(f: seq<nat>): (u: Cpu)
    requires |f| == 17
  {
    Cpu(f[11], f[8], f[10], f[9], f[5], f[4], f[6], f[15], f[12], f[14], f[13], f[16], f[3], f[2], f[1], f[0])
  }

  /** The frame sys_fork writes for the child. */
  function ChildFrame(f: seq<nat>, lo: nat, delta: int): (c: seq<nat>)
    requires |f| == 17
    ensures |c| == 17
  {
    var g := f[11 := 0][15 := Shift(f[15], delta)];
    if PointsInto(lo, f[6]) then g[6 := Shift(f[6], delta)] else g
  }

  /** The context fork() promises the child. */
  function ChildContext(u: Cpu, lo: nat, delta: int): (c: Cpu) {
    u.(eax := 0, esp := Shift(u.esp, delta), ebp := if PointsInto(lo, u.ebp) then Shift(u.ebp, delta) else u.ebp)
  }

  /** The callee-saved frame context_switch leaves on the outgoing stack. */
  function SwitchFrame(c: Cpu, returnTo: nat): (f: seq<nat>)
    ensures |f| == 6
  {
    [c.edi, c.esi, c.ebx, c.ebp, c.eflags, returnTo]
  }

  /** Unwinding the saved frame gives back the user's context, whatever PUSHA stored for ESP. */
  lemma SaveThenRestore(u: Cpu, dummy: nat)
    ensures ContextOf(SavedFrame(u, dummy)) == u
  {
    var f := SavedFrame(u, dummy);
    assert f[4] == u.edi && f[6] == u.ebp && f[11] == u.eax && f[12] == u.eip && f[15] == u.esp;
  }

  lemma WithEax(u: Cpu, dummy: nat, v: nat)
    ensures ContextOf(SavedFrame(u, dummy)[11 := v]) == u.(eax := v)
  {
    assert SavedFrame(u, dummy)[11 := v] == SavedFrame(u.(eax := v), dummy);
    SaveThenRestore(u.(eax := v), dummy);
  }

  /** The child's frame unwinds to the promised context. */
  lemma ChildFrameMeansChildContext(u: Cpu, dummy: nat, lo: nat, delta: int)
    ensures ContextOf(ChildFrame(SavedFrame(u, dummy), lo, delta)) == ChildContext(u, lo, delta)
  {
    SaveThenRestore(u, dummy);
    var f := SavedFrame(u, dummy);
    assert f[6] == u.ebp && f[15] == u.esp;
  }

  /** Stack and frame pointer are at the same place of the child's stack; EAX is 0, and all else is the parent's. */
  lemma ContextIsMoved(u: Cpu, lo: nat, childLo: nat)
    requires StackAt(lo) && StackAt(childLo) && PointsInto(lo, u.esp)
    ensures
      var c := ChildContext(u, lo, childLo - lo);
      && c == u.(eax := 0, esp := c.esp, ebp := c.ebp) && c.esp - childLo == u.esp - lo
      && (if lo <= u.ebp <= lo + USTACK_SIZE then c.ebp - childLo == u.ebp - lo else c.ebp == u.ebp)
  {
    ShiftInto(lo, childLo, u.esp);
    if PointsInto(lo, u.ebp) { ShiftInto(lo, childLo, u.ebp); }
  }

  /** From there the walk of saved frame pointers finds the parent's frames, moved, unless the walk strays. */
  lemma FramesAreMoved(u: Cpu, words: seq<nat>, lo: nat, childLo: nat, guard: nat)
    requires |words| == WORDS && StackAt(lo) && StackAt(childLo) && PointsInto(lo, u.ebp) && guard == GUARD
    ensures
      var c, chain := ChildContext(u, lo, childLo - lo), FrameChain(words, lo, u.ebp, guard);
      FrameChain(Relocated(words, lo, childLo - lo, chain), childLo, c.ebp, guard) == ShiftAll(chain, childLo - lo)
      <==> !EndsStray(words, lo, childLo, chain, guard)
  {
    ChildChainIsMoved(words, lo, childLo, FrameChain(words, lo, u.ebp, guard), u.ebp, guard);
  }

  lemma SameSwitchFrame(c: Cpu, r: nat, d: Cpu, q: nat)
    requires SwitchFrame(c, r) == SwitchFrame(d, q)
    ensures c.edi == d.edi && c.esi == d.esi && c.ebx == d.ebx && c.ebp == d.ebp && c.eflags == d.eflags && r == q
  {
    var f, g := SwitchFrame(c, r), SwitchFrame(d, q);
    assert f[0] == g[0] && f[1] == g[1] && f[2] == g[2] && f[3] == g[3] && f[4] == g[4] && f[5] == g[5];
  }

  /** The kernel stack of a forked child that has not run yet. */
  ghost predicate ForkedStack(m: Memory, sp: nat, user: Cpu, lo: nat, delta: int) {
    && Words(m, sp, 6) == [0, 0, 0, 0, EFLAGS_RESERVED, FORK_CHILD_RETURN]
    && exists dummy: nat :: Words(m, sp + SWITCH_SIZE, 17) == ChildFrame(SavedFrame(user, dummy), lo, delta)
  }

  class Machine {
    var cpu: Cpu
    var mem: Memory
    /** TSS.ESP0: where int 0x80 puts the kernel stack. */
    var esp0: nat

    method Push(v: nat)
      requires cpu.esp >= 4
      modifies `cpu, `mem
      ensures cpu == old(cpu).(esp := old(cpu.esp) - 4)
      ensures mem == old(mem)[cpu.esp := v]
    {
      cpu := cpu.(esp := cpu.esp - 4);
      mem := mem[cpu.esp := v];
    }

    method Pop() returns (v: nat)
      modifies `cpu
      ensures v == Load(mem, old(cpu.esp)) && cpu == old(cpu).(esp := old(cpu.esp) + 4)
    {
      v := Load(mem, cpu.esp);
      cpu := cpu.(esp := cpu.esp + 4);
    }

    /** The privilege change: the CPU switches to ESP0 and pushes SS, ESP, EFLAGS, CS, EIP. */
    method Interrupt()
      requires esp0 >= 20
      modifies `cpu, `mem
      ensures cpu == old(cpu).(esp := esp0 - 20)
      ensures SameOutside(old(mem), mem, esp0 - 20, esp0)
      ensures Words(mem, cpu.esp, 5) == [old(cpu).eip, old(cpu).cs, old(cpu).eflags, old(cpu).esp, old(cpu).ss]
    {
      var user := cpu;
      cpu := cpu.(esp := esp0);
      Push(user.ss);
      Push(user.esp);
      Push(user.eflags);
      Push(user.cs);
      Push(user.eip);
    }

    method PushFour(a: nat, b: nat, c: nat, d: nat)
      requires cpu.esp >= 16
      modifies `cpu, `mem
      ensures cpu == old(cpu).(esp := old(cpu.esp) - 16)
      ensures SameOutside(old(mem), mem, cpu.esp, old(cpu.esp))
      ensures Words(mem, cpu.esp, 4) == [d, c, b, a]
    {
      Push(a);
      Push(b);
      Push(c);
      Push(d);
    }

    method Pusha()
      requires cpu.esp >= 32
      modifies `cpu, `mem
      ensures cpu == old(cpu).(esp := old(cpu.esp) - 32)
      ensures SameOutside(old(mem), mem, cpu.esp, old(cpu.esp))
      ensures Words(mem, cpu.esp, 8) == old([cpu.edi, cpu.esi, cpu.ebp, cpu.esp, cpu.ebx, cpu.edx, cpu.ecx, cpu.eax])
    {
      var before := cpu.esp;
      PushFour(cpu.eax, cpu.ecx, cpu.edx, cpu.ebx);
      ghost var half := mem;
      PushFour(before, cpu.ebp, cpu.esi, cpu.edi);
      SameWords(half, mem, cpu.esp, cpu.esp + 16, cpu.esp + 16, 4);
      JoinWords(mem, cpu.esp, 4, cpu.esp + 16, 4);
    }

    method PushSegments()
      requires cpu.esp >= 16
      modifies `cpu, `mem
      ensures cpu == old(cpu).(esp := old(cpu.esp) - 16)
      ensures SameOutside(old(mem), mem, cpu.esp, old(cpu.esp))
      ensures Words(mem, cpu.esp, 4) == old([cpu.gs, cpu.fs, cpu.es, cpu.ds])
    {
      PushFour(cpu.ds, cpu.es, cpu.fs, cpu.gs);
    }

    /** int $0x80 up to the call of syscall_dispatch; `frame` is the regs_t pointer. */
    method Int80Entry() returns (frame: nat)
      requires esp0 >= REGS_SIZE
      modifies `cpu, `mem
      ensures frame == esp0 - REGS_SIZE && SameOutside(old(mem), mem, frame, esp0)
      ensures Words(mem, frame, 17) == SavedFrame(old(cpu), esp0 - 20)
      ensures cpu.esp == frame
    {
      var user := cpu;
      Interrupt();
      ghost var m1 := mem;
      Pusha();
      ghost var m2 := mem;
      PushSegments();
      frame := cpu.esp;
      SameWords(m1, m2, frame + 16, frame + 48, frame + 48, 5);
      SameWords(m2, mem, frame, frame + 16, frame + 48, 5);
      SameWords(m2, mem, frame, frame + 16, frame + 16, 8);
      JoinWords(mem, frame, 4, frame + 16, 8);
      JoinWords(mem, frame, 12, frame + 48, 5);
      var k := KERNEL_DATA_SEGMENT;
      cpu := cpu.(ds := k, es := k, fs := k, gs := k);
    }

    method PopSegments()
      modifies `cpu
      ensures
        var w := Words(mem, old(cpu.esp), 4);
        cpu == old(cpu).(gs := w[0], fs := w[1], es := w[2], ds := w[3], esp := old(cpu.esp) + 16)
    {
      var gs := Pop();
      var fs := Pop();
      var es := Pop();
      var ds := Pop();
      cpu := cpu.(gs := gs, fs := fs, es := es, ds := ds);
    }

    method Popa()
      modifies `cpu
      ensures
        var w := Words(mem, old(cpu.esp), 8);
        cpu == old(cpu).(edi := w[0], esi := w[1], ebp := w[2], ebx := w[4], edx := w[5], ecx := w[6], eax := w[7],
                         esp := old(cpu.esp) + 32)
    {
      var edi := Pop();
      var esi := Pop();
      var ebp := Pop();
      var skipped := Pop();
      var ebx := Pop();
      var edx := Pop();
      var ecx := Pop();
      var eax := Pop();
      cpu := cpu.(edi := edi, esi := esi, ebp := ebp, ebx := ebx, edx := edx, ecx := ecx, eax := eax);
    }

    /** IRET to ring 3 also reloads ESP and SS. */
    method Iret()
      modifies `cpu
      ensures
        var w := Words(mem, old(cpu.esp), 5);
        cpu == old(cpu).(eip := w[0], cs := w[1], eflags := w[2], esp := w[3], ss := w[4])
    {
      var eip := Pop();
      var cs := Pop();
      var eflags := Pop();
      var esp := Pop();
      var ss := Pop();
      cpu := cpu.(eip := eip, cs := cs, eflags := eflags, esp := esp, ss := ss);
    }

    /** The epilogue of int80_handler, and all of fork_child_return. */
    method ReturnToUser()
      modifies `cpu
      ensures cpu == ContextOf(Words(mem, old(cpu.esp), 17))
    {
      ghost var sp := cpu.esp;
      PopSegments();
      Popa();
      Iret();
      JoinWords(mem, sp, 4, sp + 16, 8);
      JoinWords(mem, sp, 12, sp + 48, 5);
    }

    /** The six words sys_fork and process_create leave for context_switch to pop. */
    method WriteSwitchFrame(top: nat, flags: nat, target: nat) returns (sp: nat)
      requires top >= SWITCH_SIZE
      modifies `mem
      ensures sp == top - SWITCH_SIZE && SameOutside(old(mem), mem, sp, top)
      ensures Words(mem, sp, 6) == [0, 0, 0, 0, flags, target]
    {
      sp := top - SWITCH_SIZE;
      mem := mem[top - 4 := target][top - 8 := flags][top - 12 := 0][top - 16 := 0][top - 20 := 0][sp := 0];
    }

    /** Copy regs_t word by word and patch EAX, ESP and EBP. */
    method CopyFrame(frame: nat, at: nat, lo: nat, delta: int)
      requires frame + REGS_SIZE <= at || at + REGS_SIZE <= frame
      modifies `mem
      ensures SameOutside(old(mem), mem, at, at + REGS_SIZE)
      ensures Words(mem, at, 17) == ChildFrame(Words(old(mem), frame, 17), lo, delta)
    {
      var i := 0;
      while i < 17
        invariant 0 <= i <= 17
        invariant SameOutside(old(mem), mem, at, at + 4 * i)
        invariant Words(mem, at, i) == Words(old(mem), frame, i)
      {
        ghost var m := mem;
        mem := mem[at + 4 * i := Load(mem, frame + 4 * i)];
        forall a: nat | a != at + 4 * i ensures Load(mem, a) == Load(m, a) { }
        assert Words(mem, at, i) == Words(m, at, i);
        JoinWords(mem, at, i, at + 4 * i, 1);
        JoinWords(old(mem), frame, i, frame + 4 * i, 1);
        assert Load(m, frame + 4 * i) == Load(old(mem), frame + 4 * i);
        i := i + 1;
      }
      Patch(frame, at, lo, delta);
    }

    method Patch(frame: nat, at: nat, lo: nat, delta: int)
      requires frame + REGS_SIZE <= at || at + REGS_SIZE <= frame
      requires Words(mem, at, 17) == Words(mem, frame, 17)
      modifies `mem
      ensures SameOutside(old(mem), mem, at, at + REGS_SIZE)
      ensures Words(mem, at, 17) == ChildFrame(Words(old(mem), frame, 17), lo, delta)
    {
      ghost var f := Words(mem, frame, 17);
      assert f[6] == Load(mem, frame + 24) && f[15] == Load(mem, frame + 60);
      mem := mem[at + 44 := 0];
      mem := mem[at + 60 := Shift(Load(mem, frame + 60), delta)];
      var ebp := Load(mem, frame + 24);
      if PointsInto(lo, ebp) { mem := mem[at + 24 := Shift(ebp, delta)]; }
    }

    /** The child's kernel stack: the patched frame, and beneath it the frame for context_switch. */
    method BuildChildStack(frame: nat, kstackTop: nat, lo: nat, delta: int) returns (sp: nat)
      requires kstackTop >= REGS_SIZE + SWITCH_SIZE
      requires frame + REGS_SIZE <= kstackTop - REGS_SIZE || kstackTop <= frame
      modifies `mem
      ensures sp == kstackTop - REGS_SIZE - SWITCH_SIZE && SameOutside(old(mem), mem, sp, kstackTop)
      ensures Words(mem, sp, 6) == [0, 0, 0, 0, EFLAGS_RESERVED, FORK_CHILD_RETURN]
      ensures Words(mem, sp + SWITCH_SIZE, 17) == ChildFrame(Words(old(mem), frame, 17), lo, delta)
    {
      var at := kstackTop - REGS_SIZE;
      CopyFrame(frame, at, lo, delta);
      ghost var m := mem;
      sp := WriteSwitchFrame(at, EFLAGS_RESERVED, FORK_CHILD_RETURN);
      SameWords(m, mem, sp, at, at, 17);
    }

    /** The stack process_create builds: entry's argument and return address lie above the frame. */
    method BuildThreadStack(kstackTop: nat, entry: nat, arg: nat) returns (sp: nat)
      requires kstackTop >= 8 + SWITCH_SIZE
      modifies `mem
      ensures sp == kstackTop - 8 - SWITCH_SIZE && SameOutside(old(mem), mem, sp, kstackTop)
      ensures Words(mem, sp, 6) == [0, 0, 0, 0, EFLAGS_IF, entry]
      ensures Words(mem, sp + SWITCH_SIZE, 2) == [THREAD_EXIT, arg]
    {
      mem := mem[kstackTop - 4 := arg][kstackTop - 8 := THREAD_EXIT];
      ghost var m := mem;
      sp := WriteSwitchFrame(kstackTop - 8, EFLAGS_IF, entry);
      SameWords(m, mem, sp, sp + SWITCH_SIZE, sp + SWITCH_SIZE, 2);
    }

    /** The save half of context_switch; on entry the stack holds the return address and the two arguments. */
    method SaveHalf()
      requires cpu.esp >= 20
      modifies `cpu, `mem
      ensures cpu.esp == old(cpu.esp) - 20
      ensures Words(mem, cpu.esp, 6) == SwitchFrame(old(cpu), Load(old(mem), old(cpu.esp)))
      ensures SameOutside(old(mem), mem, cpu.esp, old(cpu.esp))
    {
      Push(cpu.eflags);
      Push(cpu.ebp);
      Push(cpu.ebx);
      Push(cpu.esi);
      Push(cpu.edi);
    }

    /** The restore half: pop the four registers and EFLAGS, then return. */
    method RestoreHalf()
      modifies `cpu
      ensures SwitchFrame(cpu, cpu.eip) == Words(mem, old(cpu.esp), 6)
      ensures cpu.esp == old(cpu.esp) + SWITCH_SIZE
    {
      var edi := Pop();
      var esi := Pop();
      var ebx := Pop();
      var ebp := Pop();
      var eflags := Pop();
      var eip := Pop();
      cpu := cpu.(edi := edi, esi := esi, ebx := ebx, ebp := ebp, eflags := eflags, eip := eip);
    }

    /**
     context_switch(&prev->esp, next->esp): what it saves is a frame of the shape it restores,
     found at the address it stores through its first argument.
     */
    method ContextSwitch()
      requires CallsSwitchTo(Load(mem, cpu.esp + 8))
      modifies `cpu, `mem
      ensures
        var sp := old(cpu.esp) - 20;
        && Load(mem, Load(old(mem), old(cpu.esp) + 4)) == sp
        && Words(mem, sp, 6) == SwitchFrame(old(cpu), Load(old(mem), old(cpu.esp)))
      ensures
        var to := Load(old(mem), old(cpu.esp) + 8);
        && SwitchFrame(cpu, cpu.eip) == Words(old(mem), to, 6)
        && cpu.esp == to + SWITCH_SIZE
      ensures forall a: nat {:trigger Load(mem, a)} ::
                (a < old(cpu.esp) - 20 || a >= old(cpu.esp)) && a != Load(old(mem), old(cpu.esp) + 4) ==>
                    Load(mem, a) == Load(old(mem), a)
    {
      SaveHalf();
      ghost var m1 := mem;
      var slot := Load(mem, cpu.esp + 24);
      mem := mem[slot := cpu.esp];
      SameWords(m1, mem, slot, slot + 4, cpu.esp, 6);
      var to := Load(mem, cpu.esp + 28);
      SameWords(old(mem), m1, cpu.esp, old(cpu.esp), to, 6);
      SameWords(m1, mem, slot, slot + 4, to, 6);
      cpu := cpu.(esp := to);
      RestoreHalf();
      forall a: nat | a != slot ensures Load(mem, a) == Load(m1, a) { }
    }

    /** Switching to a frame that context_switch saved returns where it was called, with the same registers. */
    method ResumeSaved(sp: nat, ghost c: Cpu, ghost returnTo: nat)
      requires CallsSwitchTo(sp) && Words(mem, sp, 6) == SwitchFrame(c, returnTo)
      modifies `cpu, `mem
      ensures cpu.edi == c.edi && cpu.esi == c.esi && cpu.ebx == c.ebx && cpu.ebp == c.ebp && cpu.eflags == c.eflags
      ensures cpu.eip == returnTo && cpu.esp == sp + SWITCH_SIZE
    {
      ContextSwitch();
      SameSwitchFrame(cpu, cpu.eip, c, returnTo);
    }

    /** A new thread starts in its entry function with interrupts on, its argument and exit routine on the stack. */
    method StartThread(sp: nat, ghost entry: nat, ghost arg: nat)
      requires CallsSwitchTo(sp) && Words(mem, sp, 6) == [0, 0, 0, 0, EFLAGS_IF, entry]
      requires Words(mem, sp + SWITCH_SIZE, 2) == [THREAD_EXIT, arg] && ClearOf(sp + SWITCH_SIZE, 8)
      modifies `cpu, `mem
      ensures cpu.eip == entry && cpu.eflags == EFLAGS_IF && cpu.esp == sp + SWITCH_SIZE
      ensures Words(mem, cpu.esp, 2) == [THREAD_EXIT, arg]
    {
      ghost var m := mem;
      ContextSwitch();
      assert SwitchFrame(cpu, cpu.eip)[5] == entry;
      assert SwitchFrame(cpu, cpu.eip)[4] == EFLAGS_IF;
      assert Words(mem, cpu.esp, 2) == Words(m, cpu.esp, 2);
    }

    /** syscall_dispatch stores the result in the EAX slot of the saved frame. */
    method SetReturnValue(frame: nat, v: nat)
      modifies `mem
      ensures SameOutside(old(mem), mem, frame + 44, frame + 48)
      ensures Words(mem, frame, 17) == Words(old(mem), frame, 17)[11 := v]
    {
      mem := mem[frame + 44 := v];
    }

    /**
     fork() seen from the parent: the child's stack is in place, and the parent goes on where
     it was, with the child's pid in EAX.
     */
    method ForkSyscall(kstackTop: nat, lo: nat, delta: int, pid: nat) returns (sp: nat)
      requires esp0 >= REGS_SIZE && kstackTop >= REGS_SIZE + SWITCH_SIZE
      requires esp0 <= kstackTop - REGS_SIZE - SWITCH_SIZE || kstackTop <= esp0 - REGS_SIZE
      modifies `cpu, `mem
      ensures cpu == old(cpu).(eax := pid)
      ensures sp == kstackTop - REGS_SIZE - SWITCH_SIZE
      ensures ForkedStack(mem, sp, old(cpu), lo, delta)
    {
      ghost var user := cpu;
      var frame := Int80Entry();
      ghost var m1 := mem;
      sp := BuildChildStack(frame, kstackTop, lo, delta);
      ghost var m2 := mem;
      SameWords(m1, m2, sp, kstackTop, frame, 17);
      SetReturnValue(frame, pid);
      WithEax(user, esp0 - 20, pid);
      ReturnToUser();
      SameWords(m2, mem, frame + 44, frame + 48, sp, 6);
      SameWords(m2, mem, frame + 44, frame + 48, sp + SWITCH_SIZE, 17);
    }

    /** fork() seen from the child: its first dispatch lands in user mode with the promised context. */
    method ResumeChild(sp: nat, ghost user: Cpu, ghost lo: nat, ghost delta: int)
      requires CallsSwitchTo(sp) && ClearOf(sp + SWITCH_SIZE, REGS_SIZE) && ForkedStack(mem, sp, user, lo, delta)
      modifies `cpu, `mem
      ensures cpu == ChildContext(user, lo, delta)
    {
      ghost var m := mem;
      ContextSwitch();
      assert SwitchFrame(cpu, cpu.eip)[5] == FORK_CHILD_RETURN;
      assert Words(mem, cpu.esp, 17) == Words(m, cpu.esp, 17);
      ghost var dummy :| Words(m, sp + SWITCH_SIZE, 17) == ChildFrame(SavedFrame(user, dummy), lo, delta);
      ReturnToUser();
      ChildFrameMeansChildContext(user, dummy, lo, delta);
    }

    /**
     A call of context_switch to `sp` is about to run: return address and arguments are on the
     stack, and nothing overlaps.
     */
    ghost predicate CallsSwitchTo(sp: nat)
      reads this
    {
      && cpu.esp >= 20
      && Load(mem, cpu.esp + 8) == sp
      && var slot := Load(mem, cpu.esp + 4);
         && (slot + 4 <= cpu.esp - 20 || cpu.esp + 12 <= slot)
         && ClearOf(sp, SWITCH_SIZE)
    }

    /** The n bytes at `a` are outside the frame context_switch pushes and the field it stores ESP in. */
    ghost predicate ClearOf(a: nat, n: nat)
      reads this
    {
      && (a + n <= cpu.esp - 20 || cpu.esp <= a)
      && var slot := Load(mem, cpu.esp + 4); (slot + 4 <= a || a + n <= slot)
    }
  }
}
