# OpenOS kernel cores in Dafny

A model of the stateful cores of OpenOS, a 32-bit teaching kernel written in C and assembly,
with proofs of what they keep over whole runs. Each core is stated twice: as functions on
values, about which the laws are proved, and as imperative code in the kernel's own form
(linked queues in arrays, block headers in memory, a byte bitmap, page directories, a node
pool, pushes and pops), which is proved to compute those functions.

| core | files |
|---|---|
| scheduler and process life cycle | `SchedulerModel`, `SchedulerInvariant`, `SchedulerDispatch`, `SchedulerLifecycle`, `SchedulerFairness`, `SchedulerWakeup`, `SchedulerDeaths`, `SchedulerSleep`, `SchedulerExit`, `SchedulerCollision`, `SchedulerLinked` |
| fork: user stack and register frames | `ForkStack`, `ForkMachine` |
| first-fit heap and its arena | `HeapModel`, `HeapProperties`, `HeapCanonical`, `HeapLinked`, `HeapArena` |
| five-stage pipeline simulator | `PipelineModel`, `PipelineTiming`, `PipelineWords`, `PipelineMachine` |
| physical and virtual memory | `PmmModel`, `PmmBoot`, `Pmm`, `VmmModel`, `VmmRegion`, `Vmm` |
| RAM filesystem and paths | `VfsTree`, `VfsClimb`, `VfsPaths`, `VfsCommands`, `VfsNormal`, `VfsLinked`, `PathStrings` |
| pipe ring, Internet checksum | `Pipe`, `Checksum` |

`Arithmetic` holds a few facts about numbers, `Wrappers` the option type. `dafny verify dfyconfig.toml` checks everything.

## Main results

- **Bounded waiting.** In every run a READY process that is not killed gets the CPU within
  2*(200+1) + 5*63 = 717 timer ticks, because a rank built from queue level, waiting time,
  queue position and the running quantum drops with every tick and never rises.
- **Scheduler soundness.** In every state reachable from boot there is one RUNNING process, and
  a process is READY exactly when it stands once in the queue of its priority; the linked
  queues of the kernel implement these queues, also while aging removes nodes under a walk.
- **Who gets the CPU.** schedule(), the timer tick and yield give it to the first in line at the
  best level anybody waits at; a tick does so exactly if the running process is outranked or
  its quantum ends. Creation, fork, exit, kill, wait and sleep have their whole effect on table
  and queues stated, refusals included. A zombie's slot is freed exactly if its parent is gone,
  within one quantum.
- **No lost wakeup, exact sleep.** With fresh pids no process stays blocked over a dead child
  and no zombie is taken from its parent, which gets the status the child exited with; whatever
  the pids, a run never loses a wakeup if and only if every death reaches those who wait for
  it. A sleeper becomes runnable at exactly its tick.
- **Fork.** The child resumes in user mode with the parent's registers, EAX = 0 and its stack
  pointers moved; its frame chain is the parent's, moved.
- **Heap.** Over all runs blocks tile the arena without adjacent free blocks, live payloads are
  disjoint, the lowest fit is returned, freeing undoes allocating, and freeing
  everything in any order restores one block. The blocks in use determine the heap, so the
  order of frees does not matter. A frame handed out later meets a payload if and
  only if it lies above 4 GiB and aliases it.
- **Pipeline.** A closed form gives the whole simulator state at every cycle; a program of M
  instructions with D adjacent dependences takes exactly M + D + 5 cycles. From the fields of
  the words alone follow D, when each word is in which stage, and what the registers hold.
- **Memory.** The bitmap after start-up is exact for both kinds of boot information; the two
  levels of paging refine one flat page map that the hardware and the kernel read alike, and
  what mapping a region does when frames run out is exact page by page.
  With frames enough, addresses of the region translate linearly and all others as before.
- **Filesystem.** Whatever is removed and reused, what the root reaches is a tree; pwd
  returns exactly when its parent links have an end; it and path resolution undo each other;
  commands make and remove exactly the paths they name. A path leads to the node named by its
  normal form, in which "." is dropped and ".." takes back a name, and cd followed by pwd
  prints that form.

## Where the code falls short

These are proved with the exact condition under which the code is right, and with a state or run
that fails where the condition does not name the failing inputs itself.

- Pids are not unique: the counter of process_create and the scan of fork can meet
  (`PidsCollide`). Creation keeps pids unique iff the counter's pid is not in use
  (`CreateUniqueIff`). It keeps the table sound iff it fails or the counter has not wrapped to 0
  (`CreateInvIff`); for the wrap there is only the condition, no run.
- Then a wakeup can be lost (`AWakeupIsLost`): a dying child wakes its waiting parent iff no
  lower live slot has the parent's pid (`ChildDeathWakesIff`), and a run loses no wakeup iff that
  is so at every death (`LostIff`).
- Sleeping is ceil(ms/10) ticks iff ms <= 2^32 - 10 (`SleepLengthIsRoundedUp`); a sleep whose
  length wraps, and no other, leaves a deadline that is already past (`WrappedSleepIsLate`).
- kmalloc_aligned honours alignments up to 8 and no larger power of two
  (`SmallAlignmentsAreHonoured`, `LargeAlignmentsAreNot`); alignments that are no multiple of 8
  put later blocks off the 8-byte grid, and no others do (`OddAlignmentLeavesGrid`,
  `EveryAlignedRun`). The payload covers the request iff rounding it up does not wrap
  (`PayloadCoversRequest`); 2^32 - 1 bytes get a payload of none (`HugeRequestGetsNothing`).
- A frame above 4 GiB is returned under the address of a lower one (`AliasAbove4GiB`), so the
  first allocation can be lost (`FirstFrameIsLost`); freeing undoes allocating iff the frame
  lies below 4 GiB (`FreeUndoesAlloc`), and clients are kept apart iff all their frames do
  (`AccountedIff`). The carve-out of the heap arena can free a frame in use
  (`CarveFreesAnother`); it is right iff all frames it is offered lie below 4 GiB (`CarveIsRun`).
- For the same reason a page table can be put on another one (`SharedTable`); mapping a page
  keeps the directory sound iff that does not happen (`MapPage`). A directory can overlap a
  frame in use (`DirectoryOverlaps`); it has its frames to itself iff they are neighbours below
  4 GiB (`OwnFramesIff`).
- Mapping a region covers it iff rounding its end up does not wrap (`RegionIsCovered`) and the
  free frames cover the missing tables (`AllServedIff`). Creating and destroying a page
  directory loses a frame unless only the last frame below 4 GiB was free (`CreateThenDestroy`).
- A region of the memory map that lies at 16 TiB makes a frame of the first MiB free
  (`HighRegionFreesLowMemory`); no region below that does (`LowMemoryIsReserved`).
- A machine with 4 GiB gets only 4 MiB mapped (`FullMachineMapsLittle`, `RamEndIff`).
- A current directory can come to be called "." (`PwdLies`), and then its printed path leads
  elsewhere; the path leads back iff no component is "." or ".." (`PwdResolves`), and relative
  paths, cd included, mean what they should iff so (`RelativeResolvesIff`, `CdFollowsIff`).
- The current directory can become a file (`CurrentBecomesAFile`): iff it was removed and its slot
  is the one a new file takes (`StaysDirectoryIff`).
- In a removed directory pwd may climb for ever, writing past its 256-byte buffers on the way
  (`PwdLoops`); it returns iff its parent links come to an end within 128 links
  (`PwdReturnsIff`).
- A program that fills the address space never leaves the pipeline
  (`OversizedProgramNeverStops`).
- The checksum is the true one iff the words sum to less than 2^32 (`ChecksumIsTrueIff`); 65538
  words of 0xFFFF get a wrong one (`WrongChecksum`). A stored checksum still verifies
  (`StoredChecksumVerifies`).

## How the code is read

- Every operation of the scheduler and the process table runs with interrupts off, so it is one
  step; runs are sequences of such steps in any order. The loop of process_wait is one step per
  pass, and what a woken waiter does next is a step of its own (`ResumeA`). A process that kills
  itself takes the step `Exit(-1)`. process_create_user is one creation step.
- Idle makes no calls: its loop only halts (kernel/kernel.c:181-183). In runs the 32-bit pid
  counter has not wrapped round to pid 0; `CreateInvIff` says what happens when it has.
- In the heap, masking is written bit by bit on numbers. In the paging code masks and shifts are
  written as remainders and quotients.
- The memory map of the boot loader is a sequence of regions; the 64-bit end of a region and the
  32-bit page numbers wrap as in the code. Frame 0 being reserved is a hypothesis of the client
  and paging results, as start-up establishes it; the machine may have more than 4 GiB.
- A command of the shell is a pool slot and a leaf name in `VfsTree`, for any slot, also one that
  has been freed; `VfsPaths` and `VfsLinked` derive slot and leaf from the path argument.
- The path routines are stated for any current directory whose parent links have an end, which is
  when they return at all, and whose path fits the 256-byte buffers.
- The comment above vfs_remove_child speaks only of leaked nodes. The code also leaves the freed
  slot linked from a current directory inside it, which is what `PwdLoops` uses.
- The memory of `ForkMachine` maps word addresses to words. Code addresses are named constants.

## Model

| member | source | states |
|---|---|---|
| `SchedulerModel.BestQueue` | process/scheduler.c:66-77 | the level taken is the best non-empty one at pick time: every better queue is empty |
| `SchedulerModel.ByPidFrom` | process/process.c:335-343 | the lowest live slot with that pid, or none exists |
| `SchedulerModel.FreshPidFrom` | kernel/syscall.c:104-121 | the scan of fork ends with the least pid no other live slot uses; the number of contenders bounds it |
| `SchedulerInvariant.StepInv` | process/scheduler.c:33-251 | every enabled step keeps: one RUNNING process and it is current; a non-idle process is READY iff it sits exactly once in exactly one queue, that of its priority; idle, zombies and unused slots are never queued |
| `SchedulerInvariant.RunInv` | process/scheduler.c:147-228 | that invariant holds along every legal run from any state that has it |
| `SchedulerInvariant.EveryReachableStateIsSound` | process/process.c:81-106 | it holds after every legal run from process_init |
| `SchedulerInvariant.ScheduleInv` | process/scheduler.c:147-196 | schedule() entered by a process that runs or has just stopped re-establishes the invariant |
| `SchedulerInvariant.AgeItemsInv` | process/scheduler.c:106-120 | aging one queue while processes leave it keeps the invariant |
| `SchedulerInvariant.KillInv` | process/process.c:236-274 | killing any process, queued, asleep, blocked or running, keeps it |
| `SchedulerInvariant.ForkInv` | kernel/syscall.c:79-181 | the table half of fork keeps it |
| `SchedulerInvariant.CreateInvIff` | process/process.c:63-75 | creation keeps the invariant exactly when it fails, for its arguments or for lack of an unused slot, or the pid counter has not wrapped to 0, the pid of idle |
| `SchedulerFairness.RankBounds` | process/scheduler.c:106-120 | the rank of a waiting process lies between 1 and 2*(AGING_THRESHOLD+1) + SCHED_QUANTUM_TICKS*(PROCESS_MAX-1) |
| `SchedulerFairness.QueueLength` | process/scheduler.c:33-48 | a queue holds at most PROCESS_MAX-1 processes (pigeonhole on distinct slots) |
| `SchedulerFairness.TickRank` | process/scheduler.c:198-228 | every timer tick dispatches a waiting process or lowers its rank |
| `SchedulerFairness.StepRank` | process/scheduler.c:147-242 | no other step raises the rank of a process it does not kill |
| `SchedulerFairness.UndispatchedTicks` | process/scheduler.c:198-228 | a process not dispatched during a run has seen fewer ticks than its rank |
| `SchedulerFairness.BoundedWaiting` | process/scheduler.c:106-228 | in every run a READY process that is not killed is dispatched within 717 ticks |
| `SchedulerWakeup.CreateUniqueIff` | process/process.c:63-75 | creation keeps live pids unique exactly when the pid counter is not in use |
| `SchedulerWakeup.ForkedChild` | kernel/syscall.c:97-122 | the forked child is READY, is a child of the caller and has the least unused pid |
| `SchedulerWakeup.StepSound` | process/process.c:206-308 | with fresh pids every step keeps: pids are unique and no BLOCKED process waits in vain |
| `SchedulerWakeup.RunSound` | process/process.c:206-308 | so does every run |
| `SchedulerWakeup.NoWakeupIsLost` | process/process.c:276-308 | in every run from boot with fresh pids a process BLOCKED in wait has a living child and no zombie child, and pids stay unique |
| `SchedulerDeaths.StepLosesIff` | process/process.c:206-308 | whatever the pids, a step leaves a process BLOCKED in vain exactly when it ends a process some BLOCKED parent of which is not the one the lookup of its pid finds |
| `SchedulerDeaths.RunLosesIff` | process/process.c:206-308 | so a run never does, in any of its states, exactly when every death in it is heard by all who wait for it |
| `SchedulerDeaths.LostIff` | process/process.c:206-308 | the same for runs from boot |
| `SchedulerWakeup.ChildDeathWakesIff` | process/process.c:206-274 | exit or kill of its living child makes a process BLOCKED in wait READY or RUNNING in that very step if the lookup of its pid finds it, that is if no lower live slot has its pid, and leaves it BLOCKED if not; pids need not be unique |
| `SchedulerWakeup.ChildDeathWakesParent` | process/process.c:206-274 | hence with unique pids every death of a child wakes its BLOCKED parent |
| `SchedulerWakeup.RunFlagged` | process/process.c:276-308 | in every run, whatever the pids, a BLOCKED process has its waiting flag set |
| `SchedulerExit.ExitLeavesStatus` | process/process.c:206-234 | right after exit the process is a zombie with its status, its identity unchanged; not even an orphan is reaped in that step |
| `SchedulerExit.KillLeavesStatus` | process/process.c:236-274 | the process a killed pid leads to is a zombie with status -1, its identity unchanged |
| `SchedulerExit.ZombieStays` | process/scheduler.c:90-103 | a zombie that its living parent does not claim is left as it is by every run |
| `SchedulerExit.StatusIsDelivered` | process/process.c:276-308 | exit, then any run, then wait by the parent: the slot collected is that of the process, with its status, exactly when no lower slot holds another dead child |
| `SchedulerSleep.StepSettled` | process/scheduler.c:90-132 | a sleeper before its deadline, or a zombie with a living non-idle parent, is untouched by every step that is not its kill, its wake-up tick or its parent's wait |
| `SchedulerSleep.OnlyParentReaps` | process/scheduler.c:90-103 | a zombie whose parent lives on is reaped only by that parent, in wait |
| `SchedulerSleep.TickWakes` | process/scheduler.c:123-132 | a tick that reaches the deadline makes the sleeper READY or RUNNING |
| `SchedulerSleep.SleepExactness` | process/process.c:310-325 | a sleeper that is not killed sleeps at every earlier tick and is runnable right after the tick numbered start + length |
| `SchedulerSleep.SleepLengthIsRoundedUp` | process/process.c:310-325 | the length is ceil(ms/10) exactly when ms <= 2^32 - 10 |
| `SchedulerSleep.StepDeadlines` | process/scheduler.c:123-132 | a step keeps every sleeper's deadline in the future unless it is a sleep whose length wraps |
| `SchedulerSleep.DeadlinesAlwaysAhead` | process/scheduler.c:123-132 | in every state reachable from boot without wrapped sleeps every sleeper's deadline is in the future |
| `SchedulerSleep.WrappedSleepIsLate` | process/process.c:310-325 | a sleep keeps the deadlines ahead exactly when its length does not wrap |
| `SchedulerCollision.PidsCollide` | kernel/proc_commands.c:172-182 | a legal run from boot in which the shell starts the fork test twice: the scan of fork gives the first one's child the pid that the counter then gives the second |
| `SchedulerCollision.AWakeupIsLost` | kernel/proc_commands.c:123-144 | the same run from boot, continued: the second fork test forks and waits, the shell kills its child, and it stays BLOCKED over a zombie child |
| `SchedulerFairness.BookkeepingOlder` | process/scheduler.c:106-120 | in every tick each process waiting below the best level gets one tick older, or after 200 moves up exactly one level with its waiting time reset; at the best level it keeps its place and nobody overtakes it |
| `SchedulerDispatch.ScheduleLaw` | process/scheduler.c:147-196 | schedule(): the first in line at the best level anybody waits at gets the CPU with its base priority and a full quantum; the caller, if it can go on and is not idle, goes to the tail of its base queue; if nobody waits the caller goes on or idle takes over; nobody but zombies is touched otherwise |
| `SchedulerDispatch.TickLaw` | process/scheduler.c:198-228 | after waking and aging the running process loses the CPU to the foremost waiter exactly if a waiter stands at a better level, or idle runs and anybody waits, or its quantum ends while somebody waits; otherwise it keeps it with one tick less, or a new quantum |
| `SchedulerDispatch.TickPreempts` | process/scheduler.c:208-227 | seen from a waiter at a better level than the running process, or while idle runs: the tick takes the CPU away, and whoever gets it stood at a level no worse |
| `SchedulerDispatch.YieldGivesUp` | process/scheduler.c:230-237 | yield and sleep(0): the foremost waiter runs and the caller is READY and last in its base queue; alone, the caller goes on with a full quantum |
| `SchedulerDispatch.ScheduleReapsIff` | process/scheduler.c:90-103 | with unique pids, schedule() frees the slot of a zombie other than its caller exactly if no living process but idle has the pid of its parent, and else leaves it as it is |
| `SchedulerDispatch.YieldFreesOrphans` | process/scheduler.c:90-103 | after one yield no orphan is left |
| `SchedulerDispatch.OrphanFreedSoon` | process/scheduler.c:83-103 | whatever runs, the slot of an orphan is free within one quantum of ticks |
| `SchedulerLifecycle.CreateLaw` | process/process.c:117-163 | creation is refused for bad arguments or a full table; else the lowest unused slot holds a process with the counter's pid, the caller as parent, the priority asked for as both priorities and a full quantum, last in line at that level (in no queue if the counter has wrapped to the pid of idle), the counter is one further, and nothing else changes |
| `SchedulerLifecycle.ForkLaw` | kernel/syscall.c:63-125 | fork is refused to kernel threads, without stacks and on a full table; else the child has the least free pid, the caller as parent and the caller's priorities, quantum and flags, is READY and last in line, and nothing else changes |
| `SchedulerLifecycle.NewbornRuns` | process/process.c:117-163 | whoever is created or forked and not killed has the CPU before 717 ticks have passed |
| `SchedulerLifecycle.ShellRunsAtOnce` | kernel/kernel.c:171-183 | from boot, the shell created at high priority has the CPU after the first tick |
| `SchedulerLifecycle.ExitLaw` | process/process.c:206-234 | exit: the caller is a zombie with its status, the parent its pid leads to is READY and last in line if it was blocked in wait, nobody else changes, and the CPU goes to whoever is foremost then |
| `SchedulerLifecycle.KillLaw` | process/process.c:236-274 | kill: the same with status -1, and the victim is out of its queue; a victim other than the caller leaves the CPU where it is |
| `SchedulerLifecycle.KillSpares` | process/process.c:236-274 | kill of idle, of a pid nobody has and of a zombie changes nothing |
| `SchedulerLifecycle.WaitLaw` | process/process.c:276-308 | one pass of wait frees the slot of the lowest dead child and nothing else; without a child nothing changes; while all children live the caller blocks and the CPU passes on |
| `SchedulerLifecycle.ResumeLaw` | process/process.c:276-308 | back inside wait, the caller's waiting flag, and only that, is cleared |
| `SchedulerLifecycle.SleepLaw` | process/process.c:310-325 | a sleep of ms > 0 milliseconds puts the caller to sleep for ceil(ms/10) ticks, for none if ms > 2^32 - 10, and the CPU passes on |
| `SchedulerLinked.Kernel.constructor` | process/process.c:81-106 | the kernel starts in the model's initial state |
| `SchedulerLinked.Kernel.Enqueue` | process/scheduler.c:33-48 | the linked queues after appending at the tail are the model's queues after Enqueue; idle is ignored |
| `SchedulerLinked.Kernel.Dequeue` | process/scheduler.c:50-63 | unlinking a node, wherever it is, removes it from the model's queue and changes nothing else |
| `SchedulerLinked.Kernel.PickNext` | process/scheduler.c:66-77 | the head of the best non-empty queue is popped |
| `SchedulerLinked.Kernel.FindByPid` | process/process.c:335-343 | the lowest live slot with the pid |
| `SchedulerLinked.Kernel.FindUnused` | process/process.c:63-75 | the lowest unused slot |
| `SchedulerLinked.Kernel.Release` | process/process.c:370-383 | the slot becomes unused |
| `SchedulerLinked.Kernel.ReapOrphans` | process/scheduler.c:90-103 | exactly the model's orphans are released; who they are is SchedulerDispatch.ScheduleReapsIff |
| `SchedulerLinked.Kernel.ApplyAging` | process/scheduler.c:106-120 | one walk over each linked queue, with removals under way, ages and promotes as the model does |
| `SchedulerLinked.Kernel.WakeSleepers` | process/scheduler.c:123-132 | exactly the due sleepers are made READY, in slot order |
| `SchedulerLinked.Kernel.Schedule` | process/scheduler.c:147-196 | the new state is Schedule of the old one, which SchedulerDispatch.ScheduleLaw describes |
| `SchedulerLinked.Kernel.Tick` | process/scheduler.c:198-228 | the new state is Tick of the old one; who has the CPU then is SchedulerDispatch.TickLaw |
| `SchedulerLinked.Kernel.Yield` | process/scheduler.c:230-237 | the new state is Yield of the old one, which gives the CPU up as SchedulerDispatch.YieldGivesUp says |
| `SchedulerLinked.Kernel.Start` | process/scheduler.c:138-141 | the new state is that of the model's start step |
| `SchedulerLinked.Kernel.Create` | process/process.c:117-163 | the new state is Create of the old one, error paths included; it is sound exactly when nothing is created or the pid counter had not wrapped to 0 |
| `SchedulerLinked.Kernel.FreshPid` | kernel/syscall.c:104-121 | the nested scan finds the least unused pid and terminates |
| `SchedulerLinked.Kernel.Fork` | kernel/syscall.c:63-181 | the new state is Fork of the old one; the result is the child's pid or -1 |
| `SchedulerLinked.Kernel.Exit` | process/process.c:206-234 | the new state is Exit of the old one |
| `SchedulerLinked.Kernel.Kill` | process/process.c:236-274 | the new state is Kill of the old one; the result tells whether the pid exists and may be killed |
| `SchedulerLinked.Kernel.Wait` | process/process.c:276-308 | one pass of the wait loop: a zombie child is collected with its exit code, there is no child, or the caller blocks |
| `SchedulerLinked.Kernel.Resume` | process/process.c:276-308 | a waiter that runs again clears its waiting flag before its next pass |
| `SchedulerLinked.Kernel.Sleep` | process/process.c:310-325 | the new state is Sleep of the old one |
| `ForkStack.ChainAscends` | kernel/syscall.c:141-155 | the walk visits strictly ascending aligned slots of the stack, at most as many as the guard allows |
| `ForkStack.CopyStack` | kernel/syscall.c:137-139 | the child's stack starts as the parent's, word for word |
| `ForkStack.RelocateChain` | kernel/syscall.c:142-155 | each word of the child equals the parent's word plus delta exactly when its slot is on the walked chain and its value points into the parent's stack, else the parent's word; only words not yet moved are read |
| `ForkStack.ForkUserStack` | kernel/syscall.c:132-155 | copy and relocation together, with the guard of 64 frames |
| `ForkStack.NoLinkIntoParent` | kernel/syscall.c:147-153 | no visited frame of the child links into the parent's stack |
| `ForkStack.ChildChainIsMoved` | kernel/syscall.c:141-155 | walking the child's stack visits exactly the moved frames of the parent, if and only if the walk did not stop early at a link that leaves the parent's stack for the child's |
| `ForkStack.ChainFollowsLinks` | kernel/syscall.c:141-155 | the walk starts at EBP, each frame is where the one before links to, and it ends only at the guard, at a link that does not ascend or at one that is no slot of the stack |
| `ForkStack.ChildWord` | kernel/syscall.c:137-155 | word by word the child's stack holds at the same place what the parent's holds, or, on the chain, the same link moved |
| `ForkMachine.ContextIsMoved` | kernel/syscall.c:157-168 | in the context promised to the child EAX is 0, ESP is at the same place of the child's stack, so is EBP if it points into the parent's, and all else is the parent's |
| `ForkMachine.FramesAreMoved` | kernel/syscall.c:141-168 | from the child's EBP the walk finds the parent's frames, moved, if and only if the parent's walk does not end at a link that strays into the child's stack |
| `ForkMachine.SaveThenRestore` | arch/x86/syscall.S:20-44 | unwinding the frame int 0x80 saves gives back the user context, whatever PUSHA stored for ESP |
| `ForkMachine.ChildFrameMeansChildContext` | kernel/syscall.c:159-168 | the patched frame unwinds to the parent's context with EAX = 0, ESP shifted, and EBP shifted iff it points into the parent's stack |
| `ForkMachine.Machine.Int80Entry` | arch/x86/syscall.S:20-33 | privilege change, PUSHA and the segment pushes leave regs_t in memory, in the declared layout, and nothing else |
| `ForkMachine.Machine.ReturnToUser` | arch/x86/context.S:127-133 | the pops, POPA and IRET load exactly the context the 17 words hold |
| `ForkMachine.Machine.BuildChildStack` | kernel/syscall.c:157-178 | the child's kernel stack holds the patched frame and, beneath it, a switch frame that returns to fork_child_return with interrupts off |
| `ForkMachine.Machine.BuildThreadStack` | process/process.c:147-156 | the stack of a new thread: a switch frame to its entry with interrupts on, its return address and its argument |
| `ForkMachine.Machine.ContextSwitch` | arch/x86/context.S:70-87 | what is saved is a frame of the shape that is restored, at the address stored through the first argument; the incoming registers are those of the frame switched to |
| `ForkMachine.Machine.ResumeSaved` | arch/x86/context.S:70-87 | switching to a saved frame returns where it was called, with the same callee-saved registers and flags |
| `ForkMachine.Machine.StartThread` | process/process.c:147-156 | the first switch to a new thread lands in its entry function, argument and exit routine on its stack |
| `ForkMachine.Machine.ForkSyscall` | kernel/syscall.c:157-181 | the parent continues with its own context and the child's pid in EAX; the child's stack is in place |
| `ForkMachine.Machine.ResumeChild` | arch/x86/context.S:127-133 | the first dispatch of the child lands in user mode with exactly the promised context |
| `HeapModel.AllocInv` | memory/heap.c:67-104 | taking and splitting a block keeps: the blocks tile the arena and no two neighbours are free |
| `HeapModel.FreeInv` | memory/heap.c:111-134 | freeing a block and merging both ways keeps it |
| `HeapModel.WantFacts` | memory/heap.c:32-32 | for every alignment the size looked for is at least the request exactly when rounding it up does not wrap, and then exceeds it by less than the alignment |
| `HeapModel.WantRoundsUp` | memory/heap.c:32-32 | for a power of two it is the request rounded up to a multiple of it, and 0 when that wraps |
| `HeapModel.MaskRoundsDown` | memory/heap.c:32-32 | masking with ~(a - 1), bit by bit, is rounding down to a multiple of a for every power of two a |
| `HeapModel.WantBy8Iff` | memory/heap.c:83-100 | all sizes for an alignment are multiples of 8 exactly when the alignment is one or is below 8 |
| `HeapProperties.EveryHeapRun` | memory/heap.c:67-134 | the invariant holds after every run of kmalloc, with any size and alignment, and of kfree on live pointers |
| `HeapProperties.EveryAlignedRun` | memory/heap.c:22-28 | if every alignment asked for is a multiple of 8 or below 8, all blocks stay multiples of 8 above the start of the arena |
| `HeapProperties.OddAlignmentLeavesGrid` | memory/heap.c:94-100 | any other alignment puts the block after a one-byte request off that grid |
| `HeapProperties.FreshArena` | memory/heap.c:42-48 | heap_build_freelist establishes both, wherever the arena starts |
| `HeapProperties.LivePayloads` | memory/heap.c:83-104 | live payloads are pairwise disjoint and inside the arena; on the grid they are 8-aligned exactly when the arena is |
| `HeapProperties.FirstFit` | memory/heap.c:83-104 | kmalloc returns NULL exactly when no free block fits, else the lowest-addressed one that does; no other block changes hands |
| `HeapProperties.KfreeUndoesKmalloc` | memory/heap.c:67-134 | kfree of the pointer kmalloc just returned restores the block list exactly |
| `HeapProperties.KfreeEndsPointer` | memory/heap.c:122-134 | kfree ends the life of exactly the pointer it is given |
| `HeapProperties.FreeingAllRestoresArena` | memory/heap.c:111-134 | freeing all live blocks in any order leaves one free block spanning the arena |
| `HeapProperties.Accounting` | memory/heap.c:140-157 | payload bytes plus one header per block make up the arena |
| `HeapProperties.PayloadCoversRequest` | memory/heap.c:94-100 | the payload covers the request exactly when rounding the request up does not wrap 32 bits; only for alignments above 2^32 - 32 a block too small to be split may cover it as well |
| `HeapProperties.HugeRequestGetsNothing` | memory/heap.c:83-104 | a request of 2^32 - 1 bytes is granted with a payload of 0 bytes |
| `HeapProperties.SmallAlignmentsAreHonoured` | memory/heap.c:83-104 | alignments up to 8 are honoured in every heap on the grid of an 8-aligned arena |
| `HeapProperties.LargeAlignmentsAreNot` | memory/heap.c:94-100 | every larger alignment is missed: in any aligned arena, after one 8-byte allocation, because the size is rounded and not the address |
| `HeapCanonical.LiveDetermines` | memory/heap.c:83-134 | two heaps over one arena with the same blocks in use are the same, block for block |
| `HeapCanonical.KmallocIs` | memory/heap.c:83-104 | kmalloc changes nothing and returns NULL if nothing is asked for or no free block is large enough; else the lowest that is comes into use, cut to size if at least 32 bytes are left over and whole if not, and that is all that changes |
| `HeapCanonical.KfreeIs` | memory/heap.c:122-134 | kfree takes exactly the block of the pointer out of use; NULL is ignored |
| `HeapCanonical.FreesCommute` | memory/heap.c:111-134 | freeing two blocks in either order leaves the same heap |
| `HeapLinked.Heap.constructor` | memory/heap.c:42-48 | a heap over the static arena |
| `HeapLinked.Heap.Init` | memory/heap.c:54-64 | a usable region, aligned or not, becomes the arena, otherwise the static one |
| `HeapLinked.Heap.SplitBlock` | memory/heap.c:67-81 | the headers after a split mirror the split block list |
| `HeapLinked.Heap.KmallocAligned` | memory/heap.c:83-104 | for every size and alignment the header walk returns and leaves what Kmalloc does on the block list |
| `HeapLinked.Heap.Malloc` | memory/heap.c:106-108 | kmalloc is kmalloc_aligned with alignment 8 |
| `HeapLinked.Heap.Coalesce` | memory/heap.c:111-120 | merging with the free successors mirrors Merge |
| `HeapLinked.Heap.Free` | memory/heap.c:122-134 | the headers after kfree mirror Kfree |
| `HeapLinked.Heap.Stats` | memory/heap.c:140-157 | the totals are those of the block list, used + free = total, and total + headers = heap size |
| `HeapArena.NoFrameMeetsThePayloads` | kernel/kernel.c:105-126 | on the arena kmain carves out, for every heap run and every honest run of frame clients that stayed below 4 GiB: the next frame handed out meets a byte of a live payload if and only if it lies above 4 GiB and aliases the frame of that byte |
| `HeapArena.NeverOnASmallMachine` | kernel/kernel.c:105-126 | with at most 4 GiB it never does, for every honest run of frame clients |
| `PipelineTiming.CycleClosedForm` | kernel/cpu/pipeline.c:83-153 | one simulated cycle of a running CPU advances a closed form by one: all latches, counters, pc and registers |
| `PipelineTiming.SimulationIsClosedForm` | kernel/cpu/pipeline.c:83-153 | hence the state after t cycles is the closed form at t |
| `PipelineTiming.StallsOnce` | kernel/cpu/pipeline.c:65-80 | no instruction is held up in two consecutive cycles |
| `PipelineTiming.RetireTimeIs` | kernel/cpu/pipeline.c:83-153 | the n-th instruction retires in cycle n + dependences before it + 4 |
| `PipelineTiming.ProgramTiming` | kernel/cpu/pipeline.c:83-153 | any program of M words with 4M < 2^32 runs M + D + 5 cycles, D being the number of adjacent pairs the hazard test relates, and one cycle if M = 0, with M instructions retired, D stalls and the registers of in-order execution |
| `PipelineTiming.RegistersFollowProgramOrder` | kernel/cpu/pipeline.c:92-107 | at every cycle the register file is that of the retired prefix executed in order, and register 0 is zero |
| `PipelineTiming.OversizedProgramNeverStops` | kernel/cpu/pipeline.c:43-62 | a program that fills the 32-bit address space is fetched for ever |
| `PipelineWords.DecodeEncode` | kernel/cpu/pipeline.c:43-62 | decoding undoes an encoder written apart from it, for all fields in range; the second source is the low five bits of the immediate |
| `PipelineWords.EveryWordIsEncoded` | kernel/cpu/pipeline.c:43-62 | every 32-bit word is the encoding of some fields |
| `PipelineWords.DependsIff` | kernel/cpu/pipeline.c:65-80 | a word waits for its predecessor exactly when it reads the register that one, not being a store and not naming register 0, writes |
| `PipelineWords.RegisterIsLastWritten` | kernel/cpu/pipeline.c:92-107 | after n words a register holds the immediate of the last of them that writes it, and 0 if none does |
| `PipelineWords.WordTiming` | kernel/cpu/pipeline.c:83-153 | hence, from the fields alone: M > 0 words, D of which read what their predecessor writes, run M + D + 5 cycles with D stalls, and every register ends with the immediate of its last writer |
| `PipelineWords.OnTime` | kernel/cpu/pipeline.c:109-137 | word i is in EX after i + 2 cycles and one more for each waiting word up to it, and in MEM and WB one and two cycles later, with all its fields |
| `PipelineMachine.PipelineCPU.constructor` | kernel/cpu/pipeline.c:26-35 | the CPU starts in the reset state |
| `PipelineMachine.PipelineCPU.DetectHazard` | kernel/cpu/pipeline.c:65-80 | true exactly when the decoded instruction reads the destination of the executing one |
| `PipelineMachine.PipelineCPU.Cycle` | kernel/cpu/pipeline.c:83-153 | the in-place update of latches, registers and counters is Cycle of the model, whose runs PipelineWords describes from the fields of the words |
| `PipelineMachine.PipelineCPU.Execute` | kernel/cpu/pipeline.c:156-167 | the run stops in the very cycle in which the last requested instruction retires, or one cycle after the program's last; the safety break at 10 times the target never fires |
| `PmmModel.AddressNamesFrame` | memory/pmm.c:181-206 | an address names its frame exactly for frames below 4 GiB |
| `PmmModel.FreeUndoesAlloc` | memory/pmm.c:181-206 | freeing the address just allocated restores the allocator exactly when the frame lies below 4 GiB |
| `PmmModel.RegionPages` | memory/pmm.c:137-147 | for a region that ends below 16 TiB the 32-bit page numbers are the true ones |
| `PmmModel.TouchesMeansOverlap` | memory/pmm.c:69-80 | a reserved range marks exactly the frames that share a byte with it |
| `PmmModel.ServeAccounted` | memory/pmm.c:181-206 | a request of an honest client that takes no frame above 4 GiB keeps: frames in use are the reserved ones and the ones handed out, these are apart, and their numbers add up |
| `PmmModel.AccountedIff` | memory/pmm.c:181-206 | over runs of honest clients these accounts stay right if and only if no request takes a frame above 4 GiB |
| `PmmModel.HandedOutIff` | memory/pmm.c:181-194 | a pointer handed out names a frame that is neither reserved nor live if and only if the frame taken lies below 4 GiB |
| `PmmModel.NeverHandedOut` | memory/pmm.c:181-206 | the same after every run of honest clients whose frames lay below 4 GiB, on a machine of any size |
| `PmmModel.AliasAbove4GiB` | memory/pmm.c:181-194 | the address returned names the frame taken if and only if that frame lies below 4 GiB; above, it names one in use |
| `PmmModel.FirstFrameIsLost` | memory/pmm.c:181-194 | a memory map with 1 MiB that the kernel fills and 256 MiB at 4 GiB, after which the first allocation takes a frame and returns NULL |
| `PmmBoot.BootFreesIff` | memory/pmm.c:85-176 | with regions that end below 16 TiB, a frame is free after start-up exactly when it is managed and not frame 0, its last byte lies in an available region that starts at or above 1 MiB (or, without a map, it lies above 1 MiB), and no byte of the kernel lies in it |
| `PmmBoot.LowMemoryIsReserved` | memory/pmm.c:137-147 | so no frame of the first MiB is free |
| `PmmBoot.HighRegionFreesLowMemory` | memory/pmm.c:137-147 | a region at 16 TiB, whose page numbers wrap, makes frame 1 free; frame 0 is reserved even so |
| `PmmBoot.ManagedIs` | memory/pmm.c:91-141 | the frames managed reach to the end of the highest available region or to the last bit of the bitmap; without a map they are a quarter of the KiB reported |
| `PmmBoot.MarkAndFree` | memory/pmm.c:196-218 | marking and freeing set and clear exactly the managed frame the address lies in |
| `PmmBoot.MarkUndoesFree` | memory/pmm.c:196-218 | either undoes the other where the other did something |
| `Pmm.Manager.BitmapSet` | memory/pmm.c:33-39 | exactly that page's bit is set; pages beyond the bitmap are ignored |
| `Pmm.Manager.BitmapClear` | memory/pmm.c:44-50 | exactly that page's bit is cleared |
| `Pmm.Manager.BitmapTest` | memory/pmm.c:55-62 | the bit, and true beyond the bitmap |
| `Pmm.Manager.ReserveRange` | memory/pmm.c:69-80 | exactly the managed frames the range touches become used |
| `Pmm.Manager.Init` | memory/pmm.c:85-176 | with or without a memory map, a frame is free afterwards iff it is below total_pages, offered at or above 1 MiB, and neither frame 0 nor part of the kernel; used_pages counts the set bits |
| `Pmm.Manager.AllocPage` | memory/pmm.c:181-194 | the lowest free frame is taken and its address returned, NULL if there is none; used_pages still counts the set bits |
| `Pmm.Manager.FreePage` | memory/pmm.c:199-206 | a used managed frame becomes free, anything else is ignored; the counter follows |
| `Pmm.Manager.MarkPageUsed` | memory/pmm.c:211-218 | a free managed frame becomes used; the counter follows |
| `Pmm.CarveArena` | kernel/kernel.c:105-126 | the loop on the bitmap computes Carve of the model, on every machine |
| `Pmm.CarveIsRun` | kernel/kernel.c:105-126 | on a machine of any size, Carve takes exactly the lowest free frame and the free frames right after it, up to the limit or to a frame in use, if and only if every frame it is offered on the way lies below 4 GiB |
| `Pmm.SmallMachine` | kernel/kernel.c:105-126 | with at most 4 GiB they all do |
| `Pmm.CarveFreesAnother` | kernel/kernel.c:105-126 | a bitmap with one free frame on each side of 4 GiB for which the carve-out frees a frame that is in use |
| `Pmm.ArenaIsNeverHandedOut` | kernel/kernel.c:105-126 | after the carve-out and every honest run of frame clients that stayed below 4 GiB, the next frame handed out meets a byte of the arena if and only if it lies above 4 GiB and aliases its frame |
| `VmmModel.WalksAgree` | memory/vmm.c:294-316 | the hardware walk over the entries and the kernel's walk over the table pointers read the same flat page map |
| `VmmModel.TableChangesNothing` | memory/vmm.c:46-73 | hanging in an empty table changes no translation |
| `VmmModel.EntryChangesOnePage` | memory/vmm.c:256-259 | writing an entry changes the translation of its page and of no other |
| `VmmModel.SmallIsEnough` | memory/pmm.c:181-194 | with at most 4 GiB the condition on frames that mapping a region asks for always holds |
| `VmmModel.AllocCosts` | memory/pmm.c:181-194 | allocation succeeds exactly when a frame is free, and costs one |
| `Vmm.Directory.GetPageTable` | memory/vmm.c:38-76 | the table is found, or made from a fresh frame on demand; tables[] and entries[] stay in step and no translation changes, if and only if the address of the new table is not that of another one |
| `Vmm.Directory.MapPage` | memory/vmm.c:244-265 | it fails exactly when a table is missing and no frame with a non-null address is next; the directory stays sound exactly when the new table does not fall on another one, and then exactly one page changes |
| `Vmm.Directory.UnmapPage` | memory/vmm.c:270-289 | exactly one page becomes unmapped |
| `Vmm.Directory.GetPhysical` | memory/vmm.c:294-316 | the answer of the hardware walk, 0 for "not mapped" |
| `Vmm.Directory.MapRegion` | memory/vmm.c:340-356 | address by address as in VmmRegion.RegionTranslates if frames and flags allow; in general, with enough frames below 4 GiB for the missing tables, or none above, the page map afterwards, page by page: a page of the region has its frame exactly when its table was there or enough frames were free for the missing tables up to it; all other pages keep what they had |
| `Vmm.Directory.IdentityMapRegion` | memory/vmm.c:321-335 | the same with each page as its own frame |
| `VmmRegion.RegionIsCovered` | memory/vmm.c:326-334 | the loop covers a non-empty range exactly when rounding its end up does not wrap 32 bits |
| `VmmRegion.AllServedIff` | memory/vmm.c:340-356 | the whole region is mapped exactly when the free frames cover the missing tables |
| `VmmRegion.RegionTranslates` | memory/vmm.c:340-356 | with flags that say present, enough frames for the tables and no wrap, every address of the region translates to the address as far from the first frame as it is from the first page, and every address outside its pages as before |
| `Vmm.TwoFrames` | memory/vmm.c:102-118 | the contiguity test passes exactly when the numbers of the two lowest free frames are neighbours modulo 2^20, a missing one counting as 0 |
| `Vmm.LowTwoFrames` | memory/vmm.c:102-118 | with those frames below 4 GiB or absent: exactly when they are neighbours, or the only free frame is the last one below 4 GiB |
| `Vmm.OwnFramesIff` | memory/vmm.c:102-118 | a directory gets two frames that were free exactly when the two lowest free frames are neighbours below 4 GiB |
| `Vmm.DirectoryOverlaps` | memory/vmm.c:102-118 | a bitmap for which the second page of the directory falls on a frame in use |
| `Vmm.TwoCost` | memory/vmm.c:102-118 | the two allocations cost two frames, or as many as are free |
| `Vmm.CreateDirectory` | memory/vmm.c:176-207 | an empty directory exactly when the contiguity test passes; otherwise it fails and loses the frames it took, two or as many as were free, or one if its address is null |
| `Vmm.DestroyDirectory` | memory/vmm.c:212-226 | exactly the tables' frames and the first frame of the directory become free |
| `Vmm.CreateThenDestroy` | memory/vmm.c:212-226 | if the creation succeeds, destroying gives all frames back exactly when only the last frame below 4 GiB was free; otherwise exactly the second frame of the directory is lost if its first lies below 4 GiB |
| `Vmm.Init` | memory/vmm.c:83-171 | with enough frames below 4 GiB for the directory and its at most 16 tables, or none above: an address below the end of the map translates to itself exactly when a frame was left for its table, and to nothing otherwise |
| `Vmm.RamEndIff` | memory/pmm.c:264-270 | the end of the map is that of memory, cut to 4 to 64 MiB, exactly when the 32 bits pmm_get_max_address returns lose nothing or leave at least 64 MiB |
| `Vmm.FullMachineMapsLittle` | memory/pmm.c:264-270 | a machine with exactly 4 GiB gets only 4 MiB mapped |
| `Vmm.SharedTable` | memory/vmm.c:38-76 | a machine on which creating a directory and mapping two pages puts the second page table on the first |
| `VfsTree.StepInv` | fs/vfs.c:251-296 | every command, with any pool slot as its parent, keeps: a listed node is allocated, is not the root and points back to its lister; names in a list are distinct and legal |
| `VfsTree.RunInv` | kernel/commands.c:819-997 | so does every sequence of commands |
| `VfsTree.UniquePath` | fs/vfs.c:251-296 | a reachable node has exactly one path from the root: no sharing, no cycles |
| `VfsTree.AlwaysATree` | kernel/commands.c:819-997 | in every run from what vfs_init leaves, with removal of non-empty directories and reuse of slots, what is reachable is a tree of allocated nodes |
| `VfsTree.ListedOnce` | fs/vfs.c:251-296 | a node sits in at most one child slot of the whole pool, free slots included |
| `VfsPaths.PathIsNames` | kernel/commands.c:264-273 | what the climb puts together for a reachable directory are the names on the way from the root to it |
| `VfsPaths.PwdResolves` | kernel/commands.c:250-283 | the path pwd prints for a reachable directory resolves to it if and only if no component is "." or ".." |
| `VfsPaths.RelativeResolvesIff` | kernel/commands.c:28-59 | for every relative path, resolving its absolute form is walking its components from the current directory, if and only if no directory on the way to that is called "." or ".." |
| `VfsPaths.RelativeResolves` | kernel/commands.c:28-59 | the half of it that commands rely on, for one path |
| `VfsPaths.NamesLeadThere` | fs/vfs.c:301-344 | following the names of a path leads where its positions lead |
| `VfsPaths.WalkStaysInTree` | fs/vfs.c:320-341 | a walk by names from a reachable node stays reachable, and special names never lead deeper |
| `VfsPaths.SegmentsOfJoined` | kernel/commands.c:264-273 | splitting a joined path gives its components back |
| `VfsPaths.CdReturns` | kernel/commands.c:487-519 | cd to the path pwd prints stays, and cd ".." followed by the old name comes back |
| `VfsPaths.SplitAbsolute` | kernel/commands.c:711-767 | "dir/leaf" is split into what dir resolves to, if it is a directory, and leaf |
| `VfsPaths.BareName` | kernel/commands.c:720-729 | a name without a slash refers to the current directory |
| `VfsCommands.CreatedPathResolves` | kernel/commands.c:819-893 | after mkdir or touch the path resolves to the new node, empty and of the right kind |
| `VfsCommands.MakesThePath` | kernel/commands.c:819-893 | the same from the command's path argument; before, the path resolved to nothing |
| `VfsCommands.WalkAfterCreate` | fs/vfs.c:251-265 | every path that resolved before a creation resolves to the same node after it |
| `VfsCommands.RemovedPathIsGone` | kernel/commands.c:963-997 | after rm the path resolves to nothing |
| `VfsCommands.WalkAfterRemove` | fs/vfs.c:274-296 | after a removal a path stops resolving or resolves as before |
| `VfsCommands.RemoveUndoesCreate` | fs/vfs.c:251-296 | rm right after mkdir or touch undoes it, up to what the freed slot still holds |
| `VfsCommands.CreateLaw` | kernel/commands.c:819-893 | mkdir and touch with every way they fail: no name, a taken name or no slot changes nothing; a file or a full directory as parent costs the slot; a removed directory whose slot is next is replaced by the new node; else the node is listed last and points back |
| `VfsCommands.RemoveLaw` | kernel/commands.c:963-997 | rm takes the one child of that name out and frees its slot; "." and ".." and missing names change nothing |
| `VfsCommands.StaysDirectoryIff` | kernel/commands.c:860-893 | a command leaves the current directory a directory unless it makes a new file and the slot it takes is that of the current directory, which was removed |
| `VfsCommands.CurrentBecomesAFile` | kernel/commands.c:860-893 | a run of three commands from what vfs_init leaves, after which the current directory is a file |
| `VfsNormal.DotDotIsUp` | fs/vfs.c:322-330 | ".." leads from a node of the tree to the one above it and from the root to itself; "." stays |
| `VfsNormal.DotDotCancels` | fs/vfs.c:320-341 | a name followed by ".." can be left out of a walk from anywhere, if the name leads somewhere; if not, the path resolves to nothing |
| `VfsNormal.DotDisappears` | fs/vfs.c:322-324 | "." can be left out anywhere |
| `VfsNormal.LeadsToNormal` | fs/vfs.c:301-344 | a path that resolves leads to the node whose own path from the root, name by name, is the normal form of the path |
| `VfsNormal.ResolvesIff` | fs/vfs.c:301-344 | a path resolves if and only if the normal form of each of its beginnings names a node, and then it leads where its normal form leads |
| `VfsNormal.DotDotCancelsInPath` | fs/vfs.c:301-344 | as strings: "dir/name/../rest" resolves as "dir/rest" if "dir/name" resolves, and to nothing if not |
| `VfsNormal.BinByWayOfEtc` | fs/vfs.c:326-330 | after vfs_init "/etc/../bin" is "/bin" |
| `VfsNormal.CdFollowsIff` | kernel/commands.c:493-519 | for every argument cd goes where its components lead, from the root or from the current directory, if and only if no name on the way to the current directory is "." or ".." |
| `VfsNormal.ParentFollows` | kernel/commands.c:741-767 | so does the directory part of a path given to a command; what is no directory is refused |
| `VfsNormal.CdThenPwd` | kernel/commands.c:487-535 | cd changes nothing but the current directory, and that exactly if its argument leads to a directory; pwd then prints the normal form of the old path followed by the argument |
| `VfsNormal.CdStaysSomewhere` | kernel/commands.c:487-535 | after any cd the same holds of the next one |
| `VfsClimb.PwdReturnsIff` | kernel/commands.c:264-273 | for any state of the pool, pwd returns if and only if the parent links lead to a null link or to a node that is its own parent within 128 links |
| `VfsClimb.PwdStops` | kernel/commands.c:264-273 | hence it returns in every reachable directory, having climbed to the root |
| `VfsClimb.EndlessMeansOverrun` | kernel/commands.c:264-273 | where it does not return, the path it puts together outgrows every buffer |
| `VfsCommands.PwdCanLoop` | kernel/commands.c:264-273 | inside a removed directory whose slot is reused for a child of the current one, pwd does not return, and its path grows by at least a character a turn |
| `VfsCommands.PwdLoops` | kernel/commands.c:963-997 | a run of five commands from what vfs_init leaves, after which pwd does not return and overruns its buffers on the way |
| `VfsCommands.PwdLies` | kernel/commands.c:819-852 | a run of three commands from what vfs_init leaves, after which the current directory is called "." and the path pwd prints does not resolve to it |
| `VfsLinked.Vfs.constructor` | fs/vfs.c:169-207 | the pool as vfs_init leaves it: the root, its own parent, with /bin, /etc, /home, /tmp and /etc/motd.txt in their slots |
| `VfsLinked.Vfs.FindNode` | fs/vfs.c:234-246 | the first child with the name, nothing for a file |
| `VfsLinked.Vfs.CreateNode` | fs/vfs.c:219-229 | the lowest free slot becomes a fresh node with all fields and links cleared |
| `VfsLinked.Vfs.AddChild` | fs/vfs.c:251-265 | the child is appended and points back, unless the parent is a file or full |
| `VfsLinked.Vfs.RemoveAt` | fs/vfs.c:280-291 | the child's slot is freed and the later children move down by one |
| `VfsLinked.Vfs.MakeNode` | kernel/commands.c:836-852 | Create of the model, failures included |
| `VfsLinked.Vfs.RemoveNode` | kernel/commands.c:978-995 | Remove of the model, failures included |
| `VfsLinked.Vfs.ChangeDirectory` | kernel/commands.c:527-534 | only a directory becomes current |
| `VfsLinked.Vfs.ResolvePath` | fs/vfs.c:301-344 | the tokenizing loop computes Resolve, which leads to the node named by the normal form of the path (VfsNormal) |
| `VfsLinked.Vfs.PrependName` | kernel/commands.c:266-270 | copy, two concatenations and a copy back put "/" and the name before the path so far |
| `VfsLinked.Vfs.ClimbUp` | kernel/commands.c:264-273 | wherever the current directory is, also if it was removed, climbing the parent links with two 256-byte buffers ends and puts its path together, provided the links have an end |
| `VfsLinked.Vfs.CurrentPath` | kernel/commands.c:36-48 | the path of the current directory, removed or not |
| `VfsLinked.Vfs.Pwd` | kernel/commands.c:250-283 | that path, "/" if it is empty; for a reachable directory the joined names on the way to it |
| `VfsLinked.Vfs.BuildAbsolutePath` | kernel/commands.c:28-59 | the current path, a slash and the relative path |
| `VfsLinked.Vfs.ResolveRelative` | kernel/commands.c:514-519 | a relative path resolves as its absolute form; from a reachable directory it is walked from there |
| `VfsLinked.Vfs.FindTarget` | kernel/commands.c:493-519 | the target of cd in each of its five cases |
| `VfsLinked.Vfs.Cd` | kernel/commands.c:487-535 | cd from its argument: only an existing directory becomes current; VfsNormal.CdThenPwd says which one |
| `VfsLinked.Vfs.ResolveParentAndLeaf` | kernel/commands.c:711-767 | the directory a command works in, and its leaf, cut to the buffers |
| `VfsLinked.Vfs.Make` | kernel/commands.c:819-893 | mkdir and touch from their path argument |
| `VfsLinked.Vfs.Rm` | kernel/commands.c:963-997 | rm from its path argument |
| `PathStrings.SegmentsAreAtPlaces` | kernel/string.c:89-144 | the tokens are the contents of their places, in order |
| `PathStrings.PlacesAreTheMaximalRuns` | kernel/string.c:89-144 | the places are exactly the maximal delimiter-free runs, each once, left to right |
| `PathStrings.SegmentsOfConcat` | kernel/string.c:89-144 | cutting a text at a delimiter cuts its list of tokens |
| `PathStrings.OrderZeroIff` | kernel/string.c:30-36 | the order of two strings is 0 exactly when they are equal |
| `PathStrings.Compare` | kernel/string.c:30-36 | the difference of the first characters that differ, so 0 exactly for equal strings |
| `PathStrings.Copy` | kernel/string.c:42-51 | the buffer then holds the source string |
| `PathStrings.Concat` | kernel/string.c:58-75 | the buffer then holds its old string followed by the source |
| `PathStrings.Tokenizer.Next` | kernel/string.c:89-144 | each call cuts the next token out of the buffer in place and leaves exactly the later tokens for later calls; the last call returns null |
| `Checksum.WordsAt` | kernel/network.c:146-155 | word i is two neighbouring bytes, the first one low; the last byte of an odd number is its own word |
| `Checksum.FoldKeepsResidue` | kernel/network.c:157-159 | the folding loop ends and keeps the sum modulo 65535 |
| `Checksum.StoredChecksumVerifies` | kernel/network.c:144-162 | a checksum stored in a zeroed word makes the recomputed checksum 0, for every sequence of words |
| `Checksum.StoredInBufferVerifies` | kernel/network.c:144-162 | the same for buffers of bytes, of even or odd length, with the checksum stored low byte first in two zeroed bytes |
| `Checksum.PassesIff` | kernel/network.c:144-162 | a buffer passes exactly when its wrapped 32-bit sum is a non-zero multiple of 65535; up to 65537 words the sum does not wrap |
| `Checksum.ChecksumIsTrueIff` | kernel/network.c:144-162 | of all buffers with a 32-bit length the checksum is the true one's complement checksum exactly for those whose words sum to less than 2^32 |
| `Checksum.WrongChecksum` | kernel/network.c:148-151 | 65538 words of 0xFFFF get a wrong checksum |
| `Checksum.NetChecksum` | kernel/network.c:144-162 | the loops compute the complement of the folded 32-bit sum, odd lengths included |
| `Pipe.Ring.constructor` | kernel/ipc.c:42-55 | an open, empty pipe |
| `Pipe.Ring.Write` | kernel/ipc.c:58-72 | as many bytes as fit are appended in order; bytes read followed by bytes buffered are the bytes accepted |
| `Pipe.Ring.Read` | kernel/ipc.c:75-89 | the oldest bytes are taken, in order; the same law is kept |

## Left out

- Console, keyboard, serial, interrupt controller, descriptor tables, exception dumps and drawing: hardware access and output only.
- TLB flushes, control registers, cli and sti: interrupts-off regions are the steps of the model.
- Statistics and names of processes (cpu_ticks, context_switches, process names): they decide nothing.
- Kernel and user stacks as fields of the process table, and the TSS: stacks appear in ForkStack and ForkMachine, in the table only as flags.
- Field setup of process_create_user after the thread is enqueued: folded into the creation step; nothing is claimed about ticks in between.
- Concurrent use of the heap: it is called outside interrupts-off regions; the model is sequential.
- Pointers to stack locals in a forked child: the code moves only the frame chain, ESP and EBP.
- Memory words at addresses that overlap without being equal: the register frames are word-aligned.
- Where a page directory itself lies in memory: its two arrays are modelled as arrays, its two frames only by number.
- File contents (also of /etc/motd.txt), lengths and inode numbers: ramfs reads and writes only copy bytes; write has the same effect on the tree as touch.
- Buffers overrun by names or paths that do not fit: the path routines require that they fit.
- Message queues: the same ring as the pipe, one message per slot.
- Pipes and queues as entries of a static table: one pipe object is modelled.
- Cache, bus, performance counters, single-cycle CPU, slab layer, sockets, SMP, scripts, driver configuration: bookkeeping with easy members only.
- SchedulerWakeup.NoWakeupIsLost: requires that every creation draws a pid not in use, which also keeps pids unique; the exact condition for wakeups alone is SchedulerDeaths.LostIff.
- Vmm.Directory.MapRegion: requires that the free frames below 4 GiB cover the missing tables or that there are none above, because otherwise a table can be put on another one in the middle of the loop (Vmm.SharedTable); Vmm.Directory.MapPage is stated without it.
- Vmm.Directory.IdentityMapRegion: requires the same.
- Vmm.Init: requires the same for the directory and its tables.
- HeapLinked.Heap.Init: requires a region of less than 2^32 - 16 bytes; in a larger one, which starts below address 17 and ends at 4 GiB, the split test of heap.c:68 wraps.
