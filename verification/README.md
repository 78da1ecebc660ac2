# Verified models of the SoC core and its kernel

A Dafny 4.11 project that models the two halves of the repository and proves what they promise:

- the five-stage RV32I pipeline in `hw/core`: the register banks as one clocked machine, the hazard
  unit, the trap logic, and the combinational units from decoder to CSR file;
- the RT-Thread Nano kernel in `os/rt-thread-nano`: the three allocators (`mem.c`, `memheap.c`, and
  `slab.c` with its page allocator), mailbox, message queue, event and mutex of `ipc.c`, the timer skip
  list, and the ready table with its bitmaps.

`dafny verify dfyconfig.toml` checks everything.

## How it is built

Code that changes things step by step is a class whose methods change the same fields in the same order,
with loops where the source has loops: `Datapath`, `Heap`, `Pool`, `PageHeap`, `SlabHeap`, `MessageBox`,
`Queue`, `EventObject`, `MutexObject`, `TimerList`, `Scheduler`. Each method is proved equal to a
specification function on an abstract state; the theorems about all runs and all interleavings are lemmas
about those functions. Combinational hardware and arithmetic are functions.

| part | specification | theorems | object |
|---|---|---|---|
| pipeline | `Pipeline` | `PipelineProofs`, `IsaProofs` | `DatapathObject` |
| decoder to CSR file | `Core` | `CoreProofs`, `CoreTraps`, `CoreRuns`, `Arithmetic` | |
| `mem.c` | `SmallHeap` | `SmallHeapProofs` | `SmallHeapObject` |
| `memheap.c` | `MemHeap` | `MemHeap` | `MemHeapObject` |
| `slab.c` | `Pages`, `Zones`, `Slab` | `Pages`, `Zones`, `SlabProofs` | `PageHeapObject`, `SlabObject` |
| `ipc.c` | `IpcList`, `Mailbox`, `MessageQueue`, `Events`, `Mutex` | the same | `MailboxObject`, `MessageQueueObject`, `Events`, `Mutex` |
| `timer.c` | `Timers`, `TimerCheck` | the same | `TimerObject` |
| `scheduler.c`, `thread.c` | `ReadyQueue`, `ThreadSections` | the same, `ReadyLists` | `ReadyQueue` |
| lists | `Lists`, `Rings` | the same | |

The pipeline theorems hold for every decoder, execution unit and system state with harmless bubbles; `Core`
supplies the real ones, `CoreProofs.CoreIsWellFormed` shows that they qualify. What SystemVerilog leaves
unknown is a parameter, so every theorem holds whatever those bits are. An interrupt-disabled section of the
kernel is one atomic event; calls that block, message-queue calls around their copy, and the thread calls that test
outside the lock are several events, with any events of other threads between them. That disabling interrupts
keeps them off is an assumption of the kernel theorems, which `CoreRuns.InterruptAfterDisabling` qualifies for this
core.

## Where the code does something else than one would expect

These follow the code; the members named prove the exact condition, or show an input or a run.

- The saved program counter is that of the oldest uncommitted instruction only if that is still being
  fetched or has an opcode that retires (`PipelineProofs.SavedPCIsPrecise`, `CoreRuns.InterruptSkipsFence`).
- A return that coincides with an enabled interrupt leaves interrupts on and saves no address
  (`CoreProofs.TrapUpdate`, `CoreRuns.InterruptMeetsReturn`), and the enables and the targets of traps are sampled
  before a CSR write lands (`CoreTraps.StaysEnabled`, `CoreTraps.TrapTargetIsCurrent`): an interrupt can be taken
  although the instruction that disables interrupts commits in that cycle, and the return from it enables them
  again (`CoreRuns.InterruptAfterDisabling`). `CoreTraps.CoreTrapIsExact` puts these together.
- Instructions of any opcode can write a CSR (`CoreTraps.CsrWritesAreUngated`, `CoreProofs.LuiOverwritesMepc`).
- Shifts use all 32 bits of the amount, and JALR keeps bit 0 of its target (`Arithmetic.ShiftsMeetTheIsa`,
  `Arithmetic.JumpTargetMeetsTheIsa`).
- `rt_malloc` of `mem.c` passes over a last block that fits exactly (`SmallHeapProofs.SearchMissesOnlyExactLastFit`);
  its `rt_realloc` can shrink an allocation below the minimum, which becomes a free block below the minimum when
  it is released (`SmallHeapProofs.ShrinkKeepsMinimum`, `SmallHeapProofs.ShortFreeBlock`); the tail it cuts off is
  always larger. Requests of the last three bytes below 2^32 round to zero (`SmallHeapObject.RequestsThatWrap`).
- `rt_memheap_alloc` refuses a request for all that is available (`MemHeap.AllocIsExact`), and rounds those largest
  requests to the smallest one (`MemHeap.RequestsThatWrap`); just below them, the guard of a growing
  `rt_memheap_realloc` overflows, and the call destroys the header of its block (`MemHeap.ReallocIsSafe`,
  `MemHeap.ReallocCanBreakThePool`).
- `rt_thread_resume`, `rt_thread_detach` and `rt_thread_delete` test a thread outside the lock and change it in two
  sections, so that made with interrupts enabled they can lose a ready thread or queue a closed one when another
  call or a timeout comes between (`ReadyLists.RunKeepsRight`, `ReadyLists.RunKeepsOrder`,
  `ThreadSections.ResumeCanBeOvertaken`, `ThreadSections.CloseCanLeaveTheThreadQueued`).
- A timed-out waiter can leave the mutex owner's priority raised (`Mutex.InheritanceIsExact`,
  `Mutex.TimeoutLeavesBoost`), and the FIFO flag can invert priorities (`Mutex.FifoEventIsExact`,
  `Mutex.FifoInvertsPriority`).
- A receive on an event with neither AND nor OR hides the waiters behind it (`Events.SendStopsAtInvalid`,
  `Events.InvalidOptionsHideOthers`).
- A timeout function that turns its own periodic timer into a one-shot one strands it
  (`TimerCheck.OnlyOwnSwitchStrands`, `TimerCheck.StrandedFromTheStart`).

## Model

| member | source | states |
|---|---|---|
| PipelineProofs.Refines | hw/core/datapath.sv:72-447 | At every cycle of every run, with the timer line high in arbitrary cycles, the five-stage machine is the one-instruction-at-a-time machine plus correctly fetched instructions in flight, for any decoder, execution unit and system state in which bubbles are harmless |
| PipelineProofs.StepRefines | hw/core/datapath.sv:72-447 | The step of that simulation: any in-flight mix of stall, redirect, trap and bubbles moves the reference machine by one committed instruction, one trap entry or return, both, or nothing |
| PipelineProofs.RegistersStep | hw/core/datapath.sv:399-436 | The register file with the W bank pending is, after every commit, the register file of the reference machine |
| PipelineProofs.ForwardingIsExact | hw/core/hazardUnit.sv:22-37 | The operand chosen by the forwarding priority M over W over register file is the value the reference machine reads, for both operands of every valid instruction in E |
| PipelineProofs.ExecutesInOrder | hw/core/datapath.sv:315-354 | Every valid instruction in E is the next one on the correct path, computes what the reference machine computes, and hands that to M unless a trap clears M |
| PipelineProofs.StallExcludesRedirect | hw/core/hazardUnit.sv:39-51 | A load-use stall never coincides with a redirect, and is never followed by another stall |
| PipelineProofs.SavedPCIsPrecise | hw/core/datapath.sv:513-520 | The saved program counter is the address of the oldest uncommitted instruction if and only if that instruction is still in F or has an opcode that retires |
| PipelineProofs.CycleIsPrecise | hw/core/datapath.sv:440-447 | A cycle, with stalls and taken branches in any combination, takes the trap, and leads to the state, of a machine that decides whether an interrupt is enabled, where it goes and what it saves after the older instructions, if and only if the trap is clean: an interrupt is still enabled after the instruction in M, finds no return in E, the oldest uncommitted instruction in F or retiring, and a current target |
| PipelineProofs.TrapsArePrecise | hw/core/datapath.sv:315-334 | In every run, with the timer line high in arbitrary cycles, the pipeline takes after every cycle the traps, and has the state, of that machine, which takes interrupts between two instructions (section 3.1.14 of the RISC-V Privileged Architecture, 20211203) and may let a pending one wait, if and only if every trap of the run is clean |
| PipelineProofs.SlotsPerCycle | hw/core/datapath.sv:416-447 | In every cycle, commits, in-flight instructions, one slot per stall, two per redirect and what a trap discards balance exactly |
| PipelineProofs.EveryCycleIsAccountedFor | hw/core/datapath.sv:72-83 | Over every run, cycles = commits + in flight + stalls + 2 x redirects + discarded by traps, stalls and redirects together do not exceed commits (plus one), and progress is at least one commit in three cycles |
| IsaProofs.InstructionIsIsaStep | hw/core/datapath.sv:356-436 | For instructions that touch no CSR, one step of the reference machine is one step on program counter, registers and memory alone, and counts itself if it retires |
| IsaProofs.ArchRunsTheProgram | hw/core/datapath.sv:438-447 | With the timer line low the reference machine has run exactly as many instructions of the program as have committed |
| IsaProofs.PlainProgramsRun | hw/core/datapath.sv:72-447 | So the pipeline has, at every cycle and not only when drained, the registers and memory of the program after that many instructions |
| CoreProofs.BubblesAreHarmless | hw/core/CLINT.sv:67-106 | Cleared control signals change neither registers, memory, counters nor CSRs of the real units: the assumption the pipeline proof makes about them |
| CoreProofs.CoreIsWellFormed | hw/core/controlUnit.sv:29-238 | The real decoder, execution unit, memory stage and CSR file satisfy all assumptions of the pipeline theorems |
| CoreProofs.OrdinaryInstructionIsPlain | hw/core/controlUnit.sv:201-231 | An instruction other than SYSTEM whose immediate does not spell a CSR write affects system state only through its store and the retirement count |
| CoreProofs.CoreRunsTheProgram | hw/core/CSRFile.sv:115-120 | The refinement and the exact count for the real core: after any number of cycles with the timer line low, registers, memory and minstret are those of the program, each retiring instruction counted once |
| CoreProofs.TrapUpdate | hw/core/CLINT.sv:86-107 | An interrupt clears MIE, sets mcause to machine timer and saves the address that the vectoring cycle computed, to which a later return goes; one coinciding with a return instead sets MIE and leaves mepc and mcause |
| CoreTraps.TrapTargetIsCurrent | hw/core/CLINT.sv:111-129 | Vector and return address are sampled before the CSR write in M lands: a trap goes where the CSRs say after that instruction if and only if it does not address the register in question with data that differ in the bits that can be written |
| CoreTraps.StaysEnabled | hw/core/CLINT.sv:111-119 | The enables are sampled before that write too: an interrupt that is taken is still enabled after the instruction in M if and only if that does not write mstatus with bit 3 clear, or mie with bit 7 clear |
| CoreTraps.CoreTrapIsExact | hw/core/datapath.sv:513-545 | In the core a cycle takes its trap precisely if and only if what can be seen in it is so: at a pending interrupt M neither disables it nor changes mtvec, E holds no mret, and the oldest instruction is in F or retires; at a return M does not change mepc |
| CoreTraps.CoreTrapsArePrecise | hw/core/datapath.sv:315-334 | Over runs of the core: every trap is precise if and only if every cycle is so |
| CoreTraps.TameProgramsArePrecise | hw/core/CLINT.sv:86-130 | So the interrupts of a run are precise, whenever they come, if all instructions of the program retire, none selects mtvec or mepc for writing, and no pending interrupt meets an mret in E or an instruction in M that disables it |
| CoreTraps.SteadyProgramsAreUndisturbed | hw/core/CLINT.sv:67-81 | The latter holds in every run of a program without mret that writes mstatus and mie only by setting bits |
| CoreTraps.CsrWritesAreUngated | hw/core/controlUnit.sv:201-210 | For every instruction of every opcode: it leaves the CSRs alone, apart from counting, if and only if its bits 14:12 ask for no write, or the address its immediate spells is no CSR that can be written, or the value is the one the register has, or counts to, anyway |
| CoreRuns.InterruptSkipsFence | hw/core/datapath.sv:513-520 | A run from reset of a program that enables the timer interrupt: one that finds a FENCE in E saves the address behind it |
| CoreRuns.InterruptMeetsReturn | hw/core/CLINT.sv:86-91 | The same with mret in E: the machine goes to the vector with interrupts on, and no address is saved |
| CoreRuns.InterruptIsTakenPrecisely | hw/core/datapath.sv:440-447 | The same with an ordinary instruction: the interrupt is taken, and every trap of every run of the program is precise |
| CoreRuns.InterruptAfterDisabling | hw/core/CLINT.sv:111-119 | The same with csrrci mstatus, 8, by which the kernel disables interrupts: one cycle later an interrupt is taken in the cycle in which it commits, so that it is not enabled after the older instructions, the run is not precise, and a return from it turns interrupts on again |
| CoreProofs.LuiOverwritesMepc | hw/core/controlUnit.sv:202-210 | An instance, for every state of registers and CSRs: a LUI with bits 14:12 = 001 and an immediate spelling mepc overwrites mepc with that immediate |
| Arithmetic.AdderIsExact | hw/core/ALU.sv:16-22 | Read in binary, sum and carry together are the exact sum of the operands, or their difference plus 2^32 when subtracting |
| Arithmetic.FlagsDecideComparisons | hw/core/arithmeticDec.sv:19-28 | From the flags of a subtraction the decoder gets all six comparisons right, of the words as unsigned and as two's complement numbers |
| Arithmetic.BranchesMeetTheIsa | hw/core/stages/executeCL.sv:71-73 | Every RV32I branch redirects exactly when its condition holds of the operands: decoder, ALU, flags and selector together (section 2.5 of the RISC-V Unprivileged Architecture) |
| Arithmetic.SetLessThanMeetsTheIsa | hw/core/stages/executeCL.sv:59-65 | SLT, SLTU, SLTI and SLTIU write one or zero by the signed or unsigned order of the operands |
| Arithmetic.SumsMeetTheIsa | hw/core/controlUnit.sv:122-135 | ADD, ADDI and SUB write the sum or difference modulo 2^32 |
| Arithmetic.ShiftsMeetTheIsa | hw/core/ALU.sv:31-33 | SLL, SRL and SRA, through decoder and ALU, give what RV32I asks for if and only if the amount is below 32, or the operand bits that the shift by its low five bits keeps are all equal to the bit shifted in |
| Arithmetic.ImmediateShiftsMeetTheIsa | hw/core/controlUnit.sv:165-174 | Immediate shifts never reach that case: their amount is the five-bit field, below 32 |
| Arithmetic.JumpTargetMeetsTheIsa | hw/core/stages/executeCL.sv:72-73 | The target of JALR is the one RV32I asks for, which has bit 0 cleared, if and only if base and offset are both even or both odd |
| DatapathObject.Datapath.constructor | hw/core/datapath.sv:440-442 | Reset state of all banks, registers and program counter |
| DatapathObject.Datapath.WriteRegisters | hw/core/datapath.sv:474-485 | The half-cycle register write: exactly the W bank reaches the array, before the reads of the cycle |
| DatapathObject.Datapath.ExecuteStage | hw/core/datapath.sv:290-313 | The muxes as the datapath wires them give the forwarded operands and the execute result of the specification |
| DatapathObject.Datapath.HazardsAndTraps | hw/core/datapath.sv:513-555 | Stall, interrupt, return and saved address of this cycle are those of the specification |
| DatapathObject.Datapath.Clock | hw/core/datapath.sv:72-447 | One clock of the object, updating its registers in place, is one step of the specification machine |
| DatapathObject.Datapath.Simulate | hw/core/datapath.sv:72-447 | Clocking through any trace of the timer line keeps the object in simulation with the reference machine |
| SmallHeapProofs.SearchMissesOnlyExactLastFit | os/rt-thread-nano/src/mem.c:305-310 | The search accepts a free block that fits if and only if it is not the last block fitting exactly: the one case in which rt_malloc returns NULL although a block fits |
| SmallHeapProofs.LiveAreDisjoint | os/rt-thread-nano/src/mem.c:272-410 | Live payloads are in the heap, do not overlap, and keep a header's distance from each other, in every layout the operations reach |
| SmallHeapProofs.LiveIsUnique | os/rt-thread-nano/src/mem.c:549-612 | An address names at most one live allocation |
| SmallHeapProofs.LiveAfterTake | os/rt-thread-nano/src/mem.c:311-372 | Taking a block adds exactly one live allocation, at least as long as asked, and changes no other |
| SmallHeapProofs.LiveAfterRelease | os/rt-thread-nano/src/mem.c:549-612 | Releasing removes exactly the allocation at that address, whatever merging follows |
| SmallHeapProofs.LiveAfterShrink | os/rt-thread-nano/src/mem.c:470-503 | Shrinking in place replaces exactly that allocation by one of the new length, whatever merging follows |
| SmallHeapProofs.ReleaseCoalesces | os/rt-thread-nano/src/mem.c:156-194 | After two-sided merging the blocks tile the heap and no two free ones are adjacent |
| SmallHeapProofs.ShrinkCoalesces | os/rt-thread-nano/src/mem.c:470-503 | The same after an in-place shrink under the guard of rt_realloc |
| SmallHeapProofs.TakeKeepsMinimum | os/rt-thread-nano/src/mem.c:298-370 | rt_malloc leaves no payload, used or free, below the minimum |
| SmallHeapProofs.ReleaseKeepsMinimum | os/rt-thread-nano/src/mem.c:549-612 | Nor does rt_free |
| SmallHeapProofs.ShrinkKeepsMinimum | os/rt-thread-nano/src/mem.c:470-498 | A shrinking rt_realloc cuts off a tail that is always larger than the minimum, and keeps all payloads at least the minimum if and only if the new size is |
| SmallHeapProofs.ShortFreeBlock | os/rt-thread-nano/src/mem.c:470-498 | Five calls on a fresh heap of 37 words, a shrink to one word among them, that leave a free block of one word |
| SmallHeapProofs.UsedWordsOfRelease | os/rt-thread-nano/src/mem.c:605-610 | Releasing takes header and payload of that block off the total of used words, whatever merging follows |
| SmallHeapProofs.FirstFreeOfRelease | os/rt-thread-nano/src/mem.c:599-603 | Comparing the freed block with lfree keeps lfree the lowest free block |
| SmallHeapProofs.AllFreeIsInitial | os/rt-thread-nano/src/mem.c:156-194 | When nothing is live the layout is the single free block of a fresh heap and no word counts as used |
| SmallHeapProofs.ShrinkReallocates | os/rt-thread-nano/src/mem.c:470-503 | The in-place branch meets the rt_realloc promise: prefix kept, other live payloads kept |
| SmallHeapProofs.MoveReallocates | os/rt-thread-nano/src/mem.c:506-514 | So does the branch that allocates, copies and frees |
| SmallHeap.SplitRepresents | os/rt-thread-nano/src/mem.c:329-348 | Writing the header of a split represents the split layout: all next offsets, and all prev offsets except that of the end marker |
| SmallHeap.RemoveRepresents | os/rt-thread-nano/src/mem.c:156-194 | So does unlinking a header, including the prev of the block behind |
| SmallHeap.FlagRepresents | os/rt-thread-nano/src/mem.c:364 | So does changing the used word |
| SmallHeapObject.Heap.constructor | os/rt-thread-nano/src/mem.c:204-257 | A fresh heap: one free block and the end marker, nothing used |
| SmallHeapObject.Heap.Search | os/rt-thread-nano/src/mem.c:305-310 | The loop finds the first acceptable block, or there is none |
| SmallHeapObject.Heap.Malloc | os/rt-thread-nano/src/mem.c:272-410 | NULL if and only if the request is zero, larger than the heap, or no block is acceptable; otherwise the first fit, split if there is room; payloads, statistics and all invariants kept |
| SmallHeapObject.Heap.SplitBlock | os/rt-thread-nano/src/mem.c:329-348 | Cuts a block in two in the buffer without touching a payload |
| SmallHeapObject.Heap.Occupy | os/rt-thread-nano/src/mem.c:314-370 | Takes the block and adds header and payload, split or whole, to used_mem and its maximum |
| SmallHeapObject.Heap.AdvanceLfree | os/rt-thread-nano/src/mem.c:380-387 | The loop moves lfree to the lowest free block |
| SmallHeapObject.Heap.MergeForward | os/rt-thread-nano/src/mem.c:167-180 | Absorbs the next block if it is free, moving lfree back if it pointed there |
| SmallHeapObject.Heap.MergeBackward | os/rt-thread-nano/src/mem.c:182-193 | Is absorbed by the previous block if that is free |
| SmallHeapObject.Heap.PlugHoles | os/rt-thread-nano/src/mem.c:156-194 | Both merges, with lfree still the lowest free block and payloads untouched |
| SmallHeapObject.Heap.Free | os/rt-thread-nano/src/mem.c:549-612 | Outside the heap nothing happens; otherwise exactly the block of that address is released and merged, and all invariants hold |
| SmallHeapObject.Heap.Realloc | os/rt-thread-nano/src/mem.c:420-515 | Size zero frees; too large changes nothing; a null pointer allocates, one from elsewhere comes back; otherwise the allocation stays or moves with its first min(old, new) words and no other live payload changes, failing if and only if it has to move and no block is acceptable; max_mem counts both blocks of a move, and all invariants hold |
| SmallHeapObject.Heap.CutTail | os/rt-thread-nano/src/mem.c:470-496 | The shrinking cut before merging, with used_mem and lfree |
| SmallHeapObject.Heap.ShrinkBlock | os/rt-thread-nano/src/mem.c:470-503 | The whole in-place branch |
| SmallHeapObject.Heap.CopyWords | os/rt-thread-nano/src/mem.c:510 | The copy writes the common prefix and no other live payload |
| SmallHeapObject.Heap.MoveBlock | os/rt-thread-nano/src/mem.c:506-514 | The moving branch, or NULL with nothing changed |
| SmallHeapObject.RequestsThatWrap | os/rt-thread-nano/src/mem.c:288-300 | Rounding up on 32 bits honours a request if and only if it is at most 2^32 - 4; a larger one becomes the smallest block in rt_malloc, and a free in rt_realloc |
| MemHeap.CallIsExact | os/rt-thread-nano/src/memheap.c:136-591 | A call, of a live block where it takes one, keeps: blocks tile the pool in address order, the free list holds exactly the unused blocks, no two of them adjacent, every payload is at least 12, available_size is the sum of free payloads; if and only if it is no realloc that overflows with a free block behind |
| MemHeap.RunIsExact | os/rt-thread-nano/src/memheap.c:136-591 | All hold in every state of a run if and only if no call of it is such a realloc |
| MemHeap.MaximumIsExact | os/rt-thread-nano/src/memheap.c:186-240 | After every such run max_used_size is the maximum of pool_size - available_size over all states the run passed, including the middle of a moving realloc, where the lock is free |
| MemHeap.RunKeepsMaximum | os/rt-thread-nano/src/memheap.c:186-240 | The induction over runs from any state |
| MemHeap.CallKeepsMaximum | os/rt-thread-nano/src/memheap.c:281-489 | What each call does to the maximum |
| MemHeap.InitIsInv | os/rt-thread-nano/src/memheap.c:50-121 | And hold initially |
| MemHeap.TakeBlockKeepsInv | os/rt-thread-nano/src/memheap.c:180-256 | Allocation keeps them, and max_used_size becomes the running maximum of pool_size - available_size |
| MemHeap.FreeBlockKeepsInv | os/rt-thread-nano/src/memheap.c:531-587 | Freeing with two-sided merging keeps them and the maximum, and makes more available |
| MemHeap.ExpandKeepsInv | os/rt-thread-nano/src/memheap.c:331-400 | Growing into a free neighbour keeps them and the running maximum |
| MemHeap.ShrinkKeepsInv | os/rt-thread-nano/src/memheap.c:429-482 | Shrinking keeps them and the maximum, and makes more available |
| MemHeap.LiveBlocksAreDisjoint | os/rt-thread-nano/src/memheap.c:136-279 | Live blocks never overlap each other or a header |
| MemHeap.AllocIsExact | os/rt-thread-nano/src/memheap.c:136-279 | An allocation fails if and only if it asks for all that is available, or more, or no free block is large enough; a failure changes nothing |
| MemHeap.AllocGivesOne | os/rt-thread-nano/src/memheap.c:180-269 | A successful one adds exactly one live block, long enough, at an address that was not live |
| MemHeap.FreeTakesOne | os/rt-thread-nano/src/memheap.c:491-591 | A free removes exactly the block given |
| MemHeap.ReallocKeepsOthers | os/rt-thread-nano/src/memheap.c:281-489 | A realloc to a safe size keeps the block or moves it to an address that was not live, long enough; the old address is then no longer live, nothing else becomes live or stops being so; failure changes nothing |
| MemHeap.GrowsAsMeant | os/rt-thread-nano/src/memheap.c:347-393 | Without overflow the 32-bit guard holds if and only if the free block behind has room for what is missing and a smallest block, and the branch moves the boundary |
| MemHeap.GrowingOverflows | os/rt-thread-nano/src/memheap.c:347-384 | With overflow the guard holds whenever the block behind is free, and the new header is written into the block's own header |
| MemHeap.ReallocIsSafe | os/rt-thread-nano/src/memheap.c:312-413 | So a realloc keeps the pool in order if and only if the block behind is in use or the size does not overflow |
| MemHeap.SizesThatOverflow | os/rt-thread-nano/src/memheap.c:297-300 | Those are the requests above 2^32 - 16 and up to 2^32 - 4 bytes |
| MemHeap.ReallocCanBreakThePool | os/rt-thread-nano/src/memheap.c:347-384 | A run: a first allocation in a pool of a thousand bytes, grown to 2^32 - 8 |
| MemHeap.ReleasingAllRestoresThePool | os/rt-thread-nano/src/memheap.c:491-591 | Once nothing is live, after whatever calls, the pool is the one free block it was at the start, all of it available |
| MemHeap.RequestsThatWrap | os/rt-thread-nano/src/memheap.c:145-148 | Rounding up on 32 bits reaches a request if and only if it is at most 2^32 - 4; a larger one is treated as the smallest |
| MemHeapObject.Pool.constructor | os/rt-thread-nano/src/memheap.c:50-121 | Initial rings of blocks and free items |
| MemHeapObject.Pool.Search | os/rt-thread-nano/src/memheap.c:167-178 | The loop over the circular free list stops at the first item that is large enough, or at the list header |
| MemHeapObject.Pool.SplitItem | os/rt-thread-nano/src/memheap.c:190-211 | Cuts an item in two in the doubly linked block ring |
| MemHeapObject.Pool.MergeItem | os/rt-thread-nano/src/memheap.c:545-547 | Joins an item to the one before it in that ring |
| MemHeapObject.Pool.PushFree | os/rt-thread-nano/src/memheap.c:576-582 | Puts an item at the head of the doubly linked free ring |
| MemHeapObject.Pool.DropFree | os/rt-thread-nano/src/memheap.c:249-252 | Takes an item out of it |
| MemHeapObject.Pool.Alloc | os/rt-thread-nano/src/memheap.c:136-279 | Headers, both rings and statistics after an allocation are those of the specification |
| MemHeapObject.Pool.FreeLeft | os/rt-thread-nano/src/memheap.c:531-553 | The merge with the item before, or the decision to list the item |
| MemHeapObject.Pool.FreeRight | os/rt-thread-nano/src/memheap.c:555-587 | The merge with the item behind |
| MemHeapObject.Pool.FreeItem | os/rt-thread-nano/src/memheap.c:531-587 | The whole of a free: merging on both sides and listing |
| MemHeapObject.Pool.Free | os/rt-thread-nano/src/memheap.c:491-591 | The same, from a live address |
| MemHeapObject.Pool.ExpandItem | os/rt-thread-nano/src/memheap.c:331-399 | Growing in place, with the rest of the neighbour relisted |
| MemHeapObject.Pool.ShrinkItem | os/rt-thread-nano/src/memheap.c:429-482 | Shrinking in place, the tail joining a free neighbour |
| MemHeapObject.Pool.GuardHolds | os/rt-thread-nano/src/memheap.c:347 | The guard of the growing branch in 32-bit arithmetic |
| MemHeapObject.Pool.Realloc | os/rt-thread-nano/src/memheap.c:281-489 | All branches of a reallocation, unless the guard overflows with a free block behind |
| IpcList.ListSuspend | os/rt-thread-nano/src/ipc.c:83-129 | The scan of the suspend list puts the thread at the end, or with the priority flag behind the last thread at least as urgent |
| IpcList.InsertKeepsSorted | os/rt-thread-nano/src/ipc.c:97-121 | A priority list stays sorted, and a new thread goes behind all equally urgent ones and before all others |
| IpcList.SuspendKeeps | os/rt-thread-nano/src/ipc.c:83-129 | Suspending when nothing is available loses no wakeup and nobody |
| IpcList.WakeKeeps | os/rt-thread-nano/src/ipc.c:140-153 | Waking the first thread per new item loses no wakeup |
| IpcList.LeaveKeeps | os/rt-thread-nano/src/ipc.c:140-153 | A thread that takes an item pays for its own wakeup |
| IpcList.ExpireKeeps | os/rt-thread-nano/src/thread.c:796-818 | A timeout of a suspended thread loses no wakeup of the others |
| Mailbox.MailboxIsABoundedQueue | os/rt-thread-nano/src/ipc.c:1476-1759 | Under every interleaving of the interrupt-disabled sections: accepted = delivered + stored in order, never more than the size; if a receiver is suspended, entry is at most the number of woken receivers yet to recheck, and dually for senders; without such threads, receivers wait only on empty and senders only on full |
| Mailbox.EventKeepsInv | os/rt-thread-nano/src/ipc.c:1476-1802 | Every event of any thread, including stealing by a thread that was never suspended, timeout and reset, keeps that invariant |
| Mailbox.RunKeepsInv | os/rt-thread-nano/src/ipc.c:1476-1802 | So does every run |
| Mailbox.SendSectionKeeps | os/rt-thread-nano/src/ipc.c:1495-1604 | A send's section keeps it, whether it fails, suspends or enqueues |
| Mailbox.RecvSectionKeeps | os/rt-thread-nano/src/ipc.c:1649-1759 | A receive's section keeps it, likewise |
| Mailbox.SuspendedReceiverIsServed | os/rt-thread-nano/src/ipc.c:1631-1759 | While a receiver is suspended on a mailbox with mail, a woken receiver can run and gets the oldest mail, however little of its time is left |
| Mailbox.SuspendedSenderIsServed | os/rt-thread-nano/src/ipc.c:1476-1604 | While a sender is suspended on a mailbox with room, a woken sender can run and stores its mail |
| Mailbox.EventKeepsOrdered | os/rt-thread-nano/src/ipc.c:83-129 | With the priority flag the lists stay sorted, so the thread woken next is the most urgent |
| MailboxObject.MessageBox.constructor | os/rt-thread-nano/src/ipc.c:1332-1360 | An empty circular buffer |
| MailboxObject.MessageBox.SendSection | os/rt-thread-nano/src/ipc.c:1495-1604 | in_offset, entry and the pool after the section stand for the specification queue: in_offset = (out_offset + entry) mod size throughout |
| MailboxObject.MessageBox.RecvSection | os/rt-thread-nano/src/ipc.c:1649-1759 | The same for out_offset |
| MailboxObject.MessageBox.Resume | os/rt-thread-nano/src/ipc.c:1549-1566 | A woken thread works out its remaining time, and the loop goes round |
| MailboxObject.MessageBox.Control | os/rt-thread-nano/src/ipc.c:1770-1802 | A reset fails all waiters and empties the buffer |
| MessageQueue.MessageQueueIsSafe | os/rt-thread-nano/src/ipc.c:2014-2499 | After every interleaving of the split sections: free list, queue and nodes held by in-flight calls partition the pool; entry = queue length; no receiver is suspended while messages outnumber woken receivers, no sender while free nodes outnumber woken senders |
| MessageQueue.EventKeepsPartition | os/rt-thread-nano/src/ipc.c:2014-2499 | No event, not the copying outside the lock nor a reset between two sections, loses a node or gives it to two |
| MessageQueue.EventKeepsContents | os/rt-thread-nano/src/ipc.c:2124-2127 | Every linked or filled node carries a message of admissible length |
| MessageQueue.EventSettles | os/rt-thread-nano/src/ipc.c:2014-2439 | No event loses a wakeup |
| MessageQueue.EventKeepsInv | os/rt-thread-nano/src/ipc.c:2014-2499 | All of these together |
| MessageQueue.RunKeepsInv | os/rt-thread-nano/src/ipc.c:2014-2499 | And over every run |
| MessageQueue.InitIsInv | os/rt-thread-nano/src/ipc.c:1824-1874 | And initially |
| MessageQueue.LinkingAdds | os/rt-thread-nano/src/ipc.c:2129-2148 | Linking appends the node's message, or prepends it if urgent, in the order in which threads reach this section |
| MessageQueue.TakingRemovesTheOldest | os/rt-thread-nano/src/ipc.c:2391-2407 | A receive removes exactly the first message, and holds its node |
| MessageQueue.OtherEventsKeepMessages | os/rt-thread-nano/src/ipc.c:2014-2439 | No other event but a reset changes the stored messages; copying does not |
| MessageQueue.OthersLeaveHeldCells | os/rt-thread-nano/src/ipc.c:2118-2130 | A node in a thread's hands is left alone by every event of every other thread |
| MessageQueue.HeldCellSurvives | os/rt-thread-nano/src/ipc.c:2118-2130 | So over every run of others |
| MessageQueue.ReceiverGetsTheOldest | os/rt-thread-nano/src/ipc.c:2391-2416 | A receiver copies out the message that was first when it entered, whatever others do between its sections |
| MessageQueue.SenderLinksItsMessage | os/rt-thread-nano/src/ipc.c:2118-2148 | What a sender links is the message of its call, whatever others do between its three sections |
| MessageQueueObject.Queue.constructor | os/rt-thread-nano/src/ipc.c:1824-1874 | The loop threads all nodes on the free list |
| MessageQueueObject.Queue.TakeFreeNode | os/rt-thread-nano/src/ipc.c:2041-2122 | First section of a send: loop test, suspension or taking a free node |
| MessageQueueObject.Queue.TakeFreeNodeUrgently | os/rt-thread-nano/src/ipc.c:2217-2234 | First section of an urgent send, which never waits |
| MessageQueueObject.Queue.Resume | os/rt-thread-nano/src/ipc.c:2098-2115 | A woken thread works out its remaining time and retries |
| MessageQueueObject.Queue.FillNode | os/rt-thread-nano/src/ipc.c:2124-2127 | The copy into the held node |
| MessageQueueObject.Queue.LinkNode | os/rt-thread-nano/src/ipc.c:2129-2171 | Tail, head and entry after linking: tail is the last queued node, or both ends are NULL |
| MessageQueueObject.Queue.TakeHeadNode | os/rt-thread-nano/src/ipc.c:2314-2407 | First section of a receive: loop test, suspension or unlinking the head |
| MessageQueueObject.Queue.EmptyNode | os/rt-thread-nano/src/ipc.c:2409-2410 | The copy out of the held node |
| MessageQueueObject.Queue.ReleaseNode | os/rt-thread-nano/src/ipc.c:2412-2438 | The node returns to the free list, and the first suspended sender is woken |
| MessageQueueObject.Queue.Control | os/rt-thread-nano/src/ipc.c:2451-2499 | A reset fails all waiters and returns exactly the queued nodes, leaving held ones |
| Events.ServeLeavesQuiet | os/rt-thread-nano/src/ipc.c:1079-1133 | After the send loop no suspended thread's condition is satisfied by the final set, although later waiters cleared bits after earlier ones were looked at |
| Events.GrantsAreProper | os/rt-thread-nano/src/ipc.c:1086-1131 | A woken OR waiter receives a nonempty subset of its mask, a woken AND waiter its whole mask, always of bits then in the set |
| Events.ServeConsumes | os/rt-thread-nano/src/ipc.c:1122-1124 | Exactly the bits taken with the clear option leave the set |
| Events.NoBitIsTakenTwice | os/rt-thread-nano/src/ipc.c:1083-1132 | No bit taken with the clear option reaches a thread woken later by the same send |
| Events.ServeKeepsEveryone | os/rt-thread-nano/src/ipc.c:1081-1132 | Every waiter is still waiting or was woken once |
| Events.EventKeepsInv | os/rt-thread-nano/src/ipc.c:1054-1316 | Between critical sections no suspended waiter is satisfied, after every send, receive, timeout and reset |
| Events.NobodyIsMissed | os/rt-thread-nano/src/ipc.c:1054-1316 | So over every run |
| Events.ReceivingAtOnceIsBeingServed | os/rt-thread-nano/src/ipc.c:1189-1214 | A receive that need not wait gets what a send would have given it as the only waiter |
| Events.SendStopsAtInvalid | os/rt-thread-nano/src/ipc.c:1108-1114 | For every list: a waiter without AND or OR, which the source excludes only by an assertion, ends the send, the waiters in front served as ever and those behind not looked at |
| Events.InvalidOptionsHideOthers | os/rt-thread-nano/src/ipc.c:1108-1114 | So after it nobody is left suspended whom the set satisfies if and only if what the waiters in front leave of the set satisfies nobody behind |
| Events.EventObject.constructor | os/rt-thread-nano/src/ipc.c:944-962 | An empty set without waiters |
| Events.EventObject.Send | os/rt-thread-nano/src/ipc.c:1054-1143 | The loop with a moving cursor and in-place removal is the specification |
| Events.EventObject.Recv | os/rt-thread-nano/src/ipc.c:1158-1277 | Immediate receipt, failure or suspension, as specified |
| Mutex.NoPriorityInversion | os/rt-thread-nano/src/ipc.c:658-912 | In every reachable state of a priority-flag mutex: value = 1 iff no owner iff hold = 0; the owner is no less urgent than any waiter; and everybody else, in particular whoever has released last, is at its own priority |
| Mutex.EventKeepsInv | os/rt-thread-nano/src/ipc.c:658-912 | Take, nested take, wait, timeout, nested and last release keep this |
| Mutex.RunKeepsInv | os/rt-thread-nano/src/ipc.c:658-912 | So over every run |
| Mutex.SuspendedKeepsInv | os/rt-thread-nano/src/ipc.c:736-752 | Waiting keeps it: the owner inherits the waiter's priority if that is more urgent |
| Mutex.PassedOnKeepsInv | os/rt-thread-nano/src/ipc.c:843-884 | Passing the mutex on keeps it: the old owner returns to its own priority, the new one is the most urgent waiter |
| Mutex.InheritanceIsExact | os/rt-thread-nano/src/ipc.c:658-912 | The owner's priority is exactly the most urgent of its own and the waiters' after an event if and only if that event was not a timeout of the waiter that alone accounted for the boost |
| Mutex.TimeoutLeavesBoost | os/rt-thread-nano/src/ipc.c:658-795 | A run to such a state: the more urgent thread waits, boosts the owner and times out |
| Mutex.FifoEventIsExact | os/rt-thread-nano/src/ipc.c:658-912 | With the FIFO flag an event keeps the owner no less urgent than any waiter if and only if it is not a last release whose first waiter is less urgent than a later one |
| Mutex.FifoRunIsExact | os/rt-thread-nano/src/ipc.c:658-912 | Over runs: the owner is so in every state if and only if no event is such a release |
| Mutex.FifoInvertsPriority | os/rt-thread-nano/src/ipc.c:83-129 | A run with such a release |
| Timers.ComparesByRank | os/rt-thread-nano/src/timer.c:370-377 | For deadlines in a half-range window, across the 32-bit wrap, the tick comparisons order by distance from its start |
| Timers.AfterNeedsAWindow | os/rt-thread-nano/src/timer.c:370-377 | Outside such a window the comparison is not transitive: three ticks each after the next |
| Timers.PlaceSplits | os/rt-thread-nano/src/timer.c:365-377 | A deadline's place is behind exactly those not later, so behind all equal ones |
| Timers.RowInsert | os/rt-thread-nano/src/timer.c:390-402 | Inserting in the bottom row inserts at the corresponding place of every row the timer is tall enough for, and changes no other row |
| Timers.RowsAreSkipList | os/rt-thread-nano/src/timer.c:311-424 | For any number of levels, every row is sorted and a subsequence of each row below |
| Timers.StartedKeepsOrdered | os/rt-thread-nano/src/timer.c:311-424 | Starting keeps the order, adding exactly that timer |
| Timers.StoppedKeepsOrdered | os/rt-thread-nano/src/timer.c:433-457 | Stopping keeps it |
| Timers.StartAndStopKeepInv | os/rt-thread-nano/src/timer.c:311-457 | Starts and stops keep the order and: linked if and only if active |
| TimerCheck.Acts | os/rt-thread-nano/src/timer.c:562 | Actions of a timeout function keep the list ready and add no timer that has already expired |
| TimerCheck.Round | os/rt-thread-nano/src/timer.c:537-581 | Each round of the loop lowers the number of expired linked timers, if the timers that can be started during the check have times that are not zero; one-shot and idle timers may have any |
| TimerCheck.Check | os/rt-thread-nano/src/timer.c:522-590 | So rt_timer_check terminates, for all timeout functions of that kind |
| TimerCheck.NoneLeftDue | os/rt-thread-nano/src/timer.c:522-590 | When it does, no linked timer has expired |
| TimerCheck.FiresInOrder | os/rt-thread-nano/src/timer.c:537-581 | Timers fire in nondecreasing order of deadline, and none early, whatever the timeout functions start and stop |
| TimerCheck.FiresExactlyTheExpired | os/rt-thread-nano/src/timer.c:522-590 | A timer no timeout function touches fires once if it had expired and otherwise not; afterwards it is rearmed a period later if periodic, and stopped if not |
| TimerCheck.ActKeepsReady | os/rt-thread-nano/src/timer.c:562 | One start, stop or control call of a timeout function keeps the list ready |
| TimerCheck.ActKeepsActivity | os/rt-thread-nano/src/timer.c:562 | And keeps linked timers active, and active ones linked except the one being fired |
| TimerCheck.OnlyOwnSwitchStrands | os/rt-thread-nano/src/timer.c:569-581 | After a round, linked and active agree again if and only if the timeout function did not turn its own running periodic timer into a one-shot one: that timer stays marked active without being linked |
| TimerCheck.OwnSwitchStrands | os/rt-thread-nano/src/timer.c:554-581 | Every round of a periodic timer whose timeout function does just that ends so |
| TimerCheck.StrandedFromTheStart | os/rt-thread-nano/src/timer.c:554-581 | Such a round, reached by starting one timer and letting its time pass |
| TimerCheck.ZeroPeriodIsDueAgain | os/rt-thread-nano/src/timer.c:574-581 | With a period of zero a timer is due again as soon as it is rearmed, so termination needs the nonzero period |
| Rings.RingInsert | os/rt-thread-nano/include/rtservice.h:61-68 | Inserting behind any node of a circular doubly linked list, by its four pointer writes, inserts at that position |
| Rings.RingBypass | os/rt-thread-nano/include/rtservice.h:89-95 | Bypassing a node takes out exactly it |
| TimerObject.RowInsertAfter | os/rt-thread-nano/include/rtservice.h:61-68 | The same for one row, whose unlinked timers point to themselves |
| TimerObject.RowUnlink | os/rt-thread-nano/include/rtservice.h:89-95 | Removal, which is harmless for a timer not linked in the row |
| TimerObject.RowSplits | os/rt-thread-nano/src/timer.c:353-381 | In every row exactly the timers in front of the place are not after the deadline |
| TimerObject.Descends | os/rt-thread-nano/src/timer.c:379-380 | The node at which one row's scan ends is found in the row below, no farther than that row's own place |
| TimerObject.TimerList.constructor | os/rt-thread-nano/src/timer.c:723-732 | Heads and timers point to themselves |
| TimerObject.TimerList.Remove | os/rt-thread-nano/src/timer.c:136-144 | The timer leaves every row |
| TimerObject.TimerList.Stop | os/rt-thread-nano/src/timer.c:433-457 | Fails for an inactive timer, otherwise the stopped state |
| TimerObject.TimerList.ScanRow | os/rt-thread-nano/src/timer.c:356-378 | The inner loop ends at the row's last node not after the deadline, from any earlier node |
| TimerObject.TimerList.Search | os/rt-thread-nano/src/timer.c:353-381 | The outer loop finds that node in all rows |
| TimerObject.TimerList.LinkRows | os/rt-thread-nano/src/timer.c:387-402 | The height from the counter's bits: linked in the bottom row and the rows above it, at the specification place |
| TimerObject.TimerList.Start | os/rt-thread-nano/src/timer.c:311-424 | A start from the top row down is a linear scan of the bottom row, behind all equal deadlines |
| TimerObject.TimerList.RunCallback | os/rt-thread-nano/src/timer.c:562 | A timeout function acting on the object |
| TimerObject.TimerList.Fire | os/rt-thread-nano/src/timer.c:540-581 | One round: taken off, run, rearmed or deactivated |
| TimerObject.TimerList.Check | os/rt-thread-nano/src/timer.c:522-590 | The loop on the linked rows is the specification check |
| Pages.RunKeepsInv | os/rt-thread-nano/src/slab.c:234-332 | After every run of page allocations and releases: the list is sorted, disjoint and fully coalesced, and every page is in exactly one free run or one live allocation |
| Pages.CallKeepsInv | os/rt-thread-nano/src/slab.c:234-320 | Every call keeps that |
| Pages.AllocTakes | os/rt-thread-nano/src/slab.c:234-268 | An allocation takes exactly the pages it returns, all of which were free |
| Pages.AllocIsLowestFit | os/rt-thread-nano/src/slab.c:234-268 | It fails if and only if there are not so many free pages in a row, and otherwise returns the lowest that are |
| Pages.FreeGives | os/rt-thread-nano/src/slab.c:270-320 | A release adds exactly its pages and merges with both neighbours |
| Pages.OneListPerSet | os/rt-thread-nano/src/slab.c:270-320 | A coalesced list is determined by its set of pages |
| Pages.InitIsInv | os/rt-thread-nano/src/slab.c:325-332 | The invariant holds initially |
| Pages.ReleasingAllRestoresTheHeap | os/rt-thread-nano/src/slab.c:270-332 | Once everything is released the list is the single initial run, whatever happened between |
| PageHeapObject.PageHeap.constructor | os/rt-thread-nano/src/slab.c:325-332 | One run of all pages, linked |
| PageHeapObject.PageHeap.Alloc | os/rt-thread-nano/src/slab.c:234-268 | The loop over next pointers written inside the pages takes the first run long enough, from its front |
| PageHeapObject.PageHeap.Free | os/rt-thread-nano/src/slab.c:270-320 | The loop with a trailing pointer joins behind, before, both or neither |
| Zones.ZoneSize | os/rt-thread-nano/src/slab.c:372-376 | The loop gives a power of two from 32K to 128K: below a 1024th of the heap unless it is 32K, and at least half of that unless it is 128K |
| Zones.ChunkFitsTightly | os/rt-thread-nano/src/slab.c:399-457 | For 0 < n < 16384: the index is below 72, the chunk at least n with waste below 8 bytes or below an eighth of n, and a multiple of 8 |
| Zones.SameIndexSameChunk | os/rt-thread-nano/src/slab.c:399-457 | Equal indices mean equal chunk sizes |
| Zones.ZoneHoldsItsChunks | os/rt-thread-nano/src/slab.c:626-646 | Every reachable zone layout has at least three chunks, all behind the header and inside the zone |
| Zones.PowersAreAligned | os/rt-thread-nano/src/slab.c:633-642 | Powers of two from 8 to 4096 get chunks of exactly that size, every one naturally aligned |
| SlabProofs.SlabIsSafe | os/rt-thread-nano/src/slab.c:476-899 | After every run of malloc and free: in every zone z_nfree = (z_nmax - 1 - z_uindex) + free chunks = z_nmax minus live chunks, each zone list holds exactly the zones of its index with free chunks, memusage describes every page, and no byte belongs to two live blocks |
| SlabProofs.MallocKeepsInv | os/rt-thread-nano/src/slab.c:476-665 | Every allocation keeps this invariant |
| SlabProofs.MallocGivesOneBlock | os/rt-thread-nano/src/slab.c:476-665 | A successful one adds exactly one live block, long enough, at the returned address; a failed one changes nothing |
| SlabProofs.FreeTakesOneBlock | os/rt-thread-nano/src/slab.c:766-899 | A free removes exactly the block given; no other moves or changes, so no zone with a live chunk returns to the page allocator |
| SlabProofs.AddressFindsBlock | os/rt-thread-nano/src/slab.c:790-822 | The block is found again from its address through memusage, for chunks at any offset of any page of a zone and for large blocks |
| SlabProofs.LiveBlocksAreDisjoint | os/rt-thread-nano/src/slab.c:476-665 | No byte belongs to two live blocks |
| SlabProofs.BlocksAvoidHeaders | os/rt-thread-nano/src/slab.c:626-646 | None belongs to a live block and a zone header |
| SlabProofs.TakeFromIsInv | os/rt-thread-nano/src/slab.c:537-575 | Taking a chunk from the first zone of a list, which leaves the list when empty, keeps the invariant |
| SlabProofs.NewZoneIsInv | os/rt-thread-nano/src/slab.c:588-650 | Making a zone from a spare or fresh pages keeps it |
| SlabProofs.FreeChunkIsInv | os/rt-thread-nano/src/slab.c:817-898 | Freeing a chunk keeps it, when the zone was full, stays, becomes spare, or pushes the surplus of spare zones back to the pages |
| SlabProofs.FreeLargeIsInv | os/rt-thread-nano/src/slab.c:792-815 | Freeing pages keeps it |
| SlabProofs.AllFreeIsEmpty | os/rt-thread-nano/src/slab.c:849-850 | A zone whose count says all chunks are free has none live |
| SlabProofs.PowerRequestsAreAligned | os/rt-thread-nano/src/slab.c:476-665 | Power-of-two requests from 8 to 4096 below the zone limit come back aligned to their size |
| SlabProofs.InitIsInv | os/rt-thread-nano/src/slab.c:342-393 | The invariant holds after initialisation |
| SlabObject.SlabHeap.constructor | os/rt-thread-nano/src/slab.c:342-393 | Zone size, memusage pages and empty lists |
| SlabObject.SlabHeap.PageAlloc | os/rt-thread-nano/src/slab.c:234-268 | Pages and the record of who holds them |
| SlabObject.SlabHeap.PageRelease | os/rt-thread-nano/src/slab.c:270-320 | The same for a release |
| SlabObject.SlabHeap.MallocLarge | os/rt-thread-nano/src/slab.c:491-518 | The large branch marks its first page with the count |
| SlabObject.SlabHeap.TakeFrom | os/rt-thread-nano/src/slab.c:537-575 | Fresh chunks by z_uindex first, else the head of the zone's free chunks |
| SlabObject.SlabHeap.NewZone | os/rt-thread-nano/src/slab.c:623-650 | Header of a new zone and its place in the list |
| SlabObject.SlabHeap.MallocSmall | os/rt-thread-nano/src/slab.c:532-657 | The choice between listed zone, spare zone and new pages, with the marking loop over the zone's pages |
| SlabObject.SlabHeap.Malloc | os/rt-thread-nano/src/slab.c:476-665 | All branches are the specification, and the invariant holds |
| SlabObject.SlabHeap.Retire | os/rt-thread-nano/src/slab.c:857-895 | An empty zone leaves its list, and the surplus spare zone its pages, with the unmarking loop |
| SlabObject.SlabHeap.FreeChunk | os/rt-thread-nano/src/slab.c:817-898 | A chunk joins the free chunks, and the zone its list if it was full |
| SlabObject.SlabHeap.Free | os/rt-thread-nano/src/slab.c:766-899 | All branches of a free of a live block, and the invariant holds |
| ReadyLists.SchedulerPicksTheMostUrgent | os/rt-thread-nano/src/scheduler.c:192-263 | In every state with a queued thread that a run from the start reaches, calls running in their locked sections with anything of other threads and interrupts between them, in the 32-level and the two-level layout up to 256: the bitmap choice is that of a linear scan for the most urgent nonempty queue, and an unlocked rt_schedule switches to its head, which is READY; for runs of the kind that the next row characterises |
| ReadyLists.RunKeepsRight | os/rt-thread-nano/src/thread.c:308-788 | The queues hold only READY threads, each once and in the queue of its priority, and the bits are exact, in every state of a run if and only if no resume takes the last thread off a queue or inserts a queued thread, and no delete or detach closes a queued one |
| ReadyLists.BitsAreExact | os/rt-thread-nano/src/thread.c:773-781 | As long as no queued thread is inserted again or closed, the bits are exact in every state of a run if and only if no first section of a resume takes the last thread off a queue |
| ReadyLists.StepKeepsRight | os/rt-thread-nano/src/thread.c:754-788 | The same for one step; deletes and detaches of ready threads, priority changes, timeouts and yields are none of those |
| ReadyLists.RightSchedule | os/rt-thread-nano/src/scheduler.c:192-263 | With queues and bits right the schedule picks the longest waiting of the most urgent queued threads |
| ReadyLists.RunKeepsOrder | os/rt-thread-nano/src/thread.c:308-445 | Every thread that no delete or detach in progress is about to close is in the queue of its priority iff READY, the others in none, and the bits are exact, in every state of a run if and only if no step queues a thread about to be closed or resumes a ready one; and the full invariant holds whenever no thread is about to be closed |
| ReadyLists.StepKeepsOrder | os/rt-thread-nano/src/thread.c:308-445 | The same for one step |
| ReadyLists.CloseKeepsOrder | os/rt-thread-nano/src/thread.c:308-445 | In particular for the sections of a delete or detach of any thread |
| ThreadSections.RunIsExact | os/rt-thread-nano/src/thread.c:308-788 | The full invariant (a thread is in the queue of its current priority iff READY, and in at most one; a bit is set iff its queue is nonempty) holds between all sections of a run if and only if no section of a resume, detach or delete comes upon a READY thread |
| ThreadSections.StepIsExact | os/rt-thread-nano/src/thread.c:754-788 | The same for one section |
| ThreadSections.WholeCallsKeepOrder | os/rt-thread-nano/src/ipc.c:140-153 | So it holds in every state of runs whose calls are made with interrupts disabled, as the IPC code makes them |
| ThreadSections.SectionsMakeTheCall | os/rt-thread-nano/src/thread.c:712-788 | Sections that follow each other without interruption do what the whole call does |
| ThreadSections.ResumeCanBeOvertaken | os/rt-thread-nano/src/thread.c:764-784 | In every state in which the resumed thread would be the most urgent, in either layout: if its timeout comes between the test and the first section, it ends up READY in no queue, and rt_schedule would take the first thread of an empty queue |
| ThreadSections.LostBreaksInv | os/rt-thread-nano/src/thread.c:773-784 | Such a state is not in order |
| ThreadSections.OvertakenFromTheStart | os/rt-thread-nano/src/thread.c:764-784 | Such a run, from initialisation |
| ThreadSections.CloseCanLeaveTheThreadQueued | os/rt-thread-nano/src/thread.c:421-436 | A delete or detach of any ready thread leaves a closed thread in a ready queue if the thread's priority is changed between its sections |
| ReadyQueue.OpKeepsInv | os/rt-thread-nano/src/thread.c:455-818 | Made with interrupts disabled, startup, suspend, resume, timeout, yield, priority change, close and critical sections all keep queues and bitmaps in order |
| ReadyQueue.HighestIsScan | os/rt-thread-nano/src/scheduler.c:206-213 | The bitmap choice equals the scan |
| ReadyQueue.ScheduleIsEnabled | os/rt-thread-nano/src/scheduler.c:192-263 | An unlocked schedule picks a ready thread no ready thread is more urgent than, the longest waiting of its priority |
| ReadyQueue.InsertedIsInv | os/rt-thread-nano/src/scheduler.c:272-309 | Inserting keeps queues and both bitmap levels |
| ReadyQueue.RemovedIsInv | os/rt-thread-nano/src/scheduler.c:318-358 | Removing clears a bit exactly when its queue becomes empty, and the group bit exactly when the byte does |
| ReadyQueue.MovedIsInv | os/rt-thread-nano/src/thread.c:636-677 | A priority change of a ready thread keeps them |
| ReadyQueue.YieldedIsInv | os/rt-thread-nano/src/thread.c:455-489 | Going to the end of its queue keeps them |
| ReadyQueue.YieldGivesWay | os/rt-thread-nano/src/thread.c:455-489 | After a yield the next ready thread of the same priority runs, if there is one |
| ReadyQueue.FfsIsLowest | os/rt-thread-nano/src/kservice.c:1320-1335 | __rt_ffs is one more than the lowest set bit, and zero if there is none |
| ReadyQueue.ByteTable | os/rt-thread-nano/src/kservice.c:1289-1307 | The 256-entry table gives the lowest set bit of every byte |
| ReadyQueue.Scheduler.constructor | os/rt-thread-nano/src/scheduler.c:121-148 | Empty queues and bitmaps, in order if no thread is READY yet |
| ReadyQueue.Scheduler.Schedule | os/rt-thread-nano/src/scheduler.c:192-263 | The switch target worked out from the two bitmap words |
| ReadyQueue.Scheduler.Suspend | os/rt-thread-nano/src/thread.c:712-745 | With interrupts disabled: refused unless READY |
| ReadyQueue.Scheduler.Resume | os/rt-thread-nano/src/thread.c:754-788 | With interrupts disabled: refused unless suspended, otherwise queued |
| ReadyQueue.Scheduler.ChangePriority | os/rt-thread-nano/src/thread.c:636-677 | Removal and reinsertion of a ready thread; field update of any other |
| ReadyQueue.Scheduler.Yield | os/rt-thread-nano/src/thread.c:455-489 | The thread moves to the end of its queue if another shares it |

## Left out

Hardware:

- `hw/soc`: UART, system timer and bus selection; the bus is a parameter with load, store and idle.
- `hw/core/ALUDec.sv`: never instantiated.
- CoreTraps.TameProgramsArePrecise: leaves it to the run that no pending interrupt meets a return or a disabling write, because that depends on how a program nests its handlers; for programs without either it holds in every run (`SteadyProgramsAreUndisturbed`).
- One choice of the bits that SystemVerilog leaves unknown serves a whole run, in the pipeline and in the machine it is compared with; bits that differ from cycle to cycle are not modelled.
- CoreProofs.CoreRunsTheProgram: is about programs whose instructions leave CSRs alone, because CSR writes are not gated by the opcode; FENCE and illegal opcodes are instructions like others here, which write `rd` and do not retire, as the decoder has it.
- Arithmetic.JumpTargetMeetsTheIsa: compares the target only; the immediate generator and the load extension are modelled bit by bit, but no statement relates them to section 2.3 of the RISC-V Unprivileged Architecture.
- The value of mcycle, and CSR contents beyond mepc, mtvec, mcause, MIE and minstret; `externalIRQ` is tied low, as in the datapath.

Allocators:

- SmallHeapObject.Heap.constructor: requires room for the minimum size, because on a smaller region the bound of the search underflows.
- MemHeapObject.Pool.constructor: requires room for two headers and twelve bytes, because a smaller pool has no free block to begin with, and a size below 2^32, which the source's type gives.
- SmallHeapObject.Heap.Malloc: gives the largest three requests the smallest block, as the code does; what it promises is in words of the rounded request, which `RequestsThatWrap` relates to bytes.
- SmallHeapObject.Heap.Realloc: counts in words of four bytes with headers of three words; addresses and lengths of `mem.c` are multiples of four, so no byte is lost.
- MemHeapObject.Pool.Realloc: requires that the guard does not overflow with a free block behind, because then the headers it writes overlap; and does not model the copied contents, which the model of `mem.c` does; magic numbers, pool pointers and the semaphore are left out too.
- SlabObject.SlabHeap.TakeFrom: keeps the chunks of a zone's free list as a sequence, not as pointers inside the chunks.
- SlabObject.SlabHeap.FreeChunk: does so too.
- SlabObject.SlabHeap.NewZone: keeps zone headers in a map from the zone's first page, and the zones of a list as a sequence, not as fields at the start of the zone; `SlabProofs.BlocksAvoidHeaders` shows that no live block touches them there.
- SlabObject.SlabHeap.MallocSmall: takes the semaphore as held between the test for a spare zone and its use.
- SlabObject.SlabHeap.Malloc: takes the semaphore as held through the whole call, where the source releases it around the page allocation; used_mem and max_mem are not modelled.
- SlabObject.SlabHeap.Free: models frees of live blocks and not of other addresses, which the source rules out with assertions.
- Zones.PowersAreAligned: says power of two as a predicate on numbers and not by the bit expression of the source.
- `rt_realloc` and `rt_calloc` of `slab.c`, the system-heap wrappers of `memheap.c`, `mempool.c`, traces and listings.

Kernel objects:

- Semaphores, object names, detach and delete; `object.c`, `idle.c`, `irq.c`, `device.c`, hooks, debug logs and asserts.
- Mailbox.MailboxIsABoundedQueue: takes priorities as constant during a run, and the tick count as an elapsed time given to each resumption.
- MessageQueue.MessageQueueIsSafe: takes one copy as one event; a copy is not split further, since the node it touches is in one thread's hands.
- Events.EventObject.Recv: has no method for timeout and reset, which are in the specification state machine only.
- Mutex.NoPriorityInversion: is about one mutex and priorities that nothing else changes; with nested mutexes or outside changes it does not hold.
- The suspend lists of the IPC objects are sequences, while `Rings` and the timer rows model the links; the error code of a call that a reset fails is the removal of that call.

Timers and scheduling:

- TimerCheck.Check: takes the tick as constant during the check, and a timeout function as a finite list of starts, stops and control calls; the timers it starts or makes periodic have times that are not zero and stay in the window, because with a zero time the check need not end (`ZeroPeriodIsDueAgain`).
- TimerObject.TimerList.Start: requires the new deadline in the window of the linked ones, because outside it the comparison is not an order; timers are numbers, not addresses.
- The soft-timer thread, and creation, detach and deletion of timers.
- ReadyQueue.Scheduler.Resume: is the call with interrupts disabled; its sections are in `ThreadSections`, as a state machine.
- ReadyQueue.Scheduler.Schedule: models the choice and rt_current_thread, and not the context switch, interrupt nesting or stack checks; a schedule without a ready thread is not modelled, since the idle thread is always ready.
- ReadyQueue.Scheduler.constructor: and the other methods hold each level's list and each bitmap word as a sequence, and work out number, number_mask and high_mask from the priority, which thread initialisation and the priority change keep in step.
- Drivers, start-up and context-switch assembly, the shell, the console, printing and string functions.
