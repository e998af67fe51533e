# A verified model of the eBPF processor, its shared memory and its assembler

The processor runs BPF programs in a five-stage pipeline. It shares a 64-bit data memory with a host that
reaches it 32 bits at a time over AXI, and its programs come from a small assembler. This project models those
three parts and proves what holds across them.

**The pipeline.** `Core` is one clock as a step over the program counter, the ID, EX, MEM and WB latches, the
register bank, the saved flags, the divider unit and the data memory. The memory port and the divider answer when
the environment likes. `SequentialMachine` executes one instruction at a time, with integer comparisons for
branches and with the processor's own arithmetic and byte-lane functions. `CoreRefinement` drains the latches onto
registers and memory and proves that every clock keeps the drained state or advances it by exactly one instruction;
`CoreRuns` draws the consequences for whole runs: refinement, operand correctness, precise faults and finish, inert
wrong-path slots, progress, and total correctness. `WrongPath` runs two programs side by side: what is never executed
never matters. `CoreOnMemory` puts the pipeline on the shared-memory system below, in place of a memory port that
answers as it likes. `InstructionSet` is RFC 9669 by opcode number, in integers, bits and bytes and with none of the
processor's functions; it proves that each instruction of the sequential machine is the standard's, with the exact
operands for which one is not, and `StandardRuns` carries that to every run of the pipeline. `CoreClock` and
`RegisterBank` are the clocked registers as classes whose edges are proved equal to the step. `Alu`, `BranchChecker`,
`Control` and `ByteLanes` are the combinational units; `Alu` also has the `DIV_CONTROL` machine and `ReferenceDivider` the divider behind it.

**The shared memory.** `Arbiter`, `DelayedRegister` (with the synchronous RAM), `DataInterface` and `AxiController`
are the components, each with a class for its clocked part; `IoMem` wires them to two RAMs and is one clock of the
whole, and `IoMemClock` is the same as cooperating objects. `StoreBuffer` says what the host side is for: a flat
memory of 64-bit words reached in halves, with a buffer for one 32-bit store and a snapshot for one load.
`HostRefinement` proves that the two state machines, the arbiter, the RAM latency and the lane multiplexers refine
it clock by clock; `HostRuns` has the statements over runs. `HostPins` states them on the pins, in numbers and bytes:
each accepted transfer is carried out once with the values it was accepted with, stores and loads exactly the bytes at
its own addresses, and the core sees the same bytes.

**The assembler.** `Parser` is the parser behind the lexer, with in-place resolution of labels; `CodeGenerator` the
type rules, the record of each mnemonic, the generating loop and the bytes; `Disassembler` the inverse and `Reassembly`
the inverse of that. `TokenRoundTrip` prints trees to tokens and proves that the parser reads exactly what prints.
`SourceMeaning` says what each mnemonic means with its operands as written, and proves that assembled instructions do
that on the processor. `JumpTargets` joins the assembler's label arithmetic with the processor's 12-bit program counter, and
`AssembledPrograms` says which assembled instructions the processor takes as legal.

A class method is proved against the step function of its component, and the lemmas are about those functions.

## Where the code and its description disagree

The model follows the code. Each difference below is a lemma.

- `neg` complements without adding one (`Alu.NegNeverNegates`).
- A 32-bit shift uses six bits of its amount, where RFC 9669 section 4.1 masks to five, so `1 << 32` is 0 and not 1
  (`Alu.NarrowShiftCounterexample`). It is the standard's shift exactly when bit 5 of the amount is clear or the shift by
  the masked amount leaves nothing but zeros or signs anyway (`Alu.NarrowShiftIsStandardExactlyWhen`).
- The signed remainder takes the xor of the operand signs; it is the remainder of RFC 9669 section 4.1 exactly when
  the divisor is positive or the remainder is zero (`Alu.SignedRemainder`, with the testbench's own example).
- A `be16/32/64` right behind a load of its register swaps the load's address instead of the loaded value. That is right
  exactly when the two agree in the bytes swapped (`CoreRefinement.SwapAfterLoadIsRightExactlyWhen`);
  `CoreRuns.SwapAfterLoadCounterexample` is a run from reset. Every other program without calls and atomics is covered,
  swaps included.
- `le16` and `le32` do nothing, where RFC 9669 section 4.2 clears the upper bits; they are right exactly when those are
  clear already (`SequentialMachine.LittleEndianIsStandardExactlyWhen`, with `le16` of 0x10000 as
  `SequentialMachine.LittleEndianCounterexample`).
- The legality table means to accept one size bit of a byte swap or a sign-extending move at a time, and accepts all
  three at once as well (`Control.SizesAcceptedExactly`). It also accepts an atomic exchange whatever the upper 24 bits
  of its immediate are (`InstructionSet.LegalExactly`).
- A misaligned access ignores the address bits below its size. A load is the value of the bytes at its own address, in
  every memory, exactly when it is aligned (`ByteLanes.FlatLoadExactlyWhenAligned`).
- A 32-bit compare-and-exchange compares 64 bits in the lower half of a word (`DataInterface.Cmpxchg32IsRightExactlyWhen`).
- A 32-bit store the host side keeps back is lost by the next transfer unless that transfer is to shared memory or a
  write to the flush address; a read of the flush address loses it too (`HostRuns.KeptStoreSurvivesExactlyWhen`).
  `HostRuns.LostStoreCounterexample` is a run from reset that loses any word the host writes.
- A request that is up in the clock in which a transfer held behind a kept store is carried out makes the buffer take
  that transfer for another one; `HostPins.HeldLeavesEmptyExactlyWhen` gives the exact condition. A held read then leaves
  a store no one made: in `HostPins.PhantomStoreExample`, a run from reset of a host that keeps its requests up until
  they are taken, the RAM ends with foreign data at an address that was only read.
- The disassembler does not give back `zext`, the exclusive adds, sign-extending moves of immediates and numbers that
  do not fit their field (`Disassembler.DisassemblyIsTheSourceExactlyWhen`).
- The 16-bit atomics of the assembler encode the 8-bit width and are illegal to the processor, as are packet loads,
  map descriptors and relative calls (`AssembledPrograms.AssembledIsLegalExactlyWhen`).

## Model

| member | source | states |
|---|---|---|
| CoreRuns.PipelineRefinesSequentialMachine | ebpf-core/src/BPF_Core.vhd:517-905 | for every covered program, divider latency and memory wait pattern, the drained state after any run from reset is the sequential machine after as many instructions as entered EX |
| CoreRuns.PipelineRunsTheProgram | ebpf-core/src/BPF_Core.vhd:517-1066 | total correctness: if the sequential machine stops after n instructions, then after more than 6n+11 clocks that do not wait the core has stopped with its registers, memory, outcome and output |
| StandardRuns.PipelineFollowsTheStandard | ebpf-core/src/BPF_Core.vhd:517-905 | over every run from reset the drained state is reached by as many steps as instructions entered EX, and each step is the step of RFC 9669 exactly when its instruction is not one of the listed deviations |
| InstructionSet.NextIsStandardExactlyWhen | ebpf-core/src/BPF_Core.vhd:740-905 | one instruction, by opcode number on integers, bits and bytes: registers, memory and program counter after it are what RFC 9669 asks, data addresses rounded down to their width, exactly outside `neg`, the listed 32-bit shifts and signed remainders, and little-endian conversions that would clear something |
| InstructionSet.UnitComputesExactlyWhen | ebpf-core/src/BPF_ALU.vhd:125-219 | the fifteen arithmetic operations as integers and single bits, in both widths, and the exact operands for which the unit computes something else |
| InstructionSet.LegalExactly | ebpf-core/src/BPF_Exception_Unit.vhd:65-145 | the legal instructions as a set of opcode numbers and field values |
| InstructionSet.Outcomes | ebpf-core/src/BPF_Exception_Unit.vhd:122-145 | illegal, exit and bad address by opcode number and by the numbers of the data address space |
| InstructionSet.InDataExactly | ebpf-core/src/BPF_Data_Mem_Interface.vhd:102-104 | the valid data addresses are 0x8000 to 0x89ff, the stack included, and 0x9000 to 0xffff |
| InstructionSet.AddressExactly | ebpf-core/src/BPF_Core.vhd:790-794 | a data address is the base register plus the signed offset modulo 2^64 |
| InstructionSet.WaitsExactlyWhen | ebpf-core/src/BPF_Hazard_Unit.vhd:46-65 | an instruction is held behind a load exactly when it names the loaded register as one it reads; loads name their destination too and 0xdc does not |
| InstructionSet.AtomicSignals | ebpf-core/src/BPF_Control_Unit.vhd:165-190 | the decoder's memory and register signals for each legal atomic operation |
| CoreRuns.RunRefinesFrom | ebpf-core/src/BPF_Core.vhd:517-905 | the same from any state that satisfies the invariant |
| CoreRefinement.StepRefines | ebpf-core/src/BPF_Core.vhd:517-530 | each clock keeps the invariant and keeps the drained state or advances it by exactly the instruction that enters EX |
| CoreRefinement.Advances | ebpf-core/src/BPF_Core.vhd:657-700 | the clock in which the instruction in ID enters EX advances the drained state by exactly that instruction |
| CoreRefinement.ExecutesOne | ebpf-core/src/BPF_Core.vhd:740-797 | draining an instruction that has just entered EX is executing it on the state drained before it, for every instruction class |
| CoreRefinement.ExecutesBranch | ebpf-core/src/BPF_Core.vhd:764-768 | the same for a branch: the one unsigned compare of the hardware decides like the integer comparison of the sequential machine |
| CoreRefinement.HeldByMemory | ebpf-core/src/BPF_Core.vhd:520-530 | a clock in which MEM waits changes nothing, also when a division ends in it and starts again on the same operands |
| CoreRefinement.HeldByDivider | ebpf-core/src/BPF_Core.vhd:853-856 | while EX divides, MEM and WB move on and the drained state stays, though the forwarding sources of the operands are gone |
| CoreRefinement.HeldByFault | ebpf-core/src/BPF_Core.vhd:1000-1014 | a bad access stays in MEM and nothing younger takes effect |
| CoreRefinement.ExMovesToMem | ebpf-core/src/BPF_Core.vhd:824-856 | when EX hands over to MEM, draining the new WB and MEM is draining the old EX as well, or the access is known bad in MEM |
| CoreRefinement.FlagsRepeat | ebpf-core/src/BPF_Core.vhd:804-822 | the saved branch, exception and finish flags only repeat what the held stages still show |
| CoreRefinement.OperandEnters | ebpf-core/src/BPF_Forwarding_Unit.vhd:45-81 | a register that EX does not load is forwarded to the next instruction as its youngest older value and not as the address of a load in MEM |
| CoreRefinement.EntersWithoutLoadedOperand | ebpf-core/src/BPF_Hazard_Unit.vhd:46-65 | in a covered program the hazard keeps every instruction that needs a loaded register out of EX while the load is there |
| CoreRefinement.InstructionEnters | ebpf-core/src/BPF_Core.vhd:567-576 | what is fetched behind an instruction entering EX follows its path: a discarded slot behind wide loads and jumps, its successor otherwise |
| CoreRefinement.SwapAfterLoadIsRightExactlyWhen | ebpf-core/src/BPF_Control_Unit.vhd:185-196 | a big-endian swap entering EX behind a load of its register is right exactly when the load's address and the loaded value agree modulo 2^16, 2^32 or 2^64, by the size swapped |
| CoreRuns.SwapAfterLoadCounterexample | ebpf-core/src/BPF_Control_Unit.vhd:185-196 | three slots and a run from reset, with all registers and the loaded word zero, in which the swap works on the address 0x8000 instead of the loaded zero |
| CoreRuns.OperandsAreYoungest | ebpf-core/src/BPF_Core.vhd:735-757 | in every reachable state the operands EX needs have, after forwarding, the values left by all older instructions, also while MEM blocks |
| CoreRuns.PreciseException | ebpf-core/src/BPF_Core.vhd:1033-1060 | when the exception output is up, registers and memory are the sequential state just before the faulting instruction and the output is its program counter |
| CoreRuns.PreciseFinish | ebpf-core/src/BPF_Core.vhd:1038-1060 | when the finish output is up, registers and memory are the sequential state at `exit` and the output is its r0 |
| CoreRuns.RunEndsPrecisely | ebpf-core/src/BPF_Core.vhd:983-1060 | both, for any run from reset |
| CoreRuns.ExFaultIsBadAddress | ebpf-core/src/BPF_Data_Mem_Interface.vhd:102-109 | an address that will fault in MEM is a bad address of the sequential machine |
| CoreRuns.WrongPathIsDiscarded | ebpf-core/src/BPF_Core.vhd:567-576 | what is fetched in the clock of a jump, a taken branch or a wide load's first slot reaches ID discarded |
| CoreRuns.DiscardedSlotIsInert | ebpf-core/src/BPF_Control_Unit.vhd:227-250 | in one clock, any other slot in place of a discarded one gives the same registers, memory, flags, program counter and latches, and a bubble in EX |
| WrongPath.OnlyExecutedSlotsMatter | ebpf-core/src/BPF_Core.vhd:567-576 | over whole runs: two covered programs that agree on the slots the sequential machine executes, and on the immediates behind its wide loads, go through the same drained states under the same memory and divider answers |
| WrongPath.TogetherStep | ebpf-core/src/BPF_Core.vhd:517-530 | one clock keeps two such pipelines equal in everything but discarded slots and bubbles, and the same instruction enters EX in both |
| CoreRuns.HazardLastsOneClock | ebpf-core/src/BPF_Hazard_Unit.vhd:61-65 | with memory and divider ready, a data hazard holds ID for one clock and then lets the instruction enter |
| CoreRuns.RankFalls | ebpf-core/src/BPF_Core.vhd:517-530 | a clock that neither waits nor sends an instruction into EX brings the next such clock, or the stop, closer |
| CoreRuns.Progress | ebpf-core/src/BPF_Core.vhd:517-530 | a run that has not stopped sends an instruction into EX in at least one of six clocks that do not wait |
| CoreRuns.ExecutesNoMore | ebpf-core/src/BPF_Core.vhd:1005-1014 | at most one instruction more than the sequential machine runs ever enters EX |
| CoreRuns.StopIsFinal | ebpf-core/src/BPF_Core.vhd:981-998 | a stopped core stays stopped with the same registers, memory and output |
| CoreRuns.StopReportsOutcome | ebpf-core/src/BPF_Core.vhd:1043-1060 | a stopped core reports exit or fault exactly as the drained sequential state says |
| SequentialMachine.StoppedRun | ebpf-core/src/BPF_Core.vhd:981-982 | the sequential machine stays where it stopped |
| SequentialMachine.LittleEndianIsStandardExactlyWhen | ebpf-core/src/BPF_Control_Unit.vhd:171 | a little-endian conversion gives what RFC 9669 section 4.2 asks exactly when the register already fits the size converted to |
| SequentialMachine.LittleEndianCounterexample | ebpf-core/src/BPF_Control_Unit.vhd:171 | `le16` leaves 0x10000 where the standard gives zero |
| Control.SizesAcceptedExactly | ebpf-core/src/BPF_Exception_Unit.vhd:79-99 | the sizes the legality table accepts are 16, 32, 64 and their sum for swaps, and 0, 8, 16, 32 and the sum for moves |
| CoreClock.BpfCore.constructor | ebpf-core/src/BPF_Core.vhd:983-998 | the reset state, with all registers zero |
| CoreClock.BpfCore.MemoryEdge | ebpf-core/src/BPF_Core.vhd:858-870 | a granted access of MEM is carried out in place |
| CoreClock.BpfCore.FlagEdge | ebpf-core/src/BPF_Core.vhd:804-818 | the saved taken, exception and finish flags after the edge |
| CoreClock.BpfCore.Clock | ebpf-core/src/BPF_Core.vhd:517-1066 | one clock of all registers in place is exactly the step function |
| RegisterBank.Bank.FallingEdge | ebpf-core/src/BPF_Register_Bank.vhd:44-63 | the bank after the falling edge: writes above r10 dropped, the r0 enable last, all other registers kept |
| BranchChecker.TakenIsTheComparison | ebpf-core/src/BPF_Branch_Checker.vhd:32-61 | the eleven conditions built from one unsigned compare and the sign bits are the comparisons of RFC 9669 section 4.3, in 64 bits and in 32 |
| ByteLanes.LanesRefineFlatMemory | ebpf-core/src/BPF_Data_Mem_Interface.vhd:165-233 | over every sequence of aligned loads and stores the byte-lane memory and a flat byte memory return the same values |
| ByteLanes.AlignedLoadIsLittleEndian | ebpf-core/src/BPF_Byte_Mask.vhd:42-74 | an aligned load is the zero- or sign-extended little-endian value of its bytes |
| ByteLanes.AlignedStoreWritesBytes | ebpf-core/src/BPF_Data_Mem_Interface.vhd:181-197 | an aligned store writes exactly its own bytes |
| ByteLanes.MisalignedRoundsDown | ebpf-core/src/BPF_Data_Mem_Interface.vhd:165-168 | every access is the access at the address rounded down to its size |
| ByteLanes.FlatLoadExactlyWhenAligned | ebpf-core/src/BPF_Data_Mem_Interface.vhd:165-233 | a load is the little-endian value of the bytes at its own address, in every memory, exactly when the address is aligned |
| Alu.UnsignedDivision | ebpf-core/src/BPF_ALU.vhd:178-219 | unsigned quotient and remainder; a zero divisor gives quotient 0 and the dividend as remainder |
| Alu.SignedQuotient | ebpf-core/src/BPF_ALU.vhd:186-215 | the signed quotient is truncated division modulo the width, the minimum divided by -1 included: what it leaves is smaller than the divisor and has the sign of the dividend |
| Alu.SignedRemainder | ebpf-core/src/BPF_ALU.vhd:189-219 | the signed remainder is the truncated remainder exactly when the divisor is positive or the remainder zero, and otherwise its negation; quotient and remainder give the dividend back |
| Alu.SignedRemainderCounterexample | ebpf-core/test/BPF_ALU_test.vhd:545-548 | 100 smod -7 gives -2, not 2 |
| Alu.NegNeverNegates | ebpf-core/src/BPF_ALU.vhd:135 | `neg` gives the negated operand minus one and so is never the negated operand |
| Alu.ModularArithmetic | ebpf-core/src/BPF_ALU.vhd:125-129 | add, subtract and multiply are integer arithmetic modulo the width |
| Alu.BitwiseResult | ebpf-core/src/BPF_ALU.vhd:125-136 | each bit of OR, AND and XOR is the operation on that bit of the operands, in 64 bits and in 32 |
| Alu.ShiftsScale | ebpf-core/src/BPF_ALU.vhd:133-139 | a shift by less than the width is the shift of RFC 9669 section 4.1: scaling by a power of two modulo the width |
| Alu.NarrowShiftPast31 | ebpf-core/src/BPF_ALU.vhd:133-139 | a 32-bit shift by 32 to 63 leaves zero or the sign |
| Alu.NarrowShiftIsStandardExactlyWhen | ebpf-core/src/BPF_ALU.vhd:133-139 | a 32-bit shift is the standard's exactly when bit 5 of the amount is clear or, by the masked amount n, a multiple of 2^(32-n) is shifted left, an operand below 2^n right, or one between -2^n and 2^n arithmetically |
| Alu.NarrowShiftCounterexample | ebpf-core/src/BPF_ALU.vhd:133-139 | a 32-bit `1 << 32` is 0 in the code and 1 in the standard |
| Alu.MoveSignExtends | ebpf-core/src/BPF_ALU.vhd:141-147 | a move sign-extends the low bits it keeps |
| Alu.SwapReverses | ebpf-core/src/BPF_ALU.vhd:151-172 | a byte swap reverses the bytes it covers and undoes itself |
| Alu.SwapIsInjective | ebpf-core/src/BPF_ALU.vhd:151-172 | two values have the same swap exactly when they agree in the bytes it covers |
| Alu.PendingKept | ebpf-core/src/BPF_ALU.vhd:242-309 | one clock of DIV_CONTROL keeps the value it is going to deliver, whatever becomes of the operand buses |
| Alu.DivisionUnderAnyHandshake | ebpf-core/src/BPF_ALU.vhd:242-331 | for every ready schedule and latency the value delivered when the unit is ready is the result of the operands of the first clock |
| Alu.DivControl.RisingEdge | ebpf-core/src/BPF_ALU.vhd:222-309 | the divider control's registers after an edge |
| ReferenceDivider.Divider.Clock | ebpf-core/src/fake_components/Divider_U64.vhd:55-124 | one clock of the divider: both edges, its counters and its result |
| ReferenceDivider.MatchedStep | ebpf-core/src/fake_components/Divider_U64.vhd:80-123 | behind DIV_CONTROL the divider works exactly while the unit waits, on the operands the unit recorded |
| ReferenceDivider.OutputIsDividerResult | ebpf-core/src/BPF_ALU.vhd:213-219 | the unit's output is the divider's own quotient or remainder with the recorded sign |
| ReferenceDivider.DivisionTakesElevenClocksAtMost | ebpf-core/src/fake_components/Divider_U64.vhd:86-109 | with this divider an instruction waits for at most eleven clocks, and a division for exactly the clocks until the divider is ready and six more |
| Words.BitwiseSplit | ebpf-core/src/BPF_Data_Mem_Interface.vhd:249-253 | a wide bitwise operation is the same operation on its high and its low part |
| Arbiter.BinaryArbiter.RisingEdge | ebpf-core/src/Binary_Arbiter.vhd:27-44 | grants exclude each other, one is given exactly when a request is up without a bus frame, and the granted side gives the priority away |
| Arbiter.RefusedAtMostOnce | ebpf-core/src/Binary_Arbiter.vhd:27-41 | a requester that keeps asking is refused in at most one clock without a bus frame |
| DelayedRegister.BlockRam.RisingEdge | ebpf-core/src/fake_components/bram/BRAM.vhd:38-59 | the loop over the byte enables writes exactly the enabled lanes in place, and the output register takes the old word |
| DelayedRegister.DelayedReg.RisingEdge | ebpf-core/src/Delayed_Register_N.vhd:33-70 | the register after an edge |
| DelayedRegister.LatencyIsHidden | ebpf-core/src/Delayed_Register_N.vhd:48-70 | behind the RAM, from the clock after a load until the next one, the register shows the word that was in RAM at the load, whatever else the port does |
| DataInterface.MemInterface.RisingEdge | ebpf-core/src/BPF_Data_Mem_Interface.vhd:258-316 | MEM_CONTROL, the saved word and the saved size and lane after an edge |
| DataInterface.AtomicComputes | ebpf-core/src/BPF_Data_Mem_Interface.vhd:240-254 | every legal atomic but a 32-bit compare-and-exchange leaves what RFC 9669 section 5.3 asks at its own bytes and keeps the other bytes |
| DataInterface.Cmpxchg32IsRightExactlyWhen | ebpf-core/src/BPF_Data_Mem_Interface.vhd:244-247 | the exact condition under which a 32-bit compare-and-exchange stores as the standard asks |
| DataInterface.Cmpxchg32Counterexample | ebpf-core/src/BPF_Data_Mem_Interface.vhd:246-247 | a lower half that matches is not exchanged because the word above differs |
| AxiController.Controller.RisingEdge | ebpf-core/src/BPF_AXI_Controller.vhd:550-812 | the controller's registers after an edge, both state machines together |
| AxiController.Controller.AxiEdge | ebpf-core/src/BPF_AXI_Controller.vhd:711-812 | AXI_CONTROL and the saved channel after an edge |
| AxiController.Controller.BuffEdge | ebpf-core/src/BPF_AXI_Controller.vhd:565-709 | BUFF_CONTROL, the buffered address and the kept data after an edge |
| IoMem.AddressMapIsInjective | ebpf-core/src/BPF_IO_Mem.vhd:522-527 | distinct double words of the data address space are distinct RAM words within depth, the same for core and host |
| IoMem.AddressMapIsOnto | ebpf-core/src/BPF_IO_Mem.vhd:522-527 | every word of both RAMs has a data address: 0x8000 + 8k is word k of the core's own memory, 0x9000 + 8k of the shared one |
| IoMem.NeverBothOnShared | ebpf-core/src/BPF_IO_Mem.vhd:522-547 | in every reachable state and for any host, core and host are never on the shared RAM together, and every access is granted and in range |
| IoMem.CoreWaitsAtMostOneClock | ebpf-core/src/Binary_Arbiter.vhd:40-41 | a core request for the shared memory waits at most one clock |
| IoMem.HostWaitsAtMostTwoClocks | ebpf-core/src/BPF_AXI_Controller.vhd:387-397 | a held host request waits at most two clocks, atomic operations of the core included |
| IoMem.AtomicIsIndivisible | ebpf-core/src/BPF_Data_Mem_Interface.vhd:285-314 | no host access falls into the two clocks of a shared atomic, which together replace exactly the addressed word by the operation's result, make the core wait once and return the old word |
| IoMem.CoreReadIsHeld | ebpf-core/src/BPF_IO_Mem.vhd:371-383 | the core's read data stays the selected part of the word read until its next read, across stores to either RAM and host traffic |
| IoMem.PortRefinesPipelineMemory | ebpf-core/src/BPF_Data_Mem_Interface.vhd:119-132 | against a quiet host the interface with its two RAMs is the word memory of the pipeline model, for loads and plain stores |
| CoreOnMemory.PipelineRunsOnTheMemorySystem | ebpf-core/src/BPF_Core.vhd:858-870 | the pipeline clocked together with the data interface, the arbiter and both RAMs: over every run from reset with the host off the shared RAM, the interface's ready signal is a memory answer of the pipeline model, the RAMs hold its memory, the core reads what its last load selected, and the drained state is the sequential machine |
| CoreOnMemory.DoneTogether | ebpf-core/src/BPF_Data_Mem_Interface.vhd:119-132 | an access is done at the pipeline's port in exactly the clock in which the data interface carries it out, and a port that is not ready blocks MEM |
| IoMemClock.SharedMemorySystem.Clock | ebpf-core/src/BPF_IO_Mem.vhd:342-547 | one clock of the cooperating components is exactly the system step and keeps the invariant |
| IoMemClock.UnsharedAccessFits | ebpf-core/src/BPF_IO_Mem.vhd:503-506 | the unshared RAM is addressed within its depth while the core runs or the host is safe |
| StoreBuffer.HostSeesFlatMemory | ebpf-core/src/BPF_AXI_Controller.vhd:565-709 | seen by the host, exactly a store changes memory, in its strobed bytes; keeping back, combining and writing out are invisible, and a load returns that memory or the other half of the last word taken |
| StoreBuffer.StoreHalfLanes | ebpf-core/src/BPF_AXI_Controller.vhd:519-528 | each byte of a store goes to the lane of its own half |
| HostRefinement.ClockRefines | ebpf-core/src/BPF_AXI_Controller.vhd:347-385 | whatever the core does, the system after a clock is the store buffer after the core's write and the host's event |
| HostRefinement.DrainWrites | ebpf-core/src/BPF_AXI_Controller.vhd:517-531 | a kept store is written out once, to its own half of its own word |
| HostRefinement.StoreWrites | ebpf-core/src/BPF_AXI_Controller.vhd:519-528 | a store that goes to memory writes its strobed bytes, or both halves when it completes the kept one |
| HostRefinement.LoadReads | ebpf-core/src/BPF_AXI_Controller.vhd:485-513 | a load not answered from the snapshot reads its word and writes nothing |
| HostRefinement.LoadRepeats | ebpf-core/src/BPF_AXI_Controller.vhd:371-375 | a load is answered from the snapshot exactly when it is the other half of the word taken last |
| HostRefinement.HostIsOff | ebpf-core/src/BPF_AXI_Controller.vhd:508-510 | the clocks in which the host leaves the shared RAM alone |
| HostRefinement.HostIsOn | ebpf-core/src/BPF_AXI_Controller.vhd:508-535 | the clocks in which it uses it |
| HostRuns.HostRefinesStoreBuffer | ebpf-core/src/BPF_AXI_Controller.vhd:485-812 | from reset, for every run of proper host transfers with any core accesses in between, RAM and buffers are the store buffer's and every shared read is answered with its answer |
| HostRuns.HostViewAfterClock | ebpf-core/src/BPF_AXI_Controller.vhd:347-385 | the flat memory the host sees, clock by clock, after the core's write |
| HostRuns.PairedWritesActAsOne | ebpf-core/src/BPF_AXI_Controller.vhd:586-653 | two full-strobe writes to the halves of a double word reach the RAM as one all-lane write, whatever the core does in between |
| HostRuns.PairedReadsReturnOneSnapshot | ebpf-core/src/BPF_AXI_Controller.vhd:655-706 | two reads of the halves return one snapshot of the word, taken at the first |
| HostRuns.KeptStoreSurvivesExactlyWhen | ebpf-core/src/BPF_AXI_Controller.vhd:367-369 | on the pins: a kept store reaches the RAM in the clock that accepts the next transfer exactly when its address is at least 0x9000, or it is a write from 0x8ff8 to 0x8fff |
| HostRuns.FlushReachesRam | ebpf-core/src/BPF_AXI_Controller.vhd:362-369 | a kept full-strobe write is in its own half of its own word once a write to 0x8ff8..0x8fff behind it is accepted, whatever the core does in between |
| HostRuns.FlushedStoreExample | ebpf-core/src/BPF_AXI_Controller.vhd:362-369 | a run from reset: a full-strobe write to 0x9000 and a write to 0x8fff, after which the RAM holds what was written |
| HostRuns.LostStoreStaysLost | ebpf-core/src/BPF_AXI_Controller.vhd:786-808 | otherwise the host stays off the shared RAM in every clock of every run until the buffer that held the store is empty |
| HostRuns.ReadOfFlushAddressLosesStore | ebpf-core/src/BPF_AXI_Controller.vhd:362-369 | a read of the flush address loses the kept store |
| HostRuns.LostStoreCounterexample | ebpf-core/src/BPF_AXI_Controller.vhd:367-369 | a run from reset: a full-strobe write to 0x9000 is answered, a read of a control register behind it is answered, the buffer is empty, and the RAM is what it was, whatever was written |
| HostRuns.ServedWithinSixClocks | ebpf-core/src/BPF_AXI_Controller.vhd:735-808 | a transfer the host keeps offering is being answered after at most six clocks, a kept store written out first included |
| HostPins.HostAddresses | ebpf-core/src/BPF_AXI_Controller.vhd:347-369 | what the controller takes an address for, in numbers |
| HostPins.AcceptedTransfer | ebpf-core/src/BPF_AXI_Controller.vhd:735-808 | a transfer accepted on the pins is carried out in that clock with its own address, data and strobes, or held with them while a kept store goes out |
| HostPins.HeldTransferIsCarriedOut | ebpf-core/src/BPF_AXI_Controller.vhd:786-808 | a held transfer is carried out once, later, with the values of the clock that accepted it |
| HostPins.HeldLeavesEmptyExactlyWhen | ebpf-core/src/BPF_AXI_Controller.vhd:630-653 | the exact condition under which a held transfer leaves the buffer empty while the host has another request up |
| HostPins.HeldIsServed | ebpf-core/src/BPF_AXI_Controller.vhd:786-808 | the held transfer itself reads or writes its own word and bytes, whatever else the host requests |
| HostPins.PhantomStore | ebpf-core/src/BPF_AXI_Controller.vhd:633-639 | otherwise a held read leaves a kept store of the data that was on the bus when the read was accepted |
| HostPins.PhantomStoreExample | ebpf-core/src/BPF_AXI_Controller.vhd:786-796 | a run from reset in which data that was never written to 0x9008 ends there, because a write is offered while a read of 0x9008 is held |
| HostPins.AnswerStands | ebpf-core/src/BPF_AXI_Controller.vhd:772-784 | an answer stands until the host takes it, and meanwhile the host leaves the RAM alone |
| HostPins.ReadDataStand | ebpf-core/src/BPF_AXI_Controller.vhd:772-784 | the data of a shared read stay on the bus until taken, whatever the core writes |
| HostPins.StoreIsBytes | ebpf-core/src/BPF_AXI_Controller.vhd:519-528 | a store changes exactly the strobed ones of its own four bytes, by address |
| HostPins.OthersKeepBytes | ebpf-core/src/BPF_AXI_Controller.vhd:565-709 | every other event of the host changes no byte it can see |
| HostPins.LoadIsBytes | ebpf-core/src/BPF_AXI_Controller.vhd:485-513 | a load answers with the four bytes at its address, or of the word the load of the other half took |
| HostPins.CoreSeesHostBytes | ebpf-core/src/BPF_IO_Mem.vhd:522-547 | with no store kept, host and core have the same bytes at the same addresses |
| HostPins.HostWritesUnshared | ebpf-core/src/BPF_IO_Mem.vhd:503-506 | with the core stopped the host writes exactly the strobed ones of its four bytes of the core's own memory |
| HostPins.HostReadsUnshared | ebpf-core/src/BPF_IO_Mem.vhd:466-468 | with the core stopped a read of the core's own memory answers with its four bytes until taken |
| HostPins.RunningCoreKeepsHostOut | ebpf-core/src/BPF_IO_Mem.vhd:503-506 | while the core runs the host is never on the core's own memory |
| HostPins.HostUsesGrantExactlyWhen | ebpf-core/src/BPF_AXI_Controller.vhd:387-397 | the host uses a grant in its own clock, but for a full-strobe write kept behind a load |
| HostPins.CoreUsesGrant | ebpf-core/src/BPF_Data_Mem_Interface.vhd:119-132 | the core uses a grant in its own clock |
| HostPins.CoreWaitsExactlyWhen | ebpf-core/src/BPF_Data_Mem_Interface.vhd:119-132 | the core waits exactly for the arbiter of the shared memory and in the first clock of an atomic operation |
| Parser.AssemblyParser.PushInstruction | ebpf-assembler/src/parser.cpp:124-134 | an instruction is appended and counted with one slot, or two for `ld64` and `ldmapfd` |
| Parser.AssemblyParser.PushLabel | ebpf-assembler/src/parser.cpp:136-147 | a new label takes the current slot; a repeated name is refused |
| Parser.AssemblyParser.PushOperand | ebpf-assembler/src/parser.cpp:149-200 | an operand takes the first empty place of the last instruction, or is refused |
| Parser.AssemblyParser.Statements | ebpf-assembler/src/parser.cpp:232-264 | tokens are taken one after the other until one is refused |
| Parser.AssemblyParser.LookupLabel | ebpf-assembler/src/parser.cpp:202-209 | the first label of a name, or none |
| Parser.AssemblyParser.DeduceOperands | ebpf-assembler/src/parser.cpp:220-228 | the references of one instruction become distances, or one is undefined |
| Parser.AssemblyParser.Deduce | ebpf-assembler/src/parser.cpp:211-230 | one in-place pass resolves every reference against the original tree, and fails exactly when a name is undefined |
| Parser.AssemblyParser.ParseSource | ebpf-assembler/src/parser.cpp:266-273 | one source is accepted with its resolved tree or refused with the right error |
| Parser.ReferencesReachTheirLabels | ebpf-assembler/src/parser.cpp:202-230 | in every accepted source the slot after a referring instruction plus the resolved operand is the slot of the one label of that name |
| Parser.ParsedSize | ebpf-assembler/src/parser.cpp:17-22 | an accepted source has between one slot and the limit |
| TokenRoundTrip.ReadsExactlyWhatPrints | ebpf-assembler/src/parser.cpp:232-264 | print and parse: tokens are read as a tree exactly when the tree has its operands filled from the left, distinct labels at their slots, and prints to those tokens |
| TokenRoundTrip.ReadsUpToFirstFault | ebpf-assembler/src/parser.cpp:124-200 | on the tokens alone: the first bad token decides the error, and without one the source is the tree that prints to it |
| TokenRoundTrip.ParsesExactly | ebpf-assembler/src/parser.cpp:266-273 | the whole parser on the tokens: which sources are refused with which error, and that the others become the tree that prints to them with references turned into numbers |
| TokenRoundTrip.PrintAndParse | ebpf-assembler/src/parser.cpp:266-273 | a printed source without references comes back as it is |
| CodeGenerator.Generate | ebpf-assembler/src/codegen.cpp:69-1045 | the loop fills the program with the slots of every instruction in order, as many as the parser counted |
| CodeGenerator.SlotsAgree | ebpf-assembler/src/codegen.cpp:611-623 | each instruction's slots are at the position that labels assume |
| CodeGenerator.BytesRoundTrip | ebpf-assembler/headers/bpf_insn.h:236-533 | the processor's decoder sees the record's own fields in its eight bytes |
| SourceMeaning.AssemblyKeepsMeaning | ebpf-assembler/src/codegen.cpp:69-1045 | for every mnemonic the core runs and numbers that fit, what RFC 9669 asks of the assembled slots is what the source says of its own operands |
| SourceMeaning.AssembledStepExactlyWhen | ebpf-assembler/src/codegen.cpp:69-1045 | an assembled instruction does on the processor what its source says exactly outside the listed operands |
| SourceMeaning.SourceRunsAsWritten | ebpf-assembler/src/main.cpp:40-49 | the same for every instruction of every accepted source loaded into program memory |
| SourceMeaning.EncodedAddress | ebpf-core/src/BPF_Core.vhd:790-794 | the data address of an assembled load or store is the base register plus the offset as written, negative offsets included |
| SourceMeaning.EncodedImmediate | ebpf-core/src/BPF_Core.vhd:740-757 | an immediate as written is the second operand of arithmetic and branches, modulo 2^64 |
| SourceMeaning.EncodedStoreData | ebpf-core/src/BPF_Core.vhd:740-757 | an immediate as written is the data of a store, modulo 2^64 |
| Disassembler.Disassemble | ebpf-assembler/src/disas.c:59-699 | the loop gives one line per record, skipping the slot behind a wide load, and refuses a broken size |
| Disassembler.InstructionRoundTrip | ebpf-assembler/src/disas.c:84-697 | an instruction decodes to its own source line exactly when it is faithful |
| Disassembler.LinesOfProgram | ebpf-assembler/src/disas.c:441-451 | the disassembler stays aligned with the instructions over a whole program |
| Disassembler.BytesReadBack | ebpf-assembler/src/disas.c:16-23 | the eight bytes of a record read back as the record |
| Disassembler.DisassemblyIsTheSourceExactlyWhen | ebpf-assembler/src/disas.c:64-699 | disassembling the bytes of a well-typed program gives back its instructions exactly when every one is faithful |
| Reassembly.CanonicalReassembles | ebpf-assembler/src/disas.c:84-697 | every one-slot record with nothing in unused fields prints as a line that the type rules take and that assembles to that record |
| Reassembly.LineTellsAll | ebpf-assembler/src/typechecker.cpp:48-172 | a well-typed instruction is read back from its own line: the type rules take no operand that the line does not show |
| Reassembly.WideSlots | ebpf-assembler/src/codegen.cpp:611-623 | the two slots of `ld64` and `ldmapfd`: nothing in the second but the upper half of the number, or its sign |
| JumpTargets.TruncatedDistance | ebpf-assembler/src/codegen.cpp:61-67 | truncation to 32, 16 and 12 bits keeps a distance modulo 4096 |
| JumpTargets.EncodedTarget | ebpf-core/src/BPF_Core.vhd:648-652 | the processor's target arithmetic on an encoded jump is the plain sum modulo 4096 |
| JumpTargets.SymbolicJumpsLand | ebpf-assembler/src/parser.cpp:211-230 | for every accepted source of at most 4096 slots, a taken jump or branch written with a label makes the next program counter the slot of that label |
| AssembledPrograms.TypeCheck | ebpf-assembler/src/typechecker.cpp:48-172 | exactly the trees whose instructions have the operand types of their mnemonics pass |
| AssembledPrograms.AssembleSource | ebpf-assembler/src/main.cpp:40-49 | a source is refused exactly when parser or type checker refuses it and otherwise becomes the slots of its resolved tree |
| AssembledPrograms.AssembledIsLegalExactlyWhen | ebpf-core/src/BPF_Exception_Unit.vhd:122-145 | which assembled instructions the processor takes as legal, whatever their immediates and offsets |

## Left out

- CoreRuns.PipelineRefinesSequentialMachine: programs with helper calls or atomic operations are not covered, nor is
  a big-endian swap in the slot after a load of the same register; atomics are proved at the memory interface and the
  swap has its exact condition.
- CoreRuns.PipelineRunsTheProgram: the same programs are not covered.
- CoreRuns.RunRefinesFrom: the same programs are not covered.
- CoreRefinement.StepRefines: the same programs are not covered.
- StandardRuns.PipelineFollowsTheStandard: the same programs are not covered; `InstructionSet.NextIsStandardExactlyWhen`
  leaves out helper calls and atomics only.
- WrongPath.OnlyExecutedSlotsMatter: both programs are of the covered ones, in the slots never executed too.
- CoreOnMemory.PipelineRunsOnTheMemorySystem: the host stays off the shared RAM, which the sequential machine has to
  itself, and the program has no atomics; any host is in the lemmas of `IoMem` on exclusion, waiting and atomics.
- SourceMeaning.SourceRunsAsWritten: instructions whose numbers fit their fields; what becomes of the others is in
  `Disassembler.DisassemblyIsTheSourceExactlyWhen`. Helper calls, atomics and packet loads have no meaning there.
- Reassembly.CanonicalReassembles: not wide loads, of which the disassembler prints the first slot only, nor the
  sign-extending moves of immediates, whose immediate it prints as a register.
- IoMem.PortRefinesPipelineMemory: one clock, with a quiet host and without atomics; runs are in `CoreOnMemory`.
- HostRuns.HostRefinesStoreBuffer: the host raises no new transfer while an accepted one waits behind a kept store, and
  over a kept store only safe ones; for other hosts it is false, see `HostPins.PhantomStoreExample` and
  `HostRuns.LostStoreCounterexample`, and the mutual-exclusion and lost-store lemmas cover them.
- HostRuns.ServedWithinSixClocks: transfers to the map unit wait for another arbiter and are not bounded.
- Disassembler.Disassemble: lines are mnemonics and operands, not text, and the tests on the opcode byte are grouped by
  instruction class instead of one long chain.
- Sleep and wake: the sleep input stays low.
- Helper calls, the helper functions unit, the map unit and their arbiter, which is an input here.
- Reset sequencing, undefined signal values and real timing; a run starts in the state after a reset.
- The host's control, input and output registers, host reads of instruction memory and host writes to the program.
- Instruction memory is a fixed array of slots; its one-clock latency is covered by `DelayedRegister.LatencyIsHidden`.
- The lexer: tokens arrive classified, with integer values; decimals, source positions, comments and error texts are not
  modelled.
- Several source files in one run, file handling, options, the C text output, the empty optimizer and the dead
  `smov32` mnemonic, which the assembler's table does not name.
- The driver library and its allocator, the standalone memory interface that the data interface replaced, and the vendor
  cores.
