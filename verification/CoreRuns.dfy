/** Whole runs of the pipeline: from reset, for every sequence of memory and divider answers,
    it computes what the sequential machine computes, reports faults and the end of the program
    precisely, and makes progress. */
module CoreRuns {
  import opened Words
  import opened ByteLanes
  import opened Control
  import opened SequentialMachine
  import opened Core
  import opened CoreRefinement
  import Alu
  import BranchChecker

  // Faults ---------------------------------------------------------------------------------

  /** A faulting access in EX is a bad data address of the sequential machine. */
  lemma ExFaultIsBadAddress(imem: Program, p: State)
    requires Inv(imem, p) && !MemError(p) && ExFaults(p)
    ensures OutcomeOf(imem, Drain(p)) == BadAddress
  {
    hide DrainedRegs, DrainedRam, Alu.Result, Alu.Pending, ValidAddress, FlagInv, IdInv, Forwarded;
    assert Live(imem, p.ex);
    assert OperandsRight(p);
    assert p.ex.ctl.readEn ==> NeedsSrc(p.ex.slot);
    assert p.ex.ctl.writeEn ==> NeedsDst(p.ex.slot);
  }

  /** The invariant with the sequential meaning of a fault held in MEM. */
  predicate Invariant(imem: Program, p: State) {
    Inv(imem, p) && (MemError(p) ==> OutcomeOf(imem, Drain(p)) == BadAddress)
  }

  lemma InvariantInitially(imem: Program, p: State)
    requires Initial(p)
    ensures Invariant(imem, p)
    ensures Drain(p) == Machine(p.regs, p.ram, 0)
  {
  }

  lemma FaultEntersMem(imem: Program, p: State, e: Env)
    requires Inv(imem, p) && Covered(imem) && !MemError(p) && MemError(Step(imem, p, e))
    ensures Moves(p, e) && ExFaults(p)
  {
    if BlockMem(p, e) {
      HeldLatches(imem, p, e);
    } else if BlockEx(p, e) {
      DividingLatches(imem, p, e);
    } else {
      ExMovesToMem(imem, p, e);
    }
    hide Step, Inv, ValidAddress;
  }

  lemma InvariantStep(imem: Program, p: State, e: Env)
    requires Invariant(imem, p) && Covered(imem)
    ensures Invariant(imem, Step(imem, p, e))
    ensures Drain(Step(imem, p, e)) == if Enters(p, e) then Next(imem, Drain(p)) else Drain(p)
  {
    StepRefines(imem, p, e);
    if !MemError(p) && MemError(Step(imem, p, e)) {
      FaultEntersMem(imem, p, e);
      ExFaultIsBadAddress(imem, p);
    }
    hide Step, Inv, Drain, OutcomeOf, Next, ExFaults, NothingEnters, BlockMem, BlockEx, MemError;
  }

  // Runs -----------------------------------------------------------------------------------

  /** How many instructions a run sends into EX. */
  function Executed(imem: Program, p: State, env: seq<Env>): nat
    decreases |env|
  {
    if env == [] then 0
    else (if Enters(p, env[0]) then 1 else 0) + Executed(imem, Step(imem, p, env[0]), env[1..])
  }

  lemma {:induction false} RunRefinesFrom(imem: Program, p: State, env: seq<Env>)
    requires Invariant(imem, p) && Covered(imem)
    ensures Invariant(imem, Core.Run(imem, p, env))
    ensures Drain(Core.Run(imem, p, env)) == SequentialMachine.Run(imem, Drain(p), Executed(imem, p, env))
    decreases |env|
  {
    hide Step, Invariant, Drain, Next, Enters, Covered;
    if env != [] {
      InvariantStep(imem, p, env[0]);
      RunRefinesFrom(imem, Step(imem, p, env[0]), env[1..]);
    }
  }

  /** Pipeline refinement.  For every program without calls, atomics and unprotected big-endian
      swaps, and for every divider latency and memory wait pattern, the drained state after any
      run from reset is the sequential machine after as many instructions as entered EX. */
  lemma PipelineRefinesSequentialMachine(imem: Program, p: State, env: seq<Env>)
    requires Initial(p) && Covered(imem)
    ensures Drain(Core.Run(imem, p, env))
            == SequentialMachine.Run(imem, Machine(p.regs, p.ram, 0), Executed(imem, p, env))
  {
    InvariantInitially(imem, p);
    RunRefinesFrom(imem, p, env);
  }

  /** In every reachable state, each register operand the instruction in EX needs has, after
      forwarding, the value left by all older instructions, and is never the address of a load
      still in MEM.  While a division works its operands are already captured. */
  lemma OperandsAreYoungest(imem: Program, p0: State, env: seq<Env>)
    requires Initial(p0) && Covered(imem)
    requires var p := Core.Run(imem, p0, env);
             !Quiet(p.ex.ctl) && !MemError(p) && (p.unit.phase == Alu.Init || MemAccess(p))
    ensures var p := Core.Run(imem, p0, env);
            && (NeedsDst(p.ex.slot) ==> FwA(p) == Read(DrainedRegs(p), p.ex.slot.dst))
            && (NeedsSrc(p.ex.slot) ==> FwB(p) == Read(DrainedRegs(p), p.ex.slot.src))
            && (NeedsDst(p.ex.slot) && p.mem.regWrite && p.mem.dst == p.ex.slot.dst ==> !p.mem.memToReg)
            && (NeedsSrc(p.ex.slot) && p.mem.regWrite && p.mem.dst == p.ex.slot.src ==> !p.mem.memToReg)
  {
    InvariantInitially(imem, p0);
    RunRefinesFrom(imem, p0, env);
  }

  // Precise exceptions and finish ------------------------------------------------------------

  /** When the exception output is up, registers and memory are the sequential state just before
      the faulting instruction, and the output is its program counter. */
  lemma PreciseException(imem: Program, p: State)
    requires Invariant(imem, p) && CoreException(p)
    ensures Drain(p).regs == p.regs && Drain(p).ram == p.ram && Drain(p).pc == CoreOutput(p)
    ensures OutcomeOf(imem, Drain(p)) in {IllegalInstruction, BadAddress}
    ensures !CoreFinish(p)
  {
    if !MemError(p) {
      assert IdIllegal(p);
    }
    hide ValidInstruction, Decode, BranchChecker.Taken, ByteMask, RamLoad, RamStore, ValidAddress, Alu.Pending, FwA, FwB, UnitInv;
  }

  /** When the finish output is up, registers and memory are the sequential state at `exit` and
      the output is its r0. */
  lemma PreciseFinish(imem: Program, p: State)
    requires Invariant(imem, p) && CoreFinish(p)
    ensures Drain(p) == Machine(p.regs, p.ram, p.id.pc)
    ensures OutcomeOf(imem, Drain(p)) == Exits
    ensures CoreOutput(p) == Drain(p).regs[0]
    ensures !CoreException(p)
  {
    hide ValidInstruction, BranchChecker.Taken, ByteMask, RamLoad, RamStore, ValidAddress, Alu.Pending, FwA, FwB, UnitInv;
  }

  /** Both, for any run from reset. */
  lemma RunEndsPrecisely(imem: Program, p0: State, env: seq<Env>)
    requires Initial(p0) && Covered(imem)
    ensures var p, n := Core.Run(imem, p0, env), Executed(imem, p0, env);
            var m := SequentialMachine.Run(imem, Machine(p0.regs, p0.ram, 0), n);
            && (CoreException(p) ==> m.regs == p.regs && m.ram == p.ram && m.pc == CoreOutput(p)
                                     && OutcomeOf(imem, m) in {IllegalInstruction, BadAddress})
            && (CoreFinish(p) ==> m.regs == p.regs && m.ram == p.ram && OutcomeOf(imem, m) == Exits
                                  && CoreOutput(p) == m.regs[0])
  {
    InvariantInitially(imem, p0);
    RunRefinesFrom(imem, p0, env);
    var p := Core.Run(imem, p0, env);
    if CoreException(p) {
      PreciseException(imem, p);
    }
    if CoreFinish(p) {
      PreciseFinish(imem, p);
    }
    hide Invariant, CoreException, CoreFinish, CoreOutput, Drain, OutcomeOf;
  }

  // Wrong path ---------------------------------------------------------------------------------

  /** What is fetched in the clock of a jump, of a taken branch or of a wide load's first slot
      arrives in ID marked as discarded. */
  lemma WrongPathIsDiscarded(imem: Program, p: State, e: Env)
    requires LoadIf(p, e) && (TakenBranch(p) || IdSignals(p).jump || IdSignals(p).discardIF)
    ensures Step(imem, p, e).id.discard
    ensures TakenBranch(p) ==> DiscardId(p)
  {
  }

  function WithSlot(p: State, other: Slot): State {
    p.(id := p.id.(ir := other))
  }

  lemma DiscardedSlotFront(imem: Program, p: State, e: Env, other: Slot)
    requires DiscardId(p) && (p.ex.ctl.imm64 ==> other.imm == p.id.ir.imm)
    ensures var q, r := Step(imem, p, e), Step(imem, WithSlot(p, other), e);
            && r.pc == q.pc && r.id.discard == q.id.discard && r.id.pc == q.id.pc && (LoadIf(p, e) ==> r.id == q.id)
  {
    DiscardedSlotSignals(p, other, e);
    hide NextEx, NextMem, NextWb, Bank, NextRam, NextReadValue, Alu.Next, NextSavedTaken, ExPins;
    hide MemError, TakenBranch, BlockId, Flush, FlushStage, FlagException, FlagFinish, BlockEx, BlockMem, DiscardId, IdSignals;
  }

  lemma DiscardedSlotEx(imem: Program, p: State, e: Env, other: Slot)
    requires DiscardId(p) && (p.ex.ctl.imm64 ==> other.imm == p.id.ir.imm)
    ensures var q, r := Step(imem, p, e), Step(imem, WithSlot(p, other), e);
            && (LoadId(p, e) ==> Quiet(q.ex.ctl) && Quiet(r.ex.ctl))
            && (!LoadId(p, e) ==> r.ex == q.ex)
  {
    DiscardedSlotSignals(p, other, e);
    hide NextId, NextPc, NextMem, NextWb, Bank, NextRam, NextReadValue, Alu.Next, NextSavedTaken, ExPins, Target, Read;
    hide MemError, TakenBranch, BlockId, Flush, FlushStage, FlagException, FlagFinish, BlockEx, BlockMem, DiscardId, IdSignals;
  }

  lemma DiscardedSlotBack(imem: Program, p: State, e: Env, other: Slot)
    requires DiscardId(p) && (p.ex.ctl.imm64 ==> other.imm == p.id.ir.imm)
    ensures var q, r := Step(imem, p, e), Step(imem, WithSlot(p, other), e);
            && r.regs == q.regs && r.ram == q.ram && r.mem == q.mem && r.wb == q.wb
            && r.unit == q.unit && r.readValue == q.readValue
            && r.savedTaken == q.savedTaken && r.savedException == q.savedException && r.savedFinish == q.savedFinish
  {
    DiscardedSlotSignals(p, other, e);
    hide NextId, NextPc, NextEx, Bank, Alu.Next, Alu.Output, ExPins, ExC, StoreData, RamStore, RamLoad;
    hide MemError, TakenBranch, VolatileTaken, Flush, FlushStage, FlagException, FlagFinish, BlockEx, BlockMem, DiscardId, IdSignals;
  }

  /** A discarded slot is inert: put any other slot in its place (a wide load in EX only reads
      its immediate) and the next registers, memory, program counter, flags, IF and MEM and WB
      latches, and the drained state, are the same; EX receives a bubble either way. */
  lemma DiscardedSlotIsInert(imem: Program, p: State, e: Env, other: Slot)
    requires DiscardId(p)
    requires p.ex.ctl.imm64 ==> other.imm == p.id.ir.imm
    ensures var q, r := Step(imem, p, e), Step(imem, WithSlot(p, other), e);
            && r.regs == q.regs && r.ram == q.ram && r.pc == q.pc && r.mem == q.mem && r.wb == q.wb
            && r.unit == q.unit && r.readValue == q.readValue
            && r.savedTaken == q.savedTaken && r.savedException == q.savedException && r.savedFinish == q.savedFinish
            && r.id.discard == q.id.discard && r.id.pc == q.id.pc
            && (LoadIf(p, e) ==> r.id == q.id)
            && (LoadId(p, e) ==> Quiet(q.ex.ctl) && Quiet(r.ex.ctl))
            && (!LoadId(p, e) ==> r.ex == q.ex)
  {
    hide Step, DiscardId, LoadIf, LoadId, Quiet, WithSlot;
    DiscardedSlotFront(imem, p, e, other);
    DiscardedSlotEx(imem, p, e, other);
    DiscardedSlotBack(imem, p, e, other);
  }

  lemma DiscardedSlotSignals(p: State, other: Slot, e: Env)
    requires DiscardId(p) && (p.ex.ctl.imm64 ==> other.imm == p.id.ir.imm)
    ensures var p' := p.(id := p.id.(ir := other));
            && ExPins(p') == ExPins(p) && StoreData(p') == StoreData(p) && ExAddress(p') == ExAddress(p) && ExC(p') == ExC(p)
            && Bank(p') == Bank(p) && MemError(p') == MemError(p)
            && VolatileTaken(p') == VolatileTaken(p) && TakenBranch(p') == TakenBranch(p)
            && IdSignals(p') == IdSignals(p) == NO_SIGNALS && DiscardId(p')
            && BlockId(p') == BlockId(p) == false && IdIllegal(p') == IdIllegal(p) == false
            && FlagException(p') == FlagException(p) && FlagFinish(p') == FlagFinish(p)
            && Flush(p') == Flush(p) && FlushStage(p') == FlushStage(p)
            && BlockEx(p', e) == BlockEx(p, e) && BlockMem(p', e) == BlockMem(p, e)
  {
    var p' := p.(id := p.id.(ir := other));
    hide ByteMask, ValidAddress, ValidInstruction, BranchChecker.Taken, Alu.Output, Alu.Ready, Decode, Hazard;
    assert Imm64(p') == Imm64(p);
    assert FwA(p') == FwA(p) && FwB(p') == FwB(p);
    assert ExPins(p') == ExPins(p);
  }

  // Progress -----------------------------------------------------------------------------------

  /** The environment makes this clock wait: the memory port or the divider is not ready. */
  predicate Waits(p: State, e: Env) {
    BlockMem(p, e) || BlockEx(p, e)
  }

  /** The core reports that it has stopped. */
  predicate Stopped(p: State) {
    CoreFinish(p) || CoreException(p)
  }

  /** Clocks without waiting that remain until an instruction enters EX or the core stops. */
  function Rank(p: State): nat {
    if MemError(p) then (if WbNoop(p) then 0 else 1)
    else if ExFaults(p) then 2
    else if TakenBranch(p) then 5
    else if p.id.discard then 4
    else if IdIllegal(p) || IdSignals(p).finish then
      (if !ExNoop(p) then 3 else if !MemNoop(p) then 2 else if !WbNoop(p) then 1 else 0)
    else if BlockId(p) then 1
    else 0
  }

  lemma StoppedWhenDrained(imem: Program, p: State)
    requires Invariant(imem, p) && Rank(p) == 0
    ensures Stopped(p) || (!MemError(p) && !ExFaults(p) && !NothingEnters(p))
  {
    hide ValidInstruction, Decode, BranchChecker.Taken, ByteMask, RamLoad, RamStore, ValidAddress, Alu.Pending, Hazard;
    hide UnitInv, IdInv, MemInv, OperandsRight, ExAddress, Drain, OutcomeOf;
    if !MemError(p) {
      FlagsRepeat(imem, p, Env(true, Alu.Divider(true, true)));
    }
  }

  /** A data hazard holds ID for one clock at most: unless the environment makes the pipeline
      wait or an access has faulted, the next clock has none. */
  lemma HazardLastsOneClock(imem: Program, p: State, e: Env)
    requires Invariant(imem, p) && BlockId(p) && !Waits(p, e) && !MemError(p)
    ensures Step(imem, p, e).id == p.id
    ensures !BlockId(Step(imem, p, e))
    ensures !(IdIllegal(p) || IdSignals(p).finish || ExFaults(p)) ==> !NothingEnters(Step(imem, p, e))
  {
    FlagsRepeat(imem, p, e);
    BubbleEnters(imem, p, e);
    hide ValidInstruction, Decode, BranchChecker.Taken, ByteMask, RamLoad, RamStore, ValidAddress, Alu.Pending, Alu.Next, Alu.Ready;
    hide UnitInv, IdInv, MemInv, OperandsRight, ExAddress, Drain, OutcomeOf, NextMem, NextWb, NextPc, Bank;
  }

  lemma RankAfterFault(imem: Program, p: State, e: Env)
    requires Invariant(imem, p) && MemError(p)
    ensures Rank(Step(imem, p, e)) == 0
  {
    hide Inv, ByteMask, RamLoad, RamStore, Decode, ValidInstruction, ValidAddress, BranchChecker.Taken, Hazard, NextId, NextEx;
    hide Drain, OutcomeOf, Alu.Next;
  }

  lemma RankWhileWaiting(imem: Program, p: State, e: Env)
    requires Invariant(imem, p) && Covered(imem) && Waits(p, e)
    ensures Rank(Step(imem, p, e)) <= Rank(p)
  {
    var q := Step(imem, p, e);
    if MemError(p) {
      RankAfterFault(imem, p, e);
    } else if BlockMem(p, e) {
      HeldLatches(imem, p, e);
      FlagsRepeat(imem, p, e);
      SameSignals(p, q);
      hide Step, Inv, Bank, MemError, ExFaults, TakenBranch, IdIllegal, IdSignals, Hazard, BlockMem, BlockEx, FlagException, FlagFinish, NextSavedTaken;
    } else {
      DividingLatches(imem, p, e);
      FlagsRepeat(imem, p, e);
      assert Live(imem, p.ex);
      DivisionIsAlu(p.ex.slot);
      hide Step, ByteMask, RamLoad, RamStore, Decode, ValidInstruction, ValidAddress, BranchChecker.Taken, Alu.Next, Alu.Ready, FwA, FwB;
      hide UnitInv, IdInv, MemInv, OperandsRight, Drain, OutcomeOf;
    }
  }

  lemma RankAfterMove(imem: Program, p: State, e: Env)
    requires Invariant(imem, p) && Covered(imem) && Moves(p, e) && NothingEnters(p) && !ExFaults(p) && !Stopped(p)
    ensures Rank(Step(imem, p, e)) < Rank(p)
  {
    var q := Step(imem, p, e);
    ExMovesToMem(imem, p, e);
    BubbleEnters(imem, p, e);
    FlagsRepeat(imem, p, e);
    if Rank(p) == 0 {
      StoppedWhenDrained(imem, p);
    }
    assert !ExFaults(q) && !TakenBranch(q) && !MemError(q) && !BlockId(q) && ExNoop(q) by {
      hide Step, Inv, ByteMask, RamLoad, RamStore, Decode, ValidInstruction, ValidAddress, BranchChecker.Taken;
      NotSavedTaken(imem, p, e);
    }
    if TakenBranch(p) {
      TakenBranchFetches(imem, p);
    }
    FrontAfterMove(imem, p, e);
    hide Step, Inv, ByteMask, RamLoad, RamStore, Decode, ValidInstruction, ValidAddress, BranchChecker.Taken, ExFaults, Hazard;
    hide DrainedRegs, DrainedRam, ExRegs, ExRam, FetchPc, Stopped, MemError, Moves, Drain, OutcomeOf;
  }

  lemma NotSavedTaken(imem: Program, p: State, e: Env)
    requires Invariant(imem, p) && Moves(p, e)
    ensures !Step(imem, p, e).savedTaken
  {
    FlagsRepeat(imem, p, e);
    hide Inv, NextSavedTaken, Drain, OutcomeOf;
  }

  /** The front of the pipeline after a clock in which a bubble entered EX. */
  lemma FrontAfterMove(imem: Program, p: State, e: Env)
    requires Invariant(imem, p) && Moves(p, e) && NothingEnters(p)
    ensures var q := Step(imem, p, e);
            && (TakenBranch(p) ==> q.id.discard)
            && (!TakenBranch(p) && p.id.discard ==> !q.id.discard)
            && (!DiscardId(p) ==> q.id == p.id)
            && (WbNoop(q) <==> !p.mem.regWrite)
            && (ExNoop(p) ==> MemNoop(q))
  {
    FlagsRepeat(imem, p, e);
    if TakenBranch(p) {
      TakenBranchFetches(imem, p);
    }
    hide Inv, ByteMask, RamLoad, RamStore, Decode, ValidInstruction, ValidAddress, BranchChecker.Taken, Hazard;
    hide NextRam, NextReadValue, Alu.Next, Alu.Ready, Bank, MemError, ExC, StoreData, NextSavedTaken, FlagException, FlagFinish;
    hide Drain, OutcomeOf;
  }

  /** Each clock that neither waits nor sends an instruction into EX brings the next such event,
      or the stop, closer. */
  lemma RankFalls(imem: Program, p: State, e: Env)
    requires Invariant(imem, p) && Covered(imem) && !Waits(p, e) && !Enters(p, e) && !Stopped(p)
    ensures Rank(Step(imem, p, e)) < Rank(p)
  {
    if MemError(p) {
      RankAfterFault(imem, p, e);
      if Rank(p) == 0 {
        StoppedWhenDrained(imem, p);
      }
    } else if ExFaults(p) {
      ExMovesToMem(imem, p, e);
    } else {
      RankAfterMove(imem, p, e);
    }
  }

  /** A core that stopped on an access fault. */
  lemma StoppedByFault(imem: Program, p: State, e: Env)
    requires Invariant(imem, p) && Covered(imem) && Stopped(p) && MemError(p)
    ensures var q := Step(imem, p, e);
            Stopped(q) && q.regs == p.regs && q.ram == p.ram && CoreOutput(q) == CoreOutput(p) && CoreFinish(q) == CoreFinish(p)
  {
    InvariantStep(imem, p, e);
    RankAfterFault(imem, p, e);
    StoppedWhenDrained(imem, Step(imem, p, e));
    hide Inv, ByteMask, RamLoad, RamStore, Decode, ValidInstruction, ValidAddress, BranchChecker.Taken, Hazard, NextId, NextEx;
    hide Drain, OutcomeOf, Alu.Next, Rank;
  }

  lemma StoppedMoves(imem: Program, p: State, e: Env)
    requires Invariant(imem, p) && Stopped(p) && !MemError(p)
    ensures Moves(p, e) && NothingEnters(p) && !ExFaults(p) && !DiscardId(p) && Bank(p) == p.regs
    ensures WbNoop(p) && MemNoop(p) && ExNoop(p) && (IdIllegal(p) || IdSignals(p).finish) && !TakenBranch(p)
  {
    FlagsRepeat(imem, p, e);
    if BlockEx(p, e) {
      assert Live(imem, p.ex);
      DivisionIsAlu(p.ex.slot);
    }
    hide ByteMask, RamLoad, RamStore, ValidInstruction, ValidAddress, BranchChecker.Taken, Hazard, Decode;
    hide UnitInv, IdInv, MemInv, OperandsRight, FlagInv, Drain, OutcomeOf, FlagException, FlagFinish;
  }

  /** A core that stopped on an illegal instruction or on `exit`. */
  lemma StoppedInId(imem: Program, p: State, e: Env)
    requires Invariant(imem, p) && Covered(imem) && Stopped(p) && !MemError(p)
    ensures var q := Step(imem, p, e);
            Stopped(q) && q.regs == p.regs && q.ram == p.ram && CoreOutput(q) == CoreOutput(p) && CoreFinish(q) == CoreFinish(p)
  {
    var q := Step(imem, p, e);
    StoppedMoves(imem, p, e);
    InvariantStep(imem, p, e);
    FrontAfterMove(imem, p, e);
    ExMovesToMem(imem, p, e);
    BubbleEnters(imem, p, e);
    NotSavedTaken(imem, p, e);
    MemMovesToWb(imem, p, e);
    FlagsRepeat(imem, p, e);
    FlagsRepeat(imem, q, e);
    assert !TakenBranch(q) && IdSignals(q) == IdSignals(p) && IdIllegal(q) == IdIllegal(p) by {
      hide Step, Inv, Decode, ValidInstruction, MemError, ExFaults, Bank;
    }
    hide Step, Inv, ByteMask, RamLoad, RamStore, Decode, ValidInstruction, ValidAddress, BranchChecker.Taken, Hazard, NextId, NextEx;
    hide Drain, OutcomeOf, Alu.Next, TakenBranch, IdSignals, IdIllegal, FlagException, FlagFinish, ExFaults, FetchPc, Bank, MemError;
    assert q.regs == p.regs && q.ram == p.ram;
  }

  /** A stopped core stays stopped, with the same registers, memory and output. */
  lemma StopIsFinal(imem: Program, p: State, e: Env)
    requires Invariant(imem, p) && Covered(imem) && Stopped(p)
    ensures var q := Step(imem, p, e);
            && Stopped(q) && q.regs == p.regs && q.ram == p.ram && CoreOutput(q) == CoreOutput(p)
            && CoreFinish(q) == CoreFinish(p) && !Enters(p, e)
  {
    hide Step, Inv, Stopped, CoreFinish, CoreOutput, MemError;
    if MemError(p) {
      StoppedByFault(imem, p, e);
    } else {
      StoppedInId(imem, p, e);
      StoppedMoves(imem, p, e);
    }
  }

  // Completion ---------------------------------------------------------------------------------

  /** Clocks of a run in which the environment does not make the pipeline wait. */
  function ActiveClocks(imem: Program, p: State, env: seq<Env>): nat
    decreases |env|
  {
    if env == [] then 0
    else (if Waits(p, env[0]) then 0 else 1) + ActiveClocks(imem, Step(imem, p, env[0]), env[1..])
  }

  lemma {:induction false} StoppedRunStays(imem: Program, p: State, env: seq<Env>)
    requires Invariant(imem, p) && Covered(imem) && Stopped(p)
    ensures Stopped(Core.Run(imem, p, env))
    decreases |env|
  {
    if env != [] {
      StopIsFinal(imem, p, env[0]);
      InvariantStep(imem, p, env[0]);
      hide Step, Invariant, Stopped, Enters;
      StoppedRunStays(imem, Step(imem, p, env[0]), env[1..]);
    }
  }

  /** Progress.  A run that has not stopped has sent an instruction into EX in at least one of
      every six clocks in which the environment did not make it wait. */
  lemma {:induction false} Progress(imem: Program, p: State, env: seq<Env>)
    requires Invariant(imem, p) && Covered(imem) && !Stopped(Core.Run(imem, p, env))
    ensures ActiveClocks(imem, p, env) + Rank(Core.Run(imem, p, env)) <= Rank(p) + 6 * Executed(imem, p, env)
    decreases |env|
  {
    if env != [] {
      var e, q := env[0], Step(imem, p, env[0]);
      hide Step, Invariant, Stopped, Rank, Waits, Enters, Drain;
      if Stopped(p) {
        StoppedRunStays(imem, p, env);
      }
      InvariantStep(imem, p, e);
      ProgressStep(imem, p, e);
      Progress(imem, q, env[1..]);
    }
  }

  lemma ProgressStep(imem: Program, p: State, e: Env)
    requires Invariant(imem, p) && Covered(imem) && !Stopped(p)
    ensures Rank(Step(imem, p, e)) + (if Waits(p, e) then 0 else 1) <= Rank(p) + (if Enters(p, e) then 6 else 0)
    ensures Waits(p, e) ==> !Enters(p, e)
  {
    if Waits(p, e) {
      RankWhileWaiting(imem, p, e);
    } else if !Enters(p, e) {
      RankFalls(imem, p, e);
    }
    hide Step, Invariant, Stopped, BlockMem, BlockEx, NothingEnters, ExFaults, Drain, TakenBranch, IdIllegal, IdSignals, BlockId, MemError;
  }

  /** An access of the instruction in EX is known to be bad. */
  predicate FaultAhead(p: State) {
    MemError(p) || ExFaults(p)
  }

  lemma {:induction false} NothingAfterFault(imem: Program, p: State, env: seq<Env>)
    requires Invariant(imem, p) && Covered(imem) && FaultAhead(p)
    ensures Executed(imem, p, env) == 0
    decreases |env|
  {
    if env != [] {
      var e, q := env[0], Step(imem, p, env[0]);
      InvariantStep(imem, p, e);
      FaultStaysAhead(imem, p, e);
      hide Step, Invariant, Stopped, ExFaults, MemError, BlockMem, BlockEx, NothingEnters, Drain;
      NothingAfterFault(imem, q, env[1..]);
    }
  }

  lemma FaultStaysAhead(imem: Program, p: State, e: Env)
    requires Invariant(imem, p) && Covered(imem) && FaultAhead(p)
    ensures FaultAhead(Step(imem, p, e))
  {
    var q := Step(imem, p, e);
    if MemError(p) {
      HeldByFaultInMem(imem, p, e);
    } else if BlockMem(p, e) {
      HeldLatches(imem, p, e);
      FlagsRepeat(imem, p, e);
      SameSignals(p, q);
    } else {
      if BlockEx(p, e) {
        assert Live(imem, p.ex);
        DivisionIsAlu(p.ex.slot);
      }
      ExMovesToMem(imem, p, e);
    }
    hide Step, Inv, MemError, ExFaults;
  }

  lemma HeldByFaultInMem(imem: Program, p: State, e: Env)
    requires MemError(p)
    ensures MemError(Step(imem, p, e))
  {
    hide ByteMask, RamLoad, RamStore, Decode, ValidInstruction, ValidAddress, BranchChecker.Taken, Hazard, NextId, NextEx, NextWb;
  }

  /** An instruction that enters EX while the sequential machine cannot run on has a bad address. */
  lemma EntersOnlyToFault(imem: Program, p: State, e: Env)
    requires Invariant(imem, p) && Covered(imem) && Enters(p, e) && OutcomeOf(imem, Drain(p)) != Running
    ensures FaultAhead(Step(imem, p, e))
  {
    Advances(imem, p, e);
    var q := Step(imem, p, e);
    EnteredOutcome(imem, q);
    hide Step, Inv, Entered, Before, OutcomeOf, Drain, ExFaults, MemError;
  }

  lemma EnteredOutcome(imem: Program, q: State)
    requires Entered(imem, q)
    ensures OutcomeOf(imem, Before(q)) == if ExFaults(q) then BadAddress else Running
  {
    hide DrainedRegs, DrainedRam, Alu.Result, Alu.Pending, ValidAddress, Forwarded, FetchFollows, MemError;
    assert q.ex.ctl.readEn ==> NeedsSrc(q.ex.slot);
    assert q.ex.ctl.writeEn ==> NeedsDst(q.ex.slot);
  }

  /** At most one instruction more than the sequential machine runs ever enters EX. */
  lemma {:induction false} ExecutesNoMore(imem: Program, p: State, env: seq<Env>, n: nat)
    requires Invariant(imem, p) && Covered(imem)
    requires OutcomeOf(imem, SequentialMachine.Run(imem, Drain(p), n)) != Running
    ensures Executed(imem, p, env) <= n + 1
    decreases |env|
  {
    if env != [] {
      var e, q := env[0], Step(imem, p, env[0]);
      InvariantStep(imem, p, e);
      if Enters(p, e) && n == 0 {
        EntersOnlyToFault(imem, p, e);
        NothingAfterFault(imem, q, env[1..]);
      } else {
        hide Step, Invariant, OutcomeOf, Enters, Next, Drain;
        ExecutesNoMore(imem, q, env[1..], if Enters(p, e) then n - 1 else n);
      }
    }
  }

  /** A stopped core reports the outcome of the drained sequential state. */
  lemma StopReportsOutcome(imem: Program, p: State)
    requires Invariant(imem, p) && Stopped(p)
    ensures Drain(p).regs == p.regs && Drain(p).ram == p.ram && OutcomeOf(imem, Drain(p)) != Running
    ensures CoreFinish(p) <==> OutcomeOf(imem, Drain(p)) == Exits
    ensures CoreException(p) <==> OutcomeOf(imem, Drain(p)) in {IllegalInstruction, BadAddress}
    ensures CoreOutput(p) == if CoreFinish(p) then p.regs[0] else Drain(p).pc
  {
    if CoreFinish(p) {
      PreciseFinish(imem, p);
    } else {
      PreciseException(imem, p);
    }
    hide Invariant, CoreFinish, CoreException, CoreOutput, Drain, OutcomeOf;
  }

  /** Total correctness.  If the sequential machine stops after n instructions, then from reset,
      once the environment has let enough clocks pass, the core has stopped with the same
      registers and memory, reports an exit with r0 or a fault with its program counter, and
      does so for every memory and divider behaviour. */
  lemma PipelineRunsTheProgram(imem: Program, p0: State, env: seq<Env>, n: nat)
    requires Initial(p0) && Covered(imem)
    requires OutcomeOf(imem, SequentialMachine.Run(imem, Machine(p0.regs, p0.ram, 0), n)) != Running
    requires ActiveClocks(imem, p0, env) > 6 * n + 11
    ensures var p, m := Core.Run(imem, p0, env), SequentialMachine.Run(imem, Machine(p0.regs, p0.ram, 0), n);
            && p.regs == m.regs && p.ram == m.ram
            && (CoreFinish(p) <==> OutcomeOf(imem, m) == Exits)
            && (CoreException(p) <==> OutcomeOf(imem, m) in {IllegalInstruction, BadAddress})
            && CoreOutput(p) == if CoreFinish(p) then m.regs[0] else m.pc
  {
    InvariantInitially(imem, p0);
    RunRefinesFrom(imem, p0, env);
    ExecutesNoMore(imem, p0, env, n);
    var p, start := Core.Run(imem, p0, env), Machine(p0.regs, p0.ram, 0);
    var k := Executed(imem, p0, env);
    assert Rank(p0) <= 5;
    if !Stopped(p) {
      Progress(imem, p0, env);
    }
    StopReportsOutcome(imem, p);
    if n <= k {
      StoppedRun(imem, start, n, k);
    } else {
      StoppedRun(imem, start, k, n);
    }
    hide Invariant, CoreFinish, CoreException, CoreOutput, Drain, OutcomeOf, Stopped, Initial, Rank;
  }

  // A program outside the covered set ------------------------------------------------------------

  const READY: Env := Env(true, Alu.Divider(true, true))

  /** r2 = 0x8000, r1 = *(u16 *)(r2 + 0), then a 16-bit big-endian swap of r1. */
  predicate LoadThenSwap(imem: Program) {
    && imem[0] == Slot(0xb7, 2, 0, 0, 0x8000) && imem[1] == Slot(0x69, 1, 2, 0, 0)
    && imem[2] == Slot(0xdc, 1, 0, 0, 16)
  }

  predicate NothingSaved(p: State) {
    p.unit.phase == Alu.Init && !p.savedTaken && !p.savedException && !p.savedFinish && !p.wb.regWrite
  }

  predicate MemEmpty(p: State) {
    !p.mem.writeEn && !p.mem.readEn && !p.mem.regWrite
  }

  lemma MoveFetched(imem: Program, p: State)
    requires Initial(p) && LoadThenSwap(imem)
    ensures var q := Step(imem, p, READY);
            && q.id == IdLatch(imem[0], 0, 1, false) && q.pc == 1 && q.ex.ctl == NO_SIGNALS
            && MemEmpty(q) && NothingSaved(q) && q.regs == p.regs && q.ram == p.ram
  {
    hide ByteMask, RamLoad, RamStore, BranchChecker.Taken, Alu.Output;
  }

  lemma MoveDecoded(imem: Program, p: State)
    requires LoadThenSwap(imem) && p.id == IdLatch(imem[0], 0, 1, false) && p.pc == 1 && p.ex.ctl == NO_SIGNALS
    requires MemEmpty(p) && NothingSaved(p)
    ensures var q := Step(imem, p, READY);
            && q.id == IdLatch(imem[1], 1, 2, false) && q.pc == 2 && q.ex.ctl == Decode(imem[0]) && q.ex.slot == imem[0]
            && MemEmpty(q) && NothingSaved(q) && q.regs == p.regs && q.ram == p.ram
  {
    hide ByteMask, RamLoad, RamStore, BranchChecker.Taken, Alu.Output;
  }

  /** The load in EX, the swap in ID, the move in MEM. */
  predicate LoadInEx(imem: Program, q: State) {
    && q.id == IdLatch(imem[2], 2, 3, false) && q.pc == 3
    && q.ex.ctl == Decode(imem[1]) && q.ex.slot == imem[1] && q.ex.pc == 1 && q.ex.a == Read(q.regs, 1)
    && !q.mem.writeEn && !q.mem.readEn && q.mem.regWrite && !q.mem.memToReg && q.mem.dst == 2 && q.mem.c == 0x8000
    && NothingSaved(q)
  }

  lemma MoveSignals(imem: Program)
    requires LoadThenSwap(imem)
    ensures var g := Decode(imem[0]);
            && g.aluEn && g.alu64 && g.regWrite && !g.memToReg && !g.writeEn && !g.readEn && !g.branch && !g.addrCalc
            && !g.imm64 && !g.forceImm && g.valueSize == SIZE64 && imem[0].Code() == 11 && imem[0].Source() == 0
  {
  }

  lemma LoadSignals(imem: Program)
    requires LoadThenSwap(imem)
    ensures var g := Decode(imem[1]);
            && g.regWrite && g.memToReg && g.readEn && g.addrCalc && !g.writeEn && !g.branch && !g.imm64 && !g.aluEn
            && g.valueSize == SIZE16 && !g.signExt && !g.finish && !g.jump && !g.discardIF
    ensures ValidInstruction(imem[1]) && ValidInstruction(imem[2]) && imem[1].Modelled() && imem[2].Modelled()
    ensures !UseDst(imem[2]) && !UseSrc(imem[2]) && UseSrc(imem[1]) && !Decode(imem[2]).finish && !Decode(imem[2]).jump
    ensures SwapAfterLoad(imem[1], imem[2])
  {
  }

  lemma MoveDelivers(imem: Program, p: State)
    requires LoadThenSwap(imem) && p.ex.ctl == Decode(imem[0]) && p.ex.slot == imem[0] && p.unit.phase == Alu.Init
    ensures ExC(p) == 0x8000 && !BlockEx(p, READY)
  {
    MoveSignals(imem);
    hide Decode, FwA, FwB;
    assert SignExtend32(0x8000) == 0x8000;
  }

  lemma LoadDecoded(imem: Program, p: State)
    requires LoadThenSwap(imem) && p.id == IdLatch(imem[1], 1, 2, false) && p.pc == 2
    requires p.ex.ctl == Decode(imem[0]) && p.ex.slot == imem[0] && MemEmpty(p) && NothingSaved(p)
    ensures LoadInEx(imem, Step(imem, p, READY)) && Step(imem, p, READY).ram == p.ram
  {
    MoveSignals(imem);
    LoadSignals(imem);
    MoveDelivers(imem, p);
    hide Decode, ValidInstruction, ByteMask, RamLoad, RamStore, BranchChecker.Taken, ExC, BlockEx, StoreData, UseDst, UseSrc;
    assert Gate(Decode(p.id.ir), true) == Decode(p.id.ir);
    assert !TakenBranch(p) && IdSignals(p) == Decode(imem[1]);
    assert Alu.Next(p.unit, ExPins(p), READY.divider).phase == Alu.Init;
    hide ExPins, Alu.Next;
  }

  lemma LoadInExEnters(imem: Program, p: State)
    requires LoadThenSwap(imem) && LoadInEx(imem, p)
    ensures SwapEnters(imem, p, READY) && ExAddress(p) == 0x8000 && DrainedRam(p) == p.ram
  {
    LoadSignals(imem);
    hide ByteMask, RamLoad, RamStore, BranchChecker.Taken, Decode, ValidInstruction, UseDst, UseSrc;
    assert Gate(Decode(p.id.ir), true) == Decode(p.id.ir);
    assert ExAddress(p) == 0x8000 by {
      assert SignExtend16(0) == 0;
    }
    assert !TakenBranch(p) && !MemError(p);
    assert IdSignals(p) == Decode(imem[2]);
    assert OperandsRight(p);
    assert Inv(imem, p);
  }

  lemma ZeroLoaded(ram: Ram)
    requires ram[0x1000] == ZERO_LANES
    ensures ByteMask(RamLoad(ram, 0x8000, SIZE16), SIZE16, false) == 0
  {
    assert SelectLanes(SIZE16, 0, ZERO_LANES) == ZERO_LANES;
    hide SelectLanes;
    LeValueAppendZeros([], ZERO_LANES);
    assert [] + ZERO_LANES == ZERO_LANES;
  }

  lemma ThreeClocks(imem: Program, p: State)
    ensures Core.Run(imem, p, [READY, READY, READY])
            == Step(imem, Step(imem, Step(imem, p, READY), READY), READY)
  {
    hide Step;
    var three, two, one := [READY, READY, READY], [READY, READY], [READY];
    var p1 := Step(imem, p, READY);
    var p2 := Step(imem, p1, READY);
    assert three[1..] == two && two[1..] == one && one[1..] == [];
    assert Core.Run(imem, p, three) == Core.Run(imem, p1, two);
    assert Core.Run(imem, p1, two) == Core.Run(imem, p2, one);
    assert Core.Run(imem, p2, one) == Core.Run(imem, Step(imem, p2, READY), []);
  }

  /** In this state the load's address ends in other bytes than the loaded zero. */
  lemma LoadInExGoesWrong(imem: Program, p: State)
    requires LoadThenSwap(imem) && LoadInEx(imem, p) && p.ram[0x1000] == ZERO_LANES
    ensures Drain(Step(imem, p, READY)) != Next(imem, Drain(p))
  {
    hide Step, Drain, Next, SwapEnters, LoadedValue, SwapWidth, ExAddress, Pow256, Decode, ValidInstruction;
    LoadInExEnters(imem, p);
    LoadInExLoadsZero(imem, p);
    SwapAfterLoadIsRightExactlyWhen(imem, p, READY);
    Pow256Values();
  }

  lemma LoadInExLoadsZero(imem: Program, p: State)
    requires LoadThenSwap(imem) && LoadInEx(imem, p) && p.ram[0x1000] == ZERO_LANES
    ensures LoadedValue(p) == 0 && SwapWidth(p.id.ir) == 2
  {
    LoadInExEnters(imem, p);
    LoadSignals(imem);
    ZeroLoaded(p.ram);
    hide SwapEnters, RamLoad, ByteMask, DrainedRam, ExAddress, Decode;
  }

  /** From reset, with all registers and the memory word zero, the three instructions swap the
      address 0x8000 where the sequential machine swaps the loaded zero. */
  lemma SwapAfterLoadCounterexample(imem: Program, p0: State)
    requires Initial(p0) && LoadThenSwap(imem)
    requires (forall r: Nibble :: Read(p0.regs, r) == 0) && p0.ram[0x1000] == ZERO_LANES
    ensures var p := Core.Run(imem, p0, [READY, READY, READY]);
            Drain(Step(imem, p, READY)) != Next(imem, Drain(p))
  {
    hide Step, Drain, Next, Initial, LoadInEx, LoadThenSwap;
    var p1 := Step(imem, p0, READY);
    var p2 := Step(imem, p1, READY);
    MoveFetched(imem, p0);
    MoveDecoded(imem, p1);
    LoadDecoded(imem, p2);
    LoadInExGoesWrong(imem, Step(imem, p2, READY));
    ThreeClocks(imem, p0);
  }
}
