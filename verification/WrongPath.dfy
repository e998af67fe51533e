/** Wrong-path safety over whole runs: two programs that agree on the slots the sequential machine
    executes, and on the immediates of wide loads, go through the same drained states clock by
    clock, whatever they hold elsewhere and whatever is fetched from there. */
module WrongPath {
  import opened Control
  import opened SequentialMachine
  import opened Core
  import opened CoreRefinement
  import opened CoreRuns
  import ByteLanes
  import Bpf
  import Alu
  import BranchChecker

  // Programs that agree where it matters ------------------------------------------------------

  /** Same instruction at the program counter, second slot of a wide load included. */
  predicate SameCode(i1: Program, i2: Program, m: Machine) {
    i1[m.pc] == i2[m.pc] && (i1[m.pc].Class() == Bpf.LD ==> i1[Inc(m.pc)].imm == i2[Inc(m.pc)].imm)
  }

  ghost predicate Agree(i1: Program, i2: Program, m: Machine) {
    forall n: nat :: SameCode(i1, i2, SequentialMachine.Run(i1, m, n))
  }

  lemma AgreeNow(i1: Program, i2: Program, m: Machine)
    requires Agree(i1, i2, m)
    ensures SameCode(i1, i2, m)
  {
    assert SequentialMachine.Run(i1, m, 0) == m;
  }

  lemma AgreeNext(i1: Program, i2: Program, m: Machine)
    requires Agree(i1, i2, m)
    ensures Agree(i1, i2, Next(i1, m)) && Next(i2, m) == Next(i1, m)
  {
    forall n: nat
      ensures SameCode(i1, i2, SequentialMachine.Run(i1, Next(i1, m), n))
    {
      assert SequentialMachine.Run(i1, m, n + 1) == SequentialMachine.Run(i1, Next(i1, m), n);
    }
    AgreeNow(i1, i2, m);
    hide ByteLanes.RamLoad, ByteLanes.RamStore, ByteLanes.ByteMask, AluValue, BranchTaken, ValidInstruction, Write, Read;
  }

  // Pipelines that differ in discarded slots only ----------------------------------------------

  predicate SameEx(p: State, q: State) {
    if Quiet(p.ex.ctl) then Quiet(q.ex.ctl) else q.ex == p.ex
  }

  predicate SameMem(p: State, q: State) {
    if MemNoop(p) then MemNoop(q) else q.mem == p.mem
  }

  predicate SameWb(p: State, q: State) {
    if p.wb.regWrite then q.wb == p.wb else !q.wb.regWrite
  }

  /** Alike but for the instruction in ID. */
  predicate AlikeBehindId(p: State, q: State) {
    && q.pc == p.pc && q.regs == p.regs && q.unit == p.unit && q.ram == p.ram && q.readValue == p.readValue
    && q.savedTaken == p.savedTaken && q.savedException == p.savedException && q.savedFinish == p.savedFinish
    && q.id.discard == p.id.discard && q.id.pc == p.id.pc && q.id.pc1 == p.id.pc1
    && SameEx(p, q) && SameMem(p, q) && SameWb(p, q)
  }

  /** A wide load in EX takes the same immediate from the slot behind it. */
  predicate SameWide(i1: Program, i2: Program, p: State) {
    !Quiet(p.ex.ctl) && p.ex.ctl.imm64 ==> i1[Inc(p.ex.pc)].imm == i2[Inc(p.ex.pc)].imm
  }

  /** The instruction in ID is the same unless it is discarded, and so is the upper half of a wide
      immediate. */
  predicate Alike(p: State, q: State) {
    && AlikeBehindId(p, q)
    && (!DiscardId(p) ==> q.id.ir == p.id.ir)
    && (!Quiet(p.ex.ctl) && p.ex.ctl.imm64 ==> q.id.ir.imm == p.id.ir.imm)
  }

  /** What keeps two runs together. */
  ghost predicate Together(i1: Program, i2: Program, p: State, q: State) {
    && Invariant(i1, p) && Invariant(i2, q) && Covered(i1) && Covered(i2)
    && Agree(i1, i2, Drain(p)) && AlikeBehindId(p, q) && SameWide(i1, i2, p)
  }

  lemma BackSignals(i1: Program, i2: Program, p: State, q: State)
    requires Inv(i1, p) && Inv(i2, q) && AlikeBehindId(p, q)
    ensures Bank(q) == Bank(p) && MemError(q) == MemError(p) && MemAccess(q) == MemAccess(p)
    ensures DrainedRegs(q) == DrainedRegs(p) && DrainedRam(q) == DrainedRam(p)
    ensures !Quiet(p.ex.ctl) ==> FwA(q) == FwA(p) && FwB(q) == FwB(p) && ExAddress(q) == ExAddress(p)
    ensures ExFaults(q) == ExFaults(p)
  {
    hide ByteLanes.ByteMask, ByteLanes.RamLoad, ByteLanes.RamStore, ValidAddress, Decode, ValidInstruction, UnitInv, OperandsRight, FlagInv, IdInv;
  }

  lemma BranchSignals(i1: Program, i2: Program, p: State, q: State)
    requires Inv(i1, p) && Inv(i2, q) && AlikeBehindId(p, q)
    ensures VolatileTaken(q) == VolatileTaken(p) && TakenBranch(q) == TakenBranch(p) && DiscardId(q) == DiscardId(p)
  {
    BackSignals(i1, i2, p, q);
    if p.ex.ctl.branch {
      assert Live(i1, p.ex);
      assert !p.ex.ctl.imm64;
    }
    hide FwA, FwB, ValidInstruction, UnitInv, OperandsRight, FlagInv, IdInv, Bank, DrainedRegs, DrainedRam, ExFaults, MemError, ExAddress;
    hide BranchChecker.Taken, MemInv;
  }

  /** The unit's signals: a bubble asks nothing of it. */
  lemma UnitSignals(i1: Program, i2: Program, p: State, q: State, e: Env)
    requires Inv(i1, p) && Inv(i2, q) && Alike(p, q)
    ensures BlockEx(q, e) == BlockEx(p, e) && Alu.Next(q.unit, ExPins(q), e.divider) == Alu.Next(p.unit, ExPins(p), e.divider)
    ensures !Quiet(p.ex.ctl) ==> ExPins(q) == ExPins(p) && ExC(q) == ExC(p) && StoreData(q) == StoreData(p)
    ensures Quiet(p.ex.ctl) ==> !BlockEx(p, e) && p.unit.phase == Alu.Init
  {
    BackSignals(i1, i2, p, q);
    hide FwA, FwB, ValidInstruction, OperandsRight, FlagInv, IdInv, Bank, DrainedRegs, DrainedRam, ExFaults, MemError, ExAddress, DiscardId;
    hide Alu.Output, Alu.Pending, Alu.Result, Live, MemInv, Alu.NegateResult, Alu.Accept;
  }

  /** The signals of ID and the flush logic. */
  lemma FrontSignals(i1: Program, i2: Program, p: State, q: State)
    requires Inv(i1, p) && Inv(i2, q) && Alike(p, q)
    ensures IdSignals(q) == IdSignals(p) && IdIllegal(q) == IdIllegal(p) && BlockId(q) == BlockId(p)
    ensures FlagException(q) == FlagException(p) && FlagFinish(q) == FlagFinish(p)
    ensures Flush(q) == Flush(p) && FlushStage(q) == FlushStage(p)
    ensures JumpOrTaken(q) == JumpOrTaken(p) && (JumpOrTaken(p) && !MemError(p) ==> PcTaken(q) == PcTaken(p))
  {
    BackSignals(i1, i2, p, q);
    BranchSignals(i1, i2, p, q);
    hide ValidInstruction, Inv, Bank, DrainedRegs, DrainedRam, ExFaults, MemError, TakenBranch, VolatileTaken, Decode, Target, UseDst, UseSrc;
    if TakenBranch(p) {
      TakenIsLive(i1, p);
    }
  }

  /** A taken branch outside a fault is in EX. */
  lemma TakenIsLive(imem: Program, p: State)
    requires Inv(imem, p) && TakenBranch(p)
    ensures !Quiet(p.ex.ctl) || MemError(p)
  {
    hide ValidInstruction, UnitInv, OperandsRight, IdInv, MemInv, BranchChecker.Taken, MemError;
  }

  /** Where no fault is ahead, a slot that counts is one the sequential machine executes. */
  lemma ExecutedSlotsAgree(i1: Program, i2: Program, p: State, q: State)
    requires Together(i1, i2, p, q) && !FaultAhead(p)
    ensures Alike(p, q)
  {
    hide ByteLanes.ByteMask, ValidAddress, ValidInstruction, Decode, UnitInv, OperandsRight, FlagInv, MemInv, OutcomeOf, Covered;
    hide Bank, DrainedRegs, DrainedRam, ExRegs, ExRam, MemError, ExFaults, VolatileTaken, Agree;
    AgreeNow(i1, i2, Drain(p));
  }

  // One clock ------------------------------------------------------------------------------------

  /** The latches load in the same clocks, and bubbles are put in the same places. */
  lemma LoadsAlike(i1: Program, i2: Program, p: State, q: State, e: Env)
    requires Inv(i1, p) && Inv(i2, q) && Alike(p, q)
    ensures LoadPc(q, e) == LoadPc(p, e) && LoadIf(q, e) == LoadIf(p, e) && LoadId(q, e) == LoadId(p, e)
    ensures LoadEx(q, e) == LoadEx(p, e) && LoadMem(q, e) == LoadMem(p, e) && BlockMem(q, e) == BlockMem(p, e)
    ensures forall s :: MakeNoop(q, s) == MakeNoop(p, s)
    ensures BlockEx(q, e) == BlockEx(p, e) && HoldIF(q) == HoldIF(p)
  {
    BackSignals(i1, i2, p, q);
    UnitSignals(i1, i2, p, q, e);
    FrontSignals(i1, i2, p, q);
    hide Inv, Alike, MemError, MemAccess, BlockId, BlockEx, Flush, FlushStage, IdSignals, JumpOrTaken, PcTaken, FlagException, FlagFinish, Quiet;
  }

  lemma FrontAlike(i1: Program, i2: Program, p: State, q: State, e: Env)
    requires Inv(i1, p) && Inv(i2, q) && Alike(p, q) && !FaultAhead(p)
    ensures NextPc(q, e) == NextPc(p, e)
    ensures var s, t := NextId(i1, p, e), NextId(i2, q, e);
            t.discard == s.discard && t.pc == s.pc && t.pc1 == s.pc1
    ensures NextSavedTaken(q) == NextSavedTaken(p)
    ensures Enters(q, e) == Enters(p, e)
  {
    BackSignals(i1, i2, p, q);
    BranchSignals(i1, i2, p, q);
    FrontSignals(i1, i2, p, q);
    LoadsAlike(i1, i2, p, q, e);
    hide Inv, MemError, ExFaults, TakenBranch, VolatileTaken, DiscardId, IdSignals, IdIllegal, BlockId, BlockEx, BlockMem, MakeNoop, LoadPc, LoadIf, HoldIF;
    hide JumpOrTaken, PcTaken, SameEx, SameMem, SameWb, Quiet;
  }

  lemma ExAlike(i1: Program, i2: Program, p: State, q: State, e: Env)
    requires Inv(i1, p) && Inv(i2, q) && Alike(p, q) && !FaultAhead(p)
    ensures SameEx(Step(i1, p, e), Step(i2, q, e))
  {
    BackSignals(i1, i2, p, q);
    BranchSignals(i1, i2, p, q);
    FrontSignals(i1, i2, p, q);
    LoadsAlike(i1, i2, p, q, e);
    hide Inv, MemError, ExFaults, TakenBranch, VolatileTaken, IdIllegal, BlockId, BlockEx, FlagException, FlagFinish, FaultAhead, MakeNoop, BlockMem;
    hide LoadPc, LoadIf, LoadId, LoadEx, LoadMem, HoldIF, Flush, FlushStage, JumpOrTaken, PcTaken, SameMem, SameWb, Alu.Next, ExPins, Decode, Target, Read, Bank;
    hide NextPc, NextId, NextMem, NextWb, NextRam, NextReadValue, NextSavedTaken, DiscardId, Write;
  }

  lemma BackAlike(i1: Program, i2: Program, p: State, q: State, e: Env)
    requires Inv(i1, p) && Inv(i2, q) && Alike(p, q) && !FaultAhead(p)
    ensures SameMem(Step(i1, p, e), Step(i2, q, e)) && SameWb(Step(i1, p, e), Step(i2, q, e))
    ensures NextRam(q, e) == NextRam(p, e) && NextReadValue(q, e) == NextReadValue(p, e)
  {
    BackSignals(i1, i2, p, q);
    UnitSignals(i1, i2, p, q, e);
    LoadsAlike(i1, i2, p, q, e);
    hide Inv, MemError, ExFaults, DiscardId, BlockEx, BlockMem, FaultAhead, MakeNoop, LoadEx, LoadMem, Flush, FlushStage, FlagException, FlagFinish;
    hide Alu.Next, ExPins, ExC, StoreData, Bank, NextPc, NextId, NextEx, NextSavedTaken, ByteLanes.RamStore, ByteLanes.RamLoad;
  }

  /** The wide load that enters EX is one the sequential machine executes. */
  lemma WideAgrees(i1: Program, i2: Program, p: State, q: State, e: Env)
    requires Together(i1, i2, p, q) && !FaultAhead(p)
    ensures SameWide(i1, i2, Step(i1, p, e))
  {
    var p' := Step(i1, p, e);
    if LoadId(p, e) {
      if NothingEnters(p) {
        BubbleEnters(i1, p, e);
      } else {
        assert i1[p.id.pc].Modelled();
        InstructionEnters(i1, p, e);
        AgreeNow(i1, i2, Drain(p));
        assert Drain(p).pc == p.id.pc;
        assert Live(i1, p'.ex);
        assert p'.ex.ctl.imm64 ==> p'.ex.slot.Class() == Bpf.LD;
      }
    }
    hide NextPc, NextId, NextMem, NextWb, NextRam, NextReadValue, NextSavedTaken, Alu.Next, Bank, ExRegs, ExRam, DrainedRegs, DrainedRam, UnitInv, OperandsRight;
    hide FlagInv, MemInv, ByteLanes.ByteMask, ValidAddress, ValidInstruction, BranchChecker.Taken, Agree;
  }

  /** One clock keeps two runs together, and they execute in the same clocks. */
  lemma TogetherStep(i1: Program, i2: Program, p: State, q: State, e: Env)
    requires Together(i1, i2, p, q) && Drain(q) == Drain(p) && !FaultAhead(p)
    ensures Together(i1, i2, Step(i1, p, e), Step(i2, q, e))
    ensures Drain(Step(i2, q, e)) == Drain(Step(i1, p, e)) && Enters(q, e) == Enters(p, e)
  {
    ExecutedSlotsAgree(i1, i2, p, q);
    BackSignals(i1, i2, p, q);
    UnitSignals(i1, i2, p, q, e);
    FrontSignals(i1, i2, p, q);
    FrontAlike(i1, i2, p, q, e);
    ExAlike(i1, i2, p, q, e);
    BackAlike(i1, i2, p, q, e);
    WideAgrees(i1, i2, p, q, e);
    InvariantStep(i1, p, e);
    InvariantStep(i2, q, e);
    if Enters(p, e) {
      AgreeNext(i1, i2, Drain(p));
    }
    hide Inv, Covered, Drain, Agree, Next, OutcomeOf, Alike, SameEx, SameMem, SameWb, SameWide, FaultAhead, Enters, MemError, FlagException, FlagFinish;
    hide NextPc, NextId, NextEx, NextMem, NextWb, NextRam, NextReadValue, NextSavedTaken, Alu.Next, Bank, ExPins;
    hide DiscardId, IdSignals, BlockId, BlockEx, JumpOrTaken, PcTaken, Flush, FlushStage;
  }

  lemma SameFault(i1: Program, i2: Program, p: State, q: State)
    requires Together(i1, i2, p, q)
    ensures FaultAhead(q) == FaultAhead(p)
  {
    BackSignals(i1, i2, p, q);
    hide Inv, Covered, Agree, AlikeBehindId, SameWide, MemError, ExFaults, Drain, OutcomeOf;
  }

  // Runs -----------------------------------------------------------------------------------------

  lemma {:induction false} RunsTogether(i1: Program, i2: Program, p: State, q: State, env: seq<Env>)
    requires Together(i1, i2, p, q) && Drain(q) == Drain(p)
    ensures Drain(Core.Run(i2, q, env)) == Drain(Core.Run(i1, p, env)) && Executed(i2, q, env) == Executed(i1, p, env)
    decreases |env|
  {
    hide Invariant, Covered, Agree, AlikeBehindId, SameWide, Drain, FaultAhead, Step, Enters;
    if FaultAhead(p) {
      SameFault(i1, i2, p, q);
      NothingAfterFault(i1, p, env);
      NothingAfterFault(i2, q, env);
      RunRefinesFrom(i1, p, env);
      RunRefinesFrom(i2, q, env);
    } else if env != [] {
      TogetherStep(i1, i2, p, q, env[0]);
      RunsTogether(i1, i2, Step(i1, p, env[0]), Step(i2, q, env[0]), env[1..]);
    }
  }

  /** Only executed slots matter.  Take two covered programs that agree on every slot the
      sequential machine executes from reset, the slot it stops at included, and on the immediate
      behind every wide load it executes.  Under the same memory and divider answers both send as
      many instructions into EX and go through the same drained states. */
  lemma OnlyExecutedSlotsMatter(i1: Program, i2: Program, p: State, env: seq<Env>)
    requires Initial(p) && Covered(i1) && Covered(i2)
    requires forall n: nat :: SameCode(i1, i2, SequentialMachine.Run(i1, Machine(p.regs, p.ram, 0), n))
    ensures Executed(i2, p, env) == Executed(i1, p, env)
    ensures Drain(Core.Run(i2, p, env)) == Drain(Core.Run(i1, p, env))
  {
    InvariantInitially(i1, p);
    InvariantInitially(i2, p);
    assert Together(i1, i2, p, p);
    hide Initial, Together, Drain, Covered;
    RunsTogether(i1, i2, p, p, env);
  }
}
