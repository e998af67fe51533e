/** The pipeline refines the sequential machine: draining WB, MEM, EX and a resolved branch onto
    registers and memory gives a sequential state, and every clock keeps that state or advances
    it by exactly one instruction. */
module CoreRefinement {
  import opened Words
  import opened ByteLanes
  import opened Control
  import opened SequentialMachine
  import opened Core
  import Bpf
  import Alu
  import BranchChecker

  // Draining the latches ---------------------------------------------------------------

  /** Registers and memory after WB and MEM, in that order. */
  function DrainedRegs(p: State): Regs {
    if p.mem.regWrite && !MemError(p) then
      Write(Bank(p), p.mem.dst,
            if p.mem.memToReg && p.mem.c < TWO_16 then ByteMask(RamLoad(p.ram, p.mem.c, p.mem.valueSize), p.mem.valueSize, p.mem.signExt)
            else p.mem.c)
    else Bank(p)
  }

  function DrainedRam(p: State): Ram {
    if p.mem.writeEn && !MemError(p) then RamStore(p.ram, p.mem.c, p.mem.valueSize, p.mem.data) else p.ram
  }

  predicate ExFaults(p: State) {
    (p.ex.ctl.writeEn || p.ex.ctl.readEn) && !ValidAddress(ExAddress(p))
  }

  /** The value EX will hand over once a division it started has finished. */
  function ExValue(p: State): Word {
    if p.ex.ctl.addrCalc then ExAddress(p) else Alu.Pending(p.unit, ExPins(p))
  }

  function ExRegs(p: State): Regs {
    if p.ex.ctl.regWrite && !ExFaults(p) then
      Write(DrainedRegs(p), p.ex.slot.dst,
            if p.ex.ctl.memToReg && ExValue(p) < TWO_16 then
              ByteMask(RamLoad(DrainedRam(p), ExValue(p), p.ex.ctl.valueSize), p.ex.ctl.valueSize, p.ex.ctl.signExt)
            else ExValue(p))
    else DrainedRegs(p)
  }

  function ExRam(p: State): Ram {
    if p.ex.ctl.writeEn && !ExFaults(p) then RamStore(DrainedRam(p), ExAddress(p), p.ex.ctl.valueSize, StoreData(p))
    else DrainedRam(p)
  }

  /** The first instruction that has not yet reached EX on the right path. */
  function FetchPc(p: State): Addr12 {
    if TakenBranch(p) then p.ex.target else if p.id.discard then p.pc else p.id.pc
  }

  /** The sequential state a pipeline state stands for.  An access outside the address space
      stops the drain at its own instruction. */
  function Drain(p: State): Machine {
    if MemError(p) then Machine(Bank(p), p.ram, p.mem.pc)
    else if ExFaults(p) then Machine(DrainedRegs(p), DrainedRam(p), p.ex.pc)
    else Machine(ExRegs(p), ExRam(p), FetchPc(p))
  }

  // Invariant ----------------------------------------------------------------------------

  /** Nothing in EX that could have an effect: a bubble, or an instruction without one. */
  predicate Quiet(g: Signals) {
    !g.branch && !g.writeEn && !g.readEn && !g.regWrite && !g.aluEn
  }

  /** Does the instruction need the value of its destination (source) register? */
  predicate NeedsDst(s: Slot) {
    UseDst(s) || s.IsBigEndianSwap()
  }

  predicate NeedsSrc(s: Slot) {
    UseSrc(s)
  }

  predicate Live(imem: Program, x: ExLatch) {
    && x.slot == imem[x.pc] && x.ctl == Decode(x.slot)
    && ValidInstruction(x.slot) && x.slot.Modelled() && !x.ctl.finish
    && (x.ctl.branch ==> x.target == Target(x.slot, Inc(x.pc)))
  }

  /** The operand on a forwarding multiplexer is the youngest older value of its register, and
      is not the address of a load still in MEM. */
  predicate OperandRight(p: State, reg: Nibble, operand: Word) {
    && operand == Read(DrainedRegs(p), reg)
    && (p.mem.regWrite && p.mem.dst == reg ==> !p.mem.memToReg)
  }

  predicate OperandsRight(p: State) {
    && (NeedsDst(p.ex.slot) ==> OperandRight(p, p.ex.slot.dst, FwA(p)))
    && (NeedsSrc(p.ex.slot) ==> OperandRight(p, p.ex.slot.src, FwB(p)))
  }

  predicate IdInv(imem: Program, p: State) {
    && (!p.id.discard ==> p.id.ir == imem[p.id.pc] && p.id.pc1 == Inc(p.id.pc) && p.pc == p.id.pc1)
    && (!Quiet(p.ex.ctl) && p.ex.ctl.imm64 ==> p.id.discard && p.id.ir == imem[Inc(p.ex.pc)])
    && (!Quiet(p.ex.ctl) && !p.id.discard ==> p.id.pc == Inc(p.ex.pc))
  }

  predicate MemInv(p: State) {
    && !(p.mem.writeEn && p.mem.readEn)
    && (p.mem.regWrite ==> p.mem.dst < REGISTERS)
    && (p.mem.regWrite && p.mem.memToReg ==> p.mem.readEn)
    && (p.wb.regWrite ==> p.wb.dst < REGISTERS)
  }

  predicate UnitInv(p: State) {
    && Alu.Consistent(p.unit, ExPins(p))
    && (p.unit.phase != Alu.Init && MemAccess(p) && !MemError(p) ==>
          Alu.Pending(p.unit, ExPins(p)) == Alu.Result(ExPins(p)))
  }

  predicate FlagInv(p: State) {
    && (p.savedTaken ==> MemError(p))
    && (p.savedException ==> MemError(p) || IdIllegal(p))
    && (p.savedFinish ==> MemError(p) || IdSignals(p).finish)
  }

  predicate Inv(imem: Program, p: State) {
    && (Quiet(p.ex.ctl) || Live(imem, p.ex))
    && IdInv(imem, p)
    && MemInv(p)
    && UnitInv(p)
    && FlagInv(p)
    && (!Quiet(p.ex.ctl) && !MemError(p) && (p.unit.phase == Alu.Init || MemAccess(p)) ==> OperandsRight(p))
  }

  /** The decoder does not mark the operand of a big-endian swap as read, so a load into that
      register directly before it is not waited for. */
  predicate SwapAfterLoad(first: Slot, second: Slot) {
    && first.Class() == Bpf.LDX && second.IsBigEndianSwap() && first.dst == second.dst
  }

  /** The programs the refinement covers: no call, no atomic, and no big-endian swap in the slot
      after a load of the same register. */
  predicate Covered(imem: Program) {
    && (forall k: int :: 0 <= k < 0x1000 ==> imem[k].Modelled())
    && (forall k: int :: 0 <= k < 0x1000 ==> !SwapAfterLoad(imem[k], imem[Inc(k)]))
  }

  // Draining WB and MEM ----------------------------------------------------------------------

  /** When MEM moves on, the bank of the next clock is what draining WB and MEM gave. */
  lemma MemMovesToWb(imem: Program, p: State, e: Env)
    requires Inv(imem, p) && !MemError(p) && !BlockMem(p, e)
    ensures Bank(Step(imem, p, e)) == DrainedRegs(p)
    ensures Step(imem, p, e).ram == DrainedRam(p)
  {
    hide ByteMask, RamLoad, RamStore, Alu.Next, Decode, ValidInstruction;
    hide NextId, NextEx, NextMem, NextPc, NextSavedTaken, IdIllegal, IdSignals;
    var q := Step(imem, p, e);
    assert !MakeNoop(p, StageMEM);
  }

  // Executing the instruction in EX ----------------------------------------------------------

  /** What IF and ID hold in the clock after a right-path instruction enters EX. */
  predicate FetchFollows(imem: Program, q: State) {
    var s, pc1 := q.ex.slot, Inc(q.ex.pc);
    && !q.savedTaken
    && (if s.Class() == Bpf.LD then q.id.discard && q.id.ir == imem[pc1] && q.pc == Inc(pc1)
        else if q.ex.ctl.jump then q.id.discard && q.pc == Target(s, pc1)
        else !q.id.discard && q.id.pc == pc1)
  }

  /** EX has a right-path instruction whose operands are right and whose division, if it is
      one, has not started. */
  predicate Entered(imem: Program, q: State) {
    && Live(imem, q.ex) && FetchFollows(imem, q) && OperandsRight(q)
    && !MemError(q) && q.unit.phase == Alu.Init
  }

  function Before(q: State): Machine {
    Machine(DrainedRegs(q), DrainedRam(q), q.ex.pc)
  }

  lemma ExecutesWideImmediate(imem: Program, q: State)
    requires Entered(imem, q) && q.ex.slot.Class() == Bpf.LD
    ensures Drain(q) == Next(imem, Before(q))
  {
    hide RamLoad, RamStore, Bank, DrainedRegs, DrainedRam, OperandsRight, ValidAddress, Alu.EndBus, Alu.Division;
    hide Alu.ShiftArithmetic, Alu.ShiftLeft, Alu.ShiftRight, OrWords, AndWords, XorWords;
  }

  lemma ExecutesLoad(imem: Program, q: State)
    requires Entered(imem, q) && q.ex.slot.Class() == Bpf.LDX
    ensures Drain(q) == Next(imem, Before(q))
  {
    hide RamLoad, RamStore, Bank, DrainedRegs, DrainedRam, ByteMask, Alu.Pending, Forwarded;
    assert NeedsSrc(q.ex.slot);
  }

  lemma ExecutesStore(imem: Program, q: State)
    requires Entered(imem, q) && q.ex.slot.Class() in {Bpf.ST, Bpf.STX}
    ensures Drain(q) == Next(imem, Before(q))
  {
    hide RamLoad, RamStore, Bank, DrainedRegs, DrainedRam, ByteMask, Alu.Pending, Forwarded;
    assert NeedsDst(q.ex.slot);
    assert q.ex.slot.Class() == Bpf.STX ==> NeedsSrc(q.ex.slot);
  }

  lemma ExecutesAlu(imem: Program, q: State)
    requires Entered(imem, q) && q.ex.slot.IsAlu()
    ensures Drain(q) == Next(imem, Before(q))
  {
    hide RamLoad, RamStore, Bank, DrainedRegs, DrainedRam, Forwarded;
  }

  lemma ExecutesJump(imem: Program, q: State)
    requires Entered(imem, q) && q.ex.slot.IsJump() && q.ex.ctl.jump
    ensures Drain(q) == Next(imem, Before(q))
  {
    hide RamLoad, RamStore, Bank, DrainedRegs, DrainedRam, Forwarded, OperandsRight, ExValue, BranchChecker.Taken;
  }

  lemma ExecutesBranch(imem: Program, q: State)
    requires Entered(imem, q) && q.ex.slot.IsJump() && !q.ex.ctl.jump
    ensures Drain(q) == Next(imem, Before(q))
  {
    hide RamLoad, RamStore, Bank, DrainedRegs, DrainedRam, Forwarded, ExValue, BranchChecker.Taken, BranchChecker.Holds;
    BranchChecker.TakenIsTheComparison(q.ex.slot.Code(), OperandA(q), OperandB(q), q.ex.ctl.alu64);
  }

  lemma ExecutesOne(imem: Program, q: State)
    requires Entered(imem, q)
    ensures Drain(q) == Next(imem, Before(q))
  {
    var c := q.ex.slot.Class();
    if c == Bpf.LD {
      ExecutesWideImmediate(imem, q);
    } else if c == Bpf.LDX {
      ExecutesLoad(imem, q);
    } else if c == Bpf.ST || c == Bpf.STX {
      ExecutesStore(imem, q);
    } else if c == Bpf.ALU || c == Bpf.ALU64 {
      ExecutesAlu(imem, q);
    } else if q.ex.ctl.jump {
      ExecutesJump(imem, q);
    } else {
      ExecutesBranch(imem, q);
    }
  }

  // One clock, by where the pipeline is held ---------------------------------------------------

  /** A branch in EX is taken only when nothing older has raised an exception, so wrong-path
      slots never stop the front of the pipeline. */
  lemma TakenBranchFetches(imem: Program, p: State)
    requires Inv(imem, p) && TakenBranch(p) && !MemError(p)
    ensures !Flush(p) && !BlockId(p) && IdSignals(p) == NO_SIGNALS
  {
    hide ValidInstruction, ValidAddress, Decode, Hazard, BranchChecker.Taken;
  }

  lemma DivisionIsAlu(x: Slot)
    requires Decode(x).aluEn
    ensures x.IsAlu() && !Decode(x).branch && !Decode(x).writeEn && !Decode(x).readEn && !Decode(x).addrCalc
    ensures !Decode(x).imm64 && !Decode(x).memToReg && Decode(x).regWrite
  {
  }

  lemma PinsTruncated(p: State)
    ensures Alu.Truncated(ExPins(p))
  {
    hide Forwarded, Imm64;
  }

  /** A faulting access stays in MEM and nothing younger takes effect. */
  lemma HeldByFault(imem: Program, p: State, e: Env)
    requires Inv(imem, p) && MemError(p)
    ensures Inv(imem, Step(imem, p, e)) && Drain(Step(imem, p, e)) == Drain(p)
  {
    hide ByteMask, RamLoad, RamStore, Decode, ValidInstruction, ValidAddress, BranchChecker.Taken, Hazard;
    hide Alu.Result, Alu.Output, Alu.Negative, Alu.NegateResult, Alu.Magnitude;
    var q := Step(imem, p, e);
    PinsTruncated(p);
    Alu.PendingKept(p.unit, ExPins(p), e.divider, ExPins(q));
  }

  /** While the memory port makes MEM wait, all latches stay. */
  lemma HeldLatches(imem: Program, p: State, e: Env)
    requires Inv(imem, p) && !MemError(p) && BlockMem(p, e)
    ensures var q := Step(imem, p, e);
            && q == p.(regs := Bank(p), unit := Alu.Next(p.unit, ExPins(p), e.divider), savedTaken := NextSavedTaken(p),
                       savedException := FlagException(p), savedFinish := FlagFinish(p))
            && Bank(q) == Bank(p)
  {
    hide ByteMask, RamLoad, RamStore, Decode, ValidInstruction, ValidAddress, BranchChecker.Taken, Hazard, Alu.Next, Alu.Ready;
    hide UnitInv, OperandsRight, FlagInv, IdInv;
  }

  /** The saved flags only ever repeat what the held stages still show. */
  lemma FlagsRepeat(imem: Program, p: State, e: Env)
    requires Inv(imem, p) && !MemError(p)
    ensures !NextSavedTaken(p) && (TakenBranch(p) <==> VolatileTaken(p))
    ensures FlagException(p) <==> IdIllegal(p)
    ensures FlagFinish(p) <==> IdSignals(p).finish
    ensures HoldIF(p) <==> MakeNoop(p, StageID)
    ensures HoldID(p) <==> MakeNoop(p, StageID)
    ensures !HoldEX(p) && !HoldMEM(p)
  {
    hide ByteMask, RamLoad, RamStore, Decode, ValidInstruction, ValidAddress, BranchChecker.Taken, Hazard, Alu.Next, Alu.Ready;
    hide UnitInv, OperandsRight, IdInv;
    if TakenBranch(p) {
      TakenBranchFetches(imem, p);
    }
  }

  predicate SameLatches(p: State, q: State) {
    && q.pc == p.pc && q.id == p.id && q.ex == p.ex && q.mem == p.mem && q.wb == p.wb
    && q.ram == p.ram && q.readValue == p.readValue && Bank(q) == Bank(p) && q.savedTaken == p.savedTaken
  }

  /** Every signal the drain and the invariant look at is a function of the latches. */
  lemma SameSignals(p: State, q: State)
    requires SameLatches(p, q)
    ensures FwA(q) == FwA(p) && FwB(q) == FwB(p) && ExPins(q) == ExPins(p)
    ensures MemError(q) == MemError(p) && MemAccess(q) == MemAccess(p)
    ensures TakenBranch(q) == TakenBranch(p) && IdSignals(q) == IdSignals(p) && IdIllegal(q) == IdIllegal(p)
    ensures DrainedRegs(q) == DrainedRegs(p) && DrainedRam(q) == DrainedRam(p)
    ensures ExFaults(q) == ExFaults(p) && ExAddress(q) == ExAddress(p) && StoreData(q) == StoreData(p)
    ensures FetchPc(q) == FetchPc(p)
  {
    hide ByteMask, RamLoad, RamStore, Decode, ValidInstruction, ValidAddress, BranchChecker.Taken, Bank;
  }

  /** A division that ends while MEM waits starts again on the same operands. */
  lemma HeldByMemory(imem: Program, p: State, e: Env)
    requires Inv(imem, p) && !MemError(p) && BlockMem(p, e)
    ensures Inv(imem, Step(imem, p, e)) && Drain(Step(imem, p, e)) == Drain(p)
  {
    HeldLatches(imem, p, e);
    FlagsRepeat(imem, p, e);
    HeldUnit(imem, p, e);
    var q := Step(imem, p, e);
    assert MemAccess(p);
    hide Step, ByteMask, RamLoad, RamStore, Decode, ValidInstruction, ValidAddress, Alu.Consistent, Alu.Pending, Alu.Next;
    hide FlagException, FlagFinish, NextSavedTaken, Bank, DrainedRegs, DrainedRam, MemError, MemAccess, TakenBranch;
    hide IdSignals, IdIllegal, ExFaults, ExAddress, StoreData, FetchPc, FwA, FwB, ExPins, Quiet, BlockMem;
    SameSignals(p, q);
  }

  lemma HeldUnit(imem: Program, p: State, e: Env)
    requires Inv(imem, p) && !MemError(p) && BlockMem(p, e)
    ensures var u := Alu.Next(p.unit, ExPins(p), e.divider);
            && Alu.Consistent(u, ExPins(p))
            && (p.ex.ctl.regWrite && !p.ex.ctl.addrCalc ==> Alu.Pending(u, ExPins(p)) == Alu.Pending(p.unit, ExPins(p)))
            && (u.phase != Alu.Init ==> Alu.Pending(u, ExPins(p)) == Alu.Result(ExPins(p)))
  {
    PinsTruncated(p);
    Alu.PendingKept(p.unit, ExPins(p), e.divider, ExPins(p));
    hide ExPins, RamLoad, RamStore, Decode, ValidInstruction, ValidAddress, BranchChecker.Taken, Hazard;
    hide Alu.Result, Alu.Output, Alu.Negative, Alu.NegateResult, Alu.Magnitude;
  }

  /** While the divider works, MEM and WB move on behind the instruction in EX. */
  lemma DividingLatches(imem: Program, p: State, e: Env)
    requires Inv(imem, p) && !MemError(p) && !BlockMem(p, e) && BlockEx(p, e)
    ensures var q := Step(imem, p, e);
            && q.pc == p.pc && q.id == p.id && q.ex == p.ex
            && !q.mem.writeEn && !q.mem.readEn && !q.mem.regWrite
            && q.wb.regWrite == p.mem.regWrite && q.wb.dst == p.mem.dst
            && q.unit == Alu.Next(p.unit, ExPins(p), e.divider)
            && !q.savedTaken && q.savedException == IdIllegal(p) && q.savedFinish == IdSignals(p).finish
  {
    FlagsRepeat(imem, p, e);
    hide ByteMask, RamLoad, RamStore, Decode, ValidInstruction, ValidAddress, BranchChecker.Taken, Hazard, Alu.Next, Alu.Ready;
    hide UnitInv, OperandsRight, FlagInv, IdInv, ExC, StoreData, IdIllegal, IdSignals, FlagException, FlagFinish, NextSavedTaken;
  }

  lemma HeldByDivider(imem: Program, p: State, e: Env)
    requires Inv(imem, p) && !MemError(p) && !BlockMem(p, e) && BlockEx(p, e)
    ensures Inv(imem, Step(imem, p, e)) && Drain(Step(imem, p, e)) == Drain(p)
  {
    DividingLatches(imem, p, e);
    MemMovesToWb(imem, p, e);
    PinsTruncated(p);
    var q := Step(imem, p, e);
    Alu.PendingKept(p.unit, ExPins(p), e.divider, ExPins(q));
    assert p.ex.ctl.aluEn;
    assert Live(imem, p.ex);
    DivisionIsAlu(p.ex.slot);
    hide Step, ByteMask, RamLoad, RamStore, Decode, ValidInstruction, ValidAddress, BranchChecker.Taken, Hazard;
    hide Alu.Result, Alu.Output, Alu.Negative, Alu.NegateResult, Alu.Magnitude, Alu.Next, Alu.Pending, Alu.Ready, Bank;
    hide FwA, FwB;
    assert DrainedRegs(q) == DrainedRegs(p) && DrainedRam(q) == DrainedRam(p);
    assert !TakenBranch(q) && !TakenBranch(p);
    assert ExValue(q) == ExValue(p);
  }

  /** EX hands over to MEM: draining the new WB and MEM is draining the old EX as well. */
  lemma ExMovesToMem(imem: Program, p: State, e: Env)
    requires Inv(imem, p) && !MemError(p) && !BlockMem(p, e) && !BlockEx(p, e)
    ensures var q := Step(imem, p, e);
            && (MemError(q) <==> ExFaults(p))
            && (ExFaults(p) ==> Drain(q) == Drain(p))
            && (!ExFaults(p) ==> DrainedRegs(q) == ExRegs(p) && DrainedRam(q) == ExRam(p))
            && MemInv(q) && q.unit.phase == Alu.Init
  {
    FlagsRepeat(imem, p, e);
    MemMovesToWb(imem, p, e);
    PinsTruncated(p);
    Alu.PendingKept(p.unit, ExPins(p), e.divider, ExPins(p));
    ExDelivers(imem, p);
    var q := Step(imem, p, e);
    hide ByteMask, RamLoad, RamStore, Decode, ValidInstruction, BranchChecker.Taken, Hazard;
    hide Alu.Result, Alu.Output, Alu.Next, Alu.Pending, Bank, FwA, FwB, NextId, NextEx, NextPc, StoreData;
    hide UnitInv, OperandsRight, FlagInv, IdInv, NextSavedTaken, FlagException, FlagFinish;
  }

  /** Facts about an instruction that is not a bubble, as the latches see it. */
  lemma ExDelivers(imem: Program, p: State)
    requires Inv(imem, p)
    ensures p.ex.ctl.writeEn || p.ex.ctl.readEn ==> p.ex.ctl.addrCalc && !(p.ex.ctl.writeEn && p.ex.ctl.readEn)
    ensures p.ex.ctl.regWrite ==> p.ex.slot.dst < REGISTERS
    ensures p.ex.ctl.regWrite && p.ex.ctl.memToReg ==> p.ex.ctl.readEn && p.ex.ctl.addrCalc
    ensures p.ex.ctl.regWrite && ExPins(p).IsDivision() && !p.ex.ctl.addrCalc ==> p.ex.ctl.aluEn
  {
    hide UnitInv, OperandsRight, FlagInv, IdInv, MemInv, OperandA, OperandB;
  }

  /** No right-path instruction enters EX in this clock. */
  predicate NothingEnters(p: State) {
    DiscardId(p) || BlockId(p) || IdIllegal(p) || IdSignals(p).finish
  }

  predicate Moves(p: State, e: Env) {
    !MemError(p) && !BlockMem(p, e) && !BlockEx(p, e)
  }

  /** A bubble enters EX: what the front of the pipeline stands for is unchanged. */
  lemma BubbleEnters(imem: Program, p: State, e: Env)
    requires Inv(imem, p) && Moves(p, e) && NothingEnters(p)
    ensures var q := Step(imem, p, e);
            && Quiet(q.ex.ctl) && FetchPc(q) == FetchPc(p) && IdInv(imem, q) && FlagInv(q)
  {
    FlagsRepeat(imem, p, e);
    if TakenBranch(p) {
      TakenBranchFetches(imem, p);
    }
    hide ByteMask, RamLoad, RamStore, Decode, ValidInstruction, ValidAddress, BranchChecker.Taken, Hazard;
    hide UnitInv, OperandsRight, NextMem, NextWb, NextRam, NextReadValue, Alu.Next, Alu.Ready, Bank, MemError;
    hide NextSavedTaken, FlagException, FlagFinish, HoldIF, HoldID, HoldEX;
  }

  /** The instruction in ID enters EX: what is fetched behind it follows its path. */
  lemma InstructionEnters(imem: Program, p: State, e: Env)
    requires Inv(imem, p) && Moves(p, e) && !NothingEnters(p) && p.id.ir.Modelled()
    ensures var q := Step(imem, p, e);
            && Live(imem, q.ex) && q.ex.pc == p.id.pc && FetchFollows(imem, q) && IdInv(imem, q)
            && q.ex.a == Read(Bank(p), q.ex.slot.dst) && q.ex.b == Read(Bank(p), q.ex.slot.src)
            && FetchPc(p) == p.id.pc
            && !q.savedException && !q.savedFinish
  {
    FlagsRepeat(imem, p, e);
    hide ByteMask, RamLoad, RamStore, ValidInstruction, ValidAddress, BranchChecker.Taken, Hazard;
    hide UnitInv, OperandsRight, NextMem, NextWb, NextRam, NextReadValue, Alu.Next, Alu.Ready, Bank, MemError;
    hide NextSavedTaken, FlagException, FlagFinish, HoldIF, HoldID, HoldEX;
  }

  /** A register the instruction in EX will only obtain in MEM. */
  predicate LoadedInto(p: State, reg: Nibble) {
    p.ex.ctl.regWrite && p.ex.ctl.memToReg && p.ex.slot.dst == reg
  }

  /** Forwarding in the next clock gives an entering instruction the youngest older value. */
  lemma OperandEnters(imem: Program, p: State, e: Env, reg: Nibble)
    requires Inv(imem, p) && Moves(p, e) && !ExFaults(p) && !LoadedInto(p, reg)
    ensures OperandRight(Step(imem, p, e), reg, Forwarded(Step(imem, p, e), reg, Read(Bank(p), reg)))
  {
    FlagsRepeat(imem, p, e);
    MemMovesToWb(imem, p, e);
    ExMovesToMem(imem, p, e);
    hide RamLoad, RamStore, Decode, ValidInstruction, ValidAddress, BranchChecker.Taken, Hazard, UnitInv, OperandsRight, IdInv;
    hide FlagInv, NextEx, NextId, NextPc, NextRam, ExC, StoreData, Alu.Next, Alu.Ready, MemError, NextSavedTaken;
    hide FlagException, FlagFinish, BlockMem, BlockEx, ExFaults, ByteMask;
  }

  lemma EntersWithoutLoadedOperand(imem: Program, p: State)
    requires Inv(imem, p) && !NothingEnters(p) && Covered(imem)
    ensures NeedsDst(p.id.ir) ==> !LoadedInto(p, p.id.ir.dst)
    ensures NeedsSrc(p.id.ir) ==> !LoadedInto(p, p.id.ir.src)
  {
    hide UnitInv, OperandsRight, FlagInv, MemInv, ValidInstruction, BranchChecker.Taken;
    if NeedsDst(p.id.ir) && LoadedInto(p, p.id.ir.dst) {
      assert p.id.ir.IsBigEndianSwap();
      assert Live(imem, p.ex) && p.id.pc == Inc(p.ex.pc);
      assert !SwapAfterLoad(imem[p.ex.pc], imem[Inc(p.ex.pc)]);
      OnlyLoadsWriteFromMemory(p.ex.slot);
    }
  }

  lemma OnlyLoadsWriteFromMemory(s: Slot)
    requires ValidInstruction(s) && s.Modelled() && Decode(s).regWrite && Decode(s).memToReg
    ensures s.Class() == Bpf.LDX
  {
  }

  /** The instruction in ID enters EX, and the drained state advances by exactly it. */
  lemma Advances(imem: Program, p: State, e: Env)
    requires Inv(imem, p) && Moves(p, e) && !NothingEnters(p) && !ExFaults(p) && Covered(imem)
    ensures Inv(imem, Step(imem, p, e))
    ensures Drain(Step(imem, p, e)) == Next(imem, Drain(p))
    ensures Entered(imem, Step(imem, p, e)) && Before(Step(imem, p, e)) == Drain(p)
  {
    assert imem[p.id.pc].Modelled();
    InstructionEnters(imem, p, e);
    ExMovesToMem(imem, p, e);
    EntersWithoutLoadedOperand(imem, p);
    var q := Step(imem, p, e);
    assert q.ex.slot == p.id.ir;
    if NeedsDst(q.ex.slot) {
      OperandEnters(imem, p, e, q.ex.slot.dst);
    }
    if NeedsSrc(q.ex.slot) {
      OperandEnters(imem, p, e, q.ex.slot.src);
    }
    hide Step, NeedsDst, NeedsSrc, Forwarded, Decode, DrainedRegs, DrainedRam, ExRegs, ExRam, Live, ValidInstruction, FetchFollows;
    hide MemInv, IdInv, NothingEnters, Moves, MemError, ExFaults, FetchPc, Alu.Pending, Alu.Result;
    assert OperandsRight(q);
    assert FetchFollows(imem, q) && !q.savedTaken;
    ExecutesOne(imem, q);
  }

  /** Everything behind a faulting access in EX moves up without taking effect. */
  lemma FaultMoves(imem: Program, p: State, e: Env)
    requires Inv(imem, p) && Moves(p, e) && ExFaults(p) && Covered(imem)
    ensures Inv(imem, Step(imem, p, e)) && Drain(Step(imem, p, e)) == Drain(p)
  {
    ExMovesToMem(imem, p, e);
    if NothingEnters(p) {
      BubbleEnters(imem, p, e);
    } else {
      assert imem[p.id.pc].Modelled();
      InstructionEnters(imem, p, e);
    }
    hide Step, Live, IdInv, MemInv, Quiet, NothingEnters, Moves, MemError, ExFaults, Drain;
  }

  lemma BubbleKeeps(imem: Program, p: State, e: Env)
    requires Inv(imem, p) && Moves(p, e) && !ExFaults(p) && NothingEnters(p)
    ensures Inv(imem, Step(imem, p, e)) && Drain(Step(imem, p, e)) == Drain(p)
  {
    ExMovesToMem(imem, p, e);
    BubbleEnters(imem, p, e);
    hide Step, Live, IdInv, MemInv, NothingEnters, Moves, MemError, DrainedRegs, DrainedRam, ExRegs, ExRam, FetchPc, FlagInv;
  }

  /** One clock, for every answer of the memory port and the divider: the invariant is kept and
      the drained state stays or advances by exactly one sequential instruction. */
  lemma StepRefines(imem: Program, p: State, e: Env)
    requires Inv(imem, p) && Covered(imem)
    ensures Inv(imem, Step(imem, p, e))
    ensures Drain(Step(imem, p, e)) == if Enters(p, e) then Next(imem, Drain(p)) else Drain(p)
  {
    if MemError(p) {
      HeldByFault(imem, p, e);
    } else if BlockMem(p, e) {
      HeldByMemory(imem, p, e);
    } else if BlockEx(p, e) {
      HeldByDivider(imem, p, e);
    } else if ExFaults(p) {
      FaultMoves(imem, p, e);
    } else if NothingEnters(p) {
      BubbleKeeps(imem, p, e);
    } else {
      Advances(imem, p, e);
    }
  }

  /** The clocks in which the drained state advances. */
  predicate Enters(p: State, e: Env) {
    Moves(p, e) && !ExFaults(p) && !NothingEnters(p)
  }

  // Big-endian swaps behind a load -------------------------------------------------------------

  /** The value a load in EX will put into its register. */
  function LoadedValue(p: State): Word {
    if ExAddress(p) < TWO_16 then
      ByteMask(RamLoad(DrainedRam(p), ExAddress(p), p.ex.ctl.valueSize), p.ex.ctl.valueSize, p.ex.ctl.signExt)
    else ExAddress(p)
  }

  /** A big-endian swap enters EX one clock behind a load of its register. */
  predicate SwapEnters(imem: Program, p: State, e: Env) {
    && Inv(imem, p) && Enters(p, e)
    && Live(imem, p.ex) && SwapAfterLoad(p.ex.slot, p.id.ir)
  }

  /** The pipeline swaps the address of the load where the sequential machine swaps the loaded
      value. */
  lemma SwapOperands(imem: Program, p: State, e: Env)
    requires SwapEnters(imem, p, e)
    ensures FwA(Step(imem, p, e)) == ExAddress(p)
    ensures Read(ExRegs(p), p.id.ir.dst) == LoadedValue(p)
  {
    FlagsRepeat(imem, p, e);
    hide RamLoad, RamStore, ByteMask, ValidAddress, BranchChecker.Taken, UnitInv, OperandsRight, IdInv, FlagInv;
    hide NextId, NextPc, NextWb, Alu.Next, Alu.Ready, Bank, DrainedRegs, DrainedRam, MemError, ExAddress, BlockMem, FlagException, FlagFinish;
    hide IdIllegal, IdSignals, BlockId, DiscardId, Alu.Pending, Alu.Output;
    var q := Step(imem, p, e);
    assert q.mem.regWrite && q.mem.dst == p.ex.slot.dst && q.mem.c == ExAddress(p);
    assert q.ex.slot == p.id.ir;
  }

  function SwapOf(s: Slot, w: Word): Word {
    Alu.EndBus(w, SignExtend32(s.imm))
  }

  lemma SwapResults(imem: Program, p: State, e: Env)
    requires SwapEnters(imem, p, e)
    ensures var q, m := Step(imem, p, e), Drain(p);
            && Drain(q) == Machine(Write(m.regs, p.id.ir.dst, SwapOf(p.id.ir, ExAddress(p))), m.ram, Inc(m.pc))
            && Next(imem, m) == Machine(Write(m.regs, p.id.ir.dst, SwapOf(p.id.ir, LoadedValue(p))), m.ram, Inc(m.pc))
  {
    SwapOperands(imem, p, e);
    InstructionEnters(imem, p, e);
    ExMovesToMem(imem, p, e);
    var q := Step(imem, p, e);
    hide Step, Inv, Moves, NothingEnters, ExRegs, ExRam, DrainedRegs, DrainedRam, LoadedValue, ExAddress, FwA, Alu.EndBus, RamLoad, RamStore;
    hide ByteMask, BranchChecker.Taken, ValidAddress, Bank, MemError, SwapEnters;
  }

  /** Bytes a swap instruction covers, by the first size bit set in its immediate. */
  function SwapWidth(s: Slot): (n: nat)
    ensures n in {2, 4, 8}
  {
    if Bit(s.imm, 16) == 1 then 2 else if Bit(s.imm, 32) == 1 then 4 else 8
  }

  lemma SwapCovers(s: Slot, w: Word)
    requires s.IsBigEndianSwap() && ValidInstruction(s)
    ensures SwapOf(s, w) == Alu.Swap(w, SwapWidth(s))
  {
    assert EndSizeOk(s.imm);
    SizesAcceptedExactly(s.imm, 0);
    hide Alu.Swap, ValidInstruction, EndSizeOk;
  }

  /** The exact condition under which an unprotected swap is right: in the bytes that the swap
      covers, the address of the load is the loaded value. */
  lemma SwapAfterLoadIsRightExactlyWhen(imem: Program, p: State, e: Env)
    requires SwapEnters(imem, p, e)
    ensures var m := Pow256(SwapWidth(p.id.ir));
            Drain(Step(imem, p, e)) == Next(imem, Drain(p)) <==> ExAddress(p) % m == LoadedValue(p) % m
  {
    SwapResults(imem, p, e);
    assert Writable(p.id.ir.dst) && ValidInstruction(p.id.ir) && p.id.ir.IsBigEndianSwap();
    var m, r := Drain(p), p.id.ir.dst;
    assert Read(Write(m.regs, r, SwapOf(p.id.ir, ExAddress(p))), r) == SwapOf(p.id.ir, ExAddress(p));
    assert Read(Write(m.regs, r, SwapOf(p.id.ir, LoadedValue(p))), r) == SwapOf(p.id.ir, LoadedValue(p));
    hide Step, Inv, Drain, Next, SwapOf, LoadedValue, ExAddress, SwapWidth, Alu.Swap, SwapEnters, ValidInstruction, Pow256;
    SwapCovers(p.id.ir, ExAddress(p));
    SwapCovers(p.id.ir, LoadedValue(p));
    Alu.SwapIsInjective(ExAddress(p), LoadedValue(p), SwapWidth(p.id.ir));
  }
}
