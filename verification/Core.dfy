/** The five-stage pipeline: one clock as a step over the program counter, the stage latches,
    the register bank, the saved flags, the divider unit and the data memory.  The memory port
    and the divider answer when the environment says so; the core never sleeps. */
module Core {
  import opened Words
  import opened ByteLanes
  import opened Control
  import opened SequentialMachine
  import Bpf
  import Alu
  import BranchChecker

  // State ------------------------------------------------------------------------------

  datatype IdLatch = IdLatch(ir: Slot, pc: Addr12, pc1: Addr12, discard: bool)

  datatype ExLatch = ExLatch(ctl: Signals, slot: Slot, target: Addr12, a: Word, b: Word, pc: Addr12)

  datatype MemLatch = MemLatch(
    writeEn: bool, readEn: bool, signExt: bool, valueSize: Size, memToReg: bool, regWrite: bool,
    data: Word, c: Word, dst: Nibble, pc: Addr12)

  datatype WbLatch = WbLatch(memToReg: bool, regWrite: bool, signExt: bool, valueSize: Size, exValue: Word, dst: Nibble)

  /** `readValue` is the memory interface's saved word after lane selection. */
  datatype State = State(
    pc: Addr12, id: IdLatch, ex: ExLatch, mem: MemLatch, wb: WbLatch, regs: Regs,
    unit: Alu.Unit, savedTaken: bool, savedException: bool, savedFinish: bool,
    ram: Ram, readValue: Word)

  /** What the environment answers in one clock. */
  datatype Env = Env(memReady: bool, divider: Alu.Divider)

  datatype Stage = StageIF | StageID | StageEX | StageMEM

  /** The state after a reset: nothing in flight, the ID slot discarded. */
  predicate Initial(p: State) {
    && p.pc == 0 && p.id.discard
    && p.ex.ctl == NO_SIGNALS.(valueSize := SIZE32)
    && !p.mem.writeEn && !p.mem.readEn && !p.mem.regWrite && !p.wb.regWrite
    && p.unit.phase == Alu.Init && !p.savedTaken && !p.savedException && !p.savedFinish
  }

  // WB and the register bank -----------------------------------------------------------

  function WbMemValue(p: State): Word {
    ByteMask(p.readValue, p.wb.valueSize, p.wb.signExt)
  }

  function WbValue(p: State): Word {
    if p.wb.memToReg then WbMemValue(p) else p.wb.exValue
  }

  /** The register bank after the falling edge, which ID reads in the same clock. */
  function Bank(p: State): Regs {
    if p.wb.regWrite then Write(p.regs, p.wb.dst, WbValue(p)) else p.regs
  }

  // MEM ----------------------------------------------------------------------------------

  predicate MemAccess(p: State) {
    p.mem.writeEn || p.mem.readEn
  }

  predicate MemError(p: State) {
    MemAccess(p) && !ValidAddress(p.mem.c)
  }

  /** An access outside the address space is answered at once; others when the port is ready. */
  predicate BlockMem(p: State, e: Env) {
    MemAccess(p) && !MemError(p) && !e.memReady
  }

  // EX -----------------------------------------------------------------------------------

  function Forwarded(p: State, reg: Nibble, latched: Word): Word {
    match Forward(reg, p.mem.regWrite, p.mem.dst, p.wb.regWrite, p.wb.memToReg, p.wb.dst)
    case NoForward => latched
    case FromMem => p.mem.c
    case FromWbMemory => WbMemValue(p)
    case FromWbEx => p.wb.exValue
  }

  function FwA(p: State): Word { Forwarded(p, p.ex.slot.dst, p.ex.a) }
  function FwB(p: State): Word { Forwarded(p, p.ex.slot.src, p.ex.b) }

  /** A wide immediate takes its upper half from the slot now in ID. */
  function Imm64(p: State): Word {
    if p.ex.ctl.imm64 then Concat32(p.id.ir.imm, p.ex.slot.imm) else SignExtend32(p.ex.slot.imm)
  }

  function OperandA(p: State): Word {
    Narrow(FwA(p), p.ex.ctl.alu64)
  }

  function OperandB(p: State): Word {
    Narrow(if p.ex.slot.Source() == 0 || p.ex.ctl.forceImm then Imm64(p) else FwB(p), p.ex.ctl.alu64)
  }

  function StoreData(p: State): Word {
    if p.ex.ctl.forceImm then Imm64(p) else FwB(p)
  }

  function ExAddress(p: State): Word {
    Wrap((if p.ex.ctl.writeEn then FwA(p) else FwB(p)) + SignExtend16(p.ex.slot.off))
  }

  function ExPins(p: State): Alu.Pins {
    Alu.Pins(p.ex.ctl.aluEn, if p.ex.ctl.imm64 then Bpf.MOV else p.ex.slot.Code(), p.ex.ctl.alu64,
             p.ex.slot.off % 2 == 1, p.ex.ctl.valueSize, OperandA(p), OperandB(p))
  }

  predicate BlockEx(p: State, e: Env) {
    !Alu.Ready(p.unit, ExPins(p), e.divider)
  }

  function ExC(p: State): Word {
    if p.ex.ctl.addrCalc then ExAddress(p) else Alu.Output(p.unit, ExPins(p))
  }

  predicate VolatileTaken(p: State) {
    p.ex.ctl.branch && BranchChecker.Taken(p.ex.slot.Code(), OperandA(p), OperandB(p), p.ex.ctl.alu64)
  }

  predicate TakenBranch(p: State) {
    VolatileTaken(p) || p.savedTaken
  }

  // ID -----------------------------------------------------------------------------------

  predicate DiscardId(p: State) {
    p.id.discard || TakenBranch(p)
  }

  function IdSignals(p: State): Signals {
    Gate(Decode(p.id.ir), !DiscardId(p))
  }

  predicate BlockId(p: State) {
    !DiscardId(p) && Hazard(p.id.ir, p.ex.ctl.regWrite, p.ex.ctl.memToReg, p.ex.slot.dst)
  }

  predicate IdIllegal(p: State) {
    !DiscardId(p) && !ValidInstruction(p.id.ir)
  }

  // Exceptions and finish ------------------------------------------------------------------

  predicate Exception(p: State) {
    MemError(p) || IdIllegal(p)
  }

  function ExceptionStage(p: State): Stage {
    if MemError(p) then StageMEM else if IdIllegal(p) then StageID else StageIF
  }

  predicate FlagException(p: State) { p.savedException || Exception(p) }
  predicate FlagFinish(p: State) { p.savedFinish || IdSignals(p).finish }
  predicate Flush(p: State) { FlagException(p) || FlagFinish(p) }

  function FlushStage(p: State): Stage {
    if FlagException(p) then ExceptionStage(p) else StageID
  }

  predicate MakeNoop(p: State, stage: Stage) {
    Flush(p) && FlushStage(p) == stage
  }

  // The noop injected after a stage blocks that stage and all before it.
  predicate HoldIF(p: State) { Flush(p) }
  predicate HoldID(p: State) { Flush(p) && FlushStage(p) != StageIF }
  predicate HoldEX(p: State) { MakeNoop(p, StageEX) || MakeNoop(p, StageMEM) }
  predicate HoldMEM(p: State) { MakeNoop(p, StageMEM) }

  // Loads ----------------------------------------------------------------------------------

  predicate LoadPc(p: State, e: Env) { !(BlockId(p) || BlockEx(p, e) || BlockMem(p, e) || HoldIF(p)) }
  predicate LoadIf(p: State, e: Env) { !(BlockId(p) || BlockEx(p, e) || BlockMem(p, e) || HoldID(p)) }
  predicate LoadId(p: State, e: Env) { !(BlockEx(p, e) || BlockMem(p, e) || HoldEX(p)) }
  predicate LoadEx(p: State, e: Env) { !(BlockMem(p, e) || HoldMEM(p)) }
  predicate LoadMem(p: State, e: Env) { !BlockMem(p, e) }

  // Next values of the latches ---------------------------------------------------------------

  function PcTaken(p: State): Addr12 {
    if TakenBranch(p) then p.ex.target else Target(p.id.ir, p.id.pc1)
  }

  predicate JumpOrTaken(p: State) {
    IdSignals(p).jump || TakenBranch(p)
  }

  function NextPc(p: State, e: Env): Addr12 {
    if !LoadPc(p, e) then p.pc else if JumpOrTaken(p) then PcTaken(p) else Inc(p.pc)
  }

  function NextId(imem: Program, p: State, e: Env): IdLatch {
    if !LoadIf(p, e) then p.id
    else IdLatch(imem[p.pc], p.pc, Inc(p.pc), IdSignals(p).discardIF || JumpOrTaken(p) || MakeNoop(p, StageIF))
  }

  /** A bubble keeps the side-effect-free signals and drops the others. */
  function Bubble(g: Signals, bubble: bool): Signals {
    if bubble then g.(branch := false, writeEn := false, readEn := false, regWrite := false, aluEn := false) else g
  }

  function NextEx(p: State, e: Env): ExLatch {
    if !LoadId(p, e) then p.ex
    else
      var regs := Bank(p);
      ExLatch(Bubble(IdSignals(p), BlockId(p) || MakeNoop(p, StageID)), p.id.ir,
              if IdSignals(p).branch then Target(p.id.ir, p.id.pc1) else Read(regs, 0) % TWO_12,
              Read(regs, p.id.ir.dst), Read(regs, p.id.ir.src), p.id.pc)
  }

  function NextMem(p: State, e: Env): MemLatch {
    if !LoadEx(p, e) then p.mem
    else
      var live := !(BlockEx(p, e) || MakeNoop(p, StageEX));
      MemLatch(p.ex.ctl.writeEn && live, p.ex.ctl.readEn && live, p.ex.ctl.signExt, p.ex.ctl.valueSize,
               p.ex.ctl.memToReg, p.ex.ctl.regWrite && live, StoreData(p), ExC(p), p.ex.slot.dst, p.ex.pc)
  }

  function NextWb(p: State, e: Env): WbLatch {
    if !LoadMem(p, e) then p.wb
    else
      WbLatch(p.mem.memToReg, p.mem.regWrite && !(BlockMem(p, e) || MakeNoop(p, StageMEM)),
              p.mem.signExt, p.mem.valueSize, p.mem.c, p.mem.dst)
  }

  /** Is the access in MEM carried out at this edge? */
  predicate MemDone(p: State, e: Env) {
    MemAccess(p) && !MemError(p) && e.memReady
  }

  function NextRam(p: State, e: Env): Ram {
    if MemDone(p, e) && p.mem.writeEn then RamStore(p.ram, p.mem.c, p.mem.valueSize, p.mem.data) else p.ram
  }

  function NextReadValue(p: State, e: Env): Word {
    if MemDone(p, e) && p.mem.readEn && !p.mem.writeEn then RamLoad(p.ram, p.mem.c, p.mem.valueSize) else p.readValue
  }

  function NextSavedTaken(p: State): bool {
    if VolatileTaken(p) && HoldIF(p) then true else if !HoldIF(p) then false else p.savedTaken
  }

  /** One clock: the falling edge writes the register bank, the rising edge everything else. */
  function Step(imem: Program, p: State, e: Env): State {
    State(NextPc(p, e), NextId(imem, p, e), NextEx(p, e), NextMem(p, e), NextWb(p, e), Bank(p),
          Alu.Next(p.unit, ExPins(p), e.divider), NextSavedTaken(p),
          FlagException(p), FlagFinish(p), NextRam(p, e), NextReadValue(p, e))
  }

  function Run(imem: Program, p: State, env: seq<Env>): State
    decreases |env|
  {
    if env == [] then p else Run(imem, Step(imem, p, env[0]), env[1..])
  }

  // Outputs ----------------------------------------------------------------------------------

  predicate IdNoop(p: State) {
    var g := IdSignals(p);
    !(g.imm64 || g.jump || g.branch || g.writeEn || g.readEn || g.regWrite)
  }

  predicate ExNoop(p: State) {
    !(p.ex.ctl.branch || p.ex.ctl.writeEn || p.ex.ctl.readEn || p.ex.ctl.regWrite)
  }

  predicate MemNoop(p: State) {
    !(p.mem.writeEn || p.mem.readEn || p.mem.regWrite)
  }

  predicate WbNoop(p: State) {
    !p.wb.regWrite
  }

  predicate Flushed(p: State) {
    || (WbNoop(p) && MakeNoop(p, StageMEM))
    || (WbNoop(p) && MemNoop(p) && MakeNoop(p, StageEX))
    || (WbNoop(p) && MemNoop(p) && ExNoop(p) && MakeNoop(p, StageID))
    || (WbNoop(p) && MemNoop(p) && ExNoop(p) && IdNoop(p) && MakeNoop(p, StageIF))
  }

  predicate CoreFinish(p: State) {
    Flushed(p) && FlagFinish(p) && !(FlagException(p) && !MakeNoop(p, StageIF))
  }

  predicate CoreException(p: State) {
    Flushed(p) && FlagException(p) && !(FlagFinish(p) && MakeNoop(p, StageIF))
  }

  function FaultPc(p: State): Addr12 {
    match ExceptionStage(p)
    case StageIF => p.pc
    case StageID => p.id.pc
    case StageEX => p.ex.pc
    case StageMEM => p.mem.pc
  }

  function CoreOutput(p: State): Word {
    if FlagException(p) && !MakeNoop(p, StageIF) then FaultPc(p) else p.regs[0]
  }
}
