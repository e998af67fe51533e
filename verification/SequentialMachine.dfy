/** A BPF machine that runs one instruction at a time: the reference the pipeline refines.
    It is written by instruction class, with integer comparisons for branches and the
    processor's own arithmetic and byte-lane functions. */
module SequentialMachine {
  import opened Words
  import opened ByteLanes
  import opened Control
  import Bpf
  import Alu
  import BranchChecker

  const REGISTERS: int := 11

  type Regs = s: seq<Word> | |s| == REGISTERS witness [0, 0, 0, 0, 0, 0, 0, 0, 0, 0, 0]

  type Program = s: seq<Slot> | |s| == 0x1000 witness seq<Slot>(0x1000, _ => Slot(0, 0, 0, 0, 0))

  function Read(regs: Regs, r: Nibble): Word {
    if r < REGISTERS then regs[r] else 0
  }

  function Write(regs: Regs, r: Nibble, v: Word): Regs {
    if r < REGISTERS then regs[r := v] else regs
  }

  datatype Machine = Machine(regs: Regs, ram: Ram, pc: Addr12)

  datatype Outcome = Running | Exits | IllegalInstruction | BadAddress

  /** 64-bit address of a load (from src) or a store (to dst). */
  function DataAddress(regs: Regs, s: Slot): Word {
    Wrap(Read(regs, if s.Class() == Bpf.LDX then s.src else s.dst) + SignExtend16(s.off))
  }

  /** What the instruction at the program counter does to the run. */
  function OutcomeOf(imem: Program, m: Machine): Outcome {
    var s := imem[m.pc];
    if !ValidInstruction(s) then IllegalInstruction
    else if s.Class() == Bpf.JMP && s.Code() == Bpf.JEXIT then Exits
    else if s.Class() in {Bpf.LDX, Bpf.ST, Bpf.STX} && !ValidAddress(DataAddress(m.regs, s)) then BadAddress
    else Running
  }

  /** Second operand of an ALU operation or a comparison. */
  function SourceOperand(regs: Regs, s: Slot): Word {
    if s.Source() == 0 then SignExtend32(s.imm) else Read(regs, s.src)
  }

  function Narrow(w: Word, wide: bool): Word {
    if wide then w else Low32(w)
  }

  /** Result of an ALU instruction.  A byte swap takes its size from the immediate. */
  function AluValue(regs: Regs, s: Slot): Word {
    var swap := s.Code() == Bpf.END;
    var wide := s.Class() == Bpf.ALU64 || swap;
    var b := if swap then SignExtend32(s.imm) else SourceOperand(regs, s);
    var sx := if s.Code() == Bpf.MOV then MoveSize(s.off) else SIZE64;
    Alu.Result(Alu.Pins(true, s.Code(), wide, s.off % 2 == 1, sx, Narrow(Read(regs, s.dst), wide), Narrow(b, wide)))
  }

  predicate BranchTaken(regs: Regs, s: Slot) {
    var wide := s.Class() == Bpf.JMP;
    BranchChecker.Holds(s.Code(), Narrow(Read(regs, s.dst), wide), Narrow(SourceOperand(regs, s), wide), wide)
  }

  /** The processor decodes a little-endian conversion as an instruction without effect. */
  predicate IsNoop(s: Slot) {
    s.Class() == Bpf.ALU && s.Code() == Bpf.END && s.Source() == 0
  }

  /** One instruction.  A machine that exits or faults stays where it is, so its state is the
      one just before the instruction that stopped it. */
  function Next(imem: Program, m: Machine): Machine {
    if OutcomeOf(imem, m) != Running then m
    else
      var s, pc1 := imem[m.pc], Inc(m.pc);
      if s.Class() == Bpf.LD then
        Machine(Write(m.regs, s.dst, Concat32(imem[pc1].imm, s.imm)), m.ram, Inc(pc1))
      else if s.Class() == Bpf.LDX then
        var a := DataAddress(m.regs, s);
        var raw := RamLoad(m.ram, a, s.MemSize());
        Machine(Write(m.regs, s.dst, ByteMask(raw, s.MemSize(), s.MemMode() == Bpf.MODE_MEMSX)), m.ram, pc1)
      else if s.Class() == Bpf.ST then
        Machine(m.regs, RamStore(m.ram, DataAddress(m.regs, s), s.MemSize(), SignExtend32(s.imm)), pc1)
      else if s.Class() == Bpf.STX then
        Machine(m.regs, RamStore(m.ram, DataAddress(m.regs, s), s.MemSize(), Read(m.regs, s.src)), pc1)
      else if s.IsAlu() then
        Machine(if IsNoop(s) then m.regs else Write(m.regs, s.dst, AluValue(m.regs, s)), m.ram, pc1)
      else if s.Code() == Bpf.JA then
        m.(pc := Target(s, pc1))
      else if BranchTaken(m.regs, s) then
        m.(pc := Target(s, pc1))
      else
        m.(pc := pc1)
  }

  function Run(imem: Program, m: Machine, n: nat): Machine
    decreases n
  {
    if n == 0 then m else Run(imem, Next(imem, m), n - 1)
  }

  lemma {:induction false} RunNext(imem: Program, m: Machine, n: nat)
    ensures Run(imem, m, n + 1) == Next(imem, Run(imem, m, n))
    decreases n
  {
    if n > 0 {
      RunNext(imem, Next(imem, m), n - 1);
    }
  }

  /** A machine that has stopped stays in its last state. */
  lemma {:induction false} StoppedRun(imem: Program, m: Machine, n: nat, k: nat)
    requires OutcomeOf(imem, Run(imem, m, n)) != Running && n <= k
    ensures Run(imem, m, k) == Run(imem, m, n)
    decreases k - n
  {
    if n < k {
      RunNext(imem, m, n);
      StoppedRun(imem, m, n + 1, k);
    }
  }

  /** What RFC 9669 section 4.2 asks of a little-endian conversion here: the low 16, 32 or 64 bits,
      and zeros above them. */
  function LittleEndian(s: Slot, w: Word): int
    requires s.imm in {16, 32, 64}
  {
    w % Pow256(s.imm / 8)
  }

  /** A little-endian conversion is what the standard asks exactly when the register already fits
      the size converted to. */
  lemma LittleEndianIsStandardExactlyWhen(imem: Program, m: Machine)
    requires var s := imem[m.pc]; ValidInstruction(s) && IsNoop(s) && s.imm in {16, 32, 64}
    ensures var s := imem[m.pc];
            var w := Read(m.regs, s.dst);
            && OutcomeOf(imem, m) == Running
            && 0 <= LittleEndian(s, w) < TWO_64
            && (Next(imem, m).regs == Write(m.regs, s.dst, LittleEndian(s, w)) <==> w < Pow256(s.imm / 8))
  {
    var s := imem[m.pc];
    var w := Read(m.regs, s.dst);
    Pow256Values();
    assert s.dst < 10;
    LowPart(w, Pow256(s.imm / 8));
    hide Pow256, ValidInstruction;
    assert Read(Write(m.regs, s.dst, LittleEndian(s, w)), s.dst) == LittleEndian(s, w);
    assert Write(m.regs, s.dst, w) == m.regs;
  }

  lemma LowPart(w: nat, p: int)
    requires p > 0
    ensures 0 <= w % p <= w && (w % p == w <==> w < p)
  {
    Alu.QuotientFits(w, p);
    if w < p {
      QuotientUnique(w, 0, w, p);
    }
  }

  /** `le16` leaves 0x10000 where the standard gives zero. */
  lemma LittleEndianCounterexample(imem: Program, m: Machine)
    requires imem[m.pc] == Slot(0xd4, 1, 0, 0, 16) && Read(m.regs, 1) == 0x1_0000
    ensures Read(Next(imem, m).regs, 1) == 0x1_0000 && LittleEndian(imem[m.pc], 0x1_0000) == 0
  {
    Pow256Values();
    hide Pow256;
    SizesAcceptedExactly(16, 0);
    hide EndSizeOk;
  }
}
