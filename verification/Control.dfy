/** Instruction fields, the decoder's control signals, the load-use hazard, the forwarding
    choice and the table of legal instructions. */
module Control {
  import opened Words
  import opened ByteLanes
  import Bpf

  /** One 8-byte instruction slot, its fields read as unsigned. */
  datatype Slot = Slot(opcode: Byte, dst: Nibble, src: Nibble, off: Half, imm: Word32)
  {
    function Class(): int { opcode % 8 }
    function Source(): int { opcode / 8 % 2 }
    function Code(): Nibble { opcode / 16 }
    function MemSize(): Size { opcode / 8 % 4 }
    function MemMode(): int { opcode / 32 }
    function AtomicOp(): Nibble { imm / 16 % 16 }
    predicate Fetch() { imm % 2 == 1 }
    predicate IsJump() { Class() == Bpf.JMP || Class() == Bpf.JMP32 }
    predicate IsAlu() { Class() == Bpf.ALU || Class() == Bpf.ALU64 }
    predicate IsCall() { Class() == Bpf.JMP && Code() == Bpf.JCALL }
    predicate IsAtomic() { Class() == Bpf.STX && MemMode() == Bpf.MODE_ATOMIC }
    predicate IsBigEndianSwap() { Class() == Bpf.ALU && Code() == Bpf.END && Source() == 1 }

    /** Instructions outside this model of the pipeline. */
    predicate Modelled() { !IsCall() && !IsAtomic() }
  }

  function Bit(x: nat, weight: nat): int
    requires weight > 0
  {
    x / weight % 2
  }

  /** Source size of a sign-extending move, from one of three offset bits. */
  function MoveSize(off: Half): Size {
    if Bit(off, 8) == 1 then SIZE8 else if Bit(off, 16) == 1 then SIZE16 else if Bit(off, 32) == 1 then SIZE32 else SIZE64
  }

  // Decoder ------------------------------------------------------------------------

  datatype Signals = Signals(
    jump: bool, branch: bool, jump32: bool, imm64: bool, alu64: bool, addrCalc: bool,
    writeEn: bool, readEn: bool, forceImm: bool, signExt: bool, valueSize: Size,
    memToReg: bool, regWrite: bool, discardIF: bool, finish: bool, aluEn: bool)

  function Decode(s: Slot): Signals {
    var c, code := s.Class(), s.Code();
    Signals(
      jump := s.IsJump() && code == Bpf.JA,
      branch := s.IsJump() && code != Bpf.JA && code != Bpf.JCALL && code != Bpf.JEXIT,
      jump32 := c == Bpf.JMP32 && code == Bpf.JA,
      imm64 := c == Bpf.LD,
      alu64 := !(c == Bpf.ALU && code != Bpf.END) && c != Bpf.JMP32,
      addrCalc := c == Bpf.LDX || c == Bpf.ST || c == Bpf.STX,
      writeEn := c == Bpf.ST || c == Bpf.STX,
      readEn := c == Bpf.LDX || (c == Bpf.STX && s.Fetch()),
      forceImm := c == Bpf.LD || c == Bpf.ST
                  || (((c == Bpf.ALU && s.Source() == 1) || c == Bpf.ALU64) && code == Bpf.END),
      signExt := (c == Bpf.LDX && s.MemMode() == Bpf.MODE_MEMSX) || (s.IsAlu() && code == Bpf.MOV),
      valueSize := if c == Bpf.LD then SIZE64
                   else if c == Bpf.LDX || c == Bpf.ST || c == Bpf.STX then s.MemSize()
                   else if s.IsAlu() && code == Bpf.MOV then MoveSize(s.off) else SIZE64,
      memToReg := c == Bpf.LDX || c == Bpf.ST || c == Bpf.STX,
      regWrite := !(s.IsJump() || c == Bpf.ST)
                  && !(c == Bpf.ALU && code == Bpf.END && s.Source() == 0)
                  && !(c == Bpf.STX && (s.MemMode() == Bpf.MODE_MEM || !s.Fetch()))
                  && !(s.IsAtomic() && s.AtomicOp() == Bpf.CMPXCHG),
      discardIF := c == Bpf.LD || s.IsCall(),
      finish := c == Bpf.JMP && code == Bpf.JEXIT,
      aluEn := (c == Bpf.ALU && code != Bpf.END) || c == Bpf.ALU64)
  }

  const NO_SIGNALS: Signals :=
    Signals(false, false, false, false, false, false, false, false, false, false, SIZE64, false, false, false, false, false)

  /** Signals of the ID stage: all inactive for a discarded slot. */
  function Gate(g: Signals, enable: bool): Signals {
    if enable then g else NO_SIGNALS
  }

  /** Does the decoder mark the destination register as read? */
  predicate UseDst(s: Slot) {
    var g := Decode(s);
    if g.branch then true
    else if g.imm64 then false
    else if g.aluEn && s.Code() == Bpf.MOV then false
    else g.aluEn || g.addrCalc
  }

  predicate UseSrc(s: Slot) {
    var g := Decode(s);
    if g.branch && s.Source() == 1 then true
    else if g.imm64 then false
    else if g.aluEn && (s.Code() == Bpf.END || s.Code() == Bpf.NEG) then false
    else if g.aluEn && s.Source() == 1 then true
    else g.addrCalc && !g.forceImm
  }

  /** Hold the instruction in ID: it reads a register that the instruction in EX will only
      obtain in MEM. */
  predicate Hazard(s: Slot, exRegWrite: bool, exMemToReg: bool, exDst: Nibble) {
    && exMemToReg
    && ((exRegWrite && exDst == s.dst && UseDst(s)) || (exRegWrite && exDst == s.src && UseSrc(s)))
  }

  // Forwarding -----------------------------------------------------------------------

  datatype Source = NoForward | FromMem | FromWbMemory | FromWbEx

  function Forward(reg: Nibble, memRegWrite: bool, memDst: Nibble, wbRegWrite: bool, wbMemToReg: bool, wbDst: Nibble): Source {
    if memRegWrite && memDst == reg then FromMem
    else if wbRegWrite && wbDst == reg && !wbMemToReg then FromWbEx
    else if wbRegWrite && wbDst == reg && wbMemToReg then FromWbMemory
    else NoForward
  }

  // Legal instructions -----------------------------------------------------------------

  predicate Writable(r: Nibble) { r < 10 }
  predicate Readable(r: Nibble) { r <= 10 }

  function Xor3(a: int, b: int, c: int): int {
    (a + b + c) % 2
  }

  predicate MoveSizeOk(off: Half) {
    || (Xor3(Bit(off, 8), Bit(off, 16), Bit(off, 32)) == 1 && off / 64 == 0 && off % 8 == 0)
    || off == 0
  }

  predicate EndSizeOk(imm: Word32) {
    Xor3(Bit(imm, 16), Bit(imm, 32), Bit(imm, 64)) == 1 && imm / 128 == 0 && imm % 16 == 0
  }

  /** The exclusive or of the three size bits is also one when all three are set, so beside one
      size at a time the table accepts all of them at once. */
  lemma SizesAcceptedExactly(imm: Word32, off: Half)
    ensures EndSizeOk(imm) <==> imm in {16, 32, 64, 16 + 32 + 64}
    ensures MoveSizeOk(off) <==> off in {0, 8, 16, 32, 8 + 16 + 32}
  {
    EndSizes(imm);
    MoveSizes(off);
    hide Bit, Xor3;
  }

  /** Three bits whose exclusive or is one: one of them, or all. */
  lemma ThreeBits(q: nat)
    requires q < 8
    ensures Xor3(q % 2, q / 2 % 2, q / 4 % 2) == 1 <==> q in {1, 2, 4, 7}
  {
  }

  lemma EndSizes(imm: Word32)
    ensures EndSizeOk(imm) <==> imm in {16, 32, 64, 16 + 32 + 64}
  {
    var q := imm / 16;
    assert imm / 32 == q / 2 && imm / 64 == q / 4 && imm / 128 == q / 8;
    assert imm == 16 * q + imm % 16;
    if q < 8 {
      ThreeBits(q);
    }
    hide Xor3;
  }

  lemma MoveSizes(off: Half)
    ensures MoveSizeOk(off) <==> off in {0, 8, 16, 32, 8 + 16 + 32}
  {
    var q := off / 8;
    assert off / 16 == q / 2 && off / 32 == q / 4 && off / 64 == q / 8;
    assert off == 8 * q + off % 8;
    if q < 8 {
      ThreeBits(q);
    }
    hide Xor3;
  }

  predicate IsRegularOp(code: Nibble) {
    code <= Bpf.XOR || code == Bpf.ARSH
  }

  predicate IsBranchOp(code: Nibble) {
    (Bpf.JEQ <= code <= Bpf.JSGE) || (Bpf.JLT <= code <= Bpf.JSLE)
  }

  predicate SoftAtomicOp(s: Slot) {
    s.AtomicOp() in {Bpf.ADD, Bpf.OR, Bpf.AND, Bpf.XOR} && s.imm / 256 == 0
  }

  predicate ValidAtomic(s: Slot) {
    && (s.MemSize() == SIZE64 || s.MemSize() == SIZE32)
    && s.IsAtomic() && Readable(s.dst)
    && (|| (Readable(s.src) && SoftAtomicOp(s) && s.imm % 16 == 0)
        || (Writable(s.src) && (SoftAtomicOp(s) || s.AtomicOp() == Bpf.XCHG) && s.imm % 16 == 1)
        || (Readable(s.src) && s.imm == 0xF1))
  }

  predicate ValidAlu(s: Slot) {
    && Writable(s.dst) && Readable(s.src)
    && (|| (IsRegularOp(s.Code()) && s.off == 0)
        || (s.Code() in {Bpf.DIV, Bpf.MOD} && s.off == 1)
        || (s.Code() == Bpf.MOV && MoveSizeOk(s.off))
        || (s.Code() == Bpf.END && (s.Class() == Bpf.ALU || s.Source() == 0) && s.off == 0 && EndSizeOk(s.imm)))
  }

  predicate ValidJump(s: Slot) {
    || (IsBranchOp(s.Code()) && Readable(s.dst) && Readable(s.src))
    || (s.Source() == 0 && s.dst == 0 && s.src == 0
        && (|| (s.Code() == Bpf.JA && (if s.Class() == Bpf.JMP then s.imm == 0 else s.off == 0))
            || (s.Class() == Bpf.JMP && s.Code() == Bpf.JEXIT && s.off == 0 && s.imm == 0)
            || (s.Class() == Bpf.JMP && s.Code() == Bpf.JCALL && s.off == 0)))
  }

  /** The exception unit's table, without the discard exemption. */
  predicate ValidInstruction(s: Slot) {
    var c := s.Class();
    if c == Bpf.LD then s.MemSize() == SIZE64 && s.MemMode() == Bpf.MODE_IMM && Writable(s.dst) && s.src == 0 && s.off == 0
    else if c == Bpf.LDX then s.MemMode() in {Bpf.MODE_MEM, Bpf.MODE_MEMSX} && Writable(s.dst) && Readable(s.src) && s.imm == 0
    else if c == Bpf.ST then s.MemMode() == Bpf.MODE_MEM && Readable(s.dst) && Readable(s.src)
    else if c == Bpf.STX then
      (s.MemMode() == Bpf.MODE_MEM && Readable(s.dst) && Readable(s.src) && s.imm == 0) || ValidAtomic(s)
    else if s.IsAlu() then ValidAlu(s)
    else ValidJump(s)
  }

  // Program counter --------------------------------------------------------------------

  function Inc(pc: Addr12): Addr12 {
    (pc + 1) % TWO_12
  }

  /** Target of a jump or branch: twelve bits of the offset, or of the immediate, past PC + 1. */
  function Target(s: Slot, pc1: Addr12): Addr12 {
    var offset := if Decode(s).jump32 then s.imm % TWO_12 else s.off % TWO_12;
    (pc1 + offset) % TWO_12
  }

  // Data address space -------------------------------------------------------------------

  predicate InUnshared(a: Word) {
    a < TWO_16 && (a / 0x800 == 0x10 || a / 0x200 == 0x44)
  }

  predicate InShared(a: Word) {
    a < TWO_16 && a / 0x1000 >= 9
  }

  predicate ValidAddress(a: Word) {
    InUnshared(a) || InShared(a)
  }
}
