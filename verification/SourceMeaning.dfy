/** What an assembler source means on the processor: mnemonics and operands as written, executed
    after assembly by the sequential machine.  The assembler keeps the meaning of every
    instruction whose numbers fit their fields. */
module SourceMeaning {
  import opened Words
  import opened ByteLanes
  import opened Assembly
  import opened CodeGenerator
  import opened InstructionSet
  import opened SequentialMachine
  import Control
  import Disassembler
  import JumpTargets
  import Parser

  // The meaning of a source instruction ----------------------------------------------------------------

  /** Mnemonics that run on the core without a helper call or an atomic operation. */
  predicate Runs(i: Isa) {
    !(i.Atomic? || i.Stxx? || i.LdMapFd? || i.LdAbs? || i.LdInd? || i.Call? || i.Rel? || i.Exit?)
  }

  predicate IsAccess(i: Isa) { i.Ldx? || i.Ldxs? || i.St? || i.Stx? }

  /** A number or the contents of a register. */
  function Value(regs: Regs, o: Operand): Word {
    match o
    case Register(r) => At(regs, r)
    case Immediate(v) => v % TWO_64
    case _ => 0
  }

  /** Base register plus the number written as offset. */
  function SourceAddress(regs: Regs, i: Ins): Word
    requires WellTyped(i) && IsAccess(i.isa)
  {
    if i.isa.St? then (At(regs, i.ops[0].reg) + i.ops[1].val) % TWO_64
    else (At(regs, i.ops[if i.isa.Stx? then 0 else 1].reg) + i.ops[2].val) % TWO_64
  }

  ghost predicate StoresNumber(m: Machine, n: Machine, a: int, w: nat, v: Word) {
    && 0 <= a <= 0x1_0000 - w && n.regs == m.regs && n.pc == (m.pc + 1) % TWO_12
    && forall b: Addr16 :: ByteAt(n.ram, b) == if a <= b < a + w then ByteOfNumber(v, b - a) else ByteAt(m.ram, b)
  }

  predicate GoesTo(m: Machine, n: Machine, distance: int) {
    n.regs == m.regs && n.ram == m.ram && n.pc == (m.pc + 1 + distance) % TWO_12
  }

  /** n is what the instruction makes of m, its data address taken as a. */
  ghost predicate Means(i: Ins, m: Machine, n: Machine, a: int)
    requires WellTyped(i)
  {
    var x, y, z := i.ops[0], i.ops[1], i.ops[2];
    match i.isa
    case Alu(op, wide) =>
      && Puts(m, n, x.reg, At(n.regs, x.reg))
      && Computes(op, wide, At(m.regs, x.reg) % Modulus(wide), Value(m.regs, y) % Modulus(wide), At(n.regs, x.reg))
    case MovSx(bits, wide) => Puts(m, n, x.reg, Integer(Value(m.regs, y) % Pow2(bits), Pow2(bits)) % Modulus(wide))
    case Endian(order, bits) =>
      && Puts(m, n, x.reg, At(n.regs, x.reg))
      && if order == ToLittle then At(n.regs, x.reg) == At(m.regs, x.reg) % Pow2(bits)
         else Reversed(At(m.regs, x.reg), At(n.regs, x.reg), bits / 8)
    case Zext => Puts(m, n, x.reg, At(m.regs, x.reg) % TWO_32)
    case Ld64 =>
      && n.ram == m.ram && n.pc == (m.pc + 2) % TWO_12
      && n.regs == m.regs[x.reg := n.regs[x.reg]] && n.regs[x.reg] == y.val % TWO_64
    case Ldx(bits) => 0 <= a <= 0x1_0000 - bits / 8 && Puts(m, n, x.reg, NumberAt(m.ram, a, bits / 8))
    case Ldxs(bits) =>
      0 <= a <= 0x1_0000 - bits / 8 && Puts(m, n, x.reg, Integer(NumberAt(m.ram, a, bits / 8), Pow2(bits)) % TWO_64)
    case St(bits) => StoresNumber(m, n, a, bits / 8, z.val % TWO_64)
    case Stx(bits) => StoresNumber(m, n, a, bits / 8, At(m.regs, y.reg))
    case Ja => GoesTo(m, n, x.val)
    case Jal => GoesTo(m, n, x.val)
    case Branch(c, wide) =>
      GoesTo(m, n, if Compares(c, wide, At(m.regs, x.reg) % Modulus(wide), Value(m.regs, y) % Modulus(wide)) then z.val else 0)
    case _ => false
  }

  /** Immediates in 32 bits and offsets of loads and stores in 16; any jump distance will do. */
  predicate NumbersFit(i: Ins) {
    match i.isa
    case Alu(_, _) => Disassembler.FitsImm(i.ops[1])
    case MovSx(_, _) => Disassembler.FitsImm(i.ops[1])
    case Branch(_, _) => Disassembler.FitsImm(i.ops[1])
    case St(_) => Disassembler.FitsOff(i.ops[1]) && Disassembler.FitsImm(i.ops[2])
    case Ldx(_) => Disassembler.FitsOff(i.ops[2])
    case Ldxs(_) => Disassembler.FitsOff(i.ops[2])
    case Stx(_) => Disassembler.FitsOff(i.ops[2])
    case _ => true
  }

  // Encoded operands -----------------------------------------------------------------------------------

  function SlotOfIns(i: Ins): Control.Slot
    requires WellTyped(i)
  {
    SlotOfBytes(Bytes(Encode(i)[0]))
  }

  lemma FieldsOfIns(i: Ins)
    requires WellTyped(i)
    ensures var e, s := Encode(i)[0], SlotOfIns(i);
            s == Control.Slot(e.code, e.dst, e.src, e.off % TWO_16, e.imm % TWO_32)
  {
    BytesRoundTrip(Encode(i)[0]);
  }

  lemma ImmediateBack(o: Operand)
    requires o.Immediate?
    ensures Disassembler.FitsImm(o) ==> Integer(Val(o) % TWO_32, TWO_32) == o.val
    ensures Disassembler.FitsOff(o) ==> Integer(Off(o) % TWO_16, TWO_16) == o.val
    ensures Integer(Off(o) % TWO_16, TWO_16) % TWO_12 == o.val % TWO_12
    ensures Integer(Val(o) % TWO_32, TWO_32) % TWO_12 == o.val % TWO_12
  {
    Disassembler.FitsExactly(o);
    var v, h := Val(o), Off(o);
    assert Integer(v % TWO_32, TWO_32) == v && Integer(h % TWO_16, TWO_16) == h;
    JumpTargets.TruncatedDistance(o.val);
    hide AsInt32, AsInt16;
    Multiples(h % TWO_16, -1 * 0x10, TWO_12);
    Multiples(v % TWO_32, -1 * 0x10_0000, TWO_12);
  }

  /** The second operand of an encoded arithmetic instruction or branch. */
  lemma OperandBack(regs: Regs, s: Control.Slot, o: Operand)
    requires if o.Register? then s.opcode / 8 % 2 == 1 && s.src == o.reg else o.Immediate? && s.opcode / 8 % 2 == 0 && s.imm == Val(o) % TWO_32
    requires Disassembler.FitsImm(o)
    ensures InstructionSet.Operand(regs, s) == Value(regs, o)
  {
    if o.Immediate? {
      ImmediateBack(o);
      hide AsInt32, AsInt16, Disassembler.FitsImm;
    }
  }

  lemma AluBack(i: Ins)
    requires WellTyped(i) && i.isa.Alu?
    ensures var s, b := SlotOfIns(i), i.ops[1];
            && s.opcode % 8 == (if i.isa.wide then 7 else 4) && s.opcode / 16 <= 12 && OpOf(s.opcode / 16, s.off) == i.isa.alu
            && !(s.opcode / 16 == 11 && s.off != 0) && s.dst == i.ops[0].reg
            && (i.isa.alu != Neg ==> if b.Register? then s.opcode / 8 % 2 == 1 && s.src == b.reg
                                     else s.opcode / 8 % 2 == 0 && s.imm == Val(b) % TWO_32)
  {
    FieldsOfIns(i);
    hide SlotOfBytes, Bytes, AsInt32, AsInt16;
  }

  lemma AluKept(imem: Program, m: Machine, n: Machine, a: int, i: Ins)
    requires WellTyped(i) && i.isa.Alu? && NumbersFit(i) && imem[m.pc] == SlotOfIns(i)
    ensures Standard(imem, m, n, a) <==> Means(i, m, n, a)
  {
    var s := imem[m.pc];
    AluBack(i);
    if i.isa.alu != Neg {
      OperandBack(m.regs, s, i.ops[1]);
    }
    hide SlotOfIns, WellTyped, InstructionSet.Operand, Value, OpOf, Puts, Disassembler.FitsImm;
    assert !IsSwap(s);
    hide IsSwap;
  }

  lemma MovSxBack(i: Ins)
    requires WellTyped(i) && i.isa.MovSx?
    ensures var s, b := SlotOfIns(i), i.ops[1];
            && s.opcode % 8 == (if i.isa.wide then 7 else 4) && s.opcode / 16 == 11 && s.off == i.isa.bits && i.isa.bits in {8, 16, 32}
            && s.dst == i.ops[0].reg
            && if b.Register? then s.opcode / 8 % 2 == 1 && s.src == b.reg else s.opcode / 8 % 2 == 0 && s.imm == Val(b) % TWO_32
  {
    FieldsOfIns(i);
    hide SlotOfBytes, Bytes, AsInt32, AsInt16;
  }

  lemma MovSxKept(imem: Program, m: Machine, n: Machine, a: int, i: Ins)
    requires WellTyped(i) && i.isa.MovSx? && NumbersFit(i) && imem[m.pc] == SlotOfIns(i)
    ensures Standard(imem, m, n, a) <==> Means(i, m, n, a)
  {
    MovSxBack(i);
    OperandBack(m.regs, imem[m.pc], i.ops[1]);
    hide SlotOfIns, WellTyped, Val, Disassembler.FitsImm, InstructionSet.Operand, Value, Puts, Integer, Modulus, Pow2;
  }

  lemma ZextBack(i: Ins)
    requires WellTyped(i) && i.isa.Zext?
    ensures var s := SlotOfIns(i); s.opcode == 0xbc && s.off == 0 && s.dst == s.src == i.ops[0].reg
  {
    FieldsOfIns(i);
    hide SlotOfBytes, Bytes;
  }

  lemma ZextKept(imem: Program, m: Machine, n: Machine, a: int, i: Ins)
    requires WellTyped(i) && i.isa.Zext? && imem[m.pc] == SlotOfIns(i)
    ensures Standard(imem, m, n, a) <==> Means(i, m, n, a)
  {
    ZextBack(i);
    var s := imem[m.pc];
    hide SlotOfIns, WellTyped, Puts, Integer;
    assert OpOf(11, 0) == Mov && InstructionSet.Operand(m.regs, s) == At(m.regs, s.dst);
    hide OpOf, InstructionSet.Operand, At;
  }

  lemma EndianBack(i: Ins)
    requires WellTyped(i) && i.isa.Endian?
    ensures var s := SlotOfIns(i);
            && s.opcode == (if i.isa.order == ToLittle then 0xd4 else if i.isa.order == ToBig then 0xdc else 0xd7)
            && s.imm == i.isa.bits && i.isa.bits in {16, 32, 64} && s.dst == i.ops[0].reg
  {
    FieldsOfIns(i);
    hide SlotOfBytes, Bytes;
  }

  lemma SwapKept(imem: Program, m: Machine, n: Machine, a: int, i: Ins)
    requires WellTyped(i) && i.isa.Endian? && imem[m.pc] == SlotOfIns(i)
    ensures Standard(imem, m, n, a) <==> Means(i, m, n, a)
  {
    EndianBack(i);
    hide SlotOfIns, WellTyped, Puts, Reversed, Pow2, At;
  }

  lemma WideBack(i: Ins)
    requires WellTyped(i) && i.isa.Ld64?
    ensures var s, v := SlotOfIns(i), i.ops[1].val;
            s.opcode == 0x18 && s.dst == i.ops[0].reg
            && s.imm + TWO_32 * SlotOfBytes(Bytes(Encode(i)[1])).imm == v % TWO_64
  {
    FieldsOfIns(i);
    BytesRoundTrip(Encode(i)[1]);
    HalvesBack(i.ops[1].val);
    hide SlotOfBytes, Bytes, AsInt32;
  }

  lemma WideKept(imem: Program, m: Machine, n: Machine, a: int, i: Ins)
    requires WellTyped(i) && i.isa.Ld64? && imem[m.pc] == SlotOfIns(i)
    requires imem[(m.pc + 1) % TWO_12] == SlotOfBytes(Bytes(Encode(i)[1]))
    ensures Standard(imem, m, n, a) <==> Means(i, m, n, a)
  {
    WideBack(i);
    hide SlotOfIns, Encode, WellTyped, SlotOfBytes, Bytes;
  }

  /** Both halves of a 64-bit number, put together again. */
  lemma HalvesBack(v: Int64)
    ensures AsInt32(v) % TWO_32 + TWO_32 * (AsInt32(v / TWO_32) % TWO_32) == v % TWO_64
  {
    JumpTargets.Truncated32(v);
    JumpTargets.Truncated32(v / TWO_32);
    hide AsInt32;
    var lo, hi := v % TWO_32, v / TWO_32 % TWO_32;
    assert v == v / TWO_32 / TWO_32 * TWO_64 + (lo + TWO_32 * hi);
    QuotientUnique(v, v / TWO_32 / TWO_32, lo + TWO_32 * hi, TWO_64);
  }

  lemma LoadBack(i: Ins)
    requires WellTyped(i) && (i.isa.Ldx? || i.isa.Ldxs?)
    ensures var s, bits := SlotOfIns(i), i.isa.bits;
            && s.opcode % 8 == 1 && s.opcode / 32 == (if i.isa.Ldx? then 3 else 4) && WidthOf(s) == bits / 8 && bits in {8, 16, 32, 64}
            && s.dst == i.ops[0].reg && s.src == i.ops[1].reg && s.off == Off(i.ops[2]) % TWO_16
  {
    FieldsOfIns(i);
    hide SlotOfBytes, Bytes, AsInt32, AsInt16;
  }

  lemma LoadKept(imem: Program, m: Machine, n: Machine, a: int, i: Ins)
    requires WellTyped(i) && (i.isa.Ldx? || i.isa.Ldxs?) && imem[m.pc] == SlotOfIns(i)
    ensures Standard(imem, m, n, a) <==> Means(i, m, n, a)
  {
    LoadBack(i);
    hide SlotOfIns, WellTyped, Puts, NumberAt, AsInt32, AsInt16;
    assert 8 * (i.isa.bits / 8) == i.isa.bits;
  }

  lemma StoreBack(i: Ins)
    requires WellTyped(i) && (i.isa.St? || i.isa.Stx?)
    ensures var s, bits := SlotOfIns(i), i.isa.bits;
            && s.opcode % 8 == (if i.isa.St? then 2 else 3) && WidthOf(s) == bits / 8 && bits in {8, 16, 32, 64} && s.dst == i.ops[0].reg
            && (i.isa.St? ==> s.off == Off(i.ops[1]) % TWO_16 && s.imm == Val(i.ops[2]) % TWO_32)
            && (i.isa.Stx? ==> s.src == i.ops[1].reg && s.off == Off(i.ops[2]) % TWO_16)
  {
    FieldsOfIns(i);
    hide SlotOfBytes, Bytes, AsInt32, AsInt16;
  }

  lemma StoreKept(imem: Program, m: Machine, n: Machine, a: int, i: Ins)
    requires WellTyped(i) && (i.isa.St? || i.isa.Stx?) && NumbersFit(i) && imem[m.pc] == SlotOfIns(i)
    ensures Standard(imem, m, n, a) <==> Means(i, m, n, a)
  {
    StoreBack(i);
    if i.isa.St? {
      ImmediateBack(i.ops[2]);
    }
    hide SlotOfIns, WellTyped, ByteOfNumber, ByteAt, AsInt32, AsInt16, Disassembler.FitsImm, Disassembler.FitsOff;
  }

  lemma JumpBack(i: Ins)
    requires WellTyped(i) && (i.isa.Ja? || i.isa.Jal? || i.isa.Branch?)
    ensures var s := SlotOfIns(i);
            && (i.isa.Ja? ==> s.opcode == 0x05 && s.off == Off(i.ops[0]) % TWO_16)
            && (i.isa.Jal? ==> s.opcode == 0x06 && s.imm == Val(i.ops[0]) % TWO_32)
            && (i.isa.Branch? ==>
                  && s.opcode % 8 == (if i.isa.wide then 5 else 6) && s.opcode / 16 in {1, 2, 3, 4, 5, 6, 7, 10, 11, 12, 13}
                  && CondOf(s.opcode / 16) == i.isa.cond && s.dst == i.ops[0].reg && s.off == Off(i.ops[2]) % TWO_16
                  && if i.ops[1].Register? then s.opcode / 8 % 2 == 1 && s.src == i.ops[1].reg
                     else s.opcode / 8 % 2 == 0 && s.imm == Val(i.ops[1]) % TWO_32)
  {
    FieldsOfIns(i);
    hide SlotOfIns, AsInt32, AsInt16, Val, Off, CondCode, CondOf;
    if i.isa.Branch? {
      ConditionBack(i.isa.cond);
      var e := Encode(i)[0];
      var code: int := CondCode(i.isa.cond);
      assert e.code == (if i.isa.wide then 5 else 6) + code * 16 + (if i.ops[1].Register? then 8 else 0);
      assert e.code / 16 == code && e.code % 8 == (if i.isa.wide then 5 else 6) && e.code / 8 % 2 == if i.ops[1].Register? then 1 else 0;
    }
  }

  lemma ConditionBack(c: Cond)
    ensures CondCode(c) in {1, 2, 3, 4, 5, 6, 7, 10, 11, 12, 13}
    ensures CondOf(CondCode(c)) == c
  {
  }

  lemma JumpKept(imem: Program, m: Machine, n: Machine, a: int, i: Ins)
    requires WellTyped(i) && (i.isa.Ja? || i.isa.Jal?) && imem[m.pc] == SlotOfIns(i)
    ensures Standard(imem, m, n, a) <==> Means(i, m, n, a)
  {
    var s, x := imem[m.pc], i.ops[0];
    JumpBack(i);
    JumpDistance(m.pc, x);
    JumpStandard(imem, m, n, a);
    hide SlotOfIns, WellTyped, Standard, Integer, Val, Off, CondOf;
    SameGoal(m, n, if i.isa.Jal? then Integer(s.imm, TWO_32) else Integer(s.off, TWO_16), x.val);
    hide GoesTo;
  }

  lemma BranchKept(imem: Program, m: Machine, n: Machine, a: int, i: Ins)
    requires WellTyped(i) && i.isa.Branch? && NumbersFit(i) && imem[m.pc] == SlotOfIns(i)
    ensures Standard(imem, m, n, a) <==> Means(i, m, n, a)
  {
    var s, z := imem[m.pc], i.ops[2];
    JumpBack(i);
    JumpDistance(m.pc, z);
    OperandBack(m.regs, s, i.ops[1]);
    BranchStandard(imem, m, n, a);
    hide SlotOfIns, WellTyped, Standard, Integer, Val, Off, CondOf, InstructionSet.Operand, Value, Compares, Disassembler.FitsImm, Modulus, At;
    SameGoal(m, n, Integer(s.off, TWO_16), z.val);
    hide GoesTo;
  }

  lemma JumpDistance(pc: Addr12, z: Operand)
    requires z.Immediate?
    ensures (pc + 1 + Integer(Off(z) % TWO_16, TWO_16)) % TWO_12 == (pc + 1 + z.val) % TWO_12
    ensures (pc + 1 + Integer(Val(z) % TWO_32, TWO_32)) % TWO_12 == (pc + 1 + z.val) % TWO_12
  {
    ImmediateBack(z);
    hide AsInt32, AsInt16, Integer;
    AddModulo(pc + 1, Integer(Off(z) % TWO_16, TWO_16));
    AddModulo(pc + 1, Integer(Val(z) % TWO_32, TWO_32));
    AddModulo(pc + 1, z.val);
  }

  lemma SameGoal(m: Machine, n: Machine, d: int, e: int)
    requires (m.pc + 1 + d) % TWO_12 == (m.pc + 1 + e) % TWO_12
    ensures GoesTo(m, n, d) <==> GoesTo(m, n, e)
  {
  }

  lemma JumpStandard(imem: Program, m: Machine, n: Machine, a: int)
    requires imem[m.pc].opcode in {0x05, 0x06}
    ensures var s := imem[m.pc];
            Standard(imem, m, n, a)
            <==> GoesTo(m, n, if s.opcode == 0x05 then Integer(s.off, TWO_16) else Integer(s.imm, TWO_32))
  {
  }

  lemma BranchStandard(imem: Program, m: Machine, n: Machine, a: int)
    requires imem[m.pc].opcode % 8 in {5, 6} && imem[m.pc].opcode / 16 != 0
    ensures var s := imem[m.pc];
            var wide := s.opcode % 8 == 5;
            Standard(imem, m, n, a)
            <==> GoesTo(m, n, if Compares(CondOf(s.opcode / 16), wide, At(m.regs, s.dst) % Modulus(wide),
                                          InstructionSet.Operand(m.regs, s) % Modulus(wide)) then Integer(s.off, TWO_16) else 0)
  {
    hide CondOf, Compares, InstructionSet.Operand, Modulus;
  }

  /** The assembler keeps the meaning: with the encoded instruction in program memory, the
      standard asks for exactly what the source says. */
  lemma AssemblyKeepsMeaning(imem: Program, m: Machine, n: Machine, a: int, i: Ins)
    requires WellTyped(i) && Runs(i.isa) && NumbersFit(i) && imem[m.pc] == SlotOfIns(i)
    requires i.isa.Ld64? ==> imem[(m.pc + 1) % TWO_12] == SlotOfBytes(Bytes(Encode(i)[1]))
    ensures Standard(imem, m, n, a) <==> Means(i, m, n, a)
  {
    hide SlotOfIns, SlotOfBytes, Bytes, Encode, WellTyped, Standard, Means, NumbersFit;
    match i.isa
    case Alu(_, _) => AluKept(imem, m, n, a, i);
    case MovSx(_, _) => MovSxKept(imem, m, n, a, i);
    case Endian(_, _) => SwapKept(imem, m, n, a, i);
    case Zext => ZextKept(imem, m, n, a, i);
    case Ld64 => WideKept(imem, m, n, a, i);
    case Ldx(_) => LoadKept(imem, m, n, a, i);
    case Ldxs(_) => LoadKept(imem, m, n, a, i);
    case St(_) => StoreKept(imem, m, n, a, i);
    case Stx(_) => StoreKept(imem, m, n, a, i);
    case Branch(_, _) => BranchKept(imem, m, n, a, i);
    case _ => JumpKept(imem, m, n, a, i);
  }

  // Encoded addresses and data ---------------------------------------------------------------------------

  /** The data address of an assembled load or store is the base register plus the offset as
      written, negative offsets included. */
  lemma EncodedAddress(regs: Regs, i: Ins)
    requires WellTyped(i) && IsAccess(i.isa)
    requires var o := i.ops[if i.isa.St? then 1 else 2].val; -0x8000 <= o < 0x8000
    ensures var base, o := i.ops[if i.isa.Ldx? || i.isa.Ldxs? then 1 else 0].reg, i.ops[if i.isa.St? then 1 else 2].val;
            DataAddress(regs, SlotOfBytes(Bytes(Encode(i)[0]))) == (regs[base] + o) % TWO_64
    ensures DataAddress(regs, SlotOfBytes(Bytes(Encode(i)[0]))) == SourceAddress(regs, i)
  {
    var s, o := SlotOfIns(i), i.ops[if i.isa.St? then 1 else 2];
    ImmediateBack(o);
    if i.isa.St? || i.isa.Stx? {
      StoreBack(i);
    } else {
      LoadBack(i);
    }
    AddressExactly(regs, s);
    hide SlotOfBytes, Bytes, Encode, AsInt32, AsInt16, DataAddress;
  }

  /** A number written as second operand of arithmetic or a branch, or as the data of a store, is
      that number in 64 bits. */
  lemma EncodedImmediate(regs: Regs, i: Ins, v: Int64)
    requires WellTyped(i) && (i.isa.Alu? || i.isa.MovSx? || i.isa.Branch?) && i.ops[1] == Immediate(v)
    requires -0x8000_0000 <= v < 0x8000_0000
    ensures SequentialMachine.SourceOperand(regs, SlotOfBytes(Bytes(Encode(i)[0]))) == v % TWO_64
  {
    var s := SlotOfIns(i);
    OperandNarrow(regs, s);
    if i.isa.Alu? {
      AluBack(i);
    } else if i.isa.Branch? {
      JumpBack(i);
    } else {
      MovSxBack(i);
    }
    OperandBack(regs, s, i.ops[1]);
    hide SlotOfBytes, Bytes, Encode, AsInt32, AsInt16, SequentialMachine.SourceOperand;
  }

  lemma EncodedStoreData(imem: Program, m: Machine, i: Ins)
    requires WellTyped(i) && i.isa.St? && imem[m.pc] == SlotOfBytes(Bytes(Encode(i)[0]))
    requires OutcomeOf(imem, m) == Running && -0x8000_0000 <= i.ops[2].val < 0x8000_0000
    ensures 0 <= DataAddress(m.regs, imem[m.pc]) < 0x1_0000
    ensures Next(imem, m).ram == RamStore(m.ram, DataAddress(m.regs, imem[m.pc]), imem[m.pc].opcode / 8 % 4, i.ops[2].val % TWO_64)
  {
    StoreBack(i);
    ImmediateBack(i.ops[2]);
    AddressExactly(m.regs, imem[m.pc]);
    StoreWrites(imem, m);
    hide SlotOfBytes, Bytes, Encode, AsInt32, AsInt16, DataAddress, Address, RamStore, OutcomeOf, Next;
  }

  // From source to processor -------------------------------------------------------------------------------

  /** The address rounded down to the bytes accessed. */
  function SourceAccess(regs: Regs, i: Ins): int
    requires WellTyped(i)
  {
    if IsAccess(i.isa) then SourceAddress(regs, i) - SourceAddress(regs, i) % (i.isa.bits / 8) else 0
  }

  /** Source instructions and operands that the processor computes differently. */
  predicate SourceMisses(regs: Regs, i: Ins)
    requires WellTyped(i)
  {
    match i.isa
    case Alu(op, wide) => Misses(op, wide, At(regs, i.ops[0].reg) % Modulus(wide), Value(regs, i.ops[1]) % Modulus(wide))
    case Endian(order, bits) => order == ToLittle && At(regs, i.ops[0].reg) >= Pow2(bits)
    case _ => false
  }

  lemma DeviatesAsWritten(imem: Program, m: Machine, i: Ins)
    requires WellTyped(i) && Runs(i.isa) && NumbersFit(i) && imem[m.pc] == SlotOfIns(i)
    ensures Deviates(imem, m) <==> SourceMisses(m.regs, i)
  {
    var s := imem[m.pc];
    if i.isa.Alu? {
      AluBack(i);
      if i.isa.alu != Neg {
        OperandBack(m.regs, s, i.ops[1]);
      }
      assert s.opcode != 0xd4;
      hide SlotOfIns, WellTyped, InstructionSet.Operand, Value, OpOf, Disassembler.FitsImm;
    } else {
      OthersNeverDeviate(imem, m, i);
    }
  }

  lemma OthersNeverDeviate(imem: Program, m: Machine, i: Ins)
    requires WellTyped(i) && Runs(i.isa) && !i.isa.Alu? && imem[m.pc] == SlotOfIns(i)
    ensures Deviates(imem, m) <==> i.isa.Endian? && i.isa.order == ToLittle && At(m.regs, i.ops[0].reg) >= Pow2(i.isa.bits)
  {
    UnitClass(i);
    var s := imem[m.pc];
    assert OpOf(11, 0) == Mov;
    hide SlotOfIns, OpOf, Pow2, InstructionSet.Operand, WellTyped;
  }

  /** What of the slot decides whether it can deviate. */
  lemma UnitClass(i: Ins)
    requires WellTyped(i) && Runs(i.isa) && !i.isa.Alu?
    ensures var s := SlotOfIns(i);
            if i.isa.Endian? then s.opcode == (if i.isa.order == ToLittle then 0xd4 else if i.isa.order == ToBig then 0xdc else 0xd7)
                                  && s.imm == i.isa.bits && s.imm != 112 && s.dst == i.ops[0].reg
            else if i.isa.Zext? then s.opcode == 0xbc && s.off == 0
            else if i.isa.MovSx? then s.opcode % 8 in {4, 7} && s.opcode / 16 == 11 && s.off != 0
            else s.opcode % 8 !in {4, 7}
  {
    hide SlotOfIns, Encode, Val, Off, CondOf;
    if i.isa.Endian? {
      EndianBack(i);
    } else if i.isa.Zext? {
      ZextBack(i);
    } else if i.isa.MovSx? {
      MovSxBack(i);
    } else if i.isa.Ldx? || i.isa.Ldxs? {
      LoadBack(i);
    } else if i.isa.St? || i.isa.Stx? {
      StoreBack(i);
    } else if i.isa.Ja? || i.isa.Jal? || i.isa.Branch? {
      JumpBack(i);
    } else if i.isa.Ld64? {
      WideBack(i);
    }
  }

  lemma AccessedAsWritten(regs: Regs, i: Ins)
    requires WellTyped(i) && IsAccess(i.isa) && NumbersFit(i)
    ensures AccessedAt(regs, SlotOfIns(i)) == SourceAccess(regs, i)
  {
    EncodedAddress(regs, i);
    if i.isa.St? || i.isa.Stx? {
      StoreBack(i);
    } else {
      LoadBack(i);
    }
    AddressExactly(regs, SlotOfIns(i));
    hide SlotOfBytes, Bytes, Encode, DataAddress, Address, SourceAddress, AsInt32, AsInt16;
  }

  /** The address plays no part elsewhere. */
  lemma AnyAddress(i: Ins, m: Machine, n: Machine, a: int, b: int)
    requires WellTyped(i) && !IsAccess(i.isa)
    ensures Means(i, m, n, a) <==> Means(i, m, n, b)
  {
    hide Puts, Computes, Compares, Reversed, GoesTo, Pow2;
  }

  /** One assembled instruction on the sequential machine: it does what the source says exactly
      outside the listed operands. */
  lemma AssembledStepExactlyWhen(imem: Program, m: Machine, i: Ins)
    requires WellTyped(i) && Runs(i.isa) && NumbersFit(i) && imem[m.pc] == SlotOfIns(i)
    requires i.isa.Ld64? ==> imem[(m.pc + 1) % TWO_12] == SlotOfBytes(Bytes(Encode(i)[1]))
    requires OutcomeOf(imem, m) == Running
    ensures Means(i, m, Next(imem, m), SourceAccess(m.regs, i)) <==> !SourceMisses(m.regs, i)
  {
    var a := AccessedAt(m.regs, imem[m.pc]);
    PlainAsWritten(i);
    NextIsStandardExactlyWhen(imem, m);
    AssemblyKeepsMeaning(imem, m, Next(imem, m), a, i);
    DeviatesAsWritten(imem, m, i);
    if IsAccess(i.isa) {
      AccessedAsWritten(m.regs, i);
    } else {
      AnyAddress(i, m, Next(imem, m), a, SourceAccess(m.regs, i));
    }
    hide SlotOfIns, SlotOfBytes, Bytes, Encode, WellTyped, Standard, Means, NumbersFit, SourceMisses, Deviates, OutcomeOf, Next, AccessedAt, SourceAccess;
  }

  lemma PlainAsWritten(i: Ins)
    requires WellTyped(i) && Runs(i.isa)
    ensures Plain(SlotOfIns(i))
  {
    FieldsOfIns(i);
    hide SlotOfBytes, Bytes, AsInt32, AsInt16;
  }

  lemma LoadedInstruction(imem: Program, r: seq<Stat>, k: nat)
    requires AllWellTyped(r) && JumpTargets.Loaded(imem, Emit(r, |r|)) && k < |r| && r[k].Instruction?
    ensures SlotOf(r, k) < TWO_12 && imem[SlotOf(r, k)] == SlotOfIns(r[k].ins)
    ensures r[k].ins.isa.Ld64? ==> imem[(SlotOf(r, k) + 1) % TWO_12] == SlotOfBytes(Bytes(Encode(r[k].ins)[1]))
  {
    hide Encode, SlotOfBytes, Bytes, Emit, SlotOf, SlotOfIns, JumpTargets.Loaded, WellTyped;
    SlotsAgree(r, k);
    SlotIs(r[k].ins);
    LoadedSlots(imem, Emit(r, |r|), SlotOf(r, k), SlotOf(r, k + 1), Encode(r[k].ins));
  }

  lemma LoadedSlots(imem: Program, prog: seq<Insn>, s: nat, t: nat, slots: seq<Insn>)
    requires JumpTargets.Loaded(imem, prog) && s < t <= |prog| && prog[s..t] == slots
    ensures s < TWO_12 && imem[s] == SlotOfBytes(Bytes(slots[0]))
    ensures |slots| == 2 ==> imem[(s + 1) % TWO_12] == SlotOfBytes(Bytes(slots[1]))
  {
    hide SlotOfBytes, Bytes, JumpTargets.Loaded;
    LoadedAt(imem, prog, s);
    assert prog[s..t][0] == prog[s];
    if |slots| == 2 {
      assert prog[s..t][1] == prog[s + 1];
      LoadedAt(imem, prog, s + 1);
    }
  }

  lemma LoadedAt(imem: Program, prog: seq<Insn>, k: nat)
    requires JumpTargets.Loaded(imem, prog) && k < |prog|
    ensures k < TWO_12 && imem[k] == SlotOfBytes(Bytes(prog[k]))
  {
  }

  lemma SlotIs(i: Ins)
    requires WellTyped(i)
    ensures SlotOfIns(i) == SlotOfBytes(Bytes(Encode(i)[0]))
  {
  }

  /** From source to processor.  In every source that the parser and the type checker take, of at
      most 4096 slots, loaded into program memory: when the sequential machine, and so the
      pipeline, is at the slot of an instruction whose numbers fit, the next state is what that
      instruction, as written, means. */
  lemma SourceRunsAsWritten(tokens: seq<Parser.Token>, imem: Program, m: Machine, k: nat)
    requires Parser.Parse(tokens).Ok?
    requires var r := Parser.Parse(tokens).ast;
             && AllWellTyped(r) && JumpTargets.Loaded(imem, Emit(r, |r|)) && k < |r| && r[k].Instruction?
             && Runs(r[k].ins.isa) && NumbersFit(r[k].ins) && m.pc == SlotOf(r, k)
    requires OutcomeOf(imem, m) == Running
    ensures var i := Parser.Parse(tokens).ast[k].ins;
            Means(i, m, Next(imem, m), SourceAccess(m.regs, i)) <==> !SourceMisses(m.regs, i)
  {
    var r := Parser.Parse(tokens).ast;
    LoadedInstruction(imem, r, k);
    assert WellTyped(r[k].ins);
    hide Parser.Parse, SlotOfIns, SlotOfBytes, Bytes, Encode, WellTyped, Means, NumbersFit, SourceMisses, OutcomeOf, Next, SourceAccess, Emit, SlotOf;
    AssembledStepExactlyWhen(imem, m, r[k].ins);
  }
}
