/** The instruction set as RFC 9669 describes it, by opcode number, on two's complement integers,
    single bits and single bytes.  Its definitions use none of the processor's functions; the
    lemmas prove that the sequential machine, and with it the pipeline, follows them, with the
    exact condition for each instruction that does not. */
module InstructionSet {
  import opened Words
  import opened ByteLanes
  import opened Assembly
  import opened SequentialMachine
  import Control
  import Bpf
  import Alu
  import BranchChecker

  // Numbers --------------------------------------------------------------------------------------

  /** The integer that a residue denotes in two's complement. */
  function Integer(w: int, modulus: int): int {
    if 2 * w >= modulus then w - modulus else w
  }

  function Bits(wide: bool): nat { if wide then 64 else 32 }

  function At(regs: Regs, r: Nibble): Word {
    if r <= 10 then regs[r] else 0
  }

  // Arithmetic -----------------------------------------------------------------------------------

  /** r is what the operation makes of x and y, all three as numbers of 32 or of 64 bits. */
  ghost predicate Computes(op: AluOp, wide: bool, x: nat, y: nat, r: nat) {
    var n, m := Bits(wide), Modulus(wide);
    && r < m
    && match op
       case Add => r == (x + y) % m
       case Sub => r == (x - y) % m
       case Mul => r == x * y % m
       case Div => r == if y == 0 then 0 else x / y
       case Sdiv => r == if Integer(y, m) == 0 then 0 else TruncDiv(Integer(x, m), Integer(y, m)) % m
       case Mod => r == if y == 0 then x else x % y
       case Smod => r == if Integer(y, m) == 0 then x else TruncRem(Integer(x, m), Integer(y, m)) % m
       case Or => forall k: nat :: k < n ==> (BitSet(r, k) <==> BitSet(x, k) || BitSet(y, k))
       case And => forall k: nat :: k < n ==> (BitSet(r, k) <==> BitSet(x, k) && BitSet(y, k))
       case Xor => forall k: nat :: k < n ==> (BitSet(r, k) <==> BitSet(x, k) != BitSet(y, k))
       case Lsh => r == x * Pow2(y % n) % m
       case Rsh => r == x / Pow2(y % n) % m
       case Arsh => r == Integer(x, m) / Pow2(y % n) % m
       case Neg => r == (0 - x) % m
       case Mov => r == y
  }

  /** Operands for which the processor does not compute that: every `neg`; a 32-bit shift with bit
      5 of the amount set, unless nothing but zeros or signs is left anyway; a signed remainder
      other than zero by a negative divisor. */
  predicate Misses(op: AluOp, wide: bool, x: nat, y: nat) {
    match op
    case Neg => true
    case Lsh => !wide && y % 64 >= 32 && x % Pow2(32 - y % 32) != 0
    case Rsh => !wide && y % 64 >= 32 && x >= Pow2(y % 32)
    case Arsh => !wide && y % 64 >= 32 && !(-Pow2(y % 32) <= Integer(x, TWO_32) < Pow2(y % 32))
    case Smod => Integer(y, Modulus(wide)) < 0 && TruncRem(Integer(x, Modulus(wide)), Integer(y, Modulus(wide))) != 0
    case _ => false
  }

  // Opcode numbers -------------------------------------------------------------------------------

  function OpOf(code: Nibble, off: int): AluOp
    requires code <= 12
  {
    match code
    case 0 => Add
    case 1 => Sub
    case 2 => Mul
    case 3 => if off == 1 then Sdiv else Div
    case 4 => Or
    case 5 => And
    case 6 => Lsh
    case 7 => Rsh
    case 8 => Neg
    case 9 => if off == 1 then Smod else Mod
    case 10 => Xor
    case 11 => Mov
    case _ => Arsh
  }

  function NumberOf(op: AluOp): Nibble {
    match op
    case Add => 0
    case Sub => 1
    case Mul => 2
    case Div => 3
    case Sdiv => 3
    case Or => 4
    case And => 5
    case Lsh => 6
    case Rsh => 7
    case Neg => 8
    case Mod => 9
    case Smod => 9
    case Xor => 10
    case Mov => 11
    case Arsh => 12
  }

  /** The pins of the arithmetic unit for an operation. */
  function PinsFor(op: AluOp, wide: bool, x: Word, y: Word): Alu.Pins {
    Alu.Pins(true, NumberOf(op), wide, op == Sdiv || op == Smod, SIZE64, x, y)
  }

  lemma SignedIsInteger(w: Word, wide: bool)
    requires !wide ==> w < TWO_32
    ensures Signed(w, wide) == Integer(w, Modulus(wide))
    ensures Integer(w, Modulus(wide)) == 0 <==> w == 0
  {
  }

  /** The arithmetic unit computes what the standard asks exactly outside those operands. */
  lemma UnitComputesExactlyWhen(op: AluOp, wide: bool, x: Word, y: Word)
    requires !wide ==> x < TWO_32 && y < TWO_32
    ensures Alu.Result(PinsFor(op, wide, x, y)) < Modulus(wide)
    ensures Computes(op, wide, x, y, Alu.Result(PinsFor(op, wide, x, y))) <==> !Misses(op, wide, x, y)
  {
    var p := PinsFor(op, wide, x, y);
    assert Alu.Truncated(p);
    assert Alu.Result(p) < Modulus(wide) by {
      hide Alu.RawOutput, Modulus;
      assert Modulus(wide) == if wide then TWO_64 else TWO_32;
    }
    hide Alu.Result, Integer, BitSet, Pow2, Alu.Truncated, TruncDiv, TruncRem, Bits, Modulus, PinsFor;
    match op
    case Add => UnitAdds(op, wide, x, y);
    case Sub => UnitAdds(op, wide, x, y);
    case Mul => UnitAdds(op, wide, x, y);
    case Div => UnitDivides(op, wide, x, y);
    case Mod => UnitDivides(op, wide, x, y);
    case Sdiv => UnitDividesSigned(wide, x, y);
    case Smod => UnitRemainsSigned(wide, x, y);
    case Or => UnitOnBits(op, wide, x, y);
    case And => UnitOnBits(op, wide, x, y);
    case Xor => UnitOnBits(op, wide, x, y);
    case Lsh => UnitShifts(op, wide, x, y);
    case Rsh => UnitShifts(op, wide, x, y);
    case Arsh => UnitShifts(op, wide, x, y);
    case Neg => UnitComplements(wide, x, y);
    case Mov => UnitMoves(wide, x, y);
  }

  lemma UnitAdds(op: AluOp, wide: bool, x: Word, y: Word)
    requires op in {Add, Sub, Mul} && (!wide ==> x < TWO_32 && y < TWO_32)
    ensures Alu.Result(PinsFor(op, wide, x, y)) == (if op == Add then x + y else if op == Sub then x - y else x * y) % Modulus(wide)
  {
    hide Alu.Result;
    Alu.ModularArithmetic(PinsFor(op, wide, x, y));
  }

  lemma UnitDivides(op: AluOp, wide: bool, x: Word, y: Word)
    requires op in {Div, Mod} && (!wide ==> x < TWO_32 && y < TWO_32)
    ensures Alu.Result(PinsFor(op, wide, x, y))
            == if op == Div then (if y == 0 then 0 else x / y) else if y == 0 then x else x % y
  {
    hide Alu.Result;
    Alu.UnsignedDivision(PinsFor(op, wide, x, y));
  }

  lemma UnitComplements(wide: bool, x: Word, y: Word)
    requires !wide ==> x < TWO_32 && y < TWO_32
    ensures Alu.Result(PinsFor(Neg, wide, x, y)) != (0 - x) % Modulus(wide)
  {
    hide Alu.Result;
    Alu.NegNeverNegates(PinsFor(Neg, wide, x, y));
  }

  lemma UnitMoves(wide: bool, x: Word, y: Word)
    requires !wide ==> x < TWO_32 && y < TWO_32
    ensures Alu.Result(PinsFor(Mov, wide, x, y)) == y
  {
  }

  lemma UnitOnBits(op: AluOp, wide: bool, x: Word, y: Word)
    requires op in {Or, And, Xor} && (!wide ==> x < TWO_32 && y < TWO_32)
    ensures var r := Alu.Result(PinsFor(op, wide, x, y));
            forall k: nat :: k < Bits(wide) ==>
              (BitSet(r, k) <==> if op == Or then BitSet(x, k) || BitSet(y, k)
                                 else if op == And then BitSet(x, k) && BitSet(y, k) else BitSet(x, k) != BitSet(y, k))
  {
    hide Alu.Result, BitSet;
    var p := PinsFor(op, wide, x, y);
    forall k: nat | k < Bits(wide)
      ensures BitSet(Alu.Result(p), k) <==> if op == Or then BitSet(x, k) || BitSet(y, k)
                                            else if op == And then BitSet(x, k) && BitSet(y, k) else BitSet(x, k) != BitSet(y, k)
    {
      Alu.BitwiseResult(p, k);
    }
  }

  lemma UnitDividesSigned(wide: bool, x: Word, y: Word)
    requires !wide ==> x < TWO_32 && y < TWO_32
    ensures var m := Modulus(wide);
            Alu.Result(PinsFor(Sdiv, wide, x, y)) == if Integer(y, m) == 0 then 0 else TruncDiv(Integer(x, m), Integer(y, m)) % m
  {
    SignedIsInteger(x, wide);
    SignedIsInteger(y, wide);
    var p := PinsFor(Sdiv, wide, x, y);
    hide Alu.Result, Signed, Integer, TruncDiv;
    if y == 0 {
      Alu.UnsignedDivision(p);
    } else {
      Alu.SignedQuotient(p);
    }
  }

  lemma UnitRemainsSigned(wide: bool, x: Word, y: Word)
    requires !wide ==> x < TWO_32 && y < TWO_32
    ensures var m := Modulus(wide);
            Alu.Result(PinsFor(Smod, wide, x, y)) == (if Integer(y, m) == 0 then x else TruncRem(Integer(x, m), Integer(y, m)) % m)
            <==> !Misses(Smod, wide, x, y)
  {
    SignedIsInteger(x, wide);
    SignedIsInteger(y, wide);
    var p := PinsFor(Smod, wide, x, y);
    hide Alu.Result, Signed, Integer, TruncRem, TruncDiv;
    if y == 0 {
      Alu.UnsignedDivision(p);
    } else {
      Alu.SignedRemainder(p);
    }
  }

  lemma UnitShifts(op: AluOp, wide: bool, x: Word, y: Word)
    requires op in {Lsh, Rsh, Arsh} && (!wide ==> x < TWO_32 && y < TWO_32)
    ensures var m, s := Modulus(wide), Pow2(y % Bits(wide));
            Alu.Result(PinsFor(op, wide, x, y)) == (if op == Lsh then x * s else if op == Rsh then x / s else Integer(x, m) / s) % m
            <==> !Misses(op, wide, x, y)
  {
    SignedIsInteger(x, wide);
    var p := PinsFor(op, wide, x, y);
    hide Alu.Result, Signed, Integer, Pow2;
    if wide {
      Alu.ShiftsScale(p);
    } else {
      Alu.NarrowShiftIsStandardExactlyWhen(p);
    }
  }

  // Bytes ------------------------------------------------------------------------------------------

  /** The number in the n bytes at an address, lowest byte first. */
  function NumberAt(ram: Ram, a: Addr16, n: nat): nat
    requires a + n <= 0x1_0000
  {
    if n == 0 then 0 else NumberAt(ram, a, n - 1) + Pow2(8 * (n - 1)) * ByteAt(ram, a + n - 1)
  }

  function ByteOfNumber(v: nat, k: nat): int { v / Pow2(8 * k) % 256 }

  // Legal instructions -------------------------------------------------------------------------------

  predicate IsSwap(s: Control.Slot) { s.opcode in {0xd4, 0xdc, 0xd7} }

  predicate LegalArithmetic(s: Control.Slot) {
    && s.opcode % 8 in {4, 7} && s.dst <= 9 && s.src <= 10
    && (|| (s.opcode / 16 <= 12 && s.off == 0)
        || (s.opcode / 16 in {3, 9} && s.off == 1)
        || (s.opcode / 16 == 11 && s.off in {8, 16, 32, 56})
        || (IsSwap(s) && s.off == 0 && s.imm in {16, 32, 64, 112}))
  }

  predicate LegalJump(s: Control.Slot) {
    || (s.opcode % 8 in {5, 6} && s.opcode / 16 in {1, 2, 3, 4, 5, 6, 7, 10, 11, 12, 13} && s.dst <= 10 && s.src <= 10)
    || (s.dst == 0 && s.src == 0
        && (|| (s.opcode == 0x05 && s.imm == 0)
            || (s.opcode == 0x06 && s.off == 0)
            || (s.opcode == 0x85 && s.off == 0)
            || (s.opcode == 0x95 && s.off == 0 && s.imm == 0)))
  }

  /** An atomic operation; an exchange is accepted whatever is above its eight operation bits. */
  predicate LegalAtomic(s: Control.Slot) {
    && s.opcode in {0xc3, 0xdb} && s.dst <= 10
    && (|| (s.imm in {0x00, 0x40, 0x50, 0xa0, 0xf1} && s.src <= 10)
        || ((s.imm in {0x01, 0x41, 0x51, 0xa1} || s.imm % 256 == 0xe1) && s.src <= 9))
  }

  /** The instructions the processor takes, by opcode number. */
  predicate Legal(s: Control.Slot) {
    || (s.opcode == 0x18 && s.dst <= 9 && s.src == 0 && s.off == 0)
    || (s.opcode in {0x61, 0x69, 0x71, 0x79, 0x81, 0x89, 0x91, 0x99} && s.dst <= 9 && s.src <= 10 && s.imm == 0)
    || (s.opcode in {0x62, 0x6a, 0x72, 0x7a} && s.dst <= 10 && s.src <= 10)
    || (s.opcode in {0x63, 0x6b, 0x73, 0x7b} && s.dst <= 10 && s.src <= 10 && s.imm == 0)
    || LegalAtomic(s) || LegalArithmetic(s) || LegalJump(s)
  }

  lemma FieldsOf(s: Control.Slot)
    ensures s.Class() == s.opcode % 8 && s.Source() == s.opcode / 8 % 2 && s.Code() == s.opcode / 16
    ensures s.MemSize() == s.opcode / 8 % 4 && s.MemMode() == s.opcode / 32
    ensures s.opcode == s.opcode / 16 * 16 + s.opcode / 8 % 2 * 8 + s.opcode % 8
    ensures s.opcode == s.opcode / 32 * 32 + s.opcode / 8 % 4 * 8 + s.opcode % 8
  {
  }

  /** The exception unit's table is exactly that set. */
  lemma LegalExactly(s: Control.Slot)
    ensures Control.ValidInstruction(s) <==> Legal(s)
  {
    FieldsOf(s);
    Control.SizesAcceptedExactly(s.imm, s.off);
    hide Control.EndSizeOk, Control.MoveSizeOk;
    var c := s.opcode % 8;
    if c == 3 {
      AtomicExactly(s);
      hide Control.ValidAtomic, LegalAtomic;
    }
  }

  lemma AtomicExactly(s: Control.Slot)
    ensures Control.ValidAtomic(s) <==> LegalAtomic(s)
  {
    FieldsOf(s);
  }

  predicate IsMemory(s: Control.Slot) { s.opcode % 8 in {1, 2, 3} }

  // What the decoder makes of them ---------------------------------------------------------------------

  /** The memory and register signals of a legal atomic operation: it writes memory, reads it if it
      fetches, and puts what it read into its source register unless it is a compare-and-exchange. */
  lemma AtomicSignals(s: Control.Slot)
    requires LegalAtomic(s)
    ensures var g, fetches := Control.Decode(s), s.imm % 2 == 1;
            && g.writeEn && g.addrCalc && !g.forceImm && g.memToReg && (g.readEn <==> fetches)
            && (g.regWrite <==> fetches && s.imm / 16 % 16 != 15)
            && g.valueSize == (if s.opcode == 0xdb then SIZE64 else SIZE32)
            && !g.jump && !g.branch && !g.imm64 && !g.aluEn && !g.discardIF && !g.finish
  {
    FieldsOf(s);
    hide Control.MoveSize;
  }

  /** Operations that read a register in the decoder's eyes: for the destination every branch,
      every load and store and all arithmetic but moves and the conversions of opcode 0xd4 and
      0xdc; for the source loads, register stores and, with a register operand, branches and
      arithmetic other than `neg` and byte swaps. */
  predicate ReadsDestination(s: Control.Slot) {
    || (s.opcode % 8 in {5, 6} && s.opcode / 16 != 0)
    || IsMemory(s)
    || (s.opcode % 8 in {4, 7} && s.opcode / 16 != 11 && s.opcode !in {0xd4, 0xdc})
  }

  predicate ReadsSource(s: Control.Slot) {
    || s.opcode % 8 in {1, 3}
    || (s.opcode % 8 in {5, 6} && s.opcode / 16 != 0 && s.opcode / 8 % 2 == 1)
    || (s.opcode % 8 in {4, 7} && s.opcode / 16 !in {8, 13} && s.opcode / 8 % 2 == 1)
  }

  /** An instruction waits behind a load exactly when it reads the loaded register so. */
  lemma WaitsExactlyWhen(s: Control.Slot, regWrite: bool, memToReg: bool, loaded: Nibble)
    requires Legal(s) && s.opcode !in {0x85, 0x95}
    ensures Control.Hazard(s, regWrite, memToReg, loaded)
            <==> regWrite && memToReg && ((loaded == s.dst && ReadsDestination(s)) || (loaded == s.src && ReadsSource(s)))
  {
    FieldsOf(s);
    ReadsExactly(s);
    hide Legal, ReadsDestination, ReadsSource, Control.UseDst, Control.UseSrc;
  }

  lemma ReadsExactly(s: Control.Slot)
    requires Legal(s) && s.opcode !in {0x85, 0x95}
    ensures Control.UseDst(s) <==> ReadsDestination(s)
    ensures Control.UseSrc(s) <==> ReadsSource(s)
  {
    FieldsOf(s);
    hide Control.MoveSize;
  }

  // What stops a program ----------------------------------------------------------------------------

  /** Bytes of a load or store. */
  function WidthOf(s: Control.Slot): nat {
    if s.opcode / 8 % 4 == 0 then 4 else if s.opcode / 8 % 4 == 1 then 2 else if s.opcode / 8 % 4 == 2 then 1 else 8
  }

  /** Base register plus signed offset, in 64 bits. */
  function Address(regs: Regs, s: Control.Slot): Word {
    (At(regs, if s.opcode % 8 == 1 then s.src else s.dst) + Integer(s.off, TWO_16)) % TWO_64
  }

  /** The data addresses of the core: 2560 bytes of its own, stack included, and 28672 shared. */
  predicate InData(a: int) { 0x8000 <= a < 0x8a00 || 0x9000 <= a < 0x1_0000 }

  lemma InDataExactly(a: Word)
    ensures Control.ValidAddress(a) <==> InData(a)
    ensures Control.InShared(a) <==> 0x9000 <= a < 0x1_0000
    ensures Control.InUnshared(a) <==> 0x8000 <= a < 0x8a00
  {
  }

  lemma AddressExactly(regs: Regs, s: Control.Slot)
    requires IsMemory(s)
    ensures DataAddress(regs, s) == Address(regs, s)
  {
    var base := At(regs, if s.opcode % 8 == 1 then s.src else s.dst);
    assert Wrap(base + SignExtend16(s.off)) == (base + Integer(s.off, TWO_16)) % TWO_64;
    FieldsOf(s);
  }

  /** The sequential machine stops at exactly these instructions. */
  lemma Outcomes(imem: Program, m: Machine)
    ensures var s, o := imem[m.pc], OutcomeOf(imem, m);
            && (o == IllegalInstruction <==> !Legal(s))
            && (o == Exits <==> Legal(s) && s.opcode == 0x95)
            && (o == BadAddress <==> Legal(s) && IsMemory(s) && !InData(Address(m.regs, s)))
  {
    var s := imem[m.pc];
    FieldsOf(s);
    LegalExactly(s);
    if IsMemory(s) {
      AddressExactly(m.regs, s);
      InDataExactly(Address(m.regs, s));
    }
    assert s.Class() == Bpf.JMP && s.Code() == Bpf.JEXIT && Legal(s) ==> s.opcode == 0x95;
    hide Control.ValidInstruction, Legal, Control.ValidAddress, Address, DataAddress, InData;
  }

  // One step -------------------------------------------------------------------------------------------

  /** Register r takes v and nothing else changes. */
  predicate Puts(m: Machine, n: Machine, r: Nibble, v: int) {
    r <= 10 && n.ram == m.ram && n.pc == (m.pc + 1) % TWO_12 && n.regs == m.regs[r := n.regs[r]] && n.regs[r] == v
  }

  /** Second operand: a register or the sign-extended immediate. */
  function Operand(regs: Regs, s: Control.Slot): Word {
    if s.opcode / 8 % 2 == 1 then At(regs, s.src) else Integer(s.imm, TWO_32) % TWO_64
  }

  ghost predicate WideLoad(s: Control.Slot, behind: Control.Slot, m: Machine, n: Machine) {
    && s.dst <= 10 && n.ram == m.ram && n.pc == (m.pc + 2) % TWO_12
    && n.regs == m.regs[s.dst := n.regs[s.dst]] && n.regs[s.dst] == s.imm + TWO_32 * behind.imm
  }

  ghost predicate Loads(s: Control.Slot, m: Machine, n: Machine, a: int) {
    var w := WidthOf(s);
    && 0 <= a <= 0x1_0000 - w
    && Puts(m, n, s.dst, if s.opcode / 32 == 4 then Integer(NumberAt(m.ram, a, w), Pow2(8 * w)) % TWO_64 else NumberAt(m.ram, a, w))
  }

  function Stored(regs: Regs, s: Control.Slot): Word {
    if s.opcode % 8 == 3 then At(regs, s.src) else Integer(s.imm, TWO_32) % TWO_64
  }

  ghost predicate Stores(s: Control.Slot, m: Machine, n: Machine, a: int) {
    var w, v := WidthOf(s), Stored(m.regs, s);
    && 0 <= a <= 0x1_0000 - w && n.regs == m.regs && n.pc == (m.pc + 1) % TWO_12
    && forall b: Addr16 :: ByteAt(n.ram, b) == if a <= b < a + w then ByteOfNumber(v, b - a) else ByteAt(m.ram, b)
  }

  ghost predicate Arithmetic(s: Control.Slot, m: Machine, n: Machine)
    requires s.opcode / 16 <= 12
  {
    var wide := s.opcode % 8 == 7;
    && Puts(m, n, s.dst, At(n.regs, s.dst))
    && Computes(OpOf(s.opcode / 16, s.off), wide, At(m.regs, s.dst) % Modulus(wide), Operand(m.regs, s) % Modulus(wide), At(n.regs, s.dst))
  }

  /** A move that sign-extends the low 8, 16 or 32 bits; with all three size bits set, 8. */
  ghost predicate SignMoves(s: Control.Slot, m: Machine, n: Machine) {
    var p := Pow2(if s.off == 56 then 8 else s.off);
    Puts(m, n, s.dst, Integer(Operand(m.regs, s) % p, p) % Modulus(s.opcode % 8 == 7))
  }

  /** The low n bytes of w in reverse. */
  ghost predicate Reversed(w: nat, v: nat, n: nat) {
    v < Pow2(8 * n) && forall k: nat :: k < n ==> ByteOfNumber(v, k) == ByteOfNumber(w, n - 1 - k)
  }

  /** A byte swap of 16, 32 or 64 bits; with all three size bits set, 16. */
  ghost predicate Swaps(s: Control.Slot, m: Machine, n: Machine) {
    var bits, w := if s.imm == 112 then 16 else s.imm, At(m.regs, s.dst);
    && Puts(m, n, s.dst, At(n.regs, s.dst))
    && if s.opcode == 0xd4 then At(n.regs, s.dst) == w % Pow2(bits) else Reversed(w, At(n.regs, s.dst), bits / 8)
  }

  function CondOf(code: Nibble): Cond {
    match code
    case 1 => Eq
    case 2 => Gt
    case 3 => Ge
    case 4 => Set
    case 5 => Ne
    case 6 => Sgt
    case 7 => Sge
    case 10 => Lt
    case 11 => Le
    case 12 => Slt
    case _ => Sle
  }

  ghost predicate Compares(c: Cond, wide: bool, x: nat, y: nat) {
    var sx, sy := Integer(x, Modulus(wide)), Integer(y, Modulus(wide));
    match c
    case Eq => x == y
    case Gt => x > y
    case Ge => x >= y
    case Set => exists k: nat :: k < Bits(wide) && BitSet(x, k) && BitSet(y, k)
    case Ne => x != y
    case Sgt => sx > sy
    case Sge => sx >= sy
    case Lt => x < y
    case Le => x <= y
    case Slt => sx < sy
    case Sle => sx <= sy
  }

  ghost predicate Jumps(s: Control.Slot, m: Machine, n: Machine) {
    var wide := s.opcode % 8 == 5;
    && n.regs == m.regs && n.ram == m.ram
    && n.pc == (m.pc + 1
                + (if s.opcode == 0x05 then Integer(s.off, TWO_16)
                   else if s.opcode == 0x06 then Integer(s.imm, TWO_32)
                   else if Compares(CondOf(s.opcode / 16), wide, At(m.regs, s.dst) % Modulus(wide), Operand(m.regs, s) % Modulus(wide))
                   then Integer(s.off, TWO_16) else 0)) % TWO_12
  }

  /** n is what the standard asks for after the instruction at m, its data address taken as a. */
  ghost predicate Standard(imem: Program, m: Machine, n: Machine, a: int) {
    var s := imem[m.pc];
    if s.opcode == 0x18 then WideLoad(s, imem[(m.pc + 1) % TWO_12], m, n)
    else if s.opcode % 8 == 1 then Loads(s, m, n, a)
    else if s.opcode % 8 in {2, 3} then Stores(s, m, n, a)
    else if s.opcode % 8 in {5, 6} then Jumps(s, m, n)
    else if IsSwap(s) then Swaps(s, m, n)
    else if s.opcode / 16 == 11 && s.off != 0 then SignMoves(s, m, n)
    else s.opcode / 16 <= 12 && Arithmetic(s, m, n)
  }

  /** The instructions and operands for which the processor does something else: the arithmetic
      of `Misses`, and a little-endian conversion of a register that is not below the size
      converted to. */
  predicate Deviates(imem: Program, m: Machine) {
    var s := imem[m.pc];
    if s.opcode == 0xd4 then At(m.regs, s.dst) >= Pow2(if s.imm == 112 then 16 else s.imm)
    else if s.opcode % 8 in {4, 7} && s.opcode / 16 <= 12 && !(s.opcode / 16 == 11 && s.off != 0) then
      var wide := s.opcode % 8 == 7;
      Misses(OpOf(s.opcode / 16, s.off), wide, At(m.regs, s.dst) % Modulus(wide), Operand(m.regs, s) % Modulus(wide))
    else false
  }

  /** The address the processor uses: the low bits below the width are ignored. */
  function AccessedAt(regs: Regs, s: Control.Slot): int {
    Address(regs, s) - Address(regs, s) % WidthOf(s)
  }

  /** Neither a helper call nor an atomic operation. */
  predicate Plain(s: Control.Slot) {
    s.opcode != 0x85 && s.opcode !in {0xc3, 0xdb}
  }

  // Bytes of the lane memory ----------------------------------------------------------------------------

  lemma {:induction false} PowersAgree(n: nat)
    ensures Pow256(n) == Pow2(8 * n)
  {
    if n > 0 {
      PowersAgree(n - 1);
      Pow2Split(8, 8 * (n - 1));
      assert 8 + 8 * (n - 1) == 8 * n;
      assert Pow2(8) == 256 by {
        assert Pow2(4) == 16;
        Pow2Split(4, 4);
      }
    }
  }

  lemma {:induction false} ValueOfLast(bytes: seq<Byte>, last: Byte)
    ensures LeValue(bytes + [last]) == LeValue(bytes) + Pow256(|bytes|) * last
  {
    var all := bytes + [last];
    if bytes == [] {
      assert all[1..] == [];
    } else {
      ValueOfLast(bytes[1..], last);
      assert all[1..] == bytes[1..] + [last];
      var p := Pow256(|bytes| - 1);
      assert 256 * (p * last) == (256 * p) * last;
    }
  }

  lemma {:induction false} NumberIsValue(ram: Ram, a: Addr16, n: nat)
    requires a + n <= 0x1_0000
    ensures NumberAt(ram, a, n) == LeValue(BytesAt(ram, a, n))
    decreases n
  {
    if n > 0 {
      NumberIsValue(ram, a, n - 1);
      PowersAgree(n - 1);
      var all, most := BytesAt(ram, a, n), BytesAt(ram, a, n - 1);
      forall k | 0 <= k < n
        ensures all[k] == (most + [ByteAt(ram, a + n - 1)])[k]
      {
      }
      assert all == most + [ByteAt(ram, a + n - 1)];
      ValueOfLast(BytesAt(ram, a, n - 1), ByteAt(ram, a + n - 1));
    }
  }

  lemma {:induction false} ByteIsDigit(w: nat, n: nat, k: nat)
    requires k < n
    ensures LeBytes(w, n)[k] == ByteOfNumber(w, k)
    decreases n
  {
    if k > 0 {
      ByteIsDigit(w / 256, n - 1, k - 1);
      assert LeBytes(w, n)[k] == LeBytes(w / 256, n - 1)[k - 1];
      PowersAgree(k - 1);
      PowersAgree(k);
      DividedTwice(w, 256, Pow256(k - 1));
    }
  }

  lemma DividedTwice(w: nat, a: nat, b: nat)
    requires a > 0 && b > 0
    ensures a * b > 0 && w / a / b == w / (a * b)
  {
    var q, r := w / a, w % a;
    var d, t := q / b, q % b;
    assert w == q * a + r && q == d * b + t;
    assert w == d * (a * b) + (t * a + r) by {
      assert (d * b + t) * a == d * (a * b) + t * a;
    }
    assert t * a + r < a * b by {
      MulAtLeastStrict(t, a, b);
    }
    QuotientUnique(w, d, t * a + r, a * b);
  }

  lemma MulAtLeastStrict(t: nat, a: nat, b: nat)
    requires t < b && a > 0
    ensures t * a + a <= a * b && a * b > 0
  {
    assert (b - t - 1) * a >= 0;
    assert a * b == (b - t - 1) * a + t * a + a;
  }

  // The sequential machine follows the standard ------------------------------------------------------------

  /** A legal instruction that runs: its class as the machine tells them apart. */
  lemma ClassesOf(s: Control.Slot)
    requires Legal(s) && Plain(s) && s.opcode != 0x95
    ensures s.Class() == s.opcode % 8 && s.Source() == s.opcode / 8 % 2 && s.Code() == s.opcode / 16
    ensures s.MemSize() == s.opcode / 8 % 4 && s.MemMode() == s.opcode / 32
    ensures s.opcode % 8 == 0 <==> s.opcode == 0x18
    ensures s.opcode % 8 in {4, 7} ==> s.opcode / 16 <= 12 || (IsSwap(s) && s.opcode / 16 == 13)
    ensures s.opcode % 8 in {5, 6} ==> s.opcode in {0x05, 0x06} || s.opcode / 16 in {1, 2, 3, 4, 5, 6, 7, 10, 11, 12, 13}
    ensures s.opcode / 16 == 0 && s.opcode % 8 in {5, 6} ==> s.opcode in {0x05, 0x06}
    ensures s.opcode % 8 in {5, 6} || s.dst <= 10
  {
    FieldsOf(s);
  }

  lemma WritesOne(m: Machine, n: Machine, r: Nibble, v: Word)
    requires r <= 10 && n == Machine(Write(m.regs, r, v), m.ram, (m.pc + 1) % TWO_12)
    ensures Puts(m, n, r, v) && At(n.regs, r) == v
  {
  }

  lemma WideLoadStep(imem: Program, m: Machine)
    requires OutcomeOf(imem, m) == Running && imem[m.pc].opcode == 0x18
    ensures WideLoad(imem[m.pc], imem[(m.pc + 1) % TWO_12], m, Next(imem, m))
  {
    Outcomes(imem, m);
    hide OutcomeOf;
  }

  lemma LoadReads(imem: Program, m: Machine)
    requires OutcomeOf(imem, m) == Running && imem[m.pc].opcode % 8 == 1
    ensures var s, a := imem[m.pc], Address(m.regs, imem[m.pc]);
            && 0 <= a < 0x1_0000 && s.dst <= 9
            && Next(imem, m)
               == Machine(Write(m.regs, s.dst, ByteMask(RamLoad(m.ram, a, s.opcode / 8 % 4), s.opcode / 8 % 4, s.opcode / 32 == 4)),
                          m.ram, (m.pc + 1) % TWO_12)
  {
    var s := imem[m.pc];
    Outcomes(imem, m);
    FieldsOf(s);
    AddressExactly(m.regs, s);
    hide OutcomeOf, Address, DataAddress, RamLoad, ByteMask;
  }

  lemma LoadStep(imem: Program, m: Machine)
    requires OutcomeOf(imem, m) == Running && imem[m.pc].opcode % 8 == 1
    ensures Loads(imem[m.pc], m, Next(imem, m), AccessedAt(m.regs, imem[m.pc]))
  {
    var s, a := imem[m.pc], Address(m.regs, imem[m.pc]);
    LoadReads(imem, m);
    WidthIs(s);
    assert AccessedAt(m.regs, s) == a - a % WidthOf(s);
    hide OutcomeOf, Next, Legal, Address, AccessedAt, Puts, RamLoad, ByteMask, NumberAt, Integer, Pow2, Width, WidthOf;
    var v := ByteMask(RamLoad(m.ram, a, s.opcode / 8 % 4), s.opcode / 8 % 4, s.opcode / 32 == 4);
    WritesOne(m, Next(imem, m), s.dst, v);
    LoadedNumber(m.ram, a, s.opcode / 8 % 4, s.opcode / 32 == 4);
  }

  lemma WidthIs(s: Control.Slot)
    ensures WidthOf(s) == Width(s.opcode / 8 % 4)
  {
  }

  lemma LoadedNumber(ram: Ram, a: Addr16, size: Size, signExtend: bool)
    ensures var w := Width(size);
            var down := a - a % w;
            && 0 <= down <= 0x1_0000 - w
            && ByteMask(RamLoad(ram, a, size), size, signExtend)
               == if signExtend then Integer(NumberAt(ram, down, w), Pow2(8 * w)) % TWO_64 else NumberAt(ram, down, w)
  {
    hide RamLoad, RamStore, ByteMask, NumberAt, LeValue, BytesAt, Pow2, RoundDown, Aligned, Width, Pow256, Wrap, Integer;
    var w, down := Width(size), RoundDown(a, size);
    RoundedDown(a, size);
    MisalignedRoundsDown(ram, a, size, 0);
    AlignedFits(down, size);
    AlignedLoadIsLittleEndian(ram, down, size, signExtend);
    NumberIsValue(ram, down, w);
    PowersAgree(w);
    WrappedInteger(LeValue(BytesAt(ram, down, w)), Pow256(w));
  }

  lemma WrappedInteger(v: Word, p: int)
    ensures Integer(v, p) % TWO_64 == if 2 * v >= p then Wrap(v - p) else v
  {
  }

  lemma StoreStep(imem: Program, m: Machine)
    requires OutcomeOf(imem, m) == Running && imem[m.pc].opcode % 8 in {2, 3} && Plain(imem[m.pc])
    ensures Stores(imem[m.pc], m, Next(imem, m), AccessedAt(m.regs, imem[m.pc]))
  {
    var s, a, v := imem[m.pc], Address(m.regs, imem[m.pc]), Stored(m.regs, imem[m.pc]);
    StoreWrites(imem, m);
    hide OutcomeOf, Next, Legal, Address, Stored, RamStore, ByteOfNumber, ByteAt, Width, Plain;
    var w, down := WidthOf(s), AccessedAt(m.regs, s);
    WidthIs(s);
    assert down == a - a % w;
    AccessFits(a, s.opcode / 8 % 4);
    forall b: Addr16
      ensures ByteAt(RamStore(m.ram, a, s.opcode / 8 % 4, v), b)
              == if down <= b < down + w then ByteOfNumber(v, b - down) else ByteAt(m.ram, b)
    {
      StoredByte(m.ram, a, s.opcode / 8 % 4, v, b);
    }
    hide AccessedAt, WidthOf;
    assert Control.Inc(m.pc) == (m.pc + 1) % TWO_12;
  }

  lemma RoundedDown(a: Addr16, size: Size)
    ensures RoundDown(a, size) == a - a % Width(size)
  {
  }

  lemma AccessFits(a: Addr16, size: Size)
    ensures 0 <= a - a % Width(size) <= 0x1_0000 - Width(size)
  {
    RoundedDown(a, size);
    RoundDownSelects(a, size);
    AlignedFits(RoundDown(a, size), size);
    hide Width, RoundDown, Aligned;
  }

  lemma StoreWrites(imem: Program, m: Machine)
    requires OutcomeOf(imem, m) == Running && imem[m.pc].opcode % 8 in {2, 3} && Plain(imem[m.pc])
    ensures var s, a := imem[m.pc], Address(m.regs, imem[m.pc]);
            && 0 <= a < 0x1_0000
            && Next(imem, m) == Machine(m.regs, RamStore(m.ram, a, s.opcode / 8 % 4, Stored(m.regs, s)), Control.Inc(m.pc))
  {
    var s := imem[m.pc];
    Outcomes(imem, m);
    ClassesOf(s);
    AddressExactly(m.regs, s);
    assert Stored(m.regs, s) == if s.Class() == Bpf.STX then Read(m.regs, s.src) else SignExtend32(s.imm);
    hide OutcomeOf, Legal, Address, DataAddress, RamStore, Stored, AluValue, BranchTaken, RamLoad, ByteMask, Control.Target;
  }

  lemma StoredByte(ram: Ram, a: Addr16, size: Size, v: Word, b: Addr16)
    ensures var w := Width(size);
            var down := a - a % w;
            ByteAt(RamStore(ram, a, size, v), b) == if down <= b < down + w then ByteOfNumber(v, b - down) else ByteAt(ram, b)
  {
    var w := Width(size);
    var down := RoundDown(a, size);
    RoundedDown(a, size);
    hide RamLoad, RamStore, RoundDown, Aligned, Width, LeBytes, ByteOfNumber, ByteAt;
    MisalignedRoundsDown(ram, a, size, v);
    AlignedStoreWritesBytes(ram, down, size, v, b);
    if down <= b < down + w {
      ByteIsDigit(v, w, b - down);
    }
  }

  lemma JumpStep(imem: Program, m: Machine)
    requires OutcomeOf(imem, m) == Running && imem[m.pc].opcode % 8 in {5, 6} && Plain(imem[m.pc])
    ensures Jumps(imem[m.pc], m, Next(imem, m))
  {
    var s := imem[m.pc];
    Outcomes(imem, m);
    ClassesOf(s);
    TargetIs(s, m.pc);
    hide OutcomeOf, Legal, Plain;
    if s.opcode in {0x05, 0x06} {
      JumpsAlways(imem, m);
    } else {
      BranchIs(m.regs, s);
      JumpsIfTaken(imem, m);
    }
    hide Next, Control.Target, BranchTaken, Compares, At, Operand, Control.Decode;
    assert Control.Decode(s).jump32 == (s.opcode == 0x06) by {
      JumpIs32(s);
    }
  }

  lemma JumpIs32(s: Control.Slot)
    requires s.opcode % 8 in {5, 6}
    ensures Control.Decode(s).jump32 <==> s.opcode % 8 == 6 && s.opcode / 16 == 0
  {
    hide Control.MoveSize;
  }

  lemma JumpsAlways(imem: Program, m: Machine)
    requires OutcomeOf(imem, m) == Running && imem[m.pc].opcode in {0x05, 0x06}
    ensures Next(imem, m) == m.(pc := Control.Target(imem[m.pc], Control.Inc(m.pc)))
  {
    hide OutcomeOf, Control.Target, AluValue, BranchTaken;
  }

  lemma JumpsIfTaken(imem: Program, m: Machine)
    requires OutcomeOf(imem, m) == Running && imem[m.pc].opcode % 8 in {5, 6} && imem[m.pc].opcode / 16 != 0
    ensures Next(imem, m) == m.(pc := if BranchTaken(m.regs, imem[m.pc]) then Control.Target(imem[m.pc], Control.Inc(m.pc))
                                      else Control.Inc(m.pc))
  {
    FieldsOf(imem[m.pc]);
    hide OutcomeOf, Control.Target, AluValue, BranchTaken;
  }

  /** Twelve bits of the offset, added to the twelve-bit program counter. */
  lemma TargetIs(s: Control.Slot, pc: Addr12)
    ensures Control.Target(s, Control.Inc(pc))
            == (pc + 1 + if Control.Decode(s).jump32 then Integer(s.imm, TWO_32) else Integer(s.off, TWO_16)) % TWO_12
  {
    hide Control.Decode;
    Multiples(s.imm - TWO_32, 0x10_0000, TWO_12);
    Multiples(s.off - TWO_16, 0x10, TWO_12);
    AddModulo(pc + 1, if Control.Decode(s).jump32 then Integer(s.imm, TWO_32) else Integer(s.off, TWO_16));
  }

  lemma BranchIs(regs: Regs, s: Control.Slot)
    requires s.opcode % 8 in {5, 6} && s.opcode / 16 in {1, 2, 3, 4, 5, 6, 7, 10, 11, 12, 13}
    ensures var wide := s.opcode % 8 == 5;
            BranchTaken(regs, s)
            <==> Compares(CondOf(s.opcode / 16), wide, At(regs, s.dst) % Modulus(wide), Operand(regs, s) % Modulus(wide))
  {
    FieldsOf(s);
    OperandNarrow(regs, s);
    var wide := s.opcode % 8 == 5;
    HoldsIs(s.opcode / 16, At(regs, s.dst) % Modulus(wide), Operand(regs, s) % Modulus(wide), wide);
    hide BranchChecker.Holds, Compares, CondOf, Operand, SourceOperand, At, Narrow, Modulus;
  }

  lemma HoldsIs(code: Nibble, x: Word, y: Word, wide: bool)
    requires code in {1, 2, 3, 4, 5, 6, 7, 10, 11, 12, 13} && (!wide ==> x < TWO_32 && y < TWO_32)
    ensures BranchChecker.Holds(code, x, y, wide) <==> Compares(CondOf(code), wide, x, y)
  {
    SignedIsInteger(x, wide);
    SignedIsInteger(y, wide);
    CommonBit(x, y, wide);
    hide Signed, Integer, BitSet, AndWords, Modulus, Bits;
  }

  lemma CommonBit(x: Word, y: Word, wide: bool)
    requires !wide ==> x < TWO_32
    ensures AndWords(x, y) != 0 <==> exists k: nat :: k < Bits(wide) && BitSet(x, k) && BitSet(y, k)
  {
    hide Bitwise, BitSet;
    Pow2Values();
    var r := AndWords(x, y);
    if r != 0 {
      var k := SomeBitSet(r, 64);
      BitOfBitwise(BitAnd, x, y, 64, k);
      if !wide {
        NoHighBit(x, 32, k);
      }
    }
    forall k: nat | k < Bits(wide) && BitSet(x, k) && BitSet(y, k)
      ensures r != 0
    {
      BitOfBitwise(BitAnd, x, y, 64, k);
      NoBitOfZero(k);
    }
  }

  lemma NoHighBit(a: nat, n: nat, k: nat)
    requires a < Pow2(n)
    ensures BitSet(a, k) ==> k < n
  {
    if k >= n {
      Pow2Split(n, k - n);
      MulAtLeast(Pow2(k - n), Pow2(n));
      assert a < Pow2(k);
      QuotientUnique(a, 0, a, Pow2(k));
    }
  }

  lemma ArithmeticNext(imem: Program, m: Machine)
    requires OutcomeOf(imem, m) == Running && imem[m.pc].opcode % 8 in {4, 7}
    ensures var s := imem[m.pc];
            && s.dst <= 9
            && Next(imem, m) == Machine(if s.opcode == 0xd4 then m.regs else Write(m.regs, s.dst, AluValue(m.regs, s)), m.ram, (m.pc + 1) % TWO_12)
  {
    var s := imem[m.pc];
    Outcomes(imem, m);
    FieldsOf(s);
    assert IsNoop(s) <==> s.opcode == 0xd4;
    hide OutcomeOf, IsNoop, AluValue;
  }

  lemma ArithmeticStep(imem: Program, m: Machine)
    requires OutcomeOf(imem, m) == Running
    requires var s := imem[m.pc]; s.opcode % 8 in {4, 7} && s.opcode / 16 <= 12 && !(s.opcode / 16 == 11 && s.off != 0)
    ensures Arithmetic(imem[m.pc], m, Next(imem, m)) <==> !Deviates(imem, m)
  {
    var s, n := imem[m.pc], Next(imem, m);
    Outcomes(imem, m);
    ArithmeticNext(imem, m);
    assert LegalArithmetic(s) && s.opcode != 0xd4;
    WritesOne(m, n, s.dst, AluValue(m.regs, s));
    hide OutcomeOf, Next, Legal, LegalArithmetic, Puts;
    UnitResult(m.regs, s);
    var wide := s.opcode % 8 == 7;
    UnitComputesExactlyWhen(OpOf(s.opcode / 16, s.off), wide, At(m.regs, s.dst) % Modulus(wide), Operand(m.regs, s) % Modulus(wide));
    hide AluValue, PinsFor, Alu.Result, Computes, Misses, OpOf, At, Operand;
  }

  lemma UnitResult(regs: Regs, s: Control.Slot)
    requires s.opcode % 8 in {4, 7} && s.opcode / 16 <= 12 && !(s.opcode / 16 == 11 && s.off != 0)
    requires s.off == 0 || (s.opcode / 16 in {3, 9} && s.off == 1)
    ensures var wide := s.opcode % 8 == 7;
            AluValue(regs, s)
            == Alu.Result(PinsFor(OpOf(s.opcode / 16, s.off), wide, At(regs, s.dst) % Modulus(wide), Operand(regs, s) % Modulus(wide)))
  {
    FieldsOf(s);
    OperandNarrow(regs, s);
    hide Alu.Result, SourceOperand, Operand;
    assert Control.MoveSize(0) == SIZE64;
    assert NumberOf(OpOf(s.opcode / 16, s.off)) == s.opcode / 16;
  }

  lemma OperandNarrow(regs: Regs, s: Control.Slot)
    ensures SourceOperand(regs, s) == Operand(regs, s)
    ensures forall w: Word, wide: bool {:trigger Narrow(w, wide)} :: Narrow(w, wide) == w % Modulus(wide)
    ensures Read(regs, s.dst) == At(regs, s.dst)
  {
  }

  lemma SignMoveStep(imem: Program, m: Machine)
    requires OutcomeOf(imem, m) == Running
    requires var s := imem[m.pc]; s.opcode % 8 in {4, 7} && s.opcode / 16 == 11 && s.off != 0
    ensures SignMoves(imem[m.pc], m, Next(imem, m))
  {
    var s, n := imem[m.pc], Next(imem, m);
    Outcomes(imem, m);
    ArithmeticNext(imem, m);
    assert LegalArithmetic(s) && s.opcode != 0xd4 && s.off in {8, 16, 32, 56};
    WritesOne(m, n, s.dst, AluValue(m.regs, s));
    hide OutcomeOf, Next, Legal, LegalArithmetic, Puts;
    MovedNumber(m.regs, s);
    hide AluValue, At, Operand, Pow2;
  }

  lemma MovedNumber(regs: Regs, s: Control.Slot)
    requires s.opcode % 8 in {4, 7} && s.opcode / 16 == 11 && s.off in {8, 16, 32, 56}
    ensures var p := Pow2(if s.off == 56 then 8 else s.off);
            AluValue(regs, s) == Integer(Operand(regs, s) % p, p) % Modulus(s.opcode % 8 == 7)
  {
    FieldsOf(s);
    OperandNarrow(regs, s);
    var wide := s.opcode % 8 == 7;
    var sx, y := Control.MoveSize(s.off), Operand(regs, s) % Modulus(wide);
    var p := Alu.Pins(true, Bpf.MOV, wide, false, sx, At(regs, s.dst) % Modulus(wide), y);
    assert AluValue(regs, s) == Alu.Result(p) by {
      hide Alu.Result, SourceOperand, Operand, Control.MoveSize;
    }
    hide AluValue, Alu.Result, SourceOperand, Operand, At;
    MoveBits(s.off);
    LowOfNarrow(Operand(regs, s), wide, Alu.MoveWidth(sx));
    MovedLow(p, Operand(regs, s) % Alu.MoveWidth(sx));
    hide Alu.MoveWidth, Control.MoveSize, Pow2, Integer;
  }

  lemma MovedLow(p: Alu.Pins, low: int)
    requires Alu.Truncated(p) && p.op == Bpf.MOV && low == p.b % Alu.MoveWidth(p.sx)
    ensures Alu.Result(p) == Integer(low, Alu.MoveWidth(p.sx)) % Modulus(p.wide)
  {
    Alu.MoveSignExtends(p);
    hide Alu.Result, Alu.MoveWidth, Modulus;
  }

  lemma MoveBits(off: Half)
    requires off in {8, 16, 32, 56}
    ensures Alu.MoveWidth(Control.MoveSize(off)) == Pow2(if off == 56 then 8 else off)
    ensures Alu.MoveWidth(Control.MoveSize(off)) in {TWO_8, TWO_16, TWO_32}
  {
    assert Control.MoveSize(off) == if off == 16 then SIZE16 else if off == 32 then SIZE32 else SIZE8;
    hide Control.MoveSize, Pow2;
    SmallPowers();
  }

  lemma SmallPowers()
    ensures Pow2(8) == TWO_8 && Pow2(16) == TWO_16 && Pow2(32) == TWO_32 && Pow2(64) == TWO_64
  {
    Pow256Values();
    PowersAgree(1);
    PowersAgree(2);
    PowersAgree(4);
    PowersAgree(8);
  }

  lemma LowOfNarrow(w: Word, wide: bool, p: int)
    requires p in {TWO_8, TWO_16, TWO_32}
    ensures w % Modulus(wide) % p == w % p
  {
    Multiples(w % TWO_32, w / TWO_32 * 0x100_0000, TWO_8);
    Multiples(w % TWO_32, w / TWO_32 * 0x1_0000, TWO_16);
  }

  lemma SwapStep(imem: Program, m: Machine)
    requires OutcomeOf(imem, m) == Running && IsSwap(imem[m.pc])
    ensures Swaps(imem[m.pc], m, Next(imem, m)) <==> !Deviates(imem, m)
  {
    var s, n := imem[m.pc], Next(imem, m);
    Outcomes(imem, m);
    ArithmeticNext(imem, m);
    assert LegalArithmetic(s) && s.imm in {16, 32, 64, 112};
    var bits, w := if s.imm == 112 then 16 else s.imm, At(m.regs, s.dst);
    hide OutcomeOf, Next, Legal, LegalArithmetic;
    if s.opcode == 0xd4 {
      assert Write(m.regs, s.dst, w) == m.regs;
      WritesOne(m, n, s.dst, w);
      LowPart(w, Pow2(bits));
      hide Puts, Pow2;
    } else {
      WritesOne(m, n, s.dst, AluValue(m.regs, s));
      SwappedNumber(m.regs, s);
      hide Puts, AluValue, Reversed, At;
    }
  }

  lemma SwappedNumber(regs: Regs, s: Control.Slot)
    requires s.opcode in {0xdc, 0xd7} && s.imm in {16, 32, 64, 112}
    ensures Reversed(At(regs, s.dst), AluValue(regs, s), (if s.imm == 112 then 16 else s.imm) / 8)
  {
    SwapValue(regs, s);
    hide AluValue, Alu.EndBus, Alu.Swap, Reversed, At;
    EndBusSwaps(At(regs, s.dst), s.imm);
    SwapIsReversed(At(regs, s.dst), (if s.imm == 112 then 16 else s.imm) / 8);
  }

  lemma SwapValue(regs: Regs, s: Control.Slot)
    requires s.opcode in {0xdc, 0xd7}
    ensures AluValue(regs, s) == Alu.EndBus(At(regs, s.dst), SignExtend32(s.imm))
  {
    FieldsOf(s);
    OperandNarrow(regs, s);
    hide Alu.EndBus, SourceOperand, At;
  }

  lemma EndBusSwaps(w: Word, imm: Word32)
    requires imm in {16, 32, 64, 112}
    ensures Alu.EndBus(w, SignExtend32(imm)) == Alu.Swap(w, (if imm == 112 then 16 else imm) / 8)
  {
    hide Alu.Swap;
  }

  lemma SwapIsReversed(w: Word, n: nat)
    requires n <= 8
    ensures Reversed(w, Alu.Swap(w, n), n)
  {
    Alu.SwapReverses(w, n);
    Alu.SwapBytes(w, n);
    PowersAgree(n);
    hide Alu.Swap, LeBytes, ByteOfNumber;
    forall k: nat | k < n
      ensures ByteOfNumber(Alu.Swap(w, n), k) == ByteOfNumber(w, n - 1 - k)
    {
      ByteIsDigit(Alu.Swap(w, n), n, k);
      ByteIsDigit(w, n, n - 1 - k);
    }
  }

  lemma OnlyUnitDeviates(imem: Program, m: Machine)
    requires var s := imem[m.pc]; s.opcode % 8 !in {4, 7} || (s.opcode / 16 == 11 && s.off != 0)
    ensures !Deviates(imem, m)
  {
    hide Misses, Pow2, At, Operand;
  }

  /** One instruction.  What the sequential machine does at a plain instruction that runs is what
      the standard asks for, a data address rounded down to its width, exactly when the
      instruction is none of those that deviate. */
  lemma NextIsStandardExactlyWhen(imem: Program, m: Machine)
    requires OutcomeOf(imem, m) == Running && Plain(imem[m.pc])
    ensures Standard(imem, m, Next(imem, m), AccessedAt(m.regs, imem[m.pc])) <==> !Deviates(imem, m)
  {
    var s := imem[m.pc];
    Outcomes(imem, m);
    ClassesOf(s);
    hide OutcomeOf, Next, Legal, WideLoad, Loads, Stores, Jumps, Swaps, SignMoves, Arithmetic, Misses, Puts, Plain, AccessedAt;
    hide Deviates;
    if s.opcode % 8 !in {4, 7} || (s.opcode / 16 == 11 && s.off != 0) {
      OnlyUnitDeviates(imem, m);
    }
    if s.opcode == 0x18 {
      WideLoadStep(imem, m);
    } else if s.opcode % 8 == 1 {
      LoadStep(imem, m);
    } else if s.opcode % 8 in {2, 3} {
      StoreStep(imem, m);
    } else if s.opcode % 8 in {5, 6} {
      JumpStep(imem, m);
    } else if IsSwap(s) {
      SwapStep(imem, m);
    } else if s.opcode / 16 == 11 && s.off != 0 {
      SignMoveStep(imem, m);
    } else {
      ArithmeticStep(imem, m);
    }
  }
}
