/** The disassembler: eight bytes at a time back to mnemonics and operands, and when that gives
    back what was assembled. */
module Disassembler {
  import opened Words
  import opened ByteLanes
  import opened Assembly
  import opened CodeGenerator
  import Bpf

  /** An operand as it is printed: with or without the `r` of a register. */
  datatype Shown = R(n: int) | N(n: int)

  datatype Line = Line(isa: Isa, ops: seq<Shown>) | Unknown(insn: Insn)

  // Decoding -----------------------------------------------------------------------------------

  datatype Option<T> = None | Some(value: T)

  /** An arithmetic operation by its code and, for some codes, its offset. */
  function AluIsa(code: int, off: int, wide: bool): Option<Isa> {
    if code == Bpf.ADD then Some(Alu(Add, wide))
    else if code == Bpf.SUB then Some(Alu(Sub, wide))
    else if code == Bpf.MUL then Some(Alu(Mul, wide))
    else if code == Bpf.DIV && off == 0 then Some(Alu(Div, wide))
    else if code == Bpf.DIV && off == 1 then Some(Alu(Sdiv, wide))
    else if code == Bpf.OR then Some(Alu(Or, wide))
    else if code == Bpf.AND then Some(Alu(And, wide))
    else if code == Bpf.LSH then Some(Alu(Lsh, wide))
    else if code == Bpf.RSH then Some(Alu(Rsh, wide))
    else if code == Bpf.MOD && off == 0 then Some(Alu(Mod, wide))
    else if code == Bpf.MOD && off == 1 then Some(Alu(Smod, wide))
    else if code == Bpf.XOR then Some(Alu(Xor, wide))
    else if code == Bpf.MOV && off == 0 then Some(Alu(Mov, wide))
    else if code == Bpf.MOV && off == 8 then Some(MovSx(8, wide))
    else if code == Bpf.MOV && off == 16 then Some(MovSx(16, wide))
    else if code == Bpf.MOV && off == 32 && wide then Some(MovSx(32, wide))
    else if code == Bpf.ARSH then Some(Alu(Arsh, wide))
    else None
  }

  function AtomicOf(imm: int): Option<AtomicOp> {
    if imm == 0x00 then Some(AddX)
    else if imm == 0x50 then Some(AndX)
    else if imm == 0x40 then Some(OrX)
    else if imm == 0xa0 then Some(XorX)
    else if imm == 0x01 then Some(AddFetch)
    else if imm == 0x51 then Some(AndFetch)
    else if imm == 0x41 then Some(OrFetch)
    else if imm == 0xa1 then Some(XorFetch)
    else if imm == 0xe1 then Some(XchgX)
    else if imm == 0xf1 then Some(CmpxchgX)
    else None
  }

  function CondOf(code: int): Option<Cond> {
    if code == Bpf.JEQ then Some(Eq)
    else if code == Bpf.JGT then Some(Gt)
    else if code == Bpf.JGE then Some(Ge)
    else if code == Bpf.JLT then Some(Lt)
    else if code == Bpf.JLE then Some(Le)
    else if code == Bpf.JSET then Some(Set)
    else if code == Bpf.JNE then Some(Ne)
    else if code == Bpf.JSGT then Some(Sgt)
    else if code == Bpf.JSGE then Some(Sge)
    else if code == Bpf.JSLT then Some(Slt)
    else if code == Bpf.JSLE then Some(Sle)
    else None
  }

  /** A size field by the codes of the widths, and by the numbers given to the size macro. */
  function BitsOfWidth(size: int): int {
    if size == 2 then 8 else if size == 1 then 16 else if size == 0 then 32 else 64
  }

  function BitsOfRaw(size: int): int {
    if size == 1 then 8 else if size == 2 then 16 else if size == 0 then 32 else 64
  }

  function DecodeAlu(i: Insn): Line {
    var wide, code, x := i.code % 8 == Bpf.ALU64, i.code / 16, i.code / 8 % 2 == 1;
    var isa := AluIsa(code, i.off, wide);
    if isa.Some? && x then Line(isa.value, [R(i.dst), R(i.src)])
    else if isa.Some? && isa.value.MovSx? then Line(isa.value, [R(i.dst), R(i.imm)])
    else if isa.Some? then Line(isa.value, [R(i.dst), N(i.imm)])
    else if code == Bpf.NEG && !x then Line(Alu(Neg, wide), [R(i.dst)])
    else if code == Bpf.END && !wide then Line(Endian(if x then ToBig else ToLittle, i.imm), [R(i.dst)])
    else if code == Bpf.END && !x then Line(Endian(ByteSwap, i.imm), [R(i.dst)])
    else if i.code == Bpf.ALU + Bpf.MOV * 16 + X && i.imm == 1 then Line(Zext, [R(i.dst)])
    else Unknown(i)
  }

  function DecodeLd(i: Insn): Line {
    var size, mode := i.code / 8 % 4, i.code / 32;
    if mode == 0 && size == 3 && i.src == PSEUDO_MAP_FD then Line(LdMapFd, [R(i.dst), N(i.imm)])
    else if mode == 0 && size == 3 && i.src == 0 then Line(Ld64, [R(i.dst), N(i.imm)])
    else if mode == 1 then Line(LdAbs(BitsOfRaw(size)), [N(i.imm)])
    else if mode == 2 then Line(LdInd(BitsOfRaw(size)), [R(i.src), N(i.imm)])
    else Unknown(i)
  }

  function DecodeLdx(i: Insn): Line {
    var size, mode := i.code / 8 % 4, i.code / 32;
    if mode == 3 then Line(Ldx(BitsOfWidth(size)), [R(i.dst), R(i.src), N(i.off)])
    else if mode == 4 && size != 3 then Line(Ldxs(BitsOfWidth(size)), [R(i.dst), R(i.src), N(i.off)])
    else Unknown(i)
  }

  /** The exclusive add has the mode bits of the atomic operations and comes after them. */
  function DecodeStx(i: Insn): Line {
    var size, mode := i.code / 8 % 4, i.code / 32;
    if mode == 6 && size != 1 && AtomicOf(i.imm).Some? then
      Line(Atomic(AtomicOf(i.imm).value, BitsOfRaw(size)), [R(i.dst), R(i.src), N(i.off)])
    else if mode == 3 then Line(Stx(BitsOfWidth(size)), [R(i.dst), R(i.src), N(i.off)])
    else if mode == 6 then Line(Stxx(BitsOfWidth(size)), [R(i.dst), R(i.src), N(i.off)])
    else Unknown(i)
  }

  function DecodeJump(i: Insn): Line {
    var wide, code, x := i.code % 8 == Bpf.JMP, i.code / 16, i.code / 8 % 2 == 1;
    if code == Bpf.JA && !x && !wide then Line(Jal, [N(i.imm)])
    else if code == Bpf.JA && !x then Line(Ja, [N(i.off)])
    else if CondOf(code).Some? && x then Line(Branch(CondOf(code).value, wide), [R(i.dst), R(i.src), N(i.off)])
    else if CondOf(code).Some? then Line(Branch(CondOf(code).value, wide), [R(i.dst), N(i.imm), N(i.off)])
    else if code == Bpf.JCALL && !x && wide && i.src == PSEUDO_CALL then Line(Rel, [N(i.imm)])
    else if code == Bpf.JCALL && !x && wide then Line(Call, [N(i.imm)])
    else if code == Bpf.JEXIT && !x && wide then Line(Exit, [])
    else Unknown(i)
  }

  /** One line for one slot.  The tests on the whole opcode byte are grouped by class. */
  function DecodeInsn(i: Insn): Line {
    var c := i.code % 8;
    if c == Bpf.ALU || c == Bpf.ALU64 then DecodeAlu(i)
    else if c == Bpf.LD then DecodeLd(i)
    else if c == Bpf.LDX then DecodeLdx(i)
    else if c == Bpf.ST then
      if i.code / 32 == 3 then Line(St(BitsOfWidth(i.code / 8 % 4)), [R(i.dst), N(i.off), N(i.imm)]) else Unknown(i)
    else if c == Bpf.STX then DecodeStx(i)
    else DecodeJump(i)
  }

  /** A wide load hides the slot behind it. */
  predicate SkipsNext(l: Line) {
    l.Line? && (l.isa == LdMapFd || l.isa == Ld64)
  }

  function Lines(insns: seq<Insn>): seq<Line>
    decreases |insns|
  {
    if insns == [] then []
    else
      var l := DecodeInsn(insns[0]);
      if SkipsNext(l) then [l] + Lines(insns[if |insns| == 1 then 1 else 2..]) else [l] + Lines(insns[1..])
  }

  // The disassembler --------------------------------------------------------------------------------

  function ConcatShort(x: int, y: int): Int16 {
    AsInt16(x * 0x100 + y)
  }

  function ConcatInt(x: int, y: int, z: int, w: int): Int32 {
    AsInt32(x * 0x100_0000 + y * 0x1_0000 + z * 0x100 + w)
  }

  /** The record in the eight bytes that end at index i. */
  function InsnEndingAt(bytes: seq<Byte>, i: nat): Insn
    requires 7 <= i < |bytes|
  {
    Insn(bytes[i - 7], bytes[i - 6] % 16, bytes[i - 6] / 16,
         ConcatShort(bytes[i - 4], bytes[i - 5]), ConcatInt(bytes[i], bytes[i - 1], bytes[i - 2], bytes[i - 3]))
  }

  function InsnsOf(bytes: seq<Byte>): (r: seq<Insn>)
    requires |bytes| % 8 == 0
    ensures |r| == |bytes| / 8
  {
    seq(|bytes| / 8, (k: int) requires 0 <= k < |bytes| / 8 => InsnEndingAt(bytes, 8 * k + 7))
  }

  /** The lines from slot k on. */
  function LinesFrom(insns: seq<Insn>, k: nat): seq<Line> {
    if k >= |insns| then [] else Lines(insns[k..])
  }

  lemma LinesEnds(insns: seq<Insn>, k: nat)
    ensures k == 0 ==> LinesFrom(insns, k) == Lines(insns)
    ensures k >= |insns| ==> LinesFrom(insns, k) == []
  {
    assert insns[0..] == insns;
  }

  lemma InsnAt(bytes: seq<Byte>, k: nat)
    requires |bytes| % 8 == 0 && 8 * k + 7 < |bytes|
    ensures k < |InsnsOf(bytes)| && InsnsOf(bytes)[k] == InsnEndingAt(bytes, 8 * k + 7)
  {
  }

  lemma LinesStep(insns: seq<Insn>, k: nat)
    requires k < |insns|
    ensures var l := DecodeInsn(insns[k]);
            LinesFrom(insns, k) == [l] + LinesFrom(insns, if SkipsNext(l) then k + 2 else k + 1)
  {
    var rest := insns[k..];
    hide DecodeInsn, SkipsNext;
    if |rest| == 1 {
      assert rest[1..] == [] && Lines([]) == [];
    } else {
      assert rest[1..] == insns[k + 1..] && rest[2..] == insns[k + 2..];
      assert k + 2 == |insns| ==> Lines(insns[k + 2..]) == [];
    }
  }

  /** One loop over the bytes, with an extra step of eight behind a wide load. */
  method Disassemble(bytes: seq<Byte>) returns (ok: bool, lines: seq<Line>)
    ensures ok <==> |bytes| >= 1 && |bytes| % 8 == 0
    ensures ok ==> lines == Lines(InsnsOf(bytes))
  {
    lines, ok := [], |bytes| >= 1 && |bytes| % 8 == 0;
    if !ok {
      return;
    }
    hide DecodeInsn, SkipsNext, InsnEndingAt, Read;
    var i := 7;
    ghost var k := 0;
    ReadStart(bytes);
    while i < |bytes|
      invariant i == 8 * k + 7 && 0 <= k && Read(bytes, lines, k)
      decreases |bytes| - i
    {
      var l := DecodeInsn(InsnEndingAt(bytes, i));
      ReadStep(bytes, lines, k);
      lines := lines + [l];
      if SkipsNext(l) {
        i := i + 8;
        k := k + 1;
      }
      i := i + 8;
      k := k + 1;
    }
    ReadEnd(bytes, lines, k);
  }

  /** The lines read so far and those from record k on are all lines. */
  predicate Read(bytes: seq<Byte>, lines: seq<Line>, k: nat)
    requires |bytes| % 8 == 0
  {
    lines + LinesFrom(InsnsOf(bytes), k) == Lines(InsnsOf(bytes))
  }

  lemma ReadStart(bytes: seq<Byte>)
    requires |bytes| % 8 == 0
    ensures Read(bytes, [], 0)
  {
    LinesEnds(InsnsOf(bytes), 0);
  }

  lemma ReadStep(bytes: seq<Byte>, lines: seq<Line>, k: nat)
    requires |bytes| % 8 == 0 && 8 * k + 7 < |bytes| && Read(bytes, lines, k)
    ensures var l := DecodeInsn(InsnEndingAt(bytes, 8 * k + 7));
            Read(bytes, lines + [l], if SkipsNext(l) then k + 2 else k + 1)
  {
    hide DecodeInsn, SkipsNext, LinesFrom, InsnsOf, InsnEndingAt, Lines;
    InsnAt(bytes, k);
    var insns, l := InsnsOf(bytes), DecodeInsn(InsnEndingAt(bytes, 8 * k + 7));
    LinesStep(insns, k);
    Shift(lines, l, LinesFrom(insns, if SkipsNext(l) then k + 2 else k + 1));
  }

  lemma ReadEnd(bytes: seq<Byte>, lines: seq<Line>, k: nat)
    requires |bytes| % 8 == 0 && 8 * k + 7 >= |bytes| && Read(bytes, lines, k)
    ensures lines == Lines(InsnsOf(bytes))
  {
    LinesEnds(InsnsOf(bytes), k);
  }

  lemma Shift(lines: seq<Line>, l: Line, rest: seq<Line>)
    ensures lines + ([l] + rest) == (lines + [l]) + rest
  {
  }

  // Round trip ------------------------------------------------------------------------------------------

  function ShowOperand(o: Operand): Shown
    requires o.Register? || o.Immediate?
  {
    if o.Register? then R(o.reg) else N(o.val)
  }

  /** The line the source of an instruction would be. */
  function Show(i: Ins): Line
    requires WellTyped(i)
  {
    var a, b, c := i.ops[0], i.ops[1], i.ops[2];
    Line(i.isa,
         match ShapeOf(i.isa)
         case NoOperands => []
         case JustReg => [ShowOperand(a)]
         case JustImm => [ShowOperand(a)]
         case RegRegOrImm => [ShowOperand(a), ShowOperand(b)]
         case RegImm => [ShowOperand(a), ShowOperand(b)]
         case RegImmImm => [ShowOperand(a), ShowOperand(b), ShowOperand(c)]
         case RegRegOrImmImm => [ShowOperand(a), ShowOperand(b), ShowOperand(c)]
         case RegRegImm => [ShowOperand(a), ShowOperand(b), ShowOperand(c)])
  }

  predicate FitsImm(o: Operand) { o.Immediate? ==> -0x8000_0000 <= o.val < 0x8000_0000 }
  predicate FitsOff(o: Operand) { o.Immediate? ==> -0x8000 <= o.val < 0x8000 }

  /** What survives: not `zext`, not the exclusive adds, no sign-extending move of an immediate,
      and every number within the field it is put into. */
  predicate Faithful(i: Ins) {
    var a, b, c := i.ops[0], i.ops[1], i.ops[2];
    && !i.isa.Zext? && !i.isa.Stxx? && (i.isa.MovSx? ==> b.Register?)
    && match ShapeOf(i.isa)
       case NoOperands => true
       case JustReg => true
       case JustImm => if i.isa.Ja? then FitsOff(a) else FitsImm(a)
       case RegRegOrImm => FitsImm(b)
       case RegImm => FitsImm(b)
       case RegImmImm => FitsOff(b) && FitsImm(c)
       case RegRegOrImmImm => FitsImm(b) && FitsOff(c)
       case RegRegImm => FitsOff(c)
  }

  lemma FitsExactly(o: Operand)
    requires o.Immediate?
    ensures FitsImm(o) <==> Val(o) == o.val
    ensures FitsOff(o) <==> Off(o) == o.val
  {
  }

  predicate RoundTrips(i: Ins)
    requires WellTyped(i)
  {
    && (DecodeInsn(Encode(i)[0]) == Show(i) <==> Faithful(i))
    && (SkipsNext(DecodeInsn(Encode(i)[0])) <==> InsSlots(i.isa) == 2)
  }

  lemma AluIsaOfCode(op: AluOp, wide: bool)
    requires op != Neg
    ensures AluIsa(AluCode(op), if op == Sdiv || op == Smod then 1 else 0, wide) == Some(Alu(op, wide))
  {
  }

  lemma AluRoundTrip(i: Ins)
    requires WellTyped(i) && i.isa.Alu?
    ensures RoundTrips(i)
  {
    var op, wide := i.isa.alu, i.isa.wide;
    var class_ := if wide then Bpf.ALU64 else Bpf.ALU;
    var e := Encode(i)[0];
    assert e.code / 16 == AluCode(op) && e.code % 8 == class_;
    if op == Neg {
      assert DecodeInsn(e) == Line(Alu(Neg, wide), [R(i.ops[0].reg)]);
    } else {
      AluIsaOfCode(op, wide);
      if i.ops[1].Immediate? {
        FitsExactly(i.ops[1]);
      }
      hide FitsImm, FitsOff, AsInt16, AsInt32, AluCode, AluIsa;
      assert e.code / 8 % 2 == (if i.ops[1].Immediate? then 0 else 1);
      assert DecodeInsn(e) == DecodeAlu(e);
      assert DecodeAlu(e) == Line(Alu(op, wide), [R(e.dst), if i.ops[1].Immediate? then N(e.imm) else R(e.src)]);
    }
  }

  lemma MovSxRoundTrip(i: Ins)
    requires WellTyped(i) && i.isa.MovSx?
    ensures RoundTrips(i)
  {
    var class_ := if i.isa.wide then Bpf.ALU64 else Bpf.ALU;
    var e := Encode(i)[0];
    assert e.code / 16 == Bpf.MOV && e.code % 8 == class_ && e.off == i.isa.bits;
    assert DecodeInsn(e) == DecodeAlu(e);
    assert AluIsa(Bpf.MOV, e.off, i.isa.wide) == Some(MovSx(i.isa.bits, i.isa.wide));
    hide FitsImm, FitsOff, AsInt16, AsInt32, AluIsa;
  }

  lemma UnaryRoundTrip(i: Ins)
    requires WellTyped(i) && (i.isa.Endian? || i.isa.Zext?)
    ensures RoundTrips(i)
  {
    var e := Encode(i)[0];
    assert e.code % 8 == Bpf.ALU || e.code % 8 == Bpf.ALU64;
    assert e.code / 16 == if i.isa.Zext? then Bpf.MOV else Bpf.END;
    assert DecodeInsn(e) == DecodeAlu(e);
    hide DecodeInsn;
    if i.isa.Endian? {
      assert DecodeAlu(e) == Line(Endian(i.isa.order, i.isa.bits), [R(e.dst)]);
    } else {
      assert DecodeAlu(e) == Line(Alu(Mov, false), [R(e.dst), R(e.src)]);
    }
    hide DecodeAlu;
  }

  lemma PacketRoundTrip(i: Ins)
    requires WellTyped(i) && (i.isa.LdAbs? || i.isa.LdInd?)
    ensures RoundTrips(i)
  {
    var o := if i.isa.LdAbs? then i.ops[0] else i.ops[1];
    FitsExactly(o);
    hide FitsImm, FitsOff, AsInt16, AsInt32;
  }

  lemma WideRoundTrip(i: Ins)
    requires WellTyped(i) && (i.isa.Ld64? || i.isa.LdMapFd?)
    ensures RoundTrips(i)
  {
    FitsExactly(i.ops[1]);
    hide FitsImm, FitsOff, AsInt16, AsInt32;
  }

  lemma MemoryRoundTrip(i: Ins)
    requires WellTyped(i) && (i.isa.Ldx? || i.isa.Ldxs?)
    ensures RoundTrips(i)
  {
    FitsExactly(i.ops[2]);
    hide FitsImm, FitsOff, AsInt16, AsInt32;
  }

  lemma StoreRegisterRoundTrip(i: Ins)
    requires WellTyped(i) && (i.isa.Stx? || i.isa.Stxx?)
    ensures RoundTrips(i)
  {
    FitsExactly(i.ops[2]);
    hide FitsImm, FitsOff, AsInt16, AsInt32;
  }

  lemma StoreRoundTrip(i: Ins)
    requires WellTyped(i) && i.isa.St?
    ensures RoundTrips(i)
  {
    FitsExactly(i.ops[1]);
    FitsExactly(i.ops[2]);
    hide FitsImm, FitsOff, AsInt16, AsInt32;
  }

  lemma AtomicRoundTrip(i: Ins)
    requires WellTyped(i) && i.isa.Atomic?
    ensures RoundTrips(i)
  {
    FitsExactly(i.ops[2]);
    assert AtomicOf(AtomicImm(i.isa.atomic)) == Some(i.isa.atomic);
    hide FitsImm, FitsOff, AsInt16, AsInt32, AtomicImm, AtomicOf;
  }

  lemma JumpRoundTrip(i: Ins)
    requires WellTyped(i) && (i.isa.Ja? || i.isa.Jal? || i.isa.Call? || i.isa.Rel? || i.isa.Exit?)
    ensures RoundTrips(i)
  {
    if !i.isa.Exit? {
      FitsExactly(i.ops[0]);
    }
    hide FitsImm, FitsOff, AsInt16, AsInt32;
  }

  lemma BranchRoundTrip(i: Ins)
    requires WellTyped(i) && i.isa.Branch?
    ensures RoundTrips(i)
  {
    if i.ops[1].Immediate? {
      FitsExactly(i.ops[1]);
    }
    FitsExactly(i.ops[2]);
    assert CondOf(CondCode(i.isa.cond)) == Some(i.isa.cond);
    var e := Encode(i)[0];
    assert e.code / 16 == CondCode(i.isa.cond) && e.code % 8 == if i.isa.wide then Bpf.JMP else Bpf.JMP32;
    hide FitsImm, FitsOff, AsInt16, AsInt32, CondCode, CondOf;
  }

  /** One instruction is decoded to its own source line exactly when it is faithful. */
  lemma InstructionRoundTrip(i: Ins)
    requires WellTyped(i)
    ensures DecodeInsn(Encode(i)[0]) == Show(i) <==> Faithful(i)
    ensures SkipsNext(DecodeInsn(Encode(i)[0])) <==> InsSlots(i.isa) == 2
  {
    assert RoundTrips(i) by {
      hide RoundTrips, Encode, DecodeInsn, Show, Faithful, WellTyped;
      match i.isa
      case Alu(_, _) => AluRoundTrip(i);
      case MovSx(_, _) => MovSxRoundTrip(i);
      case Endian(_, _) => UnaryRoundTrip(i);
      case Zext => UnaryRoundTrip(i);
      case LdAbs(_) => PacketRoundTrip(i);
      case LdInd(_) => PacketRoundTrip(i);
      case Ld64 => WideRoundTrip(i);
      case LdMapFd => WideRoundTrip(i);
      case Atomic(_, _) => AtomicRoundTrip(i);
      case Branch(_, _) => BranchRoundTrip(i);
      case St(_) => StoreRoundTrip(i);
      case Ldx(_) => MemoryRoundTrip(i);
      case Ldxs(_) => MemoryRoundTrip(i);
      case Stx(_) => StoreRegisterRoundTrip(i);
      case Stxx(_) => StoreRegisterRoundTrip(i);
      case _ => JumpRoundTrip(i);
    }
    hide Encode, DecodeInsn, Show, Faithful, WellTyped, SkipsNext, InsSlots;
  }

  /** The lines that the first n statements decode to, and the lines of their source. */
  function DecodedLines(ast: seq<Stat>, n: nat): seq<Line>
    requires n <= |ast| && AllWellTyped(ast)
  {
    if n == 0 then []
    else DecodedLines(ast, n - 1) + (if ast[n - 1].Instruction? then [DecodeInsn(Encode(ast[n - 1].ins)[0])] else [])
  }

  function SourceLines(ast: seq<Stat>, n: nat): seq<Line>
    requires n <= |ast| && AllWellTyped(ast)
  {
    if n == 0 then []
    else SourceLines(ast, n - 1) + (if ast[n - 1].Instruction? then [Show(ast[n - 1].ins)] else [])
  }

  /** The disassembler stays aligned with the instructions: it takes all slots of one at a time. */
  lemma LinesOfInstruction(i: Ins, rest: seq<Insn>)
    requires WellTyped(i)
    ensures Lines(Encode(i) + rest) == [DecodeInsn(Encode(i)[0])] + Lines(rest)
  {
    InstructionRoundTrip(i);
    hide DecodeInsn, Encode, SkipsNext, WellTyped;
    var all := Encode(i) + rest;
    assert all[0] == Encode(i)[0] && all[|Encode(i)|..] == rest;
  }

  lemma {:induction false} LinesOfProgram(ast: seq<Stat>, n: nat, rest: seq<Insn>)
    requires n <= |ast| && AllWellTyped(ast)
    ensures Lines(Emit(ast, n) + rest) == DecodedLines(ast, n) + Lines(rest)
    decreases n
  {
    hide Lines, Encode, DecodeInsn, WellTyped;
    if n == 0 {
      assert Emit(ast, 0) + rest == rest;
    } else if ast[n - 1].Instruction? {
      var slots := Encode(ast[n - 1].ins);
      LinesOfProgram(ast, n - 1, slots + rest);
      LinesOfInstruction(ast[n - 1].ins, rest);
      assert Emit(ast, n) + rest == Emit(ast, n - 1) + (slots + rest);
      assert DecodedLines(ast, n) + Lines(rest) == DecodedLines(ast, n - 1) + ([DecodeInsn(slots[0])] + Lines(rest));
    } else {
      LinesOfProgram(ast, n - 1, rest);
      assert Emit(ast, n) == Emit(ast, n - 1) && DecodedLines(ast, n) == DecodedLines(ast, n - 1);
    }
  }

  predicate AllFaithful(ast: seq<Stat>, n: nat)
    requires n <= |ast|
  {
    forall k :: 0 <= k < n && ast[k].Instruction? ==> Faithful(ast[k].ins)
  }

  lemma {:induction false} LinesAgreeExactly(ast: seq<Stat>, n: nat)
    requires n <= |ast| && AllWellTyped(ast)
    ensures |DecodedLines(ast, n)| == |SourceLines(ast, n)|
    ensures DecodedLines(ast, n) == SourceLines(ast, n) <==> AllFaithful(ast, n)
    decreases n
  {
    hide Encode, DecodeInsn, Show, Faithful, WellTyped;
    if n > 0 {
      LinesAgreeExactly(ast, n - 1);
      var a, b := DecodedLines(ast, n - 1), SourceLines(ast, n - 1);
      assert DecodedLines(ast, n)[..|a|] == a && SourceLines(ast, n)[..|b|] == b;
      if ast[n - 1].Instruction? {
        InstructionRoundTrip(ast[n - 1].ins);
        assert DecodedLines(ast, n)[|a|] == DecodeInsn(Encode(ast[n - 1].ins)[0]);
        assert SourceLines(ast, n)[|b|] == Show(ast[n - 1].ins);
      }
      assert AllFaithful(ast, n) <==> AllFaithful(ast, n - 1) && (ast[n - 1].Instruction? ==> Faithful(ast[n - 1].ins));
    }
  }

  // The object file ----------------------------------------------------------------------------------------

  function FileBytes(insns: seq<Insn>): (b: seq<Byte>)
    ensures |b| == 8 * |insns|
  {
    if insns == [] then [] else FileBytes(insns[..|insns| - 1]) + Bytes(insns[|insns| - 1])
  }

  lemma {:induction false} FileBytesAt(insns: seq<Insn>, k: nat)
    requires k < |insns|
    ensures FileBytes(insns)[8 * k..8 * k + 8] == Bytes(insns[k])
    decreases |insns|
  {
    hide Bytes;
    var n := |insns| - 1;
    if k < n {
      FileBytesAt(insns[..n], k);
      assert FileBytes(insns)[8 * k..8 * k + 8] == FileBytes(insns[..n])[8 * k..8 * k + 8];
    }
  }

  lemma LowBytes(w: nat)
    ensures LeBytes(w, 2) == [w % 256, w / 256 % 256]
    ensures LeBytes(w, 4) == [w % 256, w / 256 % 256, w / 256 / 256 % 256, w / 256 / 256 / 256 % 256]
  {
    assert LeBytes(w, 4) == [w % 256] + LeBytes(w / 256, 3);
    assert LeBytes(w / 256, 3) == [w / 256 % 256] + LeBytes(w / 256 / 256, 2);
    LowTwo(w);
    LowTwo(w / 256 / 256);
  }

  lemma LowTwo(w: nat)
    ensures LeBytes(w, 2) == [w % 256, w / 256 % 256]
  {
    assert LeBytes(w, 2) == [w % 256] + LeBytes(w / 256, 1);
    assert LeBytes(w / 256, 1) == [w / 256 % 256] + LeBytes(w / 256 / 256, 0);
  }

  lemma ShortBytes(w: Half)
    ensures w / 256 % 256 * 0x100 + w % 256 == w
  {
  }

  lemma IntBytes(w: Word32)
    ensures w / 256 / 256 / 256 % 256 * 0x100_0000 + w / 256 / 256 % 256 * 0x1_0000 + w / 256 % 256 * 0x100 + w % 256 == w
  {
    var a := w / 256;
    var b := a / 256;
    var c := b / 256;
    assert w == 256 * a + w % 256 && a == 256 * b + a % 256 && b == 256 * c + b % 256 && 0 <= c < 256;
    assert c % 256 == c;
  }

  lemma SignedBack(off: Int16, imm: Int32)
    ensures AsInt16(off % TWO_16) == off && AsInt32(imm % TWO_32) == imm
  {
  }

  lemma ConcatInverts(off: Int16, imm: Int32)
    ensures var w := off % TWO_16; ConcatShort(w / 256 % 256, w % 256) == off
    ensures var w := imm % TWO_32;
            ConcatInt(w / 256 / 256 / 256 % 256, w / 256 / 256 % 256, w / 256 % 256, w % 256) == imm
  {
    hide AsInt16, AsInt32;
    SignedBack(off, imm);
    var h, w := off % TWO_16, imm % TWO_32;
    ShortBytes(h);
    IntBytes(w);
    assert ConcatShort(h / 256 % 256, h % 256) == AsInt16(h);
    assert ConcatInt(w / 256 / 256 / 256 % 256, w / 256 / 256 % 256, w / 256 % 256, w % 256) == AsInt32(w);
  }

  lemma BytesParts(i: Insn)
    ensures var b, o, m := Bytes(i), LeBytes(i.off % TWO_16, 2), LeBytes(i.imm % TWO_32, 4);
            && b[0] == i.code && b[1] == i.dst + 16 * i.src && b[2] == o[0] && b[3] == o[1]
            && b[4] == m[0] && b[5] == m[1] && b[6] == m[2] && b[7] == m[3]
  {
    hide LeBytes;
  }

  /** The bytes of a record read back. */
  lemma BytesReadBack(i: Insn)
    ensures InsnEndingAt(Bytes(i), 7) == i
  {
    LowBytes(i.off % TWO_16);
    LowBytes(i.imm % TWO_32);
    BytesParts(i);
    ConcatInverts(i.off, i.imm);
    hide LeBytes, ConcatShort, ConcatInt, Bytes;
    assert (i.dst + 16 * i.src) % 16 == i.dst && (i.dst + 16 * i.src) / 16 == i.src;
  }

  /** Reading a record depends on its eight bytes alone. */
  lemma SamePart(all: seq<Byte>, part: seq<Byte>, i: nat)
    requires 7 <= i < |all| && |part| == 8 && all[i - 7..i + 1] == part
    ensures InsnEndingAt(all, i) == InsnEndingAt(part, 7)
  {
    hide ConcatInt, ConcatShort;
    assert part[0] == all[i - 7] && part[1] == all[i - 6] && part[2] == all[i - 5] && part[3] == all[i - 4];
    assert part[4] == all[i - 3] && part[5] == all[i - 2] && part[6] == all[i - 1] && part[7] == all[i];
  }

  lemma RecordReadBack(insns: seq<Insn>, k: nat)
    requires k < |insns|
    ensures |InsnsOf(FileBytes(insns))| == |insns| && InsnsOf(FileBytes(insns))[k] == insns[k]
  {
    hide FileBytes, Bytes, InsnsOf, InsnEndingAt;
    FileBytesAt(insns, k);
    BytesReadBack(insns[k]);
    SamePart(FileBytes(insns), Bytes(insns[k]), 8 * k + 7);
    InsnAt(FileBytes(insns), k);
  }

  lemma FileReadBack(insns: seq<Insn>)
    ensures InsnsOf(FileBytes(insns)) == insns
  {
    hide FileBytes, InsnsOf;
    forall k | 0 <= k < |insns|
      ensures InsnsOf(FileBytes(insns))[k] == insns[k]
    {
      RecordReadBack(insns, k);
    }
  }

  /** Encode and decode.  Disassembling the bytes of a well-typed program gives back its source
      instructions, one line each and in order, exactly when every instruction is faithful. */
  lemma DisassemblyIsTheSourceExactlyWhen(ast: seq<Stat>)
    requires AllWellTyped(ast)
    ensures |FileBytes(Emit(ast, |ast|))| % 8 == 0
    ensures Lines(InsnsOf(FileBytes(Emit(ast, |ast|)))) == SourceLines(ast, |ast|) <==> AllFaithful(ast, |ast|)
  {
    hide AllWellTyped, FileBytes, InsnsOf, Lines, SourceLines, DecodedLines, AllFaithful, Emit;
    var prog := Emit(ast, |ast|);
    FileReadBack(prog);
    LinesOfProgram(ast, |ast|, []);
    assert prog + [] == prog;
    NoLines();
    assert DecodedLines(ast, |ast|) + [] == DecodedLines(ast, |ast|);
    LinesAgreeExactly(ast, |ast|);
  }

  lemma NoLines()
    ensures Lines([]) == []
  {
  }
}
