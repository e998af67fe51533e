/** Code generation: the operand types each mnemonic takes, the instruction records it becomes,
    the loop that fills the program, and the bytes written out. */
module CodeGenerator {
  import opened Words
  import opened ByteLanes
  import opened Assembly
  import Control
  import Bpf

  /** One instruction record, its fields as the C structure declares them. */
  datatype Insn = Insn(code: Byte, dst: Nibble, src: Nibble, off: Int16, imm: Int32)

  // Opcode parts, as the encoding macros place them.
  const X: int := 0x08
  const PSEUDO_MAP_FD: int := 1
  const PSEUDO_CALL: int := 1
  const FETCH: int := 1

  /** The code of an access width; only a plain load or store uses it. */
  function WidthCode(bits: int): int {
    if bits == 8 then 0x10 else if bits == 16 then 0x08 else if bits == 32 then 0x00 else 0x18
  }

  /** The size bits as the size macro cuts them out of the number 8, 16 or 32 that atomic and
      packet instructions give it: these are not the codes of those widths. */
  function RawSize(bits: int): int {
    if bits == 8 then 0x08 else if bits == 16 then 0x10 else if bits == 32 then 0x00 else 0x18
  }

  function AluCode(op: AluOp): Nibble {
    match op
    case Add => Bpf.ADD
    case Sub => Bpf.SUB
    case Mul => Bpf.MUL
    case Div => Bpf.DIV
    case Sdiv => Bpf.DIV
    case Or => Bpf.OR
    case And => Bpf.AND
    case Lsh => Bpf.LSH
    case Rsh => Bpf.RSH
    case Neg => Bpf.NEG
    case Mod => Bpf.MOD
    case Smod => Bpf.MOD
    case Xor => Bpf.XOR
    case Mov => Bpf.MOV
    case Arsh => Bpf.ARSH
  }

  function CondCode(c: Cond): Nibble {
    match c
    case Eq => Bpf.JEQ
    case Gt => Bpf.JGT
    case Ge => Bpf.JGE
    case Set => Bpf.JSET
    case Ne => Bpf.JNE
    case Sgt => Bpf.JSGT
    case Sge => Bpf.JSGE
    case Lt => Bpf.JLT
    case Le => Bpf.JLE
    case Slt => Bpf.JSLT
    case Sle => Bpf.JSLE
  }

  /** The immediate that names an atomic operation. */
  function AtomicImm(op: AtomicOp): int {
    match op
    case AddX => 0x00
    case OrX => 0x40
    case AndX => 0x50
    case XorX => 0xa0
    case AddFetch => 0x00 + FETCH
    case OrFetch => 0x40 + FETCH
    case AndFetch => 0x50 + FETCH
    case XorFetch => 0xa0 + FETCH
    case XchgX => 0xe0 + FETCH
    case CmpxchgX => 0xf0 + FETCH
  }

  // Operand types ----------------------------------------------------------------------------

  datatype Shape = RegRegOrImm | JustReg | RegImmImm | RegImm | JustImm | RegRegOrImmImm | NoOperands | RegRegImm

  function ShapeOf(i: Mnemonic): Shape {
    match i
    case Alu(op, _) => if op == Neg then JustReg else RegRegOrImm
    case MovSx(_, _) => RegRegOrImm
    case Endian(_, _) => JustReg
    case Zext => JustReg
    case St(_) => RegImmImm
    case LdMapFd => RegImm
    case Ld64 => RegImm
    case LdInd(_) => RegImm
    case LdAbs(_) => JustImm
    case Ja => JustImm
    case Jal => JustImm
    case Call => JustImm
    case Rel => JustImm
    case Branch(_, _) => RegRegOrImmImm
    case Exit => NoOperands
    case Atomic(_, _) => RegRegImm
    case Ldx(_) => RegRegImm
    case Ldxs(_) => RegRegImm
    case Stx(_) => RegRegImm
    case Stxx(_) => RegRegImm
  }

  /** What the type checker accepts. */
  predicate WellTyped(i: Ins) {
    var a, b, c := i.ops[0], i.ops[1], i.ops[2];
    match ShapeOf(i.isa)
    case RegRegOrImm => a.Register? && (b.Register? || b.Immediate?) && c.Empty?
    case JustReg => a.Register? && b.Empty? && c.Empty?
    case RegImmImm => a.Register? && b.Immediate? && c.Immediate?
    case RegImm => a.Register? && b.Immediate? && c.Empty?
    case JustImm => a.Immediate? && b.Empty? && c.Empty?
    case RegRegOrImmImm => a.Register? && (b.Register? || b.Immediate?) && c.Immediate?
    case NoOperands => a.Empty? && b.Empty? && c.Empty?
    case RegRegImm => a.Register? && b.Register? && c.Immediate?
  }

  // Encoding ------------------------------------------------------------------------------------

  /** An operand as a 32-bit value, and that cut to 16 bits. */
  function Val(o: Operand): Int32
    requires o.Immediate?
  {
    AsInt32(o.val)
  }

  function Off(o: Operand): Int16
    requires o.Immediate?
  {
    AsInt16(Val(o))
  }

  function RegOrImm(class_: int, code: Nibble, dst: RegNo, b: Operand, off: Int16): Insn
    requires 0 <= class_ < 8 && (b.Register? || b.Immediate?)
  {
    if b.Immediate? then Insn(class_ + code * 16, dst, 0, off, Val(b))
    else Insn(class_ + code * 16 + X, dst, b.reg, off, 0)
  }

  /** The slots of one instruction. */
  function Encode(i: Ins): (r: seq<Insn>)
    requires WellTyped(i)
    ensures |r| == InsSlots(i.isa)
  {
    var a, b, c := i.ops[0], i.ops[1], i.ops[2];
    match i.isa
    case Alu(op, wide) =>
      var class_ := if wide then Bpf.ALU64 else Bpf.ALU;
      if op == Neg then [Insn(class_ + Bpf.NEG * 16, a.reg, 0, 0, 0)]
      else [RegOrImm(class_, AluCode(op), a.reg, b, if op == Sdiv || op == Smod then 1 else 0)]
    case MovSx(bits, wide) => [RegOrImm(if wide then Bpf.ALU64 else Bpf.ALU, Bpf.MOV, a.reg, b, bits)]
    case Endian(order, bits) =>
      var code := match order case ToLittle => Bpf.ALU case ToBig => Bpf.ALU + X case ByteSwap => Bpf.ALU64;
      [Insn(code + Bpf.END * 16, a.reg, 0, 0, bits)]
    case Atomic(op, bits) =>
      [Insn(Bpf.STX + RawSize(bits) + 0xc0, a.reg, b.reg, Off(c), AtomicImm(op))]
    case LdMapFd =>
      [Insn(Bpf.LD + 0x18, a.reg, PSEUDO_MAP_FD, 0, Val(b)), Insn(0, 0, 0, 0, AsInt32(Val(b) / TWO_32))]
    case Ld64 =>
      [Insn(Bpf.LD + 0x18, a.reg, 0, 0, AsInt32(b.val)), Insn(0, 0, 0, 0, AsInt32(b.val / TWO_32))]
    case LdAbs(bits) => [Insn(Bpf.LD + RawSize(bits) + 0x20, 0, 0, 0, Val(a))]
    case LdInd(bits) => [Insn(Bpf.LD + RawSize(bits) + 0x40, 0, a.reg, 0, Val(b))]
    case Ldx(bits) => [Insn(Bpf.LDX + WidthCode(bits) + 0x60, a.reg, b.reg, Off(c), 0)]
    case Ldxs(bits) => [Insn(Bpf.LDX + WidthCode(bits) + 0x80, a.reg, b.reg, Off(c), 0)]
    case St(bits) => [Insn(Bpf.ST + WidthCode(bits) + 0x60, a.reg, 0, Off(b), Val(c))]
    case Stx(bits) => [Insn(Bpf.STX + WidthCode(bits) + 0x60, a.reg, b.reg, Off(c), 0)]
    case Stxx(bits) => [Insn(Bpf.STX + RawSize(bits) + 0xc0, a.reg, b.reg, Off(c), 0)]
    case Ja => [Insn(Bpf.JMP + Bpf.JA * 16, 0, 0, Off(a), 0)]
    case Jal => [Insn(Bpf.JMP32 + Bpf.JA * 16, 0, 0, 0, Val(a))]
    case Branch(cond, wide) => [RegOrImm(if wide then Bpf.JMP else Bpf.JMP32, CondCode(cond), a.reg, b, Off(c))]
    case Call => [Insn(Bpf.JMP + Bpf.JCALL * 16, 0, 0, 0, Val(a))]
    case Rel => [Insn(Bpf.JMP + Bpf.JCALL * 16, 0, PSEUDO_CALL, 0, Val(a))]
    case Exit => [Insn(Bpf.JMP + Bpf.JEXIT * 16, 0, 0, 0, 0)]
    case Zext => [Insn(Bpf.ALU + Bpf.MOV * 16 + X, a.reg, a.reg, 0, 1)]
  }

  predicate AllWellTyped(ast: seq<Stat>) {
    forall k :: 0 <= k < |ast| && ast[k].Instruction? ==> WellTyped(ast[k].ins)
  }

  /** Slots of the first n statements. */
  function Emit(ast: seq<Stat>, n: nat): (r: seq<Insn>)
    requires n <= |ast| && AllWellTyped(ast)
    ensures |r| == SlotOf(ast, n)
  {
    if n == 0 then [] else Emit(ast, n - 1) + (if ast[n - 1].Instruction? then Encode(ast[n - 1].ins) else [])
  }

  /** The slots of one instruction go behind those already there. */
  method PutSlots(prog: array<Insn>, insns: nat, slots: seq<Insn>)
    requires 1 <= |slots| <= 2 && insns + |slots| <= prog.Length
    modifies prog
    ensures prog[..insns + |slots|] == old(prog[..insns]) + slots
  {
    prog[insns] := slots[0];
    if |slots| == 2 {
      prog[insns + 1] := slots[1];
    }
  }

  lemma EmitNext(ast: seq<Stat>, i: nat)
    requires i < |ast| && AllWellTyped(ast)
    ensures ast[i].Instruction? ==> Emit(ast, i + 1) == Emit(ast, i) + Encode(ast[i].ins)
    ensures ast[i].Label? ==> Emit(ast, i + 1) == Emit(ast, i)
  {
    hide Encode, WellTyped;
  }

  /** The generator: one pass that fills the program through a counter.  The program array has
      room for as many slots as the parser accepts. */
  method Generate(ast: seq<Stat>) returns (prog: array<Insn>, insns: nat)
    requires AllWellTyped(ast) && SlotOf(ast, |ast|) <= MAX_INSNS
    ensures fresh(prog) && prog.Length == MAX_INSNS && insns == SlotOf(ast, |ast|)
    ensures prog[..insns] == Emit(ast, |ast|)
  {
    hide Encode, WellTyped, Emit, SlotOf;
    prog := new Insn[MAX_INSNS](_ => Insn(0, 0, 0, 0, 0));
    insns := 0;
    var i := 0;
    SlotOfStart(ast);
    while i < |ast|
      invariant 0 <= i <= |ast| && insns == SlotOf(ast, i) <= MAX_INSNS
      invariant prog[..insns] == Emit(ast, i)
    {
      SlotOfMonotone(ast, i + 1, |ast|);
      SlotOfNext(ast, i);
      EmitNext(ast, i);
      if ast[i].Instruction? {
        var slots := Encode(ast[i].ins);
        PutSlots(prog, insns, slots);
        insns := insns + |slots|;
      }
      i := i + 1;
    }
  }

  // Slot agreement ---------------------------------------------------------------------------------

  lemma {:induction false} EmitPrefix(ast: seq<Stat>, m: nat, n: nat)
    requires m <= n <= |ast| && AllWellTyped(ast)
    ensures SlotOf(ast, m) <= SlotOf(ast, n) && Emit(ast, m) == Emit(ast, n)[..SlotOf(ast, m)]
    decreases n - m
  {
    hide Encode, AllWellTyped, Emit, SlotOf;
    if m < n {
      EmitPrefix(ast, m, n - 1);
      EmitNext(ast, n - 1);
      SlotOfNext(ast, n - 1);
      var k, most := SlotOf(ast, m), Emit(ast, n - 1);
      assert Emit(ast, n)[..|most|] == most;
      assert Emit(ast, n)[..k] == Emit(ast, n)[..|most|][..k];
    }
  }

  /** The program has as many slots as the parser counted, and each instruction's slots are at the
      position that labels assume. */
  lemma SlotsAgree(ast: seq<Stat>, i: nat)
    requires AllWellTyped(ast) && i < |ast| && ast[i].Instruction?
    ensures |Emit(ast, |ast|)| == SlotOf(ast, |ast|)
    ensures SlotOf(ast, i + 1) == SlotOf(ast, i) + InsSlots(ast[i].ins.isa) <= |Emit(ast, |ast|)|
    ensures Emit(ast, |ast|)[SlotOf(ast, i)..SlotOf(ast, i + 1)] == Encode(ast[i].ins)
  {
    EmitPrefix(ast, i, i + 1);
    EmitPrefix(ast, i + 1, |ast|);
    var all, upTo := Emit(ast, |ast|), Emit(ast, i + 1);
    assert upTo[SlotOf(ast, i)..] == Encode(ast[i].ins);
    assert all[SlotOf(ast, i)..SlotOf(ast, i + 1)] == upTo[SlotOf(ast, i)..];
  }

  // Bytes --------------------------------------------------------------------------------------------

  /** The eight bytes of a record in memory on a little-endian machine. */
  function Bytes(i: Insn): (b: Lanes) {
    [i.code, i.dst + 16 * i.src] + LeBytes(i.off % TWO_16, 2) + LeBytes(i.imm % TWO_32, 4)
  }

  /** The slot the processor's decoder sees in such a word. */
  function SlotOfBytes(b: Lanes): Control.Slot {
    LeValueBound(b[2..4]);
    LeValueBound(b[4..8]);
    Pow256Values();
    Control.Slot(b[0], b[1] % 16, b[1] / 16, LeValue(b[2..4]), LeValue(b[4..8]))
  }

  /** The decoder's fields are the record's, read as unsigned. */
  lemma BytesRoundTrip(i: Insn)
    ensures SlotOfBytes(Bytes(i)) == Control.Slot(i.code, i.dst, i.src, i.off % TWO_16, i.imm % TWO_32)
  {
    var b := Bytes(i);
    var off, imm := LeBytes(i.off % TWO_16, 2), LeBytes(i.imm % TWO_32, 4);
    assert b[2..4] == off && b[4..8] == imm;
    LeRoundTrip(i.off % TWO_16, 2);
    LeRoundTrip(i.imm % TWO_32, 4);
    Pow256Values();
    hide LeValue, LeBytes, Pow256;
  }
}
