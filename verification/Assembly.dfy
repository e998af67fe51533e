/** The assembler's syntax tree: mnemonics, operands and statements, and the slots they take. */
module Assembly {
  import opened Words

  datatype AluOp = Add | Sub | Mul | Div | Sdiv | Or | And | Lsh | Rsh | Neg | Mod | Smod | Xor | Mov | Arsh
  datatype Order = ToLittle | ToBig | ByteSwap
  datatype AtomicOp = AddX | OrX | AndX | XorX | AddFetch | OrFetch | AndFetch | XorFetch | XchgX | CmpxchgX
  datatype Cond = Eq | Gt | Ge | Set | Ne | Sgt | Sge | Lt | Le | Slt | Sle

  /** Mnemonics.  `wide` tells `add` from `add32` and `jeq` from `jeq32`; `bits` is the number
      a mnemonic ends in. */
  datatype Isa =
    | Alu(alu: AluOp, wide: bool)
    | MovSx(bits: int, wide: bool)
    | Endian(order: Order, bits: int)
    | Atomic(atomic: AtomicOp, bits: int)
    | LdMapFd
    | Ld64
    | LdAbs(bits: int)
    | LdInd(bits: int)
    | Ldx(bits: int)
    | Ldxs(bits: int)
    | St(bits: int)
    | Stx(bits: int)
    | Stxx(bits: int)
    | Ja
    | Jal
    | Branch(cond: Cond, wide: bool)
    | Call
    | Rel
    | Exit
    | Zext

  /** Is there such a mnemonic in the assembler's table? */
  predicate IsMnemonic(i: Isa) {
    match i
    case MovSx(bits, wide) => bits == 8 || bits == 16 || (bits == 32 && wide)
    case Endian(_, bits) => bits in {16, 32, 64}
    case Atomic(_, bits) => bits in {16, 32, 64}
    case LdAbs(bits) => bits in {8, 16, 32, 64}
    case LdInd(bits) => bits in {8, 16, 32, 64}
    case Ldx(bits) => bits in {8, 16, 32, 64}
    case Ldxs(bits) => bits in {8, 16, 32}
    case St(bits) => bits in {8, 16, 32, 64}
    case Stx(bits) => bits in {8, 16, 32, 64}
    case Stxx(bits) => bits in {8, 16, 32, 64}
    case _ => true
  }

  type Mnemonic = i: Isa | IsMnemonic(i) witness Exit

  type RegNo = r: int | 0 <= r <= 10
  type Int64 = x: int | -0x8000_0000_0000_0000 <= x < 0x8000_0000_0000_0000
  type Int32 = x: int | -0x8000_0000 <= x < 0x8000_0000
  type Int16 = x: int | -0x8000 <= x < 0x8000

  // Two's complement conversions of the assembler's C++.
  function AsInt64(x: int): Int64 {
    var w := x % TWO_64;
    if w < TWO_63 then w else w - TWO_64
  }

  function AsInt32(x: int): Int32 {
    var w := x % TWO_32;
    if w < TWO_31 then w else w - TWO_32
  }

  function AsInt16(x: int): Int16 {
    var w := x % TWO_16;
    if w < 0x8000 then w else w - TWO_16
  }

  const OPERANDS: int := 3
  const MAX_INSNS: int := 1_000_000

  datatype Operand = Register(reg: RegNo) | Immediate(val: Int64) | Reference(id: string) | Empty

  type Operands = s: seq<Operand> | |s| == 3 witness [Empty, Empty, Empty]

  datatype Ins = Ins(isa: Mnemonic, ops: Operands)

  datatype Stat = Instruction(ins: Ins) | Label(lname: string, off: nat)

  /** Slots an instruction takes in the program. */
  function InsSlots(i: Isa): nat {
    if i == Ld64 || i == LdMapFd then 2 else 1
  }

  function StatSlots(s: Stat): nat {
    if s.Instruction? then InsSlots(s.ins.isa) else 0
  }

  /** The slot at which statement i starts. */
  function SlotOf(ast: seq<Stat>, i: nat): nat
    requires i <= |ast|
  {
    if i == 0 then 0 else SlotOf(ast, i - 1) + StatSlots(ast[i - 1])
  }

  lemma SlotOfStart(ast: seq<Stat>)
    ensures SlotOf(ast, 0) == 0
  {
  }

  lemma SlotOfNext(ast: seq<Stat>, i: nat)
    requires i < |ast|
    ensures SlotOf(ast, i + 1) == SlotOf(ast, i) + StatSlots(ast[i])
  {
  }

  lemma {:induction false} SlotOfPrefix(ast: seq<Stat>, more: seq<Stat>, i: nat)
    requires i <= |ast|
    ensures SlotOf(ast + more, i) == SlotOf(ast, i)
    decreases i
  {
    if i > 0 {
      SlotOfPrefix(ast, more, i - 1);
      assert (ast + more)[i - 1] == ast[i - 1];
    }
  }

  lemma {:induction false} SlotOfMonotone(ast: seq<Stat>, i: nat, j: nat)
    requires i <= j <= |ast|
    ensures SlotOf(ast, i) <= SlotOf(ast, j)
    decreases j - i
  {
    if i < j {
      SlotOfMonotone(ast, i, j - 1);
    }
  }

  /** Slots depend on the mnemonics alone. */
  lemma {:induction false} SlotOfSameShape(a: seq<Stat>, b: seq<Stat>, i: nat)
    requires |a| == |b| && i <= |a|
    requires forall k :: 0 <= k < i ==> StatSlots(a[k]) == StatSlots(b[k])
    ensures SlotOf(a, i) == SlotOf(b, i)
    decreases i
  {
    if i > 0 {
      SlotOfSameShape(a, b, i - 1);
    }
  }
}
