/** A source file from tokens to slots, and which assembled instructions the processor takes as
    legal. */
module AssembledPrograms {
  import opened Words
  import opened Assembly
  import opened CodeGenerator
  import opened JumpTargets
  import Control
  import Parser
  import Bpf

  // One source file -------------------------------------------------------------------------

  /** The type checker's pass over the tree. */
  method TypeCheck(ast: seq<Stat>) returns (ok: bool)
    ensures ok <==> AllWellTyped(ast)
  {
    var i := 0;
    while i < |ast|
      invariant 0 <= i <= |ast|
      invariant forall k :: 0 <= k < i && ast[k].Instruction? ==> WellTyped(ast[k].ins)
    {
      if ast[i].Instruction? && !WellTyped(ast[i].ins) {
        return false;
      }
      i := i + 1;
    }
    ok := true;
  }

  /** Parse, resolve, check and generate: a source is refused exactly when the parser or the type
      checker refuses it, and otherwise becomes the slots of its resolved tree, at least one and
      as many as the parser counted. */
  method AssembleSource(tokens: seq<Parser.Token>) returns (ok: bool, prog: seq<Insn>)
    ensures ok <==> Parser.Parse(tokens).Ok? && AllWellTyped(Parser.Parse(tokens).ast)
    ensures ok ==> var ast := Parser.Parse(tokens).ast;
                   prog == Emit(ast, |ast|) && |prog| == SlotOf(ast, |ast|) && 1 <= |prog| <= MAX_INSNS
  {
    prog := [];
    var parser := new Parser.AssemblyParser();
    var r := parser.ParseSource(tokens);
    ok := r.Ok?;
    if ok {
      ok := TypeCheck(r.ast);
    }
    if ok {
      Parser.ParsedSize(tokens);
      var slots, insns := Generate(r.ast);
      prog := slots[..insns];
    }
  }

  // Legal instructions ----------------------------------------------------------------------

  /** Mnemonics and registers with an encoding in the exception unit's table.  Packet loads, map
      descriptors, relative calls and 16-bit atomics have none, and nothing writes r10. */
  predicate CoreAccepts(i: Ins)
    requires WellTyped(i)
  {
    var a, b := i.ops[0], i.ops[1];
    match i.isa
    case Alu(_, _) => a.reg != 10
    case MovSx(_, _) => a.reg != 10
    case Endian(_, _) => a.reg != 10
    case Zext => a.reg != 10
    case Ld64 => a.reg != 10
    case Ldx(_) => a.reg != 10
    case Ldxs(_) => a.reg != 10
    case Atomic(op, bits) => bits != 16 && (op in {AddX, OrX, AndX, XorX, CmpxchgX} || b.reg != 10)
    case Stxx(bits) => bits == 32 || bits == 64
    case LdMapFd => false
    case LdAbs(_) => false
    case LdInd(_) => false
    case Rel => false
    case _ => true
  }

  predicate Legal(e: Insn) {
    Control.ValidInstruction(SlotOfInsn(e))
  }

  lemma AluLegal(i: Ins)
    requires WellTyped(i) && (i.isa.Alu? || i.isa.MovSx?)
    ensures Legal(Encode(i)[0]) <==> CoreAccepts(i)
  {
    var e := Encode(i)[0];
    var code := if i.isa.MovSx? then Bpf.MOV else AluCode(i.isa.alu);
    assert e.code / 16 == code && e.code % 8 == (if i.isa.wide then Bpf.ALU64 else Bpf.ALU);
    AluSlot(e, if i.isa.MovSx? then e.off else if i.isa.alu == Sdiv || i.isa.alu == Smod then 1 else 0);
    assert i.isa.Alu? ==> Control.IsRegularOp(code) || code == Bpf.MOV;
    hide Control.ValidInstruction;
  }

  /** The table's row for arithmetic, without the byte swaps. */
  lemma AluSlot(e: Insn, off: int)
    requires e.code % 8 in {Bpf.ALU, Bpf.ALU64} && e.off == off && 0 <= off < TWO_16 && e.src <= 10
    requires || (off == 0 && (Control.IsRegularOp(e.code / 16) || e.code / 16 == Bpf.MOV))
             || (off == 1 && e.code / 16 in {Bpf.DIV, Bpf.MOD})
             || (off in {8, 16, 32} && e.code / 16 == Bpf.MOV)
    ensures Legal(e) <==> e.dst < 10
  {
  }

  lemma SwapLegal(i: Ins)
    requires WellTyped(i) && (i.isa.Endian? || i.isa.Zext?)
    ensures Legal(Encode(i)[0]) <==> CoreAccepts(i)
  {
    var e := Encode(i)[0];
    if i.isa.Zext? {
      assert e.code / 16 == Bpf.MOV && e.code % 8 == Bpf.ALU && e.code / 8 % 2 == 1;
      hide Legal;
      AluSlot(e, 0);
    } else {
      assert e.code / 16 == Bpf.END && e.imm in {16, 32, 64};
      assert e.code % 8 == (if i.isa.order == ByteSwap then Bpf.ALU64 else Bpf.ALU);
      assert i.isa.order == ByteSwap ==> e.code / 8 % 2 == 0;
      hide Legal, Encode;
      SwapSlot(e);
    }
  }

  /** The table's rows for byte swaps. */
  lemma SwapSlot(e: Insn)
    requires e.code / 16 == Bpf.END && e.imm in {16, 32, 64} && e.off == 0 && e.src == 0
    requires e.code % 8 == Bpf.ALU || (e.code % 8 == Bpf.ALU64 && e.code / 8 % 2 == 0)
    ensures Legal(e) <==> e.dst < 10
  {
    Control.SizesAcceptedExactly(e.imm, 0);
    hide Control.EndSizeOk, Control.MoveSizeOk, Control.ValidAtomic, Control.ValidJump;
    var s := SlotOfInsn(e);
    assert s.Code() == Bpf.END && s.imm == e.imm && s.off == 0;
    assert Control.ValidInstruction(s) == Control.ValidAlu(s) by {
      hide Control.ValidAlu;
    }
    hide Control.ValidInstruction;
  }

  lemma LoadLegal(i: Ins)
    requires WellTyped(i) && (i.isa.Ld64? || i.isa.LdMapFd? || i.isa.LdAbs? || i.isa.LdInd? || i.isa.Ldx? || i.isa.Ldxs?)
    ensures Legal(Encode(i)[0]) <==> CoreAccepts(i)
  {
    hide AsInt32, AsInt16, Control.ValidAlu, Control.ValidAtomic;
  }

  lemma StoreLegal(i: Ins)
    requires WellTyped(i) && (i.isa.St? || i.isa.Stx?)
    ensures Legal(Encode(i)[0]) <==> CoreAccepts(i)
  {
    hide AsInt32, AsInt16, Control.ValidAlu, Control.ValidAtomic;
  }

  lemma AtomicLegal(i: Ins)
    requires WellTyped(i) && (i.isa.Atomic? || i.isa.Stxx?)
    ensures Legal(Encode(i)[0]) <==> CoreAccepts(i)
  {
    hide AsInt32, AsInt16, Control.ValidAlu, Control.ValidJump;
  }

  lemma JumpLegal(i: Ins)
    requires WellTyped(i) && (IsJump(i.isa) || i.isa.Call? || i.isa.Rel? || i.isa.Exit?)
    ensures Legal(Encode(i)[0]) <==> CoreAccepts(i)
  {
    if IsJump(i.isa) {
      EncodedJump(i);
      BytesRoundTrip(Encode(i)[0]);
      hide SlotOfBytes, Bytes, Control.ValidInstruction, Encode;
    } else {
      var e := Encode(i)[0];
      assert e.code % 8 == Bpf.JMP && e.code / 8 % 2 == 0 && e.dst == 0 && e.off == 0;
      assert i.isa.Exit? ==> e.code / 16 == Bpf.JEXIT && e.imm == 0 && e.src == 0;
      assert !i.isa.Exit? ==> e.code / 16 == Bpf.JCALL && e.src == (if i.isa.Rel? then PSEUDO_CALL else 0);
      hide AsInt32, AsInt16, Encode, Legal;
      CallSlot(e);
    }
  }

  /** The table's rows for `exit` and the helper call. */
  lemma CallSlot(e: Insn)
    requires e.code % 8 == Bpf.JMP && e.code / 16 in {Bpf.JCALL, Bpf.JEXIT} && e.code / 8 % 2 == 0 && e.dst == 0 && e.off == 0
    requires e.code / 16 == Bpf.JEXIT ==> e.imm == 0
    ensures Legal(e) <==> e.src == 0
  {
    hide Control.ValidAlu, Control.ValidAtomic;
    var s := SlotOfInsn(e);
    assert s.Class() == Bpf.JMP && s.Code() == e.code / 16 && s.Source() == 0 && s.imm == e.imm % TWO_32;
    assert Control.ValidInstruction(s) == Control.ValidJump(s) by {
      hide Control.ValidJump;
    }
    hide Control.ValidInstruction;
  }

  /** The processor takes an assembled instruction as legal exactly for these mnemonics and
      registers, whatever its immediates and offsets are. */
  lemma AssembledIsLegalExactlyWhen(i: Ins)
    requires WellTyped(i)
    ensures Control.ValidInstruction(SlotOfBytes(Bytes(Encode(i)[0]))) <==> CoreAccepts(i)
  {
    BytesRoundTrip(Encode(i)[0]);
    hide SlotOfBytes, Bytes, Control.ValidInstruction, Encode, WellTyped, CoreAccepts;
    if i.isa.Alu? || i.isa.MovSx? {
      AluLegal(i);
    } else if i.isa.Endian? || i.isa.Zext? {
      SwapLegal(i);
    } else if i.isa.St? || i.isa.Stx? {
      StoreLegal(i);
    } else if i.isa.Atomic? || i.isa.Stxx? {
      AtomicLegal(i);
    } else if IsJump(i.isa) || i.isa.Call? || i.isa.Rel? || i.isa.Exit? {
      JumpLegal(i);
    } else {
      LoadLegal(i);
    }
  }
}
