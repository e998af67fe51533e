/** The other way round: what the disassembler prints assembles to the record it was printed from.
    So the type rules take every line of a canonical record, and the encoder leaves the fields that
    an instruction does not use at zero. */
module Reassembly {
  import opened Words
  import opened Assembly
  import opened CodeGenerator
  import opened Disassembler

  /** A printed operand read as source. */
  function OperandOf(s: Shown): Operand
    requires s.R? ==> 0 <= s.n <= 10
    requires s.N? ==> -0x8000_0000_0000_0000 <= s.n < 0x8000_0000_0000_0000
  {
    if s.R? then Register(s.n) else Immediate(s.n)
  }

  predicate Readable(s: Shown) {
    if s.R? then 0 <= s.n <= 10 else -0x8000_0000_0000_0000 <= s.n < 0x8000_0000_0000_0000
  }

  /** A printed line that has the form of a source line. */
  predicate IsSourceLine(l: Line) {
    l.Line? && IsMnemonic(l.isa) && |l.ops| <= 3 && forall k :: 0 <= k < |l.ops| ==> Readable(l.ops[k])
  }

  function InsOf(l: Line): Ins
    requires IsSourceLine(l)
  {
    Ins(l.isa, [if |l.ops| > 0 then OperandOf(l.ops[0]) else Empty,
                if |l.ops| > 1 then OperandOf(l.ops[1]) else Empty,
                if |l.ops| > 2 then OperandOf(l.ops[2]) else Empty])
  }

  /** The type rules leave no operand that the line of the instruction does not show. */
  lemma LineTellsAll(i: Ins)
    requires WellTyped(i)
    ensures IsSourceLine(Show(i)) && InsOf(Show(i)) == i
  {
    var ops := InsOf(Show(i)).ops;
    assert ops[0] == i.ops[0] && ops[1] == i.ops[1] && ops[2] == i.ops[2];
    assert ops == i.ops;
  }

  // Canonical records, by opcode number ---------------------------------------------------------------

  predicate CanonicalArithmetic(e: Insn) {
    var code, x, wide := e.code / 16, e.code / 8 % 2 == 1, e.code % 8 == 7;
    if code == 8 then !x && e.src == 0 && e.off == 0 && e.imm == 0
    else if code == 13 then e.code in {0xd4, 0xdc, 0xd7} && e.src == 0 && e.off == 0 && e.imm in {16, 32, 64}
    else
      && code <= 12 && (if x then e.imm == 0 else e.src == 0)
      && (e.off == 0 || (code in {3, 9} && e.off == 1) || (code == 11 && x && (e.off in {8, 16} || (e.off == 32 && wide))))
  }

  predicate CanonicalJump(e: Insn) {
    || (e.code == 0x05 && e.dst == 0 && e.src == 0 && e.imm == 0)
    || (e.code == 0x06 && e.dst == 0 && e.src == 0 && e.off == 0)
    || (e.code == 0x85 && e.dst == 0 && e.src in {0, 1} && e.off == 0)
    || (e.code == 0x95 && e.dst == 0 && e.src == 0 && e.off == 0 && e.imm == 0)
    || (e.code / 16 in {1, 2, 3, 4, 5, 6, 7, 10, 11, 12, 13} && if e.code / 8 % 2 == 1 then e.imm == 0 else e.src == 0)
  }

  /** Instructions of one slot with nothing in the fields they do not use. */
  predicate Canonical(e: Insn) {
    var c := e.code % 8;
    && e.dst <= 10 && e.src <= 10
    && if c in {4, 7} then CanonicalArithmetic(e)
       else if c in {5, 6} then CanonicalJump(e)
       else if c == 1 then e.code in {0x61, 0x69, 0x71, 0x79, 0x81, 0x89, 0x91} && e.imm == 0
       else if c == 2 then e.code in {0x62, 0x6a, 0x72, 0x7a} && e.src == 0
       else if c == 3 then
         || (e.code in {0x63, 0x6b, 0x73, 0x7b} && e.imm == 0)
         || (e.code in {0xc3, 0xd3, 0xdb} && e.imm in {0x00, 0x40, 0x50, 0xa0, 0x01, 0x41, 0x51, 0xa1, 0xe1, 0xf1})
       else (e.code in {0x20, 0x30, 0x38, 0x28} && e.dst == 0 && e.src == 0 && e.off == 0)
            || (e.code in {0x40, 0x50, 0x58, 0x48} && e.dst == 0 && e.off == 0)
  }

  predicate Reassembles(e: Insn) {
    var l := DecodeInsn(e);
    IsSourceLine(l) && WellTyped(InsOf(l)) && Encode(InsOf(l)) == [e]
  }

  lemma ShortKept(e: Insn)
    ensures AsInt16(AsInt32(e.off)) == e.off && AsInt32(e.imm) == e.imm
  {
  }

  /** The operation of a canonical record and its code again. */
  lemma OperationBack(code: Nibble, off: Int16, wide: bool)
    requires code <= 12 && code != 8
    requires off == 0 || (code in {3, 9} && off == 1) || (code == 11 && (off in {8, 16} || (off == 32 && wide)))
    ensures var o := AluIsa(code, off, wide);
            && o.Some?
            && if code == 11 && off != 0 then o.value == MovSx(off, wide)
               else o.value.Alu? && o.value.wide == wide && o.value.alu != Neg && AluCode(o.value.alu) == code
                    && off == if o.value.alu == Sdiv || o.value.alu == Smod then 1 else 0
  {
  }

  lemma OperationReassembles(e: Insn)
    requires e.code % 8 in {4, 7} && e.dst <= 10 && e.src <= 10 && CanonicalArithmetic(e) && e.code / 16 !in {8, 13}
    ensures Reassembles(e)
  {
    var code, x, wide := e.code / 16, e.code / 8 % 2 == 1, e.code % 8 == 7;
    OperationBack(code, e.off, wide);
    var isa := AluIsa(code, e.off, wide).value;
    assert DecodeInsn(e) == Line(isa, [R(e.dst), if x then R(e.src) else N(e.imm)]) by {
      hide AluIsa;
    }
    hide DecodeInsn, AluIsa, AluCode;
    ShortKept(e);
    var i := InsOf(DecodeInsn(e));
    assert WellTyped(i);
    hide AsInt32, AsInt16, WellTyped;
    assert e.code == code * 16 + (if x then 8 else 0) + e.code % 8;
  }

  lemma ArithmeticReassembles(e: Insn)
    requires e.code % 8 in {4, 7} && e.dst <= 10 && e.src <= 10 && CanonicalArithmetic(e)
    ensures Reassembles(e)
  {
    if e.code / 16 == 8 {
      assert e.code in {0x84, 0x87};
      assert DecodeInsn(e) == Line(Alu(Neg, e.code == 0x87), [R(e.dst)]);
      hide DecodeInsn;
    } else if e.code / 16 == 13 {
      assert DecodeInsn(e) == Line(Endian(if e.code == 0xd4 then ToLittle else if e.code == 0xdc then ToBig else ByteSwap, e.imm), [R(e.dst)]);
      hide DecodeInsn;
    } else {
      OperationReassembles(e);
      hide Reassembles;
    }
  }

  lemma ConditionBack(code: Nibble)
    requires code in {1, 2, 3, 4, 5, 6, 7, 10, 11, 12, 13}
    ensures CondOf(code).Some? && CondCode(CondOf(code).value) == code
  {
  }

  lemma BranchReassembles(e: Insn)
    requires e.code % 8 in {5, 6} && e.dst <= 10 && e.src <= 10 && e.code / 16 in {1, 2, 3, 4, 5, 6, 7, 10, 11, 12, 13}
    requires if e.code / 8 % 2 == 1 then e.imm == 0 else e.src == 0
    ensures Reassembles(e)
  {
    var code, x := e.code / 16, e.code / 8 % 2 == 1;
    ConditionBack(code);
    var isa, y := Branch(CondOf(code).value, e.code % 8 == 5), if x then R(e.src) else N(e.imm);
    assert DecodeInsn(e) == Line(isa, [R(e.dst), y, N(e.off)]) by {
      hide CondOf;
    }
    hide DecodeInsn, CondOf, CondCode;
    ShortKept(e);
    var i := InsOf(DecodeInsn(e));
    assert i == Ins(isa, [Register(e.dst), OperandOf(y), Immediate(e.off)]);
    assert WellTyped(i);
    hide AsInt32, AsInt16, WellTyped, InsOf;
    assert e.code == code * 16 + (if x then 8 else 0) + e.code % 8;
  }

  lemma JumpReassembles(e: Insn)
    requires e.code % 8 in {5, 6} && e.dst <= 10 && e.src <= 10 && CanonicalJump(e)
    ensures Reassembles(e)
  {
    if e.code in {0x05, 0x06, 0x85, 0x95} {
      ShortKept(e);
      hide AsInt32, AsInt16, CondOf;
      assert DecodeInsn(e) == DecodeJump(e);
    } else {
      BranchReassembles(e);
      hide Reassembles;
    }
  }

  lemma LoadReassembles(e: Insn)
    requires e.code % 8 == 1 && Canonical(e)
    ensures Reassembles(e)
  {
    ShortKept(e);
    hide AsInt32, AsInt16;
  }

  lemma StoreReassembles(e: Insn)
    requires e.code % 8 in {2, 3} && Canonical(e)
    ensures Reassembles(e)
  {
    ShortKept(e);
    hide AsInt32, AsInt16;
  }

  lemma PacketReassembles(e: Insn)
    requires e.code % 8 == 0 && Canonical(e)
    ensures Reassembles(e)
  {
    ShortKept(e);
    hide AsInt32, AsInt16;
  }

  /** Every canonical record is printed as a line that the type rules take and that assembles to
      exactly this record. */
  lemma CanonicalReassembles(e: Insn)
    requires Canonical(e)
    ensures Reassembles(e)
  {
    hide Reassembles, CanonicalArithmetic, CanonicalJump;
    if e.code % 8 in {4, 7} {
      ArithmeticReassembles(e);
    } else if e.code % 8 in {5, 6} {
      JumpReassembles(e);
    } else if e.code % 8 == 1 {
      LoadReassembles(e);
    } else if e.code % 8 in {2, 3} {
      StoreReassembles(e);
    } else {
      PacketReassembles(e);
    }
  }

  /** The two slots of a wide load: the upper half of the number alone in the second one. */
  lemma WideSlots(i: Ins)
    requires WellTyped(i) && (i.isa.Ld64? || i.isa.LdMapFd?)
    ensures var v, first, second := i.ops[1].val, Encode(i)[0], Encode(i)[1];
            && |Encode(i)| == 2
            && first.code == 0x18 && first.dst == i.ops[0].reg && first.src == (if i.isa.Ld64? then 0 else 1) && first.off == 0
            && second.code == 0 && second.dst == 0 && second.src == 0 && second.off == 0
            && first.imm % TWO_32 == v % TWO_32
            && (i.isa.Ld64? ==> second.imm % TWO_32 == v / TWO_32 % TWO_32)
            && (i.isa.LdMapFd? ==> second.imm == if v % TWO_32 >= TWO_31 then -1 else 0)
  {
    var v := i.ops[1].val;
    Residue32(v);
    Residue32(v / TWO_32);
    SignOnly(AsInt32(v));
    hide AsInt32;
  }

  lemma Residue32(v: int)
    ensures AsInt32(v) % TWO_32 == v % TWO_32
    ensures AsInt32(v) < 0 <==> v % TWO_32 >= TWO_31
  {
  }

  lemma SignOnly(x: Int32)
    ensures AsInt32(x / TWO_32) == if x < 0 then -1 else 0
  {
  }
}
