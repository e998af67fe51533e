/** Assembler and processor agree on where a jump goes: a jump or branch written with a label makes
    the next program counter the slot of that label. */
module JumpTargets {
  import opened Words
  import opened Assembly
  import opened CodeGenerator
  import Control
  import SequentialMachine
  import Parser
  import Bpf

  predicate IsJump(i: Isa) { i.Ja? || i.Jal? || i.Branch? }

  /** The operand that says where to go. */
  function TargetOperand(i: Isa): (j: nat)
    ensures j < OPERANDS
  {
    if i.Branch? then 2 else 0
  }

  /** A program memory that holds the generated program from slot 0 on. */
  ghost predicate Loaded(imem: SequentialMachine.Program, prog: seq<Insn>) {
    |prog| <= TWO_12 && forall k :: 0 <= k < |prog| ==> imem[k] == SlotOfBytes(Bytes(prog[k]))
  }

  lemma Truncated32(v: int)
    ensures AsInt32(v) % TWO_32 == v % TWO_32
    ensures AsInt32(v) % TWO_16 == v % TWO_16 && AsInt32(v) % TWO_12 == v % TWO_12 && v % TWO_32 % TWO_12 == v % TWO_12
  {
    var w := AsInt32(v);
    var k := if w == v % TWO_32 then v / TWO_32 else v / TWO_32 + 1;
    assert v == w + k * TWO_32;
    hide AsInt32;
    Multiples(w, k, TWO_32);
    Multiples(w, k * TWO_16, TWO_16);
    Multiples(w, k * 0x10_0000, TWO_12);
    Multiples(v % TWO_32, v / TWO_32 * 0x10_0000, TWO_12);
  }

  lemma Truncated16(v: int)
    ensures AsInt16(v) % TWO_16 % TWO_12 == v % TWO_12
  {
    var w := AsInt16(v);
    assert w % TWO_16 == v % TWO_16;
    hide AsInt16;
    Multiples(v % TWO_16, v / TWO_16 * 0x10, TWO_12);
  }

  /** Truncation to 32, to 16 and to 12 bits keeps a distance modulo 4096. */
  lemma TruncatedDistance(v: int)
    ensures AsInt16(AsInt32(v)) % TWO_16 % TWO_12 == v % TWO_12
    ensures AsInt32(v) % TWO_32 % TWO_12 == v % TWO_12
  {
    Truncated32(v);
    Truncated16(AsInt32(v));
    hide AsInt16, AsInt32;
  }

  /** The slot a jump encodes to, as the processor sees it. */
  lemma EncodedJump(i: Ins)
    requires WellTyped(i) && IsJump(i.isa)
    ensures var s, v := SlotOfBytes(Bytes(Encode(i)[0])), i.ops[TargetOperand(i.isa)].val;
            && s.IsJump() && Control.ValidInstruction(s)
            && s.Code() == (if i.isa.Branch? then CondCode(i.isa.cond) else Bpf.JA)
            && Control.Decode(s).jump32 == i.isa.Jal?
            && (i.isa.Jal? ==> s.imm == AsInt32(v) % TWO_32)
            && (!i.isa.Jal? ==> s.off == AsInt16(AsInt32(v)) % TWO_16)
  {
    var e := Encode(i)[0];
    BytesRoundTrip(e);
    JumpRecord(i);
    CondIsBranch(i.isa);
    if i.isa.Branch? {
      BranchSlot(e);
    } else {
      JumpSlot(e);
    }
    hide *;
    assert i.isa.Branch? || i.isa.Ja? || i.isa.Jal?;
  }

  lemma CondIsBranch(i: Isa)
    ensures i.Branch? ==> Control.IsBranchOp(CondCode(i.cond))
  {
  }

  /** The record's fields as the decoder sees them. */
  function SlotOfInsn(e: Insn): Control.Slot {
    Control.Slot(e.code, e.dst, e.src, e.off % TWO_16, e.imm % TWO_32)
  }

  lemma BranchSlot(e: Insn)
    requires e.code % 8 in {Bpf.JMP, Bpf.JMP32} && Control.IsBranchOp(e.code / 16) && e.dst <= 10 && e.src <= 10
    ensures var s := SlotOfInsn(e);
            && s == Control.Slot(e.code, e.dst, e.src, e.off % TWO_16, e.imm % TWO_32)
            && s.IsJump() && s.Code() == e.code / 16 && Control.ValidInstruction(s) && !Control.Decode(s).jump32
  {
    hide Control.ValidAlu, Control.ValidAtomic, Control.MoveSize;
  }

  lemma JumpSlot(e: Insn)
    requires e.code % 8 in {Bpf.JMP, Bpf.JMP32} && e.code / 16 == Bpf.JA && e.code / 8 % 2 == 0 && e.dst == 0 && e.src == 0
    requires if e.code % 8 == Bpf.JMP then e.imm == 0 else e.off == 0
    ensures var s := SlotOfInsn(e);
            && s == Control.Slot(e.code, e.dst, e.src, e.off % TWO_16, e.imm % TWO_32)
            && s.IsJump() && s.Code() == Bpf.JA && Control.ValidInstruction(s)
            && Control.Decode(s).jump32 == (e.code % 8 == Bpf.JMP32)
  {
    hide Control.ValidAlu, Control.ValidAtomic, Control.MoveSize;
  }

  /** The record a jump encodes to. */
  lemma JumpRecord(i: Ins)
    requires WellTyped(i) && IsJump(i.isa)
    ensures var e, v := Encode(i)[0], i.ops[TargetOperand(i.isa)].val;
            && e.code % 8 == (if i.isa.Jal? || (i.isa.Branch? && !i.isa.wide) then Bpf.JMP32 else Bpf.JMP)
            && e.code / 16 == (if i.isa.Branch? then CondCode(i.isa.cond) else Bpf.JA)
            && e.dst <= 10 && e.src <= 10
            && (!i.isa.Branch? ==> e.code / 8 % 2 == 0 && e.dst == 0 && e.src == 0)
            && (i.isa.Ja? ==> e.imm == 0) && (i.isa.Jal? ==> e.off == 0 && e.imm == AsInt32(v))
            && (!i.isa.Jal? ==> e.off == AsInt16(AsInt32(v)))
  {
    hide AsInt32, AsInt16;
  }

  /** The processor's target arithmetic on an encoded jump at slot s is the plain sum. */
  lemma EncodedTarget(i: Ins, s: Addr12)
    requires WellTyped(i) && IsJump(i.isa) && i.ops[TargetOperand(i.isa)].Immediate?
    ensures Control.Target(SlotOfBytes(Bytes(Encode(i)[0])), Control.Inc(s)) == (s + 1 + i.ops[TargetOperand(i.isa)].val) % TWO_12
  {
    hide SlotOfBytes, Bytes, AsInt32, AsInt16, Encode, WellTyped, CondCode;
    hide Control.Target, Control.Decode, Control.ValidInstruction, Control.IsBranchOp;
    EncodedJump(i);
    var slot := SlotOfBytes(Bytes(Encode(i)[0]));
    TargetOf(slot, Control.Inc(s));
    LandsAt(i, slot, s);
  }

  lemma LandsAt(i: Ins, slot: Control.Slot, s: Addr12)
    requires IsJump(i.isa) && i.ops[TargetOperand(i.isa)].Immediate?
    requires var v := i.ops[TargetOperand(i.isa)].val;
             if i.isa.Jal? then slot.imm == AsInt32(v) % TWO_32 else slot.off == AsInt16(AsInt32(v)) % TWO_16
    ensures (Control.Inc(s) + if i.isa.Jal? then slot.imm % TWO_12 else slot.off % TWO_12) % TWO_12
            == (s + 1 + i.ops[TargetOperand(i.isa)].val) % TWO_12
  {
    var v := i.ops[TargetOperand(i.isa)].val;
    TruncatedDistance(v);
    AddModulo(s + 1, v);
    hide AsInt32, AsInt16;
  }

  lemma TargetOf(s: Control.Slot, pc1: Addr12)
    ensures Control.Target(s, pc1) == (pc1 + if Control.Decode(s).jump32 then s.imm % TWO_12 else s.off % TWO_12) % TWO_12
  {
    hide Control.Decode;
  }

  /** Where the sequential machine, and with it the pipeline, goes next. */
  lemma NextAfterJump(imem: SequentialMachine.Program, m: SequentialMachine.Machine, i: Ins)
    requires WellTyped(i) && IsJump(i.isa) && imem[m.pc] == SlotOfBytes(Bytes(Encode(i)[0]))
    ensures SequentialMachine.OutcomeOf(imem, m) == SequentialMachine.Running
    ensures SequentialMachine.Next(imem, m).pc
            == if i.isa.Branch? && !SequentialMachine.BranchTaken(m.regs, imem[m.pc]) then Control.Inc(m.pc)
               else Control.Target(imem[m.pc], Control.Inc(m.pc))
  {
    EncodedJump(i);
    hide SlotOfBytes, Bytes, AsInt32, AsInt16, Encode, WellTyped, Control.Target, SequentialMachine.BranchTaken;
    hide Control.ValidInstruction, SequentialMachine.AluValue;
  }

  /** Symbolic jumps land.  For every source that the parser accepts and the type checker passes,
      of at most 4096 slots, whose jump or branch i was written with a label: loaded into program
      memory, it sits at the slot the parser counted, and when it is taken the next program
      counter is the slot of that label (a label behind the last of 4096 slots is slot 0). */
  lemma SymbolicJumpsLand(tokens: seq<Parser.Token>, imem: SequentialMachine.Program, m: SequentialMachine.Machine, i: nat)
    requires Parser.Parse(tokens).Ok?
    requires var r := Parser.Parse(tokens).ast;
             AllWellTyped(r) && SlotOf(r, |r|) <= TWO_12 && Loaded(imem, Emit(r, |r|))
             && i < |r| && r[i].Instruction? && IsJump(r[i].ins.isa) && m.pc == SlotOf(r, i)
    requires var tree := Parser.AcceptAll([], tokens).ast;
             tree[i].Instruction? && tree[i].ins.ops[TargetOperand(Parser.Parse(tokens).ast[i].ins.isa)].Reference?
    ensures var r, j := Parser.Parse(tokens).ast, TargetOperand(Parser.Parse(tokens).ast[i].ins.isa);
            exists k ::
              && IsLabel(r, k, Parser.AcceptAll([], tokens).ast[i].ins.ops[j].id)
              && SequentialMachine.Next(imem, m).pc
                 == if r[i].ins.isa.Branch? && !SequentialMachine.BranchTaken(m.regs, imem[m.pc]) then Control.Inc(m.pc)
                    else SlotOf(r, k) % TWO_12
  {
    var r := Parser.Parse(tokens).ast;
    var id := Parser.AcceptAll([], tokens).ast[i].ins.ops[TargetOperand(r[i].ins.isa)].id;
    Parser.ReferencesReachTheirLabels(tokens, i, TargetOperand(r[i].ins.isa));
    var k :| && 0 <= k < |r| && r[k].Label? && r[k].lname == id && r[k].off == SlotOf(r, k)
             && SlotOf(r, i + 1) + r[i].ins.ops[TargetOperand(r[i].ins.isa)].val == r[k].off;
    assert IsLabel(r, k, id);
    hide Parser.Parse, Parser.AcceptAll, IsLabel;
    ResolvedJumpLands(imem, m, r, i, k);
  }

  /** Statement k defines the label at its own slot. */
  predicate IsLabel(r: seq<Stat>, k: nat, id: string) {
    k < |r| && r[k].Label? && r[k].lname == id && r[k].off == SlotOf(r, k)
  }

  lemma ResolvedJumpLands(imem: SequentialMachine.Program, m: SequentialMachine.Machine, r: seq<Stat>, i: nat, k: nat)
    requires AllWellTyped(r) && Loaded(imem, Emit(r, |r|)) && i < |r| && k < |r|
    requires r[i].Instruction? && IsJump(r[i].ins.isa) && m.pc == SlotOf(r, i) && WellTyped(r[i].ins)
    requires SlotOf(r, i + 1) + r[i].ins.ops[TargetOperand(r[i].ins.isa)].val == SlotOf(r, k)
    ensures SequentialMachine.Next(imem, m).pc
            == if r[i].ins.isa.Branch? && !SequentialMachine.BranchTaken(m.regs, imem[m.pc]) then Control.Inc(m.pc)
               else SlotOf(r, k) % TWO_12
  {
    var ins := r[i].ins;
    LoadedJump(imem, r, i);
    EncodedTarget(ins, m.pc);
    NextAfterJump(imem, m, ins);
    SlotOfNext(r, i);
    hide SequentialMachine.Next, SequentialMachine.BranchTaken, Control.Target, Encode, SlotOfBytes, Bytes, Emit, SlotOf, Loaded, AllWellTyped, WellTyped;
  }

  lemma LoadedJump(imem: SequentialMachine.Program, r: seq<Stat>, i: nat)
    requires AllWellTyped(r) && Loaded(imem, Emit(r, |r|)) && i < |r| && r[i].Instruction? && IsJump(r[i].ins.isa)
    ensures SlotOf(r, i) < TWO_12 && imem[SlotOf(r, i)] == SlotOfBytes(Bytes(Encode(r[i].ins)[0]))
  {
    SlotsAgree(r, i);
    hide Encode, SlotOfBytes, Bytes, Emit, SlotOf, WellTyped;
    var prog, s := Emit(r, |r|), SlotOf(r, i);
    assert prog[s..SlotOf(r, i + 1)][0] == prog[s];
  }
}
