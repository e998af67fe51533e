/** The core's data memory interface: byte lanes, the atomic arithmetic unit and the MEM_CONTROL
    machine that turns an atomic operation into a read clock and a write clock. */
module DataInterface {
  import opened Words
  import opened ByteLanes
  import opened DelayedRegister
  import Control
  import Bpf

  datatype Phase = Init | ModifyWrite | Error

  /** The pins the EX/MEM latch drives. */
  datatype Pins = Pins(addr: Word, input: Word, writeEn: bool, readEn: bool, size: Size, atomic: bool, op: Nibble, token: Word)
  {
    function Sel(): Lane { addr % 8 }
    predicate Access() { writeEn || readEn }
    predicate BadAddress() { Access() && !Control.ValidAddress(addr) }
    predicate Shared() { Control.InShared(addr % TWO_16) }
    predicate IsCmpxchg() { atomic && op == Bpf.CMPXCHG }
    predicate UpperHalf() { size == SIZE32 && Sel() / 4 == 1 }
  }

  datatype State = State(phase: Phase, reg: Delayed, size: Size, sel: Lane)

  // Combinational signals ---------------------------------------------------------------------

  predicate Request(d: State, c: Pins) {
    !c.BadAddress() && d.phase == Init && c.Shared() && c.Access()
  }

  predicate BusFrame(d: State, c: Pins) {
    !c.BadAddress() && d.phase == ModifyWrite && c.Shared()
  }

  predicate Waits(d: State, c: Pins, granted: bool) {
    Request(d, c) && !granted
  }

  /** The first clock of a load or of an atomic operation. */
  predicate DoRead(d: State, c: Pins, granted: bool) {
    && !c.BadAddress() && d.phase == Init && !Waits(d, c, granted)
    && ((c.readEn && !c.writeEn) || (c.writeEn && c.atomic))
  }

  /** A plain store, or the second clock of an atomic operation. */
  predicate DoWrite(d: State, c: Pins, granted: bool) {
    && !c.BadAddress()
    && (|| (d.phase == Init && !Waits(d, c, granted) && c.writeEn && !c.readEn && !c.atomic)
        || d.phase == ModifyWrite)
  }

  predicate Ready(d: State, c: Pins, granted: bool) {
    c.BadAddress() || d.phase != Init || !(Waits(d, c, granted) || (c.writeEn && c.atomic))
  }

  function NextPhase(d: State, c: Pins, granted: bool): Phase {
    if c.BadAddress() then Error
    else if d.phase == Init then
      if !Waits(d, c, granted) && c.writeEn && c.atomic then ModifyWrite else Init
    else if d.phase == ModifyWrite then Init
    else Error
  }

  // Atomic arithmetic ---------------------------------------------------------------------------

  /** Second operand: a 32-bit operand for the upper half is moved up. */
  function OperandB(c: Pins): Word {
    if c.UpperHalf() then Concat32(Low32(c.input), 0) else c.input
  }

  function AluOutput(c: Pins, saved: Word): Word {
    if !c.atomic then OperandB(c)
    else if c.op == Bpf.ADD then Wrap(saved + OperandB(c))
    else if c.op == Bpf.OR then OrWords(saved, OperandB(c))
    else if c.op == Bpf.AND then AndWords(saved, OperandB(c))
    else if c.op == Bpf.XOR then XorWords(saved, OperandB(c))
    else OperandB(c)
  }

  /** Does a compare-and-exchange store?  The second comparison takes all 64 bits whatever the
      size of the access. */
  predicate DoXchg(c: Pins, saved: Word) {
    (c.UpperHalf() && Low32(c.token) == High32(saved)) || c.token == saved
  }

  predicate WritesMemory(d: State, c: Pins, granted: bool, dout: Lanes) {
    DoWrite(d, c, granted) && (c.IsCmpxchg() ==> DoXchg(c, WordOf(Output(d.reg, dout))))
  }

  predicate Enabled(d: State, c: Pins, granted: bool, dout: Lanes) {
    DoRead(d, c, granted) || WritesMemory(d, c, granted, dout)
  }

  function WriteEnables(d: State, c: Pins, granted: bool, dout: Lanes): LaneSet {
    if WritesMemory(d, c, granted, dout) then Enables(c.size, c.Sel()) else NO_LANES
  }

  function WriteData(d: State, c: Pins, dout: Lanes): Lanes {
    if !c.BadAddress() && d.phase == ModifyWrite then LanesOf(AluOutput(c, WordOf(Output(d.reg, dout))))
    else StoreLanes(c.size, c.Sel(), LanesOf(c.input))
  }

  /** What the core reads: the selected lanes of the saved word. */
  function ReadData(d: State, dout: Lanes): Lanes {
    SelectLanes(d.size, d.sel, Output(d.reg, dout))
  }

  function Next(d: State, c: Pins, granted: bool, dout: Lanes): State {
    var load := DoRead(d, c, granted);
    State(NextPhase(d, c, granted), NextDelayed(d.reg, load, dout), if load then c.size else d.size, if load then c.Sel() else d.sel)
  }

  class MemInterface {
    var phase: Phase
    const reg: DelayedReg
    var size: Size
    var sel: Lane

    function View(): State
      reads this, reg
    {
      State(phase, reg.View(), size, sel)
    }

    constructor ()
      ensures View() == State(Init, Delayed(false, ZERO_LANES), SIZE32, 0) && fresh(reg)
    {
      phase, size, sel := Init, SIZE32, 0;
      reg := new DelayedReg();
    }

    /** The rising edge of MEM_CONTROL, the saved word and the saved size and lane. */
    method RisingEdge(c: Pins, granted: bool, dout: Lanes)
      modifies this, reg
      ensures View() == Next(old(View()), c, granted, dout)
    {
      var doSave := false;
      var next := phase;
      if c.BadAddress() {
        next := Error;
      } else if phase == Init {
        var request := c.Shared() && (c.writeEn || c.readEn);
        if request && !granted {
        } else if c.readEn && !c.writeEn {
          doSave := true;
        } else if !c.readEn && c.writeEn && !c.atomic {
        } else if c.writeEn && c.atomic {
          next := ModifyWrite;
          doSave := true;
        }
      } else if phase == ModifyWrite {
        next := Init;
      }
      phase := next;
      reg.RisingEdge(doSave, dout);
      if doSave {
        size, sel := c.size, c.Sel();
      }
    }
  }

  // What the atomic operations compute ------------------------------------------------------------

  /** The value an atomic operation leaves at its own 4 or 8 bytes (RFC 9669 section 5.3). */
  function AtomicValue(op: Nibble, old_: Word, src: Word, token: Word, wide: bool): Word {
    var n, s, t := if wide then 64 else 32, src % Modulus(wide), token % Modulus(wide);
    Pow2Values();
    if op == Bpf.ADD then (old_ + s) % Modulus(wide)
    else if op == Bpf.OR then Bitwise(BitOr, old_, s, n)
    else if op == Bpf.AND then Bitwise(BitAnd, old_, s, n)
    else if op == Bpf.XOR then Bitwise(BitXor, old_, s, n)
    else if op == Bpf.XCHG then s
    else if op == Bpf.CMPXCHG then (if old_ == t then s else old_)
    else old_
  }

  /** The 4 or 8 bytes an access addresses in its word, and the word with them replaced. */
  function Field(word: Word, size: Size, sel: Lane): Word {
    if size == SIZE64 then word else if sel / 4 == 1 then High32(word) else Low32(word)
  }

  function SetField(word: Word, size: Size, sel: Lane, v: Word): Word {
    if size == SIZE64 then v
    else if sel / 4 == 1 then Concat32(Low32(v), Low32(word))
    else Concat32(High32(word), Low32(v))
  }

  predicate LegalAtomic(c: Pins) {
    && c.atomic && c.writeEn && (c.size == SIZE32 || c.size == SIZE64)
    && c.op in {Bpf.ADD, Bpf.OR, Bpf.AND, Bpf.XOR, Bpf.XCHG, Bpf.CMPXCHG}
  }

  /** The memory word the write clock leaves, given the saved word of the read clock. */
  function WordAfter(c: Pins, saved: Lanes): Lanes {
    if c.IsCmpxchg() && !DoXchg(c, WordOf(saved)) then saved
    else MergeLanes(saved, LanesOf(AluOutput(c, WordOf(saved))), Enables(c.size, c.Sel()))
  }

  /** What the write clock of an atomic operation puts on the memory port. */
  lemma WriteClockPort(d: State, c: Pins, granted: bool, dout: Lanes)
    requires d.phase == ModifyWrite && !c.BadAddress() && !d.reg.useSaved
    ensures var writes := c.IsCmpxchg() ==> DoXchg(c, WordOf(dout));
            && (Enabled(d, c, granted, dout) <==> writes)
            && WriteEnables(d, c, granted, dout) == (if writes then Enables(c.size, c.Sel()) else NO_LANES)
            && WriteData(d, c, dout) == LanesOf(AluOutput(c, WordOf(dout)))
  {
    hide DoXchg, AluOutput, WordOf, LanesOf, Enables, StoreLanes;
  }

  lemma BitwiseHalves(op: BitOp, a: Word, b: Word)
    ensures WordBits(op, a, b) / TWO_32 == Bitwise(op, High32(a), High32(b), 32)
    ensures WordBits(op, a, b) % TWO_32 == Bitwise(op, Low32(a), Low32(b), 32)
  {
    Pow2Values();
    BitwiseSplit(op, a, b, 32, 32);
    assert LowBits(a, 32) == Low32(a) && LowBits(b, 32) == Low32(b);
    assert HighBits(a, 32) == High32(a) && HighBits(b, 32) == High32(b);
    QuotientUnique(WordBits(op, a, b), Bitwise(op, High32(a), High32(b), 32), Bitwise(op, Low32(a), Low32(b), 32), TWO_32);
  }

  /** The four low lanes hold the low half of a word and the four high lanes the high half. */
  lemma {:induction false} LanesSplit(w: Word)
    ensures LanesOf(w) == LeBytes(Low32(w), 4) + LeBytes(High32(w), 4)
  {
    var hi, lo := High32(w), Low32(w);
    assert w == lo + Pow256(4) * hi by { Pow256Values(); }
    AppendBytes(lo, hi, 4, 4);
    Pow256Values();
  }

  lemma {:induction false} AppendBytes(lo: nat, hi: nat, n: nat, m: nat)
    requires lo < Pow256(n)
    ensures LeBytes(lo + Pow256(n) * hi, n + m) == LeBytes(lo, n) + LeBytes(hi, m)
    decreases n
  {
    if n == 0 {
      assert lo == 0 && Pow256(0) * hi == hi;
    } else {
      var p := Pow256(n - 1);
      var w := lo + Pow256(n) * hi;
      assert Pow256(n) * hi == 256 * (p * hi) by {
        assert (256 * p) * hi == 256 * (p * hi);
      }
      assert w % 256 == lo % 256 && w / 256 == lo / 256 + p * hi;
      AppendBytes(lo / 256, hi, n - 1, m);
    }
  }

  lemma MergeHalves(saved: Lanes, din: Lanes, size: Size, sel: Lane)
    requires size == SIZE32 || size == SIZE64
    ensures MergeLanes(saved, din, Enables(size, sel))
            == if size == SIZE64 then din
               else if sel / 4 == 1 then saved[..4] + din[4..] else din[..4] + saved[4..]
  {
  }

  lemma SetFieldLanes(s: Word, data: Word, size: Size, sel: Lane)
    requires size == SIZE32 || size == SIZE64
    ensures LanesOf(SetField(s, size, sel, Field(data, size, sel)))
            == if size == SIZE64 then LanesOf(data)
               else if sel / 4 == 1 then LanesOf(s)[..4] + LanesOf(data)[4..] else LanesOf(data)[..4] + LanesOf(s)[4..]
  {
    var want := SetField(s, size, sel, Field(data, size, sel));
    HalvesOfField(s, data, size, sel);
    LanesSplit(s);
    LanesSplit(data);
    LanesSplit(want);
    hide LanesOf, LeBytes, SetField, Field, Low32, High32;
  }

  lemma HalvesOfField(s: Word, data: Word, size: Size, sel: Lane)
    requires size == SIZE32 || size == SIZE64
    ensures var want := SetField(s, size, sel, Field(data, size, sel));
            && Low32(want) == (if size == SIZE64 || sel / 4 == 0 then Low32(data) else Low32(s))
            && High32(want) == (if size == SIZE64 || sel / 4 == 1 then High32(data) else High32(s))
  {
  }

  /** Merging one half: the other half of the word stays. */
  lemma MergeIsSetField(saved: Lanes, data: Word, size: Size, sel: Lane)
    requires size == SIZE32 || size == SIZE64
    ensures WordOf(MergeLanes(saved, LanesOf(data), Enables(size, sel))) == SetField(WordOf(saved), size, sel, Field(data, size, sel))
  {
    LanesOfWordOf(saved);
    MergeHalves(saved, LanesOf(data), size, sel);
    SetFieldLanes(WordOf(saved), data, size, sel);
    WordOfLanesOf(SetField(WordOf(saved), size, sel, Field(data, size, sel)));
    hide LanesOf, WordOf, SetField, Field, MergeLanes, Enables;
  }

  /** Every legal atomic operation but a 32-bit compare-and-exchange leaves in memory what the
      standard asks for at its own bytes and leaves the other bytes of the word. */
  lemma AtomicComputes(c: Pins, saved: Lanes)
    requires LegalAtomic(c) && !(c.IsCmpxchg() && c.size == SIZE32)
    ensures WordOf(WordAfter(c, saved))
            == SetField(WordOf(saved), c.size, c.Sel(),
                        AtomicValue(c.op, Field(WordOf(saved), c.size, c.Sel()), c.input, c.token, c.size == SIZE64))
  {
    var s := WordOf(saved);
    MergeIsSetField(saved, AluOutput(c, s), c.size, c.Sel());
    AluField(c, s);
  }

  lemma OperandHalves(c: Pins)
    requires c.size == SIZE32
    ensures Field(OperandB(c), c.size, c.Sel()) == Low32(c.input)
    ensures c.UpperHalf() ==> Low32(OperandB(c)) == 0
  {
  }

  /** The addressed half of the atomic unit's output. */
  lemma AluField(c: Pins, s: Word)
    requires LegalAtomic(c)
    ensures var f := Field(s, c.size, c.Sel());
            Field(AluOutput(c, s), c.size, c.Sel())
            == if c.IsCmpxchg() then c.input % Modulus(c.size == SIZE64)
               else AtomicValue(c.op, f, c.input, c.token, c.size == SIZE64)
  {
    var b := OperandB(c);
    if c.op == Bpf.ADD {
      AddField(c, s);
    } else if c.op == Bpf.OR {
      BitsField(c, BitOr, s);
    } else if c.op == Bpf.AND {
      BitsField(c, BitAnd, s);
    } else if c.op == Bpf.XOR {
      BitsField(c, BitXor, s);
    } else {
      if c.size == SIZE32 {
        OperandHalves(c);
      }
      hide WordBits, Bitwise, Wrap;
    }
  }

  lemma AddField(c: Pins, s: Word)
    requires c.size == SIZE32 || c.size == SIZE64
    ensures Field(Wrap(s + OperandB(c)), c.size, c.Sel())
            == (Field(s, c.size, c.Sel()) + c.input % Modulus(c.size == SIZE64)) % Modulus(c.size == SIZE64)
  {
    if c.size == SIZE32 {
      OperandHalves(c);
    }
    AddHalves(s, OperandB(c));
  }

  lemma BitsField(c: Pins, op: BitOp, s: Word)
    requires c.size == SIZE32 || c.size == SIZE64
    ensures Field(WordBits(op, s, OperandB(c)), c.size, c.Sel())
            == Bitwise(op, Field(s, c.size, c.Sel()), c.input % Modulus(c.size == SIZE64), if c.size == SIZE64 then 64 else 32)
  {
    if c.size == SIZE64 {
      hide Bitwise, Pow2;
      assert WordBits(op, s, c.input) == Bitwise(op, s, c.input, 64);
    } else {
      OperandHalves(c);
      BitwiseHalves(op, s, OperandB(c));
      hide Bitwise, WordBits, OperandB;
    }
  }

  lemma AddHalves(s: Word, b: Word)
    ensures Low32(Wrap(s + b)) == (Low32(s) + Low32(b)) % TWO_32
    ensures Low32(b) == 0 ==> High32(Wrap(s + b)) == (High32(s) + High32(b)) % TWO_32
  {
    var low, high := Low32(s) + Low32(b), High32(s) + High32(b);
    assert s + b == high * TWO_32 + low;
    AddParts(high, low);
    hide Low32, High32;
  }

  lemma AddParts(high: nat, low: nat)
    requires high < 2 * TWO_32 && low < 2 * TWO_32
    ensures Low32(Wrap(high * TWO_32 + low)) == low % TWO_32
    ensures low < TWO_32 ==> High32(Wrap(high * TWO_32 + low)) == high % TWO_32
  {
    var x, l, carry := high * TWO_32 + low, low % TWO_32, low / TWO_32;
    var h := (high + carry) % TWO_32;
    var d := (high + carry) / TWO_32;
    assert x == d * TWO_64 + (h * TWO_32 + l);
    hide *;
    QuotientUnique(x, d, h * TWO_32 + l, TWO_64);
    assert Wrap(x) == h * TWO_32 + l;
    QuotientUnique(Wrap(x), h, l, TWO_32);
  }

  /** A 32-bit compare-and-exchange stores exactly as the standard asks when: in the lower half,
      matching low words come with matching high words; in the upper half, the token does not
      equal the whole memory word unless the compared words match. */
  lemma Cmpxchg32IsRightExactlyWhen(c: Pins, saved: Lanes)
    requires LegalAtomic(c) && c.IsCmpxchg() && c.size == SIZE32
    ensures var s := WordOf(saved);
            var f := Field(s, SIZE32, c.Sel());
            (WordOf(WordAfter(c, saved)) == SetField(s, SIZE32, c.Sel(), AtomicValue(c.op, f, c.input, c.token, false)))
            <==> (|| f == Low32(c.input)
                  || if c.Sel() / 4 == 1 then c.token != s || Low32(s) == High32(s)
                     else Low32(c.token) != Low32(s) || High32(c.token) == High32(s))
  {
    var s := WordOf(saved);
    var f, stored, token := Field(s, SIZE32, c.Sel()), Low32(c.input), Low32(c.token);
    MergeIsSetField(saved, AluOutput(c, s), SIZE32, c.Sel());
    AluField(c, s);
    FieldsDiffer(s, c.Sel(), stored, f);
    assert AtomicValue(c.op, f, c.input, c.token, false) == (if f == token then stored else f) by {
      hide WordOf, MergeLanes, AluOutput, LanesOf, Bitwise;
    }
    assert WordOf(WordAfter(c, saved)) == (if DoXchg(c, s) then SetField(s, SIZE32, c.Sel(), stored) else s) by {
      hide WordOf, MergeLanes, AluOutput, LanesOf, Bitwise, DoXchg, AtomicValue;
    }
    assert c.token == s <==> Low32(c.token) == Low32(s) && High32(c.token) == High32(s);
    hide WordOf, WordAfter, SetField, AtomicValue;
  }

  /** A word with one half replaced tells the replacement. */
  lemma FieldsDiffer(s: Word, sel: Lane, v: Word32, f: Word)
    requires f == Field(s, SIZE32, sel)
    ensures SetField(s, SIZE32, sel, f) == s
    ensures SetField(s, SIZE32, sel, v) == s <==> v == f
  {
  }

  /** A compare-and-exchange on the lower half whose low words match is refused because the
      words above them differ. */
  lemma Cmpxchg32Counterexample(saved: Lanes)
    requires WordOf(saved) == TWO_32
    ensures var c := Pins(0x9000, 5, true, true, SIZE32, true, Bpf.CMPXCHG, 0);
            && LegalAtomic(c) && Field(WordOf(saved), SIZE32, 0) == Low32(c.token)
            && WordAfter(c, saved) == saved
            && AtomicValue(c.op, Field(WordOf(saved), SIZE32, 0), c.input, c.token, false) == 5
  {
    hide WordOf;
  }
}
