/** The arithmetic unit: combinational result buses, signed division over an unsigned divider,
    and the DIV_CONTROL machine that talks to a divider of unknown latency. */
module Alu {
  import opened Words
  import opened ByteLanes
  import Bpf

  /** Inputs that describe one operation. */
  datatype Pins = Pins(en: bool, op: Nibble, wide: bool, signed: bool, sx: Size, a: Word, b: Word)
  {
    predicate IsDivision() {
      op == Bpf.DIV || op == Bpf.MOD
    }
  }

  // Combinational buses ---------------------------------------------------------

  function ShiftAmount(b: Word): (n: nat)
    ensures n < 64
  {
    b % 64
  }

  function ShiftLeft(a: Word, n: nat): Word {
    Wrap(a * Pow2(n))
  }

  function ShiftRight(a: Word, n: nat): (r: Word)
    ensures r <= a
  {
    QuotientFits(a, Pow2(n));
    a / Pow2(n)
  }

  /** Arithmetic shift of the 64-bit or of the low 32-bit signed value. */
  function ShiftArithmetic(a: Word, n: nat, wide: bool): Word {
    var r := Signed(a, wide) / Pow2(n) % Modulus(wide);
    assert TWO_32 <= TWO_64;
    r
  }

  function Swap(a: Word, n: nat): Word
    requires n <= 8
  {
    var bytes := LanesOf(a)[..n];
    var swapped: seq<Byte> := seq<Byte>(n, (k: int) requires 0 <= k < n => bytes[n - 1 - k]);
    LeValueBound(swapped);
    Pow256Grows(n);
    LeValue(swapped)
  }

  lemma {:induction false} Pow256Grows(n: nat)
    requires n <= 8
    ensures Pow256(n) <= TWO_64
    decreases 8 - n
  {
    if n == 8 {
      Pow256Values();
    } else {
      Pow256Grows(n + 1);
    }
  }

  /** Byte swap selected by one of three size bits of operand B. */
  function EndBus(a: Word, b: Word): Word {
    if b / 0x10 % 2 == 1 then Swap(a, 2)
    else if b / 0x20 % 2 == 1 then Swap(a, 4)
    else if b / 0x40 % 2 == 1 then Swap(a, 8)
    else a
  }

  // Signed division over the unsigned divider ------------------------------------

  predicate Negative(w: Word, wide: bool, signed: bool) {
    signed && (if wide then w / TWO_63 % 2 == 1 else w / TWO_31 % 2 == 1)
  }

  /** Operand sent to the divider: negated in its own width when it is negative. */
  function Magnitude(w: Word, wide: bool, signed: bool): Word {
    if Negative(w, wide, signed) then
      if wide then Wrap(TWO_64 - w) else (TWO_32 - Low32(w)) % TWO_32
    else w
  }

  function NegateResult(a: Word, b: Word, wide: bool, signed: bool): bool {
    Negative(a, wide, signed) != Negative(b, wide, signed)
  }

  /** Quotient or remainder bus for a finished division. */
  function DivideBus(op: Nibble, dividend: Word, divisor: Word, negate: bool): Word
    requires divisor != 0
  {
    QuotientFits(dividend, divisor);
    var r := if op == Bpf.DIV then dividend / divisor else dividend % divisor;
    if negate then Wrap(TWO_64 - r) else r
  }

  lemma QuotientFits(a: nat, b: nat)
    requires b > 0
    ensures 0 <= a / b <= a && 0 <= a % b <= a
  {
    var q, r := a / b, a % b;
    assert a == q * b + r;
    if q > 0 {
      MulAtLeast(b, q);
      assert q * b == b * q;
    }
  }

  function Division(op: Nibble, a: Word, b: Word, wide: bool, signed: bool): Word {
    if b == 0 then
      if op == Bpf.DIV then 0 else a
    else
      var d := Magnitude(b, wide, signed);
      if d == 0 then 0   // a 64-bit operand in a 32-bit operation; operands are truncated before
      else DivideBus(op, Magnitude(a, wide, signed), d, NegateResult(a, b, wide, signed))
  }

  /** The output multiplexer before truncation. */
  function RawOutput(p: Pins): Word {
    if p.op == Bpf.ADD then Wrap(p.a + p.b)
    else if p.op == Bpf.SUB then Wrap(p.a - p.b)
    else if p.op == Bpf.MUL then Wrap(p.a * p.b)
    else if p.op == Bpf.DIV || p.op == Bpf.MOD then Division(p.op, p.a, p.b, p.wide, p.signed)
    else if p.op == Bpf.OR then OrWords(p.a, p.b)
    else if p.op == Bpf.AND then AndWords(p.a, p.b)
    else if p.op == Bpf.LSH then ShiftLeft(p.a, ShiftAmount(p.b))
    else if p.op == Bpf.RSH then ShiftRight(p.a, ShiftAmount(p.b))
    else if p.op == Bpf.NEG then TWO_64 - 1 - p.a
    else if p.op == Bpf.XOR then XorWords(p.a, p.b)
    else if p.op == Bpf.MOV then ByteMask(p.b, p.sx, true)
    else if p.op == Bpf.ARSH then ShiftArithmetic(p.a, ShiftAmount(p.b), p.wide)
    else if p.op == Bpf.END then EndBus(p.a, p.b)
    else 0
  }

  /** The value the unit delivers once any division it needs has finished. */
  function Result(p: Pins): Word {
    if p.wide then RawOutput(p) else Low32(RawOutput(p))
  }

  // What the results mean -----------------------------------------------------------

  /** Operands as the EX stage presents them: zero-extended for a 32-bit operation. */
  predicate Truncated(p: Pins) {
    !p.wide ==> p.a < TWO_32 && p.b < TWO_32
  }

  lemma MagnitudeIsAbsolute(w: Word, wide: bool)
    requires !wide ==> w < TWO_32
    ensures Magnitude(w, wide, true) == Abs(Signed(w, wide))
    ensures Negative(w, wide, true) <==> Signed(w, wide) < 0
    ensures Abs(Signed(w, wide)) <= Modulus(wide) / 2
    ensures Signed(w, wide) == 0 <==> w == 0
  {
  }

  lemma NegatedModulo(x: nat, wide: bool)
    requires x <= Modulus(wide)
    ensures (if wide then Wrap(TWO_64 - x) else Wrap(TWO_64 - x) % TWO_32) == (0 - x) % Modulus(wide)
    ensures x > 0 ==> (0 - x) % Modulus(wide) == Modulus(wide) - x
  {
  }

  /** Unsigned DIV and MOD, and both of them by zero in either signedness: quotient 0 and
      the dividend unchanged (RFC 9669 section 4.1). */
  lemma UnsignedDivision(p: Pins)
    requires Truncated(p) && p.IsDivision() && (p.signed ==> p.b == 0)
    ensures p.b == 0 ==> Result(p) == if p.op == Bpf.DIV then 0 else p.a
    ensures p.b != 0 ==> Result(p) == (if p.op == Bpf.DIV then p.a / p.b else p.a % p.b)
    ensures p.b != 0 && p.op == Bpf.DIV ==> Result(p) * p.b <= p.a < (Result(p) + 1) * p.b
  {
    if p.b != 0 {
      QuotientFits(p.a, p.b);
      UnsignedBus(p);
      hide Result;
      QuotientBounds(p.a, p.b);
    }
  }

  lemma UnsignedBus(p: Pins)
    requires Truncated(p) && p.IsDivision() && !p.signed && p.b != 0
    ensures Result(p) == (if p.op == Bpf.DIV then p.a / p.b else p.a % p.b)
  {
    QuotientFits(p.a, p.b);
    assert RawOutput(p) == (if p.op == Bpf.DIV then p.a / p.b else p.a % p.b) by {
      hide Wrap, Signed;
    }
    hide RawOutput;
    var q, r := p.a / p.b, p.a % p.b;
    assert !p.wide ==> q < TWO_32 && r < TWO_32;
  }

  lemma QuotientBounds(a: nat, b: nat)
    requires b > 0
    ensures a / b * b <= a < (a / b + 1) * b
  {
    assert a == a / b * b + a % b;
    assert (a / b + 1) * b == a / b * b + b;
  }

  /** What the finished divider delivers for signed operands, in terms of their magnitudes. */
  lemma SignedDivisionBus(p: Pins)
    requires Truncated(p) && p.IsDivision() && p.signed && p.b != 0
    ensures var sa, sb := Signed(p.a, p.wide), Signed(p.b, p.wide);
            && sb != 0 && Abs(sa) <= Modulus(p.wide) / 2 && Abs(sb) <= Modulus(p.wide) / 2
            && var r := if p.op == Bpf.DIV then Abs(sa) / Abs(sb) else Abs(sa) % Abs(sb);
            && 0 <= r <= Modulus(p.wide) / 2
            && Result(p) == if (sa < 0) != (sb < 0) then (0 - r) % Modulus(p.wide) else r
  {
    MagnitudeIsAbsolute(p.a, p.wide);
    MagnitudeIsAbsolute(p.b, p.wide);
    var ma, mb := Abs(Signed(p.a, p.wide)), Abs(Signed(p.b, p.wide));
    QuotientFits(ma, mb);
    var r := if p.op == Bpf.DIV then ma / mb else ma % mb;
    var negate := (Signed(p.a, p.wide) < 0) != (Signed(p.b, p.wide) < 0);
    assert RawOutput(p) == (if negate then Wrap(TWO_64 - r) else r) by {
      hide Signed, Magnitude, Negative, Wrap, Modulus, Abs;
    }
    assert Result(p) == (if p.wide then RawOutput(p) else Low32(RawOutput(p))) by {
      hide RawOutput, Signed, Magnitude, Negative, Wrap;
    }
    hide *;
    NegatedModulo(r, p.wide);
    Residue(r, p.wide);
  }

  lemma Residue(r: Word, wide: bool)
    requires r <= Modulus(wide) / 2
    ensures (if wide then r else Low32(r)) == r
    ensures (if wide then Wrap(TWO_64 - r) else Low32(Wrap(TWO_64 - r))) == (if wide then Wrap(TWO_64 - r) else Wrap(TWO_64 - r) % TWO_32)
    ensures r <= Modulus(wide)
  {
  }

  /** The signed quotient is truncated division modulo the operation width: what it leaves over is
      smaller than the divisor and signed like the dividend.  The minimum value divided by -1 is
      included and gives the minimum value back. */
  lemma SignedQuotient(p: Pins)
    requires Truncated(p) && p.op == Bpf.DIV && p.signed && p.b != 0
    ensures Signed(p.b, p.wide) != 0
    ensures var sa, sb := Signed(p.a, p.wide), Signed(p.b, p.wide);
            && Result(p) == TruncDiv(sa, sb) % Modulus(p.wide)
            && Abs(sa - TruncDiv(sa, sb) * sb) < Abs(sb)
            && (sa - TruncDiv(sa, sb) * sb == 0 || (sa - TruncDiv(sa, sb) * sb < 0) == (sa < 0))
  {
    SignedDivisionBus(p);
    TruncIdentity(Signed(p.a, p.wide), Signed(p.b, p.wide));
    hide Signed, Result;
    SignedCase(Abs(Signed(p.a, p.wide)) / Abs(Signed(p.b, p.wide)), p.wide);
  }

  /** Reading a magnitude r back as a signed residue. */
  lemma SignedCase(r: int, wide: bool)
    requires 0 <= r <= Modulus(wide) / 2
    ensures r == r % Modulus(wide)
    ensures 0 < r < Modulus(wide) / 2 ==> (0 - r) % Modulus(wide) != r
    ensures (0 - r) % Modulus(wide) == (-r) % Modulus(wide)
    ensures (0 - -r) % Modulus(wide) == r
  {
  }

  /** The signed remainder takes the xor of the operand signs, so it is the truncated remainder
      of RFC 9669 exactly when the divisor is positive or the remainder is zero. */
  lemma SignedRemainder(p: Pins)
    requires Truncated(p) && p.op == Bpf.MOD && p.signed && p.b != 0
    ensures Signed(p.b, p.wide) != 0
    ensures var sa, sb := Signed(p.a, p.wide), Signed(p.b, p.wide);
            && (Result(p) == TruncRem(sa, sb) % Modulus(p.wide) <==> sb > 0 || TruncRem(sa, sb) == 0)
            && (sb < 0 ==> Result(p) == (0 - TruncRem(sa, sb)) % Modulus(p.wide))
            && sa == TruncDiv(sa, sb) * sb + TruncRem(sa, sb) && Abs(TruncRem(sa, sb)) < Abs(sb)
            && (TruncRem(sa, sb) == 0 || (TruncRem(sa, sb) < 0) == (sa < 0))
  {
    SignedDivisionBus(p);
    TruncIdentity(Signed(p.a, p.wide), Signed(p.b, p.wide));
    hide Signed, Result, Modulus;
    var sa, sb := Signed(p.a, p.wide), Signed(p.b, p.wide);
    var r := Abs(sa) % Abs(sb);
    assert r < Abs(sb) <= Modulus(p.wide) / 2;
    SignedCase(r, p.wide);
  }

  /** The testbench's own example: 100 smod -7 is -2 here and 2 by RFC 9669. */
  lemma SignedRemainderCounterexample()
    ensures var p := Pins(true, Bpf.MOD, true, true, SIZE64, 100, TWO_64 - 7);
            Result(p) == TWO_64 - 2 && TruncRem(Signed(p.a, true), Signed(p.b, true)) == 2
  {
  }

  /** `neg` complements without adding one, so it never yields the negated operand. */
  lemma NegNeverNegates(p: Pins)
    requires Truncated(p) && p.op == Bpf.NEG
    ensures Result(p) == (0 - p.a - 1) % Modulus(p.wide)
    ensures Result(p) != (0 - p.a) % Modulus(p.wide)
  {
  }

  /** OR, AND and XOR bit by bit, in 64 bits and in 32. */
  lemma BitwiseResult(p: Pins, k: nat)
    requires Truncated(p) && p.op in {Bpf.OR, Bpf.AND, Bpf.XOR} && k < if p.wide then 64 else 32
    ensures p.op == Bpf.OR ==> (BitSet(Result(p), k) <==> BitSet(p.a, k) || BitSet(p.b, k))
    ensures p.op == Bpf.AND ==> (BitSet(Result(p), k) <==> BitSet(p.a, k) && BitSet(p.b, k))
    ensures p.op == Bpf.XOR ==> (BitSet(Result(p), k) <==> BitSet(p.a, k) != BitSet(p.b, k))
  {
    hide Bitwise, WordBits, Low32, Pow2, BitSet;
    var op := if p.op == Bpf.OR then BitOr else if p.op == Bpf.AND then BitAnd else BitXor;
    assert Result(p) == if p.wide then WordBits(op, p.a, p.b) else Low32(WordBits(op, p.a, p.b));
    BitOfWordBits(op, p.a, p.b, p.wide, k);
    hide Result, Truncated;
  }

  lemma BitOfWordBits(op: BitOp, a: Word, b: Word, wide: bool, k: nat)
    requires k < if wide then 64 else 32
    ensures var r := WordBits(op, a, b);
            BitSet(if wide then r else Low32(r), k) <==> OnBits(op, BitSet(a, k), BitSet(b, k))
  {
    hide Bitwise, Pow2, OnBits, BitSet;
    BitOfBitwise(op, a, b, 64, k);
    Pow2Values();
    if !wide {
      BitOfLow(WordBits(op, a, b), 32, k);
    }
  }

  lemma ModOfWrap(x: int)
    ensures Wrap(x) % TWO_32 == x % TWO_32
  {
  }

  /** Add, subtract and multiply are the integer operation modulo the operation width. */
  lemma ModularArithmetic(p: Pins)
    requires Truncated(p) && p.op in {Bpf.ADD, Bpf.SUB, Bpf.MUL}
    ensures Result(p) == (if p.op == Bpf.ADD then p.a + p.b
                          else if p.op == Bpf.SUB then p.a - p.b
                          else p.a * p.b) % Modulus(p.wide)
  {
    ModOfWrap(p.a + p.b);
    ModOfWrap(p.a - p.b);
    ModOfWrap(p.a * p.b);
  }

  /** The shift buses, with the scale factor as a plain number. */
  lemma ShiftResult(p: Pins, scale: int)
    requires p.op in {Bpf.LSH, Bpf.RSH, Bpf.ARSH} && scale == Pow2(ShiftAmount(p.b))
    ensures 0 <= p.a / scale <= p.a
    ensures Result(p) == (if p.op == Bpf.LSH then (if p.wide then Wrap(p.a * scale) else Low32(Wrap(p.a * scale)))
                          else if p.op == Bpf.RSH then (if p.wide then p.a / scale else Low32(p.a / scale))
                          else (if p.wide then Signed(p.a, true) / scale % TWO_64
                                else Low32(Signed(p.a, false) / scale % TWO_32)))
  {
    QuotientFits(p.a, scale);
    hide Pow2, Division, EndBus, WordBits, ByteMask, Signed, Wrap;
  }

  lemma ModTwice(x: int)
    ensures x % TWO_32 % TWO_32 == x % TWO_32
  {
  }

  /** The shift of RFC 9669 section 4.1: the amount is masked to six bits in 64-bit operations and
      to five in 32-bit ones. */
  function StandardShift(p: Pins): int {
    var n := p.b % (if p.wide then 64 else 32);
    (if p.op == Bpf.LSH then p.a * Pow2(n)
     else if p.op == Bpf.RSH then p.a / Pow2(n)
     else Signed(p.a, p.wide) / Pow2(n)) % Modulus(p.wide)
  }

  /** Shifts by less than the operation width scale by a power of two, as the standard asks. */
  lemma ShiftsScale(p: Pins)
    requires Truncated(p) && p.op in {Bpf.LSH, Bpf.RSH, Bpf.ARSH}
    requires p.wide || ShiftAmount(p.b) < 32
    ensures Result(p) == StandardShift(p)
  {
    var scale := Pow2(ShiftAmount(p.b));
    assert p.b % (if p.wide then 64 else 32) == ShiftAmount(p.b);
    ShiftResult(p, scale);
    hide Pow2, Result, ShiftAmount;
    var left, right, arithmetic := p.a * scale, p.a / scale, Signed(p.a, p.wide) / scale;
    ModOfWrap(left);
    ModTwice(arithmetic);
  }

  lemma LargeScale(n: nat)
    requires n >= 32
    ensures Pow2(n) == TWO_32 * Pow2(n - 32) >= TWO_32
  {
    Pow2Split(32, n - 32);
    Pow2Values();
    MulAtLeast(Pow2(n - 32), TWO_32);
  }

  /** A 32-bit shift keeps six bits of the amount: with bit 5 set it shifts everything out,
      leaving zero or the sign, where RFC 9669 masks the amount to five bits. */
  lemma NarrowShiftPast31(p: Pins)
    requires Truncated(p) && !p.wide && p.op in {Bpf.LSH, Bpf.RSH, Bpf.ARSH} && ShiftAmount(p.b) >= 32
    ensures Result(p) == if p.op == Bpf.ARSH && Signed(p.a, false) < 0 then TWO_32 - 1 else 0
  {
    var n := ShiftAmount(p.b);
    var e, scale := Pow2(n - 32), Pow2(n);
    LargeScale(n);
    SignedFits(p.a);
    ShiftResult(p, scale);
    hide Pow2, Result, ShiftAmount, Signed;
    if p.op == Bpf.LSH {
      ScaledOut(p.a, e, scale);
    } else if p.op == Bpf.RSH {
      SmallOverBig(p.a, scale);
    } else {
      SmallOverBig(Signed(p.a, false), scale);
    }
  }

  /** Operands for which shifting by 32 + n gives what shifting by n gives: nothing but zeros, or
      nothing but the sign, is left either way. */
  predicate ShiftedOutAnyway(p: Pins, n: nat)
    requires n < 32
  {
    if p.op == Bpf.LSH then p.a % Pow2(32 - n) == 0
    else if p.op == Bpf.RSH then p.a < Pow2(n)
    else -Pow2(n) <= Signed(p.a, false) < Pow2(n)
  }

  /** A 32-bit shift is the shift of RFC 9669 section 4.1 exactly when bit 5 of its amount is clear
      or the operand is shifted out by the masked amount as well. */
  lemma NarrowShiftIsStandardExactlyWhen(p: Pins)
    requires Truncated(p) && !p.wide && p.op in {Bpf.LSH, Bpf.RSH, Bpf.ARSH}
    ensures Result(p) == StandardShift(p) <==> ShiftAmount(p.b) < 32 || ShiftedOutAnyway(p, p.b % 32)
  {
    if ShiftAmount(p.b) < 32 {
      ShiftsScale(p);
    } else {
      NarrowShiftPast31(p);
      var n := p.b % 32;
      var scale, rest := Pow2(n), Pow2(32 - n);
      Pow2Split(n, 32 - n);
      Pow2Values();
      hide Pow2, Result, Signed;
      if p.op == Bpf.LSH {
        ShiftedOutLeft(p.a, scale, rest);
      } else if p.op == Bpf.RSH {
        ShiftedOutRight(p.a, scale);
      } else {
        SignedFits(p.a);
        ShiftedOutRight(Signed(p.a, false), scale);
      }
    }
  }

  lemma SignedFits(a: Word)
    ensures -TWO_31 <= Signed(a, false) < TWO_31
  {
  }

  lemma ShiftedOutLeft(a: nat, scale: int, rest: int)
    requires scale > 0 && rest > 0 && scale * rest == TWO_32
    ensures a * scale % TWO_32 == 0 <==> a % rest == 0
  {
    var d, m := a / rest, a % rest;
    assert a == d * rest + m;
    assert a * scale == d * (scale * rest) + m * scale by {
      assert (d * rest) * scale == d * (scale * rest);
    }
    assert 0 <= m * scale < TWO_32 by {
      if m > 0 {
        MulAtLeast(m, scale);
      }
      MulAtLeast(rest - m, scale);
      assert (rest - m) * scale == rest * scale - m * scale;
    }
    QuotientUnique(a * scale, d, m * scale, TWO_32);
  }

  /** A quotient is 0, or -1 for a negative dividend, modulo the width exactly when the dividend
      lies within the divisor. */
  lemma ShiftedOutRight(x: int, scale: int)
    requires scale > 0 && -TWO_31 <= x < TWO_32
    ensures x / scale % TWO_32 == (if x < 0 then TWO_32 - 1 else 0) <==> -scale <= x < scale
  {
    var q, r := x / scale, x % scale;
    assert x == q * scale + r;
    if x >= 0 {
      QuotientFits(x, scale);
      if q >= 1 {
        MulAtLeast(q, scale);
      }
    } else {
      NegativeQuotient(x, scale);
      if q <= -2 {
        MulAtLeast(-q - 1, scale);
        assert (-q - 1) * scale == -(q * scale) - scale;
      }
    }
  }

  lemma NegativeQuotient(x: int, scale: int)
    requires x < 0 && scale > 0
    ensures x <= x / scale <= -1
  {
    var q, r := x / scale, x % scale;
    assert x == q * scale + r;
    if q > 0 {
      MulAtLeast(q, scale);
    } else if q < 0 {
      var k := scale - 1;
      assert q * scale == q * k + q;
      if k > 0 {
        MulAtLeast(-q, k);
        assert -q * k == -(q * k);
      }
    }
  }

  /** `1 << 32` in 32 bits is 0 here and 1 by the standard. */
  lemma NarrowShiftCounterexample()
    ensures var p := Pins(true, Bpf.LSH, false, false, SIZE64, 1, 32);
            Truncated(p) && Result(p) == 0 && StandardShift(p) == 1
  {
    NarrowShiftPast31(Pins(true, Bpf.LSH, false, false, SIZE64, 1, 32));
    assert Pow2(0) == 1;
    hide Result;
  }

  lemma ScaledOut(a: int, e: int, scale: int)
    requires scale == TWO_32 * e
    ensures Low32(Wrap(a * scale)) == 0
  {
    var k := a * e;
    assert a * scale == k * TWO_32;
    QuotientUnique(a * scale, k, 0, TWO_32);
    ModOfWrap(a * scale);
  }

  lemma SmallOverBig(x: int, p: int)
    requires -p <= x < p && p > 0
    ensures x / p == if x < 0 then -1 else 0
  {
    if x < 0 {
      QuotientUnique(x, -1, x + p, p);
    } else {
      QuotientUnique(x, 0, x, p);
    }
  }

  /** The bits of an operand that a sign-extending move keeps. */
  function MoveWidth(sx: Size): (m: int)
    ensures m > 0
  {
    if sx == SIZE8 then TWO_8 else if sx == SIZE16 then TWO_16 else if sx == SIZE32 then TWO_32 else TWO_64
  }

  /** A move sign-extends the low bits it keeps, in 64 and in 32 bits. */
  lemma MoveSignExtends(p: Pins)
    requires Truncated(p) && p.op == Bpf.MOV
    ensures var m := MoveWidth(p.sx);
            var low := p.b % m;
            Result(p) == (if 2 * low >= m then low - m else low) % Modulus(p.wide)
  {
    var m := MoveWidth(p.sx);
    MaskSignExtends(p.b, p.sx);
    ModOfWrap(if 2 * (p.b % m) >= m then p.b % m - m else p.b % m);
    hide ByteMask;
    if !p.wide && p.sx == SIZE64 {
      assert p.b % TWO_64 == p.b;
    }
  }

  lemma MaskSignExtends(w: Word, sx: Size)
    ensures var m := MoveWidth(sx);
            sx != SIZE64 ==> ByteMask(w, sx, true) == Wrap(if 2 * (w % m) >= m then w % m - m else w % m)
    ensures sx == SIZE64 ==> ByteMask(w, sx, true) == w
  {
    if sx == SIZE8 {
      assert ByteMask(w, sx, true) == w % TWO_8 + (if w / 0x80 % 2 == 1 then TWO_64 - TWO_8 else 0);
      hide ByteMask, Wrap;
      TopBit(w, 0x80);
      Extended(w % TWO_8, TWO_8);
    } else if sx == SIZE16 {
      assert ByteMask(w, sx, true) == w % TWO_16 + (if w / 0x8000 % 2 == 1 then TWO_64 - TWO_16 else 0);
      hide ByteMask, Wrap;
      TopBit(w, 0x8000);
      Extended(w % TWO_16, TWO_16);
    } else if sx == SIZE32 {
      assert ByteMask(w, sx, true) == w % TWO_32 + (if w / TWO_31 % 2 == 1 then TWO_64 - TWO_32 else 0);
      hide ByteMask, Wrap;
      TopBit(w, TWO_31);
      Extended(w % TWO_32, TWO_32);
    }
  }

  lemma Extended(x: int, m: int)
    requires 0 <= x < m <= TWO_64
    ensures x + (if 2 * x >= m then TWO_64 - m else 0) == Wrap(if 2 * x >= m then x - m else x)
  {
  }

  lemma TopBit(w: nat, half: nat)
    requires half > 0
    ensures w / half % 2 == 1 <==> 2 * (w % (2 * half)) >= 2 * half
  {
    var d, m := w / half, w % half;
    assert w == d * half + m;
    assert d == d / 2 * 2 + d % 2;
    assert w == (d / 2) * (2 * half) + (d % 2 * half + m) by {
      assert (d / 2 * 2) * half == (d / 2) * (2 * half);
      assert d * half == (d / 2 * 2) * half + (d % 2) * half;
    }
    QuotientUnique(w, d / 2, d % 2 * half + m, 2 * half);
  }

  lemma SwapBytes(a: Word, n: nat)
    requires n <= 8
    ensures LeBytes(Swap(a, n), n) == seq<Byte>(n, (k: int) requires 0 <= k < n => LeBytes(a, 8)[n - 1 - k])
    ensures Swap(a, n) < Pow256(n)
  {
    var bytes := LanesOf(a)[..n];
    var swapped: seq<Byte> := seq<Byte>(n, (k: int) requires 0 <= k < n => bytes[n - 1 - k]);
    LeBytesOfValue(swapped);
    LeValueBound(swapped);
    assert swapped == seq<Byte>(n, (k: int) requires 0 <= k < n => LeBytes(a, 8)[n - 1 - k]);
  }

  lemma SwappedByte(a: Word, n: nat, k: nat)
    requires k < n <= 8
    ensures LeBytes(Swap(a, n), n)[k] == LeBytes(a, n)[n - 1 - k]
  {
    hide Swap, LeBytes;
    SwapBytes(a, n);
    LeBytesPrefix(a, 8, n);
    assert LeBytes(a, 8)[..n][n - 1 - k] == LeBytes(a, 8)[n - 1 - k];
  }

  /** The byte swap reverses the little-endian bytes it covers and is its own inverse. */
  lemma SwapReverses(a: Word, n: nat)
    requires n <= 8
    ensures forall k :: 0 <= k < n ==> LeBytes(Swap(a, n), n)[k] == LeBytes(a, n)[n - 1 - k]
    ensures Swap(Swap(a, n), n) == a % Pow256(n)
  {
    hide Swap, LeBytes, LeValue, Pow256;
    var b := Swap(Swap(a, n), n);
    forall k | 0 <= k < n
      ensures LeBytes(Swap(a, n), n)[k] == LeBytes(a, n)[n - 1 - k] && LeBytes(b, n)[k] == LeBytes(a, n)[k]
    {
      SwappedByte(a, n, k);
      SwappedByte(Swap(a, n), n, k);
      SwappedByte(a, n, n - 1 - k);
    }
    assert LeBytes(b, n) == LeBytes(a, n);
    LeRoundTrip(a, n);
    LeRoundTrip(b, n);
    SwapBytes(Swap(a, n), n);
    QuotientUnique(b, 0, b, Pow256(n));
  }

  /** Two values have the same swap exactly when they agree on the bytes it covers. */
  lemma SwapIsInjective(a: Word, b: Word, n: nat)
    requires n <= 8
    ensures Swap(a, n) == Swap(b, n) <==> a % Pow256(n) == b % Pow256(n)
  {
    SwapReverses(a, n);
    SwapReverses(b, n);
    LeBytesPrefix(a, 8, n);
    LeBytesPrefix(b, 8, n);
    LeRoundTrip(a, n);
    LeRoundTrip(b, n);
    LeBytesOfValue(LeBytes(a, n));
    LeBytesOfValue(LeBytes(b, n));
    hide LeBytes, LeValue, Pow256;
  }

  // DIV_CONTROL ---------------------------------------------------------------------

  datatype Phase = Init | ReadyToDivide | Dividing

  /** What the divider outside shows in one clock: it can take operands; its result is valid. */
  datatype Divider = Divider(ready: bool, done: bool)

  /** Registers of the unit, with the operands the divider last accepted. */
  datatype Unit = Unit(phase: Phase, savedA: Word, savedB: Word, negate: bool, dividend: Word, divisor: Word)

  predicate DivideByZero(u: Unit, p: Pins) {
    u.phase == Init && p.b == 0
  }

  predicate UseDivider(u: Unit, p: Pins) {
    p.IsDivision() && !DivideByZero(u, p) && p.en
  }

  predicate Await(u: Unit, p: Pins, d: Divider) {
    match u.phase
    case Init => UseDivider(u, p)
    case ReadyToDivide => true
    case Dividing => !d.done
  }

  predicate Ready(u: Unit, p: Pins, d: Divider) {
    UseDivider(u, p) ==> !Await(u, p, d)
  }

  /** The unit's output in this clock. */
  function Output(u: Unit, p: Pins): Word {
    var raw :=
      if !p.IsDivision() then RawOutput(p)
      else if DivideByZero(u, p) then (if p.op == Bpf.DIV then 0 else p.a)
      else if u.divisor == 0 then 0
      else DivideBus(p.op, u.dividend, u.divisor, u.negate);
    if p.wide then raw else Low32(raw)
  }

  function Accept(u: Unit, p: Pins, a: Word, b: Word): Unit {
    u.(phase := Dividing, dividend := Magnitude(a, p.wide, p.signed), divisor := Magnitude(b, p.wide, p.signed))
  }

  /** The registers after the clock edge. */
  function Next(u: Unit, p: Pins, d: Divider): Unit {
    match u.phase
    case Init =>
      if !UseDivider(u, p) then u
      else
        var v := u.(negate := NegateResult(p.a, p.b, p.wide, p.signed));
        if d.ready then Accept(v, p, p.a, p.b) else v.(phase := ReadyToDivide, savedA := p.a, savedB := p.b)
    case ReadyToDivide => if d.ready then Accept(u, p, u.savedA, u.savedB) else u
    case Dividing => if d.done then u.(phase := Init) else u
  }

  /** Same operation, whatever has become of the operand buses. */
  predicate SameOperation(p: Pins, q: Pins) {
    p.en == q.en && p.op == q.op && p.wide == q.wide && p.signed == q.signed && p.sx == q.sx
  }

  /** The value the unit is on its way to deliver: the full result of the operands on the pins
      before it starts, of the operands it captured afterwards. */
  function Pending(u: Unit, p: Pins): Word {
    match u.phase
    case Init => Result(p)
    case ReadyToDivide => Result(p.(a := u.savedA, b := u.savedB))
    case Dividing => Output(u, p)
  }

  /** Reachable registers while an enabled division occupies the unit. */
  predicate Consistent(u: Unit, p: Pins) {
    && (u.phase != Init ==> p.en && p.IsDivision())
    && (u.phase == ReadyToDivide ==>
          && Truncated(p.(a := u.savedA, b := u.savedB)) && u.savedB != 0
          && u.negate == NegateResult(u.savedA, u.savedB, p.wide, p.signed))
    && (u.phase == Dividing ==> u.divisor != 0)
  }

  lemma MagnitudeNonZero(w: Word, wide: bool, signed: bool)
    requires w != 0 && (!wide ==> w < TWO_32)
    ensures Magnitude(w, wide, signed) != 0
  {
  }

  /** One clock of the unit: while it is not ready the pending value survives any change of the
      operand buses, and when it is ready the output is the pending value. */
  lemma PendingKept(u: Unit, p: Pins, d: Divider, q: Pins)
    requires Truncated(p) && SameOperation(p, q) && Consistent(u, p)
    ensures Consistent(Next(u, p, d), p)
    ensures Ready(u, p, d) ==> Next(u, p, d).phase == Init
    ensures Ready(u, p, d) && (p.IsDivision() ==> p.en) ==> Output(u, p) == Pending(u, p)
    ensures !Ready(u, p, d) ==> Next(u, p, d).phase != Init && Pending(Next(u, p, d), q) == Pending(u, p)
  {
    hide Magnitude, Negative, NegateResult, DivideBus;
    if u.phase == Init && p.b != 0 {
      MagnitudeNonZero(p.b, p.wide, p.signed);
    }
    if u.phase == ReadyToDivide {
      MagnitudeNonZero(u.savedB, p.wide, p.signed);
    }
  }

  datatype Clock = Clock(pins: Pins, divider: Divider)

  function Run(u: Unit, clocks: seq<Clock>): Unit
    decreases |clocks|
  {
    if clocks == [] then u else Run(Next(u, clocks[0].pins, clocks[0].divider), clocks[1..])
  }

  /** In every clock of the trace but the last the unit holds the instruction back. */
  predicate Stalls(u: Unit, clocks: seq<Clock>)
    decreases |clocks|
  {
    |clocks| > 1 ==>
      && !Ready(u, clocks[0].pins, clocks[0].divider)
      && Stalls(Next(u, clocks[0].pins, clocks[0].divider), clocks[1..])
  }

  predicate OneOperation(clocks: seq<Clock>) {
    forall k :: 0 <= k < |clocks| ==> SameOperation(clocks[0].pins, clocks[k].pins) && Truncated(clocks[k].pins)
  }

  lemma {:induction false} PendingOverRun(u: Unit, clocks: seq<Clock>)
    requires |clocks| > 0 && OneOperation(clocks) && Consistent(u, clocks[0].pins) && Stalls(u, clocks)
    ensures var last := clocks[|clocks| - 1];
            var v := Run(u, clocks[..|clocks| - 1]);
            && Consistent(v, last.pins)
            && Pending(v, last.pins) == Pending(u, clocks[0].pins)
    decreases |clocks|
  {
    if |clocks| > 1 {
      var c := clocks[0];
      assert SameOperation(c.pins, clocks[1].pins) && Truncated(c.pins);
      PendingKept(u, c.pins, c.divider, clocks[1].pins);
      var rest := clocks[1..];
      forall k | 0 <= k < |rest|
        ensures SameOperation(rest[0].pins, rest[k].pins) && Truncated(rest[k].pins)
      {
        assert rest[k] == clocks[k + 1];
      }
      assert Consistent(Next(u, c.pins, c.divider), rest[0].pins);
      PendingOverRun(Next(u, c.pins, c.divider), rest);
      assert rest[..|rest| - 1] == clocks[1..][..|clocks| - 2] == clocks[..|clocks| - 1][1..];
    }
  }

  /** Division under any handshake: whenever the divider takes the operands and however long it
      works, the value delivered in the clock the unit becomes ready is the result of the
      operands that were on the buses in the first clock. */
  lemma DivisionUnderAnyHandshake(u: Unit, clocks: seq<Clock>)
    requires |clocks| > 0 && OneOperation(clocks) && u.phase == Init && Stalls(u, clocks)
    requires clocks[0].pins.IsDivision() ==> clocks[0].pins.en
    requires var n := |clocks| - 1;
             Ready(Run(u, clocks[..n]), clocks[n].pins, clocks[n].divider)
    ensures var n := |clocks| - 1;
            && Output(Run(u, clocks[..n]), clocks[n].pins) == Result(clocks[0].pins)
            && Next(Run(u, clocks[..n]), clocks[n].pins, clocks[n].divider).phase == Init
  {
    var n := |clocks| - 1;
    PendingOverRun(u, clocks);
    assert Truncated(clocks[n].pins);
    PendingKept(Run(u, clocks[..n]), clocks[n].pins, clocks[n].divider, clocks[n].pins);
  }

  /** The clocked registers of the unit. */
  class DivControl {
    var phase: Phase
    var savedA: Word
    var savedB: Word
    var negate: bool
    var dividend: Word   // operands the divider accepted
    var divisor: Word

    function View(): Unit
      reads this
    {
      Unit(phase, savedA, savedB, negate, dividend, divisor)
    }

    constructor ()
      ensures View().phase == Init
    {
      phase := Init;
    }

    /** One rising edge with the given operation on the pins. */
    method RisingEdge(p: Pins, d: Divider)
      modifies this
      ensures View() == Next(old(View()), p, d)
    {
      match phase {
        case Init =>
          if UseDivider(Unit(phase, savedA, savedB, negate, dividend, divisor), p) {
            negate := NegateResult(p.a, p.b, p.wide, p.signed);
            if d.ready {
              dividend := Magnitude(p.a, p.wide, p.signed);
              divisor := Magnitude(p.b, p.wide, p.signed);
              phase := Dividing;
            } else {
              savedA, savedB := p.a, p.b;
              phase := ReadyToDivide;
            }
          }
        case ReadyToDivide =>
          if d.ready {
            dividend := Magnitude(savedA, p.wide, p.signed);
            divisor := Magnitude(savedB, p.wide, p.signed);
            phase := Dividing;
          }
        case Dividing =>
          if d.done {
            phase := Init;
          }
      }
    }
  }
}
