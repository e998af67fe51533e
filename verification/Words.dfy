/** Machine words and the fixed-width conversions the hardware performs on them.
    A word is the unsigned value of a std_logic_vector; truncation, sign extension and
    wrap-around are written out wherever a bus is narrower than the value computed. */
module Words {
  const TWO_8: int := 0x100
  const TWO_12: int := 0x1000
  const TWO_16: int := 0x1_0000
  const TWO_31: int := 0x8000_0000
  const TWO_32: int := 0x1_0000_0000
  const TWO_63: int := 0x8000_0000_0000_0000
  const TWO_64: int := 0x1_0000_0000_0000_0000

  type Byte = x: int | 0 <= x < 0x100
  type Nibble = x: int | 0 <= x < 0x10
  type Addr12 = x: int | 0 <= x < 0x1000
  type Half = x: int | 0 <= x < 0x1_0000
  type Word32 = x: int | 0 <= x < 0x1_0000_0000
  type Word = x: int | 0 <= x < 0x1_0000_0000_0000_0000

  /** Keep the low 64 bits of an integer: std_logic_vector arithmetic wraps. */
  function Wrap(x: int): Word {
    x % TWO_64
  }

  /** Zero the upper half, as the EX operand and ALU output muxes do for 32-bit operations. */
  function Low32(w: Word): (r: Word32) {
    w % TWO_32
  }

  function High32(w: Word): (r: Word32) {
    w / TWO_32
  }

  function Concat32(high: Word32, low: Word32): (r: Word) {
    high * TWO_32 + low
  }

  function SignExtend16(h: Half): Word {
    if h < 0x8000 then h else h + TWO_64 - TWO_16
  }

  function SignExtend32(h: Word32): Word {
    if h < TWO_31 then h else h + TWO_64 - TWO_32
  }

  /** The integer a word denotes in two's complement, in 64 bits or in its low 32. */
  function Signed(w: Word, wide: bool): int {
    if wide then
      if w < TWO_63 then w else w - TWO_64
    else
      var l := Low32(w);
      if l < TWO_31 then l else l - TWO_32
  }

  function Modulus(wide: bool): int {
    if wide then TWO_64 else TWO_32
  }

  function Abs(x: int): nat {
    if x < 0 then -x else x
  }

  /** Division and remainder that truncate toward zero. */
  function TruncDiv(a: int, b: int): int
    requires b != 0
  {
    if (a < 0) == (b < 0) then Abs(a) / Abs(b) else -(Abs(a) / Abs(b))
  }

  function TruncRem(a: int, b: int): int
    requires b != 0
  {
    if a < 0 then -(Abs(a) % Abs(b)) else Abs(a) % Abs(b)
  }

  function Pow2(n: nat): (r: int)
    ensures r > 0
  {
    if n == 0 then 1 else 2 * Pow2(n - 1)
  }

  lemma {:induction false} Pow2Split(n: nat, m: nat)
    ensures Pow2(n + m) == Pow2(n) * Pow2(m)
  {
    if n > 0 {
      Pow2Split(n - 1, m);
      var x, y := Pow2(n - 1), Pow2(m);
      assert Pow2(n + m) == 2 * Pow2(n - 1 + m);
      assert 2 * (x * y) == (2 * x) * y;
    } else {
      assert Pow2(0) * Pow2(m) == Pow2(m);
    }
  }

  lemma Pow2Values()
    ensures Pow2(32) == TWO_32 && Pow2(64) == TWO_64
  {
    assert Pow2(8) == 256 by {
      assert Pow2(4) == 16;
      Pow2Split(4, 4);
    }
    hide Pow2;
    Pow2Split(8, 8);
    Pow2Split(16, 16);
    Pow2Split(32, 32);
  }

  // Bitwise operations ---------------------------------------------------------------

  datatype BitOp = BitAnd | BitOr | BitXor

  function OneBit(op: BitOp, x: int, y: int): int {
    match op
    case BitAnd => if x == 1 && y == 1 then 1 else 0
    case BitOr => if x == 1 || y == 1 then 1 else 0
    case BitXor => if x != y then 1 else 0
  }

  /** The operation on each of the low n bits. */
  function Bitwise(op: BitOp, a: nat, b: nat, n: nat): (r: nat)
    ensures r < Pow2(n)
  {
    if n == 0 then 0 else OneBit(op, a % 2, b % 2) + 2 * Bitwise(op, a / 2, b / 2, n - 1)
  }

  predicate BitSet(a: nat, k: nat) { a / Pow2(k) % 2 == 1 }

  function LowBits(a: nat, n: nat): nat { a % Pow2(n) }
  function HighBits(a: nat, n: nat): nat { NatQuotient(a, Pow2(n)) }

  function NatQuotient(a: nat, p: nat): nat
    requires p > 0
  {
    a / p
  }

  /** A wide bitwise operation is the same operation on the high and on the low part. */
  lemma {:induction false} BitwiseSplit(op: BitOp, a: nat, b: nat, n: nat, m: nat)
    ensures Bitwise(op, a, b, n + m)
            == Bitwise(op, LowBits(a, n), LowBits(b, n), n) + Pow2(n) * Bitwise(op, HighBits(a, n), HighBits(b, n), m)
    decreases n
  {
    if n == 0 {
      assert LowBits(a, 0) == LowBits(b, 0) == 0 && HighBits(a, 0) == a && HighBits(b, 0) == b;
    } else {
      BitwiseSplit(op, a / 2, b / 2, n - 1, m);
      HalfParts(a, n);
      HalfParts(b, n);
      var p, low := Pow2(n - 1), Bitwise(op, LowBits(a / 2, n - 1), LowBits(b / 2, n - 1), n - 1);
      var high := Bitwise(op, HighBits(a, n), HighBits(b, n), m);
      BitwiseOnce(op, a, b, n + m);
      BitwiseOnce(op, LowBits(a, n), LowBits(b, n), n);
      assert Pow2(n) == 2 * p;
      hide *;
      Doubles(p, high);
    }
  }

  /** Dropping the lowest bit before or after splitting. */
  lemma HalfParts(a: nat, n: nat)
    requires n > 0
    ensures LowBits(a, n) / 2 == LowBits(a / 2, n - 1) && LowBits(a, n) % 2 == a % 2
    ensures HighBits(a, n) == HighBits(a / 2, n - 1)
  {
    HalfPartsOf(a, Pow2(n - 1));
  }

  predicate OnBits(op: BitOp, x: bool, y: bool) {
    match op
    case BitAnd => x && y
    case BitOr => x || y
    case BitXor => x != y
  }

  /** Each bit of the result is the operation on that bit of the operands. */
  lemma {:induction false} BitOfBitwise(op: BitOp, a: nat, b: nat, n: nat, k: nat)
    requires k < n
    ensures BitSet(Bitwise(op, a, b, n), k) <==> OnBits(op, BitSet(a, k), BitSet(b, k))
    decreases k
  {
    var r, rest := Bitwise(op, a, b, n), Bitwise(op, a / 2, b / 2, n - 1);
    assert r / 2 == rest && r % 2 == OneBit(op, a % 2, b % 2);
    if k > 0 {
      BitOfBitwise(op, a / 2, b / 2, n - 1, k - 1);
      NextBit(r, k);
      NextBit(a, k);
      NextBit(b, k);
      hide BitSet, Bitwise;
    }
  }

  lemma NextBit(a: nat, k: nat)
    requires k > 0
    ensures BitSet(a, k) <==> BitSet(a / 2, k - 1)
  {
    HalfPartsOf(a, Pow2(k - 1));
  }

  /** Cutting off high bits keeps the low ones. */
  lemma {:induction false} BitOfLow(a: nat, n: nat, k: nat)
    requires k < n
    ensures BitSet(a % Pow2(n), k) <==> BitSet(a, k)
    decreases k
  {
    HalfParts(a, n);
    assert LowBits(a, n) == a % Pow2(n) && LowBits(a / 2, n - 1) == a / 2 % Pow2(n - 1);
    hide LowBits, HighBits;
    if k == 0 {
      FirstBit(a);
      FirstBit(a % Pow2(n));
    } else {
      BitOfLow(a / 2, n - 1, k - 1);
      NextBit(a, k);
      NextBit(a % Pow2(n), k);
      hide BitSet;
    }
  }

  lemma FirstBit(a: nat)
    ensures BitSet(a, 0) <==> a % 2 == 1
  {
  }

  /** A number that is not zero has a bit set. */
  lemma {:induction false} SomeBitSet(a: nat, n: nat) returns (k: nat)
    requires 0 < a < Pow2(n)
    ensures k < n && BitSet(a, k)
    decreases n
  {
    if a % 2 == 1 {
      k := 0;
    } else {
      k := SomeBitSet(a / 2, n - 1);
      k := k + 1;
      NextBit(a, k);
    }
  }

  lemma NoBitOfZero(k: nat)
    ensures !BitSet(0, k)
  {
    QuotientUnique(0, 0, 0, Pow2(k));
  }

  lemma BitwiseOnce(op: BitOp, a: nat, b: nat, n: nat)
    requires n > 0
    ensures Bitwise(op, a, b, n) == OneBit(op, a % 2, b % 2) + 2 * Bitwise(op, a / 2, b / 2, n - 1)
  {
  }

  lemma Doubles(p: int, h: int)
    ensures 2 * (p * h) == (2 * p) * h
  {
  }

  lemma HalfPartsOf(a: nat, p: nat)
    requires p > 0
    ensures a % (2 * p) / 2 == a / 2 % p && a % (2 * p) % 2 == a % 2 && a / (2 * p) == a / 2 / p
  {
    var d, m := a / 2 / p, a / 2 % p;
    assert a / 2 == d * p + m;
    var low := 2 * m + a % 2;
    assert a == d * (2 * p) + low by {
      assert 2 * (d * p) == d * (2 * p);
    }
    assert 0 <= low < 2 * p;
    QuotientUnique(a, d, low, 2 * p);
  }

  lemma QuotientUnique(x: int, d: int, m: int, p: int)
    requires p > 0 && 0 <= m < p && x == d * p + m
    ensures x / p == d && x % p == m
  {
    var d', m' := x / p, x % p;
    assert x == d' * p + m';
    assert (d - d') * p == m' - m && (d' - d) * p == m - m';
    if d > d' {
      MulAtLeast(d - d', p);
    } else if d < d' {
      MulAtLeast(d' - d, p);
    }
  }

  /** A number and the same number plus whole multiples of a modulus. */
  lemma Multiples(x: int, k: int, modulus: int)
    requires modulus > 0
    ensures (x + k * modulus) % modulus == x % modulus
  {
    var d, r := x / modulus, x % modulus;
    assert x + k * modulus == (d + k) * modulus + r;
    QuotientUnique(x + k * modulus, d + k, r, modulus);
  }

  lemma AddModulo(a: int, b: int)
    ensures (a % TWO_12 + b % TWO_12) % TWO_12 == (a + b) % TWO_12
  {
    var k := a / TWO_12 + b / TWO_12;
    assert a + b == (a % TWO_12 + b % TWO_12) + k * TWO_12;
    Multiples(a % TWO_12 + b % TWO_12, k, TWO_12);
  }

  lemma MulAtLeast(k: int, p: int)
    requires k >= 1 && p > 0
    ensures k * p >= p
  {
    assert k * p == (k - 1) * p + p;
  }

  function WordBits(op: BitOp, a: Word, b: Word): Word {
    Pow2Values();
    Bitwise(op, a, b, 64)
  }

  function AndWords(a: Word, b: Word): Word { WordBits(BitAnd, a, b) }
  function OrWords(a: Word, b: Word): Word { WordBits(BitOr, a, b) }
  function XorWords(a: Word, b: Word): Word { WordBits(BitXor, a, b) }

  /** Truncated division and remainder are the two halves of one integer identity, with the
      remainder smaller than the divisor and signed like the dividend. */
  lemma TruncIdentity(a: int, b: int)
    requires b != 0
    ensures a == TruncDiv(a, b) * b + TruncRem(a, b)
    ensures Abs(TruncRem(a, b)) < Abs(b)
    ensures TruncRem(a, b) == 0 || (TruncRem(a, b) < 0) == (a < 0)
  {
    var q, r := Abs(a) / Abs(b), Abs(a) % Abs(b);
    assert Abs(a) == q * Abs(b) + r;
    if b < 0 {
      assert q * Abs(b) == -(q * b) == (-q) * b;
    } else {
      assert q * Abs(b) == q * b && (-q) * b == -(q * b);
    }
  }
}
