/** The eleven branch conditions, built from one unsigned comparison and the two sign bits. */
module BranchChecker {
  import opened Words
  import Bpf

  predicate SignBit(w: Word, wide: bool) {
    if wide then w / TWO_63 % 2 == 1 else w / TWO_31 % 2 == 1
  }

  predicate Taken(op: Nibble, a: Word, b: Word, wide: bool) {
    var sameSign := SignBit(a, wide) == SignBit(b, wide);
    var rawLower := a < b;
    var eq := a == b;
    var gt := !rawLower && !eq;
    var ge := !rawLower;
    var lt := rawLower;
    var le := rawLower || eq;
    if op == Bpf.JEQ then eq
    else if op == Bpf.JGT then gt
    else if op == Bpf.JGE then ge
    else if op == Bpf.JSET then AndWords(a, b) != 0
    else if op == Bpf.JNE then !eq
    else if op == Bpf.JSGT then (sameSign && gt) || (!sameSign && lt)
    else if op == Bpf.JSGE then (sameSign && ge) || (!sameSign && le)
    else if op == Bpf.JLT then lt
    else if op == Bpf.JLE then le
    else if op == Bpf.JSLT then (sameSign && lt) || (!sameSign && gt)
    else if op == Bpf.JSLE then (sameSign && le) || (!sameSign && ge)
    else false
  }

  /** The comparison each operation names in section 4.3 of RFC 9669, on integers. */
  predicate Holds(op: Nibble, a: Word, b: Word, wide: bool) {
    var sa, sb := Signed(a, wide), Signed(b, wide);
    match op
    case 1 => a == b
    case 2 => a > b
    case 3 => a >= b
    case 4 => AndWords(a, b) != 0
    case 5 => a != b
    case 6 => sa > sb
    case 7 => sa >= sb
    case 10 => a < b
    case 11 => a <= b
    case 12 => sa < sb
    case 13 => sa <= sb
    case _ => false
  }

  /** For all operands, 64-bit or truncated to 32 bits, a branch is taken exactly when the
      named signed or unsigned comparison holds. */
  lemma TakenIsTheComparison(op: Nibble, a: Word, b: Word, wide: bool)
    requires !wide ==> a < TWO_32 && b < TWO_32
    ensures Taken(op, a, b, wide) <==> Holds(op, a, b, wide)
  {
    hide AndWords;
    SignedOrder(a, b, wide);
  }

  /** Signed order from the unsigned one: kept between equal signs, reversed between unequal. */
  lemma SignedOrder(a: Word, b: Word, wide: bool)
    requires !wide ==> a < TWO_32 && b < TWO_32
    ensures SignBit(a, wide) == SignBit(b, wide) ==> (Signed(a, wide) < Signed(b, wide) <==> a < b)
    ensures SignBit(a, wide) != SignBit(b, wide) ==> (Signed(a, wide) < Signed(b, wide) <==> b < a)
    ensures Signed(a, wide) == Signed(b, wide) <==> a == b
  {
  }
}
