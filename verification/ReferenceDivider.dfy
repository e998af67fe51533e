/** The repository's own 64-bit divider, and the arithmetic unit in front of it: a division is
    finished within eleven clocks, with the quotient and remainder of the operands taken. */
module ReferenceDivider {
  import opened Words
  import Alu
  import Bpf

  const READY_EVERY: int := 4
  const LATENCY: int := 5

  datatype State = State(
    ready: bool, done: bool, divide: bool, cycles: int, notReady: int,
    dividend: Word, divisor: Word, quotient: Word, remainder: Word)

  /** Quotient and remainder of a nonzero divisor; a zero divisor is never offered. */
  function Quotient(x: Word, y: Word): Word {
    if y == 0 then 0
    else
      Alu.QuotientFits(x, y);
      x / y
  }

  function Remainder(x: Word, y: Word): Word {
    if y == 0 then 0
    else
      Alu.QuotientFits(x, y);
      x % y
  }

  /** One clock.  Operands offered while the divider is ready are taken on the falling edge, so
      the count starts at the rising edge that follows. */
  function Next(d: State, valid: bool, a: Word, b: Word): State {
    var taken := valid && d.ready;
    var x, y := if taken then a else d.dividend, if taken then b else d.divisor;
    var divide := d.divide || taken;
    var finishes := divide && d.cycles == LATENCY;
    State(d.notReady == READY_EVERY, finishes, (divide && !finishes) || taken,
          if divide && !finishes then d.cycles + 1 else 0,
          if d.notReady == READY_EVERY then 0 else d.notReady + 1,
          x, y, if finishes then Quotient(x, y) else d.quotient, if finishes then Remainder(x, y) else d.remainder)
  }

  class Divider {
    var ready: bool
    var done: bool
    var divide: bool
    var cycles: int
    var notReady: int
    var dividend: Word
    var divisor: Word
    var quotient: Word
    var remainder: Word

    function View(): State
      reads this
    {
      State(ready, done, divide, cycles, notReady, dividend, divisor, quotient, remainder)
    }

    constructor ()
      ensures Idle(View())
    {
      ready, done, divide, cycles, notReady := false, false, false, 0, 0;
      dividend, divisor, quotient, remainder := 0, 0, 0, 0;
    }

    /** The falling edge takes offered operands. */
    method FallingEdge(valid: bool, a: Word, b: Word)
      modifies this`divide, this`dividend, this`divisor
      ensures divide == (old(divide) || (valid && ready))
      ensures dividend == (if valid && ready then a else old(dividend)) && divisor == (if valid && ready then b else old(divisor))
    {
      if valid && ready {
        divide, dividend, divisor := true, a, b;
      }
    }

    /** A whole clock: the falling edge, the counters of the rising edge, and the offer, which is
        still up at the rising edge. */
    method Clock(valid: bool, a: Word, b: Word)
      modifies this
      ensures View() == Next(old(View()), valid, a, b)
    {
      var taken := valid && ready;
      FallingEdge(valid, a, b);
      done := false;
      ready := false;
      if notReady == READY_EVERY {
        ready, notReady := true, 0;
      } else {
        notReady := notReady + 1;
      }
      if divide {
        if cycles == LATENCY {
          quotient, remainder := Quotient(dividend, divisor), Remainder(dividend, divisor);
          done, cycles, divide := true, 0, false;
        } else {
          cycles := cycles + 1;
        }
      } else {
        cycles := 0;
      }
      if taken {
        divide := true;
      }
    }
  }

  // Behind DIV_CONTROL -------------------------------------------------------------------------

  /** Nothing in progress. */
  predicate Idle(d: State) {
    !d.divide && !d.done && d.cycles == 0 && 0 <= d.notReady <= READY_EVERY
  }

  predicate Offers(u: Alu.Unit, p: Alu.Pins, d: State) {
    d.ready && ((u.phase == Alu.Init && Alu.UseDivider(u, p)) || u.phase == Alu.ReadyToDivide)
  }

  function OfferedA(u: Alu.Unit, p: Alu.Pins): Word {
    Alu.Magnitude(if u.phase == Alu.ReadyToDivide then u.savedA else p.a, p.wide, p.signed)
  }

  function OfferedB(u: Alu.Unit, p: Alu.Pins): Word {
    Alu.Magnitude(if u.phase == Alu.ReadyToDivide then u.savedB else p.b, p.wide, p.signed)
  }

  function Shows(d: State): Alu.Divider { Alu.Divider(d.ready, d.done) }

  /** Unit and divider after one clock with an operation on the pins. */
  datatype Pair = Pair(unit: Alu.Unit, divider: State)

  function Step(s: Pair, p: Alu.Pins): Pair {
    Pair(Alu.Next(s.unit, p, Shows(s.divider)), Next(s.divider, Offers(s.unit, p, s.divider), OfferedA(s.unit, p), OfferedB(s.unit, p)))
  }

  /** The divider works exactly while the unit waits for it, on the operands the unit recorded,
      and what it shows when it is done is their quotient and remainder. */
  predicate Matched(s: Pair) {
    var u, d := s.unit, s.divider;
    && 0 <= d.notReady <= READY_EVERY
    && (u.phase != Alu.Dividing ==> Idle(d))
    && (u.phase == Alu.Dividing ==>
          && d.dividend == u.dividend && d.divisor == u.divisor
          && (if d.done then !d.divide && d.cycles == 0 && d.quotient == Quotient(u.dividend, u.divisor)
                             && d.remainder == Remainder(u.dividend, u.divisor)
              else d.divide && 1 <= d.cycles <= LATENCY))
  }

  lemma MatchedStep(s: Pair, p: Alu.Pins)
    requires Matched(s)
    ensures Matched(Step(s, p))
  {
    hide Quotient, Remainder, Alu.Magnitude, Alu.NegateResult;
  }

  /** The output bus is the divider's own result, with the sign the unit recorded. */
  lemma OutputIsDividerResult(s: Pair, p: Alu.Pins)
    requires Matched(s) && s.unit.phase == Alu.Dividing && s.divider.done && s.unit.divisor != 0 && p.IsDivision()
    ensures var r := if p.op == Bpf.DIV then s.divider.quotient else s.divider.remainder;
            var v := if s.unit.negate then Wrap(TWO_64 - r) else r;
            Alu.Output(s.unit, p) == if p.wide then v else Low32(v)
  {
  }

  /** Clocks until the unit is ready. */
  function Remaining(s: Pair): nat
    requires Matched(s)
  {
    if s.unit.phase == Alu.Dividing then (if s.divider.done then 0 else LATENCY + 1 - s.divider.cycles)
    else (if s.divider.ready then 0 else READY_EVERY + 1 - s.divider.notReady) + LATENCY + 1
  }

  lemma RemainingFalls(s: Pair, p: Alu.Pins)
    requires Matched(s) && !Alu.Ready(s.unit, p, Shows(s.divider))
    ensures Matched(Step(s, p)) && Remaining(Step(s, p)) == Remaining(s) - 1
  {
    MatchedStep(s, p);
    hide Quotient, Remainder, Alu.Magnitude, Alu.NegateResult;
  }

  /** Clocks in which the unit holds the instruction back. */
  function Stalled(s: Pair, pins: seq<Alu.Pins>): nat
    decreases |pins|
  {
    if pins == [] || Alu.Ready(s.unit, pins[0], Shows(s.divider)) then 0 else 1 + Stalled(Step(s, pins[0]), pins[1..])
  }

  /** A division by a nonzero divisor on the pins in every clock. */
  predicate Divides(pins: seq<Alu.Pins>) {
    forall k :: 0 <= k < |pins| ==> pins[k].en && pins[k].IsDivision() && pins[k].b != 0
  }

  /** Latency: with this divider, whatever becomes of the operand buses meanwhile, an instruction
      waits for at most eleven clocks, and a division for exactly as many as the clocks until the
      divider is ready and six more, or those left of the division at work. */
  lemma {:induction false} DivisionTakesElevenClocksAtMost(s: Pair, pins: seq<Alu.Pins>)
    requires Matched(s)
    ensures Stalled(s, pins) <= Remaining(s) <= 11
    ensures Divides(pins) && |pins| >= Remaining(s) ==> Stalled(s, pins) == Remaining(s)
    decreases |pins|
  {
    hide Matched, Step, Divides;
    if pins != [] {
      if !Alu.Ready(s.unit, pins[0], Shows(s.divider)) {
        RemainingFalls(s, pins[0]);
        DivisionTakesElevenClocksAtMost(Step(s, pins[0]), pins[1..]);
        DividesOn(pins);
      } else if Divides(pins) {
        DividingIsReadyAtTheEnd(s, pins);
      }
    }
    RemainingBound(s);
  }

  lemma DividesOn(pins: seq<Alu.Pins>)
    requires pins != []
    ensures Divides(pins) ==> Divides(pins[1..])
  {
  }

  lemma DividingIsReadyAtTheEnd(s: Pair, pins: seq<Alu.Pins>)
    requires Matched(s) && pins != [] && Divides(pins) && Alu.Ready(s.unit, pins[0], Shows(s.divider))
    ensures Remaining(s) == 0
  {
    assert pins[0].b != 0;
  }

  lemma RemainingBound(s: Pair)
    requires Matched(s)
    ensures Remaining(s) <= 11
  {
  }
}
