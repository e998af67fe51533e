/** The register bank: eleven registers written in place on the falling edge. */
module RegisterBank {
  import opened Words
  import opened SequentialMachine

  class Bank {
    var regFile: array<Word>

    ghost predicate Valid()
      reads this
    {
      regFile.Length == REGISTERS
    }

    /** The registers as a value. */
    function Contents(): Regs
      requires Valid()
      reads this, regFile
    {
      regFile[..]
    }

    constructor ()
      ensures Valid() && fresh(regFile)
      ensures forall r: Nibble :: Read(Contents(), r) == 0
    {
      regFile := new Word[REGISTERS](_ => 0);
    }

    /** The falling edge: a write to a register above r10 is dropped, and the separate enable
        for r0 wins over it. */
    method FallingEdge(regW: Nibble, input: Word, writeEn: bool, r0WriteEn: bool)
      requires Valid()
      modifies regFile
      ensures Valid()
      ensures forall r: Nibble :: Read(Contents(), r)
                == if r < REGISTERS && ((writeEn && r == regW) || (r0WriteEn && r == 0)) then input else Read(old(Contents()), r)
      ensures !r0WriteEn ==> Contents() == if writeEn then Write(old(Contents()), regW, input) else old(Contents())
    {
      if writeEn && regW <= 10 {
        regFile[regW] := input;
      }
      if r0WriteEn {
        regFile[0] := input;
      }
    }
  }
}
