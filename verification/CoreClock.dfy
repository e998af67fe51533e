/** The clocked registers of the core as a class: one call per clock carries out the falling edge
    of the register bank and then the rising edge of every latch, in place. */
module CoreClock {
  import opened Words
  import opened ByteLanes
  import opened Control
  import opened SequentialMachine
  import opened Core
  import Alu
  import RegisterBank

  class BpfCore {
    var pc: Addr12
    var id: IdLatch
    var ex: ExLatch
    var mem: MemLatch
    var wb: WbLatch
    var savedTaken: bool
    var savedException: bool
    var savedFinish: bool
    var readValue: Word
    const bank: RegisterBank.Bank
    const unit: Alu.DivControl
    const ram: array<Lanes>

    ghost predicate Valid()
      reads this, bank
    {
      bank.Valid() && ram.Length == 0x2000 && bank.regFile as object != ram
    }

    /** The state of the core as one value. */
    function View(): State
      requires Valid()
      reads this, bank, bank.regFile, unit, ram
    {
      State(pc, id, ex, mem, wb, bank.Contents(), unit.View(), savedTaken, savedException, savedFinish, ram[..], readValue)
    }

    /** Reset values; the memory contents are given. */
    constructor (contents: Ram)
      ensures Valid() && Initial(View()) && View().ram == contents
      ensures forall r: Nibble :: Read(View().regs, r) == 0
      ensures fresh(bank) && fresh(bank.regFile) && fresh(unit) && fresh(ram)
    {
      pc := 0;
      id := IdLatch(Slot(0, 0, 0, 0, 0), 0, 0, true);
      ex := ExLatch(NO_SIGNALS.(valueSize := SIZE32), Slot(0, 0, 0, 0, 0), 0, 0, 0, 0);
      mem := MemLatch(false, false, false, SIZE32, false, false, 0, 0, 0, 0);
      wb := WbLatch(false, false, false, SIZE32, 0, 0);
      savedTaken, savedException, savedFinish, readValue := false, false, false, 0;
      bank := new RegisterBank.Bank();
      unit := new Alu.DivControl();
      ram := new Lanes[0x2000](i requires 0 <= i < 0x2000 => contents[i]);
      new;
      assert ram[..] == contents;
    }

    /** Rising edge of the data memory port: an access that is granted is carried out. */
    method MemoryEdge(ghost p: State, e: Env)
      requires Valid() && p.mem == mem && p.ram == ram[..] && p.readValue == readValue
      modifies this`readValue, ram
      ensures ram[..] == NextRam(p, e) && readValue == NextReadValue(p, e)
    {
      hide MergeLanes, StoreLanes, Enables, LanesOf, SelectLanes, WordOf;
      if (mem.writeEn || mem.readEn) && ValidAddress(mem.c) && e.memReady {
        if mem.writeEn {
          ram[mem.c / 8] := MergeLanes(ram[mem.c / 8], StoreLanes(mem.valueSize, mem.c % 8, LanesOf(mem.data)),
                                       Enables(mem.valueSize, mem.c % 8));
        } else {
          readValue := RamLoad(ram[..], mem.c, mem.valueSize);
        }
      }
    }

    /** Rising edge of the program counter and the latch between IF and ID. */
    method FetchEdge(imem: Program, p: State, e: Env)
      requires p.pc == pc && p.id == id
      modifies this`pc, this`id
      ensures pc == NextPc(p, e) && id == NextId(imem, p, e)
    {
      hide LoadPc, LoadIf, JumpOrTaken, PcTaken, IdSignals, MakeNoop, Inc;
      if LoadPc(p, e) {
        pc := if JumpOrTaken(p) then PcTaken(p) else Inc(pc);
      }
      if LoadIf(p, e) {
        id := IdLatch(imem[p.pc], p.pc, Inc(p.pc), IdSignals(p).discardIF || JumpOrTaken(p) || MakeNoop(p, StageIF));
      }
    }

    /** Rising edge of the latch between ID and EX, which may receive a bubble. */
    method DecodeEdge(p: State, e: Env)
      requires p.ex == ex
      modifies this`ex
      ensures ex == NextEx(p, e)
    {
      hide LoadId, IdSignals, MakeNoop, BlockId, Core.Bank, Read, Target, Bubble;
      if LoadId(p, e) {
        var regs := Bank(p);
        ex := ExLatch(Bubble(IdSignals(p), BlockId(p) || MakeNoop(p, StageID)), p.id.ir,
                      if IdSignals(p).branch then Target(p.id.ir, p.id.pc1) else Read(regs, 0) % TWO_12,
                      Read(regs, p.id.ir.dst), Read(regs, p.id.ir.src), p.id.pc);
      }
    }

    /** Rising edge of the latch between EX and MEM. */
    method ExecuteEdge(p: State, e: Env)
      requires p.mem == mem
      modifies this`mem
      ensures mem == NextMem(p, e)
    {
      hide LoadEx, BlockEx, MakeNoop, StoreData, ExC;
      if LoadEx(p, e) {
        var live := !(BlockEx(p, e) || MakeNoop(p, StageEX));
        mem := MemLatch(p.ex.ctl.writeEn && live, p.ex.ctl.readEn && live, p.ex.ctl.signExt, p.ex.ctl.valueSize,
                        p.ex.ctl.memToReg, p.ex.ctl.regWrite && live, StoreData(p), ExC(p), p.ex.slot.dst, p.ex.pc);
      }
    }

    /** Rising edge of the latch between MEM and WB. */
    method WriteBackEdge(p: State, e: Env)
      requires p.wb == wb
      modifies this`wb
      ensures wb == NextWb(p, e)
    {
      hide LoadMem, BlockMem, MakeNoop;
      if LoadMem(p, e) {
        wb := WbLatch(p.mem.memToReg, p.mem.regWrite && !(BlockMem(p, e) || MakeNoop(p, StageMEM)),
                      p.mem.signExt, p.mem.valueSize, p.mem.c, p.mem.dst);
      }
    }

    /** Rising edge of the flags that outlive the instruction that set them. */
    method FlagEdge(p: State)
      requires p.savedTaken == savedTaken && p.savedException == savedException && p.savedFinish == savedFinish
      modifies this`savedTaken, this`savedException, this`savedFinish
      ensures savedTaken == NextSavedTaken(p) && savedException == FlagException(p) && savedFinish == FlagFinish(p)
    {
      hide VolatileTaken, HoldIF, Exception, IdSignals;
      if VolatileTaken(p) && HoldIF(p) {
        savedTaken := true;
      } else if !HoldIF(p) {
        savedTaken := false;
      }
      if Exception(p) {
        savedException := true;
      }
      if IdSignals(p).finish {
        savedFinish := true;
      }
    }

    /** One clock refines the step function: every process sees the values before the edge. */
    method Clock(imem: Program, e: Env)
      requires Valid()
      modifies this, bank.regFile, unit, ram
      ensures Valid() && View() == Step(imem, old(View()), e)
    {
      hide WbValue, NextRam, NextReadValue, NextPc, NextId, NextEx, NextMem, NextWb, ExPins, NextSavedTaken, FlagException, FlagFinish;
      hide Alu.Next;
      var p := View();
      bank.FallingEdge(wb.dst, WbValue(p), wb.regWrite, false);
      MemoryEdge(p, e);
      unit.RisingEdge(ExPins(p), e.divider);
      FetchEdge(imem, p, e);
      DecodeEdge(p, e);
      ExecuteEdge(p, e);
      WriteBackEdge(p, e);
      FlagEdge(p);
    }
  }
}
