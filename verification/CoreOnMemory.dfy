/** The pipeline and the shared-memory system clocked together: the memory port of the pipeline
    model is answered by the data interface, its arbiter and its two RAMs. */
module CoreOnMemory {
  import opened ByteLanes
  import opened DelayedRegister
  import opened Core
  import opened CoreRefinement
  import opened CoreRuns
  import opened SequentialMachine
  import IoMem
  import Alu
  import A = AxiController
  import D = DataInterface

  /** The data interface's pins as the EX/MEM latch drives them in a program without atomics. */
  function PinsOf(m: MemLatch): D.Pins {
    D.Pins(m.c, m.data, m.writeEn, m.readEn, m.valueSize, false, 0, 0)
  }

  datatype Joint = Joint(core: State, memory: IoMem.System)

  /** Inputs of one clock; the core is running. */
  datatype Clock = Clock(divider: Alu.Divider, host: A.Pins, mapFree: bool, instDout: Lanes)

  /** The memory system's inputs, up to what the EX/MEM latch loads next. */
  function Around(k: Clock, next: D.Pins): IoMem.Env {
    IoMem.Env(k.host, next, true, k.mapFree, k.instDout)
  }

  /** The pipeline's port is ready when the data interface says so. */
  function PortAnswer(j: Joint, k: Clock): Env {
    Env(IoMem.CoreReady(j.memory, Around(k, j.memory.core)), k.divider)
  }

  function NextCore(imem: Program, j: Joint, k: Clock): State {
    Core.Step(imem, j.core, PortAnswer(j, k))
  }

  function Step(imem: Program, j: Joint, k: Clock): Joint {
    var next := NextCore(imem, j, k);
    Joint(next, IoMem.Step(j.memory, Around(k, PinsOf(next.mem))))
  }

  predicate HostAway(j: Joint, k: Clock) {
    !IoMem.HostOnShared(j.memory, Around(k, j.memory.core))
  }

  /** The memory system holds the pipeline's memory, drives its read value, and is between two
      accesses; it is stuck only if an access of the core has faulted. */
  ghost predicate Coupled(j: Joint) {
    var p, s := j.core, j.memory;
    && IoMem.Inv(s) && s.core == PinsOf(p.mem) && IoMem.Represents(s, p.ram)
    && p.readValue == WordOf(D.ReadData(s.data, IoMem.DataDout(s)))
    && s.data.phase != D.ModifyWrite && (s.data.phase == D.Error ==> MemError(p))
  }

  /** The signals of the clock do not depend on what the latch loads at its end. */
  lemma LoadsLater(s: IoMem.System, k: Clock, next: D.Pins)
    ensures var e, f := Around(k, s.core), Around(k, next);
            && IoMem.CoreReady(s, f) == IoMem.CoreReady(s, e) && IoMem.HostOnShared(s, f) == IoMem.HostOnShared(s, e)
            && IoMem.CoreGranted(s, f) == IoMem.CoreGranted(s, e)
  {
    hide A.MemEn, A.SelectsShared, A.ArbRequest, A.MapRequest, D.Ready, D.Request, D.BusFrame;
  }

  /** An access is done at the pipeline's port exactly when the data interface carries it out. */
  lemma DoneTogether(j: Joint, k: Clock)
    requires Coupled(j) && MemInv(j.core)
    ensures var g := IoMem.CoreGranted(j.memory, Around(k, j.memory.core));
            var e := PortAnswer(j, k);
            && (D.DoWrite(j.memory.data, j.memory.core, g) <==> MemDone(j.core, e) && j.core.mem.writeEn)
            && (D.DoRead(j.memory.data, j.memory.core, g) <==> MemDone(j.core, e) && j.core.mem.readEn)
            && (!e.memReady ==> BlockMem(j.core, e))
            && (j.memory.core.BadAddress() <==> MemError(j.core))
  {
    hide IoMem.CoreGranted, IoMem.Inv, IoMem.Represents, D.ReadData;
  }

  lemma PhaseAfter(imem: Program, j: Joint, k: Clock)
    requires Coupled(j)
    ensures var t := Step(imem, j, k);
            t.memory.data.phase != D.ModifyWrite && (t.memory.data.phase == D.Error ==> MemError(t.core))
  {
    var e := PortAnswer(j, k);
    if MemError(j.core) {
      HeldByFaultInMem(imem, j.core, e);
    }
    hide Core.Step, IoMem.CoreGranted, IoMem.Inv, IoMem.Represents, D.ReadData, A.Next, NextWords, NextDout, IoMem.SharedPort, IoMem.UnsharedPort;
    hide IoMem.AxiDout, IoMem.AxiGranted, IoMem.DataDout;
  }

  lemma LatchAfter(imem: Program, j: Joint, k: Clock)
    requires Coupled(j) && MemInv(j.core)
    ensures var t := Step(imem, j, k); t.memory.core == PinsOf(t.core.mem)
  {
    var next := NextCore(imem, j, k);
    DoneTogether(j, k);
    LoadsLater(j.memory, k, PinsOf(next.mem));
    hide IoMem.CoreReady, Coupled, MemInv, PinsOf, D.Next, A.Next, NextWords, NextDout, IoMem.SharedPort, IoMem.UnsharedPort, IoMem.HostOnShared;
    hide NextId, NextEx, NextPc, NextWb, NextRam, NextReadValue, Bank, NextSavedTaken, FlagException, FlagFinish, Alu.Next, BlockMem, HoldMEM;
    hide ExC, StoreData, IoMem.AxiDout, MemDone;
  }

  /** RAM contents and the read value after the clock. */
  lemma MemoryAfter(imem: Program, j: Joint, k: Clock)
    requires Coupled(j) && MemInv(j.core) && HostAway(j, k)
    ensures var t := Step(imem, j, k);
            && IoMem.Represents(t.memory, t.core.ram)
            && t.core.readValue == WordOf(D.ReadData(t.memory.data, IoMem.DataDout(t.memory)))
  {
    var next := NextCore(imem, j, k);
    var s, e := j.memory, Around(k, PinsOf(next.mem));
    DoneTogether(j, k);
    LoadsLater(s, k, PinsOf(next.mem));
    IoMem.PortRefinesPipelineMemory(s, e, j.core.ram);
    if !IoMem.CoreReads(s, e) {
      IoMem.OutputHeldOnce(s, e);
    }
    hide IoMem.Step, IoMem.CoreGranted, IoMem.CoreReady, IoMem.Inv, IoMem.Represents, IoMem.DataDout, D.DoWrite, D.DoRead, Output, WordOf;
    hide MemDone, MemInv, RamStore, RamLoad, NextId, NextEx, NextMem, NextPc, NextWb, Bank, NextSavedTaken, FlagException, FlagFinish, Alu.Next;
    hide IoMem.HostOnShared, SelectLanes, MemError;
  }

  lemma CoupledStep(imem: Program, j: Joint, k: Clock)
    requires Coupled(j) && MemInv(j.core) && HostAway(j, k)
    ensures Coupled(Step(imem, j, k))
  {
    IoMem.InvStep(j.memory, Around(k, PinsOf(NextCore(imem, j, k).mem)));
    PhaseAfter(imem, j, k);
    LatchAfter(imem, j, k);
    MemoryAfter(imem, j, k);
    hide IoMem.Step, Core.Step, IoMem.Inv, IoMem.Represents, D.ReadData, MemError, HostAway, PinsOf;
  }

  // Runs -------------------------------------------------------------------------------------

  function Run(imem: Program, j: Joint, clocks: seq<Clock>): Joint
    decreases |clocks|
  {
    if clocks == [] then j else Run(imem, Step(imem, j, clocks[0]), clocks[1..])
  }

  /** The answers the pipeline gets over a run. */
  function Answers(imem: Program, j: Joint, clocks: seq<Clock>): seq<Env>
    decreases |clocks|
  {
    if clocks == [] then [] else [PortAnswer(j, clocks[0])] + Answers(imem, Step(imem, j, clocks[0]), clocks[1..])
  }

  /** The host stays off the shared RAM; whatever else it does is free. */
  predicate HostStaysAway(imem: Program, j: Joint, clocks: seq<Clock>)
    decreases |clocks|
  {
    clocks == [] || (HostAway(j, clocks[0]) && HostStaysAway(imem, Step(imem, j, clocks[0]), clocks[1..]))
  }

  lemma {:induction false} RunTogether(imem: Program, j: Joint, clocks: seq<Clock>)
    requires Coupled(j) && Invariant(imem, j.core) && Covered(imem) && HostStaysAway(imem, j, clocks)
    ensures Coupled(Run(imem, j, clocks))
    ensures Run(imem, j, clocks).core == Core.Run(imem, j.core, Answers(imem, j, clocks))
    decreases |clocks|
  {
    hide Coupled, Covered, HostAway, PortAnswer, Core.Step, IoMem.Step;
    if clocks != [] {
      var k, e := clocks[0], PortAnswer(j, clocks[0]);
      assert MemInv(j.core) by {
        hide MemInv, IdInv, UnitInv, FlagInv, OperandsRight, Live, Quiet;
      }
      hide Invariant;
      CoupledStep(imem, j, k);
      InvariantStep(imem, j.core, e);
      var t := Step(imem, j, k);
      assert t.core == Core.Step(imem, j.core, e);
      RunTogether(imem, t, clocks[1..]);
      var rest := Answers(imem, t, clocks[1..]);
      assert ([e] + rest)[0] == e && ([e] + rest)[1..] == rest;
    }
  }

  /** Both after a reset, with the same memory contents and the same read value. */
  ghost predicate Initially(j: Joint) {
    && Core.Initial(j.core) && IoMem.Initial(j.memory)
    && j.memory.core == PinsOf(j.core.mem) && IoMem.Represents(j.memory, j.core.ram)
    && j.core.readValue == WordOf(D.ReadData(j.memory.data, IoMem.DataDout(j.memory)))
  }

  lemma CoupledInitially(j: Joint)
    requires Initially(j)
    ensures Coupled(j)
  {
    hide IoMem.Represents, D.ReadData, IoMem.DataDout, WordOf;
  }

  /** The pipeline over the memory system.  From reset, with a host that stays off the shared RAM,
      and whatever arbitration and the divider do: the drained state is the sequential machine
      after as many instructions as entered EX, the two RAMs hold the pipeline's memory at their
      own addresses, and the core reads what its last load selected there. */
  lemma PipelineRunsOnTheMemorySystem(imem: Program, j: Joint, clocks: seq<Clock>)
    requires Initially(j) && Covered(imem) && HostStaysAway(imem, j, clocks)
    ensures var r, env := Run(imem, j, clocks), Answers(imem, j, clocks);
            && r.core == Core.Run(imem, j.core, env)
            && Drain(r.core) == SequentialMachine.Run(imem, Machine(j.core.regs, j.core.ram, 0), Executed(imem, j.core, env))
            && IoMem.Represents(r.memory, r.core.ram)
            && r.core.readValue == WordOf(D.ReadData(r.memory.data, IoMem.DataDout(r.memory)))
  {
    CoupledInitially(j);
    hide Core.Initial, Drain, IoMem.Represents, D.ReadData, Covered, HostStaysAway, Run, Answers, Executed;
    InvariantInitially(imem, j.core);
    RunTogether(imem, j, clocks);
    RunRefinesFrom(imem, j.core, Answers(imem, j, clocks));
  }
}
