/** The shared-memory system in its own form: one object per component, clocked together. */
module IoMemClock {
  import opened ByteLanes
  import opened DelayedRegister
  import opened IoMem
  import Arbiter
  import D = DataInterface
  import A = AxiController
  import opened HostRefinement
  import Control

  /** The unshared RAM is addressed within its depth when the core is running, and when it is not,
      as long as the host offers nothing unsafe over a kept store. */
  lemma UnsharedAccessFits(s: System, e: Env)
    requires Inv(s) && (e.coreRuns || Safe(s, e))
    ensures UnsharedPort(s, e).Fits(UNSHARED_DEPTH)
  {
    if HostOnUnshared(s, e) {
      HostUnsharedAddress(s, e);
      PlaceIs(A.PortAddr(s.axi, e.host));
    } else if CoreOnUnshared(s, e) {
      EnabledIsValid(s, e);
      PlaceIs(s.core.addr);
    }
    hide HostOnUnshared, CoreEnabled, UnsharedIndex, CoreBus, HostBus, Inv, A.PortAddr, CoreWea, CoreDin, AxiGranted;
  }

  lemma HostUnsharedAddress(s: System, e: Env)
    requires Inv(s) && HostOnUnshared(s, e) && (e.coreRuns || Safe(s, e))
    ensures Control.InUnshared(A.PortAddr(s.axi, e.host))
    ensures HostBus(A.PortAddr(s.axi, e.host)) == CoreBus(A.PortAddr(s.axi, e.host))
  {
    hide AxiGranted, DataInv;
  }

  class SharedMemorySystem {
    var core: D.Pins
    var readShared: bool
    const data: D.MemInterface
    const axi: A.Controller
    const arbiter: Arbiter.BinaryArbiter
    const shared: BlockRam
    const unshared: BlockRam

    ghost const Repr: set<object> :=
      {this, data, data.reg, axi, axi.reg, arbiter, shared, shared.words, unshared, unshared.words}

    /** The components are distinct objects and the RAMs have their depths. */
    ghost predicate Valid() {
      && shared.words.Length == SHARED_DEPTH && unshared.words.Length == UNSHARED_DEPTH
      && shared != unshared && shared.words != unshared.words && data.reg != axi.reg
    }

    function View(): System
      requires Valid()
      reads this, data, data.reg, axi, axi.reg, arbiter, shared, shared.words, unshared, unshared.words
    {
      System(core, data.View(), readShared, axi.View(), arbiter.prio,
             shared.words[..], shared.dout, unshared.words[..], unshared.dout)
    }

    constructor ()
      ensures Valid() && Initial(View()) && fresh(Repr)
    {
      core := D.Pins(0, 0, false, false, SIZE32, false, 0, 0);
      readShared := false;
      data := new D.MemInterface();
      axi := new A.Controller();
      arbiter := new Arbiter.BinaryArbiter();
      shared := new BlockRam(SHARED_DEPTH);
      unshared := new BlockRam(UNSHARED_DEPTH);
    }

    /** The rising edges of the two RAMs. */
    method RamEdges(sharedPort: Port, unsharedPort: Port)
      requires Valid() && sharedPort.Fits(SHARED_DEPTH) && unsharedPort.Fits(UNSHARED_DEPTH)
      modifies shared, shared.words, unshared, unshared.words
      ensures shared.words[..] == NextWords(old(shared.words[..]), sharedPort)
      ensures shared.dout == NextDout(old(shared.words[..]), sharedPort)
      ensures unshared.words[..] == NextWords(old(unshared.words[..]), unsharedPort)
      ensures unshared.dout == NextDout(old(unshared.words[..]), unsharedPort)
    {
      hide NextWords, NextDout;
      shared.RisingEdge(sharedPort);
      unshared.RisingEdge(unsharedPort);
    }

    /** The rising edges of the arbiter, the data interface and the controller. */
    method ControlEdges(s: System, e: Env)
      requires Valid() && s.data == data.View() && s.axi == axi.View() && s.prio == arbiter.prio
      modifies data, data.reg, axi, axi.reg, arbiter
      ensures data.View() == D.Next(s.data, s.core, CoreGranted(s, e), DataDout(s))
      ensures axi.View() == A.Next(s.axi, e.host, AxiGranted(s, e), AxiDout(s, e))
      ensures arbiter.prio == Arbiter.NextPrio(s.prio, Requests(s, e))
    {
      hide D.Next, A.Next, Requests, CoreGranted, AxiGranted, DataDout, AxiDout, Arbiter.NextPrio, Arbiter.GrantsCore, Arbiter.GrantsHost;
      var coreGranted, hostGranted := arbiter.RisingEdge(Requests(s, e));
      data.RisingEdge(s.core, CoreGranted(s, e), DataDout(s));
      axi.RisingEdge(e.host, AxiGranted(s, e), AxiDout(s, e));
    }

    /** One clock: every component sees the signals of the state before the edge. */
    method Clock(e: Env)
      requires Valid() && Inv(View()) && UnsharedPort(View(), e).Fits(UNSHARED_DEPTH)
      modifies Repr
      ensures Valid() && View() == IoMem.Step(old(View()), e) && Inv(View())
    {
      var s := View();
      ExclusiveIn(s, e);
      InvStep(s, e);
      hide Inv, Requests, CoreGranted, AxiGranted, CoreReady, DataDout, AxiDout, CoreEnabled, CoreOnShared, SharedPort, UnsharedPort;
      hide D.Next, A.Next, NextWords, NextDout, Arbiter.NextPrio;
      ControlEdges(s, e);
      RamEdges(SharedPort(s, e), UnsharedPort(s, e));
      if CoreEnabled(s, e) {
        readShared := CoreOnShared(s, e);
      }
      if CoreReady(s, e) {
        core := e.nextCore;
      }
    }
  }
}
