/** The shared-memory system: the host's AXI controller and the core's data interface on one
    single-port shared RAM behind the arbiter, and on the unshared RAM beside it.  One clock is a
    step over all their registers; host pins, the next contents of the EX/MEM latch and what lies
    outside the model are inputs. */
module IoMem {
  import opened Words
  import opened ByteLanes
  import opened DelayedRegister
  import Control
  import Arbiter
  import D = DataInterface
  import A = AxiController

  const SHARED_DEPTH: int := 3584
  const UNSHARED_DEPTH: int := 320

  type SharedWords = s: seq<Lanes> | |s| == 3584 witness seq<Lanes>(3584, _ => ZERO_LANES)
  type WordIdx = k: int | 0 <= k < 3584
  type UnsharedWords = s: seq<Lanes> | |s| == 320 witness seq<Lanes>(320, _ => ZERO_LANES)

  /** `core` is the EX/MEM latch that drives the data interface; `readShared` remembers which RAM
      the core's last access went to. */
  datatype System = System(
    core: D.Pins, data: D.State, readShared: bool, axi: A.State, prio: bool,
    shared: SharedWords, sharedDout: Lanes, unshared: UnsharedWords, unsharedDout: Lanes)

  /** Inputs of one clock: host pins, what EX would hand to the EX/MEM latch, whether the core is
      running, whether the map arbiter would grant, and the instruction RAM's output. */
  datatype Env = Env(host: A.Pins, nextCore: D.Pins, coreRuns: bool, mapFree: bool, instDout: Lanes)

  // Arbitration --------------------------------------------------------------------------------

  function Requests(s: System, e: Env): Arbiter.Inputs {
    Arbiter.Inputs(D.BusFrame(s.data, s.core), D.Request(s.data, s.core), A.ArbRequest(s.axi, e.host))
  }

  predicate CoreGranted(s: System, e: Env) { Arbiter.GrantsCore(s.prio, Requests(s, e)) }
  predicate HostGranted(s: System, e: Env) { Arbiter.GrantsHost(s.prio, Requests(s, e)) }

  /** The controller proceeds on a grant of either arbiter. */
  predicate AxiGranted(s: System, e: Env) {
    HostGranted(s, e) || (A.MapRequest(s.axi, e.host) && e.mapFree)
  }

  predicate CoreReady(s: System, e: Env) { D.Ready(s.data, s.core, CoreGranted(s, e)) }

  // RAM outputs ----------------------------------------------------------------------------------

  function DataDout(s: System): Lanes {
    if s.readShared then s.sharedDout else s.unsharedDout
  }

  function AxiDout(s: System, e: Env): Lanes {
    if A.SelectsInst(s.axi, e.host, AxiGranted(s, e), e.coreRuns) then e.instDout
    else if A.SelectsUnshared(s.axi, e.host, AxiGranted(s, e), e.coreRuns) then s.unsharedDout
    else s.sharedDout
  }

  // RAM ports ------------------------------------------------------------------------------------

  predicate CoreEnabled(s: System, e: Env) { D.Enabled(s.data, s.core, CoreGranted(s, e), DataDout(s)) }
  predicate CoreOnShared(s: System, e: Env) { s.core.Shared() && CoreEnabled(s, e) }
  predicate CoreOnUnshared(s: System, e: Env) { !s.core.Shared() && CoreEnabled(s, e) }

  predicate HostEnabled(s: System, e: Env) { A.MemEn(s.axi, e.host, AxiGranted(s, e), e.coreRuns) }

  predicate HostOnShared(s: System, e: Env) {
    HostEnabled(s, e) && A.SelectsShared(s.axi, e.host, AxiGranted(s, e), e.coreRuns)
  }

  predicate HostOnUnshared(s: System, e: Env) {
    HostEnabled(s, e) && A.SelectsUnshared(s.axi, e.host, AxiGranted(s, e), e.coreRuns)
  }

  /** Word address on the interfaces' 12-bit address buses. */
  function HostBus(a: Addr16): Addr12 { a % 0x8000 / 8 }

  function CoreBus(a: Word): Addr12 {
    if Control.InUnshared(a % TWO_16) then a % 0x1000 / 8 else a % 0x8000 / 8
  }

  /** The three top bits minus one: 0x9000 becomes word 0. */
  function SharedIndex(bus: Addr12): nat {
    (bus / 512 + 7) % 8 * 512 + bus % 512
  }

  function UnsharedIndex(bus: Addr12): nat {
    bus % 512
  }

  function CoreWea(s: System, e: Env): LaneSet { D.WriteEnables(s.data, s.core, CoreGranted(s, e), DataDout(s)) }
  function CoreDin(s: System): Lanes { D.WriteData(s.data, s.core, DataDout(s)) }

  function HostPort(s: System, e: Env, ena: bool, index: nat): Port {
    Port(ena, index, A.Din(s.axi, e.host), A.Wea(s.axi, e.host, AxiGranted(s, e)))
  }

  function SharedPort(s: System, e: Env): Port {
    if HostOnShared(s, e) then HostPort(s, e, true, SharedIndex(HostBus(A.PortAddr(s.axi, e.host))))
    else Port(CoreOnShared(s, e), SharedIndex(CoreBus(s.core.addr)), CoreDin(s), CoreWea(s, e))
  }

  function UnsharedPort(s: System, e: Env): Port {
    if HostOnUnshared(s, e) then HostPort(s, e, true, UnsharedIndex(HostBus(A.PortAddr(s.axi, e.host))))
    else Port(CoreOnUnshared(s, e), UnsharedIndex(CoreBus(s.core.addr)), CoreDin(s), CoreWea(s, e))
  }

  // One clock --------------------------------------------------------------------------------------

  function Step(s: System, e: Env): System {
    System(if CoreReady(s, e) then e.nextCore else s.core,
           D.Next(s.data, s.core, CoreGranted(s, e), DataDout(s)),
           if CoreEnabled(s, e) then CoreOnShared(s, e) else s.readShared,
           A.Next(s.axi, e.host, AxiGranted(s, e), AxiDout(s, e)),
           Arbiter.NextPrio(s.prio, Requests(s, e)),
           NextWords(s.shared, SharedPort(s, e)), NextDout(s.shared, SharedPort(s, e)),
           NextWords(s.unshared, UnsharedPort(s, e)), NextDout(s.unshared, UnsharedPort(s, e)))
  }

  function Run(s: System, env: seq<Env>): System
    decreases |env|
  {
    if env == [] then s else Run(Step(s, env[0]), env[1..])
  }

  /** Reset: both machines idle and nothing in the EX/MEM latch; RAM contents arbitrary. */
  predicate Initial(s: System) {
    && !s.core.Access() && s.data.phase == D.Init && s.axi == A.RESET && !s.prio
  }

  // The address map ----------------------------------------------------------------------------------

  datatype Place = SharedAt(index: nat) | UnsharedAt(index: nat)

  /** Which RAM word a valid data address of the core is in. */
  function PlaceOf(a: Addr16): Place
    requires Control.ValidAddress(a)
  {
    if Control.InShared(a) then SharedAt(SharedIndex(CoreBus(a))) else UnsharedAt(UnsharedIndex(CoreBus(a)))
  }

  /** Distinct double words of the data address space are distinct RAM words, every index is
      within its RAM, and the host reaches the same shared word by the same address. */
  lemma AddressMapIsInjective(a: Addr16, b: Addr16)
    requires Control.ValidAddress(a) && Control.ValidAddress(b)
    ensures PlaceOf(a) == PlaceOf(b) <==> a / 8 == b / 8
    ensures PlaceOf(a).SharedAt? ==> PlaceOf(a).index == a / 8 - 0x1200 < SHARED_DEPTH
    ensures PlaceOf(a).SharedAt? ==> SharedIndex(HostBus(a)) == PlaceOf(a).index
    ensures PlaceOf(a).UnsharedAt? ==> PlaceOf(a).index == a / 8 - 0x1000 < UNSHARED_DEPTH
  {
    PlaceIs(a);
    PlaceIs(b);
    hide PlaceOf, SharedIndex, UnsharedIndex, CoreBus;
  }

  /** The map is onto: every word of either RAM has a data address of the core. */
  lemma AddressMapIsOnto(k: nat)
    ensures k < UNSHARED_DEPTH ==> Control.ValidAddress(0x8000 + 8 * k) && PlaceOf(0x8000 + 8 * k) == UnsharedAt(k)
    ensures k < SHARED_DEPTH ==> Control.ValidAddress(0x9000 + 8 * k) && PlaceOf(0x9000 + 8 * k) == SharedAt(k)
  {
    hide PlaceOf;
    if k < UNSHARED_DEPTH {
      PlaceIs(0x8000 + 8 * k);
    }
    if k < SHARED_DEPTH {
      PlaceIs(0x9000 + 8 * k);
    }
  }

  /** The word of the shared RAM that holds a shared address: the region starts at 0x9000. */
  function WordIndex(a: Word): WordIdx
    requires Control.InShared(a)
  {
    a / 8 - 0x1200
  }

  lemma PlaceIs(a: Addr16)
    requires Control.ValidAddress(a)
    ensures Control.InShared(a) ==> PlaceOf(a) == SharedAt(a / 8 - 0x1200) && SharedIndex(HostBus(a)) == a / 8 - 0x1200
    ensures Control.InShared(a) ==> 0 <= a / 8 - 0x1200 < SHARED_DEPTH
    ensures !Control.InShared(a) ==> PlaceOf(a) == UnsharedAt(a / 8 - 0x1000) && 0 <= a / 8 - 0x1000 < UNSHARED_DEPTH
  {
    if Control.InShared(a) {
      SharedIndexIs(a);
    } else {
      var w := a / 8;
      assert 0x8000 <= a < 0x8A00;
      assert a % 0x1000 == a - 0x8000 && a % 0x1000 / 8 == w - 0x1000;
      assert (w - 0x1000) % 512 == w - 0x1000;
    }
  }

  lemma SharedIndexIs(a: Addr16)
    requires Control.InShared(a)
    ensures SharedIndex(HostBus(a)) == WordIndex(a) == a / 8 - 0x1200 < SHARED_DEPTH
    ensures CoreBus(a) == HostBus(a)
  {
    var w := a / 8;
    assert 0x1200 <= w < 0x2000;
    assert HostBus(a) == w - 0x1000;
    var bus := w - 0x1000;
    assert bus / 512 >= 1;
    assert (bus / 512 + 7) % 8 == bus / 512 - 1;
  }

  // Invariant -----------------------------------------------------------------------------------------

  const SHARED_FLAGS: A.Flags := A.Flags(false, false, true, false, true)

  predicate StoreInv(x: A.State) {
    && (A.FromSaved(x) ==> x.buff.IsStore())
    && (x.buff.IsStore() ==> Control.InShared(x.buffAddr) && A.UpperHalf(x.buffAddr) == x.buff.Store1?)
  }

  predicate LoadInv(x: A.State) {
    x.buff.IsLoad() ==>
      && Control.InShared(x.buffAddr) && A.UpperHalf(x.buffAddr) == x.buff.Load1?
      && x.flags == SHARED_FLAGS && (x.reg.useSaved || x.phase == A.Reading)
  }

  /** Between the two clocks of an atomic operation its pins stay, the word it read is still on
      the data output, and if it is in shared memory the host has the next priority. */
  predicate DataInv(s: System) {
    s.data.phase == D.ModifyWrite ==>
      && s.core.writeEn && s.core.atomic && !s.core.BadAddress() && !s.data.reg.useSaved
      && s.data.size == s.core.size && s.data.sel == s.core.Sel()
      && (s.core.Shared() <==> s.readShared) && (s.core.Shared() ==> s.prio)
  }

  /** Holds whatever the host does. */
  predicate Inv(s: System) { StoreInv(s.axi) && DataInv(s) }

  /** The host raises no new transfer while an accepted one waits behind a kept store. */
  predicate Polite(s: System, e: Env) {
    A.FromSaved(s.axi) ==> !e.host.ReadReq() && !e.host.WriteReq()
  }

  lemma StoreInvStep(x: A.State, h: A.Pins, granted: bool, douta: Lanes)
    requires StoreInv(x)
    ensures StoreInv(A.Next(x, h, granted, douta))
  {
    hide A.Waits, A.IsAccess, A.IsInst, A.IsUnshared, A.NowFlags, NextDelayed, A.Wdata, A.SameAddr;
  }

  lemma LoadInvStep(x: A.State, h: A.Pins, granted: bool, douta: Lanes)
    requires StoreInv(x) && LoadInv(x) && (A.FromSaved(x) ==> !h.ReadReq() && !h.WriteReq())
    ensures LoadInv(A.Next(x, h, granted, douta))
  {
  }

  lemma DataInvStep(s: System, e: Env)
    requires DataInv(s)
    ensures DataInv(Step(s, e))
  {
    hide A.Next, NextWords, NextDout, A.ArbRequest, SharedPort, UnsharedPort, AxiDout, AxiGranted, D.AluOutput;
  }

  lemma InvStep(s: System, e: Env)
    requires Inv(s)
    ensures Inv(Step(s, e))
  {
    StoreInvStep(s.axi, e.host, AxiGranted(s, e), AxiDout(s, e));
    DataInvStep(s, e);
    hide A.Next, StoreInv, DataInv;
  }

  lemma {:induction false} InvOverRun(s: System, env: seq<Env>)
    requires Inv(s)
    ensures Inv(Run(s, env))
    decreases |env|
  {
    hide Step, Inv;
    if env != [] {
      InvStep(s, env[0]);
      InvOverRun(Step(s, env[0]), env[1..]);
    }
  }

  // One port, two masters ---------------------------------------------------------------------------------

  /** A host access to the shared RAM has been granted by the shared-memory arbiter. */
  lemma HostAccessIsGranted(x: A.State, h: A.Pins, arb: bool, map_: bool, coreRuns: bool)
    requires StoreInv(x) && (map_ ==> A.MapRequest(x, h))
    requires A.MemEn(x, h, arb || map_, coreRuns) && A.SelectsShared(x, h, arb || map_, coreRuns)
    ensures A.ArbRequest(x, h) && arb
    ensures Control.InShared(A.PortAddr(x, h))
  {
  }

  lemma CoreAccessIsGranted(s: System, e: Env)
    requires Inv(s) && CoreOnShared(s, e)
    ensures CoreGranted(s, e) || D.BusFrame(s.data, s.core)
    ensures Control.InShared(s.core.addr)
  {
  }

  /** Mutual exclusion.  Whatever host and core do, they are never on the shared RAM in the same
      clock, and every access, from either side, is within the RAM. */
  lemma NeverBothOnShared(s0: System, before: seq<Env>, e: Env)
    requires Initial(s0)
    ensures var s := Run(s0, before);
            && !(HostOnShared(s, e) && CoreOnShared(s, e))
            && SharedPort(s, e).Fits(SHARED_DEPTH)
            && (HostOnShared(s, e) ==> HostGranted(s, e))
            && (CoreOnShared(s, e) ==> !HostGranted(s, e))
  {
    InvOverRun(s0, before);
    ExclusiveIn(Run(s0, before), e);
    hide Run, HostOnShared, CoreOnShared, SharedPort, HostGranted, CoreGranted;
  }

  lemma ExclusiveIn(s: System, e: Env)
    requires Inv(s)
    ensures !(HostOnShared(s, e) && CoreOnShared(s, e))
    ensures SharedPort(s, e).Fits(SHARED_DEPTH)
    ensures HostOnShared(s, e) ==> HostGranted(s, e) && Control.InShared(A.PortAddr(s.axi, e.host))
    ensures CoreOnShared(s, e) ==> !HostGranted(s, e) && Control.InShared(s.core.addr)
  {
    if HostOnShared(s, e) {
      HostAccessIsGranted(s.axi, e.host, HostGranted(s, e), A.MapRequest(s.axi, e.host) && e.mapFree, e.coreRuns);
      SharedIndexIs(A.PortAddr(s.axi, e.host));
    }
    if CoreOnShared(s, e) {
      CoreAccessIsGranted(s, e);
      SharedIndexIs(s.core.addr);
    }
    hide A.MemEn, A.SelectsShared, D.Enabled, A.PortAddr, SharedIndex, CoreBus, HostBus, Inv, A.ArbRequest, AxiGranted;
    hide D.WriteEnables, D.WriteData, A.Din, A.Wea, DataDout;
  }

  // Waiting -----------------------------------------------------------------------------------------------

  /** A core request that is up waits at most one clock. */
  lemma CoreWaitsAtMostOneClock(s: System, e1: Env, e2: Env)
    requires Inv(s) && D.Request(s.data, s.core) && !CoreGranted(s, e1)
    ensures var s1 := Step(s, e1);
            D.Request(s1.data, s1.core) && CoreGranted(s1, e2) && s1.core == s.core
  {
    hide A.Next, NextWords, NextDout, A.ArbRequest, SharedPort, UnsharedPort, AxiDout, AxiGranted, DataDout, StoreInv;
  }

  /** A host request for the shared memory that is up and kept up waits at most two clocks: one
      for an access of the core, two if that access is atomic. */
  lemma HostWaitsAtMostTwoClocks(s: System, e1: Env, e2: Env, e3: Env)
    requires Inv(s) && A.ArbRequest(s.axi, e1.host) && e2.host == e3.host == e1.host
    requires !A.MapRequest(s.axi, e1.host)
    requires !HostGranted(s, e1) && !HostGranted(Step(s, e1), e2)
    ensures var s2 := Step(Step(s, e1), e2);
            A.ArbRequest(s2.axi, e3.host) && HostGranted(s2, e3)
  {
    var s1 := Step(s, e1);
    var s2 := Step(s1, e2);
    InvStep(s, e1);
    InvStep(s1, e2);
    RequestStays(s, e1);
    RequestStays(s1, e2);
    PrioAfterRefusal(s, e1);
    PrioAfterRefusal(s1, e2);
    hide Step, StoreInv, A.ArbRequest, A.MapRequest;
  }

  lemma RequestStays(s: System, e: Env)
    requires A.ArbRequest(s.axi, e.host) && !A.MapRequest(s.axi, e.host) && !HostGranted(s, e)
    ensures var s1 := Step(s, e);
            && s1.axi.phase == s.axi.phase && s1.axi.buff == s.axi.buff && s1.axi.buffAddr == s.axi.buffAddr
            && s1.axi.svAddr == s.axi.svAddr && s1.axi.svData == s.axi.svData && s1.axi.svStrb == s.axi.svStrb
            && A.ArbRequest(s1.axi, e.host) && !A.MapRequest(s1.axi, e.host)
  {
    hide D.Next, NextWords, NextDout, SharedPort, UnsharedPort, AxiDout, CoreReady, CoreEnabled;
  }

  /** After a refused clock the host has the priority, and the frame is up in the next one only
      if it was not up in this one. */
  lemma PrioAfterRefusal(s: System, e: Env)
    requires Inv(s) && A.ArbRequest(s.axi, e.host) && !HostGranted(s, e)
    ensures var s1 := Step(s, e);
            && s1.prio
            && (D.BusFrame(s.data, s.core) ==> s1.data.phase != D.ModifyWrite)
            && (!D.BusFrame(s.data, s.core) && D.BusFrame(s1.data, s1.core) ==> CoreGranted(s, e))
  {
    hide A.Next, NextWords, NextDout, A.ArbRequest, SharedPort, UnsharedPort, AxiDout, AxiGranted, DataDout, StoreInv;
  }

  // Atomic operations ----------------------------------------------------------------------------------------

  /** A shared atomic operation has just been granted its read clock. */
  predicate AtomicStarts(s: System, e: Env) {
    && s.data.phase == D.Init && s.core.writeEn && s.core.atomic && Control.InShared(s.core.addr)
    && CoreGranted(s, e)
  }

  lemma AtomicReadClock(s: System, e: Env)
    requires Inv(s) && AtomicStarts(s, e)
    ensures var s1 := Step(s, e);
            && s1.core == s.core && s1.data.phase == D.ModifyWrite && s1.readShared && !s1.data.reg.useSaved
            && s1.data.size == s.core.size && s1.data.sel == s.core.Sel()
            && s1.shared == s.shared && s1.sharedDout == s.shared[WordIndex(s.core.addr)]
            && !CoreReady(s, e) && !HostOnShared(s, e)
  {
    ExclusiveIn(s, e);
    SharedIndexIs(s.core.addr);
    var at := s.shared[WordIndex(s.core.addr)];
    assert MergeLanes(at, CoreDin(s), NO_LANES) == at;
    hide A.Next, A.ArbRequest, UnsharedPort, AxiDout, AxiGranted, DataDout, StoreInv, DataInv, HostOnShared, SharedIndex, CoreBus, HostBus;
    hide MergeLanes, D.WriteData;
  }

  /** In the write clock the host is refused and the port carries the atomic unit's output. */
  lemma AtomicWritePort(s: System, e: Env)
    requires Inv(s) && s.data.phase == D.ModifyWrite && Control.InShared(s.core.addr)
    ensures !HostOnShared(s, e) && !HostGranted(s, e)
    ensures var writes := s.core.IsCmpxchg() ==> D.DoXchg(s.core, WordOf(s.sharedDout));
            SharedPort(s, e) == Port(writes, WordIndex(s.core.addr), LanesOf(D.AluOutput(s.core, WordOf(s.sharedDout))),
                                     if writes then Enables(s.core.size, s.core.Sel()) else NO_LANES)
  {
    assert D.BusFrame(s.data, s.core) && s.readShared && !s.data.reg.useSaved;
    assert !HostGranted(s, e);
    ExclusiveIn(s, e);
    SharedIndexIs(s.core.addr);
    D.WriteClockPort(s.data, s.core, CoreGranted(s, e), s.sharedDout);
    hide D.DoXchg, D.AluOutput, HostOnShared, HostGranted, CoreGranted, SharedIndex, CoreBus, HostBus, LanesOf, Enables, WordOf;
    hide D.Enabled, D.WriteEnables, D.WriteData, Inv;
  }

  lemma AtomicWriteWord(s: System, e: Env)
    requires Inv(s) && s.data.phase == D.ModifyWrite && Control.InShared(s.core.addr)
    requires s.shared[WordIndex(s.core.addr)] == s.sharedDout
    ensures Step(s, e).shared == s.shared[WordIndex(s.core.addr) := D.WordAfter(s.core, s.sharedDout)]
  {
    AtomicWritePort(s, e);
    var k := WordIndex(s.core.addr);
    assert s.shared[k := s.shared[k]] == s.shared;
    assert Step(s, e).shared == NextWords(s.shared, SharedPort(s, e));
    hide SharedPort, Step, WordIndex, Inv, MergeLanes, D.DoXchg, D.AluOutput, HostOnShared, HostGranted, LanesOf, Enables, WordOf;
  }

  lemma AtomicWriteRegisters(s: System, e: Env)
    requires Inv(s) && s.data.phase == D.ModifyWrite && Control.InShared(s.core.addr)
    ensures var s1 := Step(s, e);
            && s1.core == e.nextCore && s1.data.phase == D.Init && CoreReady(s, e)
            && s1.data.size == s.data.size && s1.data.sel == s.data.sel
            && Output(s1.data.reg, DataDout(s1)) == s.sharedDout
  {
    hide A.Next, UnsharedPort, AxiDout, StoreInv, SharedPort, CoreEnabled, CoreGranted, Requests, NextWords, NextDout;
  }

  /** Indivisible atomics.  From the clock in which a shared atomic operation is granted, for
      every host behaviour in that clock and the next: no host access to the shared RAM happens
      in either, the two clocks together replace exactly the addressed word by the operation's
      result on the word as it was, the core is made to wait exactly one clock, and what it then
      reads is the old word. */
  lemma AtomicIsIndivisible(s: System, e1: Env, e2: Env)
    requires Inv(s) && AtomicStarts(s, e1)
    ensures var s1, k := Step(s, e1), WordIndex(s.core.addr);
            var s2 := Step(s1, e2);
            && s2.shared == s.shared[k := D.WordAfter(s.core, s.shared[k])]
            && !HostOnShared(s, e1) && !HostOnShared(s1, e2)
            && !CoreReady(s, e1) && CoreReady(s1, e2) && s1.core == s.core
            && D.ReadData(s2.data, DataDout(s2)) == SelectLanes(s.core.size, s.core.Sel(), s.shared[k])
  {
    AtomicReadClock(s, e1);
    InvStep(s, e1);
    AtomicWriteWord(Step(s, e1), e2);
    AtomicWritePort(Step(s, e1), e2);
    AtomicWriteRegisters(Step(s, e1), e2);
    hide *;
    assert D.WordAfter(s.core, s.shared[WordIndex(s.core.addr)]) == D.WordAfter(s.core, Step(s, e1).sharedDout);
    assert s.shared[WordIndex(s.core.addr) := s.shared[WordIndex(s.core.addr)]] == s.shared;
  }

  // Loads of the core ------------------------------------------------------------------------------------------

  /** The RAM word a valid data address names. */
  function WordAt(s: System, a: Word): Lanes
    requires Control.ValidAddress(a)
  {
    if Control.InShared(a) then s.shared[WordIndex(a)]
    else
      PlaceIs(a);
      s.unshared[a / 8 - 0x1000]
  }

  predicate CoreReads(s: System, e: Env) { D.DoRead(s.data, s.core, CoreGranted(s, e)) }

  predicate NoCoreRead(s: System, env: seq<Env>)
    decreases |env|
  {
    env == [] || (!CoreReads(s, env[0]) && NoCoreRead(Step(s, env[0]), env[1..]))
  }

  /** The core only ever enables a RAM for a valid address. */
  lemma EnabledIsValid(s: System, e: Env)
    requires Inv(s) && CoreEnabled(s, e)
    ensures Control.ValidAddress(s.core.addr)
    ensures s.core.Shared() <==> Control.InShared(s.core.addr)
  {
    hide D.DoXchg, D.Waits, Control.ValidAddress, Control.InShared;
    SharedByAddress(s.core.addr);
  }

  lemma SharedByAddress(a: Word)
    ensures Control.ValidAddress(a) ==> a < TWO_16 && a % TWO_16 == a
  {
  }

  lemma RunningCoreOwnsUnshared(s: System, e: Env)
    requires e.coreRuns
    ensures !HostOnUnshared(s, e)
  {
    hide A.BuffAction, A.DoRead, A.DoWrite, A.IsAccess;
  }

  lemma ReadClock(s: System, e: Env)
    requires Inv(s) && CoreReads(s, e) && e.coreRuns
    ensures Control.ValidAddress(s.core.addr)
    ensures var s1 := Step(s, e);
            && Output(s1.data.reg, DataDout(s1)) == WordAt(s, s.core.addr)
            && s1.data.size == s.core.size && s1.data.sel == s.core.Sel()
  {
    EnabledIsValid(s, e);
    RunningCoreOwnsUnshared(s, e);
    ExclusiveIn(s, e);
    PlaceIs(s.core.addr);
    if Control.InShared(s.core.addr) {
      SharedIndexIs(s.core.addr);
    }
    assert CoreEnabled(s, e);
    assert !Step(s, e).data.reg.useSaved;
    ReadDouts(s, e);
    hide A.Next, Inv, HostOnShared, HostOnUnshared, SharedPort, UnsharedPort, HostBus, AxiDout, D.WritesMemory, NextDout, NextWords;
    hide Requests, CoreGranted, D.NextPhase, Control.ValidAddress;
  }

  lemma ReadDouts(s: System, e: Env)
    requires CoreEnabled(s, e) && !HostOnUnshared(s, e) && Control.ValidAddress(s.core.addr)
    requires CoreOnShared(s, e) ==> !HostOnShared(s, e)
    requires s.core.Shared() <==> Control.InShared(s.core.addr)
    ensures (if Control.InShared(s.core.addr) then NextDout(s.shared, SharedPort(s, e)) else NextDout(s.unshared, UnsharedPort(s, e)))
            == WordAt(s, s.core.addr)
  {
    PlaceIs(s.core.addr);
    if Control.InShared(s.core.addr) {
      SharedIndexIs(s.core.addr);
    }
    hide CoreEnabled, HostOnShared, HostOnUnshared, SharedIndex, HostBus, CoreDin, CoreWea;
  }

  lemma {:induction false} OutputIsHeld(s: System, env: seq<Env>)
    requires NoCoreRead(s, env)
    ensures var r := Run(s, env);
            && Output(r.data.reg, DataDout(r)) == Output(s.data.reg, DataDout(s))
            && r.data.size == s.data.size && r.data.sel == s.data.sel
    decreases |env|
  {
    if env != [] {
      OutputHeldOnce(s, env[0]);
      hide Step, CoreReads, DataDout, Output;
      OutputIsHeld(Step(s, env[0]), env[1..]);
    }
  }

  lemma OutputHeldOnce(s: System, e: Env)
    requires !CoreReads(s, e)
    ensures var r := Step(s, e);
            && Output(r.data.reg, DataDout(r)) == Output(s.data.reg, DataDout(s))
            && r.data.size == s.data.size && r.data.sel == s.data.sel
  {
    hide A.Next, NextWords, NextDout, SharedPort, UnsharedPort, AxiDout, AxiGranted, CoreGranted, CoreEnabled, CoreReady;
  }

  /** What a running core reads: from the clock after the read until its next one, for every use
      that the core's own stores and the host make of both RAMs in between, the data output is
      the selected part of the word that was in RAM when the read was carried out. */
  lemma CoreReadIsHeld(s: System, e: Env, after: seq<Env>)
    requires Inv(s) && CoreReads(s, e) && e.coreRuns && NoCoreRead(Step(s, e), after)
    ensures Control.ValidAddress(s.core.addr)
    ensures var r := Run(Step(s, e), after);
            D.ReadData(r.data, DataDout(r)) == SelectLanes(s.core.size, s.core.Sel(), WordAt(s, s.core.addr))
  {
    ReadClock(s, e);
    OutputIsHeld(Step(s, e), after);
    hide Step, Inv, CoreReads, NoCoreRead, DataDout, Output, WordAt, SelectLanes, Run;
  }

  // The memory the pipeline sees -------------------------------------------------------------------------------

  /** The two RAMs hold the word-organised memory over the whole data address space. */
  ghost predicate Represents(s: System, ram: Ram) {
    forall a: Addr16 :: Control.ValidAddress(a) ==> ram[a / 8] == WordAt(s, a)
  }

  lemma PortsAgainstQuietHost(s: System, e: Env)
    requires Inv(s) && e.coreRuns && !HostOnShared(s, e)
    ensures SharedPort(s, e) == Port(CoreOnShared(s, e), SharedIndex(CoreBus(s.core.addr)), CoreDin(s), CoreWea(s, e))
    ensures UnsharedPort(s, e) == Port(CoreOnUnshared(s, e), UnsharedIndex(CoreBus(s.core.addr)), CoreDin(s), CoreWea(s, e))
  {
    RunningCoreOwnsUnshared(s, e);
    hide CoreOnShared, CoreOnUnshared, SharedIndex, UnsharedIndex, CoreBus, CoreDin, CoreWea, HostOnShared, HostOnUnshared;
  }

  /** What one clock without a host access does to the word at an address. */
  lemma WordAfterClock(s: System, e: Env, a: Addr16)
    requires Inv(s) && e.coreRuns && !HostOnShared(s, e) && Control.ValidAddress(a)
    ensures WordAt(Step(s, e), a)
            == if CoreEnabled(s, e) && s.core.addr / 8 == a / 8 then MergeLanes(WordAt(s, a), CoreDin(s), CoreWea(s, e))
               else WordAt(s, a)
  {
    PortsAgainstQuietHost(s, e);
    PlaceIs(a);
    if CoreEnabled(s, e) {
      EnabledIsValid(s, e);
      PlaceIs(s.core.addr);
      if Control.InShared(s.core.addr) {
        SharedIndexIs(s.core.addr);
      }
    }
    hide SharedPort, UnsharedPort, A.Next, D.Next, CoreEnabled, CoreDin, CoreWea, MergeLanes, SharedIndex, CoreBus, HostBus;
    hide AxiDout, AxiGranted, CoreReady, NextDout, Requests, HostOnShared, Inv, Arbiter.NextPrio;
  }

  /** Against a quiet host, the memory port of the pipeline model and the data interface with its
      two RAMs agree: a plain store, when it is done, is that model's store; every other clock
      that is not the write of an atomic operation leaves the memory; and a load reads the same
      value. */
  lemma PortRefinesPipelineMemory(s: System, e: Env, ram: Ram)
    requires Inv(s) && Represents(s, ram) && e.coreRuns && !HostOnShared(s, e) && s.data.phase != D.ModifyWrite
    ensures D.DoWrite(s.data, s.core, CoreGranted(s, e)) ==>
              && Control.ValidAddress(s.core.addr)
              && Represents(Step(s, e), RamStore(ram, s.core.addr, s.core.size, s.core.input))
    ensures !D.DoWrite(s.data, s.core, CoreGranted(s, e)) ==> Represents(Step(s, e), ram)
    ensures CoreReads(s, e) ==>
              && Control.ValidAddress(s.core.addr)
              && WordOf(D.ReadData(Step(s, e).data, DataDout(Step(s, e)))) == RamLoad(ram, s.core.addr, s.core.size)
  {
    if CoreReads(s, e) {
      ReadClock(s, e);
    }
    var stores := D.DoWrite(s.data, s.core, CoreGranted(s, e));
    assert stores ==> Control.ValidAddress(s.core.addr);
    var after: Ram := if stores then RamStore(ram, s.core.addr, s.core.size, s.core.input) else ram;
    forall a: Addr16 | Control.ValidAddress(a)
      ensures after[a / 8] == WordAt(Step(s, e), a)
    {
      StoredWord(s, e, ram, a);
    }
    hide Step, Inv, WordAt, HostOnShared, RamStore;
  }

  lemma StoredWord(s: System, e: Env, ram: Ram, a: Addr16)
    requires Inv(s) && Represents(s, ram) && e.coreRuns && !HostOnShared(s, e) && s.data.phase != D.ModifyWrite
    requires Control.ValidAddress(a)
    ensures D.DoWrite(s.data, s.core, CoreGranted(s, e)) ==>
              && Control.ValidAddress(s.core.addr)
              && RamStore(ram, s.core.addr, s.core.size, s.core.input)[a / 8] == WordAt(Step(s, e), a)
    ensures !D.DoWrite(s.data, s.core, CoreGranted(s, e)) ==> ram[a / 8] == WordAt(Step(s, e), a)
  {
    WordAfterClock(s, e, a);
    assert ram[a / 8] == WordAt(s, a);
    var w := WordAt(s, a);
    assert MergeLanes(w, CoreDin(s), NO_LANES) == w;
    hide Step, Inv, WordAt, HostOnShared, MergeLanes, StoreLanes, Enables, LanesOf, CoreGranted, DataDout;
  }
}
