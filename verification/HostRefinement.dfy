/** The host side refines the store buffer: over every run, with the core's accesses in between,
    the controller, the arbiter and the RAM behave as the atomic steps of `StoreBuffer`. */
module HostRefinement {
  import opened ByteLanes
  import opened DelayedRegister
  import opened IoMem
  import opened StoreBuffer
  import Control
  import D = DataInterface
  import A = AxiController

  // What a clock of the controller stands for -----------------------------------------------------

  /** The transfer that is carried out in this clock, if any. */
  function HostEvent(s: System, e: Env): Event {
    var x, h, g := s.axi, e.host, AxiGranted(s, e);
    if A.FlushesFirst(x, h, g) then Drain
    else if !A.Update(x, h, g) then Nothing
    else if A.FlushAddr(x, h) then Drain
    else if A.IsShared(x, h) then
      var a := A.Addr(x, h);
      var combine := x.phase == A.Init && A.Wstrb(x, h) == A.FULL;
      if A.DoRead(x, h, g) then HostLoad(WordIndex(a), A.UpperHalf(a), combine)
      else HostStore(WordIndex(a), A.UpperHalf(a), A.Wdata(x, h), A.Wstrb(x, h), combine)
    else Elsewhere
  }

  /** A transfer offered while a store is kept back addresses shared memory or is a write to the
      flush address. */
  predicate Safe(s: System, e: Env) {
    s.axi.phase == A.Init && s.axi.buff.IsStore() && (e.host.ReadReq() || e.host.WriteReq()) ==>
      Control.InShared(A.Addr(s.axi, e.host)) || A.FlushAddr(s.axi, e.host)
  }

  /** What the core's data interface writes to the shared RAM in this clock. */
  function CoreWrites(b: Buffer, s: System, e: Env): Buffer {
    b.(mem := NextWords(b.mem, Port(CoreOnShared(s, e), SharedIndex(CoreBus(s.core.addr)), CoreDin(s), CoreWea(s, e))))
  }

  // The refinement relation -------------------------------------------------------------------------

  function KeptStore(x: A.State): Pending
    requires StoreInv(x)
  {
    if x.buff.IsStore() && !A.FromSaved(x) then Kept(WordIndex(x.buffAddr), x.buff.Store1?, x.wrData) else NoStore
  }

  /** The word on the output of the read register. */
  function ReadWord(s: System): Lanes {
    Output(s.axi.reg, s.sharedDout)
  }

  function TakenLoad(s: System): Snapshot
    requires LoadInv(s.axi)
  {
    if s.axi.buff.IsLoad() then Taken(WordIndex(s.axi.buffAddr), s.axi.buff.Load1?, ReadWord(s)) else NoLoad
  }

  /** A shared read being answered. */
  predicate ReadInv(x: A.State) {
    x.phase == A.Reading && x.flags.shared ==> x.flags == SHARED_FLAGS
  }

  predicate HostInv(s: System) {
    && Inv(s) && LoadInv(s.axi) && ReadInv(s.axi)
    && (A.FromSaved(s.axi) ==> Control.InShared(s.axi.svAddr))
  }

  predicate Refines(s: System, b: Buffer)
    requires HostInv(s)
  {
    && b.mem == s.shared
    && b.pending == KeptStore(s.axi)
    && b.snapshot == TakenLoad(s)
    && (s.axi.phase == A.Reading && s.axi.flags.shared ==> b.answer == A.Half(ReadWord(s), A.UpperHalf(s.axi.buffAddr)))
  }

  lemma HostInvStep(s: System, e: Env)
    requires HostInv(s) && Polite(s, e) && Safe(s, e)
    ensures HostInv(IoMem.Step(s, e))
  {
    InvStep(s, e);
    LoadInvStep(s.axi, e.host, AxiGranted(s, e), AxiDout(s, e));
    SavedStep(s, e);
    ReadStep(s.axi, e.host, AxiGranted(s, e), AxiDout(s, e));
    hide Inv, LoadInv, ReadInv, A.Next;
  }

  lemma ReadStep(x: A.State, h: A.Pins, granted: bool, douta: Lanes)
    requires StoreInv(x) && ReadInv(x) && (A.FromSaved(x) ==> !h.ReadReq() && !h.WriteReq())
    ensures ReadInv(A.Next(x, h, granted, douta))
  {
  }

  lemma SavedStep(s: System, e: Env)
    requires HostInv(s) && Polite(s, e) && Safe(s, e)
    ensures A.FromSaved(IoMem.Step(s, e).axi) ==> Control.InShared(IoMem.Step(s, e).axi.svAddr)
  {
    hide A.BuffAction, Inv, LoadInv, AxiGranted, AxiDout, Control.InShared;
  }

  // What the host port does, event by event ------------------------------------------------------------

  /** Clocks in which the host leaves the shared RAM alone. */
  lemma HostIsOff(s: System, e: Env)
    requires HostInv(s) && Polite(s, e) && Safe(s, e)
    requires var ev := HostEvent(s, e);
             || ev.Nothing? || ev.Elsewhere? || (ev.Drain? && !s.axi.buff.IsStore())
             || (ev.HostLoad? && A.NoRealAccess(s.axi, e.host))
             || (ev.HostStore? && ev.combine && !s.axi.buff.IsStore())
    ensures !HostOnShared(s, e)
  {
    hide AxiGranted;
  }

  /** Clocks in which the host has the shared RAM: index, data and lanes on the port. */
  lemma HostIsOn(s: System, e: Env)
    requires HostInv(s) && Polite(s, e) && Safe(s, e)
    requires var ev := HostEvent(s, e);
             || (ev.Drain? && s.axi.buff.IsStore())
             || (ev.HostLoad? && !A.NoRealAccess(s.axi, e.host))
             || (ev.HostStore? && !(ev.combine && !s.axi.buff.IsStore()))
    ensures HostOnShared(s, e)
  {
    hide AxiGranted;
  }

  /** Write enables of one half of the word, and of both. */
  lemma MergedHalves(word: Lanes, low: A.Quad, high: A.Quad, strb: A.Strobe)
    ensures MergeLanes(word, low + high, A.NONE + strb) == StoreHalf(word, true, high, strb)
    ensures MergeLanes(word, low + high, strb + A.NONE) == StoreHalf(word, false, low, strb)
    ensures MergeLanes(word, low + high, A.FULL + A.FULL) == low + high
    ensures MergeLanes(word, low + high, NO_LANES) == word
  {
  }

  /** A kept store is written out to its own half of its own word. */
  lemma DrainWrites(s: System, e: Env)
    requires HostInv(s) && Polite(s, e) && Safe(s, e) && HostEvent(s, e).Drain? && s.axi.buff.IsStore()
    ensures var k := WordIndex(s.axi.buffAddr);
            IoMem.Step(s, e).shared == s.shared[k := SetHalf(s.shared[k], s.axi.buff.Store1?, s.axi.wrData)]
  {
    HostIsOn(s, e);
    SharedIndexIs(s.axi.buffAddr);
    var word, w, d := s.shared[WordIndex(s.axi.buffAddr)], s.axi.wrData, A.Wdata(s.axi, e.host);
    MergedHalves(word, w, d, A.FULL);
    MergedHalves(word, d, w, A.FULL);
    FullStrobe(word, true, w);
    FullStrobe(word, false, w);
    assert A.FromBuffer(s.axi, e.host) && A.DoWrite(s.axi, e.host, AxiGranted(s, e));
    hide HostOnShared, AxiGranted, SharedIndex, HostBus, MergeLanes, StoreHalf, SetHalf, HostEvent, Safe, A.DoWrite, A.Next, D.Next;
    hide A.FromBuffer, Inv, LoadInv, AxiDout, Requests, CoreReady, NextDout, UnsharedPort;
  }

  /** A load that is not answered from the snapshot reads its word and writes nothing. */
  lemma LoadReads(s: System, e: Env)
    requires HostInv(s) && Polite(s, e) && Safe(s, e) && HostEvent(s, e).HostLoad? && !A.NoRealAccess(s.axi, e.host)
    ensures IoMem.Step(s, e).shared == s.shared
    ensures IoMem.Step(s, e).sharedDout == s.shared[HostEvent(s, e).index]
  {
    HostIsOn(s, e);
    var a := A.Addr(s.axi, e.host);
    SharedIndexIs(a);
    var word := s.shared[WordIndex(a)];
    assert forall low: A.Quad, high: A.Quad {:trigger low + high} :: MergeLanes(word, low + high, NO_LANES) == word;
    assert !A.FromBuffer(s.axi, e.host) && !A.DoWrite(s.axi, e.host, AxiGranted(s, e));
    assert HostEvent(s, e).index == WordIndex(a);
    assert s.shared[WordIndex(a) := word] == s.shared;
    hide HostOnShared, AxiGranted, SharedIndex, HostBus, MergeLanes, HostEvent, Safe, A.DoWrite, A.Next, D.Next;
    hide A.FromBuffer, Inv, LoadInv, AxiDout, Requests, CoreReady, UnsharedPort;
  }

  /** A store that goes to memory writes its strobed bytes, or both halves when it completes the
      kept one. */
  lemma StoreWrites(s: System, e: Env)
    requires HostInv(s) && Polite(s, e) && Safe(s, e) && HostEvent(s, e).HostStore?
    requires !(HostEvent(s, e).combine && !s.axi.buff.IsStore())
    ensures var ev := HostEvent(s, e);
            var word := s.shared[ev.index];
            IoMem.Step(s, e).shared
            == s.shared[ev.index := if !ev.combine then StoreHalf(word, ev.upper, ev.data, ev.strb)
                                    else if ev.upper then s.axi.wrData + ev.data else ev.data + s.axi.wrData]
  {
    HostIsOn(s, e);
    var a := A.Addr(s.axi, e.host);
    SharedIndexIs(a);
    var ev := HostEvent(s, e);
    var word, w := s.shared[WordIndex(a)], s.axi.wrData;
    MergedHalves(word, w, ev.data, ev.strb);
    MergedHalves(word, ev.data, w, ev.strb);
    assert !A.FromBuffer(s.axi, e.host) && A.DoWrite(s.axi, e.host, AxiGranted(s, e));
    assert A.BuffAction(s.axi, e.host, AxiGranted(s, e)).write64 == ev.combine;
    assert ev == HostStore(WordIndex(a), A.UpperHalf(a), A.Wdata(s.axi, e.host), A.Wstrb(s.axi, e.host), ev.combine);
    assert ev.combine ==> ev.strb == A.FULL;
    hide HostOnShared, AxiGranted, SharedIndex, HostBus, MergeLanes, StoreHalf, HostEvent, Safe, A.DoWrite, A.Next, D.Next, A.BuffAction;
    hide A.FromBuffer, Inv, LoadInv, AxiDout, Requests, CoreReady, NextDout, UnsharedPort;
  }

  /** With the host off, the shared RAM sees the core alone. */
  lemma CoreAlone(s: System, e: Env, b: Buffer)
    requires !HostOnShared(s, e) && b.mem == s.shared
    ensures IoMem.Step(s, e).shared == CoreWrites(b, s, e).mem
  {
    hide HostOnShared, CoreOnShared, NextWords, A.Next, D.Next, AxiDout, NextDout, UnsharedPort;
  }

  /** With the host on, the core is off. */
  lemma CoreOff(s: System, e: Env, b: Buffer)
    requires HostInv(s) && HostOnShared(s, e)
    ensures CoreWrites(b, s, e) == b
  {
    ExclusiveIn(s, e);
    hide HostOnShared, CoreOnShared;
  }

  // What the controller's registers do, event by event ------------------------------------------------------

  /** No transfer is carried out: buffer, kept data and what the read register shows all stay. */
  lemma IdleRegisters(s: System, e: Env)
    requires HostInv(s) && HostEvent(s, e).Nothing?
    ensures var x, y := s.axi, IoMem.Step(s, e).axi;
            && y.buff == x.buff && y.buffAddr == x.buffAddr && y.wrData == x.wrData && y.flags == x.flags
            && A.FromSaved(y) == A.FromSaved(x) && (y.phase == A.Reading ==> x.phase == A.Reading)
    ensures s.axi.buff.IsLoad() || (s.axi.phase == A.Reading && s.axi.flags == SHARED_FLAGS) ==> ReadWord(IoMem.Step(s, e)) == ReadWord(s)
  {
    hide AxiGranted, Inv;
  }

  /** The kept store goes out and the transfer behind it is held. */
  lemma FlushRegisters(s: System, e: Env)
    requires HostInv(s) && A.FlushesFirst(s.axi, e.host, AxiGranted(s, e))
    ensures s.axi.buff.IsStore() && !A.FromSaved(s.axi)
    ensures var x, y := s.axi, IoMem.Step(s, e).axi;
            y.buff == x.buff && A.FromSaved(y) && y.phase != A.Reading
  {
    hide AxiGranted, Inv;
  }

  /** A write to the flush address empties the buffer. */
  lemma FlushAddrRegisters(s: System, e: Env)
    requires HostInv(s) && Polite(s, e)
    requires A.Update(s.axi, e.host, AxiGranted(s, e)) && A.FlushAddr(s.axi, e.host)
    ensures !A.FromSaved(s.axi) && !A.FlushesFirst(s.axi, e.host, AxiGranted(s, e))
    ensures var y := IoMem.Step(s, e).axi; y.buff == A.Empty && y.phase == A.Writing
  {
    hide AxiGranted, Inv;
  }

  /** A transfer elsewhere forgets the snapshot; with a safe host no store is kept. */
  lemma ElsewhereRegisters(s: System, e: Env)
    requires HostInv(s) && Polite(s, e) && Safe(s, e) && HostEvent(s, e).Elsewhere?
    ensures !s.axi.buff.IsStore()
    ensures var y := IoMem.Step(s, e).axi;
            && y.buff == A.Empty && !A.FromSaved(y) && (y.phase == A.Reading ==> !y.flags.shared)
  {
    hide AxiGranted, Inv;
  }

  /** A load leaves its address, and the word it took if it may be combined. */
  lemma LoadRegisters(s: System, e: Env)
    requires HostInv(s) && Polite(s, e) && Safe(s, e) && HostEvent(s, e).HostLoad?
    ensures s.axi.buff.IsStore() ==> A.FromSaved(s.axi) && !HostEvent(s, e).combine
    ensures var x, y, ev := s.axi, IoMem.Step(s, e).axi, HostEvent(s, e);
            && y.phase == A.Reading && y.flags == SHARED_FLAGS
            && Control.InShared(y.buffAddr) && WordIndex(y.buffAddr) == ev.index && A.UpperHalf(y.buffAddr) == ev.upper
            && (A.NoRealAccess(x, e.host) ==> x.reg.useSaved && y.reg == x.reg && y.buff == A.Empty)
            && (!A.NoRealAccess(x, e.host) ==>
                  !y.reg.useSaved && y.buff == if ev.combine then (if ev.upper then A.Load1 else A.Load0) else A.Empty)
  {
    hide AxiGranted, Inv, AxiDout;
  }

  /** When is a load answered from the snapshot? */
  lemma LoadRepeats(s: System, e: Env)
    requires HostInv(s) && Polite(s, e) && HostEvent(s, e).HostLoad?
    ensures var ev := HostEvent(s, e);
            A.NoRealAccess(s.axi, e.host)
            <==> ev.combine && s.axi.buff.IsLoad() && WordIndex(s.axi.buffAddr) == ev.index && s.axi.buff.Load1? != ev.upper
    ensures A.NoRealAccess(s.axi, e.host) ==> s.axi.phase == A.Init
  {
    hide AxiGranted, Inv;
    var a, b := A.Addr(s.axi, e.host), s.axi.buffAddr;
    assert Control.InShared(a);
  }

  /** A store is kept, completes the kept one, or goes to memory. */
  lemma StoreRegisters(s: System, e: Env)
    requires HostInv(s) && Polite(s, e) && Safe(s, e) && HostEvent(s, e).HostStore?
    ensures var x, y, ev := s.axi, IoMem.Step(s, e).axi, HostEvent(s, e);
            && y.phase == A.Writing && (ev.combine ==> ev.strb == A.FULL)
            && (x.buff.IsStore() && !A.FromSaved(x) ==>
                  ev.combine && WordIndex(x.buffAddr) == ev.index && x.buff.Store1? != ev.upper && y.buff == A.Empty)
            && (x.buff.IsStore() && A.FromSaved(x) ==> !ev.combine && y.buff == A.Empty)
            && (!x.buff.IsStore() && ev.combine ==>
                  y.buff == (if ev.upper then A.Store1 else A.Store0)
                  && Control.InShared(y.buffAddr) && WordIndex(y.buffAddr) == ev.index && y.wrData == ev.data)
            && (!x.buff.IsStore() && !ev.combine ==> y.buff == A.Empty)
  {
    hide AxiGranted, Inv;
  }

  // One clock --------------------------------------------------------------------------------------------------

  predicate Proper(s: System, e: Env) {
    HostInv(s) && Polite(s, e) && Safe(s, e)
  }

  /** The buffer after the core's write and the host's event of one clock. */
  function NextBuffer(b: Buffer, s: System, e: Env): Buffer {
    Next(CoreWrites(b, s, e), HostEvent(s, e))
  }

  /** The core's writes leave the buffer's own registers. */
  lemma CoreWritesMemory(b: Buffer, s: System, e: Env)
    ensures CoreWrites(b, s, e) == b.(mem := CoreWrites(b, s, e).mem)
  {
  }

  lemma IdleRefines(s: System, e: Env, b: Buffer)
    requires Proper(s, e) && Refines(s, b) && HostEvent(s, e).Nothing?
    ensures Enabled(b, HostEvent(s, e)) && HostInv(IoMem.Step(s, e)) && Refines(IoMem.Step(s, e), NextBuffer(b, s, e))
  {
    HostInvStep(s, e);
    IdleRegisters(s, e);
    HostIsOff(s, e);
    CoreAlone(s, e, b);
    hide IoMem.Step, HostEvent, Polite, Safe, Inv, ReadWord, SharedIndex, CoreBus, NextWords, CoreOnShared;
  }

  lemma DrainRefines(s: System, e: Env, b: Buffer)
    requires Proper(s, e) && Refines(s, b) && HostEvent(s, e).Drain?
    ensures Enabled(b, HostEvent(s, e)) && HostInv(IoMem.Step(s, e)) && Refines(IoMem.Step(s, e), NextBuffer(b, s, e))
  {
    HostInvStep(s, e);
    if A.FlushesFirst(s.axi, e.host, AxiGranted(s, e)) {
      FlushRegisters(s, e);
    } else {
      FlushAddrRegisters(s, e);
    }
    if s.axi.buff.IsStore() {
      HostIsOn(s, e);
      CoreOff(s, e, b);
      DrainWrites(s, e);
    } else {
      HostIsOff(s, e);
      CoreAlone(s, e, b);
    }
    hide IoMem.Step, HostEvent, Polite, Safe, Inv, ReadWord, SharedIndex, CoreBus, NextWords, CoreOnShared, HostOnShared, SetHalf;
    CoreWritesMemory(b, s, e);
    hide A.FlushesFirst, CoreWrites;
  }

  lemma ElsewhereRefines(s: System, e: Env, b: Buffer)
    requires Proper(s, e) && Refines(s, b) && HostEvent(s, e).Elsewhere?
    ensures Enabled(b, HostEvent(s, e)) && HostInv(IoMem.Step(s, e)) && Refines(IoMem.Step(s, e), NextBuffer(b, s, e))
  {
    HostInvStep(s, e);
    ElsewhereRegisters(s, e);
    HostIsOff(s, e);
    CoreAlone(s, e, b);
    CoreWritesMemory(b, s, e);
    hide IoMem.Step, HostEvent, Polite, Safe, Inv, ReadWord, CoreWrites, HostOnShared;
  }

  lemma LoadRefines(s: System, e: Env, b: Buffer)
    requires Proper(s, e) && Refines(s, b) && HostEvent(s, e).HostLoad?
    ensures Enabled(b, HostEvent(s, e)) && HostInv(IoMem.Step(s, e)) && Refines(IoMem.Step(s, e), NextBuffer(b, s, e))
  {
    HostInvStep(s, e);
    LoadRegisters(s, e);
    LoadRepeats(s, e);
    CoreWritesMemory(b, s, e);
    if A.NoRealAccess(s.axi, e.host) {
      HostIsOff(s, e);
      CoreAlone(s, e, b);
    } else {
      HostIsOn(s, e);
      CoreOff(s, e, b);
      LoadReads(s, e);
    }
    hide IoMem.Step, HostEvent, Polite, Safe, Inv, CoreWrites, HostOnShared, A.NoRealAccess, A.Half, WordIndex;
  }

  lemma StoreRefines(s: System, e: Env, b: Buffer)
    requires Proper(s, e) && Refines(s, b) && HostEvent(s, e).HostStore?
    ensures Enabled(b, HostEvent(s, e)) && HostInv(IoMem.Step(s, e)) && Refines(IoMem.Step(s, e), NextBuffer(b, s, e))
  {
    HostInvStep(s, e);
    StoreRegisters(s, e);
    CoreWritesMemory(b, s, e);
    if HostEvent(s, e).combine && !s.axi.buff.IsStore() {
      HostIsOff(s, e);
      CoreAlone(s, e, b);
    } else {
      HostIsOn(s, e);
      CoreOff(s, e, b);
      StoreWrites(s, e);
    }
    hide IoMem.Step, HostEvent, Polite, Safe, Inv, CoreWrites, HostOnShared, StoreHalf, WordIndex, ReadWord;
  }

  /** One clock: whatever the core does, the system after the clock is the store buffer after the
      core's write and the host's event. */
  lemma ClockRefines(s: System, e: Env, b: Buffer)
    requires Proper(s, e) && Refines(s, b)
    ensures Enabled(b, HostEvent(s, e)) && HostInv(IoMem.Step(s, e)) && Refines(IoMem.Step(s, e), NextBuffer(b, s, e))
  {
    hide IoMem.Step, HostEvent, Proper, Refines, NextBuffer, HostInv;
    match HostEvent(s, e)
    case Nothing => IdleRefines(s, e, b);
    case Drain => DrainRefines(s, e, b);
    case Elsewhere => ElsewhereRefines(s, e, b);
    case HostLoad(_, _, _) => LoadRefines(s, e, b);
    case HostStore(_, _, _, _, _) => StoreRefines(s, e, b);
  }
}
