/** Whole runs of the shared-memory system: the host reads and writes a flat memory through the
    store buffer, two halves act as one 64-bit access, a kept store survives exactly the transfers
    that reach shared memory, and every transfer is served within six clocks. */
module HostRuns {
  import opened ByteLanes
  import opened DelayedRegister
  import opened IoMem
  import opened StoreBuffer
  import opened HostRefinement
  import Control
  import D = DataInterface
  import A = AxiController

  // Refinement over runs --------------------------------------------------------------------------

  predicate ProperRun(s: System, env: seq<Env>)
    decreases |env|
  {
    env == [] || (Polite(s, env[0]) && Safe(s, env[0]) && ProperRun(IoMem.Step(s, env[0]), env[1..]))
  }

  /** The store buffer after the core's writes and the host's events of a run. */
  function RunBuffer(b: Buffer, s: System, env: seq<Env>): Buffer
    decreases |env|
  {
    if env == [] then b else RunBuffer(NextBuffer(b, s, env[0]), IoMem.Step(s, env[0]), env[1..])
  }

  lemma {:induction false} RunRefines(s: System, b: Buffer, env: seq<Env>)
    requires HostInv(s) && Refines(s, b) && ProperRun(s, env)
    ensures HostInv(IoMem.Run(s, env)) && Refines(IoMem.Run(s, env), RunBuffer(b, s, env))
    decreases |env|
  {
    hide IoMem.Step, Polite, Safe, HostInv, Refines, NextBuffer;
    if env != [] {
      assert Proper(s, env[0]);
      ClockRefines(s, env[0], b);
      RunRefines(IoMem.Step(s, env[0]), NextBuffer(b, s, env[0]), env[1..]);
    }
  }

  /** Read data on the host's bus while a memory read is answered. */
  function HostRdata(s: System, e: Env): A.Quad {
    A.MemRdata(s.axi, AxiDout(s, e))
  }

  /** Host refinement.  From reset, for every sequence of host transfers made one at a time and,
      while a store is kept back, to shared memory or the flush address only, and for every
      interleaving of the core's loads, stores and atomic operations: RAM and buffers are the
      store buffer's, and a shared read is answered with its answer for as long as it is held. */
  lemma HostRefinesStoreBuffer(s0: System, env: seq<Env>, answer: A.Quad, e: Env)
    requires Initial(s0) && ProperRun(s0, env)
    ensures var s, b := IoMem.Run(s0, env), RunBuffer(Buffer(s0.shared, NoStore, NoLoad, answer), s0, env);
            && HostInv(s) && Refines(s, b) && s.shared == b.mem
            && (s.axi.phase == A.Reading && s.axi.flags.shared ==> s.axi.flags.access && HostRdata(s, e) == b.answer)
  {
    var b0 := Buffer(s0.shared, NoStore, NoLoad, answer);
    hide IoMem.Run, IoMem.Step, RunBuffer, ProperRun, ReadWord, HostRdata;
    assert HostInv(s0) && Refines(s0, b0);
    hide Initial, HostInv;
    RunRefines(s0, b0, env);
    var s := IoMem.Run(s0, env);
    if s.axi.phase == A.Reading && s.axi.flags.shared {
      ReadIsShown(s, e);
    }
  }

  lemma ReadIsShown(s: System, e: Env)
    requires HostInv(s) && s.axi.phase == A.Reading && s.axi.flags.shared
    ensures s.axi.flags.access && HostRdata(s, e) == A.Half(ReadWord(s), A.UpperHalf(s.axi.buffAddr))
  {
    hide Inv, LoadInv, AxiGranted;
  }

  /** One clock of the flat memory: after the core's write, exactly a store of the host changes
      what the host sees, in exactly its strobed bytes; a load answers with it or with the other
      half of the word the load before took. */
  lemma HostViewAfterClock(s: System, b: Buffer, e: Env)
    requires Proper(s, e) && Refines(s, b)
    ensures var c, n, ev := CoreWrites(b, s, e), NextBuffer(b, s, e), HostEvent(s, e);
            && View(n) == (if ev.HostStore? then View(c)[ev.index := StoreHalf(View(c)[ev.index], ev.upper, ev.data, ev.strb)] else View(c))
            && (ev.HostLoad? ==> n.answer == A.Half(if Repeats(b, ev) then b.snapshot.word else View(c)[ev.index], ev.upper))
  {
    ClockRefines(s, e, b);
    CoreWritesMemory(b, s, e);
    HostSeesFlatMemory(CoreWrites(b, s, e), HostEvent(s, e));
    hide IoMem.Step, Proper, Refines, HostEvent, CoreWrites, View, StoreHalf, A.Half;
  }

  // Paired halves ------------------------------------------------------------------------------------

  /** A full-strobe write (read) of a shared address is accepted in this clock. */
  predicate AcceptsWrite(s: System, e: Env, a: Addr16, d: A.Quad) {
    && s.axi.phase == A.Init && !A.Waits(s.axi, e.host, AxiGranted(s, e))
    && e.host.WriteReq() && e.host.awaddr == a && e.host.wdata == d && e.host.wstrb == A.FULL
  }

  predicate AcceptsRead(s: System, e: Env, a: Addr16) {
    && s.axi.phase == A.Init && !A.Waits(s.axi, e.host, AxiGranted(s, e))
    && e.host.ReadReq() && e.host.araddr == a && e.host.wstrb == A.FULL
  }

  /** Clocks in which no host transfer is carried out. */
  predicate NoTransfer(s: System, env: seq<Env>)
    decreases |env|
  {
    env == [] || (HostEvent(s, env[0]).Nothing? && NoTransfer(IoMem.Step(s, env[0]), env[1..]))
  }

  /** The host never uses the shared RAM during a run. */
  predicate HostOff(s: System, env: seq<Env>)
    decreases |env|
  {
    env == [] || (!HostOnShared(s, env[0]) && HostOff(IoMem.Step(s, env[0]), env[1..]))
  }

  predicate OtherHalf(a: Addr16, b: Addr16) {
    Control.InShared(a) && Control.InShared(b) && a / 8 == b / 8 && A.UpperHalf(a) != A.UpperHalf(b)
  }

  /** Without a transfer the buffer keeps what it has, whatever the core does. */
  lemma {:induction false} BufferIsKept(s: System, env: seq<Env>)
    requires HostInv(s) && ProperRun(s, env) && NoTransfer(s, env)
    ensures var t := IoMem.Run(s, env);
            && HostInv(t) && HostOff(s, env)
            && t.axi.buff == s.axi.buff && t.axi.buffAddr == s.axi.buffAddr && t.axi.wrData == s.axi.wrData
            && (A.FromSaved(t.axi) <==> A.FromSaved(s.axi))
            && (s.axi.buff.IsLoad() ==> ReadWord(t) == ReadWord(s))
    decreases |env|
  {
    hide IoMem.Step, Polite, Safe, HostInv, HostEvent, ReadWord, HostOnShared;
    if env != [] {
      assert Proper(s, env[0]);
      IdleRegisters(s, env[0]);
      HostIsOff(s, env[0]);
      HostInvStep(s, env[0]);
      BufferIsKept(IoMem.Step(s, env[0]), env[1..]);
    }
  }

  /** A full-strobe write accepted with no store kept is kept, without touching the RAM. */
  lemma FirstWrite(s: System, e: Env, a: Addr16, d: A.Quad)
    requires Proper(s, e) && !s.axi.buff.IsStore() && AcceptsWrite(s, e, a, d) && Control.InShared(a)
    ensures var t := IoMem.Step(s, e);
            && HostInv(t) && !HostOnShared(s, e) && !A.FromSaved(t.axi)
            && t.axi.buff == (if A.UpperHalf(a) then A.Store1 else A.Store0) && t.axi.buffAddr == a && t.axi.wrData == d
  {
    HostInvStep(s, e);
    hide AxiGranted, Inv;
  }

  /** The write of the other half puts both on the port with all eight lanes enabled. */
  lemma SecondWrite(s: System, e: Env, a: Addr16, d: A.Quad)
    requires Proper(s, e) && s.axi.buff.IsStore() && AcceptsWrite(s, e, a, d) && OtherHalf(s.axi.buffAddr, a)
    ensures HostOnShared(s, e)
    ensures SharedPort(s, e)
            == Port(true, WordIndex(a), if A.UpperHalf(a) then s.axi.wrData + d else d + s.axi.wrData, A.FULL + A.FULL)
    ensures IoMem.Step(s, e).shared == NextWords(s.shared, SharedPort(s, e))
  {
    SharedIndexIs(a);
    hide AxiGranted, Inv, SharedIndex, HostBus;
  }

  /** Two consecutive full-strobe writes to the two halves of a double word reach the RAM as one
      all-lane write, in the second's clock; until then the host does not touch the shared RAM.
      Whatever the core does in between, afterwards the word holds both halves. */
  lemma PairedWritesActAsOne(s: System, e1: Env, mid: seq<Env>, e2: Env, a1: Addr16, a2: Addr16, d1: A.Quad, d2: A.Quad)
    requires Proper(s, e1) && !s.axi.buff.IsStore() && AcceptsWrite(s, e1, a1, d1) && OtherHalf(a1, a2)
    requires ProperRun(IoMem.Step(s, e1), mid) && NoTransfer(IoMem.Step(s, e1), mid)
    requires var t := IoMem.Run(IoMem.Step(s, e1), mid); Polite(t, e2) && Safe(t, e2) && AcceptsWrite(t, e2, a2, d2)
    ensures var t, word := IoMem.Run(IoMem.Step(s, e1), mid), if A.UpperHalf(a1) then d2 + d1 else d1 + d2;
            && !HostOnShared(s, e1) && HostOff(IoMem.Step(s, e1), mid)
            && HostOnShared(t, e2) && SharedPort(t, e2) == Port(true, WordIndex(a2), word, A.FULL + A.FULL)
            && IoMem.Step(t, e2).shared == t.shared[WordIndex(a2) := word]
  {
    hide IoMem.Step, IoMem.Run, HostInv, AcceptsWrite, HostOnShared, HostOff, SharedPort, Polite, Safe, ProperRun, NoTransfer;
    FirstWrite(s, e1, a1, d1);
    var t := IoMem.Run(IoMem.Step(s, e1), mid);
    BufferIsKept(IoMem.Step(s, e1), mid);
    SecondWrite(t, e2, a2, d2);
    assert WordIndex(a1) == WordIndex(a2);
    WholeWord(t.shared, WordIndex(a2), if A.UpperHalf(a1) then d2 + d1 else d1 + d2);
  }

  lemma WholeWord(words: SharedWords, k: WordIdx, word: Lanes)
    ensures NextWords(words, Port(true, k, word, A.FULL + A.FULL)) == words[k := word]
  {
    assert MergeLanes(words[k], word, A.FULL + A.FULL) == word;
  }

  /** A full-strobe read accepted from an empty buffer takes its whole word. */
  lemma FirstRead(s: System, e: Env, a: Addr16)
    requires Proper(s, e) && s.axi.buff == A.Empty && AcceptsRead(s, e, a) && Control.InShared(a)
    ensures var t := IoMem.Step(s, e);
            && HostInv(t) && t.axi.phase == A.Reading && t.axi.flags == SHARED_FLAGS
            && t.axi.buff == (if A.UpperHalf(a) then A.Load1 else A.Load0) && t.axi.buffAddr == a
            && ReadWord(t) == s.shared[WordIndex(a)]
  {
    HostInvStep(s, e);
    assert HostEvent(s, e) == HostLoad(WordIndex(a), A.UpperHalf(a), true) && !A.NoRealAccess(s.axi, e.host) by {
      hide AxiGranted, Inv;
    }
    LoadReads(s, e);
    assert ReadWord(IoMem.Step(s, e)) == IoMem.Step(s, e).sharedDout by {
      LoadRegisters(s, e);
    }
    hide AxiGranted, Inv, NextDout, SharedPort, UnsharedPort, AxiDout;
  }

  /** The read of the other half is answered from the same word without using the RAM. */
  lemma SecondRead(s: System, e: Env, a: Addr16)
    requires Proper(s, e) && s.axi.buff.IsLoad() && AcceptsRead(s, e, a) && OtherHalf(s.axi.buffAddr, a)
    ensures var t := IoMem.Step(s, e);
            && HostInv(t) && t.axi.phase == A.Reading && t.axi.flags == SHARED_FLAGS && t.axi.buffAddr == a
            && !HostOnShared(s, e) && ReadWord(t) == ReadWord(s)
  {
    HostInvStep(s, e);
    assert HostEvent(s, e) == HostLoad(WordIndex(a), A.UpperHalf(a), true) && A.NoRealAccess(s.axi, e.host) by {
      hide AxiGranted, Inv;
    }
    HostIsOff(s, e);
    LoadRegisters(s, e);
    hide AxiGranted, Inv, NextDout, SharedPort, UnsharedPort, AxiDout, HostOnShared, A.NoRealAccess, HostEvent;
  }

  /** Two consecutive reads of the two halves, from an empty buffer and with the strobes held up,
      return one snapshot of the RAM word, taken at the first read, whatever the core writes in
      between; the second read does not use the RAM. */
  lemma PairedReadsReturnOneSnapshot(s: System, e1: Env, mid: seq<Env>, e2: Env, a1: Addr16, a2: Addr16, e: Env)
    requires Proper(s, e1) && s.axi.buff == A.Empty && AcceptsRead(s, e1, a1) && OtherHalf(a1, a2)
    requires ProperRun(IoMem.Step(s, e1), mid) && NoTransfer(IoMem.Step(s, e1), mid)
    requires var t := IoMem.Run(IoMem.Step(s, e1), mid); Polite(t, e2) && Safe(t, e2) && AcceptsRead(t, e2, a2)
    ensures var word, t := s.shared[WordIndex(a1)], IoMem.Run(IoMem.Step(s, e1), mid);
            && HostRdata(IoMem.Step(s, e1), e) == A.Half(word, A.UpperHalf(a1))
            && HostRdata(IoMem.Step(t, e2), e) == A.Half(word, A.UpperHalf(a2))
            && !HostOnShared(t, e2)
  {
    FirstRead(s, e1, a1);
    ReadIsShown(IoMem.Step(s, e1), e);
    var t := IoMem.Run(IoMem.Step(s, e1), mid);
    BufferIsKept(IoMem.Step(s, e1), mid);
    SecondRead(t, e2, a2);
    ReadIsShown(IoMem.Step(t, e2), e);
    hide IoMem.Step, IoMem.Run, HostInv, AcceptsRead, HostOnShared, HostRdata, ReadWord, A.Half;
  }

  // When a kept store survives -------------------------------------------------------------------------

  /** A transfer is accepted while a store is kept back. */
  predicate AcceptsOverKept(s: System, e: Env) {
    && s.axi.phase == A.Init && s.axi.buff.IsStore() && (e.host.ReadReq() || e.host.WriteReq())
    && !A.Waits(s.axi, e.host, AxiGranted(s, e))
  }

  /** The offered transfer, a read before a write, is to the shared memory, or writes one of the
      eight bytes below it. */
  predicate KeepsStore(h: A.Pins) {
    var a := if h.arvalid then h.araddr else h.awaddr;
    0x9000 <= a || (!h.arvalid && 0x8ff8 <= a < 0x9000)
  }

  /** The kept half is in the RAM after the clock that accepts the transfer exactly when the
      transfer addresses shared memory or is a write to the flush address.  Otherwise the host is
      not on the shared RAM at all. */
  lemma KeptStoreSurvivesExactlyWhen(s: System, e: Env)
    requires Inv(s) && AcceptsOverKept(s, e)
    ensures HostOnShared(s, e) <==> KeepsStore(e.host)
    ensures HostOnShared(s, e) ==>
              A.Half(IoMem.Step(s, e).shared[WordIndex(s.axi.buffAddr)], s.axi.buff.Store1?) == s.axi.wrData
    ensures !HostOnShared(s, e) ==> A.FromSaved(IoMem.Step(s, e).axi) && !Control.InShared(IoMem.Step(s, e).axi.svAddr)
  {
    assert KeepsStore(e.host) <==> Control.InShared(A.Addr(s.axi, e.host)) || A.FlushAddr(s.axi, e.host) by {
      hide AxiGranted, Inv;
    }
    hide KeepsStore;
    assert HostOnShared(s, e) <==> Control.InShared(A.Addr(s.axi, e.host)) || A.FlushAddr(s.axi, e.host) by {
      hide AxiGranted;
    }
    if HostOnShared(s, e) {
      KeptHalfWritten(s, e);
    } else {
      hide AxiGranted, Inv, HostOnShared, AxiDout;
    }
  }

  predicate AcceptsFlush(s: System, e: Env) {
    && s.axi.phase == A.Init && !A.Waits(s.axi, e.host, AxiGranted(s, e))
    && e.host.WriteReq() && 0x8ff8 <= e.host.awaddr < 0x9000
  }

  lemma FlushWritesOut(s: System, e: Env)
    requires Inv(s) && s.axi.buff.IsStore() && AcceptsFlush(s, e)
    ensures A.Half(IoMem.Step(s, e).shared[WordIndex(s.axi.buffAddr)], s.axi.buff.Store1?) == s.axi.wrData
  {
    assert AcceptsOverKept(s, e) && KeepsStore(e.host);
    KeptStoreSurvivesExactlyWhen(s, e);
    hide IoMem.Step, HostOnShared, A.Waits, AxiGranted, A.Half;
  }

  /** A full-strobe write that is kept is in the RAM, at its own half of its own word, once a write
      to the flush address behind it is accepted, whatever the core does in between. */
  lemma FlushReachesRam(s: System, e1: Env, mid: seq<Env>, e2: Env, a: Addr16, d: A.Quad)
    requires Proper(s, e1) && !s.axi.buff.IsStore() && AcceptsWrite(s, e1, a, d) && 0x9000 <= a
    requires ProperRun(IoMem.Step(s, e1), mid) && NoTransfer(IoMem.Step(s, e1), mid)
    requires AcceptsFlush(IoMem.Run(IoMem.Step(s, e1), mid), e2)
    ensures A.Half(IoMem.Step(IoMem.Run(IoMem.Step(s, e1), mid), e2).shared[(a - 0x9000) / 8], a % 8 >= 4) == d
  {
    hide *;
    SharedNumbers(a);
    FirstWrite(s, e1, a, d);
    var t := IoMem.Run(IoMem.Step(s, e1), mid);
    BufferIsKept(IoMem.Step(s, e1), mid);
    HostInvHasInv(t);
    assert t.axi.buff.IsStore() && t.axi.buff.Store1? == A.UpperHalf(a) by {
      KeptHere(t.axi.buff);
    }
    FlushWritesOut(t, e2);
  }

  lemma KeptHere(b: A.BuffPhase)
    ensures b.Store1? || b.Store0? ==> b.IsStore()
  {
  }

  lemma SharedNumbers(a: Addr16)
    requires 0x9000 <= a
    ensures Control.InShared(a) && WordIndex(a) == (a - 0x9000) / 8 && (A.UpperHalf(a) <==> a % 8 >= 4)
  {
  }

  lemma HostInvHasInv(s: System)
    requires HostInv(s)
    ensures Inv(s)
  {
  }

  /** The lanes of the kept half on the port of the clock that writes it out or completes it. */
  lemma KeptHalfWritten(s: System, e: Env)
    requires Inv(s) && AcceptsOverKept(s, e) && HostOnShared(s, e)
    ensures A.Half(IoMem.Step(s, e).shared[WordIndex(s.axi.buffAddr)], s.axi.buff.Store1?) == s.axi.wrData
  {
    KeptHalfOnPort(s, e);
    hide AxiGranted, Inv, HostOnShared, A.Waits, SharedPort;
  }

  lemma KeptHalfOnPort(s: System, e: Env)
    requires Inv(s) && AcceptsOverKept(s, e) && HostOnShared(s, e)
    ensures var p, u := SharedPort(s, e), s.axi.buff.Store1?;
            && p.ena && p.index == WordIndex(s.axi.buffAddr)
            && A.Half(p.din, u) == s.axi.wrData
            && forall k: Lane :: (k >= 4) == u ==> p.wea[k]
  {
    SharedIndexIs(s.axi.buffAddr);
    if Control.InShared(A.Addr(s.axi, e.host)) {
      SharedIndexIs(A.Addr(s.axi, e.host));
    }
    hide AxiGranted, SharedIndex, HostBus, A.Waits;
  }

  /** The transfer behind a store that was not written out is outside shared memory. */
  predicate KeptButLost(s: System) {
    Inv(s) && A.FromSaved(s.axi) && !Control.InShared(s.axi.svAddr)
  }

  lemma LostStoreStep(s: System, e: Env)
    requires KeptButLost(s) && Polite(s, e)
    ensures !HostOnShared(s, e)
    ensures IoMem.Step(s, e).axi.buff == A.Empty || KeptButLost(IoMem.Step(s, e))
  {
    InvStep(s, e);
    hide AxiGranted, Inv, AxiDout;
  }

  predicate PoliteRun(s: System, env: seq<Env>)
    decreases |env|
  {
    env == [] || (Polite(s, env[0]) && PoliteRun(IoMem.Step(s, env[0]), env[1..]))
  }

  /** The host leaves the shared RAM alone in every clock until the buffer is empty. */
  predicate OffUntilEmpty(s: System, env: seq<Env>)
    decreases |env|
  {
    env == [] || s.axi.buff == A.Empty || (!HostOnShared(s, env[0]) && OffUntilEmpty(IoMem.Step(s, env[0]), env[1..]))
  }

  /** A store that was not written out then never is: over every polite run the host stays off the
      shared RAM until the buffer that held the store is empty. */
  lemma {:induction false} LostStoreStaysLost(s: System, env: seq<Env>)
    requires KeptButLost(s) && PoliteRun(s, env)
    ensures OffUntilEmpty(s, env)
    decreases |env|
  {
    hide IoMem.Step, KeptButLost, HostOnShared, Polite;
    if env != [] {
      LostStoreStep(s, env[0]);
      var t := IoMem.Step(s, env[0]);
      if t.axi.buff == A.Empty {
        assert OffUntilEmpty(t, env[1..]);
      } else {
        LostStoreStaysLost(t, env[1..]);
      }
    }
  }

  /** A read of the flush address, where a write would flush, loses the kept store. */
  lemma ReadOfFlushAddressLosesStore(s: System, e: Env)
    requires Inv(s) && AcceptsOverKept(s, e) && e.host.ReadReq() && e.host.araddr == 0x8FF8
    ensures !HostOnShared(s, e) && A.FromSaved(IoMem.Step(s, e).axi)
  {
    KeptStoreSurvivesExactlyWhen(s, e);
    hide HostOnShared, IoMem.Step, Inv, AxiGranted;
  }

  // A run that loses a store -------------------------------------------------------------------------------

  const IDLE_CORE: D.Pins := D.Pins(0, 0, false, false, SIZE32, false, 0, 0)

  function Clocked(h: A.Pins): Env {
    Env(h, IDLE_CORE, true, true, ZERO_LANES)
  }

  /** A full-strobe write to the first shared word, its response taken, a read of the control
      register, and the clock that answers it. */
  function WriteThenReadControl(d: A.Quad): seq<Env> {
    var idle := A.Pins(false, 0, false, 0, false, d, A.FULL, true, true);
    [Clocked(A.Pins(false, 0, true, 0x9000, true, d, A.FULL, true, true)), Clocked(idle),
     Clocked(A.Pins(true, 0x8A00, false, 0, false, d, A.FULL, true, true)), Clocked(idle)]
  }

  /** Nothing in the core's data interface, so the arbiter serves the host. */
  predicate CoreIdle(s: System) {
    !s.core.Access() && s.data.phase == D.Init
  }

  lemma IdleCoreStays(s: System, h: A.Pins)
    requires CoreIdle(s)
    ensures CoreIdle(IoMem.Step(s, Clocked(h))) && !CoreOnShared(s, Clocked(h))
    ensures A.ArbRequest(s.axi, h) ==> HostGranted(s, Clocked(h))
  {
    hide A.Next, A.ArbRequest, NextWords, NextDout, SharedPort, UnsharedPort, AxiDout, AxiGranted;
  }

  lemma OffLeavesRam(s: System, h: A.Pins)
    requires CoreIdle(s) && !HostOnShared(s, Clocked(h))
    ensures IoMem.Step(s, Clocked(h)).shared == s.shared
  {
    IdleCoreStays(s, h);
    hide HostOnShared, CoreOnShared, A.Next, D.Next;
  }

  /** The write is accepted and answered, and kept. */
  lemma LosingWrite(s: System, d: A.Quad)
    requires CoreIdle(s) && s.axi.phase == A.Init && s.axi.buff == A.Empty
    ensures var t := IoMem.Step(s, WriteThenReadControl(d)[0]);
            && CoreIdle(t) && t.axi.phase == A.Writing && t.axi.buff == A.Store0 && t.axi.buffAddr == 0x9000 && t.axi.wrData == d
            && t.shared == s.shared
  {
    var h := WriteThenReadControl(d)[0].host;
    IdleCoreStays(s, h);
    assert !HostOnShared(s, Clocked(h)) by {
      hide AxiGranted;
    }
    OffLeavesRam(s, h);
    hide AxiGranted, HostOnShared, AxiDout, SharedPort, UnsharedPort, D.Next;
  }

  lemma LosingResponse(s: System, d: A.Quad)
    requires CoreIdle(s) && s.axi.phase == A.Writing && s.axi.buff == A.Store0
    ensures var t := IoMem.Step(s, WriteThenReadControl(d)[1]);
            && CoreIdle(t) && t.axi.phase == A.Init && t.axi.buff == A.Store0 && t.shared == s.shared
            && t.axi.buffAddr == s.axi.buffAddr && t.axi.wrData == s.axi.wrData
  {
    var h := WriteThenReadControl(d)[1].host;
    IdleCoreStays(s, h);
    assert !HostOnShared(s, Clocked(h)) by {
      hide AxiGranted;
    }
    OffLeavesRam(s, h);
    hide AxiGranted, HostOnShared, AxiDout, SharedPort, UnsharedPort, D.Next;
  }

  lemma LosingRead(s: System, d: A.Quad)
    requires CoreIdle(s) && s.axi.phase == A.Init && s.axi.buff == A.Store0
    ensures var t := IoMem.Step(s, WriteThenReadControl(d)[2]);
            && CoreIdle(t) && t.axi.phase == A.FlushThenRead && t.axi.buff == A.Store0 && t.axi.svAddr == 0x8A00
            && t.shared == s.shared
  {
    var h := WriteThenReadControl(d)[2].host;
    IdleCoreStays(s, h);
    assert !HostOnShared(s, Clocked(h)) by {
      hide AxiGranted;
    }
    OffLeavesRam(s, h);
    hide AxiGranted, HostOnShared, AxiDout, SharedPort, UnsharedPort, D.Next;
    assert A.ArbRequest(s.axi, h);
    assert AxiGranted(s, Clocked(h)) by {
      hide A.ArbRequest, HostGranted;
    }
  }

  lemma LosingAnswer(s: System, d: A.Quad)
    requires CoreIdle(s) && s.axi.phase == A.FlushThenRead && s.axi.buff == A.Store0 && s.axi.svAddr == 0x8A00
    ensures var t := IoMem.Step(s, WriteThenReadControl(d)[3]);
            t.axi.phase == A.Reading && t.axi.buff == A.Empty && t.shared == s.shared
  {
    var h := WriteThenReadControl(d)[3].host;
    IdleCoreStays(s, h);
    assert !HostOnShared(s, Clocked(h)) by {
      hide AxiGranted;
    }
    OffLeavesRam(s, h);
    hide AxiGranted, HostOnShared, AxiDout, SharedPort, UnsharedPort, D.Next;
  }

  /** From reset, with the core idle: the host's write is answered, the read behind it is answered,
      the buffer is empty, and the shared RAM is what it was, whatever was written. */
  lemma LostStoreCounterexample(s0: System, d: A.Quad)
    requires Initial(s0)
    ensures var t := IoMem.Run(s0, WriteThenReadControl(d));
            && t.shared == s0.shared && t.axi.buff == A.Empty && t.axi.phase == A.Reading
            && PoliteRun(s0, WriteThenReadControl(d)) && IoMem.Run(s0, WriteThenReadControl(d)[..1]).axi.phase == A.Writing
  {
    hide IoMem.Step, CoreIdle;
    var env := WriteThenReadControl(d);
    assert CoreIdle(s0) by {
      StartsIdle(s0);
    }
    var s1 := IoMem.Step(s0, env[0]);
    var s2 := IoMem.Step(s1, env[1]);
    var s3 := IoMem.Step(s2, env[2]);
    LosingWrite(s0, d);
    LosingResponse(s1, d);
    LosingRead(s2, d);
    LosingAnswer(s3, d);
    hide WriteThenReadControl;
    FourClocks(s0, env);
  }

  lemma StartsIdle(s: System)
    requires Initial(s)
    ensures CoreIdle(s) && Inv(s)
  {
  }

  lemma FourClocks(s: System, env: seq<Env>)
    requires |env| == 4
    ensures var s1 := IoMem.Step(s, env[0]);
            var s2 := IoMem.Step(s1, env[1]);
            var s3 := IoMem.Step(s2, env[2]);
            && IoMem.Run(s, env) == IoMem.Step(s3, env[3]) && IoMem.Run(s, env[..1]) == s1
            && (Polite(s, env[0]) && Polite(s1, env[1]) && Polite(s2, env[2]) && Polite(s3, env[3]) ==> PoliteRun(s, env))
  {
    hide IoMem.Step, Polite;
    var r1, r2, r3 := env[1..], env[2..], env[3..];
    assert r1[1..] == r2 && r2[1..] == r3 && r3[1..] == [];
    assert r1[0] == env[1] && r2[0] == env[2] && r3[0] == env[3];
    var s1 := IoMem.Step(s, env[0]);
    var s2 := IoMem.Step(s1, env[1]);
    var s3 := IoMem.Step(s2, env[2]);
    assert IoMem.Run(IoMem.Step(s3, env[3]), []) == IoMem.Step(s3, env[3]);
    assert IoMem.Run(s3, r3) == IoMem.Run(IoMem.Step(s3, env[3]), []);
    assert IoMem.Run(s2, r2) == IoMem.Run(s3, r3);
    assert IoMem.Run(s1, r1) == IoMem.Run(s2, r2);
    assert PoliteRun(s3, r3) <==> Polite(s3, env[3]);
    assert PoliteRun(s2, r2) <==> Polite(s2, env[2]) && PoliteRun(s3, r3);
    assert PoliteRun(s1, r1) <==> Polite(s1, env[1]) && PoliteRun(s2, r2);
    var first := env[..1];
    assert first[1..] == [] && first[0] == env[0] && IoMem.Run(s1, []) == s1;
  }

  // A run that keeps it --------------------------------------------------------------------------------------

  /** A full-strobe write to the first shared word, its response taken, and a write to the last byte
      of the flush address. */
  function WriteThenFlush(d: A.Quad): seq<Env> {
    [WriteThenReadControl(d)[0], WriteThenReadControl(d)[1],
     Clocked(A.Pins(false, 0, true, 0x8fff, true, d, A.FULL, true, true))]
  }

  lemma FlushingWrite(s: System, d: A.Quad)
    requires Inv(s) && CoreIdle(s) && s.axi.phase == A.Init && s.axi.buff == A.Store0 && s.axi.buffAddr == 0x9000 && s.axi.wrData == d
    ensures var t := IoMem.Step(s, WriteThenFlush(d)[2]);
            && t.axi.phase == A.Writing && t.axi.buff == A.Empty && A.Half(t.shared[0], false) == d
  {
    var e := WriteThenFlush(d)[2];
    IdleCoreStays(s, e.host);
    assert A.ArbRequest(s.axi, e.host);
    assert AxiGranted(s, e) by {
      hide A.ArbRequest, HostGranted;
    }
    assert AcceptsOverKept(s, e) by {
      hide AxiGranted;
    }
    KeptStoreSurvivesExactlyWhen(s, e);
    hide AxiGranted, HostOnShared, AxiDout, SharedPort, UnsharedPort, D.Next, NextWords, CoreIdle, Inv;
    assert WordIndex(0x9000) == 0;
  }

  /** From reset, with the core idle: the host's write and the flush behind it are answered, the
      buffer is empty, and the RAM holds what was written, whatever that is. */
  lemma FlushedStoreExample(s0: System, d: A.Quad)
    requires Initial(s0)
    ensures var t := IoMem.Run(s0, WriteThenFlush(d));
            t.axi.phase == A.Writing && t.axi.buff == A.Empty && t.shared[0][..4] == d
  {
    hide IoMem.Step, CoreIdle, Inv;
    var env := WriteThenFlush(d);
    assert CoreIdle(s0) by {
      StartsIdle(s0);
    }
    assert Inv(s0) by {
      StartsIdle(s0);
    }
    var s1 := IoMem.Step(s0, env[0]);
    var s2 := IoMem.Step(s1, env[1]);
    LosingWrite(s0, d);
    LosingResponse(s1, d);
    InvStep(s0, env[0]);
    InvStep(s1, env[1]);
    FlushingWrite(s2, d);
    hide WriteThenFlush;
    ThreeSteps(s0, env);
  }

  lemma ThreeSteps(s: System, env: seq<Env>)
    requires |env| == 3
    ensures IoMem.Run(s, env) == IoMem.Step(IoMem.Step(IoMem.Step(s, env[0]), env[1]), env[2])
  {
    hide IoMem.Step;
    var r1, r2 := env[1..], env[2..];
    assert r1[1..] == r2 && r2[1..] == [] && r1[0] == env[1] && r2[0] == env[2];
    var s1 := IoMem.Step(s, env[0]);
    var s2 := IoMem.Step(s1, env[1]);
    assert IoMem.Run(s2, r2) == IoMem.Run(IoMem.Step(s2, env[2]), []);
    assert IoMem.Run(s1, r1) == IoMem.Run(s2, r2);
  }

  // Serving a transfer ------------------------------------------------------------------------------------

  predicate Served(s: System) { s.axi.phase == A.Reading || s.axi.phase == A.Writing }

  /** Clocks for which the arbiter can still refuse the host. */
  function Refusals(s: System): nat {
    if D.BusFrame(s.data, s.core) then 1 else if s.prio then 0 else 2
  }

  /** Clocks until the transfer is answered, at most. */
  function Remaining(s: System): nat {
    if Served(s) then 0 else Refusals(s) + if s.axi.phase == A.Init then 4 else 1
  }

  /** The host offers a transfer that is not for the map unit, or waits behind a kept store. */
  predicate Offers(s: System, e: Env) {
    Polite(s, e) && !A.IsMap(s.axi, e.host) && (s.axi.phase == A.Init ==> e.host.ReadReq() || e.host.WriteReq())
  }

  lemma RefusalsFall(s: System, e: Env)
    requires Inv(s) && A.ArbRequest(s.axi, e.host) && !HostGranted(s, e)
    ensures Refusals(IoMem.Step(s, e)) < Refusals(s)
  {
    PrioAfterRefusal(s, e);
    InvStep(s, e);
    hide A.ArbRequest, A.Next, StoreInv, SharedPort, UnsharedPort, AxiDout, NextWords, NextDout;
  }

  lemma RemainingFalls(s: System, e: Env)
    requires Inv(s) && !Served(s) && Offers(s, e)
    ensures Remaining(IoMem.Step(s, e)) < Remaining(s)
  {
    var t := IoMem.Step(s, e);
    if A.Waits(s.axi, e.host, AxiGranted(s, e)) {
      RefusalsFall(s, e);
      assert t.axi.phase == s.axi.phase;
    } else {
      assert Served(t) || (s.axi.phase == A.Init && A.FromSaved(t.axi)) by {
        hide AxiGranted, Inv, AxiDout;
      }
    }
    hide IoMem.Step, AxiGranted, Inv, Polite, A.IsMap, D.BusFrame;
  }

  /** Does the host keep offering until it is served? */
  predicate KeepsOffering(s: System, env: seq<Env>)
    decreases |env|
  {
    env == [] || Served(s) || (Offers(s, env[0]) && KeepsOffering(IoMem.Step(s, env[0]), env[1..]))
  }

  function ClocksToServe(s: System, env: seq<Env>): nat
    decreases |env|
  {
    if env == [] || Served(s) then 0 else 1 + ClocksToServe(IoMem.Step(s, env[0]), env[1..])
  }

  /** Bounded service.  Whatever the core does, a transfer the host keeps offering, with at most
      one kept store to write out first, is being answered after at most six clocks. */
  lemma {:induction false} ServedWithinSixClocks(s: System, env: seq<Env>)
    requires Inv(s) && KeepsOffering(s, env)
    ensures ClocksToServe(s, env) <= Remaining(s) <= 6
    decreases |env|
  {
    hide IoMem.Step, Inv, Offers, D.BusFrame;
    if env != [] && !Served(s) {
      RemainingFalls(s, env[0]);
      InvStep(s, env[0]);
      ServedWithinSixClocks(IoMem.Step(s, env[0]), env[1..]);
    }
  }
}
