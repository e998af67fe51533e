/** The host side on its pins: addresses, data and strobes as they stand on the bus, byte by byte.
    Every accepted transfer is carried out once, with the values it was accepted with, and what it
    stores and loads are the bytes at its own addresses, the same bytes the core sees. */
module HostPins {
  import opened Words
  import opened ByteLanes
  import opened DelayedRegister
  import opened IoMem
  import opened StoreBuffer
  import opened HostRefinement
  import opened HostRuns
  import Control
  import D = DataInterface
  import A = AxiController

  // Addresses ------------------------------------------------------------------------------------------

  lemma HalfNumbers(a: Addr16)
    ensures A.UpperHalf(a) <==> a % 8 >= 4
  {
    EightParts(a);
    QuotientUnique(a / 4, a / 8, a % 8 / 4, 2);
  }

  lemma MapNumbers(a: Addr16)
    ensures a / 0x200 == 0x45 && a / 4 % 0x80 > 5 <==> 0x8a18 <= a < 0x8c00
  {
    if 0x8a00 <= a < 0x8c00 {
      QuotientUnique(a, 0x45, a - 0x8a00, 0x200);
      var w := a / 4;
      QuotientUnique(w, 0x45, w - 0x2280, 0x80);
    }
  }

  lemma FlushNumbers(a: Addr16)
    ensures a / 8 == A.FLUSH_WORD <==> 0x8ff8 <= a < 0x9000
  {
  }

  lemma RegionNumbers(a: Addr16)
    ensures Control.InUnshared(a) <==> 0x8000 <= a < 0x8a00
    ensures Control.InShared(a) <==> 0x9000 <= a
  {
  }

  /** What the controller takes an address for, in numbers: program memory below 0x8000, the core's
      own memory, the map unit's registers, the shared memory, and the eight bytes below it as
      flush address. */
  lemma HostAddresses(s: A.State, h: A.Pins)
    requires A.AxiReq(s, h)
    ensures var a := A.Addr(s, h);
            && (A.IsInst(s, h) <==> a < 0x8000)
            && (A.IsUnshared(s, h) <==> 0x8000 <= a < 0x8a00)
            && (A.IsMap(s, h) <==> 0x8a18 <= a < 0x8c00)
            && (A.IsShared(s, h) <==> 0x9000 <= a)
            && (A.FlushAddr(s, h) <==> !h.arvalid && h.awvalid && h.wvalid && 0x8ff8 <= a < 0x9000)
            && (A.UpperHalf(a) <==> a % 8 >= 4)
  {
    var a := A.Addr(s, h);
    HalfNumbers(a);
    MapNumbers(a);
    FlushNumbers(a);
    RegionNumbers(a);
    hide A.Addr, A.UpperHalf, Control.InUnshared, Control.InShared;
  }

  // Transfers -------------------------------------------------------------------------------------------

  /** A transfer as the pins offer it; a read goes before a write. */
  datatype Transfer = ReadAt(addr: Addr16) | WriteAt(addr: Addr16, data: A.Quad, strb: A.Strobe)

  predicate Offered(h: A.Pins) { h.arvalid || (h.awvalid && h.wvalid) }

  function TransferOf(h: A.Pins): Transfer {
    if h.arvalid then ReadAt(h.araddr) else WriteAt(h.awaddr, h.wdata, h.wstrb)
  }

  predicate ToShared(t: Transfer) { 0x9000 <= t.addr }
  predicate Flushes(t: Transfer) { t.WriteAt? && 0x8ff8 <= t.addr < 0x9000 }

  /** The 32-bit half of a word that a byte address is in. */
  function IndexOf(a: Addr16): WordIdx
    requires 0x9000 <= a
  {
    (a - 0x9000) / 8
  }

  /** The store buffer's event for a transfer. */
  function EventOf(t: Transfer, combine: bool): Event {
    if Flushes(t) then Drain
    else if !ToShared(t) then Elsewhere
    else if t.ReadAt? then HostLoad(IndexOf(t.addr), t.addr % 8 >= 4, combine)
    else HostStore(IndexOf(t.addr), t.addr % 8 >= 4, t.data, t.strb, combine)
  }

  /** The controller takes the offered transfer in this clock. */
  predicate Accepts(s: System, e: Env) {
    s.axi.phase == A.Init && Offered(e.host) && IoMem.Step(s, e).axi.phase != A.Init
  }

  /** Nothing has to be written out before the transfer: no store is kept, or the transfer flushes
      or completes it. */
  predicate AtOnce(x: A.State, t: Transfer) {
    || !x.buff.IsStore() || Flushes(t)
    || (t.WriteAt? && ToShared(t) && t.strb == [true, true, true, true] && t.addr / 8 == x.buffAddr / 8
        && (t.addr % 8 >= 4) != x.buff.Store1?)
  }

  /** The controller holds the transfer until the kept store is out. */
  predicate Holds(x: A.State, t: Transfer) {
    && x.phase == (if t.ReadAt? then A.FlushThenRead else A.FlushThenWrite)
    && x.svAddr == t.addr && (t.WriteAt? ==> x.svData == t.data && x.svStrb == t.strb)
  }

  function Answering(t: Transfer): A.AxiPhase {
    if t.ReadAt? then A.Reading else A.Writing
  }

  /** An accepted transfer is carried out in the same clock, or held while a kept store goes out. */
  lemma AcceptedTransfer(s: System, e: Env)
    requires Proper(s, e) && Accepts(s, e)
    ensures var t := TransferOf(e.host);
            if AtOnce(s.axi, t) then
              HostEvent(s, e) == EventOf(t, e.host.wstrb == [true, true, true, true]) && IoMem.Step(s, e).axi.phase == Answering(t)
            else HostEvent(s, e) == Drain && Holds(IoMem.Step(s, e).axi, t)
  {
    HostAddresses(s.axi, e.host);
    hide AxiGranted, Inv, AxiDout, Control.InShared, Control.InUnshared, A.UpperHalf, A.IsInst, A.IsMap, A.IsUnshared;
  }

  /** A held transfer is carried out in the clock in which it stops being held, with the values it
      was accepted with. */
  lemma HeldTransfer(s: System, e: Env, t: Transfer)
    requires Proper(s, e) && Holds(s.axi, t)
    ensures var n := IoMem.Step(s, e).axi;
            if A.FromSaved(n) then HostEvent(s, e) == Nothing && Holds(n, t)
            else HostEvent(s, e) == EventOf(t, false) && n.phase == Answering(t)
  {
    HostAddresses(s.axi, e.host);
    hide AxiGranted, Inv, AxiDout;
  }

  /** It is held over every run without a transfer carried out. */
  lemma {:induction false} HeldOverRuns(s: System, env: seq<Env>, t: Transfer)
    requires HostInv(s) && ProperRun(s, env) && NoTransfer(s, env) && Holds(s.axi, t)
    ensures HostInv(IoMem.Run(s, env)) && Holds(IoMem.Run(s, env).axi, t)
    decreases |env|
  {
    hide IoMem.Step, Polite, Safe, HostInv, HostEvent, Holds, EventOf;
    if env != [] {
      HostInvStep(s, env[0]);
      assert Proper(s, env[0]);
      HeldTransfer(s, env[0], t);
      NotNothing(t);
      HeldOverRuns(IoMem.Step(s, env[0]), env[1..], t);
    }
  }

  lemma NotNothing(t: Transfer)
    ensures EventOf(t, false) != Nothing
  {
  }

  /** From acceptance to execution.  A transfer that is accepted behind a kept store is carried out
      once, after the kept store went out, with the address, data and strobes of the clock of its
      acceptance, whatever the core and the pins do in between. */
  lemma HeldTransferIsCarriedOut(s: System, e: Env, mid: seq<Env>, last: Env)
    requires Proper(s, e) && Accepts(s, e) && !AtOnce(s.axi, TransferOf(e.host))
    requires ProperRun(IoMem.Step(s, e), mid) && NoTransfer(IoMem.Step(s, e), mid)
    requires var u := IoMem.Run(IoMem.Step(s, e), mid); Polite(u, last) && Safe(u, last) && HostEvent(u, last) != Nothing
    ensures var u := IoMem.Run(IoMem.Step(s, e), mid);
            && HostEvent(s, e) == Drain && HostEvent(u, last) == EventOf(TransferOf(e.host), false)
            && IoMem.Step(u, last).axi.phase == Answering(TransferOf(e.host))
  {
    hide IoMem.Step, Polite, Safe, HostInv, HostEvent, Holds, EventOf, Accepts, AtOnce, TransferOf;
    AcceptedTransfer(s, e);
    HostInvStep(s, e);
    var t, v := TransferOf(e.host), IoMem.Step(s, e);
    HeldOverRuns(v, mid, t);
    assert Proper(IoMem.Run(v, mid), last);
    HeldTransfer(IoMem.Run(v, mid), last, t);
  }

  /** An answer stands until the host takes it. */
  lemma AnswerStands(s: System, e: Env)
    requires HostInv(s) && (s.axi.phase == A.Reading || s.axi.phase == A.Writing)
    ensures var taken := if s.axi.phase == A.Reading then e.host.rready else e.host.bready;
            IoMem.Step(s, e).axi.phase == if taken then A.Init else s.axi.phase
    ensures HostEvent(s, e) == Nothing && !HostOnShared(s, e)
  {
    hide AxiGranted, Inv, AxiDout;
  }

  predicate NotTaken(env: seq<Env>) {
    forall k :: 0 <= k < |env| ==> !env[k].host.rready
  }

  /** The data of a shared read stay on the bus until the host takes them, whatever the core writes. */
  lemma {:induction false} ReadDataStand(s: System, env: seq<Env>, e: Env, f: Env)
    requires HostInv(s) && s.axi.phase == A.Reading && s.axi.flags.shared && NotTaken(env) && ProperRun(s, env)
    ensures var t := IoMem.Run(s, env); t.axi.phase == A.Reading && HostRdata(t, f) == HostRdata(s, e)
    decreases |env|
  {
    ReadIsShown(s, e);
    hide IoMem.Step, HostInv, HostEvent, ReadWord, Polite, Safe, HostRdata;
    if env == [] {
      ReadIsShown(s, f);
    } else {
      var t := IoMem.Step(s, env[0]);
      AnswerStands(s, env[0]);
      IdleRegisters(s, env[0]);
      HostInvStep(s, env[0]);
      assert s.axi.flags == SHARED_FLAGS by {
        ReadFlags(s);
      }
      ReadIsShown(t, e);
      ReadDataStand(t, env[1..], e, f);
    }
  }

  lemma ReadFlags(s: System)
    requires HostInv(s) && s.axi.phase == A.Reading && s.axi.flags.shared
    ensures s.axi.flags == SHARED_FLAGS
  {
  }

  // Bytes --------------------------------------------------------------------------------------------------

  type SharedAddr = x: int | 0x9000 <= x < 0x1_0000 witness 0x9000

  /** The byte the host finds at a shared address: the kept store counts as done. */
  function HostByte(b: Buffer, x: SharedAddr): Byte {
    View(b)[(x - 0x9000) / 8][x % 8]
  }

  /** A store changes exactly the bytes of its own four that are strobed. */
  lemma StoreIsBytes(s: System, b: Buffer, e: Env, t: Transfer, combine: bool, x: SharedAddr)
    requires Proper(s, e) && Refines(s, b) && HostEvent(s, e) == EventOf(t, combine) && t.WriteAt? && ToShared(t)
    ensures HostByte(NextBuffer(b, s, e), x)
            == if x / 4 == t.addr / 4 && t.strb[x % 4] then t.data[x % 4] else HostByte(CoreWrites(b, s, e), x)
  {
    HostViewAfterClock(s, b, e);
    var c, k, upper := CoreWrites(b, s, e), IndexOf(t.addr), t.addr % 8 >= 4;
    StoreHalfLanes(View(c)[k], upper, t.data, t.strb, x % 8);
    hide IoMem.Step, HostEvent, Proper, Refines, NextBuffer, CoreWrites, View, StoreHalf;
    SameQuad(x, t.addr);
  }

  /** A shared address by its word and its byte in the word. */
  lemma SharedParts(x: SharedAddr)
    ensures var q, r := x / 8, x % 8;
            x == 8 * q + r && (x - 0x9000) / 8 == q - 0x1200 && x / 4 == 2 * q + r / 4 && x % 4 == r % 4
  {
    EightParts(x);
    QuotientUnique(x - 0x9000, x / 8 - 0x1200, x % 8, 8);
  }

  lemma SameQuad(x: SharedAddr, a: SharedAddr)
    ensures x / 4 == a / 4 <==> (x - 0x9000) / 8 == (a - 0x9000) / 8 && (x % 8 >= 4) == (a % 8 >= 4)
    ensures x % 8 % 4 == x % 4
  {
    SharedParts(x);
    SharedParts(a);
    SameHalf(x / 8, x % 8, a / 8, a % 8);
  }

  lemma SameHalf(q: nat, r: Lane, p: nat, t: Lane)
    ensures 2 * q + r / 4 == 2 * p + t / 4 <==> q == p && (r >= 4) == (t >= 4)
  {
    assert r / 4 == (if r >= 4 then 1 else 0) && t / 4 == if t >= 4 then 1 else 0;
  }

  /** Every other event of the host leaves all bytes. */
  lemma OthersKeepBytes(s: System, b: Buffer, e: Env, x: SharedAddr)
    requires Proper(s, e) && Refines(s, b) && !HostEvent(s, e).HostStore?
    ensures HostByte(NextBuffer(b, s, e), x) == HostByte(CoreWrites(b, s, e), x)
  {
    HostViewAfterClock(s, b, e);
    hide IoMem.Step, HostEvent, Proper, Refines, NextBuffer, CoreWrites, View;
  }

  /** The four bytes of a half, by their addresses. */
  lemma QuadBytes(a: SharedAddr, j: nat)
    requires j < 4
    ensures var x := a - a % 4 + j;
            && 0x9000 <= x < 0x1_0000
            && (x - 0x9000) / 8 == (a - 0x9000) / 8 && x % 8 == (if a % 8 >= 4 then 4 else 0) + j
  {
    SharedParts(a);
    var q, r, h := a / 8, a % 8, if a % 8 >= 4 then 4 else 0;
    assert r - r % 4 == h;
    QuotientUnique(8 * q + (h + j), q, h + j, 8);
    SharedParts(a - a % 4 + j);
  }

  /** A load answers with its own four bytes, or with those of the word that the load of the other
      half took. */
  lemma LoadIsBytes(s: System, b: Buffer, e: Env, t: Transfer, combine: bool, j: nat)
    requires Proper(s, e) && Refines(s, b) && HostEvent(s, e) == EventOf(t, combine) && t.ReadAt? && ToShared(t) && j < 4
    ensures 0x9000 <= t.addr - t.addr % 4 + j < 0x1_0000
    ensures NextBuffer(b, s, e).answer[j]
            == if Repeats(b, HostEvent(s, e)) then b.snapshot.word[(t.addr - t.addr % 4 + j) % 8]
               else HostByte(CoreWrites(b, s, e), t.addr - t.addr % 4 + j)
  {
    HostViewAfterClock(s, b, e);
    QuadBytes(t.addr, j);
    hide IoMem.Step, HostEvent, Proper, Refines, NextBuffer, CoreWrites, View;
  }

  /** With no store kept, the core and the host have the same bytes at the same addresses. */
  lemma CoreSeesHostBytes(s: System, b: Buffer, ram: Ram, x: SharedAddr)
    requires HostInv(s) && Refines(s, b) && b.pending.NoStore? && Represents(s, ram)
    ensures ByteAt(ram, x) == HostByte(b, x)
  {
    assert Control.InShared(x) && Control.ValidAddress(x);
    assert ram[x / 8] == WordAt(s, x);
    PlaceIs(x);
    hide Represents, HostInv;
  }

  // The core's own memory while the core stands ----------------------------------------------------------------

  predicate ToUnshared(t: Transfer) { 0x8000 <= t.addr < 0x8a00 }

  /** A transfer to the core's own memory is carried out in this clock. */
  predicate TakesUnshared(s: System, e: Env) {
    && s.axi.phase == A.Init && !s.axi.buff.IsStore() && Offered(e.host) && ToUnshared(TransferOf(e.host))
    && !A.Waits(s.axi, e.host, AxiGranted(s, e))
  }

  lemma UnsharedEnabled(s: System, e: Env)
    requires TakesUnshared(s, e) && !e.coreRuns
    ensures HostOnUnshared(s, e) && A.PortAddr(s.axi, e.host) == TransferOf(e.host).addr && !A.FromBuffer(s.axi, e.host)
    ensures A.DoWrite(s.axi, e.host, AxiGranted(s, e)) == TransferOf(e.host).WriteAt?
    ensures !A.BuffAction(s.axi, e.host, AxiGranted(s, e)).write64
  {
    HostAddresses(s.axi, e.host);
    hide AxiGranted, Control.InUnshared, Control.InShared, A.UpperHalf;
  }

  lemma UnsharedNumbers(a: Addr16)
    requires 0x8000 <= a < 0x8a00
    ensures UnsharedIndex(HostBus(a)) == (a - 0x8000) / 8 < UNSHARED_DEPTH && (A.UpperHalf(a) <==> a % 8 >= 4)
  {
    var w := (a - 0x8000) / 8;
    assert HostBus(a) == w;
    assert w % 512 == w;
  }

  lemma UnsharedOnPort(s: System, e: Env)
    requires TakesUnshared(s, e) && !e.coreRuns
    ensures var t := TransferOf(e.host);
            && UnsharedPort(s, e) == HostPort(s, e, true, (t.addr - 0x8000) / 8)
            && A.Wea(s.axi, e.host, AxiGranted(s, e))
               == (if t.ReadAt? then NO_LANES else if t.addr % 8 >= 4 then A.NONE + t.strb else t.strb + A.NONE)
            && (t.WriteAt? ==> A.Din(s.axi, e.host) == if t.addr % 8 >= 4 then s.axi.wrData + t.data else t.data + s.axi.wrData)
  {
    UnsharedEnabled(s, e);
    UnsharedNumbers(TransferOf(e.host).addr);
    hide AxiGranted, HostBus, UnsharedIndex, CoreOnUnshared, HostOnUnshared, A.BuffAction, A.FromBuffer, A.DoWrite, A.PortAddr, A.UpperHalf, A.Waits;
  }

  /** With the core stopped the host writes exactly the strobed bytes of its own four of the core's
      own memory; with the core running it writes none. */
  lemma HostWritesUnshared(s: System, e: Env)
    requires TakesUnshared(s, e) && !e.coreRuns
    ensures var t, k := TransferOf(e.host), (TransferOf(e.host).addr - 0x8000) / 8;
            IoMem.Step(s, e).unshared
            == if t.ReadAt? then s.unshared
               else s.unshared[k := StoreHalf(s.unshared[k], t.addr % 8 >= 4, t.data, t.strb)]
  {
    UnsharedOnPort(s, e);
    var t, k := TransferOf(e.host), (TransferOf(e.host).addr - 0x8000) / 8;
    var word, w := s.unshared[k], s.axi.wrData;
    if t.WriteAt? {
      MergedHalves(word, w, t.data, t.strb);
      MergedHalves(word, t.data, w, t.strb);
    } else {
      assert MergeLanes(word, A.Din(s.axi, e.host), NO_LANES) == word;
      assert s.unshared[k := word] == s.unshared;
    }
    hide TakesUnshared, AxiGranted, A.Din, A.Wea, StoreHalf, MergeLanes, A.Next, D.Next, SharedPort, UnsharedPort, AxiDout, CoreReady;
  }

  lemma RunningCoreKeepsHostOut(s: System, e: Env)
    requires e.coreRuns
    ensures !HostOnUnshared(s, e)
  {
    hide AxiGranted;
  }

  /** What the read register shows while a read of the core's own memory is answered. */
  predicate ShowsUnshared(s: System, word: Lanes) {
    && s.axi.phase == A.Reading && s.axi.flags == A.Flags(false, true, false, false, true)
    && Output(s.axi.reg, s.unsharedDout) == word
  }

  lemma UnsharedRead(s: System, e: Env)
    requires TakesUnshared(s, e) && !e.coreRuns && TransferOf(e.host).ReadAt?
    ensures var n, a := IoMem.Step(s, e), TransferOf(e.host).addr;
            ShowsUnshared(n, s.unshared[(a - 0x8000) / 8]) && (A.UpperHalf(n.axi.buffAddr) <==> a % 8 >= 4)
  {
    UnsharedOnPort(s, e);
    HostAddresses(s.axi, e.host);
    hide AxiGranted, A.Din, A.Wea, D.Next, SharedPort, UnsharedPort, AxiDout, CoreReady, Control.InUnshared, Control.InShared;
  }

  lemma UnsharedStands(s: System, e: Env, word: Lanes)
    requires ShowsUnshared(s, word) && !e.host.rready
    ensures ShowsUnshared(IoMem.Step(s, e), word) && IoMem.Step(s, e).axi.buffAddr == s.axi.buffAddr
  {
    assert AxiDout(s, e) == s.unsharedDout by {
      hide AxiGranted;
    }
    hide AxiGranted, AxiDout, NextWords, NextDout, SharedPort, UnsharedPort, D.Next;
  }

  lemma {:induction false} UnsharedDataStand(s: System, env: seq<Env>, e: Env, word: Lanes)
    requires ShowsUnshared(s, word) && NotTaken(env)
    ensures HostRdata(IoMem.Run(s, env), e) == A.Half(word, A.UpperHalf(s.axi.buffAddr))
    decreases |env|
  {
    if env == [] {
      assert AxiDout(s, e) == s.unsharedDout by {
        hide AxiGranted;
      }
      hide AxiDout;
    } else {
      hide IoMem.Step, ShowsUnshared, HostRdata;
      UnsharedStands(s, env[0], word);
      UnsharedDataStand(IoMem.Step(s, env[0]), env[1..], e, word);
    }
  }

  /** With the core stopped, a read of the core's own memory answers with the four bytes at its
      address, until the host takes them. */
  lemma HostReadsUnshared(s: System, e: Env, env: seq<Env>, f: Env)
    requires TakesUnshared(s, e) && !e.coreRuns && TransferOf(e.host).ReadAt? && NotTaken(env)
    ensures var a := TransferOf(e.host).addr;
            HostRdata(IoMem.Run(IoMem.Step(s, e), env), f) == A.Half(s.unshared[(a - 0x8000) / 8], a % 8 >= 4)
  {
    UnsharedRead(s, e);
    UnsharedDataStand(IoMem.Step(s, e), env, f, s.unshared[(TransferOf(e.host).addr - 0x8000) / 8]);
    hide IoMem.Step, IoMem.Run, ShowsUnshared, HostRdata, TakesUnshared, A.Half;
  }

  // Grants ----------------------------------------------------------------------------------------------------

  /** A grant to the host is used in its own clock, but for a write that is kept behind a load. */
  lemma HostUsesGrantExactlyWhen(s: System, e: Env)
    requires Proper(s, e) && HostGranted(s, e)
    ensures var t := TransferOf(e.host);
            HostOnShared(s, e)
            <==> !(s.axi.phase == A.Init && s.axi.buff.IsLoad() && t.WriteAt? && ToShared(t) && t.strb == [true, true, true, true])
  {
    HostAddresses(s.axi, e.host);
    assert A.ArbRequest(s.axi, e.host) && AxiGranted(s, e);
    hide Inv, HostGranted, AxiGranted, A.UpperHalf;
  }

  /** A grant to the core is used in its own clock. */
  lemma CoreUsesGrant(s: System, e: Env)
    requires CoreGranted(s, e) && !(s.core.readEn && s.core.writeEn && !s.core.atomic)
    ensures CoreOnShared(s, e)
  {
  }

  /** The core waits for nothing but the arbiter of the shared memory and the first clock of an
      atomic operation. */
  lemma CoreWaitsExactlyWhen(s: System, e: Env)
    ensures !CoreReady(s, e)
            <==> (s.core.writeEn || s.core.readEn) && s.data.phase == D.Init
                 && (0x8000 <= s.core.addr < 0x8a00 || 0x9000 <= s.core.addr < 0x1_0000)
                 && ((0x9000 <= s.core.addr && !CoreGranted(s, e)) || (s.core.writeEn && s.core.atomic))
  {
    hide CoreGranted;
  }

  // Requests while a transfer is held ------------------------------------------------------------------------------

  /** The buffer is empty after a held transfer, as it should be, exactly when no request is up in
      the clock that carries it out, or the held transfer is not a full-strobe one to the shared
      memory, or it is the other half of the store that went out and the request is a write. */
  lemma HeldLeavesEmptyExactlyWhen(s: System, e: Env)
    requires Inv(s) && A.FromSaved(s.axi) && !A.Waits(s.axi, e.host, AxiGranted(s, e))
    ensures var x, h := s.axi, e.host;
            IoMem.Step(s, e).axi.buff == A.Empty
            <==> || !Offered(h) || x.svAddr < 0x9000 || x.svStrb != [true, true, true, true]
                 || (!h.arvalid && x.svAddr / 8 == x.buffAddr / 8 && (x.svAddr % 8 >= 4) != x.buff.Store1?)
  {
    HostAddresses(s.axi, e.host);
    hide AxiGranted, AxiDout, Control.InUnshared, Control.InShared, A.UpperHalf;
  }

  /** The held transfer itself is carried out as it should be, whatever else the host requests: a
      read takes its word, and a write, which is never the other half of the store that went out,
      writes its strobed bytes. */
  lemma HeldIsServed(s: System, e: Env)
    requires Inv(s) && A.FromSaved(s.axi) && !A.Waits(s.axi, e.host, AxiGranted(s, e)) && 0x9000 <= s.axi.svAddr
    requires s.axi.phase == A.FlushThenWrite ==>
               !(s.axi.svAddr / 8 == s.axi.buffAddr / 8 && (s.axi.svAddr % 8 >= 4) != s.axi.buff.Store1?)
    ensures var x, upper := s.axi, s.axi.svAddr % 8 >= 4;
            && HostOnShared(s, e) && A.PortAddr(x, e.host) == x.svAddr
            && A.Wea(x, e.host, AxiGranted(s, e))
               == (if x.phase == A.FlushThenRead then NO_LANES else if upper then A.NONE + x.svStrb else x.svStrb + A.NONE)
            && (x.phase == A.FlushThenWrite ==> A.Din(x, e.host) == if upper then x.wrData + x.svData else x.svData + x.wrData)
            && (x.phase == A.FlushThenRead ==> !IoMem.Step(s, e).axi.reg.useSaved && IoMem.Step(s, e).axi.buffAddr == x.svAddr)
  {
    HostAddresses(s.axi, e.host);
    hide AxiGranted, AxiDout, Control.InUnshared, Control.InShared, A.UpperHalf, A.IsMap;
  }

  /** Otherwise a held read leaves a store that no one wrote, of the data that happened to be on the
      bus when the read was accepted. */
  lemma PhantomStore(s: System, e: Env)
    requires Inv(s) && s.axi.phase == A.FlushThenRead && !A.Waits(s.axi, e.host, AxiGranted(s, e))
    requires !e.host.arvalid && Offered(e.host) && IoMem.Step(s, e).axi.buff != A.Empty
    ensures var x, y := s.axi, IoMem.Step(s, e).axi;
            && y.phase == A.Reading && y.wrData == x.svData && y.buffAddr == x.svAddr
            && y.buff == if x.svAddr % 8 >= 4 then A.Store1 else A.Store0
  {
    HostAddresses(s.axi, e.host);
    hide AxiGranted, AxiDout, Control.InUnshared, Control.InShared, A.UpperHalf;
  }

  function WriteRequest(w: A.Quad): A.Pins {
    A.Pins(false, 0, true, 0x9010, true, w, A.FULL, true, true)
  }

  /** A write to 0x9000 and its response; a read of 0x9008, with g on the write data bus; and from
      the next clock on a write to 0x9010 offered until it is taken. */
  function PhantomRun(d: A.Quad, g: A.Quad, w: A.Quad): seq<Env> {
    [WriteThenFlush(d)[0], WriteThenFlush(d)[1],
     Clocked(A.Pins(true, 0x9008, false, 0, false, g, A.FULL, true, true)),
     Clocked(WriteRequest(w)), Clocked(WriteRequest(w)), Clocked(WriteRequest(w))]
  }

  lemma PhantomRead(s: System, d: A.Quad, g: A.Quad, w: A.Quad)
    requires Inv(s) && CoreIdle(s) && s.axi.phase == A.Init && s.axi.buff == A.Store0 && s.axi.buffAddr == 0x9000
    ensures var t := IoMem.Step(s, PhantomRun(d, g, w)[2]);
            && CoreIdle(t) && t.axi.phase == A.FlushThenRead && t.axi.buff == A.Store0 && t.axi.buffAddr == 0x9000
            && t.axi.svAddr == 0x9008 && t.axi.svData == g && t.axi.svStrb == A.FULL
  {
    var e := PhantomRun(d, g, w)[2];
    IdleCoreStays(s, e.host);
    assert A.ArbRequest(s.axi, e.host);
    assert AxiGranted(s, e) by {
      hide A.ArbRequest, HostGranted;
    }
    hide AxiGranted, AxiDout, SharedPort, UnsharedPort, D.Next, CoreIdle, Inv;
  }

  lemma PhantomKept(s: System, d: A.Quad, g: A.Quad, w: A.Quad)
    requires Inv(s) && CoreIdle(s) && s.axi.phase == A.FlushThenRead && s.axi.buff == A.Store0 && s.axi.buffAddr == 0x9000
    requires s.axi.svAddr == 0x9008 && s.axi.svData == g && s.axi.svStrb == A.FULL
    ensures var t := IoMem.Step(s, PhantomRun(d, g, w)[3]);
            CoreIdle(t) && t.axi.phase == A.Reading && t.axi.buff == A.Store0 && t.axi.buffAddr == 0x9008 && t.axi.wrData == g
  {
    var e := PhantomRun(d, g, w)[3];
    IdleCoreStays(s, e.host);
    assert A.ArbRequest(s.axi, e.host);
    assert AxiGranted(s, e) by {
      hide A.ArbRequest, HostGranted;
    }
    assert !A.Waits(s.axi, e.host, AxiGranted(s, e)) by {
      hide AxiGranted, A.ArbRequest, A.MapRequest;
    }
    HeldLeavesEmptyExactlyWhen(s, e);
    PhantomStore(s, e);
    hide IoMem.Step, AxiGranted, A.Waits, CoreIdle, Inv;
  }

  lemma PhantomAnswered(s: System, d: A.Quad, g: A.Quad, w: A.Quad)
    requires CoreIdle(s) && s.axi.phase == A.Reading && s.axi.buff == A.Store0 && s.axi.buffAddr == 0x9008 && s.axi.wrData == g
    ensures var t := IoMem.Step(s, PhantomRun(d, g, w)[4]);
            CoreIdle(t) && t.axi.phase == A.Init && t.axi.buff == A.Store0 && t.axi.buffAddr == 0x9008 && t.axi.wrData == g
  {
    var e := PhantomRun(d, g, w)[4];
    IdleCoreStays(s, e.host);
    hide AxiGranted, AxiDout, SharedPort, UnsharedPort, D.Next, CoreIdle;
  }

  lemma PhantomWritten(s: System, d: A.Quad, g: A.Quad, w: A.Quad)
    requires Inv(s) && CoreIdle(s) && s.axi.phase == A.Init && s.axi.buff == A.Store0 && s.axi.buffAddr == 0x9008 && s.axi.wrData == g
    ensures A.Half(IoMem.Step(s, PhantomRun(d, g, w)[5]).shared[1], false) == g
  {
    var e := PhantomRun(d, g, w)[5];
    IdleCoreStays(s, e.host);
    assert A.ArbRequest(s.axi, e.host);
    assert AxiGranted(s, e) by {
      hide A.ArbRequest, HostGranted;
    }
    assert AcceptsOverKept(s, e) by {
      hide AxiGranted;
    }
    KeptStoreSurvivesExactlyWhen(s, e);
    hide IoMem.Step, AxiGranted, HostOnShared, CoreIdle, Inv;
    assert WordIndex(0x9008) == 1;
  }

  /** From reset, with the core idle and a host that keeps every request up until it is taken: the
      shared RAM ends with g at 0x9008, an address that was only read. */
  lemma PhantomStoreExample(s0: System, d: A.Quad, g: A.Quad, w: A.Quad)
    requires Initial(s0)
    ensures IoMem.Run(s0, PhantomRun(d, g, w)).shared[1][..4] == g
  {
    hide IoMem.Step, CoreIdle, Inv;
    StartsIdle(s0);
    var env := PhantomRun(d, g, w);
    var s1 := IoMem.Step(s0, env[0]);
    var s2 := IoMem.Step(s1, env[1]);
    var s3 := IoMem.Step(s2, env[2]);
    var s4 := IoMem.Step(s3, env[3]);
    var s5 := IoMem.Step(s4, env[4]);
    LosingWrite(s0, d);
    LosingResponse(s1, d);
    InvStep(s0, env[0]);
    InvStep(s1, env[1]);
    PhantomRead(s2, d, g, w);
    InvStep(s2, env[2]);
    PhantomKept(s3, d, g, w);
    InvStep(s3, env[3]);
    PhantomAnswered(s4, d, g, w);
    InvStep(s4, env[4]);
    PhantomWritten(s5, d, g, w);
    hide PhantomRun;
    ThreeSteps(s0, env[..3]);
    ThreeSteps(s3, env[3..]);
    RunAppend(s0, env[..3], env[3..]);
    assert env == env[..3] + env[3..];
  }

  lemma {:induction false} RunAppend(s: System, first: seq<Env>, second: seq<Env>)
    ensures IoMem.Run(s, first + second) == IoMem.Run(IoMem.Run(s, first), second)
    decreases |first|
  {
    hide IoMem.Step;
    if first == [] {
      assert first + second == second;
    } else {
      assert (first + second)[0] == first[0] && (first + second)[1..] == first[1..] + second;
      RunAppend(IoMem.Step(s, first[0]), first[1..], second);
    }
  }
}
