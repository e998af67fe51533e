/** The host side of the memories: 32-bit AXI transfers become accesses to 64-bit RAM words.
    BUFF_CONTROL keeps one 32-bit store back until its other half arrives and one 64-bit load
    for a read of its other half; AXI_CONTROL runs the transfers and writes a kept store out
    before anything else is served. */
module AxiController {
  import opened Words
  import opened ByteLanes
  import opened DelayedRegister
  import Control

  type Quad = s: seq<Byte> | |s| == 4 witness [0, 0, 0, 0]
  type Strobe = s: seq<bool> | |s| == 4 witness [false, false, false, false]

  const FULL: Strobe := [true, true, true, true]
  const NONE: Strobe := [false, false, false, false]

  /** Host pins in one clock. */
  datatype Pins = Pins(
    arvalid: bool, araddr: Addr16, awvalid: bool, awaddr: Addr16,
    wvalid: bool, wdata: Quad, wstrb: Strobe, rready: bool, bready: bool)
  {
    predicate ReadReq() { arvalid }
    predicate WriteReq() { awvalid && wvalid && !arvalid }
  }

  datatype AxiPhase = Init | Reading | Writing | FlushThenRead | FlushThenWrite

  datatype BuffPhase = Empty | Store1 | Store0 | Load1 | Load0
  {
    predicate IsStore() { Store1? || Store0? }
    predicate IsLoad() { Load1? || Load0? }
  }

  /** What the access that loaded the buffered address was about. */
  datatype Flags = Flags(inst: bool, unshared: bool, shared: bool, flush: bool, access: bool)

  datatype State = State(
    phase: AxiPhase, buff: BuffPhase, svAddr: Addr16, svData: Quad, svStrb: Strobe,
    buffAddr: Addr16, flags: Flags, reg: Delayed, wrData: Quad)

  // The transfer being looked at ------------------------------------------------------------

  predicate FromSaved(s: State) { s.phase == FlushThenRead || s.phase == FlushThenWrite }

  function Addr(s: State, h: Pins): Addr16 {
    if FromSaved(s) then s.svAddr else if h.ReadReq() then h.araddr else h.awaddr
  }

  function Wdata(s: State, h: Pins): Quad { if FromSaved(s) then s.svData else h.wdata }
  function Wstrb(s: State, h: Pins): Strobe { if FromSaved(s) then s.svStrb else h.wstrb }

  predicate AxiReq(s: State, h: Pins) { h.ReadReq() || h.WriteReq() || FromSaved(s) }

  predicate UpperHalf(a: Addr16) { a / 4 % 2 == 1 }
  predicate IsInst(s: State, h: Pins) { AxiReq(s, h) && Addr(s, h) < 0x8000 }
  predicate IsUnshared(s: State, h: Pins) { AxiReq(s, h) && Control.InUnshared(Addr(s, h)) }
  predicate IsShared(s: State, h: Pins) { AxiReq(s, h) && Control.InShared(Addr(s, h)) }

  /** The map unit's registers, behind the control registers. */
  predicate IsMap(s: State, h: Pins) {
    AxiReq(s, h) && Addr(s, h) / 0x200 == 0x45 && Addr(s, h) / 4 % 0x80 > 5
  }

  predicate SameAddr(s: State, h: Pins) { s.buffAddr / 8 == Addr(s, h) / 8 }

  /** A full-strobe write (read) of the given half of a shared double word. */
  predicate WrShared(s: State, h: Pins, upper: bool) {
    h.WriteReq() && IsShared(s, h) && UpperHalf(Addr(s, h)) == upper && Wstrb(s, h) == FULL
  }

  predicate RdShared(s: State, h: Pins, upper: bool) {
    h.ReadReq() && IsShared(s, h) && UpperHalf(Addr(s, h)) == upper && Wstrb(s, h) == FULL
  }

  const FLUSH_WORD: int := 0x11FF

  /** A write to the flush address. */
  predicate FlushAddr(s: State, h: Pins) {
    h.WriteReq() && Addr(s, h) / 8 == FLUSH_WORD
  }

  predicate EffectiveFlush(s: State, h: Pins) { FlushAddr(s, h) && s.buff.IsStore() }

  predicate IsAccess(s: State, h: Pins) {
    IsInst(s, h) || IsShared(s, h) || IsUnshared(s, h) || EffectiveFlush(s, h)
  }

  // Locking the shared memory ---------------------------------------------------------------

  predicate NoRealAccess(s: State, h: Pins) {
    || (s.buff == Load0 && RdShared(s, h, true) && SameAddr(s, h))
    || (s.buff == Load1 && RdShared(s, h, false) && SameAddr(s, h))
    || (s.buff == Empty && WrShared(s, h, true))
    || (s.buff == Empty && WrShared(s, h, false))
  }

  predicate LockRequired(s: State, h: Pins) {
    !NoRealAccess(s, h) && (IsShared(s, h) || EffectiveFlush(s, h))
  }

  predicate FlushRead(s: State, h: Pins) {
    s.buff.IsStore() && h.ReadReq() && s.phase == Init
  }

  predicate FlushWrite(s: State, h: Pins) {
    if s.buff == Store1 && (FlushAddr(s, h) || (WrShared(s, h, false) && SameAddr(s, h))) then false
    else if s.buff == Store0 && (FlushAddr(s, h) || (WrShared(s, h, true) && SameAddr(s, h))) then false
    else s.buff.IsStore() && h.WriteReq() && s.phase == Init
  }

  predicate ReqState(s: State) { s.phase == Init || FromSaved(s) }

  predicate ArbRequest(s: State, h: Pins) {
    ReqState(s) && (FlushRead(s, h) || FlushWrite(s, h) || LockRequired(s, h))
  }

  predicate MapRequest(s: State, h: Pins) { ReqState(s) && IsMap(s, h) }

  predicate Waits(s: State, h: Pins, granted: bool) {
    (ArbRequest(s, h) || MapRequest(s, h)) && !granted
  }

  // AXI_CONTROL -------------------------------------------------------------------------------

  /** The transfer is accepted, but the kept store goes out first. */
  predicate FlushesFirst(s: State, h: Pins, granted: bool) {
    s.phase == Init && !Waits(s, h, granted) && ((h.ReadReq() && FlushRead(s, h)) || (h.WriteReq() && FlushWrite(s, h)))
  }

  predicate DoRead(s: State, h: Pins, granted: bool) {
    !Waits(s, h, granted) && ((s.phase == Init && h.ReadReq() && !FlushRead(s, h)) || s.phase == FlushThenRead)
  }

  predicate DoWrite(s: State, h: Pins, granted: bool) {
    && !Waits(s, h, granted)
    && ((s.phase == Init && ((h.ReadReq() && FlushRead(s, h)) || h.WriteReq())) || s.phase == FlushThenWrite)
  }

  /** The transfer is carried out and BUFF_CONTROL takes a step. */
  predicate Update(s: State, h: Pins, granted: bool) {
    && !Waits(s, h, granted)
    && (|| (s.phase == Init && h.ReadReq() && !FlushRead(s, h))
        || (s.phase == Init && h.WriteReq() && !FlushWrite(s, h))
        || FromSaved(s))
  }

  function NextPhase(s: State, h: Pins, granted: bool): AxiPhase {
    match s.phase
    case Init =>
      if Waits(s, h, granted) then Init
      else if h.ReadReq() then (if FlushRead(s, h) then FlushThenRead else Reading)
      else if h.WriteReq() then (if FlushWrite(s, h) then FlushThenWrite else Writing)
      else Init
    case Reading => if h.rready then Init else Reading
    case Writing => if h.bready then Init else Writing
    case FlushThenRead => if Waits(s, h, granted) then FlushThenRead else Reading
    case FlushThenWrite => if Waits(s, h, granted) then FlushThenWrite else Writing
  }

  // BUFF_CONTROL ------------------------------------------------------------------------------

  /** Outputs of BUFF_CONTROL in one clock. */
  datatype Action = Action(next: BuffPhase, save: bool, noAccess: bool, write64: bool)

  function FromEmpty(s: State, h: Pins): Action {
    if WrShared(s, h, true) then Action(Store1, true, true, false)
    else if WrShared(s, h, false) then Action(Store0, true, true, false)
    else if RdShared(s, h, true) then Action(Load1, false, false, false)
    else if RdShared(s, h, false) then Action(Load0, false, false, false)
    else Action(Empty, false, false, false)
  }

  function FromStore(s: State, h: Pins, upper: bool): Action {
    var same, other := if upper then Store1 else Store0, if upper then Store0 else Store1;
    if WrShared(s, h, upper) then Action(same, true, false, false)
    else if WrShared(s, h, !upper) && !SameAddr(s, h) then Action(other, true, false, false)
    else if RdShared(s, h, true) then Action(Load1, false, false, false)
    else if RdShared(s, h, false) then Action(Load0, false, false, false)
    else if WrShared(s, h, !upper) && SameAddr(s, h) then Action(Empty, false, false, true)
    else Action(Empty, false, false, false)
  }

  function FromLoad(s: State, h: Pins, upper: bool): Action {
    var same, other := if upper then Load1 else Load0, if upper then Load0 else Load1;
    if RdShared(s, h, upper) then Action(same, false, false, false)
    else if WrShared(s, h, true) then Action(Store1, true, true, false)
    else if WrShared(s, h, false) then Action(Store0, true, true, false)
    else if RdShared(s, h, !upper) && SameAddr(s, h) then Action(Empty, false, true, false)
    else if RdShared(s, h, !upper) then Action(other, false, false, false)
    else Action(Empty, false, false, false)
  }

  function BuffAction(s: State, h: Pins, granted: bool): Action {
    if !Update(s, h, granted) then Action(s.buff, false, false, false)
    else
      match s.buff
      case Empty => FromEmpty(s, h)
      case Store1 => FromStore(s, h, true)
      case Store0 => FromStore(s, h, false)
      case Load1 => FromLoad(s, h, true)
      case Load0 => FromLoad(s, h, false)
  }

  // The memory port -------------------------------------------------------------------------------

  predicate MemEn(s: State, h: Pins, granted: bool, coreRuns: bool) {
    && !((IsInst(s, h) || IsUnshared(s, h)) && coreRuns)
    && !BuffAction(s, h, granted).noAccess
    && (DoRead(s, h, granted) || DoWrite(s, h, granted)) && IsAccess(s, h)
  }

  predicate FromBuffer(s: State, h: Pins) {
    FlushRead(s, h) || FlushWrite(s, h) || FlushAddr(s, h)
  }

  function Din(s: State, h: Pins): Lanes {
    if FromBuffer(s, h) then
      if UpperHalf(s.buffAddr) then Wdata(s, h) + s.wrData else s.wrData + Wdata(s, h)
    else
      if UpperHalf(Addr(s, h)) then s.wrData + Wdata(s, h) else Wdata(s, h) + s.wrData
  }

  function Wea(s: State, h: Pins, granted: bool): LaneSet {
    if !DoWrite(s, h, granted) then NO_LANES
    else if FromBuffer(s, h) then (if UpperHalf(s.buffAddr) then NONE + FULL else FULL + NONE)
    else
      var both := if BuffAction(s, h, granted).write64 then FULL else NONE;
      if UpperHalf(Addr(s, h)) then both + Wstrb(s, h) else Wstrb(s, h) + both
  }

  function PortAddr(s: State, h: Pins): Addr16 {
    if FromBuffer(s, h) then s.buffAddr else Addr(s, h)
  }

  predicate SelectsShared(s: State, h: Pins, granted: bool, coreRuns: bool) {
    if MemEn(s, h, granted, coreRuns) then IsShared(s, h) || FlushAddr(s, h) else s.flags.shared || s.flags.flush
  }

  predicate SelectsUnshared(s: State, h: Pins, granted: bool, coreRuns: bool) {
    if MemEn(s, h, granted, coreRuns) then IsUnshared(s, h) else s.flags.unshared
  }

  predicate SelectsInst(s: State, h: Pins, granted: bool, coreRuns: bool) {
    if MemEn(s, h, granted, coreRuns) then IsInst(s, h) else s.flags.inst
  }

  function Half(word: Lanes, upper: bool): Quad {
    if upper then word[4..] else word[..4]
  }

  /** Read data of a memory access. */
  function MemRdata(s: State, douta: Lanes): Quad {
    Half(Output(s.reg, douta), UpperHalf(s.buffAddr))
  }

  // Clocked registers -------------------------------------------------------------------------------

  function NowFlags(s: State, h: Pins): Flags {
    Flags(IsInst(s, h), IsUnshared(s, h), IsShared(s, h), FlushAddr(s, h), IsAccess(s, h))
  }

  function Next(s: State, h: Pins, granted: bool, douta: Lanes): State {
    var act := BuffAction(s, h, granted);
    var saveAddr := DoRead(s, h, granted) || act.save;
    var saveChannel := FlushesFirst(s, h, granted);
    State(NextPhase(s, h, granted), act.next,
          if saveChannel then Addr(s, h) else s.svAddr,
          if saveChannel then h.wdata else s.svData,
          if saveChannel then h.wstrb else s.svStrb,
          if saveAddr then Addr(s, h) else s.buffAddr,
          if saveAddr then NowFlags(s, h) else s.flags,
          NextDelayed(s.reg, DoRead(s, h, granted) && !act.noAccess, douta),
          if act.save then Wdata(s, h) else s.wrData)
  }

  const RESET: State :=
    State(Init, Empty, 0, [0, 0, 0, 0], NONE, 0, Flags(false, false, false, false, false), Delayed(false, ZERO_LANES), [0, 0, 0, 0])

  class Controller {
    var phase: AxiPhase
    var buff: BuffPhase
    var svAddr: Addr16
    var svData: Quad
    var svStrb: Strobe
    var buffAddr: Addr16
    var flags: Flags
    var wrData: Quad
    const reg: DelayedReg

    function View(): State
      reads this, reg
    {
      State(phase, buff, svAddr, svData, svStrb, buffAddr, flags, reg.View(), wrData)
    }

    constructor ()
      ensures View() == RESET && fresh(reg)
    {
      phase, buff := Init, Empty;
      svAddr, svData, svStrb := 0, [0, 0, 0, 0], NONE;
      buffAddr, flags, wrData := 0, Flags(false, false, false, false, false), [0, 0, 0, 0];
      reg := new DelayedReg();
    }

    /** The transfer held back while a kept store is written out, and the AXI_CONTROL state. */
    method AxiEdge(s: State, h: Pins, granted: bool)
      requires s.phase == phase && s.svAddr == svAddr && s.svData == svData && s.svStrb == svStrb
      modifies this`phase, this`svAddr, this`svData, this`svStrb
      ensures var n := Next(s, h, granted, ZERO_LANES);
              phase == n.phase && svAddr == n.svAddr && svData == n.svData && svStrb == n.svStrb
    {
      hide BuffAction, ArbRequest, MapRequest, NextDelayed, NowFlags, FlushRead, FlushWrite;
      if s.phase == Init {
        if Waits(s, h, granted) {
        } else if h.ReadReq() && FlushRead(s, h) {
          phase := FlushThenRead;
          svAddr, svData, svStrb := Addr(s, h), h.wdata, h.wstrb;
        } else if h.ReadReq() {
          phase := Reading;
        } else if h.WriteReq() && FlushWrite(s, h) {
          phase := FlushThenWrite;
          svAddr, svData, svStrb := Addr(s, h), h.wdata, h.wstrb;
        } else if h.WriteReq() {
          phase := Writing;
        }
      } else if s.phase == Reading {
        if h.rready {
          phase := Init;
        }
      } else if s.phase == Writing {
        if h.bready {
          phase := Init;
        }
      } else if !Waits(s, h, granted) {
        phase := if s.phase == FlushThenRead then Reading else Writing;
      }
    }

    /** The BUFF_CONTROL state and the registers that remember a kept store or load. */
    method BuffEdge(s: State, h: Pins, granted: bool)
      requires s.buff == buff && s.buffAddr == buffAddr && s.flags == flags && s.wrData == wrData
      modifies this`buff, this`buffAddr, this`flags, this`wrData
      ensures var n := Next(s, h, granted, ZERO_LANES);
              buff == n.buff && buffAddr == n.buffAddr && flags == n.flags && wrData == n.wrData
    {
      hide WrShared, RdShared, SameAddr, Addr, Wdata, Update, NextDelayed, NowFlags, NextPhase, FlushesFirst, DoRead;
      var save := false;
      if Update(s, h, granted) {
        if s.buff == Empty || s.buff.IsLoad() {
          if s.buff == Load1 && RdShared(s, h, true) {
          } else if s.buff == Load0 && RdShared(s, h, false) {
          } else if WrShared(s, h, true) {
            buff, save := Store1, true;
          } else if WrShared(s, h, false) {
            buff, save := Store0, true;
          } else if s.buff != Empty && RdShared(s, h, s.buff == Load0) && SameAddr(s, h) {
            buff := Empty;
          } else if RdShared(s, h, true) {
            buff := Load1;
          } else if RdShared(s, h, false) {
            buff := Load0;
          } else {
            buff := Empty;
          }
        } else if WrShared(s, h, s.buff == Store1) {
          save := true;
        } else if WrShared(s, h, s.buff == Store0) && !SameAddr(s, h) {
          buff, save := if s.buff == Store1 then Store0 else Store1, true;
        } else if RdShared(s, h, true) {
          buff := Load1;
        } else if RdShared(s, h, false) {
          buff := Load0;
        } else {
          buff := Empty;
        }
      }
      if DoRead(s, h, granted) || save {
        buffAddr, flags := Addr(s, h), NowFlags(s, h);
      }
      if save {
        wrData := Wdata(s, h);
      }
    }

    method RisingEdge(h: Pins, granted: bool, douta: Lanes)
      modifies this, reg
      ensures View() == Next(old(View()), h, granted, douta)
    {
      hide BuffAction, DoRead, NextPhase, FlushesFirst, Addr, Wdata, NowFlags;
      var s := View();
      AxiEdge(s, h, granted);
      BuffEdge(s, h, granted);
      reg.RisingEdge(DoRead(s, h, granted) && !BuffAction(s, h, granted).noAccess, douta);
    }
  }
}
