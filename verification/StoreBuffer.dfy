/** What the host side is for: a flat memory of 64-bit words reached 32 bits at a time, with a
    buffer for one 32-bit store and a snapshot for one 64-bit load.  No bus, no states of the
    controller and no latencies: one event is one atomic step. */
module StoreBuffer {
  import opened ByteLanes
  import opened IoMem
  import A = AxiController

  /** A 32-bit store kept back, and the 64-bit word taken by a load of one half. */
  datatype Pending = NoStore | Kept(index: WordIdx, upper: bool, data: A.Quad)
  datatype Snapshot = NoLoad | Taken(index: WordIdx, upper: bool, word: Lanes)

  /** `answer` is the data of the last load. */
  datatype Buffer = Buffer(mem: SharedWords, pending: Pending, snapshot: Snapshot, answer: A.Quad)

  /** Host events.  `combine` says that a load or store may use the buffer: all four strobes are
      up and no kept store had to be written out for it first. */
  datatype Event =
    | Nothing
    | Drain
    | HostLoad(index: WordIdx, upper: bool, combine: bool)
    | HostStore(index: WordIdx, upper: bool, data: A.Quad, strb: A.Strobe, combine: bool)
    | Elsewhere

  function SetHalf(word: Lanes, upper: bool, data: A.Quad): Lanes {
    if upper then word[..4] + data else data + word[4..]
  }

  function MergeQuad(old_: A.Quad, data: A.Quad, strb: A.Strobe): A.Quad {
    seq(4, (k: int) requires 0 <= k < 4 => if strb[k] then data[k] else old_[k])
  }

  function StoreHalf(word: Lanes, upper: bool, data: A.Quad, strb: A.Strobe): Lanes {
    SetHalf(word, upper, MergeQuad(A.Half(word, upper), data, strb))
  }

  /** Memory as the host sees it: the kept store counts as done. */
  function View(b: Buffer): SharedWords {
    match b.pending
    case NoStore => b.mem
    case Kept(i, u, d) => b.mem[i := SetHalf(b.mem[i], u, d)]
  }

  /** The other half of the kept double word. */
  predicate Completes(b: Buffer, ev: Event) {
    ev.HostStore? && ev.combine && b.pending.Kept? && b.pending.index == ev.index && b.pending.upper != ev.upper
  }

  /** The other half of the snapshot. */
  predicate Repeats(b: Buffer, ev: Event) {
    ev.HostLoad? && ev.combine && b.snapshot.Taken? && b.snapshot.index == ev.index && b.snapshot.upper != ev.upper
  }

  function Next(b: Buffer, ev: Event): Buffer {
    match ev
    case Nothing => b
    case Drain => Buffer(View(b), NoStore, NoLoad, b.answer)
    case Elsewhere => b.(snapshot := NoLoad)
    case HostLoad(i, u, combine) =>
      if Repeats(b, ev) then b.(snapshot := NoLoad, answer := A.Half(b.snapshot.word, u))
      else b.(snapshot := if combine then Taken(i, u, b.mem[i]) else NoLoad, answer := A.Half(b.mem[i], u))
    case HostStore(i, u, d, strb, combine) =>
      if combine && b.pending.NoStore? then b.(pending := Kept(i, u, d), snapshot := NoLoad)
      else if Completes(b, ev) then
        b.(mem := b.mem[i := if u then b.pending.data + d else d + b.pending.data], pending := NoStore, snapshot := NoLoad)
      else b.(mem := b.mem[i := StoreHalf(b.mem[i], u, d, strb)], snapshot := NoLoad)
  }

  /** Events the controller produces: nothing but the completing half finds a kept store. */
  predicate Enabled(b: Buffer, ev: Event) {
    && (ev.HostStore? && ev.combine ==> ev.strb == A.FULL)
    && (ev.Nothing? || ev.Drain? || b.pending.NoStore? || Completes(b, ev))
  }

  /** Flat memory seen by the host: exactly a store changes it, in exactly the strobed bytes of
      its own half; keeping it back, combining it and writing it out are invisible.  A load
      returns that memory, or the other half of the word that the load before it returned. */
  lemma HostSeesFlatMemory(b: Buffer, ev: Event)
    requires Enabled(b, ev)
    ensures View(Next(b, ev)) == if ev.HostStore? then View(b)[ev.index := StoreHalf(View(b)[ev.index], ev.upper, ev.data, ev.strb)]
                                 else View(b)
    ensures ev.HostLoad? ==> Next(b, ev).answer == A.Half(if Repeats(b, ev) then b.snapshot.word else View(b)[ev.index], ev.upper)
    ensures ev.HostLoad? && Next(b, ev).snapshot.Taken? ==>
              Next(b, ev).snapshot == Taken(ev.index, ev.upper, View(b)[ev.index]) && !Repeats(b, ev)
  {
    if ev.HostStore? {
      FullStrobe(View(b)[ev.index], ev.upper, ev.data);
      assert A.Half(View(b)[ev.index], true) == View(b)[ev.index][4..];
    }
  }

  lemma FullStrobe(word: Lanes, upper: bool, data: A.Quad)
    ensures StoreHalf(word, upper, data, A.FULL) == SetHalf(word, upper, data)
  {
    assert MergeQuad(A.Half(word, upper), data, A.FULL) == data;
  }

  /** A store puts the strobed bytes in the lanes of its own half and leaves all others. */
  lemma StoreHalfLanes(word: Lanes, upper: bool, data: A.Quad, strb: A.Strobe, k: Lane)
    ensures StoreHalf(word, upper, data, strb)[k]
            == if (k >= 4) == upper && strb[k % 4] then data[k % 4] else word[k]
  {
  }
}
