/** The byte-enable RAM with its registered output, and the register that hides the clock of
    latency such a RAM has. */
module DelayedRegister {
  import opened ByteLanes

  // The synchronous RAM -----------------------------------------------------------------------

  type LaneSet = s: seq<bool> | |s| == 8 witness [false, false, false, false, false, false, false, false]

  const NO_LANES: LaneSet := [false, false, false, false, false, false, false, false]

  /** What the pins of the RAM port ask for in one clock. */
  datatype Port = Port(ena: bool, index: nat, din: Lanes, wea: LaneSet)
  {
    predicate Fits(depth: nat) { ena ==> index < depth }
  }

  /** Contents after the edge. */
  function NextWords(words: seq<Lanes>, p: Port): (r: seq<Lanes>)
    ensures |r| == |words|
  {
    if p.ena && p.index < |words| then words[p.index := MergeLanes(words[p.index], p.din, p.wea)] else words
  }

  /** The output register after the edge: the word as it was before the edge, or zeros. */
  function NextDout(words: seq<Lanes>, p: Port): Lanes {
    if p.ena && p.index < |words| then words[p.index] else ZERO_LANES
  }

  class BlockRam {
    const words: array<Lanes>
    var dout: Lanes

    constructor (depth: nat)
      ensures fresh(words) && words.Length == depth && dout == ZERO_LANES
      ensures forall k :: 0 <= k < depth ==> words[k] == ZERO_LANES
    {
      words := new Lanes[depth](_ => ZERO_LANES);
      dout := ZERO_LANES;
    }

    /** The rising edge: the output register takes the old word, then the loop over the byte
        enables writes the enabled bytes in place. */
    method RisingEdge(p: Port)
      requires p.Fits(words.Length)
      modifies this, words
      ensures words[..] == NextWords(old(words[..]), p)
      ensures dout == NextDout(old(words[..]), p)
    {
      dout := if p.ena then words[p.index] else ZERO_LANES;
      ghost var was := words[..];
      for k := 0 to 8
        invariant dout == NextDout(was, p)
        invariant p.ena ==> forall j :: 0 <= j < words.Length && j != p.index ==> words[j] == was[j]
        invariant p.ena ==> forall j :: 0 <= j < 8 ==>
                    words[p.index][j] == if j < k && p.wea[j] then p.din[j] else was[p.index][j]
        invariant !p.ena ==> words[..] == was
      {
        if p.ena && p.wea[k] {
          words[p.index] := words[p.index][k := p.din[k]];
        }
      }
      assert p.ena ==> words[p.index] == MergeLanes(was[p.index], p.din, p.wea);
      assert words[..] == NextWords(was, p);
    }
  }

  // The delayed register -----------------------------------------------------------------------

  /** `useSaved` is false only in the clock after a load. */
  datatype Delayed = Delayed(useSaved: bool, saved: Lanes)

  function Output(d: Delayed, input: Lanes): Lanes {
    if d.useSaved then d.saved else input
  }

  function NextDelayed(d: Delayed, load: bool, input: Lanes): Delayed {
    Delayed(!load, if !d.useSaved && !load then input else d.saved)
  }

  class DelayedReg {
    var useSaved: bool
    var saved: Lanes

    function View(): Delayed
      reads this
    {
      Delayed(useSaved, saved)
    }

    constructor ()
      ensures View() == Delayed(false, ZERO_LANES)
    {
      useSaved, saved := false, ZERO_LANES;
    }

    method RisingEdge(load: bool, input: Lanes)
      modifies this
      ensures View() == NextDelayed(old(View()), load, input)
    {
      if !useSaved {
        if load {
          useSaved := false;
        } else {
          useSaved := true;
          saved := input;
        }
      } else {
        useSaved := !load;
      }
    }
  }

  // Latency hiding ----------------------------------------------------------------------------

  /** A delayed register behind the RAM output, and one clock of both. */
  datatype Chain = Chain(words: seq<Lanes>, dout: Lanes, reg: Delayed)

  /** In one clock: the port, and whether this clock's read is loaded into the register. */
  datatype Clock = Clock(port: Port, load: bool)

  function Step(c: Chain, k: Clock): Chain {
    Chain(NextWords(c.words, k.port), NextDout(c.words, k.port), NextDelayed(c.reg, k.load, c.dout))
  }

  function Run(c: Chain, clocks: seq<Clock>): (r: Chain)
    ensures |r.words| == |c.words|
    decreases |clocks|
  {
    if clocks == [] then c else Run(Step(c, clocks[0]), clocks[1..])
  }

  function Shown(c: Chain): Lanes {
    Output(c.reg, c.dout)
  }

  /** Nothing that happens on the port changes what the register shows until the next load. */
  lemma {:induction false} ShownIsHeld(c: Chain, clocks: seq<Clock>)
    requires forall k :: 0 <= k < |clocks| ==> !clocks[k].load
    ensures Shown(Run(c, clocks)) == Shown(c)
    decreases |clocks|
  {
    if clocks != [] {
      var next := Step(c, clocks[0]);
      assert !clocks[0].load;
      assert next.reg.useSaved && next.reg.saved == Shown(c);
      ShownIsHeld(next, clocks[1..]);
    }
  }

  /** For every load pattern and every other use of the port, from the clock after a load until
      the next load the register shows the word that was in RAM at the load. */
  lemma {:induction false} LatencyIsHidden(c: Chain, before: seq<Clock>, read: Clock, after: seq<Clock>)
    requires read.load && read.port.ena && read.port.index < |c.words|
    requires forall k :: 0 <= k < |after| ==> !after[k].load
    ensures Shown(Run(c, before + ([read] + after))) == Run(c, before).words[read.port.index]
  {
    var at := Run(c, before);
    RunSplits(c, before, [read] + after);
    assert ([read] + after)[0] == read && ([read] + after)[1..] == after;
    ShownIsHeld(Step(at, read), after);
  }

  lemma {:induction false} RunSplits(c: Chain, first: seq<Clock>, rest: seq<Clock>)
    ensures Run(c, first + rest) == Run(Run(c, first), rest)
    decreases |first|
  {
    hide Step;
    if first == [] {
      assert first + rest == rest;
    } else {
      assert (first + rest)[0] == first[0] && (first + rest)[1..] == first[1..] + rest;
      RunSplits(Step(c, first[0]), first[1..], rest);
    }
  }
}
