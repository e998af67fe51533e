/** The two-way arbiter of the shared memory: alternating priority, no grant while the owner of
    the bus holds the bus frame. */
module Arbiter {

  /** Requests in one clock: the core's data interface is requester 0, the host side requester 1. */
  datatype Inputs = Inputs(busFrame: bool, core: bool, host: bool)

  /** `prio` is true when requester 1 has priority. */
  predicate GrantsCore(prio: bool, i: Inputs) {
    !i.busFrame && ((i.core && !prio) || (i.core && !i.host))
  }

  predicate GrantsHost(prio: bool, i: Inputs) {
    !i.busFrame && ((i.host && prio) || (i.host && !i.core))
  }

  function NextPrio(prio: bool, i: Inputs): bool {
    if GrantsCore(prio, i) then true else if GrantsHost(prio, i) then false else prio
  }

  class BinaryArbiter {
    var prio: bool

    constructor ()
      ensures !prio
    {
      prio := false;
    }

    /** The rising edge: whoever was granted gives the priority away. */
    method RisingEdge(i: Inputs) returns (core: bool, host: bool)
      modifies this
      ensures core == GrantsCore(old(prio), i) && host == GrantsHost(old(prio), i)
      ensures prio == NextPrio(old(prio), i)
      ensures !(core && host) && ((core || host) <==> !i.busFrame && (i.core || i.host))
    {
      core := !i.busFrame && ((i.core && !prio) || (i.core && !i.host));
      host := !i.busFrame && ((i.host && prio) || (i.host && !i.core));
      if core {
        prio := true;
      } else if host {
        prio := false;
      }
    }
  }

  /** With either priority the grants exclude each other, and one is given exactly when a request
      is up without a bus frame. */
  lemma GrantsExclude(prio: bool, i: Inputs)
    ensures !(GrantsCore(prio, i) && GrantsHost(prio, i))
    ensures (GrantsCore(prio, i) || GrantsHost(prio, i)) <==> !i.busFrame && (i.core || i.host)
    ensures (GrantsCore(prio, i) ==> i.core) && (GrantsHost(prio, i) ==> i.host)
  {
  }

  // Whole runs -----------------------------------------------------------------------------

  /** Clocks of a run in which the bus frame is down. */
  function Frameless(ins: seq<Inputs>): nat {
    if ins == [] then 0 else (if ins[0].busFrame then 0 else 1) + Frameless(ins[1..])
  }

  /** Does the requester ask in every clock of the run and get nothing? */
  predicate Starves(prio: bool, ins: seq<Inputs>, host: bool)
    decreases |ins|
  {
    ins == []
    || ((if host then ins[0].host && !GrantsHost(prio, ins[0]) else ins[0].core && !GrantsCore(prio, ins[0]))
        && Starves(NextPrio(prio, ins[0]), ins[1..], host))
  }

  /** A requester that keeps asking is refused in at most one clock without a bus frame, and in
      none when it holds the priority: the other side cannot be served twice in a row. */
  lemma {:induction false} RefusedAtMostOnce(prio: bool, ins: seq<Inputs>, host: bool)
    requires Starves(prio, ins, host)
    ensures Frameless(ins) <= if prio == host then 0 else 1
    decreases |ins|
  {
    if ins != [] {
      RefusedAtMostOnce(NextPrio(prio, ins[0]), ins[1..], host);
    }
  }
}
