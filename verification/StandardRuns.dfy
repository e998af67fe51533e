/** Whole runs of the pipeline against the standard. */
module StandardRuns {
  import opened InstructionSet
  import opened SequentialMachine
  import opened CoreRefinement
  import opened CoreRuns
  import Core

  /** From m to n as the standard asks, exactly unless the instruction deviates. */
  ghost predicate StandardUnlessDeviating(imem: Program, m: Machine, n: Machine) {
    Standard(imem, m, n, AccessedAt(m.regs, imem[m.pc])) <==> !Deviates(imem, m)
  }

  lemma CoveredIsPlain(imem: Program, m: Machine)
    requires Covered(imem)
    ensures Plain(imem[m.pc])
  {
    assert imem[m.pc].Modelled();
  }

  /** The pipeline runs the instruction set.  For every covered program, divider latency and memory
      wait pattern, the drained state after a run from reset is reached by as many steps as
      instructions entered EX, and each of these steps from a state that runs is the step of
      RFC 9669 exactly when the instruction is none of those that deviate. */
  lemma PipelineFollowsTheStandard(imem: Program, p: Core.State, env: seq<Core.Env>)
    requires Core.Initial(p) && Covered(imem)
    ensures var m0 := Machine(p.regs, p.ram, 0);
            && Drain(Core.Run(imem, p, env)) == SequentialMachine.Run(imem, m0, Executed(imem, p, env))
            && forall k: nat :: k < Executed(imem, p, env) ==>
                 var m := SequentialMachine.Run(imem, m0, k);
                 OutcomeOf(imem, m) == Running ==> StandardUnlessDeviating(imem, m, SequentialMachine.Run(imem, m0, k + 1))
  {
    PipelineRefinesSequentialMachine(imem, p, env);
    var m0 := Machine(p.regs, p.ram, 0);
    hide Core.Initial, Drain, Executed, Covered, OutcomeOf, Standard, Deviates, Plain, AccessedAt, SequentialMachine.Next;
    forall k: nat | k < Executed(imem, p, env) && OutcomeOf(imem, SequentialMachine.Run(imem, m0, k)) == Running
      ensures StandardUnlessDeviating(imem, SequentialMachine.Run(imem, m0, k), SequentialMachine.Run(imem, m0, k + 1))
    {
      var m := SequentialMachine.Run(imem, m0, k);
      CoveredIsPlain(imem, m);
      RunNext(imem, m0, k);
      NextIsStandardExactlyWhen(imem, m);
    }
  }
}
