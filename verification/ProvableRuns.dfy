/** From a program to a proof relation: the B256 machine's trace, built and judged by the UAIR. */
module ProvableRuns {
  import opened Powers
  import opened Limbs
  import opened Records
  import opened NetLayout
  import opened WitnessBuilder
  import opened MachineTraces
  import opened MachineSteps
  import opened MachineStores
  import opened MachineFootprints
  import opened MachineReadiness
  import opened MachineRecords
  import opened Machine
  import Uair

  /** The instance with 32-byte words, 256-bit addresses and a 64-bit depth. */
  predicate IsB256(m: Settings) {
    m.config.wordSize == 32 && m.limit == Pow256(32) && m.config.stackDepth < U64
  }

  lemma RunTraceFits(m: Settings, s: State)
    requires IsB256(m) && Good(m, s) && |s.trace| < Pow2(MAX_NUM_VARS)
    ensures AllFit(s.trace)
  {
    assert |s.trace| < U64 by {
      PowBound(MAX_NUM_VARS);
    }
    hide Pow2, Pow256, Replay;
    forall i | 0 <= i < |s.trace| ensures Fits(s.trace[i]) {
      assert RecordFits(m, s.trace[i]) && IsMachineRecord(s.trace, i);
    }
  }

  /** A run that recorded nothing, or too much, has no witness, and no other error hides that. */
  lemma UnprovableRun(trace: seq<TraceRecord>)
    requires IsMachineTrace(trace) && !(0 < |trace| < Pow2(MAX_NUM_VARS))
    ensures BuildError(trace) == Some(if trace == [] then EmptyTrace else TraceTooLong)
  {
    hide Pow2, Replay;
    TimeErrorIsExact(trace, 0);
    forall j | 0 <= j < |trace| - 1 ensures trace[j].timeLog < trace[j + 1].timeLog {
      assert IsMachineRecord(trace, j) && IsMachineRecord(trace, j + 1);
    }
  }

  /**
   When the UAIR accepts the witness of a run from a fresh machine: the program writes every cell
   before it reads it, in any layout; when the sections lie apart, it finds every operand ready.
   */
  ghost predicate JudgesProgram(m: Settings, program: seq<Operation>, accepted: bool)
    requires m.config.wordSize > 0
  {
    && (accepted <==> WritesFirst(m, program))
    && forall n :: SectionsApart(m, n) && AllSectioned(m, n, program) ==> (accepted <==> AllReady(m, program))
  }

  lemma FreshRuns(m: Settings, program: seq<Operation>)
    requires m.config.wordSize > 0 && AllLegal(m, program)
    ensures JudgesProgram(m, program, NoReadBeforeWrite(Run(m, EMPTY, program).0.trace))
  {
    CleanRuns(m, program);
    forall n | SectionsApart(m, n) && AllSectioned(m, n, program)
      ensures NoReadBeforeWrite(Run(m, EMPTY, program).0.trace) <==> AllReady(m, program)
    {
      ReadyRuns(m, n, program);
    }
  }

  /**
   How long a fresh run's trace is: the count of the program, less the sums refused, of which there
   are none in a wrapping build or without additions.
   */
  ghost predicate CountsProgram(m: Settings, program: seq<Operation>, outputs: seq<Output>, length: nat)
    requires m.config.wordSize > 0
  {
    && length + RefusedSums(outputs) == ProgramCount(m, program)
    && ((m.wraps || forall i :: 0 <= i < |program| ==> !program[i].AddOp?) ==> length == ProgramCount(m, program))
  }

  lemma FreshCounts(m: Settings, program: seq<Operation>)
    requires m.config.wordSize > 0
    ensures CountsProgram(m, program, Run(m, EMPTY, program).1, |Run(m, EMPTY, program).0.trace|)
  {
    hide Run, RefusedSums, ProgramCount;
    RunCounts(m, program);
    if m.wraps || forall i :: 0 <= i < |program| ==> !program[i].AddOp? {
      NothingRefused(m, program);
    }
  }

  /**
   Runs a program, in any layout and with any addresses in the space, and builds the witness of
   its trace. Building succeeds exactly when the run recorded at least one access and fits the size
   bound, and the witness then satisfies the UAIR exactly when the run read no cell before writing
   it; from a fresh machine both are conditions on the program.
   */
  method RunAndBuild(m: StateMachine, program: seq<Operation>)
    returns (outputs: seq<Output>, built: BuildResult<(Uair.UairTrace, nat)>)
    requires m.Valid() && IsB256(m.settings) && AllLegal(m.settings, program)
    modifies m
    ensures m.Valid() && (m.Now(), outputs) == Run(m.settings, old(m.Now()), program)
    ensures built.Ok? <==> 0 < |m.executionTrace| < Pow2(MAX_NUM_VARS)
    ensures old(m.Now()) == EMPTY ==> CountsProgram(m.settings, program, outputs, |m.executionTrace|)
    ensures built.Err? ==> BuildError(m.executionTrace) == Some(built.error)
    ensures built.Ok? ==>
      && ProvesExactly(built.value.0, built.value.1, m.executionTrace)
      && (forall beyond :: Uair.Satisfies(built.value.0, built.value.1, beyond) <==> NoReadBeforeWrite(m.executionTrace))
      && (old(m.Now()) == EMPTY ==>
            forall beyond :: JudgesProgram(m.settings, program, Uair.Satisfies(built.value.0, built.value.1, beyond)))
  {
    hide NoReadBeforeWrite, JudgesProgram, ProvesExactly, Run, AllLegal, BuildError;
    outputs := m.Execute(program);
    FreshCounts(m.settings, program);
    if 0 < |m.executionTrace| < Pow2(MAX_NUM_VARS) {
      RunTraceFits(m.settings, m.Now());
      FreshRuns(m.settings, program);
      built := ProveRun(m.executionTrace);
    } else {
      UnprovableRun(m.executionTrace);
      built := BuildResult.Err(if m.executionTrace == [] then EmptyTrace else TraceTooLong);
    }
  }
}
