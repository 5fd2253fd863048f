/** Traces as the machine records them: clocked, and replaying to the memory they were taken from. */
module MachineTraces {
  import opened Powers
  import opened Records
  import opened ByteMemory
  import opened NetLayout
  import opened WitnessOrders
  import opened WitnessBuilder
  import Uair

  /** The cells after the writes of a trace. */
  function Replay(trace: seq<TraceRecord>): Cells {
    if trace == [] then map[]
    else
      var last := trace[|trace| - 1];
      var before := Replay(trace[..|trace| - 1]);
      if last.instruction.Write? then before[last.address := last.value] else before
  }

  lemma ReplayAppend(trace: seq<TraceRecord>, r: TraceRecord)
    ensures Replay(trace + [r]) == if r.instruction.Write? then Replay(trace)[r.address := r.value] else Replay(trace)
  {
    assert (trace + [r])[..|trace|] == trace;
  }

  /** Record i has time i, and as a read it recorded what the earlier writes left in its cell. */
  predicate IsMachineRecord(trace: seq<TraceRecord>, i: nat)
    requires i < |trace|
  {
    && trace[i].timeLog == i
    && (trace[i].instruction.Read? ==> trace[i].value == CellAt(Replay(trace[..i]), trace[i].address))
  }

  /** Times are 0, 1, 2, ... and each read recorded the last value written to its cell, or zero. */
  predicate IsMachineTrace(trace: seq<TraceRecord>) {
    forall i :: 0 <= i < |trace| ==> IsMachineRecord(trace, i)
  }

  lemma MachineTraceAppend(trace: seq<TraceRecord>, r: TraceRecord)
    requires IsMachineTrace(trace) && r.timeLog == |trace|
    requires r.instruction.Read? ==> r.value == CellAt(Replay(trace), r.address)
    ensures IsMachineTrace(trace + [r])
  {
    var longer := trace + [r];
    forall i | 0 <= i < |longer| ensures IsMachineRecord(longer, i) {
      if i < |trace| {
        assert longer[..i] == trace[..i];
        assert IsMachineRecord(trace, i);
      } else {
        assert longer[..i] == trace;
      }
    }
  }

  predicate WrittenBefore(trace: seq<TraceRecord>, i: nat)
    requires i < |trace|
  {
    trace[i].instruction.Read? ==> trace[i].address in Replay(trace[..i])
  }

  /** No cell is read before it is written. */
  predicate NoReadBeforeWrite(trace: seq<TraceRecord>) {
    forall i :: 0 <= i < |trace| ==> WrittenBefore(trace, i)
  }

  /** A cell of the replay was written, and holds the last value written to it. */
  lemma {:induction false} ReplayFinds(trace: seq<TraceRecord>, n: nat, a: nat) returns (w: nat)
    requires n <= |trace| && a in Replay(trace[..n])
    ensures w < n && trace[w].instruction.Write? && trace[w].address == a && trace[w].value == Replay(trace[..n])[a]
    ensures forall m :: w < m < n && trace[m].address == a ==> !trace[m].instruction.Write?
  {
    assert trace[..n][..n - 1] == trace[..n - 1];
    if trace[n - 1].instruction.Write? && trace[n - 1].address == a {
      w := n - 1;
    } else {
      w := ReplayFinds(trace, n - 1, a);
    }
  }

  lemma {:induction false} ReplayMisses(trace: seq<TraceRecord>, n: nat, a: nat, w: nat)
    requires n <= |trace| && a !in Replay(trace[..n]) && w < n && trace[w].address == a
    ensures trace[w].instruction.Read?
  {
    assert trace[..n][..n - 1] == trace[..n - 1];
    if w < n - 1 {
      ReplayMisses(trace, n - 1, a, w);
    }
  }

  /** A read is served by the last write exactly when the replay holds its value. */
  lemma ServedByReplay(trace: seq<TraceRecord>, i: nat)
    requires i < |trace|
    ensures ReadIsServed(trace, i)
      <==> trace[i].address in Replay(trace[..i]) && Replay(trace[..i])[trace[i].address] == trace[i].value
  {
    var a := trace[i].address;
    if a in Replay(trace[..i]) {
      var w := ReplayFinds(trace, i, a);
      assert IsLastWrite(trace, w, i);
      if ReadIsServed(trace, i) {
        var w' :| IsLastWrite(trace, w', i) && trace[w'].value == trace[i].value;
        LastWriteIsUnique(trace, w, w', i);
      }
    } else if ReadIsServed(trace, i) {
      var w :| IsLastWrite(trace, w, i) && trace[w].value == trace[i].value;
      ReplayMisses(trace, i, a, w);
    }
  }

  /** A machine trace is memory-consistent exactly when no cell is read before it is written. */
  lemma MachineTraceConsistency(trace: seq<TraceRecord>)
    requires IsMachineTrace(trace)
    ensures ReadsLastWrites(trace) <==> NoReadBeforeWrite(trace)
  {
    forall i | 0 <= i < |trace| && trace[i].instruction.Read?
      ensures ReadIsServed(trace, i) <==> WrittenBefore(trace, i)
    {
      ServedByReplay(trace, i);
      assert IsMachineRecord(trace, i);
    }
    if ReadsLastWrites(trace) {
      forall i | 0 <= i < |trace| ensures WrittenBefore(trace, i) {
        if trace[i].instruction.Read? {
          assert ReadIsServed(trace, i);
        }
      }
    }
  }

  lemma {:induction false} PowBound(k: nat)
    requires k <= MAX_NUM_VARS
    ensures Pow2(k) <= 65536
  {
    Pow2Monotone(k, MAX_NUM_VARS);
    assert Pow2(4) == 16;
    Pow2Adds(4, 4);
    assert Pow2(8) == 256;
    Pow2Adds(8, 8);
  }

  /** Every non-empty machine trace below the size bound meets the builder's contract. */
  lemma MachineTraceIsBuildable(trace: seq<TraceRecord>)
    requires IsMachineTrace(trace) && 0 < |trace| < Pow2(MAX_NUM_VARS)
    ensures Buildable(trace) && trace[0].timeLog == 0
  {
    ClockOf(trace);
    ClockIsBuildable(trace);
  }

  lemma ClockOf(trace: seq<TraceRecord>)
    requires IsMachineTrace(trace)
    ensures forall i :: 0 <= i < |trace| ==> trace[i].timeLog == i
  {
    forall i | 0 <= i < |trace| ensures trace[i].timeLog == i {
      assert IsMachineRecord(trace, i);
    }
  }

  lemma ClockIsBuildable(trace: seq<TraceRecord>)
    requires (forall i :: 0 <= i < |trace| ==> trace[i].timeLog == i) && 0 < |trace| < Pow2(MAX_NUM_VARS)
    ensures Buildable(trace)
  {
    hide CeilLog2, Pow2, Replay;
    SizeBound(|trace|);
    PowBound(NumVarsFor(|trace|));
  }

  /**
   Running the builder on a machine trace always succeeds below the size bound, and the witness
   satisfies the UAIR exactly when no cell is read before it is written.
   */
  method ProveRun(trace: seq<TraceRecord>) returns (built: BuildResult<(Uair.UairTrace, nat)>)
    requires IsMachineTrace(trace) && AllFit(trace) && 0 < |trace| < Pow2(MAX_NUM_VARS)
    ensures built.Ok? && ProvesExactly(built.value.0, built.value.1, trace)
    ensures ReadsLastWrites(trace) <==> NoReadBeforeWrite(trace)
    ensures forall beyond :: Uair.Satisfies(built.value.0, built.value.1, beyond) <==> NoReadBeforeWrite(trace)
  {
    hide ReadsLastWrites, NoReadBeforeWrite, Buildable, Pow2, AllFit;
    MachineTraceIsBuildable(trace);
    MachineTraceConsistency(trace);
    built := BuildUairTrace(trace);
  }
}
