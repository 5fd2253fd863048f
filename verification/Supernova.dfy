/** The SuperNova circuits: a read and a write circuit chained by a program counter. */
module Supernova {
  import opened Fields
  import opened HashChain
  import opened OnlineMemory
  import opened Nova

  datatype Circuit<F> =
    | ReadCircuit(address: F, value: F, nextInstruction: F)
    | WriteCircuit(address: F, value: F, nextInstruction: F)

  function CircuitIndex<F>(c: Circuit<F>): nat {
    match c case ReadCircuit(_, _, _) => 0 case WriteCircuit(_, _, _) => 1
  }

  /** A read checks the commitment and the cell; a write checks only the address. */
  ghost predicate CircuitHolds<F(!new)>(f: Field<F>, h: (F, F) -> F, z: seq<F>, c: Circuit<F>)
    requires |z| >= 2
  {
    var memory := z[..|z| - 1];
    && IsCell(f, |memory|, c.address)
    && (c.ReadCircuit? ==> Committed(h, z) && HoldsAt(f, memory, c.address, c.value))
  }

  ghost function CircuitOutput<F(!new)>(f: Field<F>, h: (F, F) -> F, z: seq<F>, c: Circuit<F>): (out: seq<F>)
    requires |z| >= 2
    ensures |out| == |z|
  {
    match c
    case ReadCircuit(_, _, _) => z
    case WriteCircuit(a, x, _) => WithCommitment(h, Overwrite(f, z[..|z| - 1], a, x))
  }

  method SynthesizeRead<F(==, !new)>(f: Field<F>, h: (F, F) -> F, cs: ConstraintSystem<F>, memorySize: nat,
                                     c: Circuit<F>, z: seq<F>)
    returns (pcNext: F, zOut: seq<F>)
    requires IsDomain(f) && Distinct(f, memorySize) && memorySize >= 1 && |z| == memorySize + 1 && c.ReadCircuit?
    modifies cs
    ensures pcNext == c.nextInstruction && zOut == CircuitOutput(f, h, z, c)
    ensures AllHold(f, cs.constraints) <==> AllHold(f, old(cs.constraints)) && CircuitHolds(f, h, z, c)
  {
    var memory := z[..memorySize];
    var lookup := LookupResult(f, memorySize, c.address);
    var memoryAddress := GetMemoryAddress(f, memory, c.address);
    var commitment := MerkleTreeCommit(h, memory);
    cs.Enforce(f, commitment, f.one, z[memorySize]);
    cs.Enforce(f, f.FromNat(lookup), f.one, f.one);
    cs.Enforce(f, f.one, memoryAddress, c.value);
    LookupConstraint(f, lookup);
    MulLeftOne(f, commitment);
    MulLeftOne(f, memoryAddress);
    assert z == memory + [z[memorySize]];
    if IsCell(f, memorySize, c.address) && HoldsAt(f, memory, c.address, c.value) {
      CellIsUnique(f, memory, c.address, memoryAddress, c.value);
    }
    return c.nextInstruction, z;
  }

  method SynthesizeWrite<F(==, !new)>(f: Field<F>, h: (F, F) -> F, cs: ConstraintSystem<F>, memorySize: nat,
                                      c: Circuit<F>, z: seq<F>)
    returns (pcNext: F, zOut: seq<F>)
    requires IsDomain(f) && Distinct(f, memorySize) && memorySize >= 1 && |z| == memorySize + 1 && c.WriteCircuit?
    modifies cs
    ensures pcNext == c.nextInstruction && zOut == CircuitOutput(f, h, z, c)
    ensures AllHold(f, cs.constraints) <==> AllHold(f, old(cs.constraints)) && CircuitHolds(f, h, z, c)
  {
    var lookup := LookupResult(f, memorySize, c.address);
    cs.Enforce(f, f.FromNat(lookup), f.one, f.one);
    LookupConstraint(f, lookup);
    var updated := NewMemory(f, z[..memorySize], c.address, c.value);
    var newCommitment := MerkleTreeCommit(h, updated);
    return c.nextInstruction, updated + [newCommitment];
  }

  /** From any state, a write circuit only checks its address, and leaves a right commitment. */
  lemma WriteCommits<F(!new)>(f: Field<F>, h: (F, F) -> F, z: seq<F>, c: Circuit<F>)
    requires |z| >= 2 && c.WriteCircuit?
    ensures CircuitHolds(f, h, z, c) <==> IsCell(f, |z| - 1, c.address)
    ensures var out := CircuitOutput(f, h, z, c);
      && (forall i :: 0 <= i < |z| - 1 ==> out[i] == if f.FromNat(i) == c.address then c.value else z[i])
      && out[|z| - 1] == Chain(h, out[..|z| - 1]) && Committed(h, out)
  {
    var out := CircuitOutput(f, h, z, c);
    assert out[..|z| - 1] == Overwrite(f, z[..|z| - 1], c.address, c.value);
  }

  /** A read circuit checks the commitment and the cell, and changes nothing. */
  lemma ReadChecks<F(!new)>(f: Field<F>, h: (F, F) -> F, z: seq<F>, c: Circuit<F>)
    requires |z| >= 2 && c.ReadCircuit?
    ensures CircuitHolds(f, h, z, c)
      <==> z[|z| - 1] == Chain(h, z[..|z| - 1]) && HoldsAt(f, z[..|z| - 1], c.address, c.value)
    ensures CircuitOutput(f, h, z, c) == z
  {
    LastIsCommitment(h, z);
  }

  // ---------------------------------------------------------------------------------
  // The circuit list

  /** The trace in three vectors. */
  datatype Vectors = Vectors(address: seq<nat>, value: seq<nat>, instruction: seq<nat>)

  /** The arguments of a run: a trace in three vectors, the instructions ended by 2. */
  predicate ValidArguments(trace: Vectors, numSteps: nat) {
    && |trace.instruction| == |trace.address| + 1 && trace.instruction[|trace.address|] == 2
    && numSteps <= |trace.address| && numSteps <= |trace.value|
  }

  /** The circuit of step k. */
  function StepCircuit<F(!new)>(f: Field<F>, trace: Vectors, k: nat): Circuit<F>
    requires k < |trace.address| && k < |trace.value| && k + 1 < |trace.instruction|
  {
    var address, value := f.FromNat(trace.address[k]), f.FromNat(trace.value[k]);
    var next := f.FromNat(trace.instruction[k + 1]);
    if trace.instruction[k] == 0 then ReadCircuit(address, value, next) else WriteCircuit(address, value, next)
  }

  function StepCircuits<F(!new)>(f: Field<F>, trace: Vectors, n: nat): (cs: seq<Circuit<F>>)
    requires n <= |trace.address| && n <= |trace.value| && n + 1 <= |trace.instruction|
    ensures |cs| == n
  {
    seq(n, i requires 0 <= i < n => StepCircuit(f, trace, i))
  }

  /** A first dummy read of cell 0, then one circuit for each step. */
  function AllCircuits<F(!new)>(f: Field<F>, z: seq<F>, trace: Vectors, n: nat): seq<Circuit<F>>
    requires n <= |trace.address| && n <= |trace.value| && n + 1 <= |trace.instruction| && z != []
  {
    [ReadCircuit(f.FromNat(0), z[0], f.FromNat(trace.instruction[0]))] + StepCircuits(f, trace, n)
  }

  method NewCircuits<F(!new)>(f: Field<F>, zPrimary: seq<F>, trace: Vectors, numSteps: nat)
    returns (circuits: seq<Circuit<F>>)
    requires ValidArguments(trace, numSteps) && zPrimary != []
    ensures circuits == AllCircuits(f, zPrimary, trace, numSteps)
  {
    circuits := [ReadCircuit(f.FromNat(0), zPrimary[0], f.FromNat(trace.instruction[0]))];
    for i := 0 to numSteps
      invariant circuits == AllCircuits(f, zPrimary, trace, i)
    {
      var address, value := f.FromNat(trace.address[i]), f.FromNat(trace.value[i]);
      var next := f.FromNat(trace.instruction[i + 1]);
      if trace.instruction[i] == 0 {
        circuits := circuits + [ReadCircuit(address, value, next)];
      } else {
        circuits := circuits + [WriteCircuit(address, value, next)];
      }
    }
  }

  /**
   For 0/1 instructions the run starts at circuit 0, every circuit announces the index of the next
   one, and the last circuit of a whole trace announces 2.
   */
  lemma ProgramCounterChain<F(!new)>(f: Field<F>, z: seq<F>, trace: Vectors, numSteps: nat)
    requires ValidArguments(trace, numSteps) && z != []
    requires forall i :: 0 <= i < numSteps ==> trace.instruction[i] <= 1
    ensures var circuits := AllCircuits(f, z, trace, numSteps);
      && CircuitIndex(circuits[0]) == 0
      && (forall i, j :: 0 <= i && j == i + 1 && j <= numSteps ==>
            circuits[i].nextInstruction == f.FromNat(CircuitIndex(circuits[j])))
      && (numSteps == |trace.address| ==> circuits[numSteps].nextInstruction == f.FromNat(2))
  {
    forall i, j | 0 <= i && j == i + 1 && j <= numSteps
      ensures AllCircuits(f, z, trace, numSteps)[i].nextInstruction
        == f.FromNat(CircuitIndex(AllCircuits(f, z, trace, numSteps)[j]))
    {
      Announces(f, z, trace, numSteps, i);
      CircuitAt(f, z, trace, numSteps, i);
    }
    Announces(f, z, trace, numSteps, numSteps);
  }

  /** Circuit i announces instruction i, whose circuit is the next one. */
  lemma Announces<F(!new)>(f: Field<F>, z: seq<F>, trace: Vectors, numSteps: nat, i: nat)
    requires ValidArguments(trace, numSteps) && z != [] && i <= numSteps
    ensures AllCircuits(f, z, trace, numSteps)[i].nextInstruction == f.FromNat(trace.instruction[i])
  {
    if i > 0 {
      CircuitAt(f, z, trace, numSteps, i - 1);
    }
  }

  lemma CircuitAt<F(!new)>(f: Field<F>, z: seq<F>, trace: Vectors, numSteps: nat, k: nat)
    requires ValidArguments(trace, numSteps) && z != [] && k < numSteps
    ensures AllCircuits(f, z, trace, numSteps)[k + 1] == StepCircuit(f, trace, k)
  {
  }

  // ---------------------------------------------------------------------------------
  // Runs

  /** Every step runs the circuit that the program counter names, and its constraints hold. */
  ghost predicate RunHolds<F(!new)>(f: Field<F>, h: (F, F) -> F, z: seq<F>, pc: F, circuits: seq<Circuit<F>>)
    requires |z| >= 2
    decreases circuits
  {
    circuits == [] ||
    (pc == f.FromNat(CircuitIndex(circuits[0])) && CircuitHolds(f, h, z, circuits[0])
     && RunHolds(f, h, CircuitOutput(f, h, z, circuits[0]), circuits[0].nextInstruction, circuits[1..]))
  }

  ghost function RunOutput<F(!new)>(f: Field<F>, h: (F, F) -> F, z: seq<F>, circuits: seq<Circuit<F>>): (out: seq<F>)
    requires |z| >= 2
    ensures |out| == |z|
    decreases circuits
  {
    if circuits == [] then z else RunOutput(f, h, CircuitOutput(f, h, z, circuits[0]), circuits[1..])
  }

  lemma OutputIsCommitted<F(!new)>(f: Field<F>, h: (F, F) -> F, z: seq<F>, c: Circuit<F>)
    requires Committed(h, z)
    ensures Committed(h, CircuitOutput(f, h, z, c))
  {
    if c.WriteCircuit? {
      var updated := Overwrite(f, z[..|z| - 1], c.address, c.value);
      assert WithCommitment(h, updated)[..|z| - 1] == updated;
    }
  }

  /** The commitment is valid after every step, although only reads check it. */
  lemma {:induction false} CommitmentStaysValid<F(!new)>(f: Field<F>, h: (F, F) -> F, z: seq<F>, circuits: seq<Circuit<F>>)
    requires Committed(h, z)
    ensures Committed(h, RunOutput(f, h, z, circuits))
    decreases circuits
  {
    if circuits != [] {
      OutputIsCommitted(f, h, z, circuits[0]);
      CommitmentStaysValid(f, h, CircuitOutput(f, h, z, circuits[0]), circuits[1..]);
    }
  }

  /** The circuit and the record state the same access. */
  ghost predicate SameAccess<F(!new)>(f: Field<F>, c: Circuit<F>, r: OnlineRecord<F>) {
    c.address == r.address && c.value == r.value && (c.ReadCircuit? <==> r.instruction == f.zero)
  }

  /** A list of circuits states a trace: access by access, each announcing the instruction after it. */
  ghost predicate States<F(!new)>(f: Field<F>, circuits: seq<Circuit<F>>, records: seq<OnlineRecord<F>>) {
    && |circuits| == |records|
    && (forall i :: 0 <= i < |records| ==> SameAccess(f, circuits[i], records[i]))
    && forall i, j :: 0 <= i && j == i + 1 && j < |records| ==> circuits[i].nextInstruction == records[j].instruction
  }

  /** One circuit on a committed state does what the record says. */
  lemma CircuitIsRecord<F(!new)>(f: Field<F>, h: (F, F) -> F, z: seq<F>, c: Circuit<F>, r: OnlineRecord<F>)
    requires IsDomain(f) && Committed(h, z) && Distinct(f, |z| - 1) && SameAccess(f, c, r)
    ensures r.instruction == f.FromNat(CircuitIndex(c)) && CircuitHolds(f, h, z, c) <==> RecordOk(f, z[..|z| - 1], r)
    ensures RecordOk(f, z[..|z| - 1], r) ==>
      CircuitOutput(f, h, z, c) == WithCommitment(h, Overwrite(f, z[..|z| - 1], r.address, r.value))
  {
    SmallImages(f);
    if RecordOk(f, z[..|z| - 1], r) && r.instruction == f.zero {
      AcceptedReadKeepsMemory(f, z[..|z| - 1], r);
    }
  }

  /** One step of a run is one step of the replay. */
  lemma RunStep<F(!new)>(f: Field<F>, h: (F, F) -> F, z: seq<F>, pc: F, c: Circuit<F>, r: OnlineRecord<F>)
    requires IsDomain(f) && Committed(h, z) && Distinct(f, |z| - 1) && SameAccess(f, c, r) && pc == r.instruction
    ensures pc == f.FromNat(CircuitIndex(c)) && CircuitHolds(f, h, z, c) <==> RecordOk(f, z[..|z| - 1], r)
    ensures Committed(h, CircuitOutput(f, h, z, c))
    ensures RecordOk(f, z[..|z| - 1], r) ==>
      CircuitOutput(f, h, z, c)[..|z| - 1] == Overwrite(f, z[..|z| - 1], r.address, r.value)
  {
    CircuitIsRecord(f, h, z, c, r);
    OutputIsCommitted(f, h, z, c);
  }

  /** From a committed state a run accepts exactly the traces that replay. */
  lemma {:induction false} RunIsReplay<F(!new)>(f: Field<F>, h: (F, F) -> F, z: seq<F>, pc: F, circuits: seq<Circuit<F>>,
                                                records: seq<OnlineRecord<F>>)
    requires IsDomain(f) && Committed(h, z) && Distinct(f, |z| - 1) && States(f, circuits, records)
    requires records != [] ==> pc == records[0].instruction
    ensures RunHolds(f, h, z, pc, circuits) <==> Accepts(f, z[..|z| - 1], records)
    decreases circuits
  {
    if records != [] {
      RunStep(f, h, z, pc, circuits[0], records[0]);
      if RecordOk(f, z[..|z| - 1], records[0]) {
        RunIsReplay(f, h, CircuitOutput(f, h, z, circuits[0]), circuits[0].nextInstruction, circuits[1..], records[1..]);
      }
    }
  }

  /** An accepted run ends in the replayed memory and its commitment. */
  lemma {:induction false} RunEndsInReplay<F(!new)>(f: Field<F>, h: (F, F) -> F, z: seq<F>, pc: F, circuits: seq<Circuit<F>>,
                                                    records: seq<OnlineRecord<F>>)
    requires IsDomain(f) && Committed(h, z) && Distinct(f, |z| - 1) && States(f, circuits, records)
    requires records != [] ==> pc == records[0].instruction
    requires Accepts(f, z[..|z| - 1], records)
    ensures RunOutput(f, h, z, circuits) == WithCommitment(h, Final(f, z[..|z| - 1], records))
    decreases circuits
  {
    if records != [] {
      RunStep(f, h, z, pc, circuits[0], records[0]);
      RunEndsInReplay(f, h, CircuitOutput(f, h, z, circuits[0]), circuits[0].nextInstruction, circuits[1..], records[1..]);
    }
  }

  /** The records of the trace vectors, as the Nova circuit takes them. */
  function TraceRecords<F(!new)>(f: Field<F>, trace: Vectors, n: nat): (records: seq<OnlineRecord<F>>)
    requires n <= |trace.address| && n <= |trace.value| && n <= |trace.instruction|
    ensures |records| == n
  {
    seq(n, i requires 0 <= i < n =>
      OnlineRecord(f.FromNat(trace.address[i]), f.FromNat(trace.instruction[i]), f.FromNat(trace.value[i])))
  }

  /** The circuits built from the trace vectors state the trace. */
  lemma CircuitsStateTrace<F(!new)>(f: Field<F>, trace: Vectors, numSteps: nat, bound: nat)
    requires IsDomain(f) && ValidArguments(trace, numSteps) && Distinct(f, bound)
    requires forall i :: 0 <= i < numSteps ==> trace.instruction[i] < bound
    ensures States(f, StepCircuits(f, trace, numSteps), TraceRecords(f, trace, numSteps))
  {
    var circuits := StepCircuits(f, trace, numSteps);
    var records := TraceRecords(f, trace, numSteps);
    forall i | 0 <= i < numSteps ensures SameAccess(f, circuits[i], records[i]) {
      BitImages(f, trace.instruction[i], bound);
    }
  }

  /** The first circuit, a dummy read of cell 0, only checks the commitment. */
  lemma DummyChecksCommitment<F(!new)>(f: Field<F>, h: (F, F) -> F, z: seq<F>, next: F)
    requires |z| >= 2
    ensures CircuitHolds(f, h, z, ReadCircuit(f.FromNat(0), z[0], next)) <==> Committed(h, z)
  {
    var memory := z[..|z| - 1];
    assert memory[0] == z[0];
    assert IsCell(f, |memory|, f.FromNat(0)) && HoldsAt(f, memory, f.FromNat(0), z[0]);
  }

  /**
   A whole run, dummy read included, is accepted exactly when the initial commitment is right and
   the trace replays, which for a non-empty trace is when the Nova step accepts it; both end in
   the same memory and commitment.
   */
  lemma SupernovaIsNova<F(!new)>(f: Field<F>, h: (F, F) -> F, z: seq<F>, trace: Vectors, numSteps: nat, bound: nat)
    requires IsDomain(f) && |z| >= 2 && Distinct(f, |z| - 1) && Distinct(f, bound)
    requires ValidArguments(trace, numSteps)
    requires forall i :: 0 <= i < numSteps ==> trace.instruction[i] < bound
    ensures var circuits := AllCircuits(f, z, trace, numSteps);
      var records := TraceRecords(f, trace, numSteps);
      && (RunHolds(f, h, z, f.FromNat(0), circuits) <==> Committed(h, z) && StepHolds(f, h, z, records))
      && (RunHolds(f, h, z, f.FromNat(0), circuits) ==> RunOutput(f, h, z, circuits) == StepOutput(f, h, z, records))
  {
    var next := f.FromNat(trace.instruction[0]);
    var circuits, run := AllCircuits(f, z, trace, numSteps), StepCircuits(f, trace, numSteps);
    assert circuits[1..] == run && circuits[0] == ReadCircuit(f.FromNat(0), z[0], next);
    DummyChecksCommitment(f, h, z, next);
    if Committed(h, z) {
      var records := TraceRecords(f, trace, numSteps);
      CircuitsStateTrace(f, trace, numSteps, bound);
      RunIsReplay(f, h, z, next, run, records);
      if Accepts(f, z[..|z| - 1], records) {
        RunEndsInReplay(f, h, z, next, run, records);
      }
    }
  }
}
