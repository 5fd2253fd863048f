/** The Nova step circuit: replays a batch of records against the memory and its commitment. */
module Nova {
  import opened Fields
  import opened HashChain
  import opened OnlineMemory

  /** The state vector of a memory: its cells, then its commitment. */
  function WithCommitment<F>(h: (F, F) -> F, memory: seq<F>): seq<F>
    requires memory != []
  {
    memory + [Chain(h, memory)]
  }

  /** The commitment cell commits to the memory cells. */
  ghost predicate Committed<F(!new)>(h: (F, F) -> F, z: seq<F>) {
    |z| >= 2 && z == WithCommitment(h, z[..|z| - 1])
  }

  /** The constraints of one record: lookup, commitment, read value and instruction bit. */
  method SynthesizeRecord<F(==, !new)>(f: Field<F>, h: (F, F) -> F, cs: ConstraintSystem<F>, memoryLen: nat,
                                       record: OnlineRecord<F>, z: seq<F>)
    returns (next: seq<F>)
    requires IsDomain(f) && Distinct(f, memoryLen) && memoryLen >= 1 && |z| == memoryLen + 1
    modifies cs
    ensures next == WithCommitment(h, Overwrite(f, z[..memoryLen], record.address, record.value))
    ensures AllHold(f, cs.constraints)
      <==> AllHold(f, old(cs.constraints)) && Committed(h, z) && RecordOk(f, z[..memoryLen], record)
  {
    hide IsDomain, Overwrite, Distinct;
    var memory := z[..memoryLen];
    var value, instruction := record.value, record.instruction;
    var memoryAddress := GetMemoryAddress(f, memory, record.address);
    var commitment := MerkleTreeCommit(h, memory);
    var lookup := LookupResult(f, memoryLen, record.address);
    cs.Enforce(f, f.FromNat(lookup), f.one, f.one);
    cs.Enforce(f, commitment, f.one, z[memoryLen]);
    var difference := f.Sub(memoryAddress, value);
    cs.Enforce(f, instruction, difference, difference);
    cs.Enforce(f, instruction, instruction, instruction);
    LookupConstraint(f, lookup);
    MulLeftOne(f, commitment);
    ReadConstraints(f, memory, record, memoryAddress);
    assert z == memory + [z[memoryLen]];
    var updated := NewMemory(f, memory, record.address, value);
    var newCommitment := MerkleTreeCommit(h, updated);
    next := updated + [newCommitment];
  }

  /** The two instruction constraints on a looked-up address are the read and the bit condition. */
  lemma ReadConstraints<F(!new)>(f: Field<F>, memory: seq<F>, r: OnlineRecord<F>, cell: F)
    requires IsDomain(f) && Distinct(f, |memory|)
    requires IsCell(f, |memory|, r.address) ==> HoldsAt(f, memory, r.address, cell)
    ensures IsCell(f, |memory|, r.address) ==>
      (f.mul(r.instruction, f.Sub(cell, r.value)) == f.Sub(cell, r.value) && f.mul(r.instruction, r.instruction) == r.instruction
       <==> RecordOk(f, memory, r))
  {
    Idempotent(f, r.instruction);
    FixedByProduct(f, r.instruction, f.Sub(cell, r.value));
    SubZero(f, cell, r.value);
    assert Obeys(f, OneIsNotZero);
    if IsCell(f, |memory|, r.address) && HoldsAt(f, memory, r.address, r.value) {
      CellIsUnique(f, memory, r.address, cell, r.value);
    }
  }

  /**
   One folding step. Its constraints hold exactly when the input commitment is right and the
   records replay; the output is the replayed memory with its commitment.
   */
  method Synthesize<F(==, !new)>(f: Field<F>, h: (F, F) -> F, cs: ConstraintSystem<F>, memoryLen: nat,
                                 records: seq<OnlineRecord<F>>, zIn: seq<F>)
    returns (zOut: seq<F>)
    requires IsDomain(f) && Distinct(f, memoryLen) && memoryLen >= 1 && |zIn| == memoryLen + 1
    modifies cs
    ensures zOut == StepOutput(f, h, zIn, records)
    ensures AllHold(f, cs.constraints) <==> AllHold(f, old(cs.constraints)) && StepHolds(f, h, zIn, records)
  {
    zOut := zIn;
    for j := 0 to |records|
      invariant |zOut| == memoryLen + 1
      invariant zOut == StepOutput(f, h, zIn, records[..j])
      invariant AllHold(f, cs.constraints) <==> AllHold(f, old(cs.constraints)) && StepHolds(f, h, zIn, records[..j])
    {
      StepGrows(f, h, zIn, records, j);
      zOut := SynthesizeRecord(f, h, cs, memoryLen, records[j], zOut);
    }
    assert records[..|records|] == records;
  }

  ghost function StepOutput<F(!new)>(f: Field<F>, h: (F, F) -> F, zIn: seq<F>, records: seq<OnlineRecord<F>>): (zOut: seq<F>)
    requires |zIn| >= 2
    ensures |zOut| == |zIn|
  {
    if records == [] then zIn else WithCommitment(h, Final(f, zIn[..|zIn| - 1], records))
  }

  /** A step without records constrains nothing, not even the commitment. */
  ghost predicate StepHolds<F(!new)>(f: Field<F>, h: (F, F) -> F, zIn: seq<F>, records: seq<OnlineRecord<F>>)
    requires |zIn| >= 2
  {
    records != [] ==> Committed(h, zIn) && Accepts(f, zIn[..|zIn| - 1], records)
  }

  lemma LastIsCommitment<F(!new)>(h: (F, F) -> F, z: seq<F>)
    requires |z| >= 2
    ensures Committed(h, z) <==> z[|z| - 1] == Chain(h, z[..|z| - 1])
  {
    assert z == z[..|z| - 1] + [z[|z| - 1]];
    assert WithCommitment(h, z[..|z| - 1])[|z| - 1] == Chain(h, z[..|z| - 1]);
  }

  /** What a step of no record and a step of one record demand and do, from any state. */
  lemma SmallSteps<F(!new)>(f: Field<F>, h: (F, F) -> F, z: seq<F>, r: OnlineRecord<F>)
    requires |z| >= 2
    ensures StepHolds(f, h, z, []) && StepOutput(f, h, z, []) == z
    ensures StepHolds(f, h, z, [r]) <==> z[|z| - 1] == Chain(h, z[..|z| - 1]) && RecordOk(f, z[..|z| - 1], r)
    ensures var out := StepOutput(f, h, z, [r]);
      && (forall i :: 0 <= i < |z| - 1 ==> out[i] == if f.FromNat(i) == r.address then r.value else z[i])
      && out[|z| - 1] == Chain(h, out[..|z| - 1])
  {
    LastIsCommitment(h, z);
    assert [r][1..] == [] && Accepts(f, Overwrite(f, z[..|z| - 1], r.address, r.value), []);
    assert Accepts(f, z[..|z| - 1], [r]) == RecordOk(f, z[..|z| - 1], r);
    assert Final(f, z[..|z| - 1], [r]) == Overwrite(f, z[..|z| - 1], r.address, r.value);
    assert StepOutput(f, h, z, [r])[..|z| - 1] == Final(f, z[..|z| - 1], [r]);
  }

  lemma StepGrows<F(!new)>(f: Field<F>, h: (F, F) -> F, zIn: seq<F>, records: seq<OnlineRecord<F>>, j: nat)
    requires |zIn| >= 2 && j < |records|
    ensures var z := StepOutput(f, h, zIn, records[..j]);
      var memory := z[..|zIn| - 1];
      && StepOutput(f, h, zIn, records[..j + 1]) == WithCommitment(h, Overwrite(f, memory, records[j].address, records[j].value))
      && (StepHolds(f, h, zIn, records[..j + 1])
          <==> StepHolds(f, h, zIn, records[..j]) && Committed(h, z) && RecordOk(f, memory, records[j]))
  {
    var memory, front, last := zIn[..|zIn| - 1], records[..j], [records[j]];
    assert records[..j + 1] == front + last;
    ReplayConcatenates(f, memory, front, last);
    assert last[1..] == [];
    var z := StepOutput(f, h, zIn, front);
    if front != [] {
      assert z[..|zIn| - 1] == Final(f, memory, front);
    }
  }

  // ---------------------------------------------------------------------------------
  // Chains of steps

  ghost function ChainOutput<F(!new)>(f: Field<F>, h: (F, F) -> F, z: seq<F>,
                                      steps: seq<seq<OnlineRecord<F>>>): (out: seq<F>)
    requires |z| >= 2
    ensures |out| == |z|
    decreases steps
  {
    if steps == [] then z else ChainOutput(f, h, StepOutput(f, h, z, steps[0]), steps[1..])
  }

  ghost predicate ChainHolds<F(!new)>(f: Field<F>, h: (F, F) -> F, z: seq<F>, steps: seq<seq<OnlineRecord<F>>>)
    requires |z| >= 2
    decreases steps
  {
    steps == [] || (StepHolds(f, h, z, steps[0]) && ChainHolds(f, h, StepOutput(f, h, z, steps[0]), steps[1..]))
  }

  function Flatten<T>(parts: seq<seq<T>>): seq<T> {
    if parts == [] then [] else parts[0] + Flatten(parts[1..])
  }

  /** However a trace is cut into steps, the chain of steps is the one step of the whole trace. */
  lemma {:induction false} ChainIsOneStep<F(!new)>(f: Field<F>, h: (F, F) -> F, z: seq<F>, steps: seq<seq<OnlineRecord<F>>>)
    requires |z| >= 2
    ensures ChainHolds(f, h, z, steps) <==> StepHolds(f, h, z, Flatten(steps))
    ensures ChainOutput(f, h, z, steps) == StepOutput(f, h, z, Flatten(steps))
    decreases steps
  {
    if steps != [] {
      var first, rest := steps[0], Flatten(steps[1..]);
      var next, memory := StepOutput(f, h, z, first), z[..|z| - 1];
      ChainIsOneStep(f, h, next, steps[1..]);
      ReplayConcatenates(f, memory, first, rest);
      if first == [] {
        assert first + rest == rest;
      } else {
        assert next[..|z| - 1] == Final(f, memory, first);
        if rest == [] {
          assert first + rest == first;
        }
      }
    }
  }
}
