/**
 The offline check of the sorted trace and the online check of the folding circuits judge the
 same: a trace whose cells are written before they are read passes one exactly when it passes
 the other, from any committed initial memory.
 */
module OfflineOnline {
  import opened Records
  import opened ByteMemory
  import opened MachineTraces
  import opened WitnessBuilder
  import opened Fields
  import opened OnlineMemory
  import opened Nova
  import Uair

  /** The record as the Nova circuit takes it: 0 reads, 1 writes. */
  function Embedded<F(!new)>(f: Field<F>, r: TraceRecord): OnlineRecord<F> {
    OnlineRecord(f.FromNat(r.address), f.FromNat(if r.instruction.Read? then 0 else 1), f.FromNat(r.value))
  }

  function Embed<F(!new)>(f: Field<F>, trace: seq<TraceRecord>): (records: seq<OnlineRecord<F>>)
    ensures |records| == |trace|
  {
    seq(|trace|, i requires 0 <= i < |trace| => Embedded(f, trace[i]))
  }

  /** Addresses are cells of the memory and values stay below the bound. */
  predicate WithinMemory(trace: seq<TraceRecord>, cells: nat, bound: nat) {
    forall i :: 0 <= i < |trace| ==> trace[i].address < cells && trace[i].value < bound
  }

  /** Cell a of the initial memory after the writes that led to `stored`. */
  ghost function CellOver<F(!new)>(f: Field<F>, memory: seq<F>, stored: Cells, a: nat): F
    requires a < |memory|
  {
    if a in stored then f.FromNat(stored[a]) else memory[a]
  }

  /** The read at i returns the replayed cell, which is an initial one when nothing was written to it. */
  ghost predicate ReadIsOnline<F(!new)>(f: Field<F>, memory: seq<F>, trace: seq<TraceRecord>, i: nat)
    requires i < |trace| && trace[i].address < |memory|
  {
    trace[i].instruction.Read? ==>
      CellOver(f, memory, Replay(trace[..i]), trace[i].address) == f.FromNat(trace[i].value)
  }

  /** The online memory holds the replayed cells. */
  ghost predicate Mirrors<F(!new)>(f: Field<F>, current: seq<F>, memory: seq<F>, stored: Cells) {
    |current| == |memory| && forall a :: 0 <= a < |memory| ==> current[a] == CellOver(f, memory, stored, a)
  }

  lemma InstructionBit<F(!new)>(f: Field<F>, r: TraceRecord)
    requires IsDomain(f)
    ensures Embedded(f, r).instruction == if r.instruction.Read? then f.zero else f.one
    ensures f.zero != f.one
  {
    SmallImages(f);
  }

  /** One embedded record: accepted when it writes or returns the replayed cell, and it keeps the mirror. */
  lemma RecordMirrors<F(!new)>(f: Field<F>, current: seq<F>, memory: seq<F>, trace: seq<TraceRecord>, i: nat)
    requires IsDomain(f) && Distinct(f, |memory|) && i < |trace| && trace[i].address < |memory|
    requires Mirrors(f, current, memory, Replay(trace[..i]))
    ensures RecordOk(f, current, Embedded(f, trace[i])) <==> ReadIsOnline(f, memory, trace, i)
    ensures ReadIsOnline(f, memory, trace, i) ==>
      Mirrors(f, Overwrite(f, current, Embedded(f, trace[i]).address, Embedded(f, trace[i]).value), memory, Replay(trace[..i + 1]))
  {
    var r, e := trace[i], Embedded(f, trace[i]);
    InstructionBit(f, r);
    assert IsCell(f, |current|, e.address);
    forall x ensures HoldsAt(f, current, e.address, x) <==> current[r.address] == x {
      if HoldsAt(f, current, e.address, x) {
        var j :| 0 <= j < |current| && f.FromNat(j) == e.address && current[j] == x;
        SameIndex(f, |memory|, j, r.address);
      }
    }
    ReplayAppend(trace[..i], r);
    assert trace[..i + 1] == trace[..i] + [r];
    var after := Overwrite(f, current, e.address, e.value);
    forall a | 0 <= a < |memory| ensures after[a] == if a == r.address then e.value else current[a] {
      if f.FromNat(a) == e.address {
        SameIndex(f, |memory|, a, r.address);
      }
    }
  }

  /** Replaying one record. */
  lemma OneRecord<F(!new)>(f: Field<F>, memory: seq<F>, r: OnlineRecord<F>)
    ensures Accepts(f, memory, [r]) <==> RecordOk(f, memory, r)
    ensures Final(f, memory, [r]) == Overwrite(f, memory, r.address, r.value)
  {
    assert [r][1..] == [];
  }

  /** What the online check accepts, prefix by prefix, and the memory it then holds. */
  lemma {:induction false} PrefixMirrors<F(!new)>(f: Field<F>, memory: seq<F>, trace: seq<TraceRecord>, n: nat, bound: nat)
    requires IsDomain(f) && Distinct(f, |memory|) && WithinMemory(trace, |memory|, bound) && n <= |trace|
    ensures Accepts(f, memory, Embed(f, trace[..n])) <==> forall i :: 0 <= i < n ==> ReadIsOnline(f, memory, trace, i)
    ensures Accepts(f, memory, Embed(f, trace[..n])) ==>
      Mirrors(f, Final(f, memory, Embed(f, trace[..n])), memory, Replay(trace[..n]))
  {
    hide RecordOk, Overwrite, IsDomain, Embedded;
    if n > 0 {
      PrefixMirrors(f, memory, trace, n - 1, bound);
      var front, last := Embed(f, trace[..n - 1]), [Embedded(f, trace[n - 1])];
      assert Embed(f, trace[..n]) == front + last;
      ReplayConcatenates(f, memory, front, last);
      OneRecord(f, Final(f, memory, front), last[0]);
      if Accepts(f, memory, front) {
        RecordMirrors(f, Final(f, memory, front), memory, trace, n - 1);
      }
    }
  }

  /** The online check means: every read returns the cell the earlier writes left in the initial memory. */
  lemma OnlineMeans<F(!new)>(f: Field<F>, memory: seq<F>, trace: seq<TraceRecord>, bound: nat)
    requires IsDomain(f) && Distinct(f, |memory|) && WithinMemory(trace, |memory|, bound)
    ensures Accepts(f, memory, Embed(f, trace)) <==> forall i :: 0 <= i < |trace| ==> ReadIsOnline(f, memory, trace, i)
  {
    PrefixMirrors(f, memory, trace, |trace|, bound);
    assert trace[..|trace|] == trace;
  }

  lemma SameValue<F(!new)>(f: Field<F>, bound: nat, x: nat, y: nat)
    requires Distinct(f, bound) && x < bound && y < bound
    ensures f.FromNat(x) == f.FromNat(y) <==> x == y
  {
  }

  /** A read of a written cell: returning the replayed value is returning the last write. */
  lemma OnlineReadIsServed<F(!new)>(f: Field<F>, memory: seq<F>, trace: seq<TraceRecord>, i: nat, bound: nat)
    requires Distinct(f, bound) && WithinMemory(trace, |memory|, bound) && i < |trace| && trace[i].instruction.Read?
    requires WrittenBefore(trace, i)
    ensures ReadIsOnline(f, memory, trace, i) <==> ReadIsServed(trace, i)
  {
    ServedByReplay(trace, i);
    var w := ReplayFinds(trace, i, trace[i].address);
    SameValue(f, bound, Replay(trace[..i])[trace[i].address], trace[i].value);
  }

  /** Offline consistency is online acceptance, for traces that write every cell before reading it. */
  lemma OfflineIsOnline<F(!new)>(f: Field<F>, memory: seq<F>, trace: seq<TraceRecord>, bound: nat)
    requires IsDomain(f) && Distinct(f, |memory|) && Distinct(f, bound) && WithinMemory(trace, |memory|, bound)
    requires NoReadBeforeWrite(trace)
    ensures ReadsLastWrites(trace) <==> Accepts(f, memory, Embed(f, trace))
  {
    OnlineMeans(f, memory, trace, bound);
    forall i | 0 <= i < |trace| && trace[i].instruction.Read?
      ensures ReadIsOnline(f, memory, trace, i) <==> ReadIsServed(trace, i)
    {
      assert WrittenBefore(trace, i);
      OnlineReadIsServed(f, memory, trace, i, bound);
    }
  }

  /** The offline check is the stricter one: what it accepts replays from every memory. */
  lemma OfflineImpliesOnline<F(!new)>(f: Field<F>, memory: seq<F>, trace: seq<TraceRecord>, bound: nat)
    requires IsDomain(f) && Distinct(f, |memory|) && Distinct(f, bound) && WithinMemory(trace, |memory|, bound)
    requires ReadsLastWrites(trace)
    ensures NoReadBeforeWrite(trace) && Accepts(f, memory, Embed(f, trace))
  {
    forall i | 0 <= i < |trace| ensures WrittenBefore(trace, i) {
      ServedByReplay(trace, i);
    }
    OfflineIsOnline(f, memory, trace, bound);
  }

  /** The UAIR constraints on the witness and the Nova constraints on the records hold together. */
  ghost predicate ChecksAgree<F(!new)>(f: Field<F>, h: (F, F) -> F, z: seq<F>, t: Uair.UairTrace, v: nat,
                                       trace: seq<TraceRecord>)
    requires Uair.IsAssignment(t, v) && |z| >= 2
  {
    forall beyond :: Uair.Satisfies(t, v, beyond) <==> StepHolds(f, h, z, Embed(f, trace))
  }

  /**
   Builds the witness of a trace. Its UAIR constraints hold exactly when the Nova constraints hold
   on the same records, whatever committed memory the Nova step starts from.
   */
  method BuildAndCompare<F(!new)>(ghost f: Field<F>, ghost h: (F, F) -> F, trace: seq<TraceRecord>, ghost cells: nat,
                                  ghost bound: nat)
    returns (built: WitnessBuilder.BuildResult<(Uair.UairTrace, nat)>)
    requires IsDomain(f) && Distinct(f, cells) && Distinct(f, bound) && WithinMemory(trace, cells, bound)
    requires AllFit(trace) && Buildable(trace) && trace[0].timeLog == 0 && NoReadBeforeWrite(trace)
    ensures built.Ok? && Uair.IsAssignment(built.value.0, built.value.1)
    ensures forall z :: Committed(h, z) && |z| == cells + 1 ==> ChecksAgree(f, h, z, built.value.0, built.value.1, trace)
  {
    hide IsDomain, Distinct, Buildable, AllFit, NoReadBeforeWrite, WithinMemory, ReadsLastWrites, BuildError;
    built := BuildUairTrace(trace);
    forall z | Committed(h, z) && |z| == cells + 1
      ensures ChecksAgree(f, h, z, built.value.0, built.value.1, trace)
    {
      OfflineIsOnline(f, z[..cells], trace, bound);
    }
  }
}
