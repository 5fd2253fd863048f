/** Trace records of the memory machine and what it means for a trace to be consistent. */
module Records {
  import opened Limbs
  import opened Permutations

  datatype Option<+T> = None | Some(value: T)

  datatype MemoryInstruction = Write | Read

  /** One access of the execution trace; address and value are B256 numbers. */
  datatype TraceRecord = TraceRecord(
    timeLog: nat, stackDepth: nat, instruction: MemoryInstruction, address: nat, value: nat)

  /** The fields fit their machine types. */
  predicate Fits(r: TraceRecord) {
    r.timeLog < U64 && r.stackDepth < U64 && r.address < Pow256(32) && r.value < Pow256(32)
  }

  predicate AllFit(trace: seq<TraceRecord>) {
    forall i :: 0 <= i < |trace| ==> Fits(trace[i])
  }

  predicate TimesIncrease(trace: seq<TraceRecord>) {
    forall i, j :: 0 <= i < j < |trace| ==> trace[i].timeLog < trace[j].timeLog
  }

  /** Times that grow from each record to the next grow throughout. */
  lemma {:induction false} AdjacentTimes(trace: seq<TraceRecord>)
    requires forall i :: 0 <= i < |trace| - 1 ==> trace[i].timeLog < trace[i + 1].timeLog
    ensures TimesIncrease(trace)
    decreases |trace|
  {
    if |trace| > 1 {
      var n := |trace| - 1;
      AdjacentTimes(trace[..n]);
      forall i, j | 0 <= i < j < |trace| ensures trace[i].timeLog < trace[j].timeLog {
        assert trace[n - 1].timeLog < trace[n - 1 + 1].timeLog;
        if j < n {
          assert trace[..n][i].timeLog < trace[..n][j].timeLog;
        } else if i < n - 1 {
          assert trace[..n][i].timeLog < trace[..n][n - 1].timeLog;
        }
      }
    }
  }

  // ---------------------------------------------------------------------------------
  // Consistency in time order

  /** Row w is the write that a read at row r must return: the last one to its address. */
  predicate IsLastWrite(trace: seq<TraceRecord>, w: int, r: int)
    requires 0 <= r < |trace|
  {
    && 0 <= w < r && trace[w].instruction.Write? && trace[w].address == trace[r].address
    && forall m :: w < m < r && trace[m].address == trace[r].address ==> !trace[m].instruction.Write?
  }

  ghost predicate ReadIsServed(trace: seq<TraceRecord>, r: nat)
    requires r < |trace|
  {
    exists w :: IsLastWrite(trace, w, r) && trace[w].value == trace[r].value
  }

  /** Every read has an earlier write to its address and returns the last one's value. */
  ghost predicate ReadsLastWrites(trace: seq<TraceRecord>) {
    forall r :: 0 <= r < |trace| && trace[r].instruction.Read? ==> ReadIsServed(trace, r)
  }

  /** The time contract of an execution trace. */
  predicate WellTimed(trace: seq<TraceRecord>) {
    |trace| > 0 && trace[0].timeLog == 0 && TimesIncrease(trace)
  }

  // ---------------------------------------------------------------------------------
  // Consistency in (address, time) order

  predicate KeyBefore(a: TraceRecord, b: TraceRecord) {
    a.address < b.address || (a.address == b.address && a.timeLog < b.timeLog)
  }

  predicate SortedByKey(trace: seq<TraceRecord>) {
    forall i, j :: 0 <= i < j < |trace| ==> KeyBefore(trace[i], trace[j])
  }

  /** What the sorted-trace constraints look at: a row and its predecessor. */
  predicate LocallyConsistentAt(sorted: seq<TraceRecord>, p: nat)
    requires p < |sorted|
  {
    sorted[p].instruction.Read? ==>
      && p > 0
      && sorted[p - 1].address == sorted[p].address
      && sorted[p - 1].value == sorted[p].value
  }

  predicate LocallyConsistent(sorted: seq<TraceRecord>) {
    forall p :: 0 <= p < |sorted| ==> LocallyConsistentAt(sorted, p)
  }

  /** trace[j] is sorted[perm[j]]. */
  predicate Reorders(trace: seq<TraceRecord>, sorted: seq<TraceRecord>, perm: seq<nat>) {
    && |trace| == |sorted| == |perm| && IsPermutation(perm)
    && forall j :: 0 <= j < |trace| ==> trace[j] == sorted[perm[j]]
  }

  /** The setting of both orders. */
  predicate TwoOrders(trace: seq<TraceRecord>, sorted: seq<TraceRecord>, perm: seq<nat>) {
    TimesIncrease(trace) && SortedByKey(sorted) && Reorders(trace, sorted, perm)
  }

  lemma RowOfPosition(trace: seq<TraceRecord>, sorted: seq<TraceRecord>, perm: seq<nat>, p: nat) returns (r: nat)
    requires Reorders(trace, sorted, perm) && p < |sorted|
    ensures r < |trace| && perm[r] == p && trace[r] == sorted[p]
  {
    PermutationIsOnto(perm, p);
    r :| 0 <= r < |perm| && perm[r] == p;
  }

  /** Accesses to one address come in the same order in both traces. */
  lemma SameOrder(trace: seq<TraceRecord>, sorted: seq<TraceRecord>, perm: seq<nat>, a: nat, b: nat)
    requires TwoOrders(trace, sorted, perm) && a < |trace| && b < |trace| && trace[a].address == trace[b].address
    ensures a < b <==> perm[a] < perm[b]
  {
    if a != b {
      assert perm[a] != perm[b];
    }
  }

  lemma {:induction false} WriteBehindRead(sorted: seq<TraceRecord>, p: nat) returns (q: nat)
    requires LocallyConsistent(sorted) && p < |sorted| && sorted[p].instruction.Read?
    ensures q < p && sorted[q].instruction.Write? && sorted[q].value == sorted[p].value
    ensures forall x :: q <= x <= p ==> sorted[x].address == sorted[p].address
    ensures forall x :: q < x <= p ==> sorted[x].instruction.Read?
  {
    assert LocallyConsistentAt(sorted, p);
    if sorted[p - 1].instruction.Read? {
      q := WriteBehindRead(sorted, p - 1);
    } else {
      q := p - 1;
    }
  }

  /** Sorted-order consistency serves every read of the time-ordered trace. */
  lemma LocalServes(trace: seq<TraceRecord>, sorted: seq<TraceRecord>, perm: seq<nat>, r: nat)
    requires TwoOrders(trace, sorted, perm) && LocallyConsistent(sorted)
    requires r < |trace| && trace[r].instruction.Read?
    ensures ReadIsServed(trace, r)
  {
    var q := WriteBehindRead(sorted, perm[r]);
    var w := RowOfPosition(trace, sorted, perm, q);
    SameOrder(trace, sorted, perm, w, r);
    forall m | w < m < r && trace[m].address == trace[r].address ensures !trace[m].instruction.Write? {
      SameOrder(trace, sorted, perm, w, m);
      SameOrder(trace, sorted, perm, m, r);
    }
    assert IsLastWrite(trace, w, r);
  }

  /** A served read is locally consistent in the sorted order. */
  lemma ServedIsLocal(trace: seq<TraceRecord>, sorted: seq<TraceRecord>, perm: seq<nat>, p: nat)
    requires TwoOrders(trace, sorted, perm) && ReadsLastWrites(trace)
    requires p < |sorted| && sorted[p].instruction.Read?
    ensures LocallyConsistentAt(sorted, p)
  {
    var r := RowOfPosition(trace, sorted, perm, p);
    assert ReadIsServed(trace, r);
    var w :| IsLastWrite(trace, w, r) && trace[w].value == trace[r].value;
    SameOrder(trace, sorted, perm, w, r);
    var q := perm[w];
    assert KeyBefore(sorted[q], sorted[p]);
    if q < p - 1 {
      assert KeyBefore(sorted[q], sorted[p - 1]) && KeyBefore(sorted[p - 1], sorted[p]);
      var m := RowOfPosition(trace, sorted, perm, p - 1);
      SameOrder(trace, sorted, perm, w, m);
      SameOrder(trace, sorted, perm, m, r);
      assert ReadIsServed(trace, m);
      var w' :| IsLastWrite(trace, w', m) && trace[w'].value == trace[m].value;
      LastWriteIsUnique(trace, w, w', m);
    }
  }

  lemma LastWriteIsUnique(trace: seq<TraceRecord>, w: int, w': int, r: nat)
    requires r < |trace| && IsLastWrite(trace, w, r) && IsLastWrite(trace, w', r)
    ensures w == w'
  {
  }

  /**
   The offline memory check: on the trace sorted by (address, time) it is enough to compare
   each row with its predecessor.
   */
  lemma SortedCheckIsExact(trace: seq<TraceRecord>, sorted: seq<TraceRecord>, perm: seq<nat>)
    requires TwoOrders(trace, sorted, perm)
    ensures LocallyConsistent(sorted) <==> ReadsLastWrites(trace)
  {
    if LocallyConsistent(sorted) {
      forall r | 0 <= r < |trace| && trace[r].instruction.Read? ensures ReadIsServed(trace, r) {
        LocalServes(trace, sorted, perm, r);
      }
    }
    if ReadsLastWrites(trace) {
      forall p | 0 <= p < |sorted| ensures LocallyConsistentAt(sorted, p) {
        if sorted[p].instruction.Read? {
          ServedIsLocal(trace, sorted, perm, p);
        }
      }
    }
  }
}
