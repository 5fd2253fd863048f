/**
 The two orders that the witness builder works with: the sort by (address, time), the padding
 that ends both, and the permutation that links them.
 */
module WitnessOrders {
  import opened Powers
  import opened Limbs
  import opened Records
  import opened NetLayout

  // ---------------------------------------------------------------------------------
  // The sort

  function InsertByKey(r: TraceRecord, sorted: seq<TraceRecord>): (out: seq<TraceRecord>)
    ensures |out| == |sorted| + 1
    ensures forall x :: x in out <==> x == r || x in sorted
  {
    if sorted == [] then [r]
    else if KeyBefore(r, sorted[0]) then [r] + sorted
    else [sorted[0]] + InsertByKey(r, sorted[1..])
  }

  /** The trace sorted by (address, time). */
  function SortByKey(trace: seq<TraceRecord>): (out: seq<TraceRecord>)
    ensures |out| == |trace|
    ensures forall x :: x in out <==> x in trace
  {
    if trace == [] then []
    else
      assert trace == trace[..|trace| - 1] + [trace[|trace| - 1]];
      InsertByKey(trace[|trace| - 1], SortByKey(trace[..|trace| - 1]))
  }

  lemma {:induction false} InsertKeepsSorted(r: TraceRecord, sorted: seq<TraceRecord>)
    requires SortedByKey(sorted) && forall x :: x in sorted ==> x.timeLog != r.timeLog
    ensures SortedByKey(InsertByKey(r, sorted))
  {
    if sorted != [] && !KeyBefore(r, sorted[0]) {
      var rest := InsertByKey(r, sorted[1..]);
      InsertKeepsSorted(r, sorted[1..]);
      forall x | x in rest ensures KeyBefore(sorted[0], x) {
        if x != r {
          var i :| 0 <= i < |sorted[1..]| && sorted[1..][i] == x;
          assert KeyBefore(sorted[0], sorted[i + 1]);
        }
      }
    }
  }

  /** Unique times make the keys unique, so the sort is strict. */
  lemma {:induction false} SortIsSorted(trace: seq<TraceRecord>)
    requires TimesIncrease(trace)
    ensures SortedByKey(SortByKey(trace))
  {
    if trace != [] {
      SortIsSorted(trace[..|trace| - 1]);
      InsertKeepsSorted(trace[|trace| - 1], SortByKey(trace[..|trace| - 1]));
    }
  }

  /** Two orders of the same records: same length and same members. */
  predicate SameRecords(trace: seq<TraceRecord>, sorted: seq<TraceRecord>) {
    && |trace| == |sorted|
    && (forall i :: 0 <= i < |trace| ==> trace[i] in sorted)
    && (forall i :: 0 <= i < |sorted| ==> sorted[i] in trace)
  }

  /** Times are unique in the sorted trace too. */
  lemma SortedTimesUnique(trace: seq<TraceRecord>, sorted: seq<TraceRecord>, p: nat, q: nat)
    requires TimesIncrease(trace) && SortedByKey(sorted) && SameRecords(trace, sorted)
    requires p < |sorted| && q < |sorted| && sorted[p].timeLog == sorted[q].timeLog
    ensures p == q
  {
    var a :| 0 <= a < |trace| && trace[a] == sorted[p];
    var b :| 0 <= b < |trace| && trace[b] == sorted[q];
    assert a == b;
  }

  /** Positions that match times are the permutation that links the orders. */
  lemma TimePositionsReorder(trace: seq<TraceRecord>, sorted: seq<TraceRecord>, perm: seq<nat>)
    requires TimesIncrease(trace) && SortedByKey(sorted) && SameRecords(trace, sorted) && |perm| == |trace|
    requires forall j :: 0 <= j < |perm| ==> perm[j] < |sorted| && sorted[perm[j]].timeLog == trace[j].timeLog
    ensures Reorders(trace, sorted, perm)
  {
    forall j | 0 <= j < |trace| ensures trace[j] == sorted[perm[j]] {
      var p :| 0 <= p < |sorted| && sorted[p] == trace[j];
      SortedTimesUnique(trace, sorted, p, perm[j]);
    }
  }

  ghost function TimePosition(sorted: seq<TraceRecord>, time: nat): (p: nat)
    requires exists q :: 0 <= q < |sorted| && sorted[q].timeLog == time
    ensures p < |sorted| && sorted[p].timeLog == time
  {
    var q :| 0 <= q < |sorted| && sorted[q].timeLog == time;
    q
  }

  lemma ReorderExists(trace: seq<TraceRecord>, sorted: seq<TraceRecord>) returns (perm: seq<nat>)
    requires TimesIncrease(trace) && SortedByKey(sorted) && SameRecords(trace, sorted)
    ensures Reorders(trace, sorted, perm)
  {
    forall j | 0 <= j < |trace| ensures exists q :: 0 <= q < |sorted| && sorted[q].timeLog == trace[j].timeLog {
      var q :| 0 <= q < |sorted| && sorted[q] == trace[j];
    }
    perm := seq(|trace|, j requires 0 <= j < |trace| => TimePosition(sorted, trace[j].timeLog));
    TimePositionsReorder(trace, sorted, perm);
  }

  /** The map from times to positions. */
  method IndexTimes(sorted: seq<TraceRecord>) returns (positions: map<nat, nat>)
    ensures forall q :: 0 <= q < |sorted| ==> sorted[q].timeLog in positions
    ensures forall time :: time in positions ==>
      positions[time] < |sorted| && sorted[positions[time]].timeLog == time
  {
    positions := map[];
    for pos := 0 to |sorted|
      invariant forall q :: 0 <= q < pos ==> sorted[q].timeLog in positions
      invariant forall time :: time in positions ==> positions[time] < pos && sorted[positions[time]].timeLog == time
    {
      positions := positions[sorted[pos].timeLog := pos];
    }
  }

  /** Looks the position of every record's time up: original row j is sorted row perm[j]. */
  method LinkByTime(trace: seq<TraceRecord>, sorted: seq<TraceRecord>) returns (perm: seq<nat>)
    requires TimesIncrease(trace) && SortedByKey(sorted) && SameRecords(trace, sorted)
    ensures Reorders(trace, sorted, perm)
  {
    var positions := IndexTimes(sorted);
    forall j | 0 <= j < |trace| ensures trace[j].timeLog in positions {
      var q :| 0 <= q < |sorted| && sorted[q] == trace[j];
    }
    perm := seq(|trace|, j requires 0 <= j < |trace| && trace[j].timeLog in positions => positions[trace[j].timeLog]);
    TimePositionsReorder(trace, sorted, perm);
  }

  // ---------------------------------------------------------------------------------
  // Padding

  /** Replays of a record as reads, at the times following `time`. */
  function Padding(base: TraceRecord, time: nat, count: nat): (rows: seq<TraceRecord>)
    ensures |rows| == count
    ensures forall i :: 0 <= i < count ==>
      rows[i] == TraceRecord(time + 1 + i, base.stackDepth, Read, base.address, base.value)
  {
    seq(count, i requires 0 <= i < count => TraceRecord(time + 1 + i, base.stackDepth, Read, base.address, base.value))
  }

  method Pad(base: TraceRecord, lastTime: nat, count: nat) returns (padding: Option<seq<TraceRecord>>)
    requires lastTime < U64
    ensures padding == if lastTime + count < U64 then Some(Padding(base, lastTime, count)) else None
  {
    var rows := [];
    var time := lastTime;
    for i := 0 to count
      invariant time == lastTime + i < U64 && rows == Padding(base, lastTime, i)
    {
      if time + 1 >= U64 {
        return None;
      }
      time := time + 1;
      rows := rows + [TraceRecord(time, base.stackDepth, Read, base.address, base.value)];
    }
    return Some(rows);
  }

  lemma PaddedTimesIncrease(trace: seq<TraceRecord>, base: TraceRecord, count: nat)
    requires trace != [] && TimesIncrease(trace)
    ensures TimesIncrease(trace + Padding(base, trace[|trace| - 1].timeLog, count))
  {
  }

  lemma PaddedIsSorted(trace: seq<TraceRecord>, sorted: seq<TraceRecord>, count: nat)
    requires trace != [] && TimesIncrease(trace) && SortedByKey(sorted) && SameRecords(trace, sorted)
    ensures SortedByKey(sorted + Padding(sorted[|sorted| - 1], trace[|trace| - 1].timeLog, count))
  {
    var n, last := |sorted|, trace[|trace| - 1].timeLog;
    var padded := sorted + Padding(sorted[n - 1], last, count);
    forall i | 0 <= i < n ensures sorted[i].timeLog <= last && sorted[i].address <= sorted[n - 1].address {
      var a :| 0 <= a < |trace| && trace[a] == sorted[i];
      assert i < n - 1 ==> KeyBefore(sorted[i], sorted[n - 1]);
    }
    forall i, j | 0 <= i < j < |padded| ensures KeyBefore(padded[i], padded[j]) {
    }
  }

  lemma PaddedSameRecords(trace: seq<TraceRecord>, sorted: seq<TraceRecord>, padding: seq<TraceRecord>)
    requires SameRecords(trace, sorted)
    ensures SameRecords(trace + padding, sorted + padding)
  {
    forall i | 0 <= i < |trace + padding| ensures (trace + padding)[i] in sorted + padding {
      if i >= |trace| {
        assert (sorted + padding)[i] == padding[i - |trace|];
      }
    }
    forall i | 0 <= i < |sorted + padding| ensures (sorted + padding)[i] in trace + padding {
      if i >= |trace| {
        assert (trace + padding)[i] == padding[i - |trace|];
      }
    }
  }

  /** Padding neither breaks nor mends the consistency of the sorted trace. */
  lemma PaddingIsBenign(sorted: seq<TraceRecord>, time: nat, count: nat)
    requires sorted != []
    ensures LocallyConsistent(sorted + Padding(sorted[|sorted| - 1], time, count)) <==> LocallyConsistent(sorted)
  {
    var n := |sorted|;
    var padded := sorted + Padding(sorted[n - 1], time, count);
    forall p | 0 <= p < |padded|
      ensures if p < n then LocallyConsistentAt(padded, p) == LocallyConsistentAt(sorted, p)
              else LocallyConsistentAt(padded, p)
    {
    }
    if LocallyConsistent(padded) {
      forall p | 0 <= p < n ensures LocallyConsistentAt(sorted, p) {
        assert LocallyConsistentAt(padded, p);
      }
    }
  }

  // ---------------------------------------------------------------------------------
  // Sizes

  /** The least k from `from` on with 2^k >= n. */
  function CeilLog2(n: nat, from: nat): (k: nat)
    ensures Pow2(k) >= n && k >= from
    ensures k > from ==> Pow2(k - 1) < n
    decreases n - Pow2(from)
  {
    if Pow2(from) >= n then from else CeilLog2(n, from + 1)
  }

  /** log2 of the padded row count: at least one padding row, and at least 2^3 rows. */
  function NumVarsFor(len: nat): (v: nat)
    ensures v >= MIN_NUM_VARS && len < Pow2(v)
  {
    var k := CeilLog2(len + 1, 0);
    if k < MIN_NUM_VARS then
      Pow2Monotone(k, MIN_NUM_VARS);
      MIN_NUM_VARS
    else k
  }

  /** The fewest rows, 2^3 or a larger power of two, that leave one row to pad. */
  predicate IsLeastSize(v: nat, len: nat) {
    && v >= 3 && len < Pow2(v)
    && forall u :: 3 <= u < v ==> Pow2(u) <= len
  }

  lemma SizeIsLeast(len: nat)
    ensures IsLeastSize(NumVarsFor(len), len)
  {
    hide Pow2;
    var v := NumVarsFor(len);
    forall u | 3 <= u < v ensures Pow2(u) <= len {
      Pow2Monotone(u, v - 1);
    }
  }

  lemma LargestSize()
    ensures Pow2(MAX_NUM_VARS) == 0x1_0000
  {
    Pow2Adds(8, 8);
    assert Pow2(8) == 256;
  }

  /** The size bound: a trace fits 2^16 rows exactly when it has fewer records. */
  lemma SizeBound(len: nat)
    ensures CeilLog2(len + 1, 0) <= MAX_NUM_VARS <==> len < Pow2(MAX_NUM_VARS)
    ensures len < Pow2(MAX_NUM_VARS) <==> len < 0x1_0000
  {
    LargestSize();
    hide Pow2, CeilLog2;
    var k := CeilLog2(len + 1, 0);
    if k <= MAX_NUM_VARS {
      Pow2Monotone(k, MAX_NUM_VARS);
    } else {
      Pow2Monotone(MAX_NUM_VARS, k - 1);
    }
  }
}
