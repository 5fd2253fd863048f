/**
 The witness columns that the builder assigns, as functions of the two padded traces and the
 switch settings, and what the constraints say on them.
 */
module WitnessColumns {
  import opened Powers
  import opened Limbs
  import opened Records
  import opened BenesNetwork
  import opened NetLayout
  import opened Rows
  import opened Uair

  function RowsOf(trace: seq<TraceRecord>): (rows: seq<RowLimbs>)
    requires AllFit(trace)
    ensures |rows| == |trace|
    ensures forall i :: 0 <= i < |rows| ==> rows[i] == FromRecord(trace[i])
  {
    seq(|trace|, i requires 0 <= i < |trace| => FromRecord(trace[i]))
  }

  /** The first lexicographic limb from j on in which two rows differ; NUM_LEX_LIMBS when there is none. */
  function FirstDiff(a: RowLimbs, b: RowLimbs, j: nat): (k: nat)
    requires ValidRow(a) && ValidRow(b) && j <= NUM_LEX_LIMBS
    ensures j <= k <= NUM_LEX_LIMBS
    ensures forall q :: j <= q < k ==> LexLimb(a, q) == LexLimb(b, q)
    ensures k < NUM_LEX_LIMBS ==> LexLimb(a, k) != LexLimb(b, k)
    decreases NUM_LEX_LIMBS - j
  {
    if j == NUM_LEX_LIMBS then j
    else if LexLimb(a, j) != LexLimb(b, j) then j
    else FirstDiff(a, b, j + 1)
  }

  /** The selected limb of the step from row i to row i + 1, and its slack. */
  function Selected(sorted: seq<RowLimbs>, i: nat): (k: nat)
    requires i + 1 < |sorted| && ValidRow(sorted[i]) && ValidRow(sorted[i + 1])
  {
    FirstDiff(sorted[i], sorted[i + 1], 0)
  }

  lemma SelectedIncreases(a: TraceRecord, b: TraceRecord)
    requires Fits(a) && Fits(b) && KeyBefore(a, b)
    ensures var k := FirstDiff(FromRecord(a), FromRecord(b), 0);
      && k < NUM_LEX_LIMBS
      && LexLimb(FromRecord(a), k) < LexLimb(FromRecord(b), k)
      && (k >= NUM_ADDR_LIMBS <==> a.address == b.address)
  {
    var rowA, rowB := FromRecord(a), FromRecord(b);
    var k := FirstDiff(rowA, rowB, 0);
    if k == NUM_LEX_LIMBS {
      SameLimbsSameKey(rowA, rowB);
      assert false;
    }
    LexOrder(rowA, rowB, k);
  }

  lemma SameLimbsSameKey(a: RowLimbs, b: RowLimbs)
    requires ValidRow(a) && ValidRow(b)
    requires forall j :: 0 <= j < NUM_LEX_LIMBS ==> LexLimb(a, j) == LexLimb(b, j)
    ensures Decoded(a).address == Decoded(b).address && Decoded(a).timeLog == Decoded(b).timeLog
  {
    forall j | 0 <= j < NUM_ADDR_LIMBS ensures a.addr[j] == b.addr[j] {
      assert LexLimb(a, j) == LexLimb(b, j);
    }
    assert a.addr == b.addr;
    assert LexLimb(a, NUM_ADDR_LIMBS) == LexLimb(b, NUM_ADDR_LIMBS);
    assert LexLimb(a, NUM_ADDR_LIMBS + 1) == LexLimb(b, NUM_ADDR_LIMBS + 1);
    assert a.time == b.time;
  }

  predicate ValidRows(rows: seq<RowLimbs>) {
    forall i :: 0 <= i < |rows| ==> ValidRow(rows[i])
  }

  /** Selector column j: row i selects limb j. The last row has no successor. */
  function SelectorColumn(sorted: seq<RowLimbs>, j: nat): (column: seq<int>)
    requires ValidRows(sorted)
    ensures |column| == |sorted|
    ensures forall i :: 0 <= i < |column| ==> column[i] == Bit(i + 1 < |sorted| && Selected(sorted, i) == j)
  {
    seq(|sorted|, i requires 0 <= i < |sorted| => Bit(i + 1 < |sorted| && Selected(sorted, i) == j))
  }

  function SlackAt(sorted: seq<RowLimbs>, i: nat): (slack: nat)
    requires ValidRows(sorted) && i < |sorted|
    ensures slack < LIMB
  {
    if i + 1 < |sorted| then
      var k := Selected(sorted, i);
      if k < NUM_LEX_LIMBS && LexLimb(sorted[i], k) < LexLimb(sorted[i + 1], k)
      then LexLimb(sorted[i + 1], k) - LexLimb(sorted[i], k) - 1
      else 0
    else 0
  }

  function SlackColumn(sorted: seq<RowLimbs>): (column: seq<nat>)
    requires ValidRows(sorted)
    ensures |column| == |sorted| && AllLimbs(column)
    ensures forall i :: 0 <= i < |column| ==> column[i] == SlackAt(sorted, i)
  {
    seq(|sorted|, i requires 0 <= i < |sorted| => SlackAt(sorted, i))
  }

  function HelperAt(sorted: seq<RowLimbs>, i: nat): int
    requires ValidRows(sorted) && i < |sorted|
  {
    if i + 1 < |sorted| && NUM_ADDR_LIMBS <= Selected(sorted, i) < NUM_LEX_LIMBS
    then sorted[i + 1].instr as int - 1 else 0
  }

  function HelperColumn(sorted: seq<RowLimbs>): (column: seq<int>)
    requires ValidRows(sorted)
    ensures |column| == |sorted| && forall i :: 0 <= i < |column| ==> column[i] == HelperAt(sorted, i)
  {
    seq(|sorted|, i requires 0 <= i < |sorted| => HelperAt(sorted, i))
  }

  /** Whether the high time limb changes from row i to row i + 1. */
  predicate HighChanges(original: seq<RowLimbs>, i: nat)
    requires ValidRows(original) && i + 1 < |original|
  {
    original[i].time[0] != original[i + 1].time[0]
  }

  function TimeSelectorColumn(original: seq<RowLimbs>, high: bool): (column: seq<int>)
    requires ValidRows(original)
    ensures |column| == |original|
    ensures forall i :: 0 <= i < |column| ==>
      column[i] == Bit(i + 1 < |original| && HighChanges(original, i) == high)
  {
    seq(|original|, i requires 0 <= i < |original| => Bit(i + 1 < |original| && HighChanges(original, i) == high))
  }

  function TimeSlackAt(original: seq<RowLimbs>, i: nat): (slack: nat)
    requires ValidRows(original) && i < |original|
    ensures slack < LIMB
  {
    if i + 1 < |original| then
      var limb := if HighChanges(original, i) then 0 else 1;
      if original[i].time[limb] < original[i + 1].time[limb]
      then original[i + 1].time[limb] - original[i].time[limb] - 1
      else 0
    else 0
  }

  function TimeSlackColumn(original: seq<RowLimbs>): (column: seq<nat>)
    requires ValidRows(original)
    ensures |column| == |original| && AllLimbs(column)
    ensures forall i :: 0 <= i < |column| ==> column[i] == TimeSlackAt(original, i)
  {
    seq(|original|, i requires 0 <= i < |original| => TimeSlackAt(original, i))
  }

  /** One payload cell of every row. */
  function PayloadColumn(rows: seq<RowLimbs>, payload: nat): (column: seq<nat>)
    requires ValidRows(rows) && payload < PAYLOAD_CELLS
    ensures |column| == |rows| && AllLimbs(column)
    ensures forall i :: 0 <= i < |column| ==> column[i] == Payload(rows[i], payload)
  {
    seq(|rows|, i requires 0 <= i < |rows| => Payload(rows[i], payload))
  }

  lemma {:induction false} StatesAreValid(rows: seq<RowLimbs>, v: nat, layers: seq<seq<bool>>, count: nat)
    requires ValidRows(rows) && ValidLayers(layers, v) && |rows| == Pow2(v) && count <= NumLayers(v)
    ensures ValidRows(StateAfter(rows, v, layers, count))
  {
    if count > 0 {
      StatesAreValid(rows, v, layers, count - 1);
    }
  }

  /** The first n network columns: 21 payload columns for each state. */
  function NetworkColumns(sorted: seq<RowLimbs>, v: nat, layers: seq<seq<bool>>, n: nat): (columns: seq<seq<nat>>)
    requires ValidRows(sorted) && ValidLayers(layers, v) && |sorted| == Pow2(v) && n <= SlackSorted(v)
    ensures |columns| == n
  {
    seq(n, c requires 0 <= c < n =>
      StatesAreValid(sorted, v, layers, StateOf(c));
      PayloadColumn(StateAfter(sorted, v, layers, StateOf(c)), PayloadOf(c)))
  }

  function SwitchColumns(v: nat, layers: seq<seq<bool>>): (columns: seq<seq<int>>)
    requires ValidLayers(layers, v)
    ensures |columns| == NumLayers(v)
    ensures forall l :: 0 <= l < NumLayers(v) ==> |columns[l]| == Pow2(v)
    ensures forall l, i :: 0 <= l < NumLayers(v) && 0 <= i < Pow2(v) ==> columns[l][i] == Bit(layers[l][i])
  {
    seq(NumLayers(v), l requires 0 <= l < NumLayers(v) =>
      seq(Pow2(v), i requires 0 <= i < Pow2(v) => Bit(layers[l][i])))
  }

  function SelectorColumns(sorted: seq<RowLimbs>): (columns: seq<seq<int>>)
    requires ValidRows(sorted)
    ensures |columns| == NUM_LEX_LIMBS
    ensures forall j :: 0 <= j < NUM_LEX_LIMBS ==> columns[j] == SelectorColumn(sorted, j)
  {
    seq(NUM_LEX_LIMBS, j requires 0 <= j < NUM_LEX_LIMBS => SelectorColumn(sorted, j))
  }

  /** The whole witness. */
  function Witness(sorted: seq<RowLimbs>, original: seq<RowLimbs>, v: nat, layers: seq<seq<bool>>): UairTrace
    requires ValidRows(sorted) && ValidRows(original) && ValidLayers(layers, v) && |sorted| == |original| == Pow2(v)
  {
    UairTrace(
      NetworkColumns(sorted, v, layers, SlackSorted(v)) + [SlackColumn(sorted), TimeSlackColumn(original)],
      PublicIntColumns(v) + SelectorColumns(sorted)
        + [HelperColumn(sorted), TimeSelectorColumn(original, true), TimeSelectorColumn(original, false)]
        + SwitchColumns(v, layers))
  }

  // ---------------------------------------------------------------------------------
  // Reading the witness

  lemma NetworkColumn(sorted: seq<RowLimbs>, v: nat, layers: seq<seq<bool>>, state: nat, payload: nat)
    requires ValidRows(sorted) && ValidLayers(layers, v) && |sorted| == Pow2(v)
    requires state < NumStates(v) && payload < PAYLOAD_CELLS
    ensures StateCol(state, payload) < SlackSorted(v) && ValidRows(StateAfter(sorted, v, layers, state))
    ensures NetworkColumns(sorted, v, layers, SlackSorted(v))[StateCol(state, payload)]
         == PayloadColumn(StateAfter(sorted, v, layers, state), payload)
  {
    hide StateAfter, PayloadColumn, Pow2, ValidRow;
    StatesAreValid(sorted, v, layers, state);
    ColumnParts(state, payload);
  }

  lemma NetworkColumnsFit(sorted: seq<RowLimbs>, v: nat, layers: seq<seq<bool>>, c: nat)
    requires ValidRows(sorted) && ValidLayers(layers, v) && |sorted| == Pow2(v) && c < SlackSorted(v)
    ensures var column := NetworkColumns(sorted, v, layers, SlackSorted(v))[c]; |column| == Pow2(v) && AllLimbs(column)
  {
    NetworkColumn(sorted, v, layers, StateOf(c), PayloadOf(c));
  }

  lemma WitnessIsAssignment(sorted: seq<RowLimbs>, original: seq<RowLimbs>, v: nat, layers: seq<seq<bool>>)
    requires ValidRows(sorted) && ValidRows(original) && ValidLayers(layers, v) && |sorted| == |original| == Pow2(v)
    ensures IsAssignment(Witness(sorted, original, v, layers), v)
  {
    var t := Witness(sorted, original, v, layers);
    forall c | 0 <= c < NumBpCols(v) ensures |t.binaryPoly[c]| == Pow2(v) && AllLimbs(t.binaryPoly[c]) {
      if c < SlackSorted(v) {
        NetworkColumnsFit(sorted, v, layers, c);
      }
    }
    PublicColumnsFit(v);
  }

  lemma PublicColumnsFit(v: nat)
    ensures forall c :: 0 <= c < NumPublicIntCols(v) ==> |PublicIntColumns(v)[c]| == Pow2(v)
  {
  }

  /** The integer columns of the witness, by their place in the layout. */
  lemma WitnessInts(sorted: seq<RowLimbs>, original: seq<RowLimbs>, v: nat, layers: seq<seq<bool>>)
    requires ValidRows(sorted) && ValidRows(original) && ValidLayers(layers, v) && |sorted| == |original| == Pow2(v)
    ensures var ints := Witness(sorted, original, v, layers).ints;
      && |ints| == NumIntCols(v)
      && (forall j :: 0 <= j < NUM_LEX_LIMBS ==> ints[IntS(v) + j] == SelectorColumn(sorted, j))
      && ints[IntW(v)] == HelperColumn(sorted)
      && ints[IntTimeHiSel(v)] == TimeSelectorColumn(original, true)
      && ints[IntTimeLoSel(v)] == TimeSelectorColumn(original, false)
      && (forall l :: 0 <= l < NumLayers(v) ==> ints[IntSwitch(v) + l] == SwitchColumns(v, layers)[l])
  {
    var ints := Witness(sorted, original, v, layers).ints;
    forall j | 0 <= j < NUM_LEX_LIMBS ensures ints[IntS(v) + j] == SelectorColumn(sorted, j) {
      assert ints[IntS(v) + j] == SelectorColumns(sorted)[j];
    }
  }
}
