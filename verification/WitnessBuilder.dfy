/**
 The witness builder: validates, sorts and pads the trace, routes the network and fills the
 columns. It succeeds exactly on buildable traces, and the witness then satisfies the UAIR
 exactly when the trace is memory-consistent.
 */
module WitnessBuilder {
  import opened Powers
  import opened Limbs
  import opened Records
  import opened BenesNetwork
  import opened NetLayout
  import opened Rows
  import opened Uair
  import opened WitnessColumns
  import opened Completeness
  import opened WitnessOrders
  import Benes

  datatype ZincMemoryError =
    | EmptyTrace
    | FirstTimeNonZero(timeLog: nat)
    | DuplicatedAccess(timeLog: nat)
    | TimeNotIncreasing(timeLog: nat)
    | TraceTooLong
    | TimeLogOverflow
    | UnsortedTrace

  datatype BuildResult<+T> = Ok(value: T) | Err(error: ZincMemoryError)

  // ---------------------------------------------------------------------------------
  // Which traces are accepted

  /** The error of the first record, from `i` on, whose successor is not later. */
  function TimeError(trace: seq<TraceRecord>, i: nat): Option<ZincMemoryError>
    decreases |trace| - i
  {
    if i + 1 >= |trace| then None
    else if trace[i + 1].timeLog == trace[i].timeLog then Some(DuplicatedAccess(trace[i].timeLog))
    else if trace[i + 1].timeLog < trace[i].timeLog then Some(TimeNotIncreasing(trace[i + 1].timeLog))
    else TimeError(trace, i + 1)
  }

  lemma {:induction false} TimeErrorIsExact(trace: seq<TraceRecord>, i: nat)
    ensures TimeError(trace, i).None? <==> forall j :: i <= j < |trace| - 1 ==> trace[j].timeLog < trace[j + 1].timeLog
    decreases |trace| - i
  {
    if i + 1 < |trace| && trace[i].timeLog < trace[i + 1].timeLog {
      TimeErrorIsExact(trace, i + 1);
    }
  }

  /** The padding rows' times fit 64 bits. */
  predicate PaddingFits(trace: seq<TraceRecord>)
    requires trace != []
  {
    trace[|trace| - 1].timeLog + (Pow2(NumVarsFor(|trace|)) - |trace|) < U64
  }

  /** The error the builder reports, if any, without the start-time contract. */
  function BuildError(trace: seq<TraceRecord>): Option<ZincMemoryError> {
    if trace == [] then Some(EmptyTrace)
    else if TimeError(trace, 0).Some? then TimeError(trace, 0)
    else if |trace| >= Pow2(MAX_NUM_VARS) then Some(TraceTooLong)
    else if !PaddingFits(trace) then Some(TimeLogOverflow)
    else None
  }

  /** The traces a witness can be built for. */
  predicate Buildable(trace: seq<TraceRecord>) {
    && trace != [] && TimesIncrease(trace)
    && |trace| < Pow2(MAX_NUM_VARS)
    && PaddingFits(trace)
  }

  lemma BuildErrorIsExact(trace: seq<TraceRecord>)
    ensures BuildError(trace).None? <==> Buildable(trace)
  {
    TimeErrorIsExact(trace, 0);
    if TimeError(trace, 0).None? {
      AdjacentTimes(trace);
    }
  }

  /** Record i is the first whose successor is not later. */
  predicate FirstDisorder(trace: seq<TraceRecord>, i: nat) {
    && i + 1 < |trace| && trace[i + 1].timeLog <= trace[i].timeLog
    && forall j :: 0 <= j < i ==> trace[j].timeLog < trace[j + 1].timeLog
  }

  lemma {:induction false} DisorderIsReported(trace: seq<TraceRecord>, from: nat, i: nat)
    requires FirstDisorder(trace, i) && from <= i
    ensures TimeError(trace, from) == Some(if trace[i + 1].timeLog == trace[i].timeLog then DuplicatedAccess(trace[i].timeLog)
                                           else TimeNotIncreasing(trace[i + 1].timeLog))
    decreases i - from
  {
    if from < i {
      DisorderIsReported(trace, from + 1, i);
    }
  }

  lemma {:induction false} FindDisorder(trace: seq<TraceRecord>, from: nat)
    requires from <= |trace| && forall j :: 0 <= j < from && j + 1 < |trace| ==> trace[j].timeLog < trace[j + 1].timeLog
    ensures TimesIncrease(trace) || exists i: nat :: FirstDisorder(trace, i)
    decreases |trace| - from
  {
    if from + 1 >= |trace| {
      AdjacentTimes(trace);
    } else if trace[from].timeLog < trace[from + 1].timeLog {
      FindDisorder(trace, from + 1);
    } else {
      assert FirstDisorder(trace, from);
    }
  }

  /** The error of every trace: of an empty one, of one out of order, and of one in order. */
  lemma ErrorsAreExact(trace: seq<TraceRecord>, v: nat)
    requires IsLeastSize(v, |trace|)
    ensures trace == [] ==> BuildError(trace) == Some(EmptyTrace)
    ensures TimesIncrease(trace) || exists i: nat :: FirstDisorder(trace, i)
    ensures forall i: nat :: FirstDisorder(trace, i) ==>
      BuildError(trace) == Some(if trace[i + 1].timeLog == trace[i].timeLog then DuplicatedAccess(trace[i].timeLog)
                                else TimeNotIncreasing(trace[i + 1].timeLog))
    ensures trace != [] && TimesIncrease(trace) ==>
      BuildError(trace) == if |trace| >= 0x1_0000 then Some(TraceTooLong)
                           else if trace[|trace| - 1].timeLog + (Pow2(v) - |trace|) >= 0x1_0000_0000_0000_0000
                           then Some(TimeLogOverflow)
                           else None
  {
    hide Pow2, IsLeastSize, TimesIncrease;
    FindDisorder(trace, 0);
    forall i: nat | FirstDisorder(trace, i)
      ensures TimeError(trace, 0) == Some(if trace[i + 1].timeLog == trace[i].timeLog then DuplicatedAccess(trace[i].timeLog)
                                          else TimeNotIncreasing(trace[i + 1].timeLog))
    {
      DisorderIsReported(trace, 0, i);
    }
    TimeErrorIsExact(trace, 0);
    if TimesIncrease(trace) {
      NextIsLater(trace);
    }
    SizeBound(|trace|);
    SizeIsLeast(|trace|);
    LeastSizeIsUnique(v, NumVarsFor(|trace|), |trace|);
  }

  lemma NextIsLater(trace: seq<TraceRecord>)
    requires TimesIncrease(trace)
    ensures forall j :: 0 <= j < |trace| - 1 ==> trace[j].timeLog < trace[j + 1].timeLog
  {
  }

  lemma LeastSizeIsUnique(v: nat, w: nat, len: nat)
    requires IsLeastSize(v, len) && IsLeastSize(w, len)
    ensures v == w
  {
  }

  /** The witness carries the trace, and satisfies the relation exactly when the trace is consistent. */
  ghost predicate ProvesExactly(t: UairTrace, v: nat, trace: seq<TraceRecord>) {
    && IsAssignment(t, v) && 0 < |trace| < Pow2(v)
    && TraceOf(t, v, OriginalState(v))[..|trace|] == trace
    && forall beyond :: Satisfies(t, v, beyond) <==> trace[0].timeLog == 0 && ReadsLastWrites(trace)
  }

  /** The rows after the trace repeat its record of the largest key as reads, at the times that follow. */
  ghost predicate PadsTail(t: UairTrace, v: nat, trace: seq<TraceRecord>)
    requires IsAssignment(t, v)
  {
    trace != [] && exists base :: IsLargestKey(trace, base) && TailRepeats(t, v, trace, base)
  }

  predicate IsLargestKey(trace: seq<TraceRecord>, base: TraceRecord) {
    base in trace && forall r :: r in trace ==> r == base || KeyBefore(r, base)
  }

  predicate TailRepeats(t: UairTrace, v: nat, trace: seq<TraceRecord>, base: TraceRecord)
    requires IsAssignment(t, v) && trace != []
  {
    forall j :: |trace| <= j < Pow2(v) ==>
      TraceOf(t, v, OriginalState(v))[j]
        == TraceRecord(trace[|trace| - 1].timeLog + 1 + (j - |trace|), base.stackDepth, Read, base.address, base.value)
  }

  /** What no constraint forces is zero: the last row's selectors and slacks, and the switches at lower wires. */
  predicate IdleCellsAreZero(t: UairTrace, v: nat)
    requires IsAssignment(t, v)
  {
    && (forall c :: IntS(v) <= c < IntSwitch(v) ==> EndsInZero(t, v, c))
    && SortedSlack(t, v, Pow2(v) - 1) == 0 && OriginalSlack(t, v, Pow2(v) - 1) == 0
    && forall l, i :: 0 <= l < NumLayers(v) && 0 <= i < Pow2(v) && !BitClear(i, StrideBit(v, l)) ==> Switch(t, v, l, i) == 0
  }

  predicate EndsInZero(t: UairTrace, v: nat, c: nat)
    requires IsAssignment(t, v) && c < NumIntCols(v)
  {
    IntCell(t, v, c, Pow2(v) - 1) == 0
  }

  /** What the builder fixes beyond the relation. */
  ghost predicate IsTidy(t: UairTrace, v: nat, trace: seq<TraceRecord>) {
    IsAssignment(t, v) && IsLeastSize(v, |trace|) && PadsTail(t, v, trace) && IdleCellsAreZero(t, v)
  }

  // ---------------------------------------------------------------------------------
  // Filling the columns

  /** A column of zeros whose first i entries have been filled in. */
  function Filled(column: seq<int>, i: nat): (partial: seq<int>)
    requires i <= |column|
    ensures |partial| == |column|
  {
    column[..i] + seq(|column| - i, _ => 0)
  }

  lemma FillOne(column: seq<int>, i: nat)
    requires i < |column|
    ensures Filled(column, i + 1) == Filled(column, i)[i := column[i]]
    ensures column[i] == 0 ==> Filled(column, i + 1) == Filled(column, i)
  {
  }

  lemma NoneFilled(column: seq<int>)
    ensures Filled(column, 0) == seq(|column|, _ => 0)
  {
  }

  lemma AllFilled(column: seq<int>)
    requires column != [] && column[|column| - 1] == 0
    ensures Filled(column, |column| - 1) == column
  {
  }

  /** Row i of the sorted trace is followed by a row with a larger key. */
  predicate RowsStepUp(rows: seq<RowLimbs>, i: nat)
    requires ValidRows(rows)
  {
    i + 1 < |rows| ==>
      var k := Selected(rows, i);
      k < NUM_LEX_LIMBS && LexLimb(rows[i], k) < LexLimb(rows[i + 1], k)
  }

  /** The selector columns with their first i rows filled in. */
  function SelectorsFilled(rows: seq<RowLimbs>, i: nat): (columns: seq<seq<int>>)
    requires ValidRows(rows) && i <= |rows|
    ensures |columns| == NUM_LEX_LIMBS
  {
    seq(NUM_LEX_LIMBS, j requires 0 <= j < NUM_LEX_LIMBS => Filled(SelectorColumn(rows, j), i))
  }

  lemma SelectorsFillOne(rows: seq<RowLimbs>, i: nat)
    requires ValidRows(rows) && i + 1 < |rows| && Selected(rows, i) < NUM_LEX_LIMBS
    ensures var k, now := Selected(rows, i), SelectorsFilled(rows, i);
      SelectorsFilled(rows, i + 1) == now[k := now[k][i := 1]]
  {
    forall j | 0 <= j < NUM_LEX_LIMBS
      ensures Filled(SelectorColumn(rows, j), i + 1)
        == if j == Selected(rows, i) then Filled(SelectorColumn(rows, j), i)[i := 1] else Filled(SelectorColumn(rows, j), i)
    {
      FillOne(SelectorColumn(rows, j), i);
    }
  }

  lemma SelectorsNoneFilled(rows: seq<RowLimbs>)
    requires ValidRows(rows)
    ensures SelectorsFilled(rows, 0) == seq(NUM_LEX_LIMBS, _ => seq(|rows|, _ => 0))
  {
    forall j | 0 <= j < NUM_LEX_LIMBS ensures Filled(SelectorColumn(rows, j), 0) == seq(|rows|, _ => 0) {
    }
  }

  lemma SelectorsAllFilled(rows: seq<RowLimbs>)
    requires ValidRows(rows) && rows != []
    ensures SelectorsFilled(rows, |rows| - 1) == SelectorColumns(rows)
  {
    forall j | 0 <= j < NUM_LEX_LIMBS ensures Filled(SelectorColumn(rows, j), |rows| - 1) == SelectorColumn(rows, j) {
      AllFilled(SelectorColumn(rows, j));
    }
  }

  /** Selector, slack and helper columns of the sorted trace, filled row by row. */
  method FillSorted(rows: seq<RowLimbs>) returns (s: seq<seq<int>>, slack: seq<nat>, w: seq<int>, ok: bool)
    requires ValidRows(rows) && rows != []
    requires forall i :: 0 <= i < |rows| ==> RowsStepUp(rows, i)
    ensures ok && s == SelectorColumns(rows) && slack == SlackColumn(rows) && w == HelperColumn(rows)
  {
    hide Filled, FirstDiff, LexLimb, SelectorColumns, SelectorColumn, SlackColumn, HelperColumn;
    var n := |rows|;
    s := seq(NUM_LEX_LIMBS, _ => seq(n, _ => 0));
    slack, w := seq(n, _ => 0), seq(n, _ => 0);
    SelectorsNoneFilled(rows);
    NoneFilled(SlackColumn(rows));
    NoneFilled(HelperColumn(rows));
    for i := 0 to n - 1
      invariant s == SelectorsFilled(rows, i)
      invariant slack == Filled(SlackColumn(rows), i)
      invariant w == Filled(HelperColumn(rows), i)
    {
      assert RowsStepUp(rows, i);
      var cur, next := rows[i], rows[i + 1];
      var k := FirstDiff(cur, next, 0);
      if k == NUM_LEX_LIMBS {
        return [], [], [], false;
      }
      var diff: int := LexLimb(next, k) as int - LexLimb(cur, k);
      if diff < 1 {
        return [], [], [], false;
      }
      SelectorsFillOne(rows, i);
      FillOne(SlackColumn(rows), i);
      FillOne(HelperColumn(rows), i);
      s := s[k := s[k][i := 1]];
      slack := slack[i := diff - 1];
      if k >= NUM_ADDR_LIMBS {
        w := w[i := next.instr as int - 1];
      }
    }
    SelectorsAllFilled(rows);
    AllFilled(SlackColumn(rows));
    AllFilled(HelperColumn(rows));
    ok := true;
  }

  /** Row i of the original trace is followed by a later row. */
  predicate TimesStepUp(rows: seq<RowLimbs>, i: nat)
    requires ValidRows(rows)
  {
    i + 1 < |rows| ==>
      var limb := if HighChanges(rows, i) then 0 else 1;
      rows[i].time[limb] < rows[i + 1].time[limb]
  }

  /** Time selectors and time slack of the original trace, filled row by row. */
  method FillOriginal(rows: seq<RowLimbs>) returns (hi: seq<int>, lo: seq<int>, slack: seq<nat>, ok: bool)
    requires ValidRows(rows) && rows != []
    requires forall i :: 0 <= i < |rows| ==> TimesStepUp(rows, i)
    ensures ok && slack == TimeSlackColumn(rows)
    ensures hi == TimeSelectorColumn(rows, true) && lo == TimeSelectorColumn(rows, false)
  {
    var n := |rows|;
    hi, lo, slack := seq(n, _ => 0), seq(n, _ => 0), seq(n, _ => 0);
    for i := 0 to n - 1
      invariant hi == Filled(TimeSelectorColumn(rows, true), i)
      invariant lo == Filled(TimeSelectorColumn(rows, false), i)
      invariant slack == Filled(TimeSlackColumn(rows), i)
    {
      assert TimesStepUp(rows, i);
      FillOne(TimeSelectorColumn(rows, true), i);
      FillOne(TimeSelectorColumn(rows, false), i);
      FillOne(TimeSlackColumn(rows), i);
      var cur, next := rows[i], rows[i + 1];
      var diff: int;
      if cur.time[0] != next.time[0] {
        hi := hi[i := 1];
        diff := next.time[0] as int - cur.time[0];
      } else {
        lo := lo[i := 1];
        diff := next.time[1] as int - cur.time[1];
      }
      if diff < 1 {
        return [], [], [], false;
      }
      slack := slack[i := diff - 1];
    }
    AllFilled(TimeSelectorColumn(rows, true));
    AllFilled(TimeSelectorColumn(rows, false));
    AllFilled(TimeSlackColumn(rows));
    ok := true;
  }

  /** The payload columns of one state. */
  function StateColumns(rows: seq<RowLimbs>, upTo: nat): (columns: seq<seq<nat>>)
    requires ValidRows(rows) && upTo <= PAYLOAD_CELLS
    ensures |columns| == upTo
  {
    seq(upTo, p requires 0 <= p < upTo => PayloadColumn(rows, p))
  }

  method PushState(columns: seq<seq<nat>>, rows: seq<RowLimbs>) returns (out: seq<seq<nat>>)
    requires ValidRows(rows)
    ensures out == columns + StateColumns(rows, PAYLOAD_CELLS)
  {
    out := columns;
    for payload := 0 to PAYLOAD_CELLS
      invariant out == columns + StateColumns(rows, payload)
    {
      out := out + [PayloadColumn(rows, payload)];
    }
  }

  lemma NetworkColumnAt(rows: seq<RowLimbs>, v: nat, layers: seq<seq<bool>>, n: nat, c: nat)
    requires ValidRows(rows) && ValidLayers(layers, v) && |rows| == Pow2(v) && c < n <= SlackSorted(v)
    ensures StateOf(c) < NumStates(v) && ValidRows(StateAfter(rows, v, layers, StateOf(c)))
    ensures NetworkColumns(rows, v, layers, n)[c] == PayloadColumn(StateAfter(rows, v, layers, StateOf(c)), PayloadOf(c))
  {
    hide StateAfter, PayloadColumn, Pow2, ValidRow;
    StatesAreValid(rows, v, layers, StateOf(c));
  }

  lemma NetworkColumnsStep(rows: seq<RowLimbs>, v: nat, layers: seq<seq<bool>>, g: nat)
    requires ValidRows(rows) && ValidLayers(layers, v) && |rows| == Pow2(v) && g < NumStates(v)
    ensures ValidRows(StateAfter(rows, v, layers, g)) && StateCol(g + 1, 0) <= SlackSorted(v)
    ensures NetworkColumns(rows, v, layers, StateCol(g + 1, 0))
      == NetworkColumns(rows, v, layers, StateCol(g, 0)) + StateColumns(StateAfter(rows, v, layers, g), PAYLOAD_CELLS)
  {
    hide Pow2, NetworkColumns, StateOf, PayloadOf, StateAfter, PayloadColumn, ValidRow;
    StatesAreValid(rows, v, layers, g);
    var whole, front := NetworkColumns(rows, v, layers, StateCol(g + 1, 0)), NetworkColumns(rows, v, layers, StateCol(g, 0));
    var block := StateColumns(StateAfter(rows, v, layers, g), PAYLOAD_CELLS);
    forall c | 0 <= c < |front| ensures whole[c] == front[c] {
      NetworkColumnAt(rows, v, layers, |whole|, c);
      NetworkColumnAt(rows, v, layers, |front|, c);
    }
    forall p | 0 <= p < |block| ensures whole[|front| + p] == block[p] {
      ColumnParts(g, p);
      NetworkColumnAt(rows, v, layers, |whole|, |front| + p);
    }
    assert whole == front + block;
  }

  method CloneRows(rows: seq<RowLimbs>) returns (state: array<RowLimbs>)
    ensures fresh(state) && state[..] == rows
  {
    state := new RowLimbs[|rows|](i requires 0 <= i < |rows| => rows[i]);
  }

  /** The state after some layers, and the columns of all states up to it. */
  predicate NetworkFilled(state: seq<RowLimbs>, columns: seq<seq<nat>>, rows: seq<RowLimbs>, v: nat,
                          layers: seq<seq<bool>>, count: nat)
    requires ValidRows(rows) && ValidLayers(layers, v) && |rows| == Pow2(v) && count <= NumLayers(v)
  {
    && state == StateAfter(rows, v, layers, count)
    && columns == NetworkColumns(rows, v, layers, StateCol(count + 1, 0))
  }

  /** Pushes the state through one layer and keeps its columns. */
  method Advance(state: array<RowLimbs>, before: seq<seq<nat>>, ghost rows: seq<RowLimbs>, v: nat,
                 layers: seq<seq<bool>>, layer: nat)
    returns (columns: seq<seq<nat>>)
    requires ValidRows(rows) && ValidLayers(layers, v) && |rows| == Pow2(v) && layer < NumLayers(v)
    requires NetworkFilled(state[..], before, rows, v, layers, layer)
    modifies state
    ensures NetworkFilled(state[..], columns, rows, v, layers, layer + 1)
  {
    ApplyLayer(state, v, layer, layers[layer]);
    NetworkColumnsStep(rows, v, layers, layer + 1);
    columns := PushState(before, state[..]);
  }

  method StartNetwork(rows: seq<RowLimbs>, v: nat, ghost layers: seq<seq<bool>>)
    returns (state: array<RowLimbs>, columns: seq<seq<nat>>)
    requires ValidRows(rows) && ValidLayers(layers, v) && |rows| == Pow2(v)
    ensures fresh(state) && NetworkFilled(state[..], columns, rows, v, layers, 0)
  {
    state := CloneRows(rows);
    NetworkColumnsStep(rows, v, layers, 0);
    columns := PushState([], state[..]);
  }

  /** Pushes the rows through all layers in place, keeping every state's columns. */
  method RunNetwork(state: array<RowLimbs>, first: seq<seq<nat>>, ghost rows: seq<RowLimbs>, v: nat, layers: seq<seq<bool>>)
    returns (columns: seq<seq<nat>>)
    requires ValidRows(rows) && ValidLayers(layers, v) && |rows| == Pow2(v)
    requires NetworkFilled(state[..], first, rows, v, layers, 0)
    modifies state
    ensures NetworkFilled(state[..], columns, rows, v, layers, NumLayers(v))
  {
    hide NetworkFilled, ValidRow, Pow2;
    columns := first;
    for layer := 0 to NumLayers(v)
      invariant NetworkFilled(state[..], columns, rows, v, layers, layer)
    {
      columns := Advance(state, columns, rows, v, layers, layer);
    }
  }

  /** The columns of all network states, and the rows that leave the network. */
  method FillNetwork(rows: seq<RowLimbs>, v: nat, layers: seq<seq<bool>>)
    returns (columns: seq<seq<nat>>, final: seq<RowLimbs>)
    requires ValidRows(rows) && ValidLayers(layers, v) && |rows| == Pow2(v)
    ensures NetworkFilled(final, columns, rows, v, layers, NumLayers(v))
  {
    var state, first := StartNetwork(rows, v, layers);
    columns := RunNetwork(state, first, rows, v, layers);
    final := state[..];
  }

  // ---------------------------------------------------------------------------------
  // The builder

  lemma SortedRowsStepUp(sorted: seq<TraceRecord>, i: nat)
    requires AllFit(sorted) && SortedByKey(sorted)
    ensures RowsStepUp(RowsOf(sorted), i)
  {
    if i + 1 < |sorted| {
      SelectedIncreases(sorted[i], sorted[i + 1]);
    }
  }

  lemma OriginalTimesStepUp(original: seq<TraceRecord>, i: nat)
    requires AllFit(original) && TimesIncrease(original)
    ensures TimesStepUp(RowsOf(original), i)
  {
    if i + 1 < |original| {
      TimeGrows(original[i], original[i + 1]);
    }
  }

  /** The routed network turns the sorted rows into the original rows. */
  lemma RoutedRows(sorted: seq<TraceRecord>, original: seq<TraceRecord>, v: nat, layers: seq<seq<bool>>)
    requires AllFit(sorted) && AllFit(original) && ValidLayers(layers, v) && |sorted| == Pow2(v)
    requires Reorders(original, sorted, Realized(layers, v))
    ensures StateAfter(RowsOf(sorted), v, layers, NumLayers(v)) == RowsOf(original)
  {
    forall j | 0 <= j < Pow2(v)
      ensures StateAfter(RowsOf(sorted), v, layers, NumLayers(v))[j] == RowsOf(original)[j]
    {
      Benes.NetworkPermutes(RowsOf(sorted), v, layers, j);
    }
  }

  /** Builds the witness of two padded orders. The internal error is unreachable. */
  method BuildPadded(sorted: seq<TraceRecord>, original: seq<TraceRecord>, v: nat)
    returns (r: BuildResult<UairTrace>, ghost layers: seq<seq<bool>>)
    requires AllFit(sorted) && AllFit(original) && v >= 1 && |sorted| == |original| == Pow2(v)
    requires SortedByKey(sorted) && TimesIncrease(original) && SameRecords(original, sorted)
    ensures r.Ok? && IsWitness(r.value, v, sorted, original, layers) && Benes.OnlyUpperSet(layers, v)
  {
    hide SortedByKey, TimesIncrease, SameRecords, Realized, StateAfter, IsWitness, RowsStepUp, TimesStepUp, RowsOf, NetworkFilled;
    var sortedRows, originalRows := RowsOf(sorted), RowsOf(original);
    forall i | 0 <= i < Pow2(v) ensures RowsStepUp(sortedRows, i) && TimesStepUp(originalRows, i) {
      SortedRowsStepUp(sorted, i);
      OriginalTimesStepUp(original, i);
    }
    var s, slackSorted, w, sortedOk := FillSorted(sortedRows);
    var hi, lo, slackOriginal, originalOk := FillOriginal(originalRows);
    var perm := LinkByTime(original, sorted);
    var switches := Benes.Route(perm, v);
    layers := switches;
    var columns, final := FillNetwork(sortedRows, v, switches);
    RoutedRows(sorted, original, v, switches);
    if !sortedOk || !originalOk || final != originalRows {
      return Err(UnsortedTrace), layers;
    }
    WitnessIsWitness(sorted, original, v, switches);
    var t := UairTrace(columns + [slackSorted, slackOriginal],
                       PublicIntColumns(v) + s + [w, hi, lo] + SwitchColumns(v, switches));
    assert t == Witness(sortedRows, originalRows, v, switches);
    r := Ok(t);
  }

  lemma WitnessCarriesRow(t: UairTrace, v: nat, original: seq<TraceRecord>, i: nat)
    requires IsAssignment(t, v) && OriginalPart(t, v, original) && i < Pow2(v)
    ensures StateCells(t, v, OriginalState(v), i) == RowCells(FromRecord(original[i]))
  {
    assert RowsOf(original)[i] == FromRecord(original[i]);
    forall p | 0 <= p < PAYLOAD_CELLS
      ensures StateCells(t, v, OriginalState(v), i)[p] == Payload(FromRecord(original[i]), p)
    {
      assert StateColumn(t, v, OriginalState(v), p) == PayloadColumn(RowsOf(original), p);
    }
  }

  /** The last state of a witness, read back as records. */
  lemma WitnessCarriesTrace(t: UairTrace, v: nat, original: seq<TraceRecord>)
    requires IsAssignment(t, v) && OriginalPart(t, v, original)
    ensures TraceOf(t, v, OriginalState(v)) == original
  {
    forall i | 0 <= i < Pow2(v) ensures TraceOf(t, v, OriginalState(v))[i] == original[i] {
      WitnessCarriesRow(t, v, original, i);
      RowOfCells(FromRecord(original[i]));
    }
  }

  /** What the padded witness says about the trace itself. */
  lemma PaddedWitnessProves(t: UairTrace, v: nat, trace: seq<TraceRecord>, sorted: seq<TraceRecord>, count: nat,
                            layers: seq<seq<bool>>)
    requires trace != [] && TimesIncrease(trace) && SortedByKey(sorted) && SameRecords(trace, sorted)
    requires |trace| < Pow2(v) && count == Pow2(v) - |trace|
    requires var padding := Padding(sorted[|sorted| - 1], trace[|trace| - 1].timeLog, count);
      IsWitness(t, v, sorted + padding, trace + padding, layers)
    ensures ProvesExactly(t, v, trace)
  {
    var time := trace[|trace| - 1].timeLog;
    var padding := Padding(sorted[|sorted| - 1], time, count);
    WitnessCarriesTrace(t, v, trace + padding);
    PaddedTimesIncrease(trace, sorted[|sorted| - 1], count);
    PaddedIsSorted(trace, sorted, count);
    PaddingIsBenign(sorted, time, count);
    var perm := ReorderExists(trace, sorted);
    SortedCheckIsExact(trace, sorted, perm);
    forall beyond: nat ensures Satisfies(t, v, beyond) <==> trace[0].timeLog == 0 && ReadsLastWrites(trace) {
      WitnessMeaning(t, v, sorted + padding, trace + padding, layers, beyond);
    }
  }

  lemma LargestIsLast(trace: seq<TraceRecord>, sorted: seq<TraceRecord>)
    requires trace != [] && SortedByKey(sorted) && SameRecords(trace, sorted)
    ensures IsLargestKey(trace, sorted[|sorted| - 1])
  {
    var n := |sorted|;
    assert sorted[n - 1] in trace;
    forall r | r in trace ensures r == sorted[n - 1] || KeyBefore(r, sorted[n - 1]) {
      var i :| 0 <= i < |trace| && trace[i] == r;
      var q :| 0 <= q < n && sorted[q] == r;
      assert q < n - 1 ==> KeyBefore(sorted[q], sorted[n - 1]);
    }
  }

  lemma PaddedTail(t: UairTrace, v: nat, trace: seq<TraceRecord>, base: TraceRecord)
    requires IsAssignment(t, v) && trace != [] && |trace| <= Pow2(v) && IsLargestKey(trace, base)
    requires OriginalPart(t, v, trace + Padding(base, trace[|trace| - 1].timeLog, Pow2(v) - |trace|))
    ensures PadsTail(t, v, trace)
  {
    hide OriginalPart, IsLargestKey;
    WitnessCarriesTrace(t, v, trace + Padding(base, trace[|trace| - 1].timeLog, Pow2(v) - |trace|));
    assert TailRepeats(t, v, trace, base);
  }

  lemma WitnessIsIdle(t: UairTrace, v: nat, sorted: seq<TraceRecord>, original: seq<TraceRecord>, layers: seq<seq<bool>>)
    requires IsWitness(t, v, sorted, original, layers) && Benes.OnlyUpperSet(layers, v)
    ensures IdleCellsAreZero(t, v)
  {
    hide StateHolds, Pow2, BitClear;
    assert SortedHolds(t, v, sorted) && OriginalHolds(t, v, original) && StatesHold(t, v, RowsOf(sorted), layers);
    forall c | IntS(v) <= c < IntSwitch(v) ensures EndsInZero(t, v, c) {
      if c < IntW(v) {
        assert t.ints[IntS(v) + (c - IntS(v))] == SelectorColumn(RowsOf(sorted), c - IntS(v));
      }
    }
  }

  /** The time validation loop over consecutive records. */
  method CheckTimes(trace: seq<TraceRecord>) returns (error: Option<ZincMemoryError>)
    ensures error == TimeError(trace, 0)
  {
    if trace == [] {
      return None;
    }
    for i := 0 to |trace| - 1
      invariant TimeError(trace, 0) == TimeError(trace, i)
    {
      if trace[i + 1].timeLog == trace[i].timeLog {
        return Some(DuplicatedAccess(trace[i].timeLog));
      } else if trace[i + 1].timeLog < trace[i].timeLog {
        return Some(TimeNotIncreasing(trace[i + 1].timeLog));
      }
    }
    return None;
  }

  lemma SortedFit(trace: seq<TraceRecord>, sorted: seq<TraceRecord>)
    requires AllFit(trace) && SameRecords(trace, sorted)
    ensures AllFit(sorted)
  {
  }

  lemma PaddedFit(records: seq<TraceRecord>, base: TraceRecord, time: nat, count: nat)
    requires AllFit(records) && Fits(base) && time + count < U64
    ensures AllFit(records + Padding(base, time, count))
  {
  }

  /** Sorts and pads a validated trace and builds its witness. */
  method SortPadBuild(trace: seq<TraceRecord>, v: nat) returns (r: BuildResult<UairTrace>)
    requires AllFit(trace) && trace != [] && TimesIncrease(trace) && v >= 1 && |trace| < Pow2(v)
    ensures var fits := trace[|trace| - 1].timeLog + (Pow2(v) - |trace|) < U64;
      if fits then r.Ok? && ProvesExactly(r.value, v, trace) && (IsLeastSize(v, |trace|) ==> IsTidy(r.value, v, trace))
      else r == Err(TimeLogOverflow)
  {
    hide SortedByKey, TimesIncrease, IsWitness, KeyBefore, ProvesExactly, Padding, SortByKey, Pow2, PadsTail,
      IdleCellsAreZero, IsLeastSize;
    var sorted, count := SortByKey(trace), Pow2(v) - |trace|;
    SortIsSorted(trace);
    var base, lastTime := sorted[|sorted| - 1], trace[|trace| - 1].timeLog;
    assert base in trace;
    var padding := Pad(base, lastTime, count);
    if padding.None? {
      return Err(TimeLogOverflow);
    }
    SortedFit(trace, sorted);
    PaddedFit(trace, base, lastTime, count);
    PaddedFit(sorted, base, lastTime, count);
    PaddedTimesIncrease(trace, base, count);
    PaddedIsSorted(trace, sorted, count);
    PaddedSameRecords(trace, sorted, padding.value);
    ghost var layers;
    r, layers := BuildPadded(sorted + padding.value, trace + padding.value, v);
    PaddedWitnessProves(r.value, v, trace, sorted, count, layers);
    SortPadIsTidy(r.value, v, trace, sorted, layers);
  }

  lemma SortPadIsTidy(t: UairTrace, v: nat, trace: seq<TraceRecord>, sorted: seq<TraceRecord>, layers: seq<seq<bool>>)
    requires trace != [] && SortedByKey(sorted) && SameRecords(trace, sorted) && |trace| <= Pow2(v)
    requires var padding := Padding(sorted[|sorted| - 1], trace[|trace| - 1].timeLog, Pow2(v) - |trace|);
      IsWitness(t, v, sorted + padding, trace + padding, layers)
    requires Benes.OnlyUpperSet(layers, v)
    ensures IsAssignment(t, v) && PadsTail(t, v, trace) && IdleCellsAreZero(t, v)
  {
    hide SortedByKey, SortedPart, OriginalPart, NetworkPart, PadsTail, IdleCellsAreZero;
    var padding := Padding(sorted[|sorted| - 1], trace[|trace| - 1].timeLog, Pow2(v) - |trace|);
    LargestIsLast(trace, sorted);
    PaddedTail(t, v, trace, sorted[|sorted| - 1]);
    WitnessIsIdle(t, v, sorted + padding, trace + padding, layers);
  }

  /** The result of building: the trace's error, or a witness that proves exactly the trace. */
  ghost predicate BuildsWitness(r: BuildResult<(UairTrace, nat)>, trace: seq<TraceRecord>) {
    if BuildError(trace).Some? then r == Err(BuildError(trace).value)
    else
      && r.Ok? && r.value.1 == NumVarsFor(|trace|)
      && ProvesExactly(r.value.0, r.value.1, trace) && IsTidy(r.value.0, r.value.1, trace)
  }

  /** The builder without the start-time contract. */
  method BuildUairTraceAnyStart(trace: seq<TraceRecord>) returns (r: BuildResult<(UairTrace, nat)>)
    requires AllFit(trace)
    ensures BuildsWitness(r, trace)
  {
    hide ProvesExactly, IsTidy, IsLeastSize, AllFit;
    if trace == [] {
      return Err(EmptyTrace);
    }
    var timeError := CheckTimes(trace);
    if timeError.Some? {
      return Err(timeError.value);
    }
    var size := SizeFor(|trace|);
    if size.None? {
      return Err(TraceTooLong);
    }
    TimeErrorIsExact(trace, 0);
    AdjacentTimes(trace);
    SizeIsLeast(|trace|);
    var built := SortPadBuild(trace, size.value);
    r := WithSize(built, size.value);
  }

  function WithSize(built: BuildResult<UairTrace>, v: nat): (r: BuildResult<(UairTrace, nat)>)
    ensures built.Ok? ==> r == Ok((built.value, v))
    ensures built.Err? ==> r == Err(built.error)
  {
    match built case Ok(t) => Ok((t, v)) case Err(e) => Err(e)
  }

  /** The row count, when the trace and at least one padding row fit the maximum. */
  method SizeFor(len: nat) returns (v: Option<nat>)
    ensures v == if len < Pow2(MAX_NUM_VARS) then Some(NumVarsFor(len)) else None
  {
    SizeBound(len);
    v := if CeilLog2(len + 1, 0) > MAX_NUM_VARS then None else Some(NumVarsFor(len));
  }

  /**
   A start time other than zero is reported first; otherwise the result is that of the builder
   without the check. The internal error is never reported, and a witness has a legal size.
   */
  ghost predicate BuildsFromZero(r: BuildResult<(UairTrace, nat)>, trace: seq<TraceRecord>) {
    && (if trace != [] && trace[0].timeLog != 0 then r == Err(FirstTimeNonZero(trace[0].timeLog)) else BuildsWitness(r, trace))
    && (r.Err? ==> r.error != UnsortedTrace)
    && (r.Ok? ==> ProvesExactly(r.value.0, r.value.1, trace) && MIN_NUM_VARS <= r.value.1 <= MAX_NUM_VARS)
  }

  /**
   The builder. It succeeds exactly on buildable traces that start at time 0, and its witness
   then satisfies the UAIR exactly when every read returns the last earlier write.
   */
  method BuildUairTrace(trace: seq<TraceRecord>) returns (r: BuildResult<(UairTrace, nat)>)
    requires AllFit(trace)
    ensures r.Ok? <==> Buildable(trace) && trace[0].timeLog == 0
    ensures BuildsFromZero(r, trace)
  {
    hide ProvesExactly, IsTidy, TimesIncrease, TimeError, AllFit;
    BuildErrorIsExact(trace);
    if trace != [] && trace[0].timeLog != 0 {
      return Err(FirstTimeNonZero(trace[0].timeLog));
    }
    r := BuildUairTraceAnyStart(trace);
    BuildErrorKinds(trace);
    if |trace| < Pow2(MAX_NUM_VARS) {
      NumVarsInRange(trace);
    }
  }

  /** The internal error is never reported. */
  lemma BuildErrorKinds(trace: seq<TraceRecord>)
    ensures BuildError(trace) != Some(UnsortedTrace)
  {
    TimeErrorKinds(trace, 0);
  }

  lemma NumVarsInRange(trace: seq<TraceRecord>)
    requires |trace| < Pow2(MAX_NUM_VARS)
    ensures MIN_NUM_VARS <= NumVarsFor(|trace|) <= MAX_NUM_VARS
  {
    hide Pow2;
    SizeBound(|trace|);
  }

  lemma {:induction false} TimeErrorKinds(trace: seq<TraceRecord>, i: nat)
    ensures TimeError(trace, i).Some? ==> TimeError(trace, i).value.DuplicatedAccess? || TimeError(trace, i).value.TimeNotIncreasing?
    decreases |trace| - i
  {
    if i + 1 < |trace| {
      TimeErrorKinds(trace, i + 1);
    }
  }
}
