/**
 Completeness of the UAIR on built witnesses, row by row: the network, selector and slack
 columns always satisfy their constraints, and what is left of the relation is exactly the
 consistency of the sorted trace and the start time of the original one.
 */
module Completeness {
  import opened Powers
  import opened Limbs
  import opened Records
  import opened BenesNetwork
  import opened NetLayout
  import opened Rows
  import opened Selectors
  import opened Uair
  import opened UairSoundness
  import opened WitnessColumns

  /** The columns of one network state hold the given rows. */
  predicate StateHolds(t: UairTrace, v: nat, state: nat, rows: seq<RowLimbs>)
    requires IsAssignment(t, v) && state < NumStates(v)
  {
    && |rows| == Pow2(v) && ValidRows(rows)
    && forall p :: 0 <= p < PAYLOAD_CELLS ==> StateColumn(t, v, state, p) == PayloadColumn(rows, p)
  }

  // ---------------------------------------------------------------------------------
  // The network rows

  predicate NetworkPart(t: UairTrace, v: nat, rows: seq<RowLimbs>, layers: seq<seq<bool>>)
    requires IsAssignment(t, v)
  {
    ValidLayers(layers, v) && |rows| == Pow2(v) && StatesHold(t, v, rows, layers)
  }

  predicate StatesHold(t: UairTrace, v: nat, rows: seq<RowLimbs>, layers: seq<seq<bool>>)
    requires IsAssignment(t, v) && ValidLayers(layers, v) && |rows| == Pow2(v)
  {
    && (forall g :: 0 <= g < NumStates(v) ==> StateHolds(t, v, g, StateAfter(rows, v, layers, g)))
    && forall l, i :: 0 <= l < NumLayers(v) && 0 <= i < Pow2(v) ==> Switch(t, v, l, i) == Bit(layers[l][i])
  }

  /** A cell of the next state is the cell of the current state that the switch feeds to it. */
  lemma NextStateCell(t: UairTrace, v: nat, rows: seq<RowLimbs>, layers: seq<seq<bool>>, layer: nat, payload: nat, i: nat)
    requires IsAssignment(t, v) && NetworkPart(t, v, rows, layers)
    requires layer < NumLayers(v) && payload < PAYLOAD_CELLS && i < Pow2(v)
    ensures StateCell(t, v, layer + 1, payload, i)
         == StateCell(t, v, layer, payload, Feed(v, StrideBit(v, layer), layers[layer], i))
  {
    hide Pow2, Feed, Payload, ValidRow;
    assert StateHolds(t, v, layer, StateAfter(rows, v, layers, layer));
    assert StateHolds(t, v, layer + 1, StateAfter(rows, v, layers, layer + 1));
  }

  lemma SwapHolds(t: UairTrace, v: nat, rows: seq<RowLimbs>, layers: seq<seq<bool>>, beyond: nat, layer: nat,
                  payload: nat, i: nat)
    requires IsAssignment(t, v) && NetworkPart(t, v, rows, layers)
    requires layer < NumLayers(v) && payload < PAYLOAD_CELLS && i < Pow2(v)
    ensures N2N3(t, v, beyond, layer, payload, i)
  {
    hide Pow2, StateCell, SwapEquations, DownCell, Mask, BitClear, StateHolds, Switch;
    var k := StrideBit(v, layer);
    AnchorMask(t, v, layer, i);
    if BitClear(i, k) {
      SwitchPair(v, k, i);
      var j := i + Pow2(k);
      NextStateCell(t, v, rows, layers, layer, payload, i);
      NextStateCell(t, v, rows, layers, layer, payload, j);
      SwapMeaning(Switch(t, v, layer, i), StateCell(t, v, layer, payload, i), StateCell(t, v, layer, payload, j),
                  StateCell(t, v, layer + 1, payload, i), StateCell(t, v, layer + 1, payload, j));
    } else {
      LowerWireIsFree(Switch(t, v, layer, i), StateCell(t, v, layer, payload, i),
        DownCell(t, v, beyond, layer, payload, Stride(v, layer), i), StateCell(t, v, layer + 1, payload, i),
        DownCell(t, v, beyond, layer + 1, payload, Stride(v, layer), i));
    }
  }

  /** Rows of lower wires are masked out. */
  lemma LowerWireIsFree(s: int, in1: int, in2: int, out1: int, out2: int)
    ensures SwapEquations(0, s, in1, in2, out1, out2)
  {
  }

  lemma SwitchesAreBits(t: UairTrace, v: nat, rows: seq<RowLimbs>, layers: seq<seq<bool>>, layer: nat, i: nat)
    requires IsAssignment(t, v) && NetworkPart(t, v, rows, layers) && layer < NumLayers(v) && i < Pow2(v)
    ensures N1(t, v, layer, i)
  {
    hide Mask, Switch, StateHolds, Pow2;
    assert Switch(t, v, layer, i) == Bit(layers[layer][i]);
  }

  lemma NetworkHolds(t: UairTrace, v: nat, rows: seq<RowLimbs>, layers: seq<seq<bool>>, beyond: nat, i: nat)
    requires IsAssignment(t, v) && NetworkPart(t, v, rows, layers) && i < Pow2(v)
    ensures NetworkRow(t, v, beyond, i)
  {
    hide N1, N2N3, StatesHold, Pow2;
    forall layer | 0 <= layer < NumLayers(v) ensures LayerRow(t, v, beyond, layer, i) {
      SwitchesAreBits(t, v, rows, layers, layer, i);
      forall payload | 0 <= payload < PAYLOAD_CELLS ensures N2N3(t, v, beyond, layer, payload, i) {
        SwapHolds(t, v, rows, layers, beyond, layer, payload, i);
      }
    }
  }

  // ---------------------------------------------------------------------------------
  // The sorted rows

  predicate SortedPart(t: UairTrace, v: nat, sorted: seq<TraceRecord>)
    requires IsAssignment(t, v)
  {
    AllFit(sorted) && |sorted| == Pow2(v) && SortedHolds(t, v, sorted)
  }

  predicate SortedHolds(t: UairTrace, v: nat, sorted: seq<TraceRecord>)
    requires IsAssignment(t, v) && AllFit(sorted) && |sorted| == Pow2(v)
  {
    && StateHolds(t, v, 0, RowsOf(sorted))
    && (forall j :: 0 <= j < NUM_LEX_LIMBS ==> t.ints[IntS(v) + j] == SelectorColumn(RowsOf(sorted), j))
    && t.ints[IntW(v)] == HelperColumn(RowsOf(sorted))
    && t.binaryPoly[SlackSorted(v)] == SlackColumn(RowsOf(sorted))
  }

  lemma SortedCells(t: UairTrace, v: nat, sorted: seq<TraceRecord>, beyond: nat, payload: nat, i: nat)
    requires IsAssignment(t, v) && SortedPart(t, v, sorted) && payload < PAYLOAD_CELLS && i < Pow2(v) - 1
    ensures StateCell(t, v, 0, payload, i) == Payload(FromRecord(sorted[i]), payload)
    ensures DownCell(t, v, beyond, 0, payload, 1, i) == Payload(FromRecord(sorted[i + 1]), payload)
  {
    assert RowsOf(sorted)[i] == FromRecord(sorted[i]) && RowsOf(sorted)[i + 1] == FromRecord(sorted[i + 1]);
    assert StateColumn(t, v, 0, payload) == PayloadColumn(RowsOf(sorted), payload);
  }

  lemma SelectorCells(t: UairTrace, v: nat, sorted: seq<TraceRecord>, i: nat)
    requires IsAssignment(t, v) && SortedPart(t, v, sorted) && i < Pow2(v) - 1 && KeyBefore(sorted[i], sorted[i + 1])
    ensures OneHotAt(SelectorsAt(t, v, i), Selected(RowsOf(sorted), i))
  {
    hide StateHolds, Pow2, KeyBefore, FromRecord, FirstDiff, Fits;
    var rows := RowsOf(sorted);
    SelectedIncreases(sorted[i], sorted[i + 1]);
    forall j | 0 <= j < NUM_LEX_LIMBS ensures SelectorsAt(t, v, i)[j] == Bit(j == Selected(rows, i)) {
      assert t.ints[IntS(v) + j] == SelectorColumn(rows, j);
    }
  }

  lemma DifferenceCell(t: UairTrace, v: nat, sorted: seq<TraceRecord>, beyond: nat, j: nat, i: nat)
    requires IsAssignment(t, v) && SortedPart(t, v, sorted) && i < Pow2(v) - 1 && j < NUM_LEX_LIMBS
    ensures LexDifferencesAt(t, v, beyond, i)[j]
         == LexLimb(RowsOf(sorted)[i + 1], j) as int - LexLimb(RowsOf(sorted)[i], j)
  {
    hide SortedHolds, Pow2, StateCell, DownCell;
    SortedCells(t, v, sorted, beyond, PL_ADDR + j, i);
  }

  lemma DifferencesUpTo(t: UairTrace, v: nat, sorted: seq<TraceRecord>, beyond: nat, j: nat, i: nat)
    requires IsAssignment(t, v) && SortedPart(t, v, sorted) && i < Pow2(v) - 1 && KeyBefore(sorted[i], sorted[i + 1])
    requires j <= Selected(RowsOf(sorted), i) < NUM_LEX_LIMBS
    ensures LexDifferencesAt(t, v, beyond, i)[j]
         == if j < Selected(RowsOf(sorted), i) then 0 else 1 + SlackAt(RowsOf(sorted), i)
  {
    hide SortedHolds, Pow2, LexDifferencesAt, FromRecord, FirstDiff, KeyBefore, LexLimb, Fits;
    SelectedIncreases(sorted[i], sorted[i + 1]);
    DifferenceCell(t, v, sorted, beyond, j, i);
  }

  /** Selectors of the first difference between two rows, in key order. */
  lemma SelectorsTell(a: TraceRecord, b: TraceRecord, s: seq<int>, d: seq<int>, slack: nat, k: nat)
    requires Fits(a) && Fits(b) && KeyBefore(a, b) && k == FirstDiff(FromRecord(a), FromRecord(b), 0) < NUM_LEX_LIMBS
    requires |s| == |d| == NUM_LEX_LIMBS && OneHotAt(s, k)
    requires forall j :: 0 <= j <= k ==> d[j] == if j < k then 0 else 1 + slack
    ensures SelectsIncrease(s, d, slack)
    ensures s[NUM_ADDR_LIMBS] + s[NUM_ADDR_LIMBS + 1] == Bit(a.address == b.address)
  {
    hide FromRecord, KeyBefore, FirstDiff;
    SelectedIncreases(a, b);
    SelectorWitness(s, d, slack, k);
  }

  /** The builder's selectors and slack satisfy S3 to S6, and a_same tells whether the address stays. */
  lemma SelectorsHold(t: UairTrace, v: nat, sorted: seq<TraceRecord>, beyond: nat, i: nat)
    requires IsAssignment(t, v) && SortedPart(t, v, sorted) && i < Pow2(v) - 1 && KeyBefore(sorted[i], sorted[i + 1])
    ensures S3toS6(t, v, beyond, i)
    ensures SameAddress(t, v, i) == Bit(sorted[i].address == sorted[i + 1].address)
  {
    hide SortedHolds, KeyBefore, SelectorsAt, LexDifferencesAt, FromRecord, SelectsIncrease, SameAddress, IsAssignment, Pow2, SlackAt, SortedSlack;
    var s, d := SelectorsAt(t, v, i), LexDifferencesAt(t, v, beyond, i);
    SlackCell(t, v, sorted, i);
    SelectorCells(t, v, sorted, i);
    DifferencesToSelected(t, v, sorted, beyond, i);
    SelectorsTell(sorted[i], sorted[i + 1], s, d, SlackAt(RowsOf(sorted), i), Selected(RowsOf(sorted), i));
    SameAddressIsSum(t, v, i);
  }

  lemma SlackCell(t: UairTrace, v: nat, sorted: seq<TraceRecord>, i: nat)
    requires IsAssignment(t, v) && SortedPart(t, v, sorted) && i < Pow2(v) - 1 && KeyBefore(sorted[i], sorted[i + 1])
    ensures Selected(RowsOf(sorted), i) < NUM_LEX_LIMBS && SortedSlack(t, v, i) == SlackAt(RowsOf(sorted), i)
  {
    hide StateHolds, Pow2, KeyBefore;
    SelectedIncreases(sorted[i], sorted[i + 1]);
  }

  lemma DifferencesToSelected(t: UairTrace, v: nat, sorted: seq<TraceRecord>, beyond: nat, i: nat)
    requires IsAssignment(t, v) && SortedPart(t, v, sorted) && i < Pow2(v) - 1 && KeyBefore(sorted[i], sorted[i + 1])
    ensures var rows, d := RowsOf(sorted), LexDifferencesAt(t, v, beyond, i);
      Selected(rows, i) < NUM_LEX_LIMBS
      && forall j :: 0 <= j <= Selected(rows, i) ==> d[j] == if j < Selected(rows, i) then 0 else 1 + SlackAt(rows, i)
  {
    hide SortedHolds, Pow2, FromRecord, FirstDiff, KeyBefore, LexDifferencesAt, SlackAt, Fits;
    SelectedIncreases(sorted[i], sorted[i + 1]);
    var k, d, slack := Selected(RowsOf(sorted), i), LexDifferencesAt(t, v, beyond, i), SlackAt(RowsOf(sorted), i);
    forall j | 0 <= j <= k ensures d[j] == if j < k then 0 else 1 + slack {
      DifferencesUpTo(t, v, sorted, beyond, j, i);
    }
  }

  function ValueChange(a: TraceRecord, b: TraceRecord, q: nat): int
    requires Fits(a) && Fits(b) && q < NUM_VALUE_LIMBS
  {
    FromRecord(b).value[q] as int - FromRecord(a).value[q] as int
  }

  lemma ValuesAgree(a: TraceRecord, b: TraceRecord)
    requires Fits(a) && Fits(b)
    ensures a.value == b.value <==> forall q :: 0 <= q < NUM_VALUE_LIMBS ==> ValueChange(a, b, q) == 0
  {
    var x, y := FromRecord(a).value, FromRecord(b).value;
    NumberIsInjective(x, y);
    if forall q :: 0 <= q < NUM_VALUE_LIMBS ==> ValueChange(a, b, q) == 0 {
      forall q | 0 <= q < NUM_VALUE_LIMBS ensures x[q] == y[q] {
        assert ValueChange(a, b, q) == 0;
      }
      assert x == y;
    }
  }

  lemma ValueCells(t: UairTrace, v: nat, sorted: seq<TraceRecord>, beyond: nat, q: nat, i: nat)
    requires IsAssignment(t, v) && SortedPart(t, v, sorted) && i < Pow2(v) - 1 && q < NUM_VALUE_LIMBS
    ensures ValueDifference(t, v, beyond, q, i) == ValueChange(sorted[i], sorted[i + 1], q)
  {
    hide SortedHolds, Pow2, StateCell, DownCell, FromRecord, AllFit, IsAssignment, ValidRow;
    SortedCells(t, v, sorted, beyond, PL_VALUE + q, i);
  }

  lemma S8AtLimb(t: UairTrace, v: nat, sorted: seq<TraceRecord>, beyond: nat, q: nat, i: nat)
    requires IsAssignment(t, v) && SortedPart(t, v, sorted) && i < Pow2(v) - 1 && q < NUM_VALUE_LIMBS
    ensures S8At(t, v, beyond, q, i)
      <==> IntCell(t, v, IntW(v), i) == 0 || ValueChange(sorted[i], sorted[i + 1], q) == 0
  {
    ValueCells(t, v, sorted, beyond, q, i);
    ZeroProduct(IntCell(t, v, IntW(v), i), ValueDifference(t, v, beyond, q, i));
  }

  lemma S8Compares(t: UairTrace, v: nat, sorted: seq<TraceRecord>, beyond: nat, i: nat)
    requires IsAssignment(t, v) && SortedPart(t, v, sorted) && i < Pow2(v) - 1
    requires S8(t, v, beyond, i) && IntCell(t, v, IntW(v), i) != 0
    ensures sorted[i].value == sorted[i + 1].value
  {
    var a, b := sorted[i], sorted[i + 1];
    forall q | 0 <= q < NUM_VALUE_LIMBS ensures ValueChange(a, b, q) == 0 {
      S8AtLimb(t, v, sorted, beyond, q, i);
    }
    ValuesAgree(a, b);
  }

  lemma S8Holds(t: UairTrace, v: nat, sorted: seq<TraceRecord>, beyond: nat, i: nat)
    requires IsAssignment(t, v) && SortedPart(t, v, sorted) && i < Pow2(v) - 1
    requires IntCell(t, v, IntW(v), i) == 0 || sorted[i].value == sorted[i + 1].value
    ensures S8(t, v, beyond, i)
  {
    forall q | 0 <= q < NUM_VALUE_LIMBS ensures S8At(t, v, beyond, q, i) {
      S8AtLimb(t, v, sorted, beyond, q, i);
      ValuesAgree(sorted[i], sorted[i + 1]);
    }
  }

  /** S8 compares the values whenever w is not zero. */
  lemma S8Meaning(t: UairTrace, v: nat, sorted: seq<TraceRecord>, beyond: nat, i: nat)
    requires IsAssignment(t, v) && SortedPart(t, v, sorted) && i < Pow2(v) - 1
    ensures S8(t, v, beyond, i) <==> IntCell(t, v, IntW(v), i) == 0 || sorted[i].value == sorted[i + 1].value
  {
    if S8(t, v, beyond, i) && IntCell(t, v, IntW(v), i) != 0 {
      S8Compares(t, v, sorted, beyond, i);
    } else if IntCell(t, v, IntW(v), i) == 0 || sorted[i].value == sorted[i + 1].value {
      S8Holds(t, v, sorted, beyond, i);
    }
  }

  lemma HelperCell(t: UairTrace, v: nat, sorted: seq<TraceRecord>, i: nat)
    requires IsAssignment(t, v) && SortedPart(t, v, sorted) && i < Pow2(v) - 1 && KeyBefore(sorted[i], sorted[i + 1])
    ensures IntCell(t, v, IntW(v), i)
      == if sorted[i].address == sorted[i + 1].address && sorted[i + 1].instruction.Read? then -1 else 0
  {
    hide StateHolds, Pow2, KeyBefore, FirstDiff, FromRecord, Fits;
    SelectedIncreases(sorted[i], sorted[i + 1]);
  }

  lemma NextInstr(t: UairTrace, v: nat, sorted: seq<TraceRecord>, beyond: nat, i: nat)
    requires IsAssignment(t, v) && SortedPart(t, v, sorted) && i < Pow2(v) - 1
    ensures NextInstrMinusOne(t, v, beyond, i) == if sorted[i + 1].instruction.Read? then -1 else 0
  {
    SortedCells(t, v, sorted, beyond, PL_INSTR, i);
  }

  /** S2 and S7 hold, and S8 and S9 say that the next record is consistent with this one. */
  lemma ReadConstraintsMeaning(t: UairTrace, v: nat, sorted: seq<TraceRecord>, beyond: nat, i: nat)
    requires IsAssignment(t, v) && SortedPart(t, v, sorted) && i < Pow2(v) - 1 && KeyBefore(sorted[i], sorted[i + 1])
    ensures S2(t, v, beyond, i) && S7(t, v, beyond, i)
    ensures S8(t, v, beyond, i) && S9(t, v, beyond, i) <==> LocallyConsistentAt(sorted, i + 1)
  {
    hide SortedHolds, Pow2, KeyBefore, SameAddress, IntCell, S8, DownCell, FromRecord, PublicIntColumns, IsAssignment;
    SelectorsHold(t, v, sorted, beyond, i);
    NextInstr(t, v, sorted, beyond, i);
    HelperCell(t, v, sorted, i);
    S8Meaning(t, v, sorted, beyond, i);
  }

  lemma SortedRowMeaning(t: UairTrace, v: nat, sorted: seq<TraceRecord>, beyond: nat, i: nat)
    requires IsAssignment(t, v) && SortedPart(t, v, sorted) && i < Pow2(v) - 1 && KeyBefore(sorted[i], sorted[i + 1])
    ensures SortedRow(t, v, beyond, i)
      <==> (i == 0 ==> LocallyConsistentAt(sorted, 0)) && LocallyConsistentAt(sorted, i + 1)
  {
    hide SortedHolds, Pow2, KeyBefore, S3toS6, S7, S8, S9, S2, StateCell;
    PublicColumns(t, v, i);
    SelectorsHold(t, v, sorted, beyond, i);
    ReadConstraintsMeaning(t, v, sorted, beyond, i);
    SortedCells(t, v, sorted, beyond, PL_INSTR, i);
  }

  // ---------------------------------------------------------------------------------
  // The original rows

  predicate OriginalPart(t: UairTrace, v: nat, original: seq<TraceRecord>)
    requires IsAssignment(t, v)
  {
    AllFit(original) && |original| == Pow2(v) && OriginalHolds(t, v, original)
  }

  predicate OriginalHolds(t: UairTrace, v: nat, original: seq<TraceRecord>)
    requires IsAssignment(t, v) && AllFit(original) && |original| == Pow2(v)
  {
    && StateHolds(t, v, OriginalState(v), RowsOf(original))
    && t.ints[IntTimeHiSel(v)] == TimeSelectorColumn(RowsOf(original), true)
    && t.ints[IntTimeLoSel(v)] == TimeSelectorColumn(RowsOf(original), false)
    && t.binaryPoly[SlackOriginal(v)] == TimeSlackColumn(RowsOf(original))
  }

  lemma TimeCell(t: UairTrace, v: nat, original: seq<TraceRecord>, limb: nat, i: nat)
    requires IsAssignment(t, v) && OriginalPart(t, v, original) && limb < NUM_TIME_LIMBS && i < Pow2(v)
    ensures StateCell(t, v, OriginalState(v), PL_TIME + limb, i) == FromRecord(original[i]).time[limb]
  {
    hide Pow2, FromRecord, Feed;
    assert RowsOf(original)[i] == FromRecord(original[i]);
    assert StateColumn(t, v, OriginalState(v), PL_TIME + limb) == PayloadColumn(RowsOf(original), PL_TIME + limb);
  }

  function TimeChange(a: TraceRecord, b: TraceRecord, limb: nat): int
    requires Fits(a) && Fits(b) && limb < NUM_TIME_LIMBS
  {
    FromRecord(b).time[limb] as int - FromRecord(a).time[limb] as int
  }

  lemma TimeCells(t: UairTrace, v: nat, original: seq<TraceRecord>, beyond: nat, limb: nat, i: nat)
    requires IsAssignment(t, v) && OriginalPart(t, v, original) && limb < NUM_TIME_LIMBS && i < Pow2(v) - 1
    ensures TimeDifference(t, v, beyond, limb, i) == TimeChange(original[i], original[i + 1], limb)
  {
    hide OriginalHolds, Pow2, FromRecord, StateCell;
    TimeCell(t, v, original, limb, i);
    TimeCell(t, v, original, limb, i + 1);
  }

  /** The limb of the time that changes first grows. */
  lemma TimeGrows(a: TraceRecord, b: TraceRecord)
    requires Fits(a) && Fits(b) && a.timeLog < b.timeLog
    ensures if TimeChange(a, b, 0) != 0 then TimeChange(a, b, 0) > 0 else TimeChange(a, b, 1) > 0
  {
    TwoLimbs(FromRecord(a).time);
    TwoLimbs(FromRecord(b).time);
  }

  lemma TimeSelectorCells(t: UairTrace, v: nat, original: seq<TraceRecord>, i: nat)
    requires IsAssignment(t, v) && OriginalPart(t, v, original)
    requires i < Pow2(v) - 1 && original[i].timeLog < original[i + 1].timeLog
    ensures var high := TimeChange(original[i], original[i + 1], 0) != 0;
      && IntCell(t, v, IntTimeHiSel(v), i) == Bit(high) && IntCell(t, v, IntTimeLoSel(v), i) == Bit(!high)
      && OriginalSlack(t, v, i) == TimeChange(original[i], original[i + 1], if high then 0 else 1) - 1
  {
    hide StateHolds, Pow2, FromRecord;
    TimeGrows(original[i], original[i + 1]);
  }

  lemma FirstRowMask(first: int, hi: nat, lo: nat)
    requires first == 0 || first == 1
    ensures first * hi == 0 && first * lo == 0 <==> (first == 1 ==> hi * LIMB + lo == 0)
  {
  }

  /** O1 and O2 pin both limbs, that is the time, of the first row to zero. */
  lemma StartMeaning(t: UairTrace, v: nat, original: seq<TraceRecord>, i: nat)
    requires IsAssignment(t, v) && OriginalPart(t, v, original) && i < Pow2(v)
    ensures O1O2(t, v, i) <==> (i == 0 ==> original[0].timeLog == 0)
  {
    hide OriginalHolds, Pow2, StateCell, IntCell, PublicIntColumns, FromRecord, Number, Fits;
    PublicColumns(t, v, i);
    TimeCell(t, v, original, 0, i);
    TimeCell(t, v, original, 1, i);
    TwoLimbs(FromRecord(original[i]).time);
    FirstRowMask(Bit(i == 0), FromRecord(original[i]).time[0], FromRecord(original[i]).time[1]);
  }

  lemma OriginalRowMeaning(t: UairTrace, v: nat, original: seq<TraceRecord>, beyond: nat, i: nat)
    requires IsAssignment(t, v) && OriginalPart(t, v, original)
    requires i < Pow2(v) - 1 && original[i].timeLog < original[i + 1].timeLog
    ensures O3toO6(t, v, beyond, i)
  {
    hide OriginalHolds, Pow2, StateCell, TimeDifference, OriginalSlack, IntCell, FromRecord;
    TimeCells(t, v, original, beyond, 0, i);
    TimeCells(t, v, original, beyond, 1, i);
    TimeSelectorCells(t, v, original, i);
  }

  // ---------------------------------------------------------------------------------
  // The relation on a built witness

  /** The witness columns of the two orders, linked by a network that delivers the original rows. */
  predicate IsWitness(t: UairTrace, v: nat, sorted: seq<TraceRecord>, original: seq<TraceRecord>, layers: seq<seq<bool>>) {
    && IsAssignment(t, v) && SortedPart(t, v, sorted) && OriginalPart(t, v, original)
    && NetworkPart(t, v, RowsOf(sorted), layers)
  }

  /** What row i of a built witness says: its successor is consistent, and row 0 also starts the trace. */
  predicate RowIsConsistent(sorted: seq<TraceRecord>, original: seq<TraceRecord>, i: nat)
    requires |sorted| == |original| && i + 1 < |sorted|
  {
    && (i == 0 ==> LocallyConsistentAt(sorted, 0) && original[0].timeLog == 0)
    && LocallyConsistentAt(sorted, i + 1)
  }

  lemma RowMeaning(t: UairTrace, v: nat, sorted: seq<TraceRecord>, original: seq<TraceRecord>, layers: seq<seq<bool>>,
                   beyond: nat, i: nat)
    requires IsWitness(t, v, sorted, original, layers) && SortedByKey(sorted) && TimesIncrease(original)
    requires i < Pow2(v) - 1
    ensures RowHolds(t, v, beyond, i) <==> RowIsConsistent(sorted, original, i)
  {
    hide SortedHolds, OriginalHolds, StatesHold, Pow2, SortedRow, NetworkRow, O1O2, O3toO6, KeyBefore;
    NetworkHolds(t, v, RowsOf(sorted), layers, beyond, i);
    SortedRowMeaning(t, v, sorted, beyond, i);
    StartMeaning(t, v, original, i);
    OriginalRowMeaning(t, v, original, beyond, i);
  }

  lemma RowsAreConsistent(sorted: seq<TraceRecord>, original: seq<TraceRecord>)
    requires |sorted| == |original| >= 2
    ensures (forall i :: 0 <= i < |sorted| - 1 ==> RowIsConsistent(sorted, original, i))
      <==> LocallyConsistent(sorted) && original[0].timeLog == 0
  {
    if forall i :: 0 <= i < |sorted| - 1 ==> RowIsConsistent(sorted, original, i) {
      assert RowIsConsistent(sorted, original, 0);
      forall p | 0 <= p < |sorted| ensures LocallyConsistentAt(sorted, p) {
        if p > 0 {
          assert RowIsConsistent(sorted, original, p - 1);
        }
      }
    }
  }

  /** A built witness satisfies the relation exactly when the sorted trace is consistent and time starts at 0. */
  lemma WitnessMeaning(t: UairTrace, v: nat, sorted: seq<TraceRecord>, original: seq<TraceRecord>,
                       layers: seq<seq<bool>>, beyond: nat)
    requires IsWitness(t, v, sorted, original, layers) && SortedByKey(sorted) && TimesIncrease(original)
    ensures Satisfies(t, v, beyond) <==> LocallyConsistent(sorted) && original[0].timeLog == 0
  {
    hide RowHolds, RowIsConsistent, StatesHold, SortedHolds, OriginalHolds, LocallyConsistent;
    forall i | 0 <= i < Pow2(v) - 1 ensures RowHolds(t, v, beyond, i) <==> RowIsConsistent(sorted, original, i) {
      RowMeaning(t, v, sorted, original, layers, beyond, i);
    }
    RowsAreConsistent(sorted, original);
  }

  // ---------------------------------------------------------------------------------
  // The builder's columns are such a witness

  lemma WitnessStateHolds(rows: seq<RowLimbs>, target: seq<RowLimbs>, v: nat, layers: seq<seq<bool>>, g: nat)
    requires ValidRows(rows) && ValidRows(target) && ValidLayers(layers, v) && |rows| == |target| == Pow2(v)
    requires IsAssignment(Witness(rows, target, v, layers), v) && g < NumStates(v)
    ensures StateHolds(Witness(rows, target, v, layers), v, g, StateAfter(rows, v, layers, g))
  {
    var t := Witness(rows, target, v, layers);
    StatesAreValid(rows, v, layers, g);
    forall p | 0 <= p < PAYLOAD_CELLS
      ensures StateColumn(t, v, g, p) == PayloadColumn(StateAfter(rows, v, layers, g), p)
    {
      NetworkColumn(rows, v, layers, g, p);
    }
  }

  lemma WitnessNetworkPart(rows: seq<RowLimbs>, target: seq<RowLimbs>, v: nat, layers: seq<seq<bool>>)
    requires ValidRows(rows) && ValidRows(target) && ValidLayers(layers, v) && |rows| == |target| == Pow2(v)
    requires IsAssignment(Witness(rows, target, v, layers), v)
    ensures NetworkPart(Witness(rows, target, v, layers), v, rows, layers)
  {
    var t := Witness(rows, target, v, layers);
    WitnessInts(rows, target, v, layers);
    forall g | 0 <= g < NumStates(v) ensures StateHolds(t, v, g, StateAfter(rows, v, layers, g)) {
      WitnessStateHolds(rows, target, v, layers, g);
    }
  }

  lemma WitnessSortedPart(sorted: seq<TraceRecord>, target: seq<RowLimbs>, v: nat, layers: seq<seq<bool>>)
    requires AllFit(sorted) && ValidRows(target) && ValidLayers(layers, v) && |sorted| == |target| == Pow2(v)
    requires IsAssignment(Witness(RowsOf(sorted), target, v, layers), v)
    ensures SortedPart(Witness(RowsOf(sorted), target, v, layers), v, sorted)
  {
    WitnessInts(RowsOf(sorted), target, v, layers);
    WitnessStateHolds(RowsOf(sorted), target, v, layers, 0);
  }

  lemma WitnessOriginalPart(rows: seq<RowLimbs>, original: seq<TraceRecord>, v: nat, layers: seq<seq<bool>>)
    requires ValidRows(rows) && AllFit(original) && ValidLayers(layers, v) && |rows| == |original| == Pow2(v)
    requires IsAssignment(Witness(rows, RowsOf(original), v, layers), v)
    requires StateAfter(rows, v, layers, OriginalState(v)) == RowsOf(original)
    ensures OriginalPart(Witness(rows, RowsOf(original), v, layers), v, original)
  {
    WitnessInts(rows, RowsOf(original), v, layers);
    WitnessStateHolds(rows, RowsOf(original), v, layers, OriginalState(v));
  }

  lemma WitnessIsWitness(sorted: seq<TraceRecord>, original: seq<TraceRecord>, v: nat, layers: seq<seq<bool>>)
    requires AllFit(sorted) && AllFit(original) && ValidLayers(layers, v) && |sorted| == |original| == Pow2(v)
    requires StateAfter(RowsOf(sorted), v, layers, NumLayers(v)) == RowsOf(original)
    ensures IsWitness(Witness(RowsOf(sorted), RowsOf(original), v, layers), v, sorted, original, layers)
  {
    WitnessIsAssignment(RowsOf(sorted), RowsOf(original), v, layers);
    WitnessNetworkPart(RowsOf(sorted), RowsOf(original), v, layers);
    WitnessSortedPart(sorted, RowsOf(original), v, layers);
    WitnessOriginalPart(RowsOf(sorted), original, v, layers);
  }
}
