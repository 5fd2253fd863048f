/**
 The memory-consistency UAIR: the column matrix, the constraints of one row, and the relation
 they define. A binary-polynomial cell is its value at X = 2, an integer below 2^32; a constraint
 is an integer equation. The last row is exempt.
 */
module Uair {
  import opened Powers
  import opened Limbs
  import opened Records
  import opened BenesNetwork
  import opened NetLayout
  import opened Rows
  import opened Selectors

  datatype UairTrace = UairTrace(binaryPoly: seq<seq<nat>>, ints: seq<seq<int>>)

  function Bit(b: bool): int {
    if b then 1 else 0
  }

  /** The public columns, as the verifier rebuilds them: is_first, then upper_k for each bit k. */
  function PublicIntColumns(v: nat): (columns: seq<seq<int>>)
    ensures |columns| == NumPublicIntCols(v)
  {
    [seq(Pow2(v), i => Bit(i == 0))]
    + seq(v, k requires 0 <= k < v => seq(Pow2(v), i requires 0 <= i < Pow2(v) => Bit(BitClear(i, k))))
  }

  /** A column assignment on 2^v rows whose public columns are the fixed ones. */
  predicate IsAssignment(t: UairTrace, v: nat) {
    && v >= 1
    && |t.binaryPoly| == NumBpCols(v)
    && (forall c :: 0 <= c < NumBpCols(v) ==> |t.binaryPoly[c]| == Pow2(v) && AllLimbs(t.binaryPoly[c]))
    && |t.ints| == NumIntCols(v)
    && (forall c :: 0 <= c < NumIntCols(v) ==> |t.ints[c]| == Pow2(v))
    && t.ints[..NumPublicIntCols(v)] == PublicIntColumns(v)
  }

  /** The cell `amount` rows down; past the last row it is `beyond`, whatever the protocol puts there. */
  function Down(t: UairTrace, v: nat, beyond: nat, col: nat, amount: nat, i: nat): nat
    requires IsAssignment(t, v) && col < NumBpCols(v) && i < Pow2(v)
  {
    if i + amount < Pow2(v) then t.binaryPoly[col][i + amount] else beyond
  }

  /** The column of one payload cell of one network state. */
  function StateColumn(t: UairTrace, v: nat, state: nat, payload: nat): (column: seq<nat>)
    requires IsAssignment(t, v) && state < NumStates(v) && payload < PAYLOAD_CELLS
    ensures |column| == Pow2(v)
  {
    t.binaryPoly[StateCol(state, payload)]
  }

  function StateCell(t: UairTrace, v: nat, state: nat, payload: nat, i: nat): (cell: nat)
    requires IsAssignment(t, v) && state < NumStates(v) && payload < PAYLOAD_CELLS && i < Pow2(v)
    ensures cell < LIMB && cell == StateColumn(t, v, state, payload)[i]
  {
    StateColumn(t, v, state, payload)[i]
  }

  function DownCell(t: UairTrace, v: nat, beyond: nat, state: nat, payload: nat, amount: nat, i: nat): (cell: nat)
    requires IsAssignment(t, v) && state < NumStates(v) && payload < PAYLOAD_CELLS && i < Pow2(v)
    ensures i + amount < Pow2(v) ==> cell == StateCell(t, v, state, payload, i + amount)
  {
    Down(t, v, beyond, StateCol(state, payload), amount, i)
  }

  function SortedSlack(t: UairTrace, v: nat, i: nat): nat
    requires IsAssignment(t, v) && i < Pow2(v)
  {
    t.binaryPoly[SlackSorted(v)][i]
  }

  function OriginalSlack(t: UairTrace, v: nat, i: nat): nat
    requires IsAssignment(t, v) && i < Pow2(v)
  {
    t.binaryPoly[SlackOriginal(v)][i]
  }

  function IntCell(t: UairTrace, v: nat, col: nat, i: nat): int
    requires IsAssignment(t, v) && col < NumIntCols(v) && i < Pow2(v)
  {
    t.ints[col][i]
  }

  // ---------------------------------------------------------------------------------
  // The constraints of row i

  function SelectorsAt(t: UairTrace, v: nat, i: nat): (s: seq<int>)
    requires IsAssignment(t, v) && i < Pow2(v)
    ensures |s| == NUM_LEX_LIMBS
    ensures forall j :: 0 <= j < NUM_LEX_LIMBS ==> s[j] == IntCell(t, v, IntS(v) + j, i)
  {
    seq(NUM_LEX_LIMBS, j requires 0 <= j < NUM_LEX_LIMBS => IntCell(t, v, IntS(v) + j, i))
  }

  /** The change of lexicographic limb j of the sorted trace. */
  function LexDifferenceAt(t: UairTrace, v: nat, beyond: nat, j: nat, i: nat): int
    requires IsAssignment(t, v) && i < Pow2(v) && j < NUM_LEX_LIMBS
  {
    DownCell(t, v, beyond, 0, PL_ADDR + j, 1, i) - StateCell(t, v, 0, PL_ADDR + j, i)
  }

  function LexDifferencesAt(t: UairTrace, v: nat, beyond: nat, i: nat): (d: seq<int>)
    requires IsAssignment(t, v) && i < Pow2(v)
    ensures |d| == NUM_LEX_LIMBS
    ensures forall j :: 0 <= j < NUM_LEX_LIMBS ==> d[j] == LexDifferenceAt(t, v, beyond, j, i)
  {
    seq(NUM_LEX_LIMBS, j requires 0 <= j < NUM_LEX_LIMBS => LexDifferenceAt(t, v, beyond, j, i))
  }

  function SameAddress(t: UairTrace, v: nat, i: nat): int
    requires IsAssignment(t, v) && i < Pow2(v)
  {
    IntCell(t, v, IntS(v) + NUM_ADDR_LIMBS, i) + IntCell(t, v, IntS(v) + NUM_ADDR_LIMBS + 1, i)
  }

  lemma SameAddressIsSum(t: UairTrace, v: nat, i: nat)
    requires IsAssignment(t, v) && i < Pow2(v)
    ensures SameAddress(t, v, i) == SelectorsAt(t, v, i)[NUM_ADDR_LIMBS] + SelectorsAt(t, v, i)[NUM_ADDR_LIMBS + 1]
  {
  }

  function NextInstrMinusOne(t: UairTrace, v: nat, beyond: nat, i: nat): int
    requires IsAssignment(t, v) && i < Pow2(v)
  {
    DownCell(t, v, beyond, 0, PL_INSTR, 1, i) - 1
  }

  predicate S1(t: UairTrace, v: nat, i: nat)
    requires IsAssignment(t, v) && i < Pow2(v)
  {
    var instr: int := StateCell(t, v, 0, PL_INSTR, i);
    IntCell(t, v, INT_IS_FIRST, i) * (instr - 1) == 0
  }

  predicate S2(t: UairTrace, v: nat, beyond: nat, i: nat)
    requires IsAssignment(t, v) && i < Pow2(v)
  {
    Boolean(DownCell(t, v, beyond, 0, PL_INSTR, 1, i))
  }

  predicate S3toS6(t: UairTrace, v: nat, beyond: nat, i: nat)
    requires IsAssignment(t, v) && i < Pow2(v)
  {
    SelectsIncrease(SelectorsAt(t, v, i), LexDifferencesAt(t, v, beyond, i), SortedSlack(t, v, i))
  }

  predicate S7(t: UairTrace, v: nat, beyond: nat, i: nat)
    requires IsAssignment(t, v) && i < Pow2(v)
  {
    IntCell(t, v, IntW(v), i) - SameAddress(t, v, i) * NextInstrMinusOne(t, v, beyond, i) == 0
  }

  /** The change of value limb q of the sorted trace. */
  function ValueDifference(t: UairTrace, v: nat, beyond: nat, q: nat, i: nat): int
    requires IsAssignment(t, v) && i < Pow2(v) && q < NUM_VALUE_LIMBS
  {
    DownCell(t, v, beyond, 0, PL_VALUE + q, 1, i) - StateCell(t, v, 0, PL_VALUE + q, i)
  }

  predicate S8At(t: UairTrace, v: nat, beyond: nat, q: nat, i: nat)
    requires IsAssignment(t, v) && i < Pow2(v) && q < NUM_VALUE_LIMBS
  {
    IntCell(t, v, IntW(v), i) * ValueDifference(t, v, beyond, q, i) == 0
  }

  predicate S8(t: UairTrace, v: nat, beyond: nat, i: nat)
    requires IsAssignment(t, v) && i < Pow2(v)
  {
    forall q :: 0 <= q < NUM_VALUE_LIMBS ==> S8At(t, v, beyond, q, i)
  }

  predicate S9(t: UairTrace, v: nat, beyond: nat, i: nat)
    requires IsAssignment(t, v) && i < Pow2(v)
  {
    (1 - SameAddress(t, v, i)) * NextInstrMinusOne(t, v, beyond, i) == 0
  }

  predicate SortedRow(t: UairTrace, v: nat, beyond: nat, i: nat)
    requires IsAssignment(t, v) && i < Pow2(v)
  {
    && S1(t, v, i) && S2(t, v, beyond, i) && S3toS6(t, v, beyond, i)
    && S7(t, v, beyond, i) && S8(t, v, beyond, i) && S9(t, v, beyond, i)
  }

  /** The change of time limb `limb` (0 high, 1 low) of the original trace. */
  function TimeDifference(t: UairTrace, v: nat, beyond: nat, limb: nat, i: nat): int
    requires IsAssignment(t, v) && i < Pow2(v) && limb < NUM_TIME_LIMBS
  {
    DownCell(t, v, beyond, OriginalState(v), PL_TIME + limb, 1, i) - StateCell(t, v, OriginalState(v), PL_TIME + limb, i)
  }

  predicate O1O2(t: UairTrace, v: nat, i: nat)
    requires IsAssignment(t, v) && i < Pow2(v)
  {
    && IntCell(t, v, INT_IS_FIRST, i) * StateCell(t, v, OriginalState(v), PL_TIME, i) == 0
    && IntCell(t, v, INT_IS_FIRST, i) * StateCell(t, v, OriginalState(v), PL_TIME + 1, i) == 0
  }

  /** One of two limbs is selected, the high one unless it stays, and it grows by slack + 1. */
  predicate TimeEquations(hiSel: int, loSel: int, dHi: int, dLo: int, slack: int) {
    && Boolean(hiSel) && Boolean(loSel) && hiSel + loSel - 1 == 0
    && (1 - hiSel) * dHi == 0
    && hiSel * dHi + loSel * dLo - 1 - slack == 0
  }

  predicate O3toO6(t: UairTrace, v: nat, beyond: nat, i: nat)
    requires IsAssignment(t, v) && i < Pow2(v)
  {
    TimeEquations(IntCell(t, v, IntTimeHiSel(v), i), IntCell(t, v, IntTimeLoSel(v), i),
                  TimeDifference(t, v, beyond, 0, i), TimeDifference(t, v, beyond, 1, i), OriginalSlack(t, v, i))
  }

  function Mask(t: UairTrace, v: nat, layer: nat, i: nat): int
    requires IsAssignment(t, v) && i < Pow2(v) && layer < NumLayers(v)
  {
    IntCell(t, v, INT_UPPER + StrideBit(v, layer), i)
  }

  function Switch(t: UairTrace, v: nat, layer: nat, i: nat): int
    requires IsAssignment(t, v) && i < Pow2(v) && layer < NumLayers(v)
  {
    IntCell(t, v, IntSwitch(v) + layer, i)
  }

  predicate N1(t: UairTrace, v: nat, layer: nat, i: nat)
    requires IsAssignment(t, v) && i < Pow2(v) && layer < NumLayers(v)
  {
    Mask(t, v, layer, i) * (Switch(t, v, layer, i) * (Switch(t, v, layer, i) - 1)) == 0
  }

  /** The masked conditional swap of one cell. */
  predicate SwapEquations(mask: int, s: int, in1: int, in2: int, out1: int, out2: int) {
    && mask * (out1 - in1 - s * (in2 - in1)) == 0
    && mask * (out2 - in2 + s * (in2 - in1)) == 0
  }

  predicate N2N3(t: UairTrace, v: nat, beyond: nat, layer: nat, payload: nat, i: nat)
    requires IsAssignment(t, v) && i < Pow2(v) && layer < NumLayers(v) && payload < PAYLOAD_CELLS
  {
    var stride := Stride(v, layer);
    SwapEquations(Mask(t, v, layer, i), Switch(t, v, layer, i),
                  StateCell(t, v, layer, payload, i), DownCell(t, v, beyond, layer, payload, stride, i),
                  StateCell(t, v, layer + 1, payload, i), DownCell(t, v, beyond, layer + 1, payload, stride, i))
  }

  predicate LayerRow(t: UairTrace, v: nat, beyond: nat, layer: nat, i: nat)
    requires IsAssignment(t, v) && i < Pow2(v) && layer < NumLayers(v)
  {
    && N1(t, v, layer, i)
    && forall payload :: 0 <= payload < PAYLOAD_CELLS ==> N2N3(t, v, beyond, layer, payload, i)
  }

  predicate NetworkRow(t: UairTrace, v: nat, beyond: nat, i: nat)
    requires IsAssignment(t, v) && i < Pow2(v)
  {
    forall layer :: 0 <= layer < NumLayers(v) ==> LayerRow(t, v, beyond, layer, i)
  }

  predicate RowHolds(t: UairTrace, v: nat, beyond: nat, i: nat)
    requires IsAssignment(t, v) && i < Pow2(v)
  {
    && SortedRow(t, v, beyond, i)
    && O1O2(t, v, i) && O3toO6(t, v, beyond, i)
    && NetworkRow(t, v, beyond, i)
  }

  /** The relation: every row but the last satisfies every constraint. */
  predicate Satisfies(t: UairTrace, v: nat, beyond: nat)
    requires IsAssignment(t, v)
  {
    forall i :: 0 <= i < Pow2(v) - 1 ==> RowHolds(t, v, beyond, i)
  }

  // ---------------------------------------------------------------------------------
  // Network states as traces

  function StateCells(t: UairTrace, v: nat, state: nat, i: nat): (cells: seq<nat>)
    requires IsAssignment(t, v) && state < NumStates(v) && i < Pow2(v)
    ensures |cells| == PAYLOAD_CELLS
  {
    seq(PAYLOAD_CELLS, p requires 0 <= p < PAYLOAD_CELLS => StateCell(t, v, state, p, i))
  }

  /** All rows of one network state. */
  function StateRows(t: UairTrace, v: nat, state: nat): (rows: seq<seq<nat>>)
    requires IsAssignment(t, v) && state < NumStates(v)
    ensures |rows| == Pow2(v)
  {
    seq(Pow2(v), i requires 0 <= i < Pow2(v) => StateCells(t, v, state, i))
  }

  /** One network state read as a trace of records. */
  function TraceOf(t: UairTrace, v: nat, state: nat): (trace: seq<TraceRecord>)
    requires IsAssignment(t, v) && state < NumStates(v)
    ensures |trace| == Pow2(v)
  {
    seq(Pow2(v), i requires 0 <= i < Pow2(v) => Decoded(RowOf(StateCells(t, v, state, i))))
  }

  lemma PublicColumns(t: UairTrace, v: nat, i: nat)
    requires IsAssignment(t, v) && i < Pow2(v)
    ensures IntCell(t, v, INT_IS_FIRST, i) == Bit(i == 0)
    ensures forall k :: 0 <= k < v ==> IntCell(t, v, INT_UPPER + k, i) == Bit(BitClear(i, k))
  {
    hide BitClear, Pow2, NumBpCols;
    assert t.ints[..NumPublicIntCols(v)][INT_IS_FIRST] == PublicIntColumns(v)[INT_IS_FIRST];
    forall k | 0 <= k < v ensures IntCell(t, v, INT_UPPER + k, i) == Bit(BitClear(i, k)) {
      assert t.ints[..NumPublicIntCols(v)][INT_UPPER + k] == PublicIntColumns(v)[INT_UPPER + k];
    }
  }
}
