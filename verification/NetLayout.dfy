/** The column layout of the memory-consistency UAIR on 2^v rows, and its list of shifted columns. */
module NetLayout {
  import opened Powers
  import opened BenesNetwork

  const NUM_ADDR_LIMBS: nat := 8
  const NUM_TIME_LIMBS: nat := 2
  const NUM_STACK_DEPTH_LIMBS: nat := 2
  const NUM_VALUE_LIMBS: nat := 8
  const NUM_LEX_LIMBS: nat := NUM_ADDR_LIMBS + NUM_TIME_LIMBS

  const PL_ADDR: nat := 0
  const PL_TIME: nat := PL_ADDR + NUM_ADDR_LIMBS
  const PL_STACK_DEPTH: nat := PL_TIME + NUM_TIME_LIMBS
  const PL_VALUE: nat := PL_STACK_DEPTH + NUM_STACK_DEPTH_LIMBS
  const PL_INSTR: nat := PL_VALUE + NUM_VALUE_LIMBS
  const PAYLOAD_CELLS: nat := PL_INSTR + 1

  const MIN_NUM_VARS: nat := 3
  const MAX_NUM_VARS: nat := 16

  function NumStates(v: nat): nat
    requires v >= 1
  {
    NumLayers(v) + 1
  }

  /** The network output: the original trace. State 0 is the sorted trace. */
  function OriginalState(v: nat): nat
    requires v >= 1
  {
    NumStates(v) - 1
  }

  function StateCol(state: nat, payload: nat): (col: nat)
  {
    21 * state + payload
  }

  /** The state and the payload cell that a network column belongs to. */
  function StateOf(col: nat): (state: nat)
    ensures 21 * state <= col < 21 * state + 21
  {
    col / 21
  }

  function PayloadOf(col: nat): (payload: nat)
    ensures payload < PAYLOAD_CELLS && col == StateCol(StateOf(col), payload)
  {
    col - 21 * StateOf(col)
  }

  lemma ColumnParts(state: nat, payload: nat)
    requires payload < PAYLOAD_CELLS
    ensures StateOf(StateCol(state, payload)) == state && PayloadOf(StateCol(state, payload)) == payload
  {
  }

  function SlackSorted(v: nat): nat
    requires v >= 1
  {
    StateCol(NumStates(v), 0)
  }

  function SlackOriginal(v: nat): nat
    requires v >= 1
  {
    SlackSorted(v) + 1
  }

  function NumBpCols(v: nat): nat
    requires v >= 1
  {
    SlackSorted(v) + 2
  }

  const INT_IS_FIRST: nat := 0
  const INT_UPPER: nat := 1

  function IntS(v: nat): nat { INT_UPPER + v }
  function IntW(v: nat): nat { IntS(v) + NUM_LEX_LIMBS }
  function IntTimeHiSel(v: nat): nat { IntW(v) + 1 }
  function IntTimeLoSel(v: nat): nat { IntTimeHiSel(v) + 1 }
  function IntSwitch(v: nat): nat { IntTimeLoSel(v) + 1 }
  function NumPublicIntCols(v: nat): nat { 1 + v }

  function NumIntCols(v: nat): nat
    requires v >= 1
  {
    IntSwitch(v) + NumLayers(v)
  }

  function Stride(v: nat, layer: nat): nat
    requires v >= 1 && layer < NumLayers(v)
  {
    Pow2(StrideBit(v, layer))
  }

  // ---------------------------------------------------------------------------------
  // The shift list

  type Shift = (nat, nat)

  /** The shift amounts declared for one payload cell of one state, in ascending order. */
  function Amounts(v: nat, state: nat, payload: nat): (amounts: seq<nat>)
    requires v >= 1 && state < NumStates(v)
  {
    if state == 0 then
      (if payload != PL_STACK_DEPTH && payload != PL_STACK_DEPTH + 1 then [1] else []) + [Stride(v, 0)]
    else if state < OriginalState(v) then
      var a, b := Stride(v, state - 1), Stride(v, state);
      if a < b then [a, b] else [b, a]
    else
      (if payload == PL_TIME || payload == PL_TIME + 1 then [1] else []) + [Stride(v, NumLayers(v) - 1)]
  }

  function WithColumn(col: nat, amounts: seq<nat>): (shifts: seq<Shift>)
    ensures |shifts| == |amounts|
    ensures forall i :: 0 <= i < |shifts| ==> shifts[i] == (col, amounts[i])
  {
    seq(|amounts|, i requires 0 <= i < |amounts| => (col, amounts[i]))
  }

  /** The shifts of the first n payload columns of one state. */
  function StateShifts(v: nat, state: nat, n: nat): seq<Shift>
    requires v >= 1 && state < NumStates(v)
  {
    if n == 0 then [] else StateShifts(v, state, n - 1) + WithColumn(StateCol(state, n - 1), Amounts(v, state, n - 1))
  }

  /** The shift list of the first n states. */
  function ShiftsBelow(v: nat, n: nat): seq<Shift>
    requires v >= 1 && n <= NumStates(v)
  {
    if n == 0 then [] else ShiftsBelow(v, n - 1) + StateShifts(v, n - 1, PAYLOAD_CELLS)
  }

  function Shifts(v: nat): seq<Shift>
    requires v >= 1
  {
    ShiftsBelow(v, NumStates(v))
  }

  method BuildShifts(v: nat) returns (shifts: seq<Shift>)
    requires v >= 1
    ensures shifts == Shifts(v)
  {
    shifts := [];
    for state := 0 to NumStates(v)
      invariant shifts == ShiftsBelow(v, state)
    {
      var ofState := [];
      for payload := 0 to PAYLOAD_CELLS
        invariant ofState == StateShifts(v, state, payload)
      {
        ofState := PushShifts(ofState, StateCol(state, payload), Amounts(v, state, payload));
      }
      shifts := shifts + ofState;
    }
  }

  method PushShifts(before: seq<Shift>, col: nat, amounts: seq<nat>) returns (shifts: seq<Shift>)
    ensures shifts == before + WithColumn(col, amounts)
  {
    shifts := before;
    for a := 0 to |amounts|
      invariant shifts == before + WithColumn(col, amounts)[..a]
    {
      shifts := shifts + [(col, amounts[a])];
    }
    assert WithColumn(col, amounts)[..|amounts|] == WithColumn(col, amounts);
  }

  predicate ShiftBefore(a: Shift, b: Shift) {
    a.0 < b.0 || (a.0 == b.0 && a.1 < b.1)
  }

  predicate StrictlySorted(shifts: seq<Shift>) {
    forall i, j :: 0 <= i < j < |shifts| ==> ShiftBefore(shifts[i], shifts[j])
  }

  /** Neighbouring layers have different strides. */
  lemma StridesDiffer(v: nat, layer: nat)
    requires v >= 1 && 1 <= layer < NumLayers(v)
    ensures Stride(v, layer - 1) != Stride(v, layer)
  {
  }

  lemma AmountsAscend(v: nat, state: nat, payload: nat)
    requires v >= 2 && state < NumStates(v)
    ensures var amounts := Amounts(v, state, payload);
      1 <= |amounts| <= 2 && (|amounts| == 2 ==> amounts[0] < amounts[1])
  {
    Pow2Monotone(1, v - 1);
    if 0 < state < OriginalState(v) {
      StridesDiffer(v, state);
    }
  }

  /** All columns lie in a range. */
  predicate ColumnsWithin(shifts: seq<Shift>, lo: nat, hi: nat) {
    forall i :: 0 <= i < |shifts| ==> lo <= shifts[i].0 < hi
  }

  lemma AppendSorted(a: seq<Shift>, b: seq<Shift>, lo: nat, mid: nat, hi: nat)
    requires StrictlySorted(a) && StrictlySorted(b) && ColumnsWithin(a, lo, mid) && ColumnsWithin(b, mid, hi)
    requires lo <= mid <= hi
    ensures StrictlySorted(a + b) && ColumnsWithin(a + b, lo, hi)
  {
  }

  lemma OneColumnSorted(col: nat, amounts: seq<nat>)
    requires |amounts| == 2 ==> amounts[0] < amounts[1]
    requires |amounts| <= 2
    ensures StrictlySorted(WithColumn(col, amounts)) && ColumnsWithin(WithColumn(col, amounts), col, col + 1)
  {
  }

  lemma NothingIsSorted(lo: nat, hi: nat)
    ensures StrictlySorted([]) && ColumnsWithin([], lo, hi)
  {
  }

  lemma {:induction false} StateShiftsSorted(v: nat, state: nat, n: nat)
    requires v >= 2 && state < NumStates(v)
    ensures StrictlySorted(StateShifts(v, state, n))
    ensures ColumnsWithin(StateShifts(v, state, n), StateCol(state, 0), StateCol(state, n))
  {
    hide Amounts, WithColumn, StrictlySorted, ColumnsWithin, Pow2;
    if n == 0 {
      NothingIsSorted(StateCol(state, 0), StateCol(state, 0));
    } else {
      StateShiftsSorted(v, state, n - 1);
      AmountsAscend(v, state, n - 1);
      var col := StateCol(state, n - 1);
      OneColumnSorted(col, Amounts(v, state, n - 1));
      AppendSorted(StateShifts(v, state, n - 1), WithColumn(col, Amounts(v, state, n - 1)), StateCol(state, 0), col, col + 1);
    }
  }

  lemma {:induction false} ShiftsBelowSorted(v: nat, n: nat)
    requires v >= 2 && n <= NumStates(v)
    ensures StrictlySorted(ShiftsBelow(v, n)) && ColumnsWithin(ShiftsBelow(v, n), 0, StateCol(n, 0))
  {
    hide StateShifts, StrictlySorted, ColumnsWithin;
    if n == 0 {
      NothingIsSorted(0, 0);
    } else {
      ShiftsBelowSorted(v, n - 1);
      StateShiftsSorted(v, n - 1, PAYLOAD_CELLS);
      AppendSorted(ShiftsBelow(v, n - 1), StateShifts(v, n - 1, PAYLOAD_CELLS), 0, StateCol(n - 1, 0), StateCol(n, 0));
    }
  }

  /** The shift list is strictly sorted, as a binary search needs. */
  lemma ShiftsSorted(v: nat)
    requires v >= 2
    ensures StrictlySorted(Shifts(v)) && ColumnsWithin(Shifts(v), 0, SlackSorted(v))
  {
    ShiftsBelowSorted(v, NumStates(v));
  }

  lemma InColumn(col: nat, amounts: seq<nat>, amount: nat)
    requires amount in amounts
    ensures (col, amount) in WithColumn(col, amounts)
  {
    var a :| 0 <= a < |amounts| && amounts[a] == amount;
    assert WithColumn(col, amounts)[a] == (col, amount);
  }

  lemma {:induction false} StateShiftDeclared(v: nat, state: nat, n: nat, payload: nat, amount: nat)
    requires v >= 1 && state < NumStates(v) && payload < n && amount in Amounts(v, state, payload)
    ensures (StateCol(state, payload), amount) in StateShifts(v, state, n)
  {
    if payload == n - 1 {
      InColumn(StateCol(state, payload), Amounts(v, state, payload), amount);
    } else {
      StateShiftDeclared(v, state, n - 1, payload, amount);
    }
  }

  lemma {:induction false} ShiftDeclared(v: nat, n: nat, state: nat, payload: nat, amount: nat)
    requires v >= 1 && state < n <= NumStates(v) && payload < PAYLOAD_CELLS && amount in Amounts(v, state, payload)
    ensures (StateCol(state, payload), amount) in ShiftsBelow(v, n)
  {
    hide StateShifts, LookedUp, Amounts;
    if state == n - 1 {
      StateShiftDeclared(v, state, PAYLOAD_CELLS, payload, amount);
    } else {
      ShiftDeclared(v, n - 1, state, payload, amount);
    }
  }

  /** The shifted columns that some constraint reads. */
  predicate LookedUp(v: nat, state: nat, payload: nat, amount: nat)
    requires v >= 1 && state < NumStates(v)
  {
    || (state < NumLayers(v) && amount == Stride(v, state))
    || (state >= 1 && amount == Stride(v, state - 1))
    || (state == 0 && amount == 1 && (payload < NUM_LEX_LIMBS || PL_VALUE <= payload <= PL_INSTR))
    || (state == OriginalState(v) && amount == 1 && PL_TIME <= payload <= PL_TIME + 1)
  }

  /** Every shifted column that a constraint reads is declared. */
  lemma LookupsDeclared(v: nat, state: nat, payload: nat, amount: nat)
    requires v >= 1 && state < NumStates(v) && payload < PAYLOAD_CELLS && LookedUp(v, state, payload, amount)
    ensures (StateCol(state, payload), amount) in Shifts(v)
  {
    ShiftDeclared(v, NumStates(v), state, payload, amount);
  }

  /** The shift is of a payload column, by an amount at which a constraint reads it. */
  predicate IsRead(v: nat, shift: Shift)
    requires v >= 1
  {
    StateOf(shift.0) < NumStates(v) && LookedUp(v, StateOf(shift.0), PayloadOf(shift.0), shift.1)
  }

  predicate AllRead(v: nat, shifts: seq<Shift>)
    requires v >= 1
  {
    forall i :: 0 <= i < |shifts| ==> IsRead(v, shifts[i])
  }

  lemma AppendRead(v: nat, a: seq<Shift>, b: seq<Shift>)
    requires v >= 1 && AllRead(v, a) && AllRead(v, b)
    ensures AllRead(v, a + b)
  {
    hide IsRead;
  }

  lemma NothingRead(v: nat)
    requires v >= 1
    ensures AllRead(v, [])
  {
  }

  lemma ColumnIsRead(v: nat, state: nat, payload: nat)
    requires v >= 2 && state < NumStates(v) && payload < PAYLOAD_CELLS
    ensures AllRead(v, WithColumn(StateCol(state, payload), Amounts(v, state, payload)))
  {
    ColumnParts(state, payload);
  }

  lemma {:induction false} StateShiftsRead(v: nat, state: nat, n: nat)
    requires v >= 2 && state < NumStates(v) && n <= PAYLOAD_CELLS
    ensures AllRead(v, StateShifts(v, state, n))
  {
    hide Amounts, WithColumn, AllRead;
    if n > 0 {
      StateShiftsRead(v, state, n - 1);
      ColumnIsRead(v, state, n - 1);
      AppendRead(v, StateShifts(v, state, n - 1), WithColumn(StateCol(state, n - 1), Amounts(v, state, n - 1)));
    } else {
      NothingRead(v);
    }
  }

  lemma {:induction false} ShiftsBelowRead(v: nat, n: nat)
    requires v >= 2 && n <= NumStates(v)
    ensures AllRead(v, ShiftsBelow(v, n))
  {
    hide StateShifts, AllRead;
    if n > 0 {
      ShiftsBelowRead(v, n - 1);
      StateShiftsRead(v, n - 1, PAYLOAD_CELLS);
      AppendRead(v, ShiftsBelow(v, n - 1), StateShifts(v, n - 1, PAYLOAD_CELLS));
    } else {
      NothingRead(v);
    }
  }

  /** A pair is declared exactly when it is a payload column and an amount that some constraint reads. */
  lemma DeclaredIsRead(v: nat, col: nat, amount: nat)
    requires v >= 2
    ensures (col, amount) in Shifts(v) <==> IsRead(v, (col, amount))
  {
    hide LookedUp;
    ShiftsBelowRead(v, NumStates(v));
    if (col, amount) in Shifts(v) {
      var i :| 0 <= i < |Shifts(v)| && Shifts(v)[i] == (col, amount);
    } else if IsRead(v, (col, amount)) {
      LookupsDeclared(v, StateOf(col), PayloadOf(col), amount);
    }
  }

  /** Where the columns lie. */
  lemma ColumnPlaces(v: nat)
    requires v >= 1
    ensures SlackSorted(v) == 42 * v && SlackOriginal(v) == 42 * v + 1 && NumBpCols(v) == 42 * v + 2
    ensures INT_IS_FIRST == 0 && INT_UPPER == 1 && NumPublicIntCols(v) == v + 1
    ensures IntS(v) == v + 1 && IntW(v) == v + 11 && IntTimeHiSel(v) == v + 12 && IntTimeLoSel(v) == v + 13
    ensures IntSwitch(v) == v + 14 && NumIntCols(v) == 3 * v + 13
  {
  }

  /** Finds a declared shift by binary search. */
  method DownIdx(shifts: seq<Shift>, col: nat, amount: nat) returns (k: nat)
    requires StrictlySorted(shifts) && (col, amount) in shifts
    ensures k < |shifts| && shifts[k] == (col, amount)
    ensures forall i :: 0 <= i < |shifts| && shifts[i] == (col, amount) ==> i == k
  {
    var lo, hi := 0, |shifts|;
    while true
      invariant 0 <= lo <= hi <= |shifts|
      invariant forall i :: 0 <= i < |shifts| && shifts[i] == (col, amount) ==> lo <= i < hi
      decreases hi - lo
    {
      var mid := (lo + hi) / 2;
      assert lo < hi;
      if shifts[mid] == (col, amount) {
        return mid;
      } else if ShiftBefore(shifts[mid], (col, amount)) {
        lo := mid + 1;
      } else {
        hi := mid;
      }
    }
  }
}
