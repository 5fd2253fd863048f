/**
 The constraint emission of the UAIR, evaluated at one row over polynomials: a cell of a
 binary-polynomial column is a polynomial with bits for coefficients, an integer cell a constant.
 The row's shifted cells come from the down row, found in the sorted shift list. A constraint
 asserts that a polynomial is zero, or that it lies in the ideal of X - 2; together they say
 exactly what the integer relation says of the cells' values at 2.
 */
module ConstrainGeneral {
  import opened Powers
  import opened Limbs
  import opened BenesNetwork
  import opened NetLayout
  import opened Selectors
  import opened Polynomials
  import opened Uair

  lemma DownFits(t: UairTrace, v: nat, beyond: nat, col: nat, amount: nat, i: nat)
    requires IsAssignment(t, v) && col < NumBpCols(v) && i < Pow2(v) && beyond < LIMB
    ensures Down(t, v, beyond, col, amount, i) < LIMB
  {
  }

  /** The down row's binary-polynomial cells, in shift-list order. */
  function DownRow(t: UairTrace, v: nat, beyond: nat, i: nat, shifts: seq<Shift>): (down: seq<Poly>)
    requires IsAssignment(t, v) && i < Pow2(v) && beyond < LIMB
    requires forall k :: 0 <= k < |shifts| ==> shifts[k].0 < NumBpCols(v)
    ensures |down| == |shifts|
    ensures forall k :: 0 <= k < |down| ==> IsDownCell(t, v, beyond, i, shifts[k], down[k])
  {
    seq(|shifts|, k requires 0 <= k < |shifts| =>
      DownFits(t, v, beyond, shifts[k].0, shifts[k].1, i);
      BitsOf(Down(t, v, beyond, shifts[k].0, shifts[k].1, i)))
  }

  predicate IsDownCell(t: UairTrace, v: nat, beyond: nat, i: nat, shift: Shift, cell: Poly)
    requires IsAssignment(t, v) && i < Pow2(v)
  {
    shift.0 < NumBpCols(v) && IsBinary(cell) && AtTwo(cell) == Down(t, v, beyond, shift.0, shift.1, i)
  }

  predicate IsDownRow(t: UairTrace, v: nat, beyond: nat, i: nat, down: seq<Poly>)
    requires IsAssignment(t, v) && i < Pow2(v)
  {
    && v >= 2
    && |down| == |Shifts(v)|
    && forall k :: 0 <= k < |down| ==> IsDownCell(t, v, beyond, i, Shifts(v)[k], down[k])
  }

  /** The up row's cell of a network state. */
  function UpCell(t: UairTrace, v: nat, state: nat, payload: nat, i: nat): (cell: Poly)
    requires IsAssignment(t, v) && state < NumStates(v) && payload < PAYLOAD_CELLS && i < Pow2(v)
    ensures IsBinary(cell) && AtTwo(cell) == StateCell(t, v, state, payload, i)
  {
    BitsOf(StateCell(t, v, state, payload, i))
  }

  /** The down-row accessor: the cell of the given state column, shifted. */
  method DownBp(t: UairTrace, v: nat, beyond: nat, i: nat, shifts: seq<Shift>, down: seq<Poly>,
                state: nat, payload: nat, amount: nat)
    returns (cell: Poly)
    requires IsAssignment(t, v) && i < Pow2(v) && shifts == Shifts(v) && IsDownRow(t, v, beyond, i, down)
    requires state < NumStates(v) && payload < PAYLOAD_CELLS && LookedUp(v, state, payload, amount)
    ensures IsBinary(cell) && AtTwo(cell) == DownCell(t, v, beyond, state, payload, amount, i)
  {
    hide IsAssignment, IsBinary, AtTwo, Down;
    ShiftsSorted(v);
    LookupsDeclared(v, state, payload, amount);
    var k := DownIdx(shifts, StateCol(state, payload), amount);
    cell := down[k];
    assert IsDownCell(t, v, beyond, i, Shifts(v)[k], down[k]);
  }

  // ---------------------------------------------------------------------------------
  // Assertions about polynomials

  /** A scaled polynomial is asserted to be zero. */
  method AssertScaledZero(c: int, d: Poly) returns (ok: bool)
    requires Decided(d)
    ensures ok <==> c * AtTwo(d) == 0
  {
    ScaledIsDecided(c, d);
    ok := IsZero(Times([c], d));
  }

  method AssertBooleanInt(c: int) returns (ok: bool)
    ensures ok <==> Boolean(c)
  {
    SingleTimes(c, c - 1);
    ConstantIsDecided(c * (c - 1));
    assert Minus([c], ONE) == [c - 1];
    ok := IsZero(Times([c], Minus([c], ONE)));
  }

  method AssertBooleanCell(cell: Poly) returns (ok: bool)
    requires IsBinary(cell)
    ensures ok <==> Boolean(AtTwo(cell))
  {
    hide AtTwo, Times, IsBinary;
    BooleanCell(cell);
    BooleanIsBit(AtTwo(cell));
    ok := IsZero(Times(cell, Minus(cell, ONE)));
  }

  function ValuesOf(d: seq<Poly>): (values: seq<int>)
    ensures |values| == |d| && forall j :: 0 <= j < |d| ==> values[j] == AtTwo(d[j])
  {
    seq(|d|, j requires 0 <= j < |d| => AtTwo(d[j]))
  }

  /** Constraint j of S3 and S5. */
  predicate SelectsAt(s: seq<int>, d: seq<int>, j: nat)
    requires |s| == |d| && j < |s|
  {
    Boolean(s[j]) && (1 - PrefixSum(s, j + 1)) * d[j] == 0
  }

  lemma SelectsEverywhere(s: seq<int>, d: seq<int>, slack: int)
    requires |s| == |d|
    ensures SelectsIncrease(s, d, slack)
      <==> (forall j :: 0 <= j < |s| ==> SelectsAt(s, d, j)) && PrefixSum(s, |s|) - 1 == 0 && SelectedSum(s, d, |s|) - 1 - slack == 0
  {
    hide PrefixSum, SelectedSum, Boolean;
    if SelectsIncrease(s, d, slack) {
      forall j | 0 <= j < |s| ensures SelectsAt(s, d, j) {
      }
    } else if forall j :: 0 <= j < |s| ==> SelectsAt(s, d, j) {
      forall j | 0 <= j < |s| ensures Boolean(s[j]) && (1 - PrefixSum(s, j + 1)) * d[j] == 0 {
        assert SelectsAt(s, d, j);
      }
    }
  }

  /** One more selector: the running sums `prefix` and `increase`, as polynomials. */
  lemma RunningSums(s: seq<int>, d: seq<Poly>, j: nat, prefix: Poly, increase: Poly)
    requires |s| == |d| && j < |s|
    requires prefix == [PrefixSum(s, j)] && AtTwo(increase) == SelectedSum(s, ValuesOf(d), j)
    ensures Plus(prefix, [s[j]]) == [PrefixSum(s, j + 1)]
    ensures Minus(ONE, Plus(prefix, [s[j]])) == [1 - PrefixSum(s, j + 1)]
    ensures AtTwo(Plus(increase, Times([s[j]], d[j]))) == SelectedSum(s, ValuesOf(d), j + 1)
  {
    hide AtTwo, Times;
    PlusAtTwo(increase, Times([s[j]], d[j]));
    TimesAtTwo([s[j]], d[j]);
    ConstantIsDecided(s[j]);
  }

  /** S3 to S6, in one loop over the selectors and the differences. */
  method CheckSelectors(s: seq<int>, d: seq<Poly>, slack: Poly) returns (ok: bool)
    requires |s| == |d| && forall j :: 0 <= j < |d| ==> Decided(d[j])
    ensures ok <==> SelectsIncrease(s, ValuesOf(d), AtTwo(slack))
  {
    hide AtTwo, Times, Decided, SelectsIncrease, Boolean;
    var prefix: Poly, increase: Poly := [0], [];
    NothingAtTwo();
    ok := true;
    for j := 0 to |s|
      invariant prefix == [PrefixSum(s, j)] && AtTwo(increase) == SelectedSum(s, ValuesOf(d), j)
      invariant ok <==> forall q :: 0 <= q < j ==> SelectsAt(s, ValuesOf(d), q)
    {
      RunningSums(s, d, j, prefix, increase);
      var bit := AssertBooleanInt(s[j]);
      prefix := Plus(prefix, [s[j]]);
      var equal := AssertScaledZero(Minus(ONE, prefix)[0], d[j]);
      assert bit && equal <==> SelectsAt(s, ValuesOf(d), j);
      ok := ok && bit && equal;
      increase := Plus(increase, Times([s[j]], d[j]));
    }
    SelectsEverywhere(s, ValuesOf(d), AtTwo(slack));
    var inIdeal := AssertIncrease(increase, slack);
    ok := ok && IsZero(Minus(prefix, ONE)) && inIdeal;
  }

  lemma NothingAtTwo()
    ensures AtTwo([]) == 0
  {
  }

  /** increase - 1 - slack is asserted to lie in the ideal of X - 2. */
  method AssertIncrease(increase: Poly, slack: Poly) returns (ok: bool)
    ensures ok <==> AtTwo(increase) - 1 - AtTwo(slack) == 0
  {
    MinusAtTwo(Minus(increase, ONE), slack);
    MinusAtTwo(increase, ONE);
    ConstantIsDecided(1);
    ok := InIdeal(Minus(Minus(increase, ONE), slack));
  }

  // ---------------------------------------------------------------------------------
  // The sorted trace

  /** S3 to S6, over the selectors and the differences of the lexicographic limbs. */
  method SelectorConstraints(t: UairTrace, v: nat, beyond: nat, i: nat, shifts: seq<Shift>, down: seq<Poly>)
    returns (ok: bool)
    requires IsAssignment(t, v) && i < Pow2(v) && shifts == Shifts(v) && IsDownRow(t, v, beyond, i, down)
    ensures ok <==> S3toS6(t, v, beyond, i)
  {
    hide IsDownRow, DownCell, StateCell, SelectorsAt, LexDifferencesAt, Shifts, SelectsIncrease, IsBinary, AtTwo, Decided, Pow2;
    var differences: seq<Poly> := [];
    for j := 0 to NUM_LEX_LIMBS
      invariant |differences| == j && forall q :: 0 <= q < j ==> Decided(differences[q])
      invariant forall q :: 0 <= q < j ==> AtTwo(differences[q]) == LexDifferenceAt(t, v, beyond, q, i)
    {
      var next := DownBp(t, v, beyond, i, shifts, down, 0, PL_ADDR + j, 1);
      var limb := UpCell(t, v, 0, PL_ADDR + j, i);
      DifferenceIsDecided(next, limb);
      differences := differences + [Minus(next, limb)];
    }
    assert ValuesOf(differences) == LexDifferencesAt(t, v, beyond, i);
    SlackFits(t, v, i);
    ok := CheckSelectors(SelectorsAt(t, v, i), differences, BitsOf(SortedSlack(t, v, i)));
  }

  lemma SlackFits(t: UairTrace, v: nat, i: nat)
    requires IsAssignment(t, v) && i < Pow2(v)
    ensures SortedSlack(t, v, i) < LIMB && OriginalSlack(t, v, i) < LIMB
  {
  }

  /** S8, one value limb after the other. */
  method ValueConstraints(t: UairTrace, v: nat, beyond: nat, i: nat, shifts: seq<Shift>, down: seq<Poly>)
    returns (ok: bool)
    requires IsAssignment(t, v) && i < Pow2(v) && shifts == Shifts(v) && IsDownRow(t, v, beyond, i, down)
    ensures ok <==> S8(t, v, beyond, i)
  {
    hide IsAssignment, IsDownRow, Shifts, Pow2, S8At;
    ok := true;
    for q := 0 to NUM_VALUE_LIMBS
      invariant ok <==> forall j :: 0 <= j < q ==> S8At(t, v, beyond, j, i)
    {
      var holds := ValueConstraint(t, v, beyond, i, shifts, down, q);
      ok := ok && holds;
    }
  }

  method ValueConstraint(t: UairTrace, v: nat, beyond: nat, i: nat, shifts: seq<Shift>, down: seq<Poly>, q: nat)
    returns (ok: bool)
    requires IsAssignment(t, v) && i < Pow2(v) && shifts == Shifts(v) && IsDownRow(t, v, beyond, i, down)
    requires q < NUM_VALUE_LIMBS
    ensures ok <==> S8At(t, v, beyond, q, i)
  {
    hide IsDownRow, Shifts, Pow2, DownCell, StateCell, IsBinary, AtTwo, Decided;
    var valueNext := DownBp(t, v, beyond, i, shifts, down, 0, PL_VALUE + q, 1);
    var value := UpCell(t, v, 0, PL_VALUE + q, i);
    DifferenceIsDecided(valueNext, value);
    ok := AssertScaledZero(IntCell(t, v, IntW(v), i), Minus(valueNext, value));
  }

  /** S7 and S9, which read the next instruction; they are numbers once S2 holds. */
  method HelperConstraints(w: int, aSame: Poly, instrNext: Poly) returns (s7: bool, s9: bool)
    requires |aSame| == 1 && IsBinary(instrNext)
    ensures AtTwo(instrNext) == 0 || AtTwo(instrNext) == 1 ==> (s7 <==> w - aSame[0] * (AtTwo(instrNext) - 1) == 0)
    ensures s9 <==> (1 - aSame[0]) * (AtTwo(instrNext) - 1) == 0
  {
    hide AtTwo, Times, IsBinary, IsZero;
    if AtTwo(instrNext) == 0 || AtTwo(instrNext) == 1 {
      HelperIsDecided(w, aSame[0], instrNext);
    }
    DifferenceIsDecided(instrNext, ONE);
    ConstantIsDecided(1);
    assert aSame == [aSame[0]];
    s7 := IsZero(Minus([w], Times(aSame, Minus(instrNext, ONE))));
    s9 := AssertScaledZero(Minus(ONE, aSame)[0], Minus(instrNext, ONE));
  }

  /** The cell X. */
  const X_CELL: Poly := [0, 1] + seq(BITS - 2, _ => 0)

  lemma XCellIsTwo()
    ensures IsBinary(X_CELL) && AtTwo(X_CELL) == 2
  {
    var zeros: Poly := seq(BITS - 2, _ => 0);
    ZeroAtTwo(zeros);
    assert X_CELL[1..] == [1] + zeros && ([1] + zeros)[1..] == zeros;
  }

  /** S7 alone is more as a polynomial than as a number: the cell X, with value 2, tells them apart. */
  lemma HelperNeedsBoolean()
    ensures IsBinary(X_CELL) && 1 - 1 * (AtTwo(X_CELL) - 1) == 0
    ensures !IsZero(Minus([1], Times([1], Minus(X_CELL, ONE))))
  {
    hide AtTwo, Times;
    XCellIsTwo();
    ScalarShape(1, Minus(X_CELL, ONE));
    assert Minus([1], Times([1], Minus(X_CELL, ONE)))[1] == -1;
  }

  /** S1: the first instruction is a write. */
  method FirstConstraint(t: UairTrace, v: nat, i: nat) returns (ok: bool)
    requires IsAssignment(t, v) && i < Pow2(v)
    ensures ok <==> S1(t, v, i)
  {
    hide AtTwo, IsBinary, Decided, StateCell, Pow2;
    var instr := UpCell(t, v, 0, PL_INSTR, i);
    DifferenceIsDecided(instr, ONE);
    ConstantIsDecided(1);
    ok := AssertScaledZero(IntCell(t, v, INT_IS_FIRST, i), Minus(instr, ONE));
  }

  method SortedConstraints(t: UairTrace, v: nat, beyond: nat, i: nat, shifts: seq<Shift>, down: seq<Poly>)
    returns (ok: bool)
    requires IsAssignment(t, v) && i < Pow2(v) && shifts == Shifts(v) && IsDownRow(t, v, beyond, i, down)
    ensures ok <==> SortedRow(t, v, beyond, i)
  {
    hide IsDownRow, Shifts, Pow2, DownCell, StateCell, S1, S3toS6, S8, IsBinary, AtTwo;
    var s1 := FirstConstraint(t, v, i);
    var instrNext := DownBp(t, v, beyond, i, shifts, down, 0, PL_INSTR, 1);
    var s2 := AssertBooleanCell(instrNext);
    var s36 := SelectorConstraints(t, v, beyond, i, shifts, down);
    var s8 := ValueConstraints(t, v, beyond, i, shifts, down);
    var aSame := Plus([IntCell(t, v, IntS(v) + NUM_ADDR_LIMBS, i)], [IntCell(t, v, IntS(v) + NUM_ADDR_LIMBS + 1, i)]);
    BooleanIsBit(AtTwo(instrNext));
    var s7, s9 := HelperConstraints(IntCell(t, v, IntW(v), i), aSame, instrNext);
    ok := s1 && s2 && s36 && s7 && s8 && s9;
  }

  // ---------------------------------------------------------------------------------
  // The original trace

  method OriginalConstraints(t: UairTrace, v: nat, beyond: nat, i: nat, shifts: seq<Shift>, down: seq<Poly>)
    returns (ok: bool)
    requires IsAssignment(t, v) && i < Pow2(v) && shifts == Shifts(v) && IsDownRow(t, v, beyond, i, down)
    ensures ok <==> O1O2(t, v, i) && O3toO6(t, v, beyond, i)
  {
    hide IsDownRow, Shifts, DownCell, StateCell, Pow2, TimeEquations, IsBinary, AtTwo, Decided;
    var o := OriginalState(v);
    var hi, lo := UpCell(t, v, o, PL_TIME, i), UpCell(t, v, o, PL_TIME + 1, i);
    CellIsDecided(hi);
    CellIsDecided(lo);
    var o1 := AssertScaledZero(IntCell(t, v, INT_IS_FIRST, i), hi);
    var o2 := AssertScaledZero(IntCell(t, v, INT_IS_FIRST, i), lo);
    var hiNext := DownBp(t, v, beyond, i, shifts, down, o, PL_TIME, 1);
    var loNext := DownBp(t, v, beyond, i, shifts, down, o, PL_TIME + 1, 1);
    DifferenceIsDecided(hiNext, hi);
    DifferenceIsDecided(loNext, lo);
    SlackFits(t, v, i);
    var o36 := TimeConstraints(IntCell(t, v, IntTimeHiSel(v), i), IntCell(t, v, IntTimeLoSel(v), i),
                               Minus(hiNext, hi), Minus(loNext, lo), BitsOf(OriginalSlack(t, v, i)));
    ok := o1 && o2 && o36;
  }

  /** O3 to O6. */
  method TimeConstraints(hiSel: int, loSel: int, dHi: Poly, dLo: Poly, slack: Poly) returns (ok: bool)
    requires Decided(dHi)
    ensures ok <==> TimeEquations(hiSel, loSel, AtTwo(dHi), AtTwo(dLo), AtTwo(slack))
  {
    hide AtTwo, Times, Decided, Boolean;
    var o3 := AssertBooleanInt(hiSel);
    var o3' := AssertBooleanInt(loSel);
    var o4 := IsZero(Minus(Plus([hiSel], [loSel]), ONE));
    var o5 := AssertScaledZero(Minus(ONE, [hiSel])[0], dHi);
    SelectedAtTwo(hiSel, loSel, dHi, dLo);
    var o6 := AssertIncrease(Plus(Times([hiSel], dHi), Times([loSel], dLo)), slack);
    ok := o3 && o3' && o4 && o5 && o6;
  }

  lemma SelectedAtTwo(a: int, b: int, p: Poly, q: Poly)
    ensures AtTwo(Plus(Times([a], p), Times([b], q))) == a * AtTwo(p) + b * AtTwo(q)
  {
    hide AtTwo, Times;
    PlusAtTwo(Times([a], p), Times([b], q));
    TimesAtTwo([a], p);
    TimesAtTwo([b], q);
    ConstantIsDecided(a);
    ConstantIsDecided(b);
  }

  // ---------------------------------------------------------------------------------
  // The network

  lemma MaskIsBit(t: UairTrace, v: nat, layer: nat, i: nat)
    requires IsAssignment(t, v) && layer < NumLayers(v) && i < Pow2(v)
    ensures Mask(t, v, layer, i) == 0 || Mask(t, v, layer, i) == 1
  {
    hide Pow2, BitClear;
    PublicColumns(t, v, i);
  }

  /** N1: the switch is boolean at an anchor. */
  method SwitchConstraint(mask: int, s: int) returns (ok: bool)
    ensures ok <==> mask * (s * (s - 1)) == 0
  {
    SingleTimes(s, s - 1);
    SingleTimes(mask, s * (s - 1));
    ConstantIsDecided(mask * (s * (s - 1)));
    assert Minus([s], ONE) == [s - 1];
    ok := IsZero(Times([mask], Times([s], Minus([s], ONE))));
  }

  /** N2 and N3, the masked conditional swap; they are numbers once N1 holds. */
  method SwapCells(mask: int, s: int, in1: Poly, in2: Poly, out1: Poly, out2: Poly) returns (ok: bool)
    requires IsBinary(in1) && IsBinary(in2) && IsBinary(out1) && IsBinary(out2)
    ensures mask == 0 || (mask == 1 && (s == 0 || s == 1)) ==>
      (ok <==> SwapEquations(mask, s, AtTwo(in1), AtTwo(in2), AtTwo(out1), AtTwo(out2)))
  {
    hide AtTwo, Times, IsBinary, IsZero, Decided;
    var switched := Times([s], Minus(in2, in1));
    var d1, d2 := Minus(Minus(out1, in1), switched), Plus(Minus(out2, in2), switched);
    ok := IsZero(Times([mask], d1)) && IsZero(Times([mask], d2));
    ScalarTimesIsZero(mask, d1);
    ScalarTimesIsZero(mask, d2);
    if mask == 1 && (s == 0 || s == 1) {
      SwitchedDown(s, out1, in1, in2);
      SwitchedUp(s, out2, in1, in2);
      DifferenceIsZero(out1, if s == 1 then in2 else in1);
      DifferenceIsZero(out2, if s == 1 then in1 else in2);
      SwapOfOne(s, AtTwo(in1), AtTwo(in2), AtTwo(out1), AtTwo(out2));
    }
  }

  lemma SwapOfOne(s: int, in1: int, in2: int, out1: int, out2: int)
    requires s == 0 || s == 1
    ensures SwapEquations(1, s, in1, in2, out1, out2)
      <==> out1 == (if s == 1 then in2 else in1) && out2 == (if s == 1 then in1 else in2)
  {
  }

  method SwapConstraint(t: UairTrace, v: nat, beyond: nat, i: nat, shifts: seq<Shift>, down: seq<Poly>,
                        layer: nat, payload: nat)
    returns (ok: bool)
    requires IsAssignment(t, v) && i < Pow2(v) && shifts == Shifts(v) && IsDownRow(t, v, beyond, i, down)
    requires layer < NumLayers(v) && payload < PAYLOAD_CELLS
    ensures N1(t, v, layer, i) ==> (ok <==> N2N3(t, v, beyond, layer, payload, i))
  {
    hide IsAssignment, IsDownRow, Shifts, DownCell, StateCell, Mask, Switch, SwapEquations, Pow2, IsBinary, AtTwo;
    var stride := Stride(v, layer);
    var in2 := DownBp(t, v, beyond, i, shifts, down, layer, payload, stride);
    var out2 := DownBp(t, v, beyond, i, shifts, down, layer + 1, payload, stride);
    var in1, out1 := UpCell(t, v, layer, payload, i), UpCell(t, v, layer + 1, payload, i);
    MaskIsBit(t, v, layer, i);
    BooleanIsBit(Switch(t, v, layer, i));
    ok := SwapCells(Mask(t, v, layer, i), Switch(t, v, layer, i), in1, in2, out1, out2);
  }

  method LayerConstraints(t: UairTrace, v: nat, beyond: nat, i: nat, shifts: seq<Shift>, down: seq<Poly>, layer: nat)
    returns (ok: bool)
    requires IsAssignment(t, v) && i < Pow2(v) && shifts == Shifts(v) && IsDownRow(t, v, beyond, i, down)
    requires layer < NumLayers(v)
    ensures ok <==> LayerRow(t, v, beyond, layer, i)
  {
    hide IsAssignment, IsDownRow, Shifts, Pow2, N2N3, SwapsUpTo, Mask, Switch;
    var n1 := SwitchConstraint(Mask(t, v, layer, i), Switch(t, v, layer, i));
    var swaps := SwapConstraints(t, v, beyond, i, shifts, down, layer);
    SwapsUpToIsAll(t, v, beyond, layer, i);
    ok := n1 && swaps;
  }

  method SwapConstraints(t: UairTrace, v: nat, beyond: nat, i: nat, shifts: seq<Shift>, down: seq<Poly>, layer: nat)
    returns (ok: bool)
    requires IsAssignment(t, v) && i < Pow2(v) && shifts == Shifts(v) && IsDownRow(t, v, beyond, i, down)
    requires layer < NumLayers(v)
    ensures N1(t, v, layer, i) ==> (ok <==> SwapsUpTo(t, v, beyond, layer, i, PAYLOAD_CELLS))
  {
    hide IsAssignment, IsDownRow, N1, N2N3, Shifts, Pow2;
    ok := true;
    for payload := 0 to PAYLOAD_CELLS
      invariant N1(t, v, layer, i) ==> (ok <==> SwapsUpTo(t, v, beyond, layer, i, payload))
    {
      var swapped := SwapConstraint(t, v, beyond, i, shifts, down, layer, payload);
      ok := ok && swapped;
    }
  }

  /** The swap constraints of the first n payload cells. */
  predicate SwapsUpTo(t: UairTrace, v: nat, beyond: nat, layer: nat, i: nat, n: nat)
    requires IsAssignment(t, v) && i < Pow2(v) && layer < NumLayers(v) && n <= PAYLOAD_CELLS
  {
    n == 0 || (SwapsUpTo(t, v, beyond, layer, i, n - 1) && N2N3(t, v, beyond, layer, n - 1, i))
  }

  lemma {:induction false} SwapAmong(t: UairTrace, v: nat, beyond: nat, layer: nat, i: nat, n: nat, p: nat)
    requires IsAssignment(t, v) && i < Pow2(v) && layer < NumLayers(v) && p < n <= PAYLOAD_CELLS
    requires SwapsUpTo(t, v, beyond, layer, i, n)
    ensures N2N3(t, v, beyond, layer, p, i)
  {
    hide IsAssignment, N2N3, Pow2;
    if p < n - 1 {
      SwapAmong(t, v, beyond, layer, i, n - 1, p);
    }
  }

  lemma {:induction false} SwapsCollect(t: UairTrace, v: nat, beyond: nat, layer: nat, i: nat, n: nat)
    requires IsAssignment(t, v) && i < Pow2(v) && layer < NumLayers(v) && n <= PAYLOAD_CELLS
    requires forall p :: 0 <= p < n ==> N2N3(t, v, beyond, layer, p, i)
    ensures SwapsUpTo(t, v, beyond, layer, i, n)
  {
    hide IsAssignment, N2N3, Pow2;
    if n > 0 {
      SwapsCollect(t, v, beyond, layer, i, n - 1);
    }
  }

  lemma SwapsUpToIsAll(t: UairTrace, v: nat, beyond: nat, layer: nat, i: nat)
    requires IsAssignment(t, v) && i < Pow2(v) && layer < NumLayers(v)
    ensures SwapsUpTo(t, v, beyond, layer, i, PAYLOAD_CELLS)
      <==> forall p :: 0 <= p < PAYLOAD_CELLS ==> N2N3(t, v, beyond, layer, p, i)
  {
    hide IsAssignment, N2N3, Pow2, SwapsUpTo;
    if SwapsUpTo(t, v, beyond, layer, i, PAYLOAD_CELLS) {
      forall p | 0 <= p < PAYLOAD_CELLS ensures N2N3(t, v, beyond, layer, p, i) {
        SwapAmong(t, v, beyond, layer, i, PAYLOAD_CELLS, p);
      }
    } else if forall p :: 0 <= p < PAYLOAD_CELLS ==> N2N3(t, v, beyond, layer, p, i) {
      SwapsCollect(t, v, beyond, layer, i, PAYLOAD_CELLS);
    }
  }

  method NetworkConstraints(t: UairTrace, v: nat, beyond: nat, i: nat, shifts: seq<Shift>, down: seq<Poly>)
    returns (ok: bool)
    requires IsAssignment(t, v) && i < Pow2(v) && shifts == Shifts(v) && IsDownRow(t, v, beyond, i, down)
    ensures ok <==> LayersUpTo(t, v, beyond, i, NumLayers(v))
  {
    hide IsDownRow, LayerRow, Shifts, Pow2;
    ok := true;
    for layer := 0 to NumLayers(v)
      invariant ok <==> LayersUpTo(t, v, beyond, i, layer)
    {
      var holds := LayerConstraints(t, v, beyond, i, shifts, down, layer);
      ok := ok && holds;
    }
  }

  /** The constraints of the first n layers. */
  predicate LayersUpTo(t: UairTrace, v: nat, beyond: nat, i: nat, n: nat)
    requires IsAssignment(t, v) && i < Pow2(v) && n <= NumLayers(v)
  {
    n == 0 || (LayersUpTo(t, v, beyond, i, n - 1) && LayerRow(t, v, beyond, n - 1, i))
  }

  lemma {:induction false} LayerAmong(t: UairTrace, v: nat, beyond: nat, i: nat, n: nat, layer: nat)
    requires IsAssignment(t, v) && i < Pow2(v) && layer < n <= NumLayers(v) && LayersUpTo(t, v, beyond, i, n)
    ensures LayerRow(t, v, beyond, layer, i)
  {
    hide IsAssignment, LayerRow, Pow2;
    if layer < n - 1 {
      LayerAmong(t, v, beyond, i, n - 1, layer);
    }
  }

  lemma {:induction false} LayersCollect(t: UairTrace, v: nat, beyond: nat, i: nat, n: nat)
    requires IsAssignment(t, v) && i < Pow2(v) && n <= NumLayers(v)
    requires forall l :: 0 <= l < n ==> LayerRow(t, v, beyond, l, i)
    ensures LayersUpTo(t, v, beyond, i, n)
  {
    hide IsAssignment, LayerRow, Pow2;
    if n > 0 {
      LayersCollect(t, v, beyond, i, n - 1);
    }
  }

  lemma LayersUpToIsAll(t: UairTrace, v: nat, beyond: nat, i: nat)
    requires IsAssignment(t, v) && i < Pow2(v)
    ensures LayersUpTo(t, v, beyond, i, NumLayers(v)) <==> NetworkRow(t, v, beyond, i)
  {
    hide LayerRow, LayersUpTo, Pow2;
    if LayersUpTo(t, v, beyond, i, NumLayers(v)) {
      forall l | 0 <= l < NumLayers(v) ensures LayerRow(t, v, beyond, l, i) {
        LayerAmong(t, v, beyond, i, NumLayers(v), l);
      }
    } else if NetworkRow(t, v, beyond, i) {
      LayersCollect(t, v, beyond, i, NumLayers(v));
    }
  }

  /**
   Evaluates every constraint at row i over polynomial cells; past the last row the cells are
   `beyond`. They hold exactly when the integer relation holds of the row.
   */
  method ConstrainRow(t: UairTrace, v: nat, beyond: nat, i: nat) returns (ok: bool)
    requires IsAssignment(t, v) && v >= 2 && i < Pow2(v) && beyond < LIMB
    ensures ok <==> RowHolds(t, v, beyond, i)
  {
    hide IsAssignment, Pow2, Shifts, SortedRow, LayersUpTo, NetworkRow, IsDownCell;
    var shifts := BuildShifts(v);
    ShiftsSorted(v);
    var down := DownRow(t, v, beyond, i, shifts);
    var sorted := SortedConstraints(t, v, beyond, i, shifts, down);
    var original := OriginalConstraints(t, v, beyond, i, shifts, down);
    var network := NetworkConstraints(t, v, beyond, i, shifts, down);
    LayersUpToIsAll(t, v, beyond, i);
    ok := sorted && original && network;
  }

  /** No constraint of a row before the last depends on what lies past the last row. */
  lemma RowIgnoresBeyond(t: UairTrace, v: nat, a: nat, b: nat, i: nat)
    requires IsAssignment(t, v) && i < Pow2(v) - 1
    ensures RowHolds(t, v, a, i) <==> RowHolds(t, v, b, i)
  {
    hide Pow2, S1, O1O2, StateCell, N1, N2N3;
    assert S8(t, v, a, i) == S8(t, v, b, i) by {
      assert forall q :: 0 <= q < NUM_VALUE_LIMBS ==> S8At(t, v, a, q, i) == S8At(t, v, b, q, i);
    }
    assert LexDifferencesAt(t, v, a, i) == LexDifferencesAt(t, v, b, i);
    forall layer | 0 <= layer < NumLayers(v) ensures LayerRow(t, v, a, layer, i) == LayerRow(t, v, b, layer, i) {
      LayerIgnoresBeyond(t, v, a, b, layer, i);
    }
  }

  lemma LayerIgnoresBeyond(t: UairTrace, v: nat, a: nat, b: nat, layer: nat, i: nat)
    requires IsAssignment(t, v) && layer < NumLayers(v) && i < Pow2(v)
    ensures LayerRow(t, v, a, layer, i) == LayerRow(t, v, b, layer, i)
  {
    hide IsAssignment, Pow2, N1, N2N3;
    forall p | 0 <= p < PAYLOAD_CELLS ensures N2N3(t, v, a, layer, p, i) == N2N3(t, v, b, layer, p, i) {
      SwapIgnoresBeyond(t, v, a, b, layer, p, i);
    }
    SwapsAgree(t, v, a, b, layer, i);
  }

  lemma SwapsAgree(t: UairTrace, v: nat, a: nat, b: nat, layer: nat, i: nat)
    requires IsAssignment(t, v) && layer < NumLayers(v) && i < Pow2(v)
    requires forall p :: 0 <= p < PAYLOAD_CELLS ==> N2N3(t, v, a, layer, p, i) == N2N3(t, v, b, layer, p, i)
    ensures LayerRow(t, v, a, layer, i) == LayerRow(t, v, b, layer, i)
  {
    hide IsAssignment, Pow2, N1, N2N3;
  }

  lemma SwapIgnoresBeyond(t: UairTrace, v: nat, a: nat, b: nat, layer: nat, p: nat, i: nat)
    requires IsAssignment(t, v) && layer < NumLayers(v) && p < PAYLOAD_CELLS && i < Pow2(v)
    ensures N2N3(t, v, a, layer, p, i) == N2N3(t, v, b, layer, p, i)
  {
    hide IsAssignment, StateCell, Pow2, BitClear, SwapEquations;
    PublicColumns(t, v, i);
    if BitClear(i, StrideBit(v, layer)) {
      SwitchPair(v, StrideBit(v, layer), i);
    } else {
      UnmaskedSwap(Switch(t, v, layer, i), StateCell(t, v, layer, p, i), DownCell(t, v, a, layer, p, Stride(v, layer), i),
                   StateCell(t, v, layer + 1, p, i), DownCell(t, v, a, layer + 1, p, Stride(v, layer), i));
      UnmaskedSwap(Switch(t, v, layer, i), StateCell(t, v, layer, p, i), DownCell(t, v, b, layer, p, Stride(v, layer), i),
                   StateCell(t, v, layer + 1, p, i), DownCell(t, v, b, layer + 1, p, Stride(v, layer), i));
    }
  }

  lemma UnmaskedSwap(s: int, in1: int, in2: int, out1: int, out2: int)
    ensures SwapEquations(0, s, in1, in2, out1, out2)
  {
  }
}
