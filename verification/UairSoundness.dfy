/**
 Soundness of the UAIR: whatever the witness columns are, if every non-exempt row satisfies the
 constraints then the original trace is well timed and every read returns the last write.
 */
module UairSoundness {
  import opened Powers
  import opened Permutations
  import opened Limbs
  import opened Records
  import opened BenesNetwork
  import opened NetLayout
  import opened Rows
  import opened Selectors
  import opened Uair

  // ---------------------------------------------------------------------------------
  // The network

  /** The switch columns as switch settings; cells of lower wires are not read. */
  function SwitchBits(t: UairTrace, v: nat): (layers: seq<seq<bool>>)
    requires IsAssignment(t, v)
    ensures ValidLayers(layers, v)
    ensures forall l, i :: 0 <= l < NumLayers(v) && 0 <= i < Pow2(v) ==> layers[l][i] == (Switch(t, v, l, i) == 1)
  {
    seq(NumLayers(v), l requires 0 <= l < NumLayers(v) =>
      seq(Pow2(v), i requires 0 <= i < Pow2(v) => Switch(t, v, l, i) == 1))
  }

  /** The last row is an anchor of no switch, so its exemption leaves no switch unconstrained. */
  lemma AnchorIsConstrained(v: nat, k: nat, i: nat)
    requires k < v && i < Pow2(v) && BitClear(i, k)
    ensures i + Pow2(k) < Pow2(v) && i < Pow2(v) - 1
  {
    SwitchPair(v, k, i);
  }

  /** At an anchor row with a boolean switch the equations exchange the cells or pass them through. */
  lemma SwapMeaning(s: int, in1: int, in2: int, out1: int, out2: int)
    requires s == 0 || s == 1
    ensures SwapEquations(1, s, in1, in2, out1, out2) <==>
      if s == 1 then out1 == in2 && out2 == in1 else out1 == in1 && out2 == in2
  {
  }

  lemma AnchorMask(t: UairTrace, v: nat, layer: nat, i: nat)
    requires IsAssignment(t, v) && layer < NumLayers(v) && i < Pow2(v)
    ensures Mask(t, v, layer, i) == Bit(BitClear(i, StrideBit(v, layer)))
  {
    PublicColumns(t, v, i);
  }

  lemma AnchorSwitch(t: UairTrace, v: nat, layer: nat, i: nat)
    requires IsAssignment(t, v) && layer < NumLayers(v) && i < Pow2(v)
    requires BitClear(i, StrideBit(v, layer)) && N1(t, v, layer, i)
    ensures Switch(t, v, layer, i) == 0 || Switch(t, v, layer, i) == 1
  {
    AnchorMask(t, v, layer, i);
    BooleanIsBit(Switch(t, v, layer, i));
  }

  /** One switch moves whole cells: the outputs are the inputs, exchanged or not. */
  lemma SwitchMovesCells(t: UairTrace, v: nat, beyond: nat, layer: nat, payload: nat, i: nat)
    requires IsAssignment(t, v) && layer < NumLayers(v) && payload < PAYLOAD_CELLS && i < Pow2(v)
    requires BitClear(i, StrideBit(v, layer))
    requires N1(t, v, layer, i) && N2N3(t, v, beyond, layer, payload, i)
    ensures i + Stride(v, layer) < Pow2(v)
    ensures var swaps, j := Switch(t, v, layer, i) == 1, i + Stride(v, layer);
      && StateCell(t, v, layer + 1, payload, i) == StateCell(t, v, layer, payload, if swaps then j else i)
      && StateCell(t, v, layer + 1, payload, j) == StateCell(t, v, layer, payload, if swaps then i else j)
  {
    hide StateCell, N1, Switch, BitClear, Pow2;
    AnchorIsConstrained(v, StrideBit(v, layer), i);
    AnchorMask(t, v, layer, i);
    AnchorSwitch(t, v, layer, i);
    var j := i + Stride(v, layer);
    SwapMeaning(Switch(t, v, layer, i), StateCell(t, v, layer, payload, i), StateCell(t, v, layer, payload, j),
                StateCell(t, v, layer + 1, payload, i), StateCell(t, v, layer + 1, payload, j));
  }

  lemma CellFollowsFeed(t: UairTrace, v: nat, beyond: nat, layer: nat, payload: nat, w: nat)
    requires IsAssignment(t, v) && Satisfies(t, v, beyond)
    requires layer < NumLayers(v) && payload < PAYLOAD_CELLS && w < Pow2(v)
    ensures StateCell(t, v, layer + 1, payload, w)
         == StateCell(t, v, layer, payload, Feed(v, StrideBit(v, layer), SwitchBits(t, v)[layer], w))
  {
    hide Satisfies, Pow2, StateCell, Switch, BitClear, SwitchBits;
    var k := StrideBit(v, layer);
    SwitchPair(v, k, w);
    AnchorHolds(t, v, beyond, layer, payload, if BitClear(w, k) then w else w - Pow2(k));
  }

  /** The network constraints hold at every anchor, and move its two cells. */
  lemma AnchorHolds(t: UairTrace, v: nat, beyond: nat, layer: nat, payload: nat, i: nat)
    requires IsAssignment(t, v) && Satisfies(t, v, beyond)
    requires layer < NumLayers(v) && payload < PAYLOAD_CELLS && i < Pow2(v) && BitClear(i, StrideBit(v, layer))
    ensures i + Stride(v, layer) < Pow2(v)
    ensures var swaps, j := Switch(t, v, layer, i) == 1, i + Stride(v, layer);
      && StateCell(t, v, layer + 1, payload, i) == StateCell(t, v, layer, payload, if swaps then j else i)
      && StateCell(t, v, layer + 1, payload, j) == StateCell(t, v, layer, payload, if swaps then i else j)
  {
    hide StateCell, N1, N2N3, Switch, BitClear, Pow2;
    AnchorIsConstrained(v, StrideBit(v, layer), i);
    assert RowHolds(t, v, beyond, i);
    assert LayerRow(t, v, beyond, layer, i);
    SwitchMovesCells(t, v, beyond, layer, payload, i);
  }

  /** Each state is the previous one with full records moved by the layer's switches. */
  lemma StateFollowsLayer(t: UairTrace, v: nat, beyond: nat, layer: nat)
    requires IsAssignment(t, v) && Satisfies(t, v, beyond) && layer < NumLayers(v)
    ensures StateRows(t, v, layer + 1) == LayerOutput(StateRows(t, v, layer), v, layer, SwitchBits(t, v)[layer])
  {
    hide Satisfies, StateCell, Pow2, Feed;
    var bits := SwitchBits(t, v)[layer];
    forall w | 0 <= w < Pow2(v)
      ensures StateCells(t, v, layer + 1, w) == StateCells(t, v, layer, Feed(v, StrideBit(v, layer), bits, w))
    {
      forall p | 0 <= p < PAYLOAD_CELLS
        ensures StateCells(t, v, layer + 1, w)[p] == StateCells(t, v, layer, Feed(v, StrideBit(v, layer), bits, w))[p]
      {
        CellFollowsFeed(t, v, beyond, layer, p, w);
      }
    }
  }

  lemma {:induction false} StateFollowsNetwork(t: UairTrace, v: nat, beyond: nat, count: nat)
    requires IsAssignment(t, v) && Satisfies(t, v, beyond) && count <= NumLayers(v)
    ensures StateRows(t, v, count) == StateAfter(StateRows(t, v, 0), v, SwitchBits(t, v), count)
  {
    hide Satisfies, StateRows, SwitchBits, LayerOutput, Pow2;
    if count > 0 {
      StateFollowsNetwork(t, v, beyond, count - 1);
      StateFollowsLayer(t, v, beyond, count - 1);
    }
  }

  lemma OutputRow(t: UairTrace, v: nat, beyond: nat, j: nat)
    requires IsAssignment(t, v) && Satisfies(t, v, beyond) && j < Pow2(v)
    ensures StateRows(t, v, OriginalState(v))[j] == StateRows(t, v, 0)[Realized(SwitchBits(t, v), v)[j]]
  {
    hide StateRows, SwitchBits, Satisfies, Pow2, StateAfter, Source;
    StateFollowsNetwork(t, v, beyond, NumLayers(v));
    StateAfterReadsSource(StateRows(t, v, 0), v, SwitchBits(t, v), NumLayers(v), j);
  }

  /** The permutation argument: the original rows are the sorted rows, permuted, cell for cell. */
  lemma NetworkIsPermutation(t: UairTrace, v: nat, beyond: nat)
    requires IsAssignment(t, v) && Satisfies(t, v, beyond)
    ensures forall j :: 0 <= j < Pow2(v) ==>
      StateRows(t, v, OriginalState(v))[j] == StateRows(t, v, 0)[Realized(SwitchBits(t, v), v)[j]]
    ensures multiset(StateRows(t, v, OriginalState(v))) == multiset(StateRows(t, v, 0))
  {
    var perm, input, output := Realized(SwitchBits(t, v), v), StateRows(t, v, 0), StateRows(t, v, OriginalState(v));
    forall j | 0 <= j < Pow2(v) ensures output[j] == input[perm[j]] {
      OutputRow(t, v, beyond, j);
    }
    PermutationKeepsMultiset(input, output, perm);
  }

  lemma {:induction false} LayerKeepsMultiset(t: UairTrace, v: nat, beyond: nat, layer: nat)
    requires IsAssignment(t, v) && Satisfies(t, v, beyond) && layer < NumLayers(v)
    ensures multiset(StateRows(t, v, layer + 1)) == multiset(StateRows(t, v, layer))
  {
    var bits, k := SwitchBits(t, v)[layer], StrideBit(v, layer);
    var p := seq(Pow2(v), w requires 0 <= w < Pow2(v) => Feed(v, k, bits, w));
    forall i, j | 0 <= i < j < Pow2(v) ensures p[i] != p[j] {
      FeedIsInvolution(v, k, bits, i);
      FeedIsInvolution(v, k, bits, j);
    }
    StateFollowsLayer(t, v, beyond, layer);
    PermutationKeepsMultiset(StateRows(t, v, layer), StateRows(t, v, layer + 1), p);
  }

  // ---------------------------------------------------------------------------------
  // The sorted trace

  lemma SortedInstrIsBit(t: UairTrace, v: nat, beyond: nat, i: nat)
    requires IsAssignment(t, v) && Satisfies(t, v, beyond) && i < Pow2(v)
    ensures StateCell(t, v, 0, PL_INSTR, i) <= 1
    ensures i == 0 ==> StateCell(t, v, 0, PL_INSTR, i) == 1
  {
    if i == 0 {
      assert RowHolds(t, v, beyond, 0);
      PublicColumns(t, v, 0);
    } else {
      assert RowHolds(t, v, beyond, i - 1);
      BooleanIsBit(StateCell(t, v, 0, PL_INSTR, i));
    }
  }

  lemma CellsAreValid(t: UairTrace, v: nat, state: nat, i: nat)
    requires IsAssignment(t, v) && state < NumStates(v) && i < Pow2(v)
    requires StateCell(t, v, state, PL_INSTR, i) <= 1
    ensures ValidRow(RowOf(StateCells(t, v, state, i)))
  {
    var cells := StateCells(t, v, state, i);
    forall p | 0 <= p < PAYLOAD_CELLS ensures cells[p] < LIMB {
      assert cells[p] == StateCell(t, v, state, p, i);
    }
  }

  /** The selector constraints between two rows of limbs: the key grows, and the time selectors tell whether the address stays. */
  lemma SelectorsOrder(a: RowLimbs, b: RowLimbs, s: seq<int>, d: seq<int>, slack: nat)
    requires ValidRow(a) && ValidRow(b) && |s| == |d| == NUM_LEX_LIMBS && SelectsIncrease(s, d, slack)
    requires forall j :: 0 <= j < NUM_LEX_LIMBS ==> d[j] == LexLimb(b, j) as int - LexLimb(a, j)
    ensures KeyBefore(Decoded(a), Decoded(b))
    ensures s[NUM_ADDR_LIMBS] + s[NUM_ADDR_LIMBS + 1] == Bit(Decoded(a).address == Decoded(b).address)
  {
    var k := SelectorMeaning(s, d, slack);
    LexOrder(a, b, k);
  }

  /** S3 to S6: the key strictly increases, and a_same says whether the address is unchanged. */
  lemma KeyIncreases(t: UairTrace, v: nat, beyond: nat, i: nat)
    requires IsAssignment(t, v) && i < Pow2(v) - 1 && S3toS6(t, v, beyond, i)
    requires ValidRow(RowOf(StateCells(t, v, 0, i))) && ValidRow(RowOf(StateCells(t, v, 0, i + 1)))
    ensures var a, b := TraceOf(t, v, 0)[i], TraceOf(t, v, 0)[i + 1];
      KeyBefore(a, b) && SameAddress(t, v, i) == Bit(a.address == b.address)
  {
    DifferencesOfRows(t, v, beyond, i);
    SelectorsOrder(RowOf(StateCells(t, v, 0, i)), RowOf(StateCells(t, v, 0, i + 1)),
                   SelectorsAt(t, v, i), LexDifferencesAt(t, v, beyond, i), SortedSlack(t, v, i));
    SameAddressIsSum(t, v, i);
  }

  lemma DifferencesOfRows(t: UairTrace, v: nat, beyond: nat, i: nat)
    requires IsAssignment(t, v) && i < Pow2(v) - 1
    requires ValidRow(RowOf(StateCells(t, v, 0, i))) && ValidRow(RowOf(StateCells(t, v, 0, i + 1)))
    ensures var a, b := RowOf(StateCells(t, v, 0, i)), RowOf(StateCells(t, v, 0, i + 1));
      forall j :: 0 <= j < NUM_LEX_LIMBS ==> LexDifferencesAt(t, v, beyond, i)[j] == LexLimb(b, j) as int - LexLimb(a, j)
  {
    var a, b := RowOf(StateCells(t, v, 0, i)), RowOf(StateCells(t, v, 0, i + 1));
    forall j | 0 <= j < NUM_LEX_LIMBS
      ensures LexDifferenceAt(t, v, beyond, j, i) == LexLimb(b, j) as int - LexLimb(a, j)
    {
      LexLimbIsCell(t, v, i, j);
      LexLimbIsCell(t, v, i + 1, j);
    }
  }

  lemma LexLimbIsCell(t: UairTrace, v: nat, i: nat, j: nat)
    requires IsAssignment(t, v) && i < Pow2(v) && ValidRow(RowOf(StateCells(t, v, 0, i))) && j < NUM_LEX_LIMBS
    ensures LexLimb(RowOf(StateCells(t, v, 0, i)), j) == StateCell(t, v, 0, PL_ADDR + j, i)
  {
    PayloadOfRow(StateCells(t, v, 0, i), PL_ADDR + j);
  }

  /** S7 and S8: a read at an unchanged address has the previous row's value. */
  lemma ReadKeepsValue(t: UairTrace, v: nat, beyond: nat, i: nat)
    requires IsAssignment(t, v) && i < Pow2(v) - 1 && S7(t, v, beyond, i) && S8(t, v, beyond, i)
    requires SameAddress(t, v, i) == 1 && StateCell(t, v, 0, PL_INSTR, i + 1) == 0
    ensures TraceOf(t, v, 0)[i].value == TraceOf(t, v, 0)[i + 1].value
  {
    assert IntCell(t, v, IntW(v), i) == -1;
    var a, b := StateCells(t, v, 0, i), StateCells(t, v, 0, i + 1);
    forall p | PL_VALUE <= p < PL_INSTR ensures a[p] == b[p] {
      assert S8At(t, v, beyond, p - PL_VALUE, i);
      ZeroProduct(IntCell(t, v, IntW(v), i), ValueDifference(t, v, beyond, p - PL_VALUE, i));
    }
    assert a[PL_VALUE..PL_INSTR] == b[PL_VALUE..PL_INSTR];
  }

  lemma SortedStep(t: UairTrace, v: nat, beyond: nat, i: nat)
    requires IsAssignment(t, v) && Satisfies(t, v, beyond) && i < Pow2(v) - 1
    ensures KeyBefore(TraceOf(t, v, 0)[i], TraceOf(t, v, 0)[i + 1])
    ensures LocallyConsistentAt(TraceOf(t, v, 0), i + 1)
  {
    hide KeyBefore, Pow2, S3toS6, S8, StateColumn, Down, Number;
    assert RowHolds(t, v, beyond, i);
    SortedInstrIsBit(t, v, beyond, i);
    SortedInstrIsBit(t, v, beyond, i + 1);
    CellsAreValid(t, v, 0, i);
    CellsAreValid(t, v, 0, i + 1);
    KeyIncreases(t, v, beyond, i);
    if TraceOf(t, v, 0)[i + 1].instruction.Read? {
      assert NextInstrMinusOne(t, v, beyond, i) == -1;
      assert SameAddress(t, v, i) == 1;
      ReadKeepsValue(t, v, beyond, i);
    }
  }

  predicate StepsUp(trace: seq<TraceRecord>, i: nat) {
    i + 1 < |trace| ==> KeyBefore(trace[i], trace[i + 1])
  }

  lemma {:induction false} AdjacentKeysSort(trace: seq<TraceRecord>)
    requires forall i :: 0 <= i < |trace| ==> StepsUp(trace, i)
    ensures SortedByKey(trace)
    decreases |trace|
  {
    if |trace| > 1 {
      var n := |trace| - 1;
      forall i | 0 <= i < n ensures StepsUp(trace[..n], i) {
        assert StepsUp(trace, i);
      }
      AdjacentKeysSort(trace[..n]);
      forall i, j | 0 <= i < j < |trace| ensures KeyBefore(trace[i], trace[j]) {
        assert StepsUp(trace, n - 1);
        if j < n {
          assert KeyBefore(trace[..n][i], trace[..n][j]);
        } else if i < n - 1 {
          assert KeyBefore(trace[..n][i], trace[..n][n - 1]);
        }
      }
    }
  }

  lemma SortedStateIsConsistent(t: UairTrace, v: nat, beyond: nat)
    requires IsAssignment(t, v) && Satisfies(t, v, beyond)
    ensures SortedByKey(TraceOf(t, v, 0)) && LocallyConsistent(TraceOf(t, v, 0))
  {
    var sorted := TraceOf(t, v, 0);
    forall i | 0 <= i < |sorted| ensures StepsUp(sorted, i) {
      if i + 1 < |sorted| {
        SortedStep(t, v, beyond, i);
      }
    }
    AdjacentKeysSort(sorted);
    forall p | 0 <= p < |sorted| ensures LocallyConsistentAt(sorted, p) {
      if p == 0 {
        FirstIsWrite(t, v, beyond);
      } else {
        SortedStep(t, v, beyond, p - 1);
      }
    }
  }

  lemma FirstIsWrite(t: UairTrace, v: nat, beyond: nat)
    requires IsAssignment(t, v) && Satisfies(t, v, beyond)
    ensures TraceOf(t, v, 0)[0].instruction.Write?
  {
    SortedInstrIsBit(t, v, beyond, 0);
  }

  // ---------------------------------------------------------------------------------
  // The original trace

  lemma TimeOfRow(t: UairTrace, v: nat, state: nat, i: nat)
    requires IsAssignment(t, v) && state < NumStates(v) && i < Pow2(v)
    ensures TraceOf(t, v, state)[i].timeLog
      == StateCell(t, v, state, PL_TIME, i) * LIMB + StateCell(t, v, state, PL_TIME + 1, i)
  {
    TwoLimbs(StateCells(t, v, state, i)[PL_TIME..PL_STACK_DEPTH]);
  }

  /** The time constraints on plain numbers: the selected limb is the first to differ, and it grows. */
  lemma LimbsIncrease(hiSel: int, loSel: int, hi: nat, lo: nat, hi': nat, lo': nat, slack: nat)
    requires TimeEquations(hiSel, loSel, hi' - hi, lo' - lo, slack) && lo < LIMB
    ensures hi * LIMB + lo < hi' * LIMB + lo'
  {
    BooleanIsBit(hiSel);
  }

  lemma TimeStep(t: UairTrace, v: nat, beyond: nat, i: nat)
    requires IsAssignment(t, v) && i < Pow2(v) - 1 && O3toO6(t, v, beyond, i)
    ensures TraceOf(t, v, OriginalState(v))[i].timeLog < TraceOf(t, v, OriginalState(v))[i + 1].timeLog
  {
    hide TraceOf, StateColumn, StateCell, DownCell, Down, Pow2, TimeEquations;
    var o := OriginalState(v);
    var hi, hi' := StateCell(t, v, o, PL_TIME, i), StateCell(t, v, o, PL_TIME, i + 1);
    var lo, lo' := StateCell(t, v, o, PL_TIME + 1, i), StateCell(t, v, o, PL_TIME + 1, i + 1);
    TimeOfRow(t, v, o, i);
    TimeOfRow(t, v, o, i + 1);
    assert TimeDifference(t, v, beyond, 0, i) == hi' as int - hi;
    assert TimeDifference(t, v, beyond, 1, i) == lo' as int - lo;
    LimbsIncrease(IntCell(t, v, IntTimeHiSel(v), i), IntCell(t, v, IntTimeLoSel(v), i), hi, lo, hi', lo', OriginalSlack(t, v, i));
  }

  lemma OriginalStateIsTimed(t: UairTrace, v: nat, beyond: nat)
    requires IsAssignment(t, v) && Satisfies(t, v, beyond)
    ensures WellTimed(TraceOf(t, v, OriginalState(v)))
  {
    var trace := TraceOf(t, v, OriginalState(v));
    assert RowHolds(t, v, beyond, 0);
    PublicColumns(t, v, 0);
    TimeOfRow(t, v, OriginalState(v), 0);
    forall i | 0 <= i < |trace| - 1 ensures trace[i].timeLog < trace[i + 1].timeLog {
      assert RowHolds(t, v, beyond, i);
      TimeStep(t, v, beyond, i);
    }
    AdjacentTimes(trace);
  }

  // ---------------------------------------------------------------------------------
  // Soundness

  lemma StatesReorder(t: UairTrace, v: nat, beyond: nat)
    requires IsAssignment(t, v) && Satisfies(t, v, beyond)
    ensures Reorders(TraceOf(t, v, OriginalState(v)), TraceOf(t, v, 0), Realized(SwitchBits(t, v), v))
  {
    var perm := Realized(SwitchBits(t, v), v);
    NetworkIsPermutation(t, v, beyond);
    forall j | 0 <= j < Pow2(v) ensures TraceOf(t, v, OriginalState(v))[j] == TraceOf(t, v, 0)[perm[j]] {
      assert StateRows(t, v, OriginalState(v))[j] == StateRows(t, v, 0)[perm[j]];
    }
  }

  lemma CellOfRow(t: UairTrace, v: nat, state: nat, payload: nat, i: nat)
    requires IsAssignment(t, v) && state < NumStates(v) && payload < PAYLOAD_CELLS && i < Pow2(v)
    ensures StateRows(t, v, state)[i][payload] == StateCell(t, v, state, payload, i)
  {
  }

  /** The instruction cells of the original trace are 0 or 1, so its records are read off faithfully. */
  lemma OriginalInstrIsBit(t: UairTrace, v: nat, beyond: nat, i: nat)
    requires IsAssignment(t, v) && Satisfies(t, v, beyond) && i < Pow2(v)
    ensures StateCell(t, v, OriginalState(v), PL_INSTR, i) <= 1
  {
    var p := Realized(SwitchBits(t, v), v)[i];
    OutputRow(t, v, beyond, i);
    CellOfRow(t, v, OriginalState(v), PL_INSTR, i);
    CellOfRow(t, v, 0, PL_INSTR, p);
    SortedInstrIsBit(t, v, beyond, p);
  }

  /**
   Every assignment that satisfies the constraints on the non-exempt rows has, as its last
   network state, a trace that starts at time 0, strictly increases in time and returns on
   every read the value of the last earlier write to the address.
   */
  lemma Soundness(t: UairTrace, v: nat, beyond: nat)
    requires IsAssignment(t, v) && Satisfies(t, v, beyond)
    ensures WellTimed(TraceOf(t, v, OriginalState(v)))
    ensures ReadsLastWrites(TraceOf(t, v, OriginalState(v)))
  {
    OriginalStateIsTimed(t, v, beyond);
    SortedStateIsConsistent(t, v, beyond);
    StatesReorder(t, v, beyond);
    SortedCheckIsExact(TraceOf(t, v, OriginalState(v)), TraceOf(t, v, 0), Realized(SwitchBits(t, v), v));
  }
}
