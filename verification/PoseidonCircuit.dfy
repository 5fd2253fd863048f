/**
 The Poseidon circuit: one row per full round, one row per two partial rounds, the second of
 which is checked backwards through the inverse matrix. The cells of a region satisfy its gates
 exactly when they hold the native permutation.
 */
module PoseidonCircuit {
  import opened Fields
  import opened Matrices
  import opened PoseidonPermutation
  import opened PoseidonSponge

  /** What the configuration asserts of the parameters, and the two inverse laws of the matrices. */
  ghost predicate ValidConfig<F(!new)>(s: Spec<F>) {
    && ValidSpec(s) && s.rate == s.width - 1
    && s.fullRounds % 2 == 0 && s.partialRounds % 2 == 0
    && |s.roundConstants| >= s.fullRounds + s.partialRounds
    && (forall x :: s.sbox(x) == Power(s.field, x, 5))
    && IsDomain(s.field)
    && IsLeftInverse(s.field, s.mds, s.mdsInv, s.width)
    && IsLeftInverse(s.field, s.mdsInv, s.mds, s.width)
  }

  /** The gates' S-box: two squarings and a product. */
  function Pow5<F(!new)>(f: Field<F>, v: F): F {
    var v2 := f.mul(v, v);
    f.mul(f.mul(v2, v2), v)
  }

  /** It is the product of five factors v. */
  lemma Pow5IsPower<F(!new)>(f: Field<F>, v: F)
    requires IsDomain(f)
    ensures Pow5(f, v) == Power(f, v, 5)
  {
    hide IsDomain;
    MulLeftOne(f, v);
    assert Power(f, v, 1) == f.mul(Power(f, v, 0), v) == v;
    PowersMultiply(f, v, 1, 1);
    PowersMultiply(f, v, 2, 2);
    PowersMultiply(f, v, 4, 1);
  }

  function SmallConfig(): Spec<int> {
    Spec(Integers(), 2, 1, 2, 2, v => Power(Integers(), v, 5), [[3, 1], [4, 1], [5, 9], [2, 6]],
         [[1, 1], [0, 1]], [[1, -1], [0, 1]])
  }

  lemma ProductOfTwo(a: Matrix<int>, b: Matrix<int>, i: nat, j: nat)
    requires IsSquare(a, 2) && IsSquare(b, 2) && i < 2 && j < 2
    ensures ProductRow(Integers(), a, b, 2, i)[j] == a[i][0] * b[0][j] + a[i][1] * b[1][j]
  {
    var row, column := a[i], Column(b, 2, j);
    assert Dot(Integers(), row, column, 1) == Dot(Integers(), row, column, 0) + row[0] * column[0];
    assert Dot(Integers(), row, column, 2) == Dot(Integers(), row, column, 1) + row[1] * column[1];
  }

  lemma SmallInverse()
    ensures var s := SmallConfig();
      IsLeftInverse(s.field, s.mds, s.mdsInv, s.width) && IsLeftInverse(s.field, s.mdsInv, s.mds, s.width)
  {
    hide ProductRow;
    var s := SmallConfig();
    forall i, j | 0 <= i < 2 && 0 <= j < 2
      ensures ProductRow(s.field, s.mds, s.mdsInv, 2, i)[j] == if i == j then 1 else 0
      ensures ProductRow(s.field, s.mdsInv, s.mds, 2, i)[j] == if i == j then 1 else 0
    {
      ProductOfTwo(s.mds, s.mdsInv, i, j);
      ProductOfTwo(s.mdsInv, s.mds, i, j);
    }
  }

  /** The assumptions on a configuration can be met. */
  lemma SmallConfigIsValid()
    ensures ValidConfig(SmallConfig()) && SmallConfig().sbox(2) == 32
  {
    assert Power(Integers(), 2, 2) == 4;
    hide IsLeftInverse, IsDomain;
    IntegersAreADomain();
    SmallInverse();
  }

  // ---------------------------------------------------------------------------------
  // Gates

  /** x[0] * row[0] + ... + x[n - 1] * row[n - 1], started with the first term. */
  function Reduce<F(!new)>(f: Field<F>, x: seq<F>, row: seq<F>, n: nat): F
    requires 1 <= n <= |x| && n <= |row|
  {
    var term := f.mul(x[n - 1], row[n - 1]);
    if n == 1 then term else f.add(Reduce(f, x, row, n - 1), term)
  }

  lemma {:induction false} ReduceIsDot<F(!new)>(f: Field<F>, x: seq<F>, row: seq<F>, n: nat)
    requires IsDomain(f) && 1 <= n <= |x| && n <= |row|
    ensures Reduce(f, x, row, n) == Dot(f, row, x, n)
  {
    assert Obeys(f, MulComm(x[n - 1], row[n - 1]));
    if n == 1 {
      AddLeftZero(f, f.mul(row[0], x[0]));
      assert Dot(f, row, x, 0) == f.zero;
    } else {
      ReduceIsDot(f, x, row, n - 1);
    }
  }

  /** The full-round constraint of one next cell. */
  ghost predicate FullGateAt<F(!new)>(s: Spec<F>, cur: seq<F>, next: seq<F>, rcA: seq<F>, i: nat)
    requires ValidSpec(s) && |cur| == |next| == |rcA| == s.width && i < s.width
  {
    var powers := seq(s.width, k requires 0 <= k < s.width => Pow5(s.field, s.field.add(cur[k], rcA[k])));
    s.field.Sub(Reduce(s.field, powers, s.mds[i], s.width), next[i]) == s.field.zero
  }

  ghost predicate FullGate<F(!new)>(s: Spec<F>, cur: seq<F>, next: seq<F>, rcA: seq<F>)
    requires ValidSpec(s) && |cur| == |next| == |rcA| == s.width
  {
    forall i :: 0 <= i < s.width ==> FullGateAt(s, cur, next, rcA, i)
  }

  /** The inputs of the first matrix product: the partial S-box cell, then the other words plus constants. */
  function MidInputs<F(!new)>(s: Spec<F>, cur: seq<F>, mid0: F, rcA: seq<F>): (u: seq<F>)
    requires |cur| == |rcA| == s.width
    ensures |u| == s.width
  {
    seq(s.width, k requires 0 <= k < s.width => if k == 0 then mid0 else s.field.add(cur[k], rcA[k]))
  }

  /** Word i after the first of the two rounds. */
  function Mid<F(!new)>(s: Spec<F>, cur: seq<F>, mid0: F, rcA: seq<F>, i: nat): F
    requires ValidSpec(s) && |cur| == |rcA| == s.width && i < s.width
  {
    Reduce(s.field, MidInputs(s, cur, mid0, rcA), s.mds[i], s.width)
  }

  /** Word i of the next row, taken back through the inverse matrix. */
  function Back<F(!new)>(s: Spec<F>, next: seq<F>, i: nat): F
    requires ValidSpec(s) && |next| == s.width && i < s.width
  {
    Reduce(s.field, next, s.mdsInv[i], s.width)
  }

  /** The partial-rounds constraints: two S-boxes, then the linear words. */
  ghost predicate PartialGate<F(!new)>(s: Spec<F>, cur: seq<F>, mid0: F, next: seq<F>, rcA: seq<F>, rcB: seq<F>)
    requires ValidSpec(s) && |cur| == |next| == |rcA| == |rcB| == s.width
  {
    var f := s.field;
    && f.Sub(Pow5(f, f.add(cur[0], rcA[0])), mid0) == f.zero
    && f.Sub(Pow5(f, f.add(Mid(s, cur, mid0, rcA, 0), rcB[0])), Back(s, next, 0)) == f.zero
    && forall i :: 1 <= i < s.width ==>
      f.Sub(f.add(Mid(s, cur, mid0, rcA, i), rcB[i]), Back(s, next, i)) == f.zero
  }

  lemma SboxIsPow5<F(!new)>(s: Spec<F>)
    requires ValidConfig(s)
    ensures forall x :: s.sbox(x) == Pow5(s.field, x)
  {
    forall x ensures s.sbox(x) == Pow5(s.field, x) {
      Pow5IsPower(s.field, x);
    }
  }

  /** The gate holds exactly when the next row is the full round of this one. */
  lemma FullGateIsRound<F(!new)>(s: Spec<F>, cur: seq<F>, next: seq<F>, rcA: seq<F>)
    requires ValidConfig(s) && |cur| == |next| == |rcA| == s.width
    ensures FullGate(s, cur, next, rcA) <==> next == FullRound(s, cur, rcA)
  {
    var boxed := SboxAll(s, AddConstants(s, cur, rcA));
    var powers := seq(s.width, k requires 0 <= k < s.width => Pow5(s.field, s.field.add(cur[k], rcA[k])));
    SboxIsPow5(s);
    assert powers == boxed;
    forall i | 0 <= i < s.width ensures FullGateAt(s, cur, next, rcA, i) <==> next[i] == FullRound(s, cur, rcA)[i] {
      ReduceIsDot(s.field, powers, s.mds[i], s.width);
      SubZero(s.field, Reduce(s.field, powers, s.mds[i], s.width), next[i]);
    }
  }

  /** The linear part of the gate: the next row taken back is the S-boxed second round's input. */
  lemma PartialGateGoesBack<F(!new)>(s: Spec<F>, cur: seq<F>, mid0: F, next: seq<F>, rcA: seq<F>, rcB: seq<F>)
    requires ValidConfig(s) && |cur| == |next| == |rcA| == |rcB| == s.width
    ensures PartialGate(s, cur, mid0, next, rcA, rcB)
      <==> mid0 == s.sbox(s.field.add(cur[0], rcA[0]))
           && Mix(s.field, s.mdsInv, next) == SboxFirst(s, AddConstants(s, Mix(s.field, s.mds, MidInputs(s, cur, mid0, rcA)), rcB))
  {
    var f, u := s.field, MidInputs(s, cur, mid0, rcA);
    var v := SboxFirst(s, AddConstants(s, Mix(f, s.mds, u), rcB));
    SboxIsPow5(s);
    SubZero(f, Pow5(f, f.add(cur[0], rcA[0])), mid0);
    forall i | 0 <= i < s.width
      ensures Mid(s, cur, mid0, rcA, i) == Mix(f, s.mds, u)[i] && Back(s, next, i) == Mix(f, s.mdsInv, next)[i]
    {
      ReduceIsDot(f, u, s.mds[i], s.width);
      ReduceIsDot(f, next, s.mdsInv[i], s.width);
    }
    SubZero(f, Pow5(f, f.add(Mid(s, cur, mid0, rcA, 0), rcB[0])), Back(s, next, 0));
    forall i | 1 <= i < s.width
      ensures f.Sub(f.add(Mid(s, cur, mid0, rcA, i), rcB[i]), Back(s, next, i)) == f.zero <==> Mix(f, s.mdsInv, next)[i] == v[i]
    {
      SubZero(f, f.add(Mid(s, cur, mid0, rcA, i), rcB[i]), Back(s, next, i));
    }
  }

  /** The gate holds exactly when the next row is two partial rounds further. */
  lemma PartialGateIsTwoRounds<F(!new)>(s: Spec<F>, cur: seq<F>, mid0: F, next: seq<F>, rcA: seq<F>, rcB: seq<F>)
    requires ValidConfig(s) && |cur| == |next| == |rcA| == |rcB| == s.width
    ensures PartialGate(s, cur, mid0, next, rcA, rcB)
      <==> mid0 == s.sbox(s.field.add(cur[0], rcA[0])) && next == PartialRound(s, PartialRound(s, cur, rcA), rcB)
  {
    PartialGateGoesBack(s, cur, mid0, next, rcA, rcB);
    if mid0 == s.sbox(s.field.add(cur[0], rcA[0])) {
      assert MidInputs(s, cur, mid0, rcA) == SboxFirst(s, AddConstants(s, cur, rcA));
      var v := SboxFirst(s, AddConstants(s, PartialRound(s, cur, rcA), rcB));
      InverseUndoes(s.field, s.mds, s.mdsInv, next);
      InverseUndoes(s.field, s.mdsInv, s.mds, v);
    }
  }

  // ---------------------------------------------------------------------------------
  // The permutation region

  function HalfFull<F(!new)>(s: Spec<F>): nat {
    s.fullRounds / 2
  }

  function HalfPartial<F(!new)>(s: Spec<F>): nat {
    s.partialRounds / 2
  }

  /** The number of gate rows; one more row holds the result. */
  function GateRows<F(!new)>(s: Spec<F>): nat {
    2 * HalfFull(s) + HalfPartial(s)
  }

  predicate IsPartialRow<F(!new)>(s: Spec<F>, offset: nat) {
    HalfFull(s) <= offset < HalfFull(s) + HalfPartial(s)
  }

  /** The first round that the row at this offset performs. */
  function RoundAt<F(!new)>(s: Spec<F>, offset: nat): nat {
    if offset < HalfFull(s) then offset
    else if IsPartialRow(s, offset) then HalfFull(s) + 2 * (offset - HalfFull(s))
    else offset + HalfPartial(s)
  }

  /** The cells of a region: the state rows, and the partial S-box column. */
  datatype Region<F> = Region(states: seq<seq<F>>, partialSbox: seq<F>)

  ghost predicate IsRegion<F(!new)>(s: Spec<F>, region: Region<F>) {
    && |region.states| == GateRows(s) + 1 && |region.partialSbox| == GateRows(s)
    && forall o :: 0 <= o <= GateRows(s) ==> |region.states[o]| == s.width
  }

  /** The gate enabled at a row, with the round constants loaded there. */
  ghost predicate GateRowHolds<F(!new)>(s: Spec<F>, region: Region<F>, o: nat)
    requires ValidConfig(s) && IsRegion(s, region) && o < GateRows(s)
  {
    var cur, next, k := region.states[o], region.states[o + 1], RoundAt(s, o);
    if IsPartialRow(s, o) then PartialGate(s, cur, region.partialSbox[o], next, s.roundConstants[k], s.roundConstants[k + 1])
    else FullGate(s, cur, next, s.roundConstants[k])
  }

  ghost predicate RegionHolds<F(!new)>(s: Spec<F>, region: Region<F>)
    requires ValidConfig(s) && IsRegion(s, region)
  {
    forall o :: 0 <= o < GateRows(s) ==> GateRowHolds(s, region, o)
  }

  /** The native rounds that one row performs. */
  function RowRounds<F(!new)>(s: Spec<F>, x: seq<F>, o: nat): (y: seq<F>)
    requires ValidConfig(s) && |x| == s.width && o < GateRows(s)
    ensures |y| == s.width
  {
    var k := RoundAt(s, o);
    if IsPartialRow(s, o) then PartialRound(s, PartialRound(s, x, s.roundConstants[k]), s.roundConstants[k + 1])
    else FullRound(s, x, s.roundConstants[k])
  }

  /** The partial S-box cell of the row at this state. */
  function SboxCell<F(!new)>(s: Spec<F>, x: seq<F>, o: nat): F
    requires ValidConfig(s) && |x| == s.width && o < GateRows(s)
  {
    s.sbox(s.field.add(x[0], s.roundConstants[RoundAt(s, o)][0]))
  }

  lemma RowHoldsIsRounds<F(!new)>(s: Spec<F>, region: Region<F>, o: nat)
    requires ValidConfig(s) && IsRegion(s, region) && o < GateRows(s)
    ensures GateRowHolds(s, region, o)
      <==> region.states[o + 1] == RowRounds(s, region.states[o], o)
           && (IsPartialRow(s, o) ==> region.partialSbox[o] == SboxCell(s, region.states[o], o))
  {
    var cur, next, k := region.states[o], region.states[o + 1], RoundAt(s, o);
    if IsPartialRow(s, o) {
      PartialGateIsTwoRounds(s, cur, region.partialSbox[o], next, s.roundConstants[k], s.roundConstants[k + 1]);
    } else {
      FullGateIsRound(s, cur, next, s.roundConstants[k]);
    }
  }

  /** A row starts at its first round; a partial row covers two partial rounds, another row one full round. */
  lemma RowOfSchedule<F(!new)>(s: Spec<F>, o: nat)
    requires ValidConfig(s) && o < GateRows(s)
    ensures RoundAt(s, o + 1) == RoundAt(s, o) + (if IsPartialRow(s, o) then 2 else 1) <= RoundCount(s)
    ensures RoundCount(s) == s.fullRounds + s.partialRounds
    ensures IsPartialRow(s, o) <==> s.fullRounds / 2 <= RoundAt(s, o) < s.fullRounds / 2 + s.partialRounds
    ensures IsPartialRow(s, o) ==> RoundAt(s, o) + 1 < s.fullRounds / 2 + s.partialRounds
  {
  }

  /** One row is one or two rounds of the native schedule. */
  lemma RowFollowsSchedule<F(!new)>(s: Spec<F>, x: seq<F>, o: nat)
    requires ValidConfig(s) && |x| == s.width && o < GateRows(s)
    requires RoundAt(s, o + 1) <= |s.roundConstants| && RoundAt(s, o) <= |s.roundConstants|
    ensures RowRounds(s, Rounds(s, x, RoundAt(s, o)), o) == Rounds(s, x, RoundAt(s, o + 1))
  {
    hide Rounds, Round, ValidSpec, FullRound, PartialRound;
    RowOfSchedule(s, o);
    var k := RoundAt(s, o);
    NextRound(s, x, k);
    if IsPartialRow(s, o) {
      NextRound(s, x, k + 1);
    }
  }

  /** A row that satisfies its gate takes the native rounds one row further. */
  lemma RowStep<F(!new)>(s: Spec<F>, region: Region<F>, o: nat)
    requires ValidConfig(s) && IsRegion(s, region) && RegionHolds(s, region) && o < GateRows(s)
    requires RoundAt(s, o) <= RoundCount(s) && region.states[o] == Rounds(s, region.states[0], RoundAt(s, o))
    ensures RoundAt(s, o + 1) <= RoundCount(s) && region.states[o + 1] == Rounds(s, region.states[0], RoundAt(s, o + 1))
  {
    assert GateRowHolds(s, region, o);
    hide Rounds, Round, GateRowHolds, RowRounds, IsPartialRow, RoundAt, ValidConfig;
    RowHoldsIsRounds(s, region, o);
    RowOfSchedule(s, o);
    RowFollowsSchedule(s, region.states[0], o);
  }

  /** Rows that satisfy their gates hold the native rounds of the first row. */
  lemma {:induction false} RowsFollowSchedule<F(!new)>(s: Spec<F>, region: Region<F>, o: nat)
    requires ValidConfig(s) && IsRegion(s, region) && RegionHolds(s, region) && o <= GateRows(s)
    ensures RoundAt(s, o) <= RoundCount(s) && region.states[o] == Rounds(s, region.states[0], RoundAt(s, o))
  {
    hide RegionHolds, RoundCount, Round;
    if o == 0 {
      assert RoundAt(s, 0) == 0;
    } else {
      RowsFollowSchedule(s, region, o - 1);
      RowStep(s, region, o - 1);
    }
  }

  /** Whatever the cells, gates that hold force the last row to be the native permutation of the first. */
  lemma GatesForcePermute<F(!new)>(s: Spec<F>, region: Region<F>)
    requires ValidConfig(s) && IsRegion(s, region) && RegionHolds(s, region)
    ensures region.states[GateRows(s)] == Permute(s, region.states[0])
  {
    RowsFollowSchedule(s, region, GateRows(s));
    assert RoundAt(s, GateRows(s)) == RoundCount(s);
  }

  /** The rows the prover assigns: each from the one before it. */
  function AssignStates<F(!new)>(s: Spec<F>, x: seq<F>, n: nat): (states: seq<seq<F>>)
    requires ValidConfig(s) && |x| == s.width && n <= GateRows(s)
    ensures |states| == n + 1 && states[0] == x && forall o :: 0 <= o <= n ==> |states[o]| == s.width
  {
    if n == 0 then [x]
    else
      var before := AssignStates(s, x, n - 1);
      before + [RowRounds(s, before[n - 1], n - 1)]
  }

  /** Each assigned row is the rounds of its gate away from the row before it. */
  lemma {:induction false} AssignedStep<F(!new)>(s: Spec<F>, x: seq<F>, n: nat, o: nat)
    requires ValidConfig(s) && |x| == s.width && o < n <= GateRows(s)
    ensures AssignStates(s, x, n)[o + 1] == RowRounds(s, AssignStates(s, x, n)[o], o)
  {
    hide RowRounds, ValidConfig;
    if o < n - 1 {
      AssignedStep(s, x, n - 1, o);
    }
  }

  /** The region the prover assigns, partial S-box cells included. */
  function AssignRegion<F(!new)>(s: Spec<F>, x: seq<F>): (region: Region<F>)
    requires ValidConfig(s) && |x| == s.width
    ensures IsRegion(s, region)
  {
    var states := AssignStates(s, x, GateRows(s));
    Region(states, seq(GateRows(s), o requires 0 <= o < GateRows(s) => SboxCell(s, states[o], o)))
  }

  /** The assigned region satisfies its gates, so every state can be permuted in the circuit. */
  lemma AssignedRegionHolds<F(!new)>(s: Spec<F>, x: seq<F>)
    requires ValidConfig(s) && |x| == s.width
    ensures RegionHolds(s, AssignRegion(s, x))
    ensures AssignRegion(s, x).states[0] == x && AssignRegion(s, x).states[GateRows(s)] == Permute(s, x)
  {
    var region := AssignRegion(s, x);
    forall o | 0 <= o < GateRows(s) ensures GateRowHolds(s, region, o) {
      AssignedStep(s, x, GateRows(s), o);
      RowHoldsIsRounds(s, region, o);
    }
    GatesForcePermute(s, region);
  }

  // ---------------------------------------------------------------------------------
  // The hash chip

  /** The cells of one absorbed chunk: the pad-and-add rows, then the permutation region. */
  datatype Block<F> = Block(initial: seq<F>, input: seq<F>, output: seq<F>, region: Region<F>)

  ghost predicate IsBlock<F(!new)>(s: Spec<F>, b: Block<F>) {
    |b.initial| == |b.output| == s.width && |b.input| == s.rate && IsRegion(s, b.region)
  }

  /** The pad-and-add gate: the rate words take in the input, the capacity word is copied. */
  ghost predicate PadAndAddGate<F(!new)>(s: Spec<F>, b: Block<F>)
    requires ValidConfig(s) && IsBlock(s, b)
  {
    && (forall i :: 0 <= i < s.rate ==> s.field.Sub(s.field.add(b.initial[i], b.input[i]), b.output[i]) == s.field.zero)
    && s.field.Sub(b.initial[s.rate], b.output[s.rate]) == s.field.zero
  }

  lemma PadAndAddIsAddInput<F(!new)>(s: Spec<F>, b: Block<F>)
    requires ValidConfig(s) && IsBlock(s, b)
    ensures PadAndAddGate(s, b) <==> b.output == AddInput(s, b.initial, b.input)
  {
    forall i | 0 <= i < s.rate
      ensures s.field.Sub(s.field.add(b.initial[i], b.input[i]), b.output[i]) == s.field.zero
        <==> b.output[i] == AddInput(s, b.initial, b.input)[i]
    {
      SubZero(s.field, s.field.add(b.initial[i], b.input[i]), b.output[i]);
    }
    SubZero(s.field, b.initial[s.rate], b.output[s.rate]);
  }

  /** A block's gates hold, and its cells are copied from the state before it and the chunk. */
  ghost predicate BlockHolds<F(!new)>(s: Spec<F>, b: Block<F>, before: seq<F>, chunk: seq<F>)
    requires ValidConfig(s)
  {
    && IsBlock(s, b)
    && b.initial == before && b.input == chunk && PadAndAddGate(s, b)
    && b.region.states[0] == b.output && RegionHolds(s, b.region)
  }

  /** The state cells after the blocks. */
  function LastState<F(!new)>(s: Spec<F>, blocks: seq<Block<F>>, before: seq<F>): seq<F>
    requires forall i :: 0 <= i < |blocks| ==> |blocks[i].region.states| == GateRows(s) + 1
  {
    if blocks == [] then before else LastState(s, blocks[1..], blocks[0].region.states[GateRows(s)])
  }

  /** The blocks absorb the words chunk by chunk, each from the state cells the one before it ended in. */
  ghost predicate BlocksHold<F(!new)>(s: Spec<F>, blocks: seq<Block<F>>, before: seq<F>, words: seq<F>)
    requires ValidConfig(s)
    decreases |words|
  {
    if |words| < s.rate then blocks == []
    else
      && blocks != [] && BlockHolds(s, blocks[0], before, words[..s.rate])
      && BlocksHold(s, blocks[1..], blocks[0].region.states[GateRows(s)], words[s.rate..])
  }

  lemma BlockForcesAbsorb<F(!new)>(s: Spec<F>, b: Block<F>, before: seq<F>, chunk: seq<F>)
    requires ValidConfig(s) && BlockHolds(s, b, before, chunk)
    ensures b.region.states[GateRows(s)] == Permute(s, AddInput(s, before, chunk))
  {
    PadAndAddIsAddInput(s, b);
    GatesForcePermute(s, b.region);
  }

  lemma {:induction false} BlocksForceAbsorb<F(!new)>(s: Spec<F>, blocks: seq<Block<F>>, before: seq<F>, words: seq<F>)
    requires ValidConfig(s) && |before| == s.width && BlocksHold(s, blocks, before, words)
    ensures forall i :: 0 <= i < |blocks| ==> |blocks[i].region.states| == GateRows(s) + 1
    ensures LastState(s, blocks, before) == AbsorbAll(s, before, words)
    decreases |words|
  {
    if |words| >= s.rate {
      BlockForcesAbsorb(s, blocks[0], before, words[..s.rate]);
      BlocksForceAbsorb(s, blocks[1..], blocks[0].region.states[GateRows(s)], words[s.rate..]);
      assert forall i :: 1 <= i < |blocks| ==> blocks[i] == blocks[1..][i - 1];
    }
  }

  /** The cells of one hash: initial state from constants, message words and fixed padding absorbed. */
  ghost predicate HashHolds<F(!new)>(s: Spec<F>, blocks: seq<Block<F>>, message: seq<F>, digest: F)
    requires ValidConfig(s)
  {
    && BlocksHold(s, blocks, InitialState(s, InitialCapacity(s, |message|)), Padded(s, message))
    && (forall i :: 0 <= i < |blocks| ==> IsRegion(s, blocks[i].region))
    && |LastState(s, blocks, InitialState(s, InitialCapacity(s, |message|)))| == s.width
    && digest == LastState(s, blocks, InitialState(s, InitialCapacity(s, |message|)))[0]
  }

  /** Cells that satisfy the hash chip hold the native hash, for every message length. */
  lemma ChipForcesHash<F(!new)>(s: Spec<F>, blocks: seq<Block<F>>, message: seq<F>, digest: F)
    requires ValidConfig(s) && HashHolds(s, blocks, message, digest)
    ensures digest == HashOf(s, message)
  {
    BlocksForceAbsorb(s, blocks, InitialState(s, InitialCapacity(s, |message|)), Padded(s, message));
  }

  function AssignBlock<F(!new)>(s: Spec<F>, before: seq<F>, chunk: seq<F>): (b: Block<F>)
    requires ValidConfig(s) && |before| == s.width && |chunk| == s.rate
  {
    var output := AddInput(s, before, chunk);
    Block(before, chunk, output, AssignRegion(s, output))
  }

  lemma AssignedBlockHolds<F(!new)>(s: Spec<F>, before: seq<F>, chunk: seq<F>)
    requires ValidConfig(s) && |before| == s.width && |chunk| == s.rate
    ensures BlockHolds(s, AssignBlock(s, before, chunk), before, chunk)
    ensures AssignBlock(s, before, chunk).region.states[GateRows(s)] == Permute(s, AddInput(s, before, chunk))
  {
    AssignedRegionHolds(s, AddInput(s, before, chunk));
    PadAndAddIsAddInput(s, AssignBlock(s, before, chunk));
  }

  function AssignBlocks<F(!new)>(s: Spec<F>, before: seq<F>, words: seq<F>): (blocks: seq<Block<F>>)
    requires ValidConfig(s) && |before| == s.width
    decreases |words|
  {
    if |words| < s.rate then []
    else
      var b := AssignBlock(s, before, words[..s.rate]);
      [b] + AssignBlocks(s, b.region.states[GateRows(s)], words[s.rate..])
  }

  lemma {:induction false} AssignedBlocksHold<F(!new)>(s: Spec<F>, before: seq<F>, words: seq<F>)
    requires ValidConfig(s) && |before| == s.width
    ensures BlocksHold(s, AssignBlocks(s, before, words), before, words)
    ensures forall i :: 0 <= i < |AssignBlocks(s, before, words)| ==> IsRegion(s, AssignBlocks(s, before, words)[i].region)
    decreases |words|
  {
    if |words| >= s.rate {
      var b := AssignBlock(s, before, words[..s.rate]);
      AssignedBlockHolds(s, before, words[..s.rate]);
      AssignedBlocksHold(s, b.region.states[GateRows(s)], words[s.rate..]);
      assert AssignBlocks(s, before, words)[1..] == AssignBlocks(s, b.region.states[GateRows(s)], words[s.rate..]);
    }
  }

  /** Every message has cells that satisfy the chip, and they end in its hash. */
  lemma ChipComputesHash<F(!new)>(s: Spec<F>, message: seq<F>)
    requires ValidConfig(s)
    ensures HashHolds(s, AssignBlocks(s, InitialState(s, InitialCapacity(s, |message|)), Padded(s, message)), message, HashOf(s, message))
  {
    var start, words := InitialState(s, InitialCapacity(s, |message|)), Padded(s, message);
    AssignedBlocksHold(s, start, words);
    BlocksForceAbsorb(s, AssignBlocks(s, start, words), start, words);
  }
}
