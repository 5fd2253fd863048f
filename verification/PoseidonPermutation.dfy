/** The Poseidon permutation: full rounds, partial rounds, full rounds, each ending in a matrix product. */
module PoseidonPermutation {
  import opened Fields
  import opened Matrices

  /** The parameters of a hash: width T, S-box, round constants, MDS matrix and its inverse. */
  datatype Spec<!F(!new)> = Spec(
    field: Field<F>, width: nat, rate: nat, fullRounds: nat, partialRounds: nat, sbox: F -> F,
    roundConstants: seq<seq<F>>, mds: Matrix<F>, mdsInv: Matrix<F>)

  ghost predicate ValidSpec<F(!new)>(s: Spec<F>) {
    && 1 <= s.rate < s.width
    && IsSquare(s.mds, s.width) && IsSquare(s.mdsInv, s.width)
    && forall i :: 0 <= i < |s.roundConstants| ==> |s.roundConstants[i]| == s.width
  }

  // ---------------------------------------------------------------------------------
  // Rounds

  function AddConstants<F(!new)>(s: Spec<F>, x: seq<F>, rcs: seq<F>): (y: seq<F>)
    requires |rcs| == |x|
    ensures |y| == |x|
  {
    seq(|x|, i requires 0 <= i < |x| => s.field.add(x[i], rcs[i]))
  }

  function SboxAll<F(!new)>(s: Spec<F>, x: seq<F>): (y: seq<F>)
    ensures |y| == |x|
  {
    seq(|x|, i requires 0 <= i < |x| => s.sbox(x[i]))
  }

  function SboxFirst<F(!new)>(s: Spec<F>, x: seq<F>): (y: seq<F>)
    requires x != []
    ensures |y| == |x|
  {
    x[0 := s.sbox(x[0])]
  }

  function FullRound<F(!new)>(s: Spec<F>, x: seq<F>, rcs: seq<F>): (y: seq<F>)
    requires ValidSpec(s) && |x| == |rcs| == s.width
    ensures |y| == s.width
  {
    Mix(s.field, s.mds, SboxAll(s, AddConstants(s, x, rcs)))
  }

  function PartialRound<F(!new)>(s: Spec<F>, x: seq<F>, rcs: seq<F>): (y: seq<F>)
    requires ValidSpec(s) && |x| == |rcs| == s.width
    ensures |y| == s.width
  {
    Mix(s.field, s.mds, SboxFirst(s, AddConstants(s, x, rcs)))
  }

  /** The round that uses constant k: the middle partialRounds rounds are partial. */
  function Round<F(!new)>(s: Spec<F>, x: seq<F>, k: nat): (y: seq<F>)
    requires ValidSpec(s) && |x| == s.width && k < |s.roundConstants|
    ensures |y| == s.width
  {
    if s.fullRounds / 2 <= k < s.fullRounds / 2 + s.partialRounds then PartialRound(s, x, s.roundConstants[k])
    else FullRound(s, x, s.roundConstants[k])
  }

  /** The state after the first n rounds. */
  function Rounds<F(!new)>(s: Spec<F>, x: seq<F>, n: nat): (y: seq<F>)
    requires ValidSpec(s) && |x| == s.width && n <= |s.roundConstants|
    ensures |y| == s.width
  {
    if n == 0 then x else Round(s, Rounds(s, x, n - 1), n - 1)
  }

  function Min(a: nat, b: nat): nat {
    if a <= b then a else b
  }

  /** Every constant of the schedule drives one round; missing constants drop theirs. */
  function RoundCount<F(!new)>(s: Spec<F>): nat {
    Min(s.partialRounds + 2 * (s.fullRounds / 2), |s.roundConstants|)
  }

  function Permute<F(!new)>(s: Spec<F>, x: seq<F>): (y: seq<F>)
    requires ValidSpec(s) && |x| == s.width
    ensures |y| == s.width
  {
    Rounds(s, x, RoundCount(s))
  }

  // ---------------------------------------------------------------------------------
  // In place

  /** Adds up one row of the product, term by term, into its slot. */
  method AddUpRow<F(!new)>(s: Spec<F>, state: array<F>, newState: array<F>, i: nat)
    requires ValidSpec(s) && state.Length == newState.Length == s.width && i < s.width && state != newState
    requires newState[i] == s.field.zero
    modifies newState
    ensures newState[..] == old(newState[..])[i := Dot(s.field, s.mds[i], state[..], s.width)]
  {
    for j := 0 to s.width
      invariant newState[..] == old(newState[..])[i := Dot(s.field, s.mds[i], state[..], j)]
    {
      newState[i] := s.field.add(newState[i], s.field.mul(s.mds[i][j], state[j]));
    }
  }

  /** Replaces the state by its product with the MDS matrix. */
  method MixLayer<F(!new)>(s: Spec<F>, state: array<F>)
    requires ValidSpec(s) && state.Length == s.width
    modifies state
    ensures state[..] == Mix(s.field, s.mds, old(state[..]))
  {
    ghost var mixed := Mix(s.field, s.mds, state[..]);
    var newState := new F[s.width](_ => s.field.zero);
    for i := 0 to s.width
      modifies newState
      invariant newState[..i] == mixed[..i]
      invariant forall k :: i <= k < s.width ==> newState[k] == s.field.zero
    {
      AddUpRow(s, state, newState, i);
      assert state[..] == old(state[..]);
      assert newState[..][i] == mixed[i];
    }
    forall i | 0 <= i < s.width {
      state[i] := newState[i];
    }
    assert state[..] == mixed;
  }

  method AddConstantsInPlace<F(!new)>(s: Spec<F>, state: array<F>, rcs: seq<F>)
    requires |rcs| == state.Length
    modifies state
    ensures state[..] == AddConstants(s, old(state[..]), rcs)
  {
    for i := 0 to state.Length
      invariant forall k :: 0 <= k < i ==> state[k] == s.field.add(old(state[k]), rcs[k])
      invariant forall k :: i <= k < state.Length ==> state[k] == old(state[k])
    {
      state[i] := s.field.add(state[i], rcs[i]);
    }
  }

  method SboxInPlace<F(!new)>(s: Spec<F>, state: array<F>)
    modifies state
    ensures state[..] == SboxAll(s, old(state[..]))
  {
    for i := 0 to state.Length
      invariant forall k :: 0 <= k < i ==> state[k] == s.sbox(old(state[k]))
      invariant forall k :: i <= k < state.Length ==> state[k] == old(state[k])
    {
      state[i] := s.sbox(state[i]);
    }
  }

  method FullRoundInPlace<F(!new)>(s: Spec<F>, state: array<F>, rcs: seq<F>)
    requires ValidSpec(s) && state.Length == |rcs| == s.width
    modifies state
    ensures state[..] == FullRound(s, old(state[..]), rcs)
  {
    AddConstantsInPlace(s, state, rcs);
    SboxInPlace(s, state);
    MixLayer(s, state);
  }

  method PartialRoundInPlace<F(!new)>(s: Spec<F>, state: array<F>, rcs: seq<F>)
    requires ValidSpec(s) && state.Length == |rcs| == s.width
    modifies state
    ensures state[..] == PartialRound(s, old(state[..]), rcs)
  {
    AddConstantsInPlace(s, state, rcs);
    state[0] := s.sbox(state[0]);
    assert state[..] == SboxFirst(s, AddConstants(s, old(state[..]), rcs));
    MixLayer(s, state);
  }

  lemma NextRound<F(!new)>(s: Spec<F>, x: seq<F>, k: nat)
    requires ValidSpec(s) && |x| == s.width && k < |s.roundConstants|
    ensures Rounds(s, x, k + 1)
      == if s.fullRounds / 2 <= k < s.fullRounds / 2 + s.partialRounds then PartialRound(s, Rounds(s, x, k), s.roundConstants[k])
         else FullRound(s, Rounds(s, x, k), s.roundConstants[k])
  {
  }

  /** Full rounds with the constants from lo up to hi. */
  method FullRoundsInPlace<F(!new)>(s: Spec<F>, state: array<F>, lo: nat, hi: nat, ghost start: seq<F>)
    requires ValidSpec(s) && state.Length == |start| == s.width && lo <= hi <= |s.roundConstants|
    requires lo < hi ==> hi <= s.fullRounds / 2 || s.fullRounds / 2 + s.partialRounds <= lo
    requires state[..] == Rounds(s, start, lo)
    modifies state
    ensures state[..] == Rounds(s, start, hi)
  {
    hide Rounds, Round, FullRound, PartialRound;
    for i := lo to hi
      invariant state[..] == Rounds(s, start, i)
    {
      NextRound(s, start, i);
      FullRoundInPlace(s, state, s.roundConstants[i]);
    }
  }

  /** Partial rounds with the constants from lo up to hi. */
  method PartialRoundsInPlace<F(!new)>(s: Spec<F>, state: array<F>, lo: nat, hi: nat, ghost start: seq<F>)
    requires ValidSpec(s) && state.Length == |start| == s.width && lo <= hi <= |s.roundConstants|
    requires lo < hi ==> s.fullRounds / 2 <= lo && hi <= s.fullRounds / 2 + s.partialRounds
    requires state[..] == Rounds(s, start, lo)
    modifies state
    ensures state[..] == Rounds(s, start, hi)
  {
    hide Rounds, Round, FullRound, PartialRound;
    for i := lo to hi
      invariant state[..] == Rounds(s, start, i)
    {
      NextRound(s, start, i);
      PartialRoundInPlace(s, state, s.roundConstants[i]);
    }
  }

  lemma NoRounds<F(!new)>(s: Spec<F>, x: seq<F>)
    requires ValidSpec(s) && |x| == s.width
    ensures Rounds(s, x, 0) == x
  {
  }

  /** The three round loops over the list of constants; taking past its end takes what there is. */
  method PermuteInPlace<F(!new)>(s: Spec<F>, state: array<F>)
    requires ValidSpec(s) && state.Length == s.width
    modifies state
    ensures state[..] == Permute(s, old(state[..]))
  {
    hide Rounds, ValidSpec;
    NoRounds(s, state[..]);
    var rF, rP, count := s.fullRounds / 2, s.partialRounds, |s.roundConstants|;
    FullRoundsInPlace(s, state, 0, Min(rF, count), old(state[..]));
    PartialRoundsInPlace(s, state, Min(rF, count), Min(rF + rP, count), old(state[..]));
    FullRoundsInPlace(s, state, Min(rF + rP, count), Min(rP + 2 * rF, count), old(state[..]));
  }

  // ---------------------------------------------------------------------------------
  // The permutation is injective

  ghost predicate IsInjective<F(!new)>(g: F -> F) {
    forall x, y :: g(x) == g(y) ==> x == y
  }

  lemma ConstantsCancel<F(!new)>(s: Spec<F>, x: seq<F>, y: seq<F>, rcs: seq<F>)
    requires IsDomain(s.field) && |x| == |y| == |rcs| && AddConstants(s, x, rcs) == AddConstants(s, y, rcs)
    ensures x == y
  {
    forall i | 0 <= i < |x| ensures x[i] == y[i] {
      assert AddConstants(s, x, rcs)[i] == AddConstants(s, y, rcs)[i];
      assert Obeys(s.field, AddComm(x[i], rcs[i])) && Obeys(s.field, AddComm(y[i], rcs[i]));
      AddCancels(s.field, rcs[i], x[i], y[i]);
    }
  }

  lemma SboxesCancel<F(!new)>(s: Spec<F>, x: seq<F>, y: seq<F>)
    requires IsInjective(s.sbox) && |x| == |y| && x != []
    ensures SboxAll(s, x) == SboxAll(s, y) || SboxFirst(s, x) == SboxFirst(s, y) ==> x == y
  {
    if SboxAll(s, x) == SboxAll(s, y) {
      forall i | 0 <= i < |x| ensures x[i] == y[i] {
        assert SboxAll(s, x)[i] == SboxAll(s, y)[i];
      }
    } else if SboxFirst(s, x) == SboxFirst(s, y) {
      forall i | 0 <= i < |x| ensures x[i] == y[i] {
        assert SboxFirst(s, x)[i] == SboxFirst(s, y)[i];
      }
    }
  }

  lemma RoundIsInjective<F(!new)>(s: Spec<F>, x: seq<F>, y: seq<F>, k: nat)
    requires IsDomain(s.field) && ValidSpec(s) && IsLeftInverse(s.field, s.mdsInv, s.mds, s.width) && IsInjective(s.sbox)
    requires |x| == |y| == s.width && k < |s.roundConstants| && Round(s, x, k) == Round(s, y, k)
    ensures x == y
  {
    var rcs := s.roundConstants[k];
    var u, v := AddConstants(s, x, rcs), AddConstants(s, y, rcs);
    if s.fullRounds / 2 <= k < s.fullRounds / 2 + s.partialRounds {
      InverseUndoes(s.field, s.mdsInv, s.mds, SboxFirst(s, u));
      InverseUndoes(s.field, s.mdsInv, s.mds, SboxFirst(s, v));
    } else {
      InverseUndoes(s.field, s.mdsInv, s.mds, SboxAll(s, u));
      InverseUndoes(s.field, s.mdsInv, s.mds, SboxAll(s, v));
    }
    SboxesCancel(s, u, v);
    ConstantsCancel(s, x, y, rcs);
  }

  lemma {:induction false} RoundsAreInjective<F(!new)>(s: Spec<F>, x: seq<F>, y: seq<F>, n: nat)
    requires IsDomain(s.field) && ValidSpec(s) && IsLeftInverse(s.field, s.mdsInv, s.mds, s.width) && IsInjective(s.sbox)
    requires |x| == |y| == s.width && n <= |s.roundConstants| && Rounds(s, x, n) == Rounds(s, y, n)
    ensures x == y
  {
    hide Round, ValidSpec, IsLeftInverse, IsInjective, IsDomain;
    if n > 0 {
      RoundIsInjective(s, Rounds(s, x, n - 1), Rounds(s, y, n - 1), n - 1);
      RoundsAreInjective(s, x, y, n - 1);
    }
  }

  /** With an invertible matrix and an injective S-box no two states permute to the same one. */
  lemma PermuteIsInjective<F(!new)>(s: Spec<F>, x: seq<F>, y: seq<F>)
    requires IsDomain(s.field) && ValidSpec(s) && IsLeftInverse(s.field, s.mdsInv, s.mds, s.width) && IsInjective(s.sbox)
    requires |x| == |y| == s.width
    ensures Permute(s, x) == Permute(s, y) <==> x == y
  {
    if Permute(s, x) == Permute(s, y) {
      RoundsAreInjective(s, x, y, RoundCount(s));
    }
  }
}
