/** The Poseidon sponge and the fixed-length hash built on it. */
module PoseidonSponge {
  import opened Powers
  import opened Records
  import opened PoseidonPermutation

  // ---------------------------------------------------------------------------------
  // What a sponge computes

  /** The words of the rate part take in the chunk; the capacity part is not touched. */
  function AddInput<F(!new)>(s: Spec<F>, state: seq<F>, chunk: seq<F>): (y: seq<F>)
    requires |chunk| <= |state|
    ensures |y| == |state|
  {
    seq(|state|, i requires 0 <= i < |state| => if i < |chunk| then s.field.add(state[i], chunk[i]) else state[i])
  }

  /** Folds the words chunk by chunk: add to the rate words, then permute. */
  function AbsorbAll<F(!new)>(s: Spec<F>, state: seq<F>, words: seq<F>): (y: seq<F>)
    requires ValidSpec(s) && |state| == s.width
    ensures |y| == s.width
    decreases |words|
  {
    if |words| < s.rate then state
    else AbsorbAll(s, Permute(s, AddInput(s, state, words[..s.rate])), words[s.rate..])
  }

  function PermuteTimes<F(!new)>(s: Spec<F>, state: seq<F>, n: nat): (y: seq<F>)
    requires ValidSpec(s) && |state| == s.width
    ensures |y| == s.width
  {
    if n == 0 then state else Permute(s, PermuteTimes(s, state, n - 1))
  }

  /** All zeros but the capacity word. */
  function InitialState<F(!new)>(s: Spec<F>, capacity: F): (state: seq<F>)
    requires ValidSpec(s)
    ensures |state| == s.width
  {
    seq(s.width, i requires 0 <= i < s.width => if i == s.rate then capacity else s.field.zero)
  }

  /** Absorbing one more chunk at the end is one more permutation. */
  lemma {:induction false} AbsorbOneMore<F(!new)>(s: Spec<F>, state: seq<F>, words: seq<F>, chunk: seq<F>, blocks: nat)
    requires ValidSpec(s) && |state| == s.width && |words| == blocks * s.rate && |chunk| == s.rate
    ensures AbsorbAll(s, state, words + chunk) == Permute(s, AddInput(s, AbsorbAll(s, state, words), chunk))
    decreases blocks
  {
    if blocks == 0 {
      assert words + chunk == chunk && chunk[..s.rate] == chunk && chunk[s.rate..] == [];
    } else {
      OneBlockLess(blocks, s.rate);
      assert (words + chunk)[..s.rate] == words[..s.rate];
      assert (words + chunk)[s.rate..] == words[s.rate..] + chunk;
      AbsorbOneMore(s, Permute(s, AddInput(s, state, words[..s.rate])), words[s.rate..], chunk, blocks - 1);
    }
  }

  lemma OneBlockLess(blocks: nat, rate: nat)
    requires blocks >= 1
    ensures (blocks - 1) * rate == blocks * rate - rate >= 0
  {
  }

  // ---------------------------------------------------------------------------------
  // Slots

  /** The words in full slots. */
  function Words<F>(slots: seq<Option<F>>): (words: seq<F>)
    requires forall i :: 0 <= i < |slots| ==> slots[i].Some?
    ensures |words| == |slots|
  {
    seq(|slots|, i requires 0 <= i < |slots| => slots[i].value)
  }

  /** The first slots hold the pending words, the others are empty. */
  ghost predicate Waiting<F(!new)>(slots: seq<Option<F>>, rate: nat, pending: seq<F>) {
    && |slots| == rate && |pending| <= rate
    && (forall i :: 0 <= i < |pending| ==> slots[i] == Some(pending[i]))
    && forall i :: |pending| <= i < rate ==> slots[i] == None
  }

  /** The first slots have been taken, the others still hold their words of the state. */
  ghost predicate Left<F(!new)>(slots: seq<Option<F>>, rate: nat, state: seq<F>, taken: nat)
    requires rate <= |state|
  {
    && |slots| == rate && taken <= rate
    && (forall i :: 0 <= i < taken ==> slots[i] == None)
    && forall i :: taken <= i < rate ==> slots[i] == Some(state[i])
  }

  method FirstEmpty<F>(slots: seq<Option<F>>) returns (i: nat)
    ensures i <= |slots| && forall k :: 0 <= k < i ==> slots[k].Some?
    ensures i < |slots| ==> slots[i].None?
  {
    i := 0;
    while i < |slots| && slots[i].Some?
      invariant i <= |slots| && forall k :: 0 <= k < i ==> slots[k].Some?
    {
      i := i + 1;
    }
  }

  method FirstFilled<F>(slots: seq<Option<F>>) returns (i: nat)
    ensures i <= |slots| && forall k :: 0 <= k < i ==> slots[k].None?
    ensures i < |slots| ==> slots[i].Some?
  {
    i := 0;
    while i < |slots| && slots[i].None?
      invariant i <= |slots| && forall k :: 0 <= k < i ==> slots[k].None?
    {
      i := i + 1;
    }
  }

  /** The first empty slot comes after the waiting words; without one they make a whole chunk. */
  lemma WaitingWords<F(!new)>(slots: seq<Option<F>>, rate: nat, pending: seq<F>, i: nat)
    requires Waiting(slots, rate, pending) && i <= rate
    requires forall k :: 0 <= k < i ==> slots[k].Some?
    requires i < rate ==> slots[i].None?
    ensures i == |pending|
    ensures i == rate ==> Words(slots) == pending
    ensures i < rate ==> forall x :: Waiting(slots[i := Some(x)], rate, pending + [x])
  {
    assert |pending| < rate ==> slots[|pending|] == None;
  }

  /** The first filled slot comes after the taken ones. */
  lemma LeftWords<F(!new)>(slots: seq<Option<F>>, rate: nat, state: seq<F>, taken: nat, i: nat)
    requires rate <= |state| && Left(slots, rate, state, taken) && i <= rate
    requires forall k :: 0 <= k < i ==> slots[k].None?
    requires i < rate ==> slots[i].Some?
    ensures i == taken
    ensures i < rate ==> slots[i] == Some(state[i]) && Left(slots[i := None], rate, state, taken + 1)
  {
    assert taken < rate ==> slots[taken] == Some(state[taken]);
  }

  // ---------------------------------------------------------------------------------
  // The sponge

  datatype Mode<F> = Absorbing(slots: seq<Option<F>>) | Squeezing(slots: seq<Option<F>>)

  /** Adds a full chunk, if there is one, to the rate words. */
  method AddInPlace<F(!new)>(s: Spec<F>, state: array<F>, words: seq<F>)
    requires |words| <= state.Length
    modifies state
    ensures state[..] == AddInput(s, old(state[..]), words)
  {
    for i := 0 to |words|
      invariant forall k :: 0 <= k < i ==> state[k] == s.field.add(old(state[k]), words[k])
      invariant forall k :: i <= k < state.Length ==> state[k] == old(state[k])
    {
      state[i] := s.field.add(state[i], words[i]);
    }
  }

  /** One sponge step: add the input, permute, and offer the rate words as output. */
  method SpongeStep<F(!new)>(s: Spec<F>, state: array<F>, input: Option<seq<Option<F>>>) returns (output: seq<Option<F>>)
    requires ValidSpec(s) && state.Length == s.width
    requires input.Some? ==> |input.value| == s.rate && forall i :: 0 <= i < s.rate ==> input.value[i].Some?
    modifies state
    ensures input.None? ==> state[..] == Permute(s, old(state[..]))
    ensures input.Some? ==> state[..] == Permute(s, AddInput(s, old(state[..]), Words(input.value)))
    ensures Left(output, s.rate, state[..], 0)
  {
    if input.Some? {
      AddInPlace(s, state, Words(input.value));
    }
    PermuteInPlace(s, state);
    ghost var words := state[..];
    output := [];
    for i := 0 to s.rate
      invariant |output| == i && forall k :: 0 <= k < i ==> output[k] == Some(words[k])
    {
      output := output + [Some(state[i])];
    }
  }

  class Sponge<F(!new)> {
    const s: Spec<F>
    const state: array<F>
    var mode: Mode<F>
    /** The state the sponge started from. */
    ghost const start: seq<F>
    /** The absorbed words: whole chunks already permuted in, and the words waiting in the slots. */
    ghost var chunked: seq<F>
    ghost var chunks: nat
    ghost var pending: seq<F>
    /** The state when absorbing finished, the permutations since, and the slots taken of the last one. */
    ghost var finished: seq<F>
    ghost var permutations: nat
    ghost var taken: nat

    ghost predicate Valid()
      reads this, state
    {
      && ValidSpec(s) && state.Length == |start| == s.width
      && (mode.Absorbing? ==> IsAbsorbing()) && (mode.Squeezing? ==> IsSqueezing())
    }

    ghost predicate IsAbsorbing()
      requires ValidSpec(s) && state.Length == |start| == s.width
      reads this, state
    {
      && |chunked| == chunks * s.rate && (pending == [] ==> chunked == [])
      && Waiting(mode.slots, s.rate, pending)
      && state[..] == AbsorbAll(s, start, chunked)
    }

    ghost predicate IsSqueezing()
      requires ValidSpec(s) && state.Length == |start| == s.width
      reads this, state
    {
      && |finished| == s.width && state[..] == PermuteTimes(s, finished, permutations)
      && Left(mode.slots, s.rate, state[..], taken)
    }

    /** Everything absorbed so far. */
    ghost function Absorbed(): seq<F>
      reads this
    {
      chunked + pending
    }

    /** How many words were squeezed so far. */
    ghost function Squeezed(): nat
      reads this
    {
      permutations * s.rate + taken
    }

    constructor (s: Spec<F>, capacity: F)
      requires ValidSpec(s)
      ensures Valid() && mode.Absorbing? && Absorbed() == [] && fresh(state)
      ensures this.s == s && start == InitialState(s, capacity)
    {
      this.s := s;
      mode := Absorbing(seq(s.rate, _ => None));
      state := new F[s.width](_ => s.field.zero);
      start := InitialState(s, capacity);
      chunked, chunks, pending := [], 0, [];
      new;
      state[s.rate] := capacity;
      assert state[..] == start;
    }

    /** Absorbs one word; when all slots are taken, their chunk is permuted in first. */
    method Absorb(value: F)
      requires Valid() && mode.Absorbing?
      modifies this, state
      ensures Valid() && mode.Absorbing? && pending != []
      ensures Absorbed() == old(Absorbed()) + [value]
    {
      hide Permute, AddInput;
      var i := FirstEmpty(mode.slots);
      WaitingWords(mode.slots, s.rate, pending, i);
      if i < |mode.slots| {
        mode := Absorbing(mode.slots[i := Some(value)]);
        pending := pending + [value];
      } else {
        AbsorbOneMore(s, start, chunked, pending, chunks);
        OneBlockLess(chunks + 1, s.rate);
        var _ := SpongeStep(s, state, Some(mode.slots));
        mode := Absorbing([Some(value)] + seq(s.rate - 1, _ => None));
        chunked, chunks, pending := chunked + pending, chunks + 1, [value];
      }
    }

    /** Permutes the last chunk in and turns to squeezing. */
    method FinishAbsorbing()
      requires Valid() && mode.Absorbing? && |pending| == s.rate
      modifies this, state
      ensures Valid() && mode.Squeezing? && Squeezed() == 0
      ensures finished == AbsorbAll(s, start, old(Absorbed()))
    {
      AbsorbOneMore(s, start, chunked, pending, chunks);
      assert Words(mode.slots) == pending;
      var output := SpongeStep(s, state, Some(mode.slots));
      mode := Squeezing(output);
      finished, permutations, taken := state[..], 0, 0;
    }

    /** When all words have been squeezed, another permutation offers the next ones. */
    method Refill()
      requires Valid() && mode.Squeezing? && taken == s.rate
      modifies this, state
      ensures Valid() && mode.Squeezing? && taken == 0
      ensures finished == old(finished) && Squeezed() == old(Squeezed())
    {
      var output := SpongeStep(s, state, None);
      mode := Squeezing(output);
      OneBlockLess(permutations + 1, s.rate);
      permutations, taken := permutations + 1, 0;
    }

    /** Takes the word out of the first filled slot. */
    method Take(i: nat) returns (word: F)
      requires Valid() && mode.Squeezing? && i == taken < s.rate
      modifies this
      ensures Valid() && mode.Squeezing? && finished == old(finished) && Squeezed() == old(Squeezed()) + 1
      ensures word == SqueezedWord(s, finished, old(Squeezed()))
    {
      QuotientIsUnique(permutations, taken, s.rate);
      word := mode.slots[i].value;
      mode := Squeezing(mode.slots[i := None]);
      taken := taken + 1;
    }

    /** The n-th squeezed word is word n mod rate after n div rate more permutations. */
    method Squeeze() returns (word: F)
      requires Valid() && mode.Squeezing?
      modifies this, state
      ensures Valid() && mode.Squeezing? && finished == old(finished) && Squeezed() == old(Squeezed()) + 1
      ensures word == SqueezedWord(s, finished, old(Squeezed()))
    {
      var i := FirstFilled(mode.slots);
      LeftWords(mode.slots, s.rate, state[..], taken, i);
      while i == s.rate
        invariant Valid() && mode.Squeezing? && i == taken
        invariant finished == old(finished) && Squeezed() == old(Squeezed())
        decreases i
      {
        Refill();
        i := FirstFilled(mode.slots);
        LeftWords(mode.slots, s.rate, state[..], taken, i);
      }
      word := Take(i);
    }
  }

  function SqueezedWord<F(!new)>(s: Spec<F>, finished: seq<F>, n: nat): F
    requires ValidSpec(s) && |finished| == s.width
  {
    PermuteTimes(s, finished, n / s.rate)[n % s.rate]
  }

  lemma QuotientIsUnique(q: nat, r: nat, rate: nat)
    requires r < rate
    ensures (q * rate + r) / rate == q && (q * rate + r) % rate == r
  {
    DivisionIsUnique(q * rate + r, rate, q, r);
  }

  /** Each permutation offers the rate words, first to last. */
  lemma SqueezedInOrder<F(!new)>(s: Spec<F>, finished: seq<F>, permutations: nat, i: nat)
    requires ValidSpec(s) && |finished| == s.width && i < s.rate
    ensures SqueezedWord(s, finished, permutations * s.rate + i) == PermuteTimes(s, finished, permutations)[i]
  {
    QuotientIsUnique(permutations, i, s.rate);
  }

  // ---------------------------------------------------------------------------------
  // The fixed-length hash

  /** The length in the upper 64 bits. */
  function InitialCapacity<F(!new)>(s: Spec<F>, length: nat): F {
    s.field.FromNat(length * 0x1_0000_0000_0000_0000)
  }

  /** The least number of chunks that hold the words. */
  function ChunkCount(length: nat, rate: nat): nat
    requires rate >= 1
  {
    (length + rate - 1) / rate
  }

  lemma ChunkCountHolds(length: nat, rate: nat)
    requires rate >= 1
    ensures ChunkCount(length, rate) * rate - rate < length <= ChunkCount(length, rate) * rate
  {
    var k := ChunkCount(length, rate);
    assert length + rate - 1 == k * rate + (length + rate - 1) % rate;
  }

  /** The message, filled up with zeros to whole chunks. */
  function Padded<F(!new)>(s: Spec<F>, message: seq<F>): seq<F>
    requires ValidSpec(s)
  {
    ChunkCountHolds(|message|, s.rate);
    message + seq(ChunkCount(|message|, s.rate) * s.rate - |message|, _ => s.field.zero)
  }

  /** What the hash means: absorb the padded message from the initial state and take word 0. */
  function HashOf<F(!new)>(s: Spec<F>, message: seq<F>): F
    requires ValidSpec(s)
  {
    AbsorbAll(s, InitialState(s, InitialCapacity(s, |message|)), Padded(s, message))[0]
  }

  // ---------------------------------------------------------------------------------
  // The hash without padding and chunks

  /** Word i of the message; zero after its end. */
  function WordAt<F(!new)>(s: Spec<F>, message: seq<F>, i: nat): F {
    if i < |message| then message[i] else s.field.zero
  }

  /** The rate words take in the words from n on. */
  function TakeIn<F(!new)>(s: Spec<F>, message: seq<F>, before: seq<F>, n: nat): (state: seq<F>)
    requires ValidSpec(s) && |before| == s.width
    ensures |state| == s.width
  {
    seq(s.width, i requires 0 <= i < s.width =>
      if i < s.rate then s.field.add(before[i], WordAt(s, message, n + i)) else before[i])
  }

  /** The state after k permutations: each takes in the next `rate` words, the first starts from 2^64 times the length. */
  function AfterChunks<F(!new)>(s: Spec<F>, message: seq<F>, k: nat): (state: seq<F>)
    requires ValidSpec(s)
    ensures |state| == s.width
  {
    if k == 0 then
      seq(s.width, i requires 0 <= i < s.width =>
        if i == s.rate then s.field.FromNat(|message| * 18446744073709551616) else s.field.zero)
    else Permute(s, TakeIn(s, message, AfterChunks(s, message, k - 1), (k - 1) * s.rate))
  }

  lemma ChunkTakenIn<F(!new)>(s: Spec<F>, message: seq<F>, before: seq<F>, n: nat)
    requires ValidSpec(s) && |before| == s.width && n + s.rate <= |Padded(s, message)|
    ensures AddInput(s, before, Padded(s, message)[n..n + s.rate]) == TakeIn(s, message, before, n)
  {
  }

  lemma StartsAtCapacity<F(!new)>(s: Spec<F>, message: seq<F>)
    requires ValidSpec(s)
    ensures AbsorbAll(s, InitialState(s, InitialCapacity(s, |message|)), []) == AfterChunks(s, message, 0)
  {
  }

  lemma {:induction false} ChunksAbsorbed<F(!new)>(s: Spec<F>, message: seq<F>, k: nat)
    requires ValidSpec(s) && k * s.rate <= |Padded(s, message)|
    ensures AbsorbAll(s, InitialState(s, InitialCapacity(s, |message|)), Padded(s, message)[..k * s.rate])
      == AfterChunks(s, message, k)
  {
    hide Padded, InitialState, InitialCapacity, AbsorbAll, Permute, AddInput, TakeIn;
    var start, words := InitialState(s, InitialCapacity(s, |message|)), Padded(s, message);
    if k == 0 {
      assert words[..0 * s.rate] == [];
      StartsAtCapacity(s, message);
    } else {
      OneBlockLess(k, s.rate);
      var n := (k - 1) * s.rate;
      ChunksAbsorbed(s, message, k - 1);
      AbsorbOneMore(s, start, words[..n], words[n..n + s.rate], k - 1);
      assert words[..k * s.rate] == words[..n] + words[n..n + s.rate];
      ChunkTakenIn(s, message, AfterChunks(s, message, k - 1), n);
    }
  }

  /** The hash is word 0 after as many permutations as it takes to reach the end of the message. */
  lemma HashIsLastState<F(!new)>(s: Spec<F>, message: seq<F>, k: nat)
    requires ValidSpec(s) && k * s.rate - s.rate < |message| <= k * s.rate
    ensures HashOf(s, message) == AfterChunks(s, message, k)[0]
  {
    hide AbsorbAll, InitialState, InitialCapacity, AfterChunks;
    ChunkCountHolds(|message|, s.rate);
    SameCount(k, ChunkCount(|message|, s.rate), s.rate, |message|);
    ChunksAbsorbed(s, message, k);
    assert Padded(s, message)[..k * s.rate] == Padded(s, message);
  }

  lemma SameCount(j: nat, k: nat, rate: nat, length: nat)
    requires rate >= 1 && j * rate - rate < length <= j * rate && k * rate - rate < length <= k * rate
    ensures j == k
  {
    MultipleBounds(j - k, rate);
    MultipleBounds(k - j, rate);
    assert (j - k) * rate == j * rate - k * rate && (k - j) * rate == k * rate - j * rate;
  }

  lemma MultipleBounds(d: int, rate: nat)
    ensures d <= 0 ==> d * rate <= 0
    ensures d >= 2 ==> d * rate >= 2 * rate
    ensures d == 1 ==> d * rate == rate
  {
    if d >= 2 {
      assert (d - 2) * rate >= 0;
    }
  }

  /** Whole chunks, the last one waiting, leave a full chunk waiting. */
  lemma LastChunkIsFull(blocks: nat, chunks: nat, pending: nat, rate: nat)
    requires rate >= 1 && 1 <= pending <= rate && blocks * rate == chunks * rate + pending
    ensures pending == rate
  {
    MultipleBounds(blocks - chunks, rate);
    assert (blocks - chunks) * rate == blocks * rate - chunks * rate;
  }

  /** Absorbs message and padding word by word, then squeezes once. */
  method Hash<F(!new)>(s: Spec<F>, message: seq<F>) returns (digest: F)
    requires ValidSpec(s) && message != []
    ensures digest == HashOf(s, message)
  {
    var sponge := new Sponge(s, InitialCapacity(s, |message|));
    var words := Padded(s, message);
    ChunkCountHolds(|message|, s.rate);
    for i := 0 to |words|
      invariant sponge.Valid() && sponge.mode.Absorbing? && fresh(sponge) && fresh(sponge.state)
      invariant sponge.Absorbed() == words[..i] && (i > 0 ==> sponge.pending != [])
    {
      sponge.Absorb(words[i]);
    }
    assert words[..|words|] == words;
    LastChunkIsFull(ChunkCount(|message|, s.rate), sponge.chunks, |sponge.pending|, s.rate);
    sponge.FinishAbsorbing();
    QuotientIsUnique(0, 0, s.rate);
    digest := sponge.Squeeze();
  }
}
