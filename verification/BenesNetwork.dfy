/**
 The Benes network on 2^v wires: its layers, what a switch setting means, and how a
 layer is applied in place. Routing is in Benes.
 */
module BenesNetwork {
  import opened Powers
  import opened Permutations

  function NumLayers(v: nat): nat
    requires v >= 1
  {
    2 * v - 1
  }

  /** The stride bit of a layer: v-1, v-2, ..., 1, 0, 1, ..., v-1. */
  function StrideBit(v: nat, layer: nat): (k: nat)
    requires v >= 1 && layer < NumLayers(v)
    ensures k < v
  {
    if layer < v then v - 1 - layer else layer - v + 1
  }

  /** Bit k of a row or wire index is zero. */
  predicate BitClear(i: nat, k: nat) {
    i / Pow2(k) % 2 == 0
  }

  lemma BitFromBlock(q: nat, j: nat, k: nat)
    requires j < Pow2(k + 1)
    ensures BitClear(q * Pow2(k + 1) + j, k) <==> j < Pow2(k)
  {
    var h := Pow2(k);
    var i := q * Pow2(k + 1) + j;
    assert q * (2 * h) == (2 * q) * h;
    if j < h {
      DivisionIsUnique(i, h, 2 * q, j);
    } else {
      assert (2 * q + 1) * h == (2 * q) * h + h;
      DivisionIsUnique(i, h, 2 * q + 1, j - h);
    }
  }

  /** A wire index by its block of 2^(k+1) wires and its place in it. */
  lemma Locate(i: nat, k: nat) returns (q: nat, j: nat)
    ensures j < Pow2(k + 1) && i == q * Pow2(k + 1) + j
    ensures BitClear(i, k) <==> j < Pow2(k)
  {
    q, j := BlockOf(i, Pow2(k + 1));
    BitFromBlock(q, j, k);
  }

  lemma LocateMoved(i: nat, k: nat, q: nat, j: nat, move: int)
    requires i == q * Pow2(k + 1) + j && 0 <= j + move < Pow2(k + 1)
    ensures i + move >= 0
    ensures BitClear(i + move, k) <==> j + move < Pow2(k)
  {
    BitFromBlock(q, j + move, k);
  }

  lemma BlockInside(v: nat, k: nat, q: nat, j: nat)
    requires k < v && q * Pow2(k + 1) + j < Pow2(v)
    ensures q * Pow2(k + 1) + Pow2(k + 1) <= Pow2(v)
  {
    var c := Pow2Splits(v, k + 1);
    BlockFits(q, c, Pow2(k + 1));
  }

  lemma UpperWire(v: nat, k: nat, i: nat)
    requires k < v && i < Pow2(v) && BitClear(i, k)
    ensures i + Pow2(k) < Pow2(v) && !BitClear(i + Pow2(k), k)
  {
    var q, j := Locate(i, k);
    BlockInside(v, k, q, j);
    LocateMoved(i, k, q, j, Pow2(k));
  }

  lemma LowerWire(k: nat, i: nat)
    requires !BitClear(i, k)
    ensures i >= Pow2(k) && BitClear(i - Pow2(k), k)
  {
    var q, j := Locate(i, k);
    var back: int := 0 - Pow2(k);
    LocateMoved(i, k, q, j, back);
  }

  /** The two wires of a switch: an upper wire i and the lower wire i + 2^k. */
  lemma SwitchPair(v: nat, k: nat, i: nat)
    requires k < v && i < Pow2(v)
    ensures BitClear(i, k) ==> i + Pow2(k) < Pow2(v) && !BitClear(i + Pow2(k), k)
    ensures !BitClear(i, k) ==> i >= Pow2(k) && BitClear(i - Pow2(k), k)
  {
    if BitClear(i, k) {
      UpperWire(v, k, i);
    } else {
      LowerWire(k, i);
    }
  }

  predicate ValidLayers(layers: seq<seq<bool>>, v: nat) {
    && v >= 1
    && |layers| == NumLayers(v)
    && forall l :: 0 <= l < |layers| ==> |layers[l]| == Pow2(v)
  }

  /** The wire of a layer's input that output wire i carries. */
  function Feed(v: nat, k: nat, bits: seq<bool>, i: nat): (w: nat)
    requires k < v && |bits| == Pow2(v) && i < Pow2(v)
    ensures w < Pow2(v)
  {
    SwitchPair(v, k, i);
    if BitClear(i, k) then
      if bits[i] then i + Pow2(k) else i
    else
      if bits[i - Pow2(k)] then i - Pow2(k) else i
  }

  /** Every switch setting is an exchange: a layer is its own inverse. */
  lemma FeedIsInvolution(v: nat, k: nat, bits: seq<bool>, i: nat)
    requires k < v && |bits| == Pow2(v) && i < Pow2(v)
    ensures Feed(v, k, bits, Feed(v, k, bits, i)) == i
  {
    SwitchPair(v, k, i);
  }

  /** The wire entering layer lo that wire j carries when it leaves layer hi - 1. */
  function Source(layers: seq<seq<bool>>, v: nat, lo: nat, hi: nat, j: nat): (w: nat)
    requires ValidLayers(layers, v) && lo <= hi <= NumLayers(v) && j < Pow2(v)
    ensures w < Pow2(v)
    decreases hi
  {
    if lo == hi then j
    else Source(layers, v, lo, hi - 1, Feed(v, StrideBit(v, hi - 1), layers[hi - 1], j))
  }

  lemma {:induction false} SourceEntersFirst(layers: seq<seq<bool>>, v: nat, lo: nat, hi: nat, j: nat)
    requires ValidLayers(layers, v) && lo < hi <= NumLayers(v) && j < Pow2(v)
    ensures Source(layers, v, lo, hi, j)
         == Feed(v, StrideBit(v, lo), layers[lo], Source(layers, v, lo + 1, hi, j))
    decreases hi
  {
    if lo + 1 < hi {
      SourceEntersFirst(layers, v, lo, hi - 1, Feed(v, StrideBit(v, hi - 1), layers[hi - 1], j));
    } else {
      assert Source(layers, v, lo, lo, Feed(v, StrideBit(v, lo), layers[lo], j))
          == Feed(v, StrideBit(v, lo), layers[lo], j);
    }
  }

  /** Whatever the switches are, different output wires carry different input wires. */
  lemma {:induction false} SourceIsInjective(layers: seq<seq<bool>>, v: nat, lo: nat, hi: nat, i: nat, j: nat)
    requires ValidLayers(layers, v) && lo <= hi <= NumLayers(v) && i < Pow2(v) && j < Pow2(v) && i != j
    ensures Source(layers, v, lo, hi, i) != Source(layers, v, lo, hi, j)
    decreases hi
  {
    if lo < hi {
      var k := StrideBit(v, hi - 1);
      FeedIsInvolution(v, k, layers[hi - 1], i);
      FeedIsInvolution(v, k, layers[hi - 1], j);
      SourceIsInjective(layers, v, lo, hi - 1, Feed(v, k, layers[hi - 1], i), Feed(v, k, layers[hi - 1], j));
    }
  }

  /** The permutation of the wires that a switch setting realizes. */
  function Realized(layers: seq<seq<bool>>, v: nat): (p: seq<nat>)
    requires ValidLayers(layers, v)
    ensures |p| == Pow2(v) && IsPermutation(p)
    ensures forall j :: 0 <= j < |p| ==> p[j] == Source(layers, v, 0, NumLayers(v), j)
  {
    var p := seq(Pow2(v), j requires 0 <= j < Pow2(v) => Source(layers, v, 0, NumLayers(v), j));
    assert Injective(p) by {
      forall i, j | 0 <= i < j < |p| ensures p[i] != p[j] {
        SourceIsInjective(layers, v, 0, NumLayers(v), i, j);
      }
    }
    p
  }

  /** The state after one layer, as a value. */
  function LayerOutput<T>(state: seq<T>, v: nat, layer: nat, bits: seq<bool>): (out: seq<T>)
    requires v >= 1 && layer < NumLayers(v) && |state| == |bits| == Pow2(v)
    ensures |out| == |state|
  {
    seq(|state|, i requires 0 <= i < |state| => state[Feed(v, StrideBit(v, layer), bits, i)])
  }

  /** The state after the first `count` layers. */
  function StateAfter<T>(state: seq<T>, v: nat, layers: seq<seq<bool>>, count: nat): (out: seq<T>)
    requires ValidLayers(layers, v) && |state| == Pow2(v) && count <= NumLayers(v)
    ensures |out| == |state|
  {
    if count == 0 then state
    else LayerOutput(StateAfter(state, v, layers, count - 1), v, count - 1, layers[count - 1])
  }

  lemma {:induction false} StateAfterReadsSource<T>(state: seq<T>, v: nat, layers: seq<seq<bool>>, count: nat, j: nat)
    requires ValidLayers(layers, v) && |state| == Pow2(v) && count <= NumLayers(v) && j < Pow2(v)
    ensures StateAfter(state, v, layers, count)[j] == state[Source(layers, v, 0, count, j)]
    decreases count
  {
    if count > 0 {
      StateAfterReadsSource(state, v, layers, count - 1, Feed(v, StrideBit(v, count - 1), layers[count - 1], j));
    }
  }

  /** The content of wire w when the switches of the upper wires below i have been applied. */
  function HalfApplied<T>(was: seq<T>, v: nat, k: nat, bits: seq<bool>, i: nat, w: nat): T
    requires k < v && |was| == |bits| == Pow2(v) && w < Pow2(v)
  {
    if (if BitClear(w, k) then w else w - Pow2(k)) < i then was[Feed(v, k, bits, w)] else was[w]
  }

  /** The state when the switches of the upper wires below i have been applied. */
  function HalfLayer<T>(was: seq<T>, v: nat, k: nat, bits: seq<bool>, i: nat): (out: seq<T>)
    requires k < v && |was| == |bits| == Pow2(v)
  {
    seq(|was|, w requires 0 <= w < |was| => HalfApplied(was, v, k, bits, i, w))
  }

  /** Applying the switch of wire i exchanges its two wires and leaves the others. */
  lemma OneSwitch<T>(was: seq<T>, v: nat, k: nat, bits: seq<bool>, i: nat)
    requires k < v && |was| == |bits| == Pow2(v) && i < Pow2(v)
    ensures var now, next := HalfLayer(was, v, k, bits, i), HalfLayer(was, v, k, bits, i + 1);
      if BitClear(i, k) && bits[i] then
        i + Pow2(k) < Pow2(v) && next == now[i := now[i + Pow2(k)]][i + Pow2(k) := now[i]]
      else next == now
  {
    hide BitClear, Pow2;
    SwitchPair(v, k, i);
    var now, next := HalfLayer(was, v, k, bits, i), HalfLayer(was, v, k, bits, i + 1);
    var after := if BitClear(i, k) && bits[i] then now[i := now[i + Pow2(k)]][i + Pow2(k) := now[i]] else now;
    forall w | 0 <= w < Pow2(v) ensures next[w] == after[w] {
      SwitchPair(v, k, w);
    }
  }

  /** Applies one layer in place: swaps the wires of every switch whose bit is set. */
  method ApplyLayer<T>(state: array<T>, v: nat, layer: nat, bits: seq<bool>)
    requires v >= 1 && layer < NumLayers(v) && state.Length == |bits| == Pow2(v)
    modifies state
    ensures state[..] == LayerOutput(old(state[..]), v, layer, bits)
  {
    var k := StrideBit(v, layer);
    var stride := Pow2(k);
    ghost var was := state[..];
    for i := 0 to state.Length
      invariant state[..] == HalfLayer(was, v, k, bits, i)
    {
      OneSwitch(was, v, k, bits, i);
      if BitClear(i, k) && bits[i] {
        state[i], state[i + stride] := state[i + stride], state[i];
      }
    }
  }
}
