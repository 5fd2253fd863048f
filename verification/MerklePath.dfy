/**
 The Merkle path circuit: at every level a boolean index bit swaps the running digest and its
 sibling, and the hash chip turns them into the next digest. Whatever the cells hold, the public
 root is the one the native computation gives.
 */
module MerklePath {
  import opened Fields
  import opened PoseidonPermutation
  import opened PoseidonSponge
  import opened PoseidonCircuit

  /** The root over a digest: one pair hash for each sibling, the digest to the left or to the right. */
  function Root<F(!new)>(s: Spec<F>, digest: F, elements: seq<F>, isLeft: seq<bool>): F
    requires ValidSpec(s) && |elements| <= |isLeft|
    decreases elements
  {
    if elements == [] then digest
    else
      var message := if isLeft[0] then [digest, elements[0]] else [elements[0], digest];
      Root(s, HashOf(s, message), elements[1..], isLeft[1..])
  }

  /** The last sibling is hashed last: on the right of what lies below it when the index bit is 0, else on the left. */
  lemma {:induction false} RootFromTop<F(!new)>(s: Spec<F>, digest: F, elements: seq<F>, isLeft: seq<bool>,
                                                top: F, topIsLeft: bool)
    requires ValidSpec(s) && |elements| == |isLeft|
    ensures Root(s, digest, [], []) == digest
    ensures var below := Root(s, digest, elements, isLeft);
      Root(s, digest, elements + [top], isLeft + [topIsLeft]) == HashOf(s, if topIsLeft then [below, top] else [top, below])
    decreases elements
  {
    if elements == [] {
      assert elements + [top] == [top] && isLeft + [topIsLeft] == [topIsLeft];
    } else {
      var message := if isLeft[0] then [digest, elements[0]] else [elements[0], digest];
      assert (elements + [top])[1..] == elements[1..] + [top] && (isLeft + [topIsLeft])[1..] == isLeft[1..] + [topIsLeft];
      RootFromTop(s, HashOf(s, message), elements[1..], isLeft[1..], top, topIsLeft);
    }
  }

  function Images<F(!new)>(f: Field<F>, numbers: seq<nat>): (images: seq<F>)
    ensures |images| == |numbers|
  {
    seq(|numbers|, i requires 0 <= i < |numbers| => f.FromNat(numbers[i]))
  }

  /** Index 0 puts the digest to the left. */
  function LeftAt(indices: seq<nat>): (isLeft: seq<bool>)
    ensures |isLeft| == |indices|
  {
    seq(|indices|, i requires 0 <= i < |indices| => indices[i] == 0)
  }

  lemma {:induction false} RootOneMore<F(!new)>(s: Spec<F>, digest: F, elements: seq<F>, isLeft: seq<bool>,
                                                element: F, left: bool)
    requires ValidSpec(s) && |elements| == |isLeft|
    ensures var below := Root(s, digest, elements, isLeft);
      Root(s, digest, elements + [element], isLeft + [left])
      == HashOf(s, if left then [below, element] else [element, below])
    decreases elements
  {
    if elements == [] {
      assert elements + [element] == [element] && isLeft + [left] == [left] && [element][1..] == [];
    } else {
      var message := if isLeft[0] then [digest, elements[0]] else [elements[0], digest];
      assert (elements + [element])[1..] == elements[1..] + [element] && (isLeft + [left])[1..] == isLeft[1..] + [left];
      RootOneMore(s, HashOf(s, message), elements[1..], isLeft[1..], element, left);
    }
  }

  /** The native computation. */
  method MerkleTreeCommitFp<F(!new)>(s: Spec<F>, leaf: nat, elements: seq<nat>, indices: seq<nat>) returns (digest: F)
    requires ValidSpec(s) && |elements| <= |indices|
    ensures digest == Root(s, s.field.FromNat(leaf), Images(s.field, elements), LeftAt(indices[..|elements|]))
  {
    hide ValidSpec, HashOf;
    var f := s.field;
    digest := f.FromNat(leaf);
    for i := 0 to |elements|
      invariant digest == Root(s, f.FromNat(leaf), Images(f, elements[..i]), LeftAt(indices[..i]))
    {
      RootOneMore(s, f.FromNat(leaf), Images(f, elements[..i]), LeftAt(indices[..i]), f.FromNat(elements[i]), indices[i] == 0);
      assert Images(f, elements[..i + 1]) == Images(f, elements[..i]) + [f.FromNat(elements[i])];
      assert LeftAt(indices[..i + 1]) == LeftAt(indices[..i]) + [indices[i] == 0];
      var message := if indices[i] == 0 then [digest, f.FromNat(elements[i])] else [f.FromNat(elements[i]), digest];
      digest := Hash(s, message);
    }
    assert elements[..|elements|] == elements;
  }

  // ---------------------------------------------------------------------------------
  // The circuit

  /** The cells of one level: the swap row, the hash chip's cells, and the digest they end in. */
  datatype Level<F> = Level(digest: F, element: F, left: F, right: F, bit: F, blocks: seq<Block<F>>, next: F)

  ghost predicate SwapGate<F(!new)>(f: Field<F>, l: Level<F>) {
    && f.mul(l.bit, f.Sub(f.one, l.bit)) == f.zero
    && f.Sub(l.left, f.add(l.digest, f.mul(l.bit, f.Sub(l.element, l.digest)))) == f.zero
    && f.Sub(l.right, f.add(l.element, f.mul(l.bit, f.Sub(l.digest, l.element)))) == f.zero
  }

  /** x + bit * (y - x) is x for bit zero and y for bit one. */
  lemma Chooses<F(!new)>(f: Field<F>, bit: F, x: F, y: F)
    requires IsDomain(f) && (bit == f.zero || bit == f.one)
    ensures f.add(x, f.mul(bit, f.Sub(y, x))) == if bit == f.zero then x else y
  {
    var d := f.Sub(y, x);
    MulZero(f, d);
    MulLeftOne(f, d);
    AddLeftZero(f, x);
    assert Obeys(f, AddComm(y, f.neg(x))) && Obeys(f, AddAssoc(x, f.neg(x), y)) && Obeys(f, AddNeg(x));
    AddLeftZero(f, y);
  }

  /** The gate says: the bit is boolean and decides who is left. */
  lemma SwapGateSwaps<F(!new)>(f: Field<F>, l: Level<F>)
    requires IsDomain(f)
    ensures SwapGate(f, l)
      <==> (l.bit == f.zero && l.left == l.digest && l.right == l.element)
           || (l.bit == f.one && l.left == l.element && l.right == l.digest)
  {
    assert Obeys(f, NoZeroDivisors(l.bit, f.Sub(f.one, l.bit))) && Obeys(f, OneIsNotZero);
    SubZero(f, f.one, l.bit);
    if l.bit == f.zero || l.bit == f.one {
      MulZero(f, f.Sub(f.one, l.bit));
      MulZero(f, l.bit);
      Chooses(f, l.bit, l.digest, l.element);
      Chooses(f, l.bit, l.element, l.digest);
      SubZero(f, l.left, f.add(l.digest, f.mul(l.bit, f.Sub(l.element, l.digest))));
      SubZero(f, l.right, f.add(l.element, f.mul(l.bit, f.Sub(l.digest, l.element))));
    }
  }

  /** The level's gates hold and its digest is copied from below. */
  ghost predicate LevelHolds<F(!new)>(s: Spec<F>, l: Level<F>, below: F)
    requires ValidConfig(s)
  {
    l.digest == below && SwapGate(s.field, l) && HashHolds(s, l.blocks, [l.left, l.right], l.next)
  }

  /** The levels chain from the public leaf to the public root. */
  ghost predicate PathHolds<F(!new)>(s: Spec<F>, levels: seq<Level<F>>, leaf: F, root: F)
    requires ValidConfig(s)
    decreases levels
  {
    if levels == [] then leaf == root
    else LevelHolds(s, levels[0], leaf) && PathHolds(s, levels[1..], levels[0].next, root)
  }

  function Elements<F>(levels: seq<Level<F>>): (elements: seq<F>)
    ensures |elements| == |levels|
  {
    seq(|levels|, i requires 0 <= i < |levels| => levels[i].element)
  }

  function Bits<F>(levels: seq<Level<F>>): (bits: seq<F>)
    ensures |bits| == |levels|
  {
    seq(|levels|, i requires 0 <= i < |levels| => levels[i].bit)
  }

  ghost predicate AllBits<F(!new)>(f: Field<F>, bits: seq<F>) {
    forall i :: 0 <= i < |bits| ==> bits[i] == f.zero || bits[i] == f.one
  }

  /** Bit zero puts the digest to the left. */
  ghost function ZeroBits<F(!new)>(f: Field<F>, bits: seq<F>): (isLeft: seq<bool>)
    ensures |isLeft| == |bits|
  {
    seq(|bits|, i requires 0 <= i < |bits| => bits[i] == f.zero)
  }

  lemma FirstBit<F(!new)>(f: Field<F>, bits: seq<F>)
    requires bits != []
    ensures AllBits(f, bits) <==> (bits[0] == f.zero || bits[0] == f.one) && AllBits(f, bits[1..])
    ensures ZeroBits(f, bits)[1..] == ZeroBits(f, bits[1..])
  {
    assert forall i :: 1 <= i < |bits| ==> bits[i] == bits[1..][i - 1];
  }

  /** Whatever the cells, the bits are boolean and the root is the native one, for every path length. */
  lemma {:induction false} PathForcesRoot<F(!new)>(s: Spec<F>, levels: seq<Level<F>>, leaf: F, root: F)
    requires ValidConfig(s) && PathHolds(s, levels, leaf, root)
    ensures AllBits(s.field, Bits(levels))
    ensures root == Root(s, leaf, Elements(levels), ZeroBits(s.field, Bits(levels)))
    decreases levels
  {
    hide ValidConfig, HashOf, LevelHolds;
    if levels != [] {
      LevelForcesHash(s, levels[0], leaf);
      PathForcesRoot(s, levels[1..], levels[0].next, root);
      assert Elements(levels)[1..] == Elements(levels[1..]) && Bits(levels)[1..] == Bits(levels[1..]);
      FirstBit(s.field, Bits(levels));
    }
  }

  lemma LevelForcesHash<F(!new)>(s: Spec<F>, l: Level<F>, below: F)
    requires ValidConfig(s) && LevelHolds(s, l, below)
    ensures l.bit == s.field.zero || l.bit == s.field.one
    ensures l.next == HashOf(s, if l.bit == s.field.zero then [below, l.element] else [l.element, below])
  {
    SwapGateSwaps(s.field, l);
    ChipForcesHash(s, l.blocks, [l.left, l.right], l.next);
    assert Obeys(s.field, OneIsNotZero);
  }

  /** Bits that are images of machine integers are 0 or 1. */
  lemma IndicesAreBits<F(!new)>(f: Field<F>, indices: seq<nat>, bound: nat)
    requires IsDomain(f) && Distinct(f, bound) && AllBits(f, Images(f, indices))
    requires forall i :: 0 <= i < |indices| ==> indices[i] < bound
    ensures forall i :: 0 <= i < |indices| ==> indices[i] <= 1
    ensures ZeroBits(f, Images(f, indices)) == LeftAt(indices)
  {
    forall i | 0 <= i < |indices| ensures indices[i] <= 1 && (f.FromNat(indices[i]) == f.zero <==> indices[i] == 0) {
      BitImages(f, indices[i], bound);
      assert Images(f, indices)[i] == f.FromNat(indices[i]);
    }
  }

  /** In terms of machine integers: the indices are 0 or 1 and the root is the native commitment. */
  lemma PathProvesCommitment<F(!new)>(s: Spec<F>, levels: seq<Level<F>>, leaf: nat, elements: seq<nat>,
                                      indices: seq<nat>, root: F, bound: nat)
    requires ValidConfig(s) && Distinct(s.field, bound) && forall i :: 0 <= i < |indices| ==> indices[i] < bound
    requires Elements(levels) == Images(s.field, elements) && Bits(levels) == Images(s.field, indices)
    requires PathHolds(s, levels, s.field.FromNat(leaf), root)
    ensures forall i :: 0 <= i < |indices| ==> indices[i] <= 1
    ensures root == Root(s, s.field.FromNat(leaf), Images(s.field, elements), LeftAt(indices))
  {
    PathForcesRoot(s, levels, s.field.FromNat(leaf), root);
    IndicesAreBits(s.field, indices, bound);
  }

  // ---------------------------------------------------------------------------------
  // The prover's cells

  /** The level the prover assigns: it swaps unless the index is zero. */
  function AssignLevel<F(==, !new)>(s: Spec<F>, digest: F, element: F, index: F): Level<F>
    requires ValidConfig(s)
  {
    var (left, right) := if index == s.field.zero then (digest, element) else (element, digest);
    var message := [left, right];
    Level(digest, element, left, right, index,
          AssignBlocks(s, InitialState(s, InitialCapacity(s, 2)), Padded(s, message)), HashOf(s, message))
  }

  function AssignLevels<F(==, !new)>(s: Spec<F>, digest: F, elements: seq<F>, indices: seq<F>): (levels: seq<Level<F>>)
    requires ValidConfig(s) && |elements| == |indices|
    ensures |levels| == |elements|
    decreases elements
  {
    if elements == [] then []
    else
      var l := AssignLevel(s, digest, elements[0], indices[0]);
      [l] + AssignLevels(s, l.next, elements[1..], indices[1..])
  }

  /** The prover's levels carry the path's elements and indices. */
  lemma {:induction false} AssignedCells<F(!new)>(s: Spec<F>, digest: F, elements: seq<F>, indices: seq<F>)
    requires ValidConfig(s) && |elements| == |indices|
    ensures var levels := AssignLevels(s, digest, elements, indices);
      Elements(levels) == elements && Bits(levels) == indices
    decreases elements
  {
    hide ValidConfig, AssignBlocks, HashOf;
    if elements != [] {
      var l := AssignLevel(s, digest, elements[0], indices[0]);
      AssignedCells(s, l.next, elements[1..], indices[1..]);
      ConsCells(l, AssignLevels(s, l.next, elements[1..], indices[1..]));
    }
  }

  lemma ConsCells<F>(l: Level<F>, levels: seq<Level<F>>)
    ensures Elements([l] + levels) == [l.element] + Elements(levels)
    ensures Bits([l] + levels) == [l.bit] + Bits(levels)
  {
  }

  lemma AssignedLevelHolds<F(!new)>(s: Spec<F>, digest: F, element: F, index: F)
    requires ValidConfig(s)
    ensures LevelHolds(s, AssignLevel(s, digest, element, index), digest) <==> index == s.field.zero || index == s.field.one
  {
    var l := AssignLevel(s, digest, element, index);
    SwapGateSwaps(s.field, l);
    ChipComputesHash(s, [l.left, l.right]);
    assert Obeys(s.field, OneIsNotZero);
  }

  /** The prover's cells satisfy the circuit exactly when the indices are bits and the public root is the native one. */
  lemma {:induction false} AssignedPathHolds<F(!new)>(s: Spec<F>, leaf: F, elements: seq<F>, indices: seq<F>, root: F)
    requires ValidConfig(s) && |elements| == |indices|
    ensures PathHolds(s, AssignLevels(s, leaf, elements, indices), leaf, root)
      <==> AllBits(s.field, indices) && root == Root(s, leaf, elements, ZeroBits(s.field, indices))
    decreases elements
  {
    hide ValidConfig, AssignBlocks, HashOf, LevelHolds;
    AssignedCells(s, leaf, elements, indices);
    if elements != [] {
      var l := AssignLevel(s, leaf, elements[0], indices[0]);
      assert AssignLevels(s, leaf, elements, indices)[1..] == AssignLevels(s, l.next, elements[1..], indices[1..]);
      AssignedLevelHolds(s, leaf, elements[0], indices[0]);
      AssignedPathHolds(s, l.next, elements[1..], indices[1..], root);
      FirstBit(s.field, indices);
    }
  }

  // ---------------------------------------------------------------------------------
  // Binding

  /** Two pairs of words with one hash. */
  ghost predicate IsHashCollision<F(!new)>(s: Spec<F>, p: seq<F>, q: seq<F>)
    requires ValidSpec(s)
  {
    |p| == |q| == 2 && p != q && HashOf(s, p) == HashOf(s, q)
  }

  /** Two paths of one shape to one root that differ in leaf or siblings exhibit a collision of the hash. */
  lemma {:induction false} RootBinds<F(!new)>(s: Spec<F>, x: F, xs: seq<F>, y: F, ys: seq<F>, isLeft: seq<bool>)
    returns (p: seq<F>, q: seq<F>)
    requires ValidSpec(s) && |xs| == |ys| <= |isLeft| && Root(s, x, xs, isLeft) == Root(s, y, ys, isLeft)
    requires x != y || xs != ys
    ensures IsHashCollision(s, p, q)
    decreases xs
  {
    p, q := [], [];
    if xs != [] {
      p := if isLeft[0] then [x, xs[0]] else [xs[0], x];
      q := if isLeft[0] then [y, ys[0]] else [ys[0], y];
      if !IsHashCollision(s, p, q) {
        assert p == q ==> p[0] == q[0] && p[1] == q[1];
        assert xs == [xs[0]] + xs[1..] && ys == [ys[0]] + ys[1..];
        p, q := RootBinds(s, HashOf(s, p), xs[1..], HashOf(s, q), ys[1..], isLeft[1..]);
      }
    }
  }
}
