/**
 Integer polynomials as coefficient sequences, lowest first, and their values at X = 2. A binary
 polynomial has 32 coefficients that are bits; its value at 2 determines it.
 */
module Polynomials {
  import opened Powers
  import opened Limbs

  type Poly = seq<int>

  const ONE: Poly := [1]
  const BITS: nat := 32

  function Coefficient(p: Poly, k: nat): int {
    if k < |p| then p[k] else 0
  }

  function Larger(a: nat, b: nat): nat {
    if a >= b then a else b
  }

  function Plus(p: Poly, q: Poly): (r: Poly)
    ensures |r| == Larger(|p|, |q|)
    ensures forall k :: 0 <= k < |r| ==> r[k] == Coefficient(p, k) + Coefficient(q, k)
  {
    seq(Larger(|p|, |q|), k requires k >= 0 => Coefficient(p, k) + Coefficient(q, k))
  }

  function Minus(p: Poly, q: Poly): (r: Poly)
    ensures |r| == Larger(|p|, |q|)
    ensures forall k :: 0 <= k < |r| ==> r[k] == Coefficient(p, k) - Coefficient(q, k)
  {
    seq(Larger(|p|, |q|), k requires k >= 0 => Coefficient(p, k) - Coefficient(q, k))
  }

  function Scale(c: int, p: Poly): (r: Poly)
    ensures |r| == |p| && forall k :: 0 <= k < |r| ==> r[k] == c * p[k]
  {
    seq(|p|, k requires 0 <= k < |p| => c * p[k])
  }

  function Times(p: Poly, q: Poly): Poly {
    if p == [] then [] else Plus(Scale(p[0], q), [0] + Times(p[1..], q))
  }

  /** The value at X = 2. */
  function AtTwo(p: Poly): int {
    if p == [] then 0 else p[0] + 2 * AtTwo(p[1..])
  }

  predicate IsZero(p: Poly) {
    forall k :: 0 <= k < |p| ==> p[k] == 0
  }

  /** The same polynomial, up to leading zeros. */
  ghost predicate Same(p: Poly, q: Poly) {
    forall k: nat :: Coefficient(p, k) == Coefficient(q, k)
  }

  // ---------------------------------------------------------------------------------
  // Evaluation is a homomorphism

  function Tail(p: Poly): Poly {
    if p == [] then [] else p[1..]
  }

  lemma AtTwoUnfolds(p: Poly)
    ensures AtTwo(p) == Coefficient(p, 0) + 2 * AtTwo(Tail(p))
  {
  }

  lemma {:induction false} PlusAtTwo(p: Poly, q: Poly)
    ensures AtTwo(Plus(p, q)) == AtTwo(p) + AtTwo(q)
    decreases |p| + |q|
  {
    if p != [] || q != [] {
      PlusAtTwo(Tail(p), Tail(q));
      assert Tail(Plus(p, q)) == Plus(Tail(p), Tail(q));
      AtTwoUnfolds(p);
      AtTwoUnfolds(q);
      AtTwoUnfolds(Plus(p, q));
    }
  }

  lemma {:induction false} MinusAtTwo(p: Poly, q: Poly)
    ensures AtTwo(Minus(p, q)) == AtTwo(p) - AtTwo(q)
    decreases |p| + |q|
  {
    if p != [] || q != [] {
      MinusAtTwo(Tail(p), Tail(q));
      assert Tail(Minus(p, q)) == Minus(Tail(p), Tail(q));
      AtTwoUnfolds(p);
      AtTwoUnfolds(q);
      AtTwoUnfolds(Minus(p, q));
    }
  }

  lemma {:induction false} ScaleAtTwo(c: int, p: Poly)
    ensures AtTwo(Scale(c, p)) == c * AtTwo(p)
  {
    if p != [] {
      ScaleAtTwo(c, p[1..]);
      assert Scale(c, p)[1..] == Scale(c, p[1..]);
      ScaledSum(c, p[0], AtTwo(p[1..]));
    }
  }

  lemma ScaledSum(c: int, a: int, b: int)
    ensures c * (a + 2 * b) == c * a + 2 * (c * b)
  {
  }

  lemma ProductSum(a: int, b: int, c: int)
    ensures a * c + 2 * (b * c) == (a + 2 * b) * c
  {
  }

  lemma {:induction false} TimesAtTwo(p: Poly, q: Poly)
    ensures AtTwo(Times(p, q)) == AtTwo(p) * AtTwo(q)
  {
    if p != [] {
      var rest := Times(p[1..], q);
      TimesAtTwo(p[1..], q);
      ScaleAtTwo(p[0], q);
      PlusAtTwo(Scale(p[0], q), [0] + rest);
      AtTwoUnfolds([0] + rest);
      assert Tail([0] + rest) == rest;
      ProductSum(p[0], AtTwo(p[1..]), AtTwo(q));
    }
  }

  lemma {:induction false} ZeroAtTwo(p: Poly)
    requires IsZero(p)
    ensures AtTwo(p) == 0
  {
    if p != [] {
      ZeroAtTwo(p[1..]);
    }
  }

  lemma {:induction false} SameAtTwo(p: Poly, q: Poly)
    requires Same(p, q)
    ensures AtTwo(p) == AtTwo(q)
    decreases |p| + |q|
  {
    if p != [] || q != [] {
      forall k: nat ensures Coefficient(Tail(p), k) == Coefficient(Tail(q), k) {
        assert Coefficient(p, k + 1) == Coefficient(q, k + 1);
      }
      SameAtTwo(Tail(p), Tail(q));
      assert Coefficient(p, 0) == Coefficient(q, 0);
      AtTwoUnfolds(p);
      AtTwoUnfolds(q);
    }
  }

  // ---------------------------------------------------------------------------------
  // The ideal of X - 2

  /** The quotient by X - 2, by Horner's scheme. */
  function Quotient(p: Poly): (q: Poly)
    requires p != []
    ensures |q| == |p| - 1 && forall k :: 0 <= k < |q| ==> q[k] == AtTwo(p[k + 1..])
  {
    seq(|p| - 1, k requires 0 <= k < |p| - 1 => AtTwo(p[k + 1..]))
  }

  predicate InIdeal(p: Poly) {
    AtTwo(p) == 0
  }

  lemma LinearTimes(q: Poly, k: nat)
    ensures Coefficient(Times([-2, 1], q), k) == -2 * Coefficient(q, k) + if k == 0 then 0 else Coefficient(q, k - 1)
  {
    assert [-2, 1][1..] == [1] && [1][1..] == [];
    assert Times([1], q) == Plus(Scale(1, q), [0] + []);
  }

  lemma HornerStep(p: Poly, k: nat)
    requires k < |p|
    ensures AtTwo(p[k..]) == p[k] + 2 * AtTwo(p[k + 1..])
  {
    assert p[k..][1..] == p[k + 1..];
  }

  lemma QuotientTimes(p: Poly, k: nat)
    requires p != [] && AtTwo(p) == 0
    ensures Coefficient(p, k) == Coefficient(Times([-2, 1], Quotient(p)), k)
  {
    LinearTimes(Quotient(p), k);
    assert p[0..] == p;
    if k < |p| {
      HornerStep(p, k);
    }
  }

  lemma LinearVanishes()
    ensures AtTwo([-2, 1]) == 0
  {
    assert [-2, 1][1..] == [1] && [1][1..] == [];
  }

  lemma MultipleVanishes(p: Poly, q: Poly)
    requires Same(p, Times([-2, 1], q))
    ensures AtTwo(p) == 0
  {
    hide AtTwo, Times, Same;
    SameAtTwo(p, Times([-2, 1], q));
    TimesAtTwo([-2, 1], q);
    LinearVanishes();
  }

  lemma QuotientIsExact(p: Poly)
    requires AtTwo(p) == 0
    ensures exists q: Poly :: Same(p, Times([-2, 1], q))
  {
    if p == [] {
      forall k: nat ensures Coefficient(p, k) == Coefficient(Times([-2, 1], []), k) {
        LinearTimes([], k);
      }
      assert Same(p, Times([-2, 1], []));
    } else {
      forall k: nat ensures Coefficient(p, k) == Coefficient(Times([-2, 1], Quotient(p)), k) {
        QuotientTimes(p, k);
      }
      assert Same(p, Times([-2, 1], Quotient(p)));
    }
  }

  /** Vanishing at 2 is being a multiple of X - 2. */
  lemma IdealIsMultiples(p: Poly)
    ensures InIdeal(p) <==> exists q: Poly :: Same(p, Times([-2, 1], q))
  {
    hide Same, Times;
    if InIdeal(p) {
      QuotientIsExact(p);
    }
    if exists q: Poly :: Same(p, Times([-2, 1], q)) {
      var q: Poly :| Same(p, Times([-2, 1], q));
      MultipleVanishes(p, q);
    }
  }

  // ---------------------------------------------------------------------------------
  // Binary polynomials

  predicate BitCoefficients(p: Poly) {
    forall k :: 0 <= k < |p| ==> p[k] == 0 || p[k] == 1
  }

  predicate IsBinary(p: Poly) {
    |p| == BITS && BitCoefficients(p)
  }

  /** The binary polynomial with value x at 2. */
  function BitString(x: nat, n: nat): (p: Poly)
    ensures |p| == n && BitCoefficients(p)
  {
    if n == 0 then [] else [x % 2] + BitString(x / 2, n - 1)
  }

  lemma {:induction false} BitStringAtTwo(x: nat, n: nat)
    requires x < Pow2(n)
    ensures AtTwo(BitString(x, n)) == x
  {
    if n > 0 {
      BitStringAtTwo(x / 2, n - 1);
      assert BitString(x, n)[1..] == BitString(x / 2, n - 1);
    }
  }

  lemma LimbIsPower()
    ensures Pow2(BITS) == LIMB
  {
    assert Pow2(8) == 256;
    Pow2Adds(8, 8);
    Pow2Adds(16, 16);
  }

  /** The cell's polynomial. */
  function BitsOf(x: nat): (p: Poly)
    requires x < LIMB
    ensures IsBinary(p) && AtTwo(p) == x
  {
    LimbIsPower();
    BitStringAtTwo(x, BITS);
    BitString(x, BITS)
  }

  lemma {:induction false} BitsAreUnique(p: Poly, q: Poly)
    requires |p| == |q| && BitCoefficients(p) && BitCoefficients(q) && AtTwo(p) == AtTwo(q)
    ensures p == q
  {
    if p != [] {
      assert p[0] == q[0];
      BitsAreUnique(p[1..], q[1..]);
      assert p == [p[0]] + p[1..] && q == [q[0]] + q[1..];
    }
  }

  lemma {:induction false} BinaryBound(p: Poly)
    requires BitCoefficients(p)
    ensures 0 <= AtTwo(p) < Pow2(|p|)
  {
    if p != [] {
      BinaryBound(p[1..]);
    }
  }

  /** Every binary polynomial is the cell of its value. */
  lemma CellOfValue(p: Poly)
    requires IsBinary(p)
    ensures 0 <= AtTwo(p) < LIMB && BitsOf(AtTwo(p)) == p
  {
    BinaryBound(p);
    LimbIsPower();
    BitsAreUnique(BitsOf(AtTwo(p)), p);
  }

  // ---------------------------------------------------------------------------------
  // When the constraint polynomials vanish

  lemma ScalarTimes(c: int, p: Poly)
    ensures forall k: nat :: Coefficient(Times([c], p), k) == c * Coefficient(p, k)
  {
    assert [c][1..] == [];
    assert Times([c], p) == Plus(Scale(c, p), [0]);
  }

  lemma ScalarTimesIsZero(c: int, p: Poly)
    ensures IsZero(Times([c], p)) <==> c == 0 || IsZero(p)
  {
    ScalarTimes(c, p);
    if c != 0 && IsZero(Times([c], p)) {
      forall k | 0 <= k < |p| ensures p[k] == 0 {
        assert Coefficient(Times([c], p), k) == 0;
        NoZeroFactor(c, p[k]);
      }
    } else if c == 0 || IsZero(p) {
      forall k | 0 <= k < |Times([c], p)| ensures Times([c], p)[k] == 0 {
        assert Coefficient(Times([c], p), k) == c * Coefficient(p, k);
      }
    }
  }

  lemma NoZeroFactor(a: int, b: int)
    ensures a * b == 0 <==> a == 0 || b == 0
  {
  }

  /** Cells of 32 bits, and the constant 1. */
  predicate IsCellOrOne(p: Poly) {
    IsBinary(p) || p == ONE
  }

  /** Two cells differ by zero exactly when they have the same value. */
  lemma DifferenceIsZero(p: Poly, q: Poly)
    requires IsBinary(p) && IsCellOrOne(q)
    ensures IsZero(Minus(p, q)) <==> AtTwo(p) == AtTwo(q)
  {
    var wide := if q == ONE then [1] + seq(BITS - 1, _ => 0) else q;
    WideOne();
    if AtTwo(p) == AtTwo(q) {
      BitsAreUnique(p, wide);
    } else if IsZero(Minus(p, q)) {
      ZeroAtTwo(Minus(p, q));
      MinusAtTwo(p, q);
    }
  }

  lemma WideOne()
    ensures AtTwo([1] + seq(BITS - 1, _ => 0)) == 1 && AtTwo(ONE) == 1
  {
    var zeros: Poly := seq(BITS - 1, _ => 0);
    ZeroAtTwo(zeros);
    assert ([1] + zeros)[1..] == zeros;
  }

  /** The polynomial vanishes when its value at 2 does. */
  predicate Decided(p: Poly) {
    IsZero(p) <==> AtTwo(p) == 0
  }

  lemma DifferenceIsDecided(p: Poly, q: Poly)
    requires IsBinary(p) && IsCellOrOne(q)
    ensures Decided(Minus(p, q)) && AtTwo(Minus(p, q)) == AtTwo(p) - AtTwo(q)
  {
    hide IsBinary, AtTwo;
    DifferenceIsZero(p, q);
    MinusAtTwo(p, q);
  }

  /** A cell is decided. */
  lemma CellIsDecided(p: Poly)
    requires IsBinary(p)
    ensures Decided(p)
  {
    hide AtTwo;
    var zeros: Poly := seq(BITS, _ => 0);
    ZeroAtTwo(zeros);
    assert Minus(p, zeros) == p;
    DifferenceIsZero(p, zeros);
  }

  /** A scalar multiple vanishes as a polynomial exactly when it does as a number. */
  lemma ScaledIsDecided(c: int, p: Poly)
    requires Decided(p)
    ensures IsZero(Times([c], p)) <==> c * AtTwo(p) == 0
  {
    hide AtTwo, Times, IsZero;
    ScalarTimesIsZero(c, p);
    NoZeroFactor(c, AtTwo(p));
  }

  /** A product of a cell and the cell less 1 vanishes exactly when the cell is 0 or 1. */
  lemma BooleanCell(p: Poly)
    requires IsBinary(p)
    ensures IsZero(Times(p, Minus(p, ONE))) <==> AtTwo(p) == 0 || AtTwo(p) == 1
  {
    TimesAtTwo(p, Minus(p, ONE));
    MinusAtTwo(p, ONE);
    WideOne();
    if IsZero(Times(p, Minus(p, ONE))) {
      ZeroAtTwo(Times(p, Minus(p, ONE)));
      NoZeroFactor(AtTwo(p), AtTwo(p) - 1);
    } else if AtTwo(p) == 1 {
      DifferenceIsZero(p, ONE);
      TimesZero(p, Minus(p, ONE));
    } else if AtTwo(p) == 0 {
      var zeros: Poly := seq(BITS, _ => 0);
      ZeroAtTwo(zeros);
      BitsAreUnique(p, zeros);
      ZeroTimes(p, Minus(p, ONE));
    }
  }

  lemma {:induction false} TimesZero(p: Poly, q: Poly)
    requires IsZero(q)
    ensures IsZero(Times(p, q))
  {
    if p != [] {
      TimesZero(p[1..], q);
    }
  }

  lemma {:induction false} ZeroTimes(p: Poly, q: Poly)
    requires IsZero(p)
    ensures IsZero(Times(p, q))
  {
    if p != [] {
      ZeroTimes(p[1..], q);
    }
  }

  lemma ConstantIsDecided(c: int)
    ensures Decided([c]) && AtTwo([c]) == c && (IsZero([c]) <==> c == 0)
  {
    assert [c][0] == c;
  }

  lemma SingleTimes(c: int, d: int)
    ensures Times([c], [d]) == [c * d]
  {
    assert [c][1..] == [];
  }

  /** A degree-reduction helper, w = a * (p - 1), on a cell that is 0 or 1. */
  lemma HelperIsDecided(w: int, a: int, p: Poly)
    requires IsBinary(p) && (AtTwo(p) == 0 || AtTwo(p) == 1)
    ensures Decided(Minus([w], Times([a], Minus(p, ONE))))
    ensures AtTwo(Minus([w], Times([a], Minus(p, ONE)))) == w - a * (AtTwo(p) - 1)
  {
    var d := Minus(p, ONE);
    HelperAtTwo(w, a, p);
    SmallCell(p);
    ScalarTimes(a, d);
    var h := Minus([w], Times([a], d));
    forall k | 1 <= k < |h| ensures h[k] == 0 {
      assert Coefficient(Times([a], d), k) == a * Coefficient(d, k);
    }
    ConstantIsZero(h);
  }

  lemma HelperAtTwo(w: int, a: int, p: Poly)
    ensures AtTwo(Minus([w], Times([a], Minus(p, ONE)))) == w - a * (AtTwo(p) - 1)
  {
    hide Times;
    MinusAtTwo([w], Times([a], Minus(p, ONE)));
    TimesAtTwo([a], Minus(p, ONE));
    MinusAtTwo(p, ONE);
    ConstantIsDecided(w);
    ConstantIsDecided(a);
    ConstantIsDecided(1);
  }

  /** A cell with value 0 or 1 is that constant. */
  lemma SmallCell(p: Poly)
    requires IsBinary(p) && (AtTwo(p) == 0 || AtTwo(p) == 1)
    ensures forall k :: 1 <= k < |p| ==> p[k] == 0
  {
    var zeros: Poly := seq(BITS, _ => 0);
    ZeroAtTwo(zeros);
    WideOne();
    BitsAreUnique(p, if AtTwo(p) == 0 then zeros else [1] + seq(BITS - 1, _ => 0));
  }

  /** Constants vanish as polynomials when they do as numbers. */
  lemma ConstantIsZero(p: Poly)
    requires forall k :: 1 <= k < |p| ==> p[k] == 0
    ensures IsZero(p) <==> AtTwo(p) == 0
  {
    AtTwoUnfolds(p);
    ZeroAtTwo(Tail(p));
  }

  /** out - (in1 or in2), as the swap constraints write it. */
  lemma SwitchedDown(s: int, out: Poly, in1: Poly, in2: Poly)
    requires IsBinary(out) && IsBinary(in1) && IsBinary(in2) && (s == 0 || s == 1)
    ensures Minus(Minus(out, in1), Times([s], Minus(in2, in1))) == Minus(out, if s == 1 then in2 else in1)
  {
    hide Times, BitCoefficients;
    ScalarShape(s, Minus(in2, in1));
  }

  lemma SwitchedUp(s: int, out: Poly, in1: Poly, in2: Poly)
    requires IsBinary(out) && IsBinary(in1) && IsBinary(in2) && (s == 0 || s == 1)
    ensures Plus(Minus(out, in2), Times([s], Minus(in2, in1))) == Minus(out, if s == 1 then in1 else in2)
  {
    hide Times, BitCoefficients;
    ScalarShape(s, Minus(in2, in1));
  }

  lemma ScalarShape(c: int, p: Poly)
    requires p != []
    ensures |Times([c], p)| == |p| && forall k :: 0 <= k < |p| ==> Times([c], p)[k] == c * p[k]
  {
    assert [c][1..] == [];
    assert Times([c], p) == Plus(Scale(c, p), [0]);
  }
}
