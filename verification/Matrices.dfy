/** Matrix-vector products over a commutative ring, and the law of inverse matrices. */
module Matrices {
  import opened Fields

  type Matrix<!F> = seq<seq<F>>

  ghost predicate IsSquare<F(!new)>(m: Matrix<F>, n: nat) {
    |m| == n && forall i :: 0 <= i < n ==> |m[i]| == n
  }

  /** row[0] * x[0] + ... + row[n - 1] * x[n - 1], summed from zero. */
  function Dot<F(!new)>(f: Field<F>, row: seq<F>, x: seq<F>, n: nat): F
    requires n <= |row| && n <= |x|
  {
    if n == 0 then f.zero else f.add(Dot(f, row, x, n - 1), f.mul(row[n - 1], x[n - 1]))
  }

  /** The product of a square matrix and a vector. */
  function Mix<F(!new)>(f: Field<F>, m: Matrix<F>, x: seq<F>): (y: seq<F>)
    requires IsSquare(m, |x|)
    ensures |y| == |x|
  {
    seq(|x|, i requires 0 <= i < |x| => Dot(f, m[i], x, |x|))
  }

  function Column<F(!new)>(m: Matrix<F>, n: nat, j: nat): (column: seq<F>)
    requires IsSquare(m, n) && j < n
    ensures |column| == n
  {
    seq(n, i requires 0 <= i < n => m[i][j])
  }

  /** Row i of the product of two matrices. */
  function ProductRow<F(!new)>(f: Field<F>, a: Matrix<F>, b: Matrix<F>, n: nat, i: nat): (row: seq<F>)
    requires IsSquare(a, n) && IsSquare(b, n) && i < n
    ensures |row| == n
  {
    seq(n, j requires 0 <= j < n => Dot(f, a[i], Column(b, n, j), n))
  }

  /** a * b is the identity. */
  ghost predicate IsLeftInverse<F(!new)>(f: Field<F>, a: Matrix<F>, b: Matrix<F>, n: nat) {
    && IsSquare(a, n) && IsSquare(b, n)
    && forall i, j :: 0 <= i < n && 0 <= j < n ==> ProductRow(f, a, b, n, i)[j] == if i == j then f.one else f.zero
  }

  // ---------------------------------------------------------------------------------
  // Laws

  /** (s + p) + (q + r) == (s + q) + (p + r). */
  lemma AddSwapsMiddle<F(!new)>(f: Field<F>, s: F, p: F, q: F, r: F)
    requires IsDomain(f)
    ensures f.add(f.add(s, p), f.add(q, r)) == f.add(f.add(s, q), f.add(p, r))
  {
    assert Obeys(f, AddAssoc(s, p, f.add(q, r))) && Obeys(f, AddAssoc(p, q, r)) && Obeys(f, AddComm(p, q));
    assert Obeys(f, AddAssoc(q, p, r)) && Obeys(f, AddAssoc(s, q, f.add(p, r)));
  }

  /** a * (y + c * t) == a * y + (a * c) * t. */
  lemma MulDistributes<F(!new)>(f: Field<F>, a: F, y: F, c: F, t: F)
    requires IsDomain(f)
    ensures f.mul(a, f.add(y, f.mul(c, t))) == f.add(f.mul(a, y), f.mul(f.mul(a, c), t))
  {
    assert Obeys(f, Distributes(a, y, f.mul(c, t))) && Obeys(f, MulAssoc(a, c, t));
  }

  /** (p + q) * t == p * t + q * t. */
  lemma MulRight<F(!new)>(f: Field<F>, p: F, q: F, t: F)
    requires IsDomain(f)
    ensures f.mul(f.add(p, q), t) == f.add(f.mul(p, t), f.mul(q, t))
  {
    assert Obeys(f, MulComm(f.add(p, q), t)) && Obeys(f, Distributes(t, p, q));
    assert Obeys(f, MulComm(p, t)) && Obeys(f, MulComm(q, t));
  }

  /** The product is linear in the vector. */
  lemma {:induction false} DotIsLinear<F(!new)>(f: Field<F>, row: seq<F>, y: seq<F>, c: seq<F>, t: F, z: seq<F>, n: nat)
    requires IsDomain(f) && n <= |row| && n <= |y| && n <= |c| && n <= |z|
    requires forall k :: 0 <= k < n ==> z[k] == f.add(y[k], f.mul(c[k], t))
    ensures Dot(f, row, z, n) == f.add(Dot(f, row, y, n), f.mul(Dot(f, row, c, n), t))
  {
    if n == 0 {
      MulZero(f, t);
      AddLeftZero(f, f.zero);
    } else {
      DotIsLinear(f, row, y, c, t, z, n - 1);
      var k := n - 1;
      MulDistributes(f, row[k], y[k], c[k], t);
      var p, q := Dot(f, row, c, k), f.mul(row[k], c[k]);
      MulRight(f, p, q, t);
      AddSwapsMiddle(f, Dot(f, row, y, k), f.mul(p, t), f.mul(row[k], y[k]), f.mul(q, t));
    }
  }

  lemma {:induction false} DotWithZeros<F(!new)>(f: Field<F>, row: seq<F>, y: seq<F>, n: nat)
    requires IsDomain(f) && n <= |row| && n <= |y|
    requires forall k :: 0 <= k < n ==> y[k] == f.zero
    ensures Dot(f, row, y, n) == f.zero
  {
    if n > 0 {
      DotWithZeros(f, row, y, n - 1);
      MulZero(f, row[n - 1]);
      AddLeftZero(f, f.zero);
    }
  }

  /** The product of b with the first m entries of x. */
  function PartialMix<F(!new)>(f: Field<F>, b: Matrix<F>, x: seq<F>, m: nat): (y: seq<F>)
    requires IsSquare(b, |x|) && m <= |x|
    ensures |y| == |x|
  {
    seq(|x|, k requires 0 <= k < |x| => Dot(f, b[k], x, m))
  }

  /** One more entry of x adds its multiple of a column. */
  lemma NextEntry<F(!new)>(f: Field<F>, row: seq<F>, b: Matrix<F>, x: seq<F>, m: nat)
    requires IsDomain(f) && IsSquare(b, |x|) && |row| == |x| && m < |x|
    ensures Dot(f, row, PartialMix(f, b, x, m + 1), |x|)
      == f.add(Dot(f, row, PartialMix(f, b, x, m), |x|), f.mul(Dot(f, row, Column(b, |x|, m), |x|), x[m]))
  {
    var z, y, c := PartialMix(f, b, x, m + 1), PartialMix(f, b, x, m), Column(b, |x|, m);
    forall k | 0 <= k < |x| ensures z[k] == f.add(y[k], f.mul(c[k], x[m])) {
      assert Dot(f, b[k], x, m + 1) == f.add(Dot(f, b[k], x, m), f.mul(b[k][m], x[m]));
    }
    DotIsLinear(f, row, y, c, x[m], z, |x|);
  }

  lemma ExchangeStep<F(!new)>(f: Field<F>, row: seq<F>, b: Matrix<F>, x: seq<F>, product: seq<F>, m: nat)
    requires IsDomain(f) && IsSquare(b, |x|) && |row| == |product| == |x| && m < |x|
    requires product[m] == Dot(f, row, Column(b, |x|, m), |x|)
    requires Dot(f, row, PartialMix(f, b, x, m), |x|) == Dot(f, product, x, m)
    ensures Dot(f, row, PartialMix(f, b, x, m + 1), |x|) == Dot(f, product, x, m + 1)
  {
    NextEntry(f, row, b, x, m);
  }

  /** Exchanging the two sums: row * (b * x) is (row * b) * x, one entry of x at a time. */
  lemma {:induction false} SumsExchange<F(!new)>(f: Field<F>, row: seq<F>, b: Matrix<F>, x: seq<F>, product: seq<F>, m: nat)
    requires IsDomain(f) && IsSquare(b, |x|) && |row| == |product| == |x| && m <= |x|
    requires forall j :: 0 <= j < |x| ==> product[j] == Dot(f, row, Column(b, |x|, j), |x|)
    ensures Dot(f, row, PartialMix(f, b, x, m), |x|) == Dot(f, product, x, m)
  {
    if m == 0 {
      DotWithZeros(f, row, PartialMix(f, b, x, 0), |x|);
    } else {
      SumsExchange(f, row, b, x, product, m - 1);
      ExchangeStep(f, row, b, x, product, m - 1);
    }
  }

  /** A row of the identity picks one entry. */
  lemma {:induction false} UnitRowPicks<F(!new)>(f: Field<F>, row: seq<F>, x: seq<F>, i: nat, n: nat)
    requires IsDomain(f) && n <= |row| && n <= |x| && i < |x|
    requires forall j :: 0 <= j < n ==> row[j] == if i == j then f.one else f.zero
    ensures Dot(f, row, x, n) == if i < n then x[i] else f.zero
  {
    if n > 0 {
      UnitRowPicks(f, row, x, i, n - 1);
      MulZero(f, x[n - 1]);
      MulLeftOne(f, x[n - 1]);
      AddLeftZero(f, x[n - 1]);
      AddLeftZero(f, Dot(f, row, x, n - 1));
    }
  }

  /** Multiplying by b and then by its left inverse gives the vector back. */
  lemma InverseUndoes<F(!new)>(f: Field<F>, a: Matrix<F>, b: Matrix<F>, x: seq<F>)
    requires IsDomain(f) && IsLeftInverse(f, a, b, |x|)
    ensures Mix(f, a, Mix(f, b, x)) == x
  {
    var n := |x|;
    assert PartialMix(f, b, x, n) == Mix(f, b, x);
    forall i | 0 <= i < n ensures Mix(f, a, Mix(f, b, x))[i] == x[i] {
      SumsExchange(f, a[i], b, x, ProductRow(f, a, b, n, i), n);
      UnitRowPicks(f, ProductRow(f, a, b, n, i), x, i, n);
    }
  }
}
