/** Fields as a record of operations. A law is stated by instances, so that a proof names the ones it uses. */
module Fields {

  datatype Field<!F(!new)> = Field(zero: F, one: F, add: (F, F) -> F, neg: F -> F, mul: (F, F) -> F)
  {
    function Sub(a: F, b: F): F {
      add(a, neg(b))
    }

    /** The image of a machine integer. */
    function FromNat(n: nat): F {
      if n == 0 then zero else add(FromNat(n - 1), one)
    }
  }

  datatype Law<F> =
    | AddAssoc(a: F, b: F, c: F)
    | AddComm(a: F, b: F)
    | AddZero(a: F)
    | AddNeg(a: F)
    | MulAssoc(a: F, b: F, c: F)
    | MulComm(a: F, b: F)
    | MulOne(a: F)
    | Distributes(a: F, b: F, c: F)
    | NoZeroDivisors(a: F, b: F)
    | OneIsNotZero

  ghost predicate Obeys<F(!new)>(f: Field<F>, law: Law<F>) {
    match law
    case AddAssoc(a, b, c) => f.add(f.add(a, b), c) == f.add(a, f.add(b, c))
    case AddComm(a, b) => f.add(a, b) == f.add(b, a)
    case AddZero(a) => f.add(a, f.zero) == a
    case AddNeg(a) => f.add(a, f.neg(a)) == f.zero
    case MulAssoc(a, b, c) => f.mul(f.mul(a, b), c) == f.mul(a, f.mul(b, c))
    case MulComm(a, b) => f.mul(a, b) == f.mul(b, a)
    case MulOne(a) => f.mul(a, f.one) == a
    case Distributes(a, b, c) => f.mul(a, f.add(b, c)) == f.add(f.mul(a, b), f.mul(a, c))
    case NoZeroDivisors(a, b) => f.mul(a, b) == f.zero ==> a == f.zero || b == f.zero
    case OneIsNotZero => f.one != f.zero
  }

  /** A commutative ring without zero divisors; every field is one. */
  ghost predicate IsDomain<F(!new)>(f: Field<F>) {
    forall law :: Obeys(f, law)
  }

  function Integers(): Field<int> {
    Field(0, 1, (a: int, b: int) => a + b, (a: int) => -a, (a: int, b: int) => a * b)
  }

  /** The hypothesis can be met: the integers obey every law. */
  lemma IntegersAreADomain()
    ensures IsDomain(Integers())
  {
    var f := Integers();
    forall law: Law<int> ensures Obeys(f, law) {
      match law
      case Distributes(a, b, c) => assert a * (b + c) == a * b + a * c;
      case MulAssoc(a, b, c) => assert (a * b) * c == a * (b * c);
      case _ =>
    }
  }

  lemma AddLeftZero<F(!new)>(f: Field<F>, a: F)
    requires IsDomain(f)
    ensures f.add(f.zero, a) == a && f.add(a, f.zero) == a
  {
    assert Obeys(f, AddZero(a)) && Obeys(f, AddComm(a, f.zero));
  }

  lemma MulLeftOne<F(!new)>(f: Field<F>, a: F)
    requires IsDomain(f)
    ensures f.mul(f.one, a) == a && f.mul(a, f.one) == a
  {
    assert Obeys(f, MulOne(a)) && Obeys(f, MulComm(a, f.one));
  }

  lemma AddCancels<F(!new)>(f: Field<F>, a: F, b: F, c: F)
    requires IsDomain(f) && f.add(a, b) == f.add(a, c)
    ensures b == c
  {
    var n := f.neg(a);
    assert Obeys(f, AddAssoc(n, a, b)) && Obeys(f, AddAssoc(n, a, c));
    assert Obeys(f, AddComm(n, a)) && Obeys(f, AddNeg(a));
    AddLeftZero(f, b);
    AddLeftZero(f, c);
  }

  lemma MulZero<F(!new)>(f: Field<F>, a: F)
    requires IsDomain(f)
    ensures f.mul(a, f.zero) == f.zero && f.mul(f.zero, a) == f.zero
  {
    var z := f.mul(a, f.zero);
    AddLeftZero(f, f.zero);
    assert Obeys(f, Distributes(a, f.zero, f.zero));
    assert Obeys(f, AddZero(z));
    AddCancels(f, z, z, f.zero);
    assert Obeys(f, MulComm(a, f.zero));
  }

  lemma SubZero<F(!new)>(f: Field<F>, a: F, b: F)
    requires IsDomain(f)
    ensures f.Sub(a, b) == f.zero <==> a == b
  {
    assert Obeys(f, AddNeg(b));
    if f.Sub(a, b) == f.zero {
      assert Obeys(f, AddComm(a, f.neg(b))) && Obeys(f, AddComm(b, f.neg(b)));
      AddCancels(f, f.neg(b), a, b);
    }
  }

  lemma MulNeg<F(!new)>(f: Field<F>, a: F, b: F)
    requires IsDomain(f)
    ensures f.mul(a, f.neg(b)) == f.neg(f.mul(a, b))
  {
    assert Obeys(f, Distributes(a, b, f.neg(b))) && Obeys(f, AddNeg(b)) && Obeys(f, AddNeg(f.mul(a, b)));
    MulZero(f, a);
    AddCancels(f, f.mul(a, b), f.mul(a, f.neg(b)), f.neg(f.mul(a, b)));
  }

  lemma MulSub<F(!new)>(f: Field<F>, a: F, b: F, c: F)
    requires IsDomain(f)
    ensures f.mul(a, f.Sub(b, c)) == f.Sub(f.mul(a, b), f.mul(a, c))
  {
    assert Obeys(f, Distributes(a, b, f.neg(c)));
    MulNeg(f, a, c);
  }

  /** x * d == d says that x is one or d is zero. */
  lemma FixedByProduct<F(!new)>(f: Field<F>, x: F, d: F)
    requires IsDomain(f)
    ensures f.mul(x, d) == d <==> x == f.one || d == f.zero
  {
    MulLeftOne(f, d);
    MulZero(f, x);
    if f.mul(x, d) == d {
      MulSub(f, d, x, f.one);
      assert Obeys(f, MulComm(d, x));
      SubZero(f, f.mul(d, x), f.mul(d, f.one));
      assert Obeys(f, NoZeroDivisors(d, f.Sub(x, f.one)));
      SubZero(f, x, f.one);
    }
  }

  /** x * x == x says that x is zero or one. */
  lemma Idempotent<F(!new)>(f: Field<F>, x: F)
    requires IsDomain(f)
    ensures f.mul(x, x) == x <==> x == f.zero || x == f.one
  {
    FixedByProduct(f, x, x);
  }

  /** The integers below n have different images: the characteristic is at least n. */
  ghost predicate Distinct<F(!new)>(f: Field<F>, n: nat) {
    forall i, j :: 0 <= i < j < n ==> f.FromNat(i) != f.FromNat(j)
  }

  lemma SmallImages<F(!new)>(f: Field<F>)
    requires IsDomain(f)
    ensures f.FromNat(0) == f.zero && f.FromNat(1) == f.one && f.zero != f.one
  {
    AddLeftZero(f, f.one);
    assert f.FromNat(1) == f.add(f.FromNat(0), f.one);
    assert Obeys(f, OneIsNotZero);
  }

  /** The images of the machine integers add and multiply as the integers do. */
  lemma {:induction false} ImagesAdd<F(!new)>(f: Field<F>, m: nat, n: nat)
    requires IsDomain(f)
    ensures f.FromNat(m + n) == f.add(f.FromNat(m), f.FromNat(n))
  {
    if n == 0 {
      AddLeftZero(f, f.FromNat(m));
    } else {
      ImagesAdd(f, m, n - 1);
      assert Obeys(f, AddAssoc(f.FromNat(m), f.FromNat(n - 1), f.one));
      assert f.FromNat(m + n) == f.add(f.FromNat(m + n - 1), f.one);
    }
  }

  lemma {:induction false} ImagesMultiply<F(!new)>(f: Field<F>, m: nat, n: nat)
    requires IsDomain(f)
    ensures f.FromNat(m * n) == f.mul(f.FromNat(m), f.FromNat(n))
  {
    var x := f.FromNat(m);
    if n == 0 {
      MulZero(f, x);
    } else {
      ImagesMultiply(f, m, n - 1);
      ImagesAdd(f, m * (n - 1), m);
      assert m * n == m * (n - 1) + m;
      assert Obeys(f, Distributes(x, f.FromNat(n - 1), f.one));
      MulLeftOne(f, x);
    }
  }

  /** Among the integers every machine integer is its own image. */
  lemma {:induction false} ImagesOfIntegers(n: nat)
    ensures Integers().FromNat(n) == n
  {
    if n > 0 {
      ImagesOfIntegers(n - 1);
    }
  }

  /** The product of n factors x. */
  function Power<F(!new)>(f: Field<F>, x: F, n: nat): F {
    if n == 0 then f.one else f.mul(Power(f, x, n - 1), x)
  }

  lemma {:induction false} PowersMultiply<F(!new)>(f: Field<F>, x: F, m: nat, n: nat)
    requires IsDomain(f)
    ensures f.mul(Power(f, x, m), Power(f, x, n)) == Power(f, x, m + n)
  {
    if n == 0 {
      MulLeftOne(f, Power(f, x, m));
    } else {
      PowersMultiply(f, x, m, n - 1);
      assert Obeys(f, MulAssoc(Power(f, x, m), Power(f, x, n - 1), x));
    }
  }

  /** Below the characteristic, only 0 and 1 have the images zero and one. */
  lemma BitImages<F(!new)>(f: Field<F>, n: nat, bound: nat)
    requires IsDomain(f) && Distinct(f, bound) && n < bound
    ensures f.FromNat(n) == f.zero <==> n == 0
    ensures f.FromNat(n) == f.one <==> n == 1
  {
    SmallImages(f);
    assert n > 0 ==> f.FromNat(0) != f.FromNat(n);
    assert n > 1 ==> f.FromNat(1) != f.FromNat(n);
  }
}
