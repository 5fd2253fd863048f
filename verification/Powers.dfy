/** Powers of two and the few facts about division that the switching network needs. */
module Powers {

  function Pow2(k: nat): (p: nat)
    ensures p >= 1
  {
    if k == 0 then 1 else 2 * Pow2(k - 1)
  }

  lemma DoubleProduct(p: int, q: int)
    ensures 2 * (p * q) == (2 * p) * q
  {
  }

  lemma {:induction false} Pow2Adds(a: nat, b: nat)
    ensures Pow2(a + b) == Pow2(a) * Pow2(b)
  {
    if a > 0 {
      Pow2Adds(a - 1, b);
      DoubleProduct(Pow2(a - 1), Pow2(b));
    }
  }

  lemma {:induction false} Pow2Monotone(a: nat, b: nat)
    requires a <= b
    ensures Pow2(a) <= Pow2(b)
    decreases b
  {
    if a < b {
      Pow2Monotone(a, b - 1);
    }
  }

  lemma {:induction false} ScaledOrder(a: int, b: int, d: nat)
    requires a <= b
    ensures a * d <= b * d
  {
    if d > 0 {
      ScaledOrder(a, b, d - 1);
      assert a * d == a * (d - 1) + a && b * d == b * (d - 1) + b;
    }
  }

  lemma DivisionIsUnique(x: int, d: nat, q: int, r: int)
    requires 0 <= r < d && x == q * d + r
    ensures x / d == q && x % d == r
  {
    var q' := x / d;
    assert x == q' * d + x % d;
    if q' < q {
      ScaledOrder(q' + 1, q, d);
      assert false;
    } else if q < q' {
      ScaledOrder(q + 1, q', d);
      assert false;
    }
  }

  /** A block of d that starts below c blocks of d also ends there. */
  lemma BlockFits(q: nat, c: nat, d: nat)
    requires q * d < c * d
    ensures q * d + d <= c * d
  {
    if c <= q {
      ScaledOrder(c, q, d);
      assert false;
    }
    ScaledOrder(q + 1, c, d);
    assert (q + 1) * d == q * d + d;
  }

  /** x lies in the block of size d that starts at q * d. */
  lemma BlockOf(x: nat, d: nat) returns (q: nat, j: nat)
    requires d > 0
    ensures j < d && x == q * d + j && q * d <= x
  {
    q, j := x / d, x % d;
  }

  /** A power of two is a whole number of any smaller one. */
  lemma Pow2Splits(v: nat, k: nat) returns (c: nat)
    requires k <= v
    ensures Pow2(v) == c * Pow2(k)
  {
    c := Pow2(v - k);
    Pow2Adds(v - k, k);
  }
}
