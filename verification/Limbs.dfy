/** Fixed-width integers as big-endian bytes and as 32-bit limbs, most significant first. */
module Limbs {
  import opened Powers

  const LIMB: nat := 0x1_0000_0000
  const U64: nat := LIMB * LIMB

  type Byte = b: nat | b < 256

  function Pow256(n: nat): (p: nat)
    ensures p >= 1
  {
    if n == 0 then 1 else 256 * Pow256(n - 1)
  }

  /** The n-byte big-endian form of x. */
  function ToBytes(x: nat, n: nat): (bytes: seq<Byte>)
    ensures |bytes| == n
  {
    if n == 0 then [] else ToBytes(x / 256, n - 1) + [x % 256]
  }

  /** The most significant byte comes first. */
  lemma {:induction false} BigEndian(x: nat, n: nat, k: nat)
    requires k < n
    ensures ToBytes(x, n)[k] == x / Pow256(n - 1 - k) % 256
  {
    if k < n - 1 {
      BigEndian(x / 256, n - 1, k);
      DivideTwice(x, Pow256(n - 2 - k));
    }
  }

  lemma DivideTwice(x: nat, p: nat)
    requires p > 0
    ensures x / 256 / p == x / (256 * p)
  {
    var q, r := x / 256, x % 256;
    var a, b := q / p, q % p;
    assert q == a * p + b;
    assert 256 * (a * p) == a * (256 * p);
    DivisionIsUnique(x, 256 * p, a, 256 * b + r);
  }

  function FromBytes(bytes: seq<Byte>): (x: nat)
    ensures x < Pow256(|bytes|)
  {
    if bytes == [] then 0 else FromBytes(bytes[..|bytes| - 1]) * 256 + bytes[|bytes| - 1]
  }

  lemma {:induction false} BytesRoundTrip(x: nat, n: nat)
    requires x < Pow256(n)
    ensures FromBytes(ToBytes(x, n)) == x
  {
    if n > 0 {
      BytesRoundTrip(x / 256, n - 1);
      assert ToBytes(x, n)[..n - 1] == ToBytes(x / 256, n - 1);
    }
  }

  lemma {:induction false} NumberRoundTrip(bytes: seq<Byte>)
    ensures ToBytes(FromBytes(bytes), |bytes|) == bytes
  {
    if bytes != [] {
      hide Pow256;
      var last := |bytes| - 1;
      NumberRoundTrip(bytes[..last]);
      assert FromBytes(bytes) / 256 == FromBytes(bytes[..last]) && FromBytes(bytes) % 256 == bytes[last];
    }
  }

  /** The number that a sequence of limbs denotes. */
  function Number(limbs: seq<nat>): nat {
    if limbs == [] then 0 else Number(limbs[..|limbs| - 1]) * LIMB + limbs[|limbs| - 1]
  }

  function LimbAt(bytes: seq<Byte>, j: nat): (limb: nat)
    requires 4 * j + 4 <= |bytes|
    ensures limb < LIMB
  {
    var b0: nat, b1: nat, b2: nat, b3: nat := bytes[4 * j], bytes[4 * j + 1], bytes[4 * j + 2], bytes[4 * j + 3];
    ((b0 * 256 + b1) * 256 + b2) * 256 + b3
  }

  function BeBytesToLimbs(bytes: seq<Byte>): (limbs: seq<nat>)
    ensures |limbs| == |bytes| / 4
    ensures forall j :: 0 <= j < |limbs| ==> limbs[j] < LIMB
  {
    seq(|bytes| / 4, j requires 0 <= j < |bytes| / 4 => LimbAt(bytes, j))
  }

  /** Regrouping bytes into limbs does not change the number. */
  lemma {:induction false} LimbsDenoteBytes(bytes: seq<Byte>)
    requires |bytes| % 4 == 0
    ensures Number(BeBytesToLimbs(bytes)) == FromBytes(bytes)
    decreases |bytes|
  {
    if bytes != [] {
      var n := |bytes|;
      var front := bytes[..n - 4];
      LimbsDenoteBytes(front);
      var limbs := BeBytesToLimbs(bytes);
      assert limbs[..|limbs| - 1] == BeBytesToLimbs(front);
      LastFourBytes(bytes);
    }
  }

  lemma LastFourBytes(bytes: seq<Byte>)
    requires |bytes| >= 4 && |bytes| % 4 == 0
    ensures FromBytes(bytes) == FromBytes(bytes[..|bytes| - 4]) * LIMB + LimbAt(bytes, |bytes| / 4 - 1)
  {
    var n := |bytes|;
    var b1, b2, b3 := bytes[..n - 1], bytes[..n - 2], bytes[..n - 3];
    assert b1[..n - 2] == b2 && b2[..n - 3] == b3 && b3[..n - 4] == bytes[..n - 4];
    assert FromBytes(b1) == FromBytes(b2) * 256 + bytes[n - 2];
    assert FromBytes(b2) == FromBytes(b3) * 256 + bytes[n - 3];
    assert FromBytes(b3) == FromBytes(bytes[..n - 4]) * 256 + bytes[n - 4];
  }

  predicate AllLimbs(limbs: seq<nat>) {
    forall j :: 0 <= j < |limbs| ==> limbs[j] < LIMB
  }

  predicate FirstDifference(a: seq<nat>, b: seq<nat>, k: nat) {
    && |a| == |b| && k < |a| && a[k] != b[k]
    && forall j :: 0 <= j < k ==> a[j] == b[j]
  }

  /** The first differing limb decides the order of two numbers. */
  lemma {:induction false} FirstDifferenceDecides(a: seq<nat>, b: seq<nat>, k: nat)
    requires AllLimbs(a) && AllLimbs(b) && FirstDifference(a, b, k)
    ensures Number(a) < Number(b) <==> a[k] < b[k]
    ensures Number(a) != Number(b)
    decreases |a|
  {
    var n := |a| - 1;
    if k < n {
      FirstDifferenceDecides(a[..n], b[..n], k);
    } else {
      assert a[..n] == b[..n];
    }
  }

  function FindDifference(a: seq<nat>, b: seq<nat>, from: nat): (k: nat)
    requires |a| == |b| && from <= |a| && (forall j :: 0 <= j < from ==> a[j] == b[j]) && a != b
    ensures FirstDifference(a, b, k)
    decreases |a| - from
  {
    if from < |a| && a[from] == b[from] then FindDifference(a, b, from + 1) else from
  }

  /** Equal numbers of equal width have equal limbs. */
  lemma NumberIsInjective(a: seq<nat>, b: seq<nat>)
    requires AllLimbs(a) && AllLimbs(b) && |a| == |b|
    ensures Number(a) == Number(b) <==> a == b
  {
    if a != b {
      FirstDifferenceDecides(a, b, FindDifference(a, b, 0));
    }
  }

  /** The limbs of a 64-bit number. */
  function U64Limbs(x: nat): (limbs: seq<nat>)
    requires x < U64
    ensures |limbs| == 2 && AllLimbs(limbs) && Number(limbs) == x
  {
    var limbs := [x / LIMB, x % LIMB];
    assert limbs[..1][..0] == [] && Number(limbs[..1]) == x / LIMB;
    limbs
  }

  /** The limbs of a number of n bytes, through its big-endian bytes. */
  function LimbsOfWidth(x: nat, n: nat): (limbs: seq<nat>)
    requires n % 4 == 0 && x < Pow256(n)
    ensures |limbs| == n / 4 && AllLimbs(limbs) && Number(limbs) == x
  {
    BytesRoundTrip(x, n);
    LimbsDenoteBytes(ToBytes(x, n));
    BeBytesToLimbs(ToBytes(x, n))
  }

  /** The limbs of a 256-bit number. */
  function U256Limbs(x: nat): (limbs: seq<nat>)
    requires x < Pow256(32)
    ensures |limbs| == 8 && AllLimbs(limbs) && Number(limbs) == x
  {
    LimbsOfWidth(x, 32)
  }

  lemma TwoLimbs(limbs: seq<nat>)
    requires |limbs| == 2
    ensures Number(limbs) == limbs[0] * LIMB + limbs[1]
  {
    assert limbs[..1][..0] == [] && Number(limbs[..1]) == limbs[0];
  }
}
