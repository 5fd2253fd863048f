/** Permutations of 0..n as sequences. */
module Permutations {

  predicate Injective(p: seq<nat>) {
    forall i, j :: 0 <= i < j < |p| ==> p[i] != p[j]
  }

  predicate IsPermutation(p: seq<nat>) {
    (forall j :: 0 <= j < |p| ==> p[j] < |p|) && Injective(p)
  }

  function Below(n: nat): (s: set<nat>)
    ensures |s| == n
    ensures forall i :: i in s <==> 0 <= i < n
  {
    if n == 0 then {} else Below(n - 1) + {n - 1}
  }

  function Image(p: seq<nat>): (s: set<nat>)
    ensures forall i :: i in s <==> i in p
  {
    set i | i in p
  }

  lemma {:induction false} ImageSize(p: seq<nat>)
    requires Injective(p)
    ensures |Image(p)| == |p|
  {
    if p != [] {
      var n := |p| - 1;
      ImageSize(p[..n]);
      assert p == p[..n] + [p[n]];
      assert Image(p) == Image(p[..n]) + {p[n]};
      assert p[n] !in Image(p[..n]);
    }
  }

  lemma SameSizeSubset(a: set<nat>, b: set<nat>)
    requires a <= b && |a| == |b|
    ensures a == b
  {
    if a != b {
      var x :| x in b && x !in a;
      assert a <= b - {x};
      SubsetIsSmaller(a, b - {x});
    }
  }

  lemma {:induction false} SubsetIsSmaller(a: set<nat>, b: set<nat>)
    requires a <= b
    ensures |a| <= |b|
  {
    if a != {} {
      var x :| x in a;
      SubsetIsSmaller(a - {x}, b - {x});
    }
  }

  /** The pigeonhole principle: an injective self-map of 0..n is onto. */
  lemma PermutationIsOnto(p: seq<nat>, i: nat)
    requires IsPermutation(p) && i < |p|
    ensures i in p
  {
    ImageSize(p);
    SameSizeSubset(Image(p), Below(|p|));
  }

  /** A sequence read through a permutation has the same elements, with multiplicity. */
  lemma {:induction false} PermutationKeepsMultiset<T>(a: seq<T>, b: seq<T>, p: seq<nat>)
    requires |a| == |b| == |p| && IsPermutation(p)
    requires forall j :: 0 <= j < |p| ==> b[j] == a[p[j]]
    ensures multiset(a) == multiset(b)
    decreases |p|
  {
    if |p| > 0 {
      var n := |p| - 1;
      PermutationIsOnto(p, n);
      var k :| 0 <= k < |p| && p[k] == n;
      RemovalKeepsPermutation(p, k);
      RemovalKeepsReading(a, b, p, k);
      PermutationKeepsMultiset(Without(a, n), Without(b, k), Without(p, k));
      WithoutMultiset(a, n);
      WithoutMultiset(b, k);
    }
  }

  lemma RemovalKeepsPermutation(p: seq<nat>, k: nat)
    requires IsPermutation(p) && k < |p| && p[k] == |p| - 1
    ensures IsPermutation(Without(p, k))
  {
    var p' := Without(p, k);
    forall j | 0 <= j < |p'| ensures p'[j] < |p'| {
      var i := if j < k then j else j + 1;
      assert p[i] != p[k];
    }
  }

  lemma RemovalKeepsReading<T>(a: seq<T>, b: seq<T>, p: seq<nat>, k: nat)
    requires |a| == |b| == |p| && IsPermutation(p) && k < |p| && p[k] == |p| - 1
    requires forall j :: 0 <= j < |p| ==> b[j] == a[p[j]]
    ensures IsPermutation(Without(p, k))
    ensures forall j :: 0 <= j < |p| - 1 ==> Without(b, k)[j] == Without(a, |p| - 1)[Without(p, k)[j]]
  {
    RemovalKeepsPermutation(p, k);
  }

  lemma WithoutMultiset<T>(s: seq<T>, k: nat)
    requires k < |s|
    ensures multiset(s) == multiset(Without(s, k)) + multiset{s[k]}
  {
    assert s == s[..k] + [s[k]] + s[k + 1..];
  }

  function Without<T>(s: seq<T>, k: nat): (r: seq<T>)
    requires k < |s|
    ensures |r| == |s| - 1
    ensures forall i :: 0 <= i < |r| ==> r[i] == if i < k then s[i] else s[i + 1]
  {
    s[..k] + s[k + 1..]
  }
}
