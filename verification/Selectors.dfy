/** One-hot selectors: what boolean selectors with sum one say about the differences they select. */
module Selectors {

  function PrefixSum(s: seq<int>, n: nat): int
    requires n <= |s|
  {
    if n == 0 then 0 else PrefixSum(s, n - 1) + s[n - 1]
  }

  function SelectedSum(s: seq<int>, d: seq<int>, n: nat): int
    requires n <= |s| == |d|
  {
    if n == 0 then 0 else SelectedSum(s, d, n - 1) + s[n - 1] * d[n - 1]
  }

  predicate Boolean(x: int) {
    x * (x - 1) == 0
  }

  lemma BooleanIsBit(x: int)
    ensures Boolean(x) <==> x == 0 || x == 1
  {
    if x < 0 {
      assert x * (x - 1) == x * x - x;
      assert x * x > 0;
    } else if x > 1 {
      assert x * (x - 1) > 0;
    }
  }

  lemma ZeroProduct(w: int, x: int)
    ensures w * x == 0 <==> w == 0 || x == 0
  {
  }

  /** The selector constraints: booleanity, one-hotness, equal limbs before the selected one, and its increase. */
  predicate SelectsIncrease(s: seq<int>, d: seq<int>, slack: int)
    requires |s| == |d|
  {
    && (forall j :: 0 <= j < |s| ==> Boolean(s[j]))
    && PrefixSum(s, |s|) - 1 == 0
    && (forall j :: 0 <= j < |s| ==> (1 - PrefixSum(s, j + 1)) * d[j] == 0)
    && SelectedSum(s, d, |s|) - 1 - slack == 0
  }

  predicate OneHotAt(s: seq<int>, k: nat) {
    && k < |s|
    && forall j :: 0 <= j < |s| ==> s[j] == if j == k then 1 else 0
  }

  lemma {:induction false} OneHotSums(s: seq<int>, d: seq<int>, k: nat, n: nat)
    requires |s| == |d| && OneHotAt(s, k) && n <= |s|
    ensures PrefixSum(s, n) == if n <= k then 0 else 1
    ensures SelectedSum(s, d, n) == if n <= k then 0 else d[k]
  {
    if n > 0 {
      OneHotSums(s, d, k, n - 1);
      assert s[n - 1] * d[n - 1] == if n - 1 == k then d[k] else 0;
    }
  }

  lemma {:induction false} BitsSumNonNegative(s: seq<int>, n: nat)
    requires n <= |s| && forall j :: 0 <= j < n ==> s[j] == 0 || s[j] == 1
    ensures PrefixSum(s, n) >= 0
    ensures PrefixSum(s, n) == 0 ==> forall j :: 0 <= j < n ==> s[j] == 0
  {
    if n > 0 {
      BitsSumNonNegative(s, n - 1);
    }
  }

  /** Bits that sum to one have exactly one set bit. */
  lemma {:induction false} SumOneIsOneHot(s: seq<int>, n: nat) returns (k: nat)
    requires n <= |s| && (forall j :: 0 <= j < n ==> s[j] == 0 || s[j] == 1) && PrefixSum(s, n) == 1
    ensures k < n && s[k] == 1 && forall j :: 0 <= j < n && j != k ==> s[j] == 0
  {
    if s[n - 1] == 1 {
      BitsSumNonNegative(s, n - 1);
      k := n - 1;
    } else {
      k := SumOneIsOneHot(s, n - 1);
    }
  }

  /** Selector constraints that hold force one selected position, the first to differ, growing by slack + 1. */
  lemma SelectorMeaning(s: seq<int>, d: seq<int>, slack: int) returns (k: nat)
    requires |s| == |d|
    requires SelectsIncrease(s, d, slack)
    ensures OneHotAt(s, k) && (forall j :: 0 <= j < k ==> d[j] == 0) && d[k] == 1 + slack
  {
    forall j | 0 <= j < |s| ensures s[j] == 0 || s[j] == 1 {
      BooleanIsBit(s[j]);
    }
    k := SumOneIsOneHot(s, |s|);
    OneHotSums(s, d, k, |s|);
    forall j | 0 <= j < k ensures d[j] == 0 {
      OneHotSums(s, d, k, j + 1);
      assert (1 - PrefixSum(s, j + 1)) * d[j] == 0;
    }
  }

  lemma SelectorWitness(s: seq<int>, d: seq<int>, slack: int, k: nat)
    requires |s| == |d| && OneHotAt(s, k) && (forall j :: 0 <= j < k ==> d[j] == 0) && d[k] == 1 + slack
    ensures SelectsIncrease(s, d, slack)
  {
    OneHotSums(s, d, k, |s|);
    forall j | 0 <= j < |s| ensures Boolean(s[j]) && (1 - PrefixSum(s, j + 1)) * d[j] == 0 {
      OneHotSums(s, d, k, j + 1);
    }
  }
}
