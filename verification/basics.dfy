/**
 * Small shared vocabulary: optional values, results of operations that
 * the original code can abort with an exception, and counting/arg-max
 * helpers over sequences.
 */
module Basics {

  datatype Option<+T> = None | Some(value: T)

  /** An operation that either produces a value or raises (any Python exception). */
  datatype Result<+T> = Ok(value: T) | Fail

  /** The number of `true` entries of a boolean mask. */
  function Count(m: seq<bool>): (c: nat)
    ensures c <= |m|
    ensures c == 0 <==> forall i :: 0 <= i < |m| ==> !m[i]
    ensures c == |m| <==> forall i :: 0 <= i < |m| ==> m[i]
  {
    if m == [] then 0
    else Count(m[..|m| - 1]) + (if m[|m| - 1] then 1 else 0)
  }

  /** One more factor: (u + 1) * a distributes. */
  lemma MulSucc(u: nat, a: nat)
    ensures (u + 1) * a == u * a + a
  {
  }

  /** `[0, 1, ..., n-1]`. */
  function Range(n: nat): (r: seq<nat>)
    ensures |r| == n
    ensures forall i :: 0 <= i < n ==> r[i] == i
  {
    seq(n, i => i)
  }

  /** Largest entry of a non-empty sequence. */
  function Max(s: seq<int>): (m: int)
    requires |s| > 0
    ensures forall i :: 0 <= i < |s| ==> s[i] <= m
    ensures exists i :: 0 <= i < |s| && s[i] == m
  {
    if |s| == 1 then s[0]
    else
      var m' := Max(s[..|s| - 1]);
      assert forall i :: 0 <= i < |s| - 1 ==> s[..|s| - 1][i] == s[i];
      if s[|s| - 1] > m' then s[|s| - 1] else m'
  }

  /** k is admitted, no admitted score beats it, and every earlier admitted score is smaller. */
  predicate IsArgMax(s: seq<int>, excluded: seq<bool>, k: int)
    requires |s| == |excluded|
  {
    && 0 <= k < |s| && !excluded[k]
    && (forall i :: 0 <= i < |s| && !excluded[i] ==> s[i] <= s[k])
    && (forall i :: 0 <= i < k && !excluded[i] ==> s[i] < s[k])
  }

  /** The arg-max is determined by the scores and the exclusions. */
  lemma ArgMaxUnique(s: seq<int>, excluded: seq<bool>, k1: int, k2: int)
    requires |s| == |excluded|
    requires IsArgMax(s, excluded, k1) && IsArgMax(s, excluded, k2)
    ensures k1 == k2
  {
  }

  /**
   * The arg-max among the first m entries: -1 when all of them are
   * excluded, otherwise the first admitted index of greatest score.
   */
  function ArgMaxUpTo(s: seq<int>, excluded: seq<bool>, m: nat): (k: int)
    requires |s| == |excluded| && m <= |s|
    ensures -1 <= k < m
    ensures k == -1 <==> forall i :: 0 <= i < m ==> excluded[i]
    ensures k >= 0 ==> !excluded[k] && (forall i :: 0 <= i < m && !excluded[i] ==> s[i] <= s[k])
    ensures k >= 0 ==> forall i :: 0 <= i < k && !excluded[i] ==> s[i] < s[k]
  {
    if m == 0 then -1
    else
      var k := ArgMaxUpTo(s, excluded, m - 1);
      if !excluded[m - 1] && (k == -1 || s[m - 1] > s[k]) then m - 1 else k
  }

  /** The arg-max as a value: the one index `IsArgMax` admits. */
  function FirstArgMax(s: seq<int>, excluded: seq<bool>): (k: nat)
    requires |s| == |excluded|
    requires exists i :: 0 <= i < |s| && !excluded[i]
    ensures IsArgMax(s, excluded, k)
  {
    ArgMaxUpTo(s, excluded, |s|)
  }

  /**
   * numpy's `argmax` over the entries that `excluded` does not rule out:
   * the first index whose value is maximal among the admitted ones.
   * Setting excluded scores to minus infinity and taking `argmax` gives
   * the same index whenever one entry is admitted.
   */
  method ArgMaxAdmitted(s: seq<int>, excluded: seq<bool>) returns (k: nat)
    requires |s| == |excluded|
    requires exists i :: 0 <= i < |s| && !excluded[i]
    ensures IsArgMax(s, excluded, k) && k == FirstArgMax(s, excluded)
  {
    var found := false;
    k := 0;
    var i := 0;
    while i < |s|
      invariant 0 <= i <= |s|
      invariant found ==> k < i && !excluded[k]
      invariant found ==> forall j :: 0 <= j < i && !excluded[j] ==> s[j] <= s[k]
      invariant found ==> forall j :: 0 <= j < k && !excluded[j] ==> s[j] < s[k]
      invariant !found ==> forall j :: 0 <= j < i ==> excluded[j]
    {
      if !excluded[i] && (!found || s[i] > s[k]) {
        k, found := i, true;
      }
      i := i + 1;
    }
    ArgMaxUnique(s, excluded, k, FirstArgMax(s, excluded));
  }

  /** Position k holds the least value of s, and no earlier position does. */
  predicate FirstMin(s: seq<int>, k: nat)
    requires k < |s|
  {
    (forall i :: 0 <= i < |s| ==> s[k] <= s[i]) && (forall i :: 0 <= i < k ==> s[k] < s[i])
  }

  /** The first position of the least value among the first m entries. */
  function MinUpTo(s: seq<int>, m: nat): (k: nat)
    requires 0 < m <= |s|
    ensures k < m
    ensures forall i :: 0 <= i < m ==> s[k] <= s[i]
    ensures forall i :: 0 <= i < k ==> s[k] < s[i]
  {
    if m == 1 then 0
    else
      var k := MinUpTo(s, m - 1);
      if s[m - 1] < s[k] then m - 1 else k
  }

  /** The first minimum as a value. */
  function FirstMinOf(s: seq<int>): (k: nat)
    requires |s| > 0
    ensures k < |s| && FirstMin(s, k)
  {
    MinUpTo(s, |s|)
  }

  /** The first minimum is determined by the values. */
  lemma FirstMinUnique(s: seq<int>, k1: nat, k2: nat)
    requires k1 < |s| && k2 < |s| && FirstMin(s, k1) && FirstMin(s, k2)
    ensures k1 == k2
  {
    assert s[k1] <= s[k2] && s[k2] <= s[k1];
  }

  /** numpy's `argmin`: the first position of the least value. */
  method ArgMin(s: seq<int>) returns (k: nat)
    requires |s| > 0
    ensures k < |s| && FirstMin(s, k) && k == FirstMinOf(s)
  {
    k := 0;
    for i := 1 to |s|
      invariant k < i
      invariant forall j :: 0 <= j < i ==> s[k] <= s[j]
      invariant forall j :: 0 <= j < k ==> s[k] < s[j]
    {
      if s[i] < s[k] {
        k := i;
      }
    }
    FirstMinUnique(s, k, FirstMinOf(s));
  }

  /** `NoneExcluded(n)`: the all-false mask of length n. */
  function NoneExcluded(n: nat): (m: seq<bool>)
    ensures |m| == n && Count(m) == 0
    ensures forall i :: 0 <= i < n ==> !m[i]
  {
    seq(n, _ => false)
  }
}
