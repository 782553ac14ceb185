/**
 * Feature-selection masks: one entry per feature, 1 keeps the feature and 0
 * blanks it out (the element-wise product with a data row). The source keeps
 * them as numpy arrays of 0 and 1 (float or integer); here they are integers.
 */
module Masks {

  type Mask = seq<int>

  /** Every entry is 0 or 1. */
  predicate IsBinary(m: Mask) {
    forall i :: 0 <= i < |m| ==> m[i] == 0 || m[i] == 1
  }

  /** `np.ones(n)` */
  function Ones(n: nat): (m: Mask)
    ensures |m| == n && IsBinary(m)
  {
    seq(n, _ => 1)
  }

  /** `np.zeros(n)` */
  function Zeros(n: nat): (m: Mask)
    ensures |m| == n && IsBinary(m)
  {
    seq(n, _ => 0)
  }

  /** 2 to the power n: the number of distinct binary masks of length n. */
  function Pow2(n: nat): (p: nat)
    ensures p >= 1
  {
    if n == 0 then 1 else 2 * Pow2(n - 1)
  }

  /**
   * The positions of `s` whose element satisfies `p`, in increasing order:
   * the shape of `[i for i, x in enumerate(s) if p(x)]`. Defined on prefixes,
   * so that a loop that walks `s` from the front appends to it.
   */
  function IndicesWhere<T>(s: seq<T>, p: T -> bool): (r: seq<nat>)
    ensures |r| <= |s|
    ensures forall k :: 0 <= k < |r| ==> r[k] < |s| && p(s[r[k]])
    ensures forall j, k :: 0 <= j < k < |r| ==> r[j] < r[k]
    decreases |s|
  {
    if s == [] then []
    else
      var front := s[..|s| - 1];
      var r := IndicesWhere(front, p);
      assert forall i :: 0 <= i < |front| ==> front[i] == s[i];
      r + (if p(s[|s| - 1]) then [|s| - 1] else [])
  }

  /** Every position whose element satisfies `p` is listed. */
  lemma {:induction false} IndicesWhereComplete<T>(s: seq<T>, p: T -> bool, i: nat)
    requires i < |s| && p(s[i])
    ensures exists k :: 0 <= k < |IndicesWhere(s, p)| && IndicesWhere(s, p)[k] == i
    decreases |s|
  {
    var front := s[..|s| - 1];
    var r := IndicesWhere(front, p);
    assert IndicesWhere(s, p) == r + (if p(s[|s| - 1]) then [|s| - 1] else []);
    if i < |s| - 1 {
      assert front[i] == s[i];
      IndicesWhereComplete(front, p, i);
      var k :| 0 <= k < |r| && r[k] == i;
      assert IndicesWhere(s, p)[k] == i;
    } else {
      assert IndicesWhere(s, p)[|r|] == i;
    }
  }

  predicate NonZero(b: int) { b != 0 }

  /** The features a mask keeps, in increasing order. */
  function SetBits(m: Mask): seq<nat> {
    IndicesWhere(m, NonZero)
  }

  /** The number of features a mask blanks out. */
  function ZeroCount(m: Mask): nat {
    |m| - |SetBits(m)|
  }

  /** In a strictly increasing sequence, an element below `s[k]` sits before position k. */
  lemma IncreasingIndex(s: seq<nat>, k: nat, x: nat)
    requires forall a, b :: 0 <= a < b < |s| ==> s[a] < s[b]
    requires k < |s| && x in s && x < s[k]
    ensures exists j :: 0 <= j < k && s[j] == x
  {
    var j :| 0 <= j < |s| && s[j] == x;
    assert j < k;
  }

  /** Clearing one kept feature keeps one feature fewer. */
  lemma {:induction false} ClearOne(m: Mask, i: nat)
    requires i < |m| && m[i] != 0
    ensures |SetBits(m[i := 0])| + 1 == |SetBits(m)|
    decreases |m|
  {
    var last := |m| - 1;
    var c := m[i := 0];
    if i == last {
      assert c[..last] == m[..last];
    } else {
      ClearOne(m[..last], i);
      assert c[..last] == m[..last][i := 0];
    }
  }

  /** The all-ones mask keeps every feature. */
  lemma {:induction false} SetBitsOnes(n: nat)
    ensures |SetBits(Ones(n))| == n
  {
    if n > 0 {
      SetBitsOnes(n - 1);
      assert Ones(n)[..n - 1] == Ones(n - 1);
    }
  }
}
