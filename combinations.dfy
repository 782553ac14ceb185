/**
 * The mask tables `SAFE._generate_combination` builds over n features:
 * every binary mask ('all' mode, also used by 'genetic') or the all-ones
 * mask with one feature blanked at a time ('one-by-one' mode).
 */
module Combinations {
  import opened Masks

  /** Every row of `rows` with `b` put in front. */
  function Prefixed(b: int, rows: seq<Mask>): (r: seq<Mask>)
    ensures |r| == |rows|
  {
    seq(|rows|, k requires 0 <= k < |rows| => [b] + rows[k])
  }

  /**
   * `list(itertools.product([0, 1], repeat=n))`: all tuples over {0, 1} in
   * lexicographic order, the first position varying slowest.
   */
  function Product(n: nat): (p: seq<Mask>)
    ensures |p| > 0
  {
    if n == 0 then [[]]
    else Prefixed(0, Product(n - 1)) + Prefixed(1, Product(n - 1))
  }

  /** A mask read back to front. */
  function Reverse(m: Mask): (r: Mask)
    ensures |r| == |m|
  {
    seq(|m|, i requires 0 <= i < |m| => m[|m| - 1 - i])
  }

  /** `np.flip` with no axis: a 2-D table reversed along both axes. */
  function Flip(rows: seq<Mask>): (r: seq<Mask>)
    ensures |r| == |rows|
  {
    seq(|rows|, k requires 0 <= k < |rows| => Reverse(rows[|rows| - 1 - k]))
  }

  /** The table of 'all' mode: `np.flip(np.array(list(itertools.product([0, 1], repeat=n))))`. */
  function AllCombinations(n: nat): (a: seq<Mask>)
    ensures |a| == |Product(n)| > 0
  {
    Flip(Product(n))
  }

  lemma ReverseReverse(m: Mask)
    ensures Reverse(Reverse(m)) == m
  {
  }

  lemma {:induction false} ProductShape(n: nat)
    ensures |Product(n)| == Pow2(n)
    ensures forall k :: 0 <= k < |Product(n)| ==> |Product(n)[k]| == n && IsBinary(Product(n)[k])
  {
    if n > 0 {
      ProductShape(n - 1);
      var p := Product(n - 1);
      forall k | 0 <= k < |Product(n)|
        ensures |Product(n)[k]| == n && IsBinary(Product(n)[k])
      {
        if k < |p| {
          assert Product(n)[k] == [0] + p[k];
        } else {
          assert Product(n)[k] == [1] + p[k - |p|];
        }
      }
    }
  }

  lemma {:induction false} ProductDistinct(n: nat)
    ensures forall j, k :: 0 <= j < k < |Product(n)| ==> Product(n)[j] != Product(n)[k]
  {
    if n > 0 {
      ProductDistinct(n - 1);
      var p := Product(n - 1);
      var h := |p|;
      forall j, k | 0 <= j < k < |Product(n)|
        ensures Product(n)[j] != Product(n)[k]
      {
        var rj := Product(n)[j];
        var rk := Product(n)[k];
        if k < h {
          assert rj == [0] + p[j] && rk == [0] + p[k];
          assert rj[1..] == p[j] && rk[1..] == p[k];
        } else if j >= h {
          assert rj == [1] + p[j - h] && rk == [1] + p[k - h];
          assert rj[1..] == p[j - h] && rk[1..] == p[k - h];
        } else {
          assert rj[0] == 0 && rk[0] == 1;
        }
      }
    }
  }

  lemma {:induction false} ProductComplete(n: nat, v: Mask)
    requires |v| == n && IsBinary(v)
    ensures exists k :: 0 <= k < |Product(n)| && Product(n)[k] == v
  {
    if n == 0 {
      assert Product(0)[0] == v;
    } else {
      var t := v[1..];
      ProductComplete(n - 1, t);
      var p := Product(n - 1);
      var k :| 0 <= k < |p| && p[k] == t;
      assert v == [v[0]] + t;
      if v[0] == 0 {
        assert Product(n)[k] == v;
      } else {
        assert Product(n)[|p| + k] == v;
      }
    }
  }

  lemma {:induction false} ProductEnds(n: nat)
    ensures |Product(n)| > 0
    ensures Product(n)[0] == Zeros(n)
    ensures Product(n)[|Product(n)| - 1] == Ones(n)
  {
    if n > 0 {
      ProductEnds(n - 1);
      var p := Product(n - 1);
      assert Product(n)[0] == [0] + Zeros(n - 1) == Zeros(n);
      assert Product(n)[|Product(n)| - 1] == [1] + Ones(n - 1) == Ones(n);
    }
  }

  /** 'all' mode yields 2^n masks of n entries, each 0 or 1. */
  lemma AllCombinationsShape(n: nat)
    ensures |AllCombinations(n)| == Pow2(n)
    ensures forall k :: 0 <= k < |AllCombinations(n)| ==>
      |AllCombinations(n)[k]| == n && IsBinary(AllCombinations(n)[k])
  {
    ProductShape(n);
    var p := Product(n);
    forall k | 0 <= k < |p|
      ensures |AllCombinations(n)[k]| == n && IsBinary(AllCombinations(n)[k])
    {
      assert AllCombinations(n)[k] == Reverse(p[|p| - 1 - k]);
    }
  }

  /** Every binary mask of length n has a row in the 'all' table. */
  lemma AllCombinationsComplete(n: nat, v: Mask)
    requires |v| == n && IsBinary(v)
    ensures exists k :: 0 <= k < |AllCombinations(n)| && AllCombinations(n)[k] == v
  {
    var p := Product(n);
    var w := Reverse(v);
    ProductComplete(n, w);
    var k :| 0 <= k < |p| && p[k] == w;
    ReverseReverse(v);
    assert AllCombinations(n)[|p| - 1 - k] == v;
  }

  /** No mask has two rows in the 'all' table. */
  lemma AllCombinationsDistinct(n: nat)
    ensures forall j, k :: 0 <= j < k < |AllCombinations(n)| ==>
      AllCombinations(n)[j] != AllCombinations(n)[k]
  {
    var p := Product(n);
    var a := AllCombinations(n);
    ProductDistinct(n);
    forall j, k | 0 <= j < k < |a|
      ensures a[j] != a[k]
    {
      if a[j] == a[k] {
        ReverseReverse(p[|p| - 1 - j]);
        ReverseReverse(p[|p| - 1 - k]);
        assert false;
      }
    }
  }

  /** 'all' mode lists every binary mask of length n exactly once. */
  lemma AllCombinationsExactlyOnce(n: nat)
    ensures forall v :: |v| == n && IsBinary(v) ==>
      exists k :: 0 <= k < |AllCombinations(n)| && AllCombinations(n)[k] == v
    ensures forall j, k :: 0 <= j < k < |AllCombinations(n)| ==>
      AllCombinations(n)[j] != AllCombinations(n)[k]
  {
    forall v | |v| == n && IsBinary(v)
      ensures exists k :: 0 <= k < |AllCombinations(n)| && AllCombinations(n)[k] == v
    {
      AllCombinationsComplete(n, v);
    }
    AllCombinationsDistinct(n);
  }

  /** After the flip, the table starts with the all-ones mask and ends with the all-zeros mask. */
  lemma AllCombinationsEnds(n: nat)
    ensures |AllCombinations(n)| > 0
    ensures AllCombinations(n)[0] == Ones(n)
    ensures AllCombinations(n)[|AllCombinations(n)| - 1] == Zeros(n)
  {
    ProductEnds(n);
    var p := Product(n);
    assert AllCombinations(n)[0] == Reverse(p[|p| - 1]) == Ones(n);
    assert AllCombinations(n)[|p| - 1] == Reverse(p[0]) == Zeros(n);
  }

  /** The table of 'one-by-one' mode, entry by entry. */
  predicate IsOneByOneTable(rows: seq<Mask>, n: nat) {
    |rows| == n + 1 &&
    (forall i :: 0 <= i < |rows| ==> |rows[i]| == n) &&
    (forall i, j :: 0 <= i < |rows| && 0 <= j < n ==>
      rows[i][j] == if 1 <= i < n && i == j then 0 else 1)
  }

  /**
   * 'one-by-one' mode: `np.ones((n + 1, n))`, then `rows[i, i] = 0` for
   * `i in range(1, n)`. Row 0 and row n keep every feature, so feature 0
   * is never blanked.
   */
  method OneByOneCombinations(n: nat) returns (rows: seq<Mask>)
    ensures IsOneByOneTable(rows, n)
    ensures rows[0] == Ones(n) && rows[n] == Ones(n)
    ensures forall i :: 1 <= i < n ==> rows[i] == Ones(n)[i := 0]
    ensures forall i :: 0 <= i <= n ==> IsBinary(rows[i])
    ensures n > 0 ==> forall i :: 0 <= i <= n ==> rows[i][0] == 1
  {
    rows := seq(n + 1, _ => Ones(n));
    var i := 1;
    while i < n
      invariant 1 <= i <= n || (n == 0 && i == 1)
      invariant |rows| == n + 1
      invariant forall r :: 0 <= r < |rows| ==> |rows[r]| == n
      invariant forall r, j :: 0 <= r < |rows| && 0 <= j < n ==>
        rows[r][j] == if 1 <= r < i && r == j then 0 else 1
    {
      rows := rows[i := rows[i][i := 0]];
      i := i + 1;
    }
  }
}
