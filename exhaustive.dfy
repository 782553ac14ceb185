/**
 * The exhaustive part of `SAFE.scan`: the loss of every sample under every
 * combination, then per sample the combination of largest loss (`y_worst`)
 * and of smallest loss (`y_better`), the earliest one on ties.
 *
 * The loss is an oracle `loss(r, m)`: the absolute difference between the
 * scanned model's prediction for sample r with the features of mask m
 * blanked and that sample's label.
 */
module Exhaustive {
  import opened Masks
  import opened Reductions
  import Combinations
  import ForwardSelection

  /** The oracle fixed to one sample: the loss function the per-sample searches see. */
  function SampleLoss(loss: (nat, Mask) -> real, r: nat): Mask -> real {
    m => loss(r, m)
  }

  /** The table `losses[r][c]`: the loss of sample r under combination c. */
  function LossTable(rows: nat, combos: seq<Mask>, loss: (nat, Mask) -> real): seq<seq<real>> {
    seq(rows, r requires 0 <= r < rows => seq(|combos|, c requires 0 <= c < |combos| => loss(r, combos[c])))
  }

  /**
   * `losses = np.zeros((rows, len(combos)))`, then column `index` filled
   * for the whole batch, one combination at a time.
   */
  method ScanLosses(rows: nat, combos: seq<Mask>, loss: (nat, Mask) -> real) returns (losses: seq<seq<real>>)
    ensures losses == LossTable(rows, combos, loss)
  {
    losses := seq(rows, _ => seq(|combos|, _ => 0.0));
    for index := 0 to |combos|
      invariant |losses| == rows
      invariant forall r :: 0 <= r < rows ==> |losses[r]| == |combos|
      invariant forall r, c :: 0 <= r < rows && 0 <= c < index ==> losses[r][c] == loss(r, combos[c])
    {
      var p := combos[index];
      var column := seq(rows, r requires 0 <= r < rows => loss(r, p));
      losses := seq(rows, r requires 0 <= r < rows => losses[r][index := column[r]]);
    }
    var table := LossTable(rows, combos, loss);
    forall r | 0 <= r < rows
      ensures losses[r] == table[r]
    {
      assert |losses[r]| == |table[r]|;
    }
  }

  /** Every row of the table has one entry per combination. */
  predicate IsTableFor(losses: seq<seq<real>>, combos: seq<Mask>) {
    forall r :: 0 <= r < |losses| ==> |losses[r]| == |combos|
  }

  /** `combinations[losses.argmax(axis=1)]`: per sample, the earliest combination of largest loss. */
  function WorstPerSample(combos: seq<Mask>, losses: seq<seq<real>>): (w: seq<Mask>)
    requires |combos| > 0 && IsTableFor(losses, combos)
    ensures |w| == |losses|
    ensures forall r :: 0 <= r < |losses| ==>
      exists k: nat :: IsFirstMax(losses[r], k) && w[r] == combos[k]
  {
    var picks := seq(|losses|, r requires 0 <= r < |losses| => combos[ArgMax(losses[r])]);
    assert forall r :: 0 <= r < |losses| ==> picks[r] == combos[ArgMax(losses[r])];
    assert forall r :: 0 <= r < |losses| ==> exists k: nat :: IsFirstMax(losses[r], k) && picks[r] == combos[k] by {
      forall r | 0 <= r < |losses|
        ensures exists k: nat :: IsFirstMax(losses[r], k) && picks[r] == combos[k]
      {
        var k := ArgMax(losses[r]);
        assert IsFirstMax(losses[r], k);
        assert picks[r] == combos[k];
      }
    }
    picks
  }

  /** `combinations[losses.argmin(axis=1)]`: per sample, the earliest combination of smallest loss. */
  function BetterPerSample(combos: seq<Mask>, losses: seq<seq<real>>): (b: seq<Mask>)
    requires |combos| > 0 && IsTableFor(losses, combos)
    ensures |b| == |losses|
    ensures forall r :: 0 <= r < |losses| ==>
      exists k: nat :: IsFirstMin(losses[r], k) && b[r] == combos[k]
  {
    var picks := seq(|losses|, r requires 0 <= r < |losses| => combos[ArgMin(losses[r])]);
    assert forall r :: 0 <= r < |losses| ==> picks[r] == combos[ArgMin(losses[r])];
    assert forall r :: 0 <= r < |losses| ==> exists k: nat :: IsFirstMin(losses[r], k) && picks[r] == combos[k] by {
      forall r | 0 <= r < |losses|
        ensures exists k: nat :: IsFirstMin(losses[r], k) && picks[r] == combos[k]
      {
        var k := ArgMin(losses[r]);
        assert IsFirstMin(losses[r], k);
        assert picks[r] == combos[k];
      }
    }
    picks
  }

  /**
   * `worst` and `better` hold, for each of `rows` samples, a mask that no
   * binary mask of length n beats: none gives a larger loss than the
   * `worst` row or a smaller loss than the `better` row.
   */
  ghost predicate IsGlobalOptimum(rows: nat, n: nat, loss: (nat, Mask) -> real, worst: seq<Mask>, better: seq<Mask>) {
    |worst| == rows && |better| == rows &&
    forall r, v :: 0 <= r < rows && |v| == n && IsBinary(v) ==>
      loss(r, v) <= loss(r, worst[r]) && loss(r, better[r]) <= loss(r, v)
  }

  /**
   * In 'all' mode the exhaustive choice is a global optimum: no binary mask
   * gives sample r a larger loss than its `y_worst` row or a smaller loss
   * than its `y_better` row.
   */
  lemma AllModeIsGlobalOptimum(n: nat, rows: nat, loss: (nat, Mask) -> real, r: nat, v: Mask)
    requires r < rows && |v| == n && IsBinary(v)
    ensures var combos := Combinations.AllCombinations(n);
      var table := LossTable(rows, combos, loss);
      |combos| > 0 && IsTableFor(table, combos) &&
      loss(r, v) <= loss(r, WorstPerSample(combos, table)[r]) &&
      loss(r, BetterPerSample(combos, table)[r]) <= loss(r, v)
  {
    var combos := Combinations.AllCombinations(n);
    Combinations.AllCombinationsEnds(n);
    Combinations.AllCombinationsComplete(n, v);
    var table := LossTable(rows, combos, loss);
    var c :| 0 <= c < |combos| && combos[c] == v;
    assert table[r][c] == loss(r, v);
    var kw := ArgMax(table[r]);
    assert WorstPerSample(combos, table)[r] == combos[kw];
    assert table[r][kw] == loss(r, combos[kw]);
    var kb := ArgMin(table[r]);
    assert BetterPerSample(combos, table)[r] == combos[kb];
    assert table[r][kb] == loss(r, combos[kb]);
  }

  /** The whole 'all'-mode scan, every sample at once, is a global optimum. */
  lemma AllModeTablesAreGlobalOptimum(n: nat, rows: nat, loss: (nat, Mask) -> real)
    ensures var combos := Combinations.AllCombinations(n);
      var table := LossTable(rows, combos, loss);
      |combos| > 0 && IsTableFor(table, combos) &&
      IsGlobalOptimum(rows, n, loss, WorstPerSample(combos, table), BetterPerSample(combos, table))
  {
    var combos := Combinations.AllCombinations(n);
    Combinations.AllCombinationsEnds(n);
    var table := LossTable(rows, combos, loss);
    forall r, v | 0 <= r < rows && |v| == n && IsBinary(v)
      ensures loss(r, v) <= loss(r, WorstPerSample(combos, table)[r])
      ensures loss(r, BetterPerSample(combos, table)[r]) <= loss(r, v)
    {
      AllModeIsGlobalOptimum(n, rows, loss, r, v);
    }
  }

  /**
   * The greedy forward selection never does better than the exhaustive
   * 'all'-mode scan: its `_max` result gives sample r no larger loss than
   * the `y_worst` row, and its `_min` result no smaller loss than `y_better`.
   */
  lemma GreedyNeverBeatsExhaustive(n: nat, rows: nat, loss: (nat, Mask) -> real, r: nat)
    requires r < rows
    ensures var combos := Combinations.AllCombinations(n);
      var table := LossTable(rows, combos, loss);
      var up := ForwardSelection.Search(ForwardSelection.Maximize, n, SampleLoss(loss, r));
      var down := ForwardSelection.Search(ForwardSelection.Minimize, n, SampleLoss(loss, r));
      |combos| > 0 && IsTableFor(table, combos) &&
      loss(r, up) <= loss(r, WorstPerSample(combos, table)[r]) &&
      loss(r, BetterPerSample(combos, table)[r]) <= loss(r, down)
  {
    var up := ForwardSelection.Search(ForwardSelection.Maximize, n, SampleLoss(loss, r));
    var down := ForwardSelection.Search(ForwardSelection.Minimize, n, SampleLoss(loss, r));
    ForwardSelection.SearchShape(ForwardSelection.Maximize, n, SampleLoss(loss, r));
    ForwardSelection.SearchShape(ForwardSelection.Minimize, n, SampleLoss(loss, r));
    AllModeIsGlobalOptimum(n, rows, loss, r, up);
    AllModeIsGlobalOptimum(n, rows, loss, r, down);
  }

  /**
   * `get_candidates`' filter: the positions, in increasing order, whose
   * displacement (prediction before minus prediction after cleaning) is at
   * least the threshold.
   */
  function GetCandidates(displacement: seq<real>, threshold: real := 0.9): (r: seq<nat>)
    ensures forall k :: 0 <= k < |r| ==> r[k] < |displacement| && displacement[r[k]] >= threshold
    ensures forall j, k :: 0 <= j < k < |r| ==> r[j] < r[k]
    ensures forall i :: 0 <= i < |displacement| && displacement[i] >= threshold ==> i in r
  {
    var atLeast := d => d >= threshold;
    var r := IndicesWhere(displacement, atLeast);
    AllListed(displacement, atLeast);
    r
  }

  lemma AllListed(s: seq<real>, p: real -> bool)
    ensures forall i :: 0 <= i < |s| && p(s[i]) ==> i in IndicesWhere(s, p)
  {
    forall i | 0 <= i < |s| && p(s[i])
      ensures i in IndicesWhere(s, p)
    {
      IndicesWhereComplete(s, p, i);
    }
  }

}
