/**
 * The greedy forward-selection search of
 * `SAFE.__combination_search_forward_selection_min` and `_max`: start from
 * the all-ones mask; each round try blanking each still-kept feature, take
 * the best of those candidates (the lowest feature on ties) if it strictly
 * improves the loss, and otherwise stop.
 */
module ForwardSelection {
  import opened Wrappers
  import opened Masks
  import opened Reductions

  /** `_min` (aim 'better') drives the loss down, `_max` (aim 'worst') drives it up. */
  datatype Direction = Minimize | Maximize

  /** Loss `a` is strictly better than loss `b`. */
  predicate Improves(dir: Direction, a: real, b: real) {
    match dir
    case Minimize => a < b
    case Maximize => a > b
  }

  /** One round's candidates: `best` with one kept feature blanked, in feature order. */
  function Candidates(best: Mask): seq<Mask> {
    var bits := SetBits(best);
    seq(|bits|, k requires 0 <= k < |bits| => best[bits[k] := 0])
  }

  /** The oracle's loss for each mask in turn. */
  function LossesOf(loss: Mask -> real, masks: seq<Mask>): seq<real> {
    seq(|masks|, k requires 0 <= k < |masks| => loss(masks[k]))
  }

  /** `losses.index(min(losses))`, or `max` for the other direction. */
  function BestIndex(dir: Direction, losses: seq<real>): nat
    requires |losses| > 0
  {
    match dir
    case Minimize => ArgMin(losses)
    case Maximize => ArgMax(losses)
  }

  /** No single further bit-clear strictly improves the loss of `m`. */
  predicate IsLocalOptimum(dir: Direction, m: Mask, loss: Mask -> real) {
    forall i :: 0 <= i < |m| && m[i] != 0 ==> !Improves(dir, loss(m[i := 0]), loss(m))
  }

  /**
   * Among the kept features below `bound`, blanking feature f gives a best
   * loss, and blanking any lower kept feature gives a strictly worse one.
   */
  predicate IsFirstBest(dir: Direction, best: Mask, loss: Mask -> real, bound: nat, f: nat)
    requires bound <= |best|
  {
    f < bound && best[f] != 0 &&
    (forall j :: 0 <= j < bound && best[j] != 0 ==> !Improves(dir, loss(best[j := 0]), loss(best[f := 0]))) &&
    (forall j :: 0 <= j < f && best[j] != 0 ==> Improves(dir, loss(best[f := 0]), loss(best[j := 0])))
  }

  /** Blanking feature i is what an accepted round of the search does to `best`. */
  predicate IsGreedyChoice(dir: Direction, best: Mask, loss: Mask -> real, i: nat) {
    i < |best| && IsFirstBest(dir, best, loss, |best|, i) &&
    Improves(dir, loss(best[i := 0]), loss(best))
  }

  /** `next` is what one accepted round makes of `best`. */
  predicate IsAcceptedStep(dir: Direction, best: Mask, loss: Mask -> real, next: Mask) {
    exists i :: 0 <= i < |best| && next == best[i := 0] && IsGreedyChoice(dir, best, loss, i)
  }

  /**
   * A reference definition of one round's choice: walk the features in
   * order and keep the first kept feature whose blanking is strictly best
   * so far. `None` when no feature below `bound` is kept.
   */
  function BestFeature(dir: Direction, best: Mask, loss: Mask -> real, bound: nat): (f: Option<nat>)
    requires bound <= |best|
    ensures f.Some? ==> f.value < bound && best[f.value] != 0
    decreases bound
  {
    if bound == 0 then None
    else
      var j := bound - 1;
      var f := BestFeature(dir, best, loss, j);
      if best[j] == 0 then f
      else
        match f
        case None => Some(j)
        case Some(g) =>
          if Improves(dir, loss(best[j := 0]), loss(best[g := 0])) then Some(j) else Some(g)
  }

  /** The reference choice is the first best kept feature, and there is one whenever a feature is kept. */
  lemma {:induction false} BestFeatureIsFirstBest(dir: Direction, best: Mask, loss: Mask -> real, bound: nat)
    requires bound <= |best|
    ensures BestFeature(dir, best, loss, bound).None? ==> forall j :: 0 <= j < bound ==> best[j] == 0
    ensures BestFeature(dir, best, loss, bound).Some? ==>
      IsFirstBest(dir, best, loss, bound, BestFeature(dir, best, loss, bound).value)
    decreases bound
  {
    if bound > 0 {
      BestFeatureIsFirstBest(dir, best, loss, bound - 1);
    }
  }

  /** At most one feature is the first best one. */
  lemma FirstBestUnique(dir: Direction, best: Mask, loss: Mask -> real, bound: nat, f: nat, g: nat)
    requires bound <= |best|
    requires IsFirstBest(dir, best, loss, bound, f) && IsFirstBest(dir, best, loss, bound, g)
    ensures f == g
  {
  }

  /**
   * The source's round, `losses.index(min(losses))` over the candidate
   * list (or `max`), blanks the feature the reference definition picks.
   */
  lemma RoundPicksBestFeature(dir: Direction, best: Mask, loss: Mask -> real)
    requires |SetBits(best)| > 0
    ensures var bits := SetBits(best);
      var k := BestIndex(dir, LossesOf(loss, Candidates(best)));
      k < |bits| && BestFeature(dir, best, loss, |best|) == Some(bits[k])
  {
    var bits := SetBits(best);
    var losses := LossesOf(loss, Candidates(best));
    var k := BestIndex(dir, losses);
    var f := bits[k];
    forall j | 0 <= j < |best| && best[j] != 0
      ensures !Improves(dir, loss(best[j := 0]), loss(best[f := 0]))
      ensures j < f ==> Improves(dir, loss(best[f := 0]), loss(best[j := 0]))
    {
      IndicesWhereComplete(best, NonZero, j);
      var kj :| 0 <= kj < |bits| && bits[kj] == j;
      assert losses[kj] == loss(best[j := 0]);
      if j < f {
        assert j in bits;
        IncreasingIndex(bits, k, j);
        var kj' :| 0 <= kj' < k && bits[kj'] == j;
        assert losses[kj'] == loss(best[j := 0]);
      }
    }
    assert NonZero(best[f]);
    assert IsFirstBest(dir, best, loss, |best|, f);
    var r := BestFeature(dir, best, loss, |best|);
    BestFeatureIsFirstBest(dir, best, loss, |best|);
    FirstBestUnique(dir, best, loss, |best|, r.value, f);
  }

  /** When no feature is kept there is nothing to blank. */
  lemma NoCandidates(best: Mask)
    requires |SetBits(best)| == 0
    ensures forall j :: 0 <= j < |best| ==> best[j] == 0
  {
    forall j | 0 <= j < |best|
      ensures best[j] == 0
    {
      if best[j] != 0 {
        IndicesWhereComplete(best, NonZero, j);
      }
    }
  }

  /**
   * One round of the search from `best`: `Some` of the accepted mask, or
   * `None` when the round returns `best`.
   */
  function Step(dir: Direction, best: Mask, loss: Mask -> real): Option<Mask>
  {
    match BestFeature(dir, best, loss, |best|)
    case None => None
    case Some(f) =>
      if Improves(dir, loss(best[f := 0]), loss(best)) then Some(best[f := 0]) else None
  }

  /**
   * A round accepts the greedy choice (lowest feature on ties) when it
   * strictly improves the loss, and returns `best` only at a local optimum.
   */
  lemma StepIsGreedy(dir: Direction, best: Mask, loss: Mask -> real)
    ensures Step(dir, best, loss).Some? ==> IsAcceptedStep(dir, best, loss, Step(dir, best, loss).value)
    ensures Step(dir, best, loss).None? ==> IsLocalOptimum(dir, best, loss)
  {
    BestFeatureIsFirstBest(dir, best, loss, |best|);
    match BestFeature(dir, best, loss, |best|)
    case None =>
    case Some(f) =>
      if Improves(dir, loss(best[f := 0]), loss(best)) {
        assert IsGreedyChoice(dir, best, loss, f);
      }
  }

  /** An accepted round blanks one feature that was kept. */
  lemma StepClearsOne(dir: Direction, best: Mask, loss: Mask -> real)
    requires Step(dir, best, loss).Some?
    ensures exists i :: 0 <= i < |best| && best[i] != 0 && Step(dir, best, loss).value == best[i := 0]
  {
  }

  /** The masks a search of at most `rounds` rounds holds in turn, starting from `best`. */
  function SearchPath(dir: Direction, best: Mask, loss: Mask -> real, rounds: nat): (path: seq<Mask>)
    ensures |path| >= 1 && path[0] == best
    decreases rounds
  {
    if rounds == 0 then [best]
    else
      match Step(dir, best, loss)
      case None => [best]
      case Some(next) => [best] + SearchPath(dir, next, loss, rounds - 1)
  }

  /** The mask the search over n features returns. */
  function Search(dir: Direction, n: nat, loss: Mask -> real): Mask {
    var path := SearchPath(dir, Ones(n), loss, n);
    path[|path| - 1]
  }

  /** The path is a chain of rounds that each accepted a mask, at most `rounds` of them; if it ends early, its last round accepted nothing. */
  lemma {:induction false} PathSteps(dir: Direction, best: Mask, loss: Mask -> real, rounds: nat)
    ensures var path := SearchPath(dir, best, loss, rounds);
      |path| <= rounds + 1 &&
      (forall k :: 0 <= k < |path| - 1 ==> Step(dir, path[k], loss) == Some(path[k + 1])) &&
      (|path| <= rounds ==> Step(dir, path[|path| - 1], loss) == None)
    decreases rounds
  {
    if rounds > 0 {
      match Step(dir, best, loss)
      case None =>
      case Some(next) =>
        PathSteps(dir, next, loss, rounds - 1);
        var rest := SearchPath(dir, next, loss, rounds - 1);
        var path := SearchPath(dir, best, loss, rounds);
        assert path == [best] + rest;
        forall k | 1 <= k < |path| - 1
          ensures Step(dir, path[k], loss) == Some(path[k + 1])
        {
          assert path[k] == rest[k - 1] && path[k + 1] == rest[k];
        }
    }
  }

  /** `m` is `best` with some features blanked, and nothing else changed. */
  predicate ClearedFrom(m: Mask, best: Mask) {
    |m| == |best| && forall i :: 0 <= i < |best| ==> m[i] == best[i] || m[i] == 0
  }

  /** Every mask of `path` is `best` with some features blanked. */
  predicate AllClearedFrom(path: seq<Mask>, best: Mask) {
    forall k :: 0 <= k < |path| ==> ClearedFrom(path[k], best)
  }

  /** Mask k of `path` keeps exactly k features fewer than `best`. */
  predicate OneFewerPerStep(path: seq<Mask>, best: Mask) {
    forall k :: 0 <= k < |path| ==> |SetBits(path[k])| + k == |SetBits(best)|
  }

  /** No feature blanked by the search comes back, and nothing else changes. */
  lemma {:induction false} PathCleared(dir: Direction, best: Mask, loss: Mask -> real, rounds: nat)
    ensures AllClearedFrom(SearchPath(dir, best, loss, rounds), best)
    decreases rounds
  {
    if rounds > 0 {
      match Step(dir, best, loss)
      case None =>
      case Some(next) =>
        PathCleared(dir, next, loss, rounds - 1);
        StepClearsOne(dir, best, loss);
        var rest := SearchPath(dir, next, loss, rounds - 1);
        var path := SearchPath(dir, best, loss, rounds);
        assert path == [best] + rest;
        forall k | 1 <= k < |path|
          ensures ClearedFrom(path[k], best)
        {
          assert path[k] == rest[k - 1];
          assert ClearedFrom(rest[k - 1], next);
        }
    }
  }

  /** Each accepted round blanks exactly one feature that was kept. */
  lemma {:induction false} PathCounts(dir: Direction, best: Mask, loss: Mask -> real, rounds: nat)
    ensures OneFewerPerStep(SearchPath(dir, best, loss, rounds), best)
    decreases rounds
  {
    if rounds > 0 {
      match Step(dir, best, loss)
      case None =>
      case Some(next) =>
        PathCounts(dir, next, loss, rounds - 1);
        StepClearsOne(dir, best, loss);
        var i :| 0 <= i < |best| && best[i] != 0 && next == best[i := 0];
        ClearOne(best, i);
        var rest := SearchPath(dir, next, loss, rounds - 1);
        var path := SearchPath(dir, best, loss, rounds);
        assert path == [best] + rest;
        forall k | 1 <= k < |path|
          ensures |SetBits(path[k])| + k == |SetBits(best)|
        {
          assert path[k] == rest[k - 1];
        }
    }
  }

  /** Losses strictly improve from each mask of `path` to every later one. */
  predicate ImprovesAlong(dir: Direction, path: seq<Mask>, loss: Mask -> real) {
    forall j, k :: 0 <= j < k < |path| ==> Improves(dir, loss(path[k]), loss(path[j]))
  }

  /** Every accepted round strictly improves the loss, so losses along the path strictly improve. */
  lemma {:induction false} PathImproves(dir: Direction, best: Mask, loss: Mask -> real, rounds: nat)
    ensures ImprovesAlong(dir, SearchPath(dir, best, loss, rounds), loss)
    decreases rounds
  {
    if rounds > 0 {
      match Step(dir, best, loss)
      case None =>
      case Some(next) =>
        PathImproves(dir, next, loss, rounds - 1);
        var rest := SearchPath(dir, next, loss, rounds - 1);
        var path := SearchPath(dir, best, loss, rounds);
        assert path == [best] + rest;
        StepIsGreedy(dir, best, loss);
        assert Improves(dir, loss(next), loss(best));
        forall j, k | 0 <= j < k < |path|
          ensures Improves(dir, loss(path[k]), loss(path[j]))
        {
          if j == 0 && k > 1 {
            assert path[k] == rest[k - 1] && rest[0] == next;
            assert Improves(dir, loss(rest[k - 1]), loss(rest[0]));
          } else if j > 0 {
            assert path[k] == rest[k - 1] && path[j] == rest[j - 1];
            assert Improves(dir, loss(rest[k - 1]), loss(rest[j - 1]));
          }
        }
    }
  }

  /** The search returns a 0/1 mask over n features whose zeros are its accepted rounds, at most n of them. */
  lemma SearchShape(dir: Direction, n: nat, loss: Mask -> real)
    ensures var path := SearchPath(dir, Ones(n), loss, n);
      var r := Search(dir, n, loss);
      |r| == n && IsBinary(r) && ZeroCount(r) == |path| - 1 && ZeroCount(r) <= n
  {
    PathSteps(dir, Ones(n), loss, n);
    PathCounts(dir, Ones(n), loss, n);
    PathCleared(dir, Ones(n), loss, n);
    SetBitsOnes(n);
  }

  /** Round k (from 0) weighs exactly n - k candidates, so `min`/`max` never sees an empty list. */
  lemma SearchRoundCandidates(dir: Direction, n: nat, loss: Mask -> real)
    ensures var path := SearchPath(dir, Ones(n), loss, n);
      forall k :: 0 <= k < |path| ==> |Candidates(path[k])| == n - k
  {
    PathSteps(dir, Ones(n), loss, n);
    PathCounts(dir, Ones(n), loss, n);
    PathCleared(dir, Ones(n), loss, n);
    SetBitsOnes(n);
  }

  /** Each round of the search is the greedy choice, lowest feature first on ties. */
  lemma SearchRoundsAreGreedy(dir: Direction, n: nat, loss: Mask -> real)
    ensures var path := SearchPath(dir, Ones(n), loss, n);
      path[0] == Ones(n) &&
      forall k :: 0 <= k < |path| - 1 ==> IsAcceptedStep(dir, path[k], loss, path[k + 1])
  {
    var path := SearchPath(dir, Ones(n), loss, n);
    PathSteps(dir, Ones(n), loss, n);
    forall k | 0 <= k < |path| - 1
      ensures IsAcceptedStep(dir, path[k], loss, path[k + 1])
    {
      StepIsGreedy(dir, path[k], loss);
    }
  }

  /** The result is the all-ones mask or strictly better than it. */
  lemma SearchImproves(dir: Direction, n: nat, loss: Mask -> real)
    ensures var r := Search(dir, n, loss);
      r == Ones(n) || Improves(dir, loss(r), loss(Ones(n)))
  {
    PathImproves(dir, Ones(n), loss, n);
  }

  /** No single further bit-clear from the result strictly improves the loss. */
  lemma SearchLocalOptimum(dir: Direction, n: nat, loss: Mask -> real)
    ensures IsLocalOptimum(dir, Search(dir, n, loss), loss)
  {
    var path := SearchPath(dir, Ones(n), loss, n);
    PathSteps(dir, Ones(n), loss, n);
    PathCounts(dir, Ones(n), loss, n);
    SetBitsOnes(n);
    if |path| == n + 1 {
      NoCandidates(path[n]);
    } else {
      StepIsGreedy(dir, path[|path| - 1], loss);
    }
  }

  /**
   * One round as the source runs it, on the candidate list and its losses,
   * advances the search exactly as `Step` does.
   */
  lemma RoundAdvances(dir: Direction, best: Mask, loss: Mask -> real, rounds: nat,
                      combos: seq<Mask>, losses: seq<real>, k: nat)
    requires rounds > 0 && |SetBits(best)| > 0
    requires combos == Candidates(best) && losses == LossesOf(loss, combos)
    requires |losses| > 0 && k == BestIndex(dir, losses)
    ensures k < |combos| && losses[k] == loss(combos[k])
    ensures Improves(dir, losses[k], loss(best)) ==>
      Step(dir, best, loss) == Some(combos[k]) &&
      |combos[k]| == |best| && |SetBits(combos[k])| + 1 == |SetBits(best)| &&
      SearchPath(dir, best, loss, rounds)[1..] == SearchPath(dir, combos[k], loss, rounds - 1)
    ensures !Improves(dir, losses[k], loss(best)) ==>
      Step(dir, best, loss) == None && SearchPath(dir, best, loss, rounds) == [best]
  {
    RoundPicksBestFeature(dir, best, loss);
    ClearOne(best, SetBits(best)[k]);
  }

  /** The loss with its sign flipped. */
  function Negated(loss: Mask -> real): Mask -> real {
    m => -loss(m)
  }

  lemma {:induction false} BestFeatureDual(best: Mask, loss: Mask -> real, bound: nat)
    requires bound <= |best|
    ensures BestFeature(Maximize, best, loss, bound) == BestFeature(Minimize, best, Negated(loss), bound)
    decreases bound
  {
    if bound > 0 {
      BestFeatureDual(best, loss, bound - 1);
    }
  }

  /**
   * The `_max` search is the `_min` search run on the negated loss, ties
   * included: the two duplicated methods differ only in direction.
   */
  lemma {:induction false} SearchPathDual(best: Mask, loss: Mask -> real, rounds: nat)
    ensures SearchPath(Maximize, best, loss, rounds) == SearchPath(Minimize, best, Negated(loss), rounds)
    decreases rounds
  {
    BestFeatureDual(best, loss, |best|);
    if rounds > 0 {
      match Step(Maximize, best, loss)
      case None =>
      case Some(next) =>
        SearchPathDual(next, loss, rounds - 1);
    }
  }

  lemma SearchDual(n: nat, loss: Mask -> real)
    ensures Search(Maximize, n, loss) == Search(Minimize, n, Negated(loss))
  {
    SearchPathDual(Ones(n), loss, n);
  }

  /** The inner loop of one round: the candidates and their losses, in feature order. */
  method RoundCandidates(best: Mask, loss: Mask -> real) returns (combos: seq<Mask>, losses: seq<real>)
    ensures combos == Candidates(best)
    ensures losses == LossesOf(loss, combos)
  {
    combos, losses := [], [];
    for i := 0 to |best|
      invariant |combos| == |SetBits(best[..i])|
      invariant forall k :: 0 <= k < |combos| ==>
        SetBits(best[..i])[k] < |best| && combos[k] == best[SetBits(best[..i])[k] := 0]
      invariant losses == LossesOf(loss, combos)
    {
      assert best[..i + 1][..i] == best[..i];
      var current := best;
      if current[i] != 0 {
        current := current[i := 0];
        combos := combos + [current];
        losses := losses + [loss(current)];
      }
    }
    assert best[..|best|] == best;
  }

  /** `__combination_search_forward_selection_min` with the loss as an oracle. */
  method ForwardSelectionMin(n: nat, loss: Mask -> real) returns (best: Mask)
    ensures best == Search(Minimize, n, loss)
  {
    ghost var path := SearchPath(Minimize, Ones(n), loss, n);
    best := Ones(n);
    var bestLoss := loss(best);
    SetBitsOnes(n);
    for round := 0 to n
      invariant |best| == n && bestLoss == loss(best)
      invariant |SetBits(best)| == n - round
      invariant round < |path| && path[round..] == SearchPath(Minimize, best, loss, n - round)
    {
      var combos, losses := RoundCandidates(best, loss);
      var currentLoss := MinOf(losses);
      var k := IndexOf(losses, currentLoss);
      assert k == BestIndex(Minimize, losses);
      RoundAdvances(Minimize, best, loss, n - round, combos, losses, k);
      if currentLoss < bestLoss {
        best := combos[k];
        bestLoss := currentLoss;
      } else {
        return;
      }
    }
  }

  /** `__combination_search_forward_selection_max` with the loss as an oracle. */
  method ForwardSelectionMax(n: nat, loss: Mask -> real) returns (best: Mask)
    ensures best == Search(Maximize, n, loss)
  {
    ghost var path := SearchPath(Maximize, Ones(n), loss, n);
    best := Ones(n);
    var bestLoss := loss(best);
    SetBitsOnes(n);
    for round := 0 to n
      invariant |best| == n && bestLoss == loss(best)
      invariant |SetBits(best)| == n - round
      invariant round < |path| && path[round..] == SearchPath(Maximize, best, loss, n - round)
    {
      var combos, losses := RoundCandidates(best, loss);
      var currentLoss := MaxOf(losses);
      var k := IndexOf(losses, currentLoss);
      assert k == BestIndex(Maximize, losses);
      RoundAdvances(Maximize, best, loss, n - round, combos, losses, k);
      if currentLoss > bestLoss {
        best := combos[k];
        bestLoss := currentLoss;
      } else {
        return;
      }
    }
  }
}
