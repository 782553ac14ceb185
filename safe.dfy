/**
 * The `SAFE` object ("per SAmple Feature Elimination"): its mode, the
 * combination table it generates, and the per-sample masks `scan` stores
 * in `y_better` and `y_worst`.
 */
module Pysafe {
  import opened Wrappers
  import opened Masks
  import opened Combinations
  import opened ForwardSelection
  import opened Exhaustive

  /** The exceptions the modelled part of `scan` raises. */
  datatype ScanError =
    | UndefinedName(name: string)  // a NameError on a name the module never defines
    | NoCombinations               // `self.combinations` is still None when the table is read

  /** `np.zeros((rows, n))` */
  function ZeroTable(rows: nat, n: nat): seq<Mask> {
    seq(rows, _ => Zeros(n))
  }

  /** One forward-selection search per sample, in the given direction. */
  function GreedyTable(dir: Direction, rows: nat, width: nat, loss: (nat, Mask) -> real): seq<Mask> {
    seq(rows, r requires 0 <= r < rows => Search(dir, width, SampleLoss(loss, r)))
  }

  /** The modes for which `_generate_combination` assigns a table. */
  predicate GeneratesTable(mode: string) {
    mode == "all" || mode == "genetic" || mode == "one-by-one" || mode == "random"
  }

  class Safe {
    /** `combinations_mode` */
    const mode: string
    /** `n_features`: the width of the scanned data. */
    var nFeatures: nat
    /** `combinations`: None until a mode that builds a table has run. */
    var combinations: Option<seq<Mask>>
    /** `X`: the scanned samples. */
    var samples: seq<seq<real>>
    var yBetter: seq<Mask>
    var yWorst: seq<Mask>
    /** `aim`: 'better' or 'worst'; None before the first scan. */
    var aim: Option<string>

    /** A mode that builds no table never has one. */
    ghost predicate Valid()
      reads this
    {
      !GeneratesTable(mode) ==> combinations.None?
    }

    constructor(mode: string := "all")
      ensures Valid()
      ensures this.mode == mode && combinations.None? && aim.None?
      ensures nFeatures == 0 && samples == [] && yBetter == [] && yWorst == []
    {
      this.mode := mode;
      nFeatures := 0;
      combinations := None;
      samples := [];
      yBetter := [];
      yWorst := [];
      aim := None;
    }

    /**
     * `_generate_combination`. 'random' mode assigns the unflipped product
     * and then raises, because the module never imports `random`.
     */
    method GenerateCombination() returns (status: Outcome<ScanError>)
      requires Valid()
      modifies this`combinations
      ensures Valid()
      ensures mode == "all" || mode == "genetic" ==>
        status == Pass && combinations == Some(AllCombinations(nFeatures))
      ensures mode == "one-by-one" ==>
        status == Pass && combinations.Some? && IsOneByOneTable(combinations.value, nFeatures)
      ensures mode == "random" ==>
        status == Fail(UndefinedName("random")) && combinations == Some(Product(nFeatures))
      ensures !GeneratesTable(mode) ==> status == Pass && combinations == old(combinations)
    {
      if mode == "all" || mode == "genetic" {
        combinations := Some(AllCombinations(nFeatures));
      }
      if mode == "one-by-one" {
        var rows := OneByOneCombinations(nFeatures);
        combinations := Some(rows);
      }
      if mode == "random" {
        combinations := Some(Product(nFeatures));
        return Fail(UndefinedName("random"));
      }
      status := Pass;
    }

    /**
     * The 'forward_selection' branch of `scan`: one search per sample,
     * `_min` into `y_better` when the aim is 'better', else `_max` into
     * `y_worst`; the other table keeps its zeros.
     */
    method FillForwardSelection(rows: nat, loss: (nat, Mask) -> real)
      requires aim.Some?
      requires yBetter == ZeroTable(rows, nFeatures) && yWorst == ZeroTable(rows, nFeatures)
      modifies this`yBetter, this`yWorst
      ensures aim.value == "better" ==>
        yBetter == GreedyTable(Minimize, rows, nFeatures, loss) && yWorst == old(yWorst)
      ensures aim.value != "better" ==>
        yWorst == GreedyTable(Maximize, rows, nFeatures, loss) && yBetter == old(yBetter)
    {
      if aim.value == "better" {
        for i := 0 to rows
          invariant yWorst == old(yWorst) && |yBetter| == rows
          invariant forall r :: 0 <= r < i ==> yBetter[r] == Search(Minimize, nFeatures, SampleLoss(loss, r))
          invariant forall r :: i <= r < rows ==> yBetter[r] == Zeros(nFeatures)
        {
          var row := ForwardSelectionMin(nFeatures, SampleLoss(loss, i));
          yBetter := yBetter[i := row];
        }
      } else {
        for i := 0 to rows
          invariant yBetter == old(yBetter) && |yWorst| == rows
          invariant forall r :: 0 <= r < i ==> yWorst[r] == Search(Maximize, nFeatures, SampleLoss(loss, r))
          invariant forall r :: i <= r < rows ==> yWorst[r] == Zeros(nFeatures)
        {
          var row := ForwardSelectionMax(nFeatures, SampleLoss(loss, i));
          yWorst := yWorst[i := row];
        }
      }
    }

    /**
     * The exhaustive branch of `scan`: the loss of every sample under every
     * combination, then per sample the combination of largest loss into
     * `y_worst` and of smallest loss into `y_better`.
     */
    method FillExhaustive(rows: nat, loss: (nat, Mask) -> real)
      requires combinations.Some? && |combinations.value| > 0
      modifies this`yBetter, this`yWorst
      ensures IsTableFor(LossTable(rows, combinations.value, loss), combinations.value)
      ensures yWorst == WorstPerSample(combinations.value, LossTable(rows, combinations.value, loss))
      ensures yBetter == BetterPerSample(combinations.value, LossTable(rows, combinations.value, loss))
      ensures combinations == Some(AllCombinations(nFeatures)) ==>
        IsGlobalOptimum(rows, nFeatures, loss, yWorst, yBetter)
    {
      var combos := combinations.value;
      var losses := ScanLosses(rows, combos, loss);
      yWorst := WorstPerSample(combos, losses);
      yBetter := BetterPerSample(combos, losses);
      if combos == AllCombinations(nFeatures) {
        AllModeTablesAreGlobalOptimum(nFeatures, rows, loss);
      }
    }

    /**
     * `scan` with the scanned model and the labels folded into the loss
     * oracle: `loss(r, m)` is sample r's absolute prediction error with the
     * features blanked by m.
     */
    method Scan(data: seq<seq<real>>, width: nat, loss: (nat, Mask) -> real, aim: string := "worst")
      returns (status: Outcome<ScanError>)
      requires Valid()
      requires forall r :: 0 <= r < |data| ==> |data[r]| == width
      modifies this
      ensures Valid()
      ensures nFeatures == width && samples == data
      ensures mode == "random" ==>
        status == Fail(UndefinedName("random")) && this.aim == old(this.aim) &&
        yBetter == ZeroTable(|data|, width) && yWorst == ZeroTable(|data|, width)
      ensures mode == "genetic" ==>
        status == (if |data| > 0 then Fail(UndefinedName("y_train")) else Pass) &&
        this.aim == Some(aim) &&
        yBetter == ZeroTable(|data|, width) && yWorst == ZeroTable(|data|, width)
      ensures mode == "forward_selection" && aim == "better" ==>
        status == Pass && this.aim == Some(aim) &&
        yBetter == GreedyTable(Minimize, |data|, width, loss) &&
        yWorst == ZeroTable(|data|, width)
      ensures mode == "forward_selection" && aim != "better" ==>
        status == Pass && this.aim == Some(aim) &&
        yWorst == GreedyTable(Maximize, |data|, width, loss) &&
        yBetter == ZeroTable(|data|, width)
      ensures mode == "all" || mode == "one-by-one" ==>
        status == Pass && this.aim == Some(aim) && combinations.Some? &&
        |combinations.value| > 0 && IsTableFor(LossTable(|data|, combinations.value, loss), combinations.value) &&
        yWorst == WorstPerSample(combinations.value, LossTable(|data|, combinations.value, loss)) &&
        yBetter == BetterPerSample(combinations.value, LossTable(|data|, combinations.value, loss))
      ensures mode == "all" || mode == "genetic" ==> combinations == Some(AllCombinations(width))
      ensures mode == "one-by-one" ==>
        combinations.Some? && IsOneByOneTable(combinations.value, width)
      ensures mode == "random" ==> combinations == Some(Product(width))
      ensures !GeneratesTable(mode) ==> combinations.None?
      ensures mode == "all" ==> IsGlobalOptimum(|data|, width, loss, yWorst, yBetter)
      ensures !GeneratesTable(mode) && mode != "forward_selection" ==>
        status == Fail(NoCombinations) && this.aim == Some(aim) &&
        yBetter == ZeroTable(|data|, width) && yWorst == ZeroTable(|data|, width)
    {
      nFeatures := width;
      samples := data;
      yBetter := ZeroTable(|data|, width);
      yWorst := ZeroTable(|data|, width);
      status := GenerateCombination();
      if status.Fail? {
        return;
      }
      this.aim := Some(aim);
      if mode == "genetic" {
        if |data| > 0 {
          status := Fail(UndefinedName("y_train"));
        }
      } else if mode == "forward_selection" {
        FillForwardSelection(|data|, loss);
      } else {
        match combinations
        case None =>
          status := Fail(NoCombinations);
        case Some(combos) =>
          if mode == "all" {
            AllCombinationsEnds(nFeatures);
          }
          FillExhaustive(|data|, loss);
      }
    }
  }
}
