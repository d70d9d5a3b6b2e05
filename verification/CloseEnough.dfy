/**
  The one caller of the weighted distance in the repository: the candidate evaluation of
  vlr-util/CloseEnough.cpp, with exact costs. Characters that fold to one upper case are free to exchange.
*/
module CloseEnough {
  import opened Levenshtein
  import opened LevenshteinMetric
  import opened StringCompare

  const BASIC_CHARACTER_ADD := 0.8
  const BASIC_CHARACTER_REMOVE := 0.8
  const BASIC_CHARACTER_CHANGE := 1.0

  function GetDeltaCost(x: char, y: char): real {
    if ToUpper(x) == ToUpper(y) then 0.0 else BASIC_CHARACTER_CHANGE
  }

  const FOLDING_COSTS := Costs(BASIC_CHARACTER_ADD, BASIC_CHARACTER_REMOVE, (x, y) => GetDeltaCost(x, y))

  lemma UpperIff(s: string, t: string)
    ensures Upper(s) == Upper(t) <==> |s| == |t| && forall i :: 0 <= i < |s| ==> ToUpper(s[i]) == ToUpper(t[i])
  {}

  lemma OneWeight()
    ensures OnePrice(FOLDING_COSTS, SameLetter, 1.0)
  {
    forall x, y ensures FOLDING_COSTS.delta(x, y) == if SameLetter(x, y) then 0.0 else 1.0 {
      FoldsIff(x, y);
    }
  }

  /** One edit: 0.8 for an addition or a removal, and 1.0 for a change to anything but the other case of a letter. */
  lemma OneTransform(x: char, y: char)
    ensures Dist([], [x], FOLDING_COSTS) == 0.8 && Dist([x], [], FOLDING_COSTS) == 0.8
    ensures Dist([x], [y], FOLDING_COSTS) == if SameLetter(x, y) then 0.0 else 1.0
  {
    OneWeight();
    assert [x][..0] == [] && [y][..0] == [];
  }

  /**
    The transform cost of a candidate: the least cost of a chain of character additions, removals and
    changes, zero exactly when the strings agree up to case, whichever of them is the longer.
  */
  method DoCandidateEvalViaLevenshteinDistance(startingValue: string, endingValue: string) returns (cost: real)
    ensures IsOptimum(cost, startingValue, endingValue, FOLDING_COSTS)
    ensures exists ws :: Rewrites(startingValue, ws, endingValue) && ChainCost(startingValue, ws, FOLDING_COSTS) == cost
    ensures forall ws :: Rewrites(startingValue, ws, endingValue) ==> cost <= ChainCost(startingValue, ws, FOLDING_COSTS)
    ensures IsLeastPrice(cost, startingValue, endingValue, SameLetter, 0.8, 0.8, 1.0)
    ensures cost == 0.0 <==> EqualUpToCase(startingValue, endingValue)
  {
    cost := GeneralizedLevenshteinDistanceCustomCost(startingValue, endingValue, FOLDING_COSTS);
    SwapUnnoticed(startingValue, endingValue, FOLDING_COSTS);
    OptimumIsUnique(cost, startingValue, endingValue, FOLDING_COSTS);
    CheapestChain(startingValue, endingValue, FOLDING_COSTS);
    LeastPriceOfFolding(startingValue, endingValue);
    ZeroOfFolding(startingValue, endingValue);
  }

  lemma LeastPriceOfFolding(s: string, t: string)
    ensures IsLeastPrice(Dist(s, t, FOLDING_COSTS), s, t, SameLetter, 0.8, 0.8, 1.0)
  {
    OneWeight();
    DistIsLeastPrice(s, t, FOLDING_COSTS, SameLetter, 1.0);
  }

  lemma ZeroOfFolding(s: string, t: string)
    ensures Dist(s, t, FOLDING_COSTS) == 0.0 <==> EqualUpToCase(s, t)
  {
    DistZeroIff(s, t, FOLDING_COSTS);
    UpperIff(s, t);
    UpperEqualIff(s, t);
  }

  /** The cost is a distance between strings up to case: changing letter case changes no cost. */
  lemma {:induction false} CaseChangesNoCost(s: string, s': string, t: string, t': string)
    requires Upper(s) == Upper(s') && Upper(t) == Upper(t')
    ensures Dist(s, t, FOLDING_COSTS) == Dist(s', t', FOLDING_COSTS)
  {
    FoldingIsFree(s, s');
    FoldingIsFree(t, t');
    TriangleInequality(s, s', t, FOLDING_COSTS);
    TriangleInequality(s', t', t, FOLDING_COSTS);
    TriangleInequality(s', s, t', FOLDING_COSTS);
    TriangleInequality(s, t, t', FOLDING_COSTS);
  }

  lemma FoldingIsFree(s: string, s': string)
    requires Upper(s) == Upper(s')
    ensures Dist(s, s', FOLDING_COSTS) == 0.0 && Dist(s', s, FOLDING_COSTS) == 0.0
  {
    UpperIff(s, s');
    DistZeroIff(s, s', FOLDING_COSTS);
    DistZeroIff(s', s, FOLDING_COSTS);
  }

  lemma {:induction false} CostIsSymmetric(s: string, t: string)
    ensures Dist(s, t, FOLDING_COSTS) == Dist(t, s, FOLDING_COSTS)
  {
    DistReversed(s, t, FOLDING_COSTS);
    DistCongruent(t, s, FOLDING_COSTS, Reversed(FOLDING_COSTS));
  }
}
