/** `solve` and `validate`: dispatch on the strategy, wrap the solver's
    (weight, price, mask) triple into a solution record, and check a record
    against the capacity. */
module Solver {
  import opened KnapTypes
  import opened Fitness
  import opened Bruteforce
  import opened Heuristic

  /** `validate`: the reported weight does not exceed the capacity. */
  predicate Validate(solution: KnapSolution, k: Knapsack)
  {
    solution.weight <= k.capacity
  }

  /** For a record that reports its own mask's weight, validation is
      exactly feasibility of the mask. */
  lemma ValidateMeansFeasible(k: Knapsack, s: KnapSolution)
    requires |k.items| <= 32
    requires s.weight == MaskWeight(k, s.bitmask)
    ensures Validate(s, k) <==> Feasible(k, s.bitmask)
  {
  }

  /** What each strategy needs of the instance to run to completion: the
      totals of all items fit in 16 bits, the exhaustive search has fewer
      than 32 items, and the heuristic can compute every ratio, fits its
      first item, and has distinct identities below 32. */
  predicate Solvable(k: Knapsack, soltype: SolutionType)
  {
    && SumWeights(k.items) < 0x1_0000
    && SumPrices(k.items) < 0x1_0000
    && (if soltype == SolutionType.Bruteforce then |k.items| < 32
        else RatiosDefined(k.items) && MinRatioItemsFit(k) && DistinctIds(k.items) && IdsBelow32(k.items))
  }

  /** The weight, price and mask a strategy reports for an instance. */
  ghost predicate IsSolution(k: Knapsack, soltype: SolutionType, s: KnapSolution)
    requires Solvable(k, soltype)
  {
    match soltype
    case Bruteforce => IsBestSelection(k, (s.weight, s.price, s.bitmask))
    case Heuristic => IsPassResult(k, (s.weight, s.price, s.bitmask))
  }

  /** The record `solve` builds: the instance's identity and the strategy
      are copied, the measured time is the given `elapsed`, and the weight,
      price and mask are the chosen solver's. */
  method Solve(k: Knapsack, soltype: SolutionType, elapsed: real) returns (s: KnapSolution)
    requires Solvable(k, soltype)
    ensures s.knapId == k.id && s.soltype == soltype && s.elapsed == elapsed
    ensures IsSolution(k, soltype, s)
    ensures soltype == SolutionType.Heuristic ==> IsHeuristicResult(k, (s.weight, s.price, s.bitmask))
    ensures Validate(s, k)
  {
    var res: (U16, U16, U32);
    match soltype {
      case Bruteforce =>
        res := SolveBruteforce(k);
      case Heuristic =>
        res := SolveHeuristic(k);
    }
    var (weight, price, bitmask) := res;
    s := KnapSolution(k.id, bitmask, price, weight, elapsed, soltype);
  }

  /** Every record an exhaustive search produces passes validation. */
  lemma BruteforceValid(k: Knapsack, s: KnapSolution)
    requires |k.items| < 32
    requires IsBestSelection(k, (s.weight, s.price, s.bitmask))
    ensures Validate(s, k)
  {
  }

  /** Every record the heuristic produces passes validation. */
  lemma HeuristicValid(k: Knapsack, s: KnapSolution)
    requires IsHeuristicResult(k, (s.weight, s.price, s.bitmask))
    ensures Validate(s, k)
  {
    HeuristicFits(k, (s.weight, s.price, s.bitmask));
  }

  /** Solving twice with the same instance and strategy gives the same
      weight, price and mask. */
  lemma SolveIdempotent(k: Knapsack, soltype: SolutionType, s1: KnapSolution, s2: KnapSolution)
    requires Solvable(k, soltype)
    requires IsSolution(k, soltype, s1) && IsSolution(k, soltype, s2)
    ensures (s1.weight, s1.price, s1.bitmask) == (s2.weight, s2.price, s2.bitmask)
  {
    if soltype == SolutionType.Bruteforce {
      BestSelectionUnique(k, (s1.weight, s1.price, s1.bitmask), (s2.weight, s2.price, s2.bitmask));
    }
  }

  /** The heuristic never beats the exhaustive search: when identities
      equal positions, its selection is one of the masks the search visits,
      it fits, and so its price is at most the optimum. */
  lemma HeuristicAtMostOptimum(k: Knapsack, h: (U16, U16, U32), b: (U16, U16, U32))
    requires |k.items| < 32 && IdsArePositions(k)
    requires IsHeuristicResult(k, h)
    requires IsBestSelection(k, b)
    ensures h.1 <= b.1
  {
    HeuristicMaskBelow(k, h);
    HeuristicMaskDecodes(k, h);
    HeuristicFits(k, h);
    assert Feasible(k, h.2);
  }
}
