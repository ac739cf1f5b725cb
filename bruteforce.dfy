/** `solve_bruteforce`: an exhaustive search over every selection mask. */
module Bruteforce {
  import opened KnapTypes
  import opened Bits
  import opened Fitness
  import opened Codec

  /** The total weight and total price of the selection a mask denotes. */
  function MaskWeight(k: Knapsack, m: U32): nat
    requires |k.items| <= 32
  {
    SumWeights(ItemsFromMask(k, m))
  }

  function MaskPrice(k: Knapsack, m: U32): nat
    requires |k.items| <= 32
  {
    SumPrices(ItemsFromMask(k, m))
  }

  /** The selection a mask denotes fits into the knapsack. */
  predicate Feasible(k: Knapsack, m: U32)
    requires |k.items| <= 32
  {
    MaskWeight(k, m) <= k.capacity
  }

  /** The result an exhaustive search must give: a feasible mask below
      `2^n`, reported with its own weight and price, whose price no feasible
      mask below `2^n` exceeds, and which is the lowest-numbered mask with
      that price. */
  ghost predicate IsBestSelection(k: Knapsack, best: (U16, U16, U32))
    requires |k.items| < 32
  {
    && best.2 < Pow2(|k.items|)
    && Feasible(k, best.2)
    && best.0 == MaskWeight(k, best.2)
    && best.1 == MaskPrice(k, best.2)
    && (forall m: U32 :: m < Pow2(|k.items|) && Feasible(k, m) ==> MaskPrice(k, m) <= best.1)
    && (forall m: U32 :: m < best.2 && Feasible(k, m) ==> MaskPrice(k, m) < best.1)
  }

  /** Every selection of items weighs and costs no more than all of them. */
  lemma SelectionSumsBounded(k: Knapsack, m: U32)
    requires |k.items| <= 32
    ensures MaskWeight(k, m) <= SumWeights(k.items)
    ensures MaskPrice(k, m) <= SumPrices(k.items)
  {
    var ps := SetBits(m, 0, |k.items|);
    var r := ItemsFromMask(k, m);
    ItemsFromMaskPicks(k, m);
    SelectedSubMultiset(k.items, ps);
    SubMultisetSums(r, k.items);
  }

  /** The items at increasing positions form a sub-multiset of all items. */
  lemma {:induction false} SelectedSubMultiset(items: seq<KnapItem>, ps: seq<nat>)
    requires Increasing(ps)
    requires forall j :: 0 <= j < |ps| ==> ps[j] < |items|
    ensures multiset(Pick(items, ps)) <= multiset(items)
    decreases |items|
  {
    if ps != [] {
      assert ps[0] < |items|;
      var n := |items|;
      var init := items[..n - 1];
      assert items == init + [items[n - 1]];
      if ps[|ps| - 1] == n - 1 {
        var front := ps[..|ps| - 1];
        SelectedSubMultiset(init, front);
        assert Pick(items, ps) == Pick(init, front) + [items[n - 1]];
      } else {
        SelectedSubMultiset(init, ps);
        assert Pick(items, ps) == Pick(init, ps);
      }
    }
  }

  /** The loop invariant: `best` is the result of the search over the masks
      `0 ..= bound`. */
  ghost predicate BestUpTo(k: Knapsack, best: (U16, U16, U32), bound: nat)
    requires |k.items| <= 32
  {
    && best.2 <= bound
    && Feasible(k, best.2)
    && best.0 == MaskWeight(k, best.2)
    && best.1 == MaskPrice(k, best.2)
    && (forall m: U32 :: m <= bound && Feasible(k, m) ==> MaskPrice(k, m) <= best.1)
    && (forall m: U32 :: m < best.2 && Feasible(k, m) ==> MaskPrice(k, m) < best.1)
  }

  /** One step of the loop: evaluating mask `m` and keeping it only when it
      fits and is strictly more valuable extends the search to `m`. */
  lemma StepKeepsBest(k: Knapsack, best: (U16, U16, U32), m: U32, next: (U16, U16, U32))
    requires |k.items| <= 32 && m > 0
    requires BestUpTo(k, best, m - 1)
    requires next == if Feasible(k, m) && MaskPrice(k, m) > best.1
                     then (MaskWeight(k, m), MaskPrice(k, m), m) else best
    ensures BestUpTo(k, next, m)
  {
  }

  /** Before the loop: mask 0 on its own. */
  lemma BestUpToZero(k: Knapsack, best: (U16, U16, U32))
    requires |k.items| <= 32
    requires ItemsFromMask(k, 0) == []
    requires best == (0, 0, 0)
    ensures BestUpTo(k, best, 0)
  {
  }

  /** After the loop: the search has covered every mask below `2^n`. */
  lemma BestUpToTop(k: Knapsack, best: (U16, U16, U32))
    requires |k.items| < 32
    requires best.2 < Pow2(|k.items|)
    requires BestUpTo(k, best, Pow2(|k.items|))
    ensures IsBestSelection(k, best)
  {
  }

  /** The exhaustive search. Mask 0 is evaluated before the loop; the loop
      increments before it evaluates, so it visits masks `1 ..= 2^n`, and
      the last of them selects nothing. A candidate replaces the best so far
      only when it fits and its price is strictly greater. `u32::pow(2, n)`
      does not overflow for `n < 32`, and no `calc_fitness` overflows when
      the totals of all items fit in 16 bits. */
  method SolveBruteforce(k: Knapsack) returns (best: (U16, U16, U32))
    requires |k.items| < 32
    requires SumWeights(k.items) < 0x1_0000 && SumPrices(k.items) < 0x1_0000
    ensures IsBestSelection(k, best)
  {
    var bitmask: U32 := 0;
    NoBitOfZeroBelow(k);
    var items := ItemsFromMask(k, bitmask);
    var fitness := CalcFitness(items);
    best := (fitness.0, fitness.1, 0);
    BestUpToZero(k, best);

    Pow2Below32(|k.items|);
    var maxBitmask: U32 := Pow2(|k.items|);

    while bitmask < maxBitmask
      invariant bitmask <= maxBitmask
      invariant best.2 < maxBitmask
      invariant BestUpTo(k, best, bitmask)
    {
      bitmask := bitmask + 1;
      if bitmask == maxBitmask {
        TopMaskSelectsNothing(k);
      }
      var items := ItemsFromMask(k, bitmask);
      SelectionSumsBounded(k, bitmask);
      var fitness := CalcFitness(items);

      ghost var before := best;
      if fitness.0 <= k.capacity && fitness.1 > best.1 {
        best := (fitness.0, fitness.1, bitmask);
      }
      StepKeepsBest(k, before, bitmask, best);
    }
    BestUpToTop(k, best);
  }

  /** Mask 0 selects nothing. */
  lemma NoBitOfZeroBelow(k: Knapsack)
    requires |k.items| <= 32
    ensures ItemsFromMask(k, 0) == []
  {
    forall i | 0 <= i < |k.items| ensures !Bit(0, i) {
      NoBitOfZero(i);
    }
    NoBitsNoItems(k, 0);
  }

  /** Mask `2^n`, the last one the loop visits, selects nothing: its only
      set bit is at position `n`, which names no item. */
  lemma TopMaskSelectsNothing(k: Knapsack)
    requires |k.items| < 32
    ensures Pow2(|k.items|) < 0x1_0000_0000
    ensures ItemsFromMask(k, Pow2(|k.items|)) == []
  {
    Pow2Below32(|k.items|);
    forall i | 0 <= i < |k.items| ensures !Bit(Pow2(|k.items|), i) {
      BitOfPow2(|k.items|, i);
    }
    NoBitsNoItems(k, Pow2(|k.items|));
  }

  /** The result is determined by the instance: running the search twice
      gives the same weight, price and mask. */
  lemma BestSelectionUnique(k: Knapsack, a: (U16, U16, U32), b: (U16, U16, U32))
    requires |k.items| < 32
    requires IsBestSelection(k, a) && IsBestSelection(k, b)
    ensures a == b
  {
  }

  /** Optimality over sub-selections rather than masks: no selection of
      items at increasing positions that fits has a higher price than the
      search's result. */
  lemma BestBeatsEverySelection(k: Knapsack, best: (U16, U16, U32), ps: seq<nat>)
    requires |k.items| < 32
    requires IsBestSelection(k, best)
    requires Increasing(ps)
    requires forall j :: 0 <= j < |ps| ==> ps[j] < |k.items|
    requires SumWeights(Pick(k.items, ps)) <= k.capacity
    ensures SumPrices(Pick(k.items, ps)) <= best.1
  {
    DecodePositions(k, ps);
    var m: U32 := SumOfPowers(ps);
    assert Feasible(k, m);
  }
}
