/** `solve_heuristic`: sort the items by integer price/weight ratio
    (ascending, as the source does), pack them greedily, and let an item
    that does not fit replace the most recently added one when it is
    strictly more valuable and the exchange fits. */
module Heuristic {
  import opened KnapTypes
  import opened Fitness
  import opened Codec
  import Bits

  /** The sort key: `price / weight` in `u16` integer division. */
  function Ratio(it: KnapItem): nat
    requires it.weight > 0
  {
    it.price / it.weight
  }

  /** Both ratios are defined and `x`'s is not above `y`'s. */
  predicate RatioAtMost(x: KnapItem, y: KnapItem)
  {
    x.weight > 0 && y.weight > 0 && Ratio(x) <= Ratio(y)
  }

  /** Non-descending by ratio. */
  predicate RatioSorted(s: seq<KnapItem>)
  {
    forall i, j :: 0 <= i < j < |s| ==> RatioAtMost(s[i], s[j])
  }

  /** `order` is one of the orders `sort_unstable_by` may leave the items
      in: a permutation of them, non-descending by ratio. Items of equal
      ratio may come in any order. */
  predicate IsRatioOrder(order: seq<KnapItem>, items: seq<KnapItem>)
  {
    multiset(order) == multiset(items) && RatioSorted(order)
  }

  /** The comparator divides by the weight of every item it sees, and the
      sort calls it as soon as there are two items. */
  predicate RatiosDefined(items: seq<KnapItem>)
  {
    |items| <= 1 || forall i :: 0 <= i < |items| ==> items[i].weight > 0
  }

  predicate HasMinRatio(items: seq<KnapItem>, i: nat)
    requires i < |items|
  {
    forall j :: 0 <= j < |items| ==> RatioAtMost(items[i], items[j])
  }

  /** The item the sort places first is added on its own. When it does not
      fit, `result_items.last().unwrap()` panics on the empty selection;
      since any item of least ratio may come first, each of them must fit. */
  predicate MinRatioItemsFit(k: Knapsack)
  {
    forall i :: 0 <= i < |k.items| && HasMinRatio(k.items, i) ==> k.items[i].weight <= k.capacity
  }

  predicate PositiveWeights(s: seq<KnapItem>)
  {
    forall i :: 0 <= i < |s| ==> s[i].weight > 0
  }

  /** Insertion by ratio, in front of the first item of greater or equal
      ratio. */
  function InsertByRatio(x: KnapItem, s: seq<KnapItem>): (r: seq<KnapItem>)
    requires x.weight > 0 && PositiveWeights(s)
    ensures multiset(r) == multiset(s) + multiset{x}
    decreases |s|
  {
    if s == [] then [x]
    else if Ratio(x) <= Ratio(s[0]) then [x] + s
    else
      assert s == [s[0]] + s[1..];
      [s[0]] + InsertByRatio(x, s[1..])
  }

  /** Items drawn from positive-weight items have positive weight. */
  lemma PositiveWeightsOfSub(a: seq<KnapItem>, b: seq<KnapItem>)
    requires PositiveWeights(b) && multiset(a) <= multiset(b)
    ensures PositiveWeights(a)
  {
    forall i | 0 <= i < |a| ensures a[i].weight > 0 {
      assert a[i] in multiset(b);
    }
  }

  lemma {:induction false} InsertSorted(x: KnapItem, s: seq<KnapItem>)
    requires x.weight > 0 && PositiveWeights(s) && RatioSorted(s)
    ensures PositiveWeights(InsertByRatio(x, s)) && RatioSorted(InsertByRatio(x, s))
    decreases |s|
  {
    PositiveWeightsOfSub(InsertByRatio(x, s), s + [x]);
    if s != [] && Ratio(s[0]) < Ratio(x) {
      SortedTail(s);
      var rest := InsertByRatio(x, s[1..]);
      InsertSorted(x, s[1..]);
      InsertedStaysAbove(s[0], x, s[1..], rest);
      ConsSorted(s[0], rest);
    } else {
      ConsSorted(x, s);
    }
  }

  /** The tail of a sorted sequence is sorted and stays above its head. */
  lemma SortedTail(s: seq<KnapItem>)
    requires s != [] && RatioSorted(s)
    ensures s == [s[0]] + s[1..]
    ensures RatioSorted(s[1..])
    ensures PositiveWeights(s) ==> PositiveWeights(s[1..])
    ensures PositiveWeights(s) ==> forall i :: 0 <= i < |s[1..]| ==> Ratio(s[0]) <= Ratio(s[1..][i])
  {
    forall i, j | 0 <= i < j < |s[1..]| ensures RatioAtMost(s[1..][i], s[1..][j]) {
      assert s[1..][i] == s[i + 1] && s[1..][j] == s[j + 1];
    }
    if PositiveWeights(s) {
      forall i | 0 <= i < |s[1..]| ensures Ratio(s[0]) <= Ratio(s[1..][i]) {
        assert s[1..][i] == s[i + 1];
      }
    }
  }

  /** An item whose ratio is at most that of the head of a sorted sequence
      may be put in front of it. */
  lemma ConsSorted(y: KnapItem, s: seq<KnapItem>)
    requires y.weight > 0 && PositiveWeights(s) && RatioSorted(s)
    requires s == [] || Ratio(y) <= Ratio(s[0])
    ensures RatioSorted([y] + s)
  {
    var r := [y] + s;
    forall i, j | 0 <= i < j < |r| ensures RatioAtMost(r[i], r[j]) {
      assert r[j] == s[j - 1];
      if i == 0 && j > 1 {
        assert Ratio(s[0]) <= Ratio(s[j - 1]);
      }
      if i > 0 {
        assert r[i] == s[i - 1];
      }
    }
  }

  lemma InsertedStaysAbove(y: KnapItem, x: KnapItem, s: seq<KnapItem>, rest: seq<KnapItem>)
    requires y.weight > 0 && x.weight > 0 && Ratio(y) < Ratio(x) && PositiveWeights(s)
    requires forall i :: 0 <= i < |s| ==> Ratio(y) <= Ratio(s[i])
    requires multiset(rest) == multiset(s) + multiset{x}
    ensures rest == [] || (rest[0].weight > 0 && Ratio(y) <= Ratio(rest[0]))
  {
    if rest != [] {
      assert rest[0] in multiset(rest);
      if rest[0] != x {
        assert rest[0] in multiset(s);
      }
    }
  }

  /** Insertion sort by ratio. */
  function SortByRatio(s: seq<KnapItem>): (r: seq<KnapItem>)
    requires PositiveWeights(s)
    ensures multiset(r) == multiset(s)
    decreases |s|
  {
    if s == [] then []
    else
      assert s == [s[0]] + s[1..];
      PositiveWeightsOfSub(SortByRatio(s[1..]), s);
      InsertByRatio(s[0], SortByRatio(s[1..]))
  }

  lemma {:induction false} SortSorted(s: seq<KnapItem>)
    requires PositiveWeights(s)
    ensures RatioSorted(SortByRatio(s))
    decreases |s|
  {
    if s != [] {
      assert s == [s[0]] + s[1..];
      SortSorted(s[1..]);
      PositiveWeightsOfSub(SortByRatio(s[1..]), s);
      InsertSorted(s[0], SortByRatio(s[1..]));
    }
  }

  /** The order the sort leaves the items in. `sort_unstable_by` is
      deterministic, so this is a function of the items: here the insertion
      sort above, which is one of the ratio orders. */
  function RatioOrderOf(items: seq<KnapItem>): (o: seq<KnapItem>)
    requires RatiosDefined(items)
    ensures IsRatioOrder(o, items)
  {
    if |items| <= 1 then items
    else
      SortSorted(items);
      SortByRatio(items)
  }

  /** In every ratio order the first item fits on its own. */
  lemma FirstOfOrderFits(k: Knapsack, order: seq<KnapItem>)
    requires IsRatioOrder(order, k.items)
    requires RatiosDefined(k.items) && MinRatioItemsFit(k)
    ensures order == [] || order[0].weight <= k.capacity
  {
    if order != [] && order[0].weight > 0 {
      var x := order[0];
      assert x in multiset(k.items);
      var i :| 0 <= i < |k.items| && k.items[i] == x;
      forall j | 0 <= j < |k.items|
        ensures k.items[j].weight > 0 && Ratio(x) <= Ratio(k.items[j])
      {
        assert k.items[j] in multiset(order);
        var t :| 0 <= t < |order| && order[t] == k.items[j];
      }
      assert HasMinRatio(k.items, i);
    }
  }

  /** One step of the greedy pass on `item`, given the selection so far:
      the item is added when it fits; otherwise it replaces the last chosen
      item when it is strictly more valuable and the exchanged selection
      fits; otherwise it is skipped. The last chosen item is looked at only
      when the item does not fit, so an empty selection is safe as long as
      the item fits on its own. */
  function Step(chosen: seq<KnapItem>, item: KnapItem, capacity: nat): (r: seq<KnapItem>)
    requires chosen != [] || item.weight <= capacity
    ensures r != []
  {
    if item.weight + SumWeights(chosen) <= capacity then chosen + [item]
    else
      var last := chosen[|chosen| - 1];
      var swapped := chosen[..|chosen| - 1] + [item];
      if last.price < item.price && SumWeights(swapped) <= capacity then swapped
      else chosen
  }

  /** A step keeps the selection within the capacity. */
  lemma StepFits(chosen: seq<KnapItem>, item: KnapItem, capacity: nat)
    requires chosen != [] || item.weight <= capacity
    requires SumWeights(chosen) <= capacity
    ensures SumWeights(Step(chosen, item, capacity)) <= capacity
  {
    SumsOfConcat(chosen, [item]);
  }

  /** A step selects only the item and what was already selected. */
  lemma StepSubMultiset(chosen: seq<KnapItem>, item: KnapItem, capacity: nat)
    requires chosen != [] || item.weight <= capacity
    ensures multiset(Step(chosen, item, capacity)) <= multiset(chosen) + multiset{item}
  {
    if item.weight + SumWeights(chosen) > capacity {
      assert chosen == chosen[..|chosen| - 1] + [chosen[|chosen| - 1]];
    }
  }

  /** The greedy pass over the items still to visit, `rest`, from the
      selection `chosen`. */
  function Pack(rest: seq<KnapItem>, chosen: seq<KnapItem>, capacity: nat): seq<KnapItem>
    requires chosen != [] || rest == [] || rest[0].weight <= capacity
    decreases |rest|
  {
    if rest == [] then chosen
    else Pack(rest[1..], Step(chosen, rest[0], capacity), capacity)
  }

  /** Exchanging the last chosen item for `item` changes the weight by the
      difference of the two, and the last item weighs no more than the
      whole selection. */
  lemma SwapWeight(chosen: seq<KnapItem>, item: KnapItem)
    requires chosen != []
    ensures chosen[|chosen| - 1].weight <= SumWeights(chosen)
    ensures SumWeights(chosen[..|chosen| - 1] + [item])
            == SumWeights(chosen) - chosen[|chosen| - 1].weight + item.weight
  {
    var init := chosen[..|chosen| - 1];
    assert chosen == init + [chosen[|chosen| - 1]];
    SumsOfConcat(init, [chosen[|chosen| - 1]]);
    SumsOfConcat(init, [item]);
  }

  /** Feasibility is kept by the whole pass. */
  lemma {:induction false} PackFits(rest: seq<KnapItem>, chosen: seq<KnapItem>, capacity: nat)
    requires chosen != [] || rest == [] || rest[0].weight <= capacity
    requires SumWeights(chosen) <= capacity
    ensures SumWeights(Pack(rest, chosen, capacity)) <= capacity
    decreases |rest|
  {
    if rest != [] {
      StepFits(chosen, rest[0], capacity);
      PackFits(rest[1..], Step(chosen, rest[0], capacity), capacity);
    }
  }

  /** The pass only ever selects items it was given, each at most as often
      as it was given. */
  lemma {:induction false} PackSubMultiset(rest: seq<KnapItem>, chosen: seq<KnapItem>, capacity: nat)
    requires chosen != [] || rest == [] || rest[0].weight <= capacity
    ensures multiset(Pack(rest, chosen, capacity)) <= multiset(chosen) + multiset(rest)
    decreases |rest|
  {
    if rest != [] {
      assert rest == [rest[0]] + rest[1..];
      StepSubMultiset(chosen, rest[0], capacity);
      PackSubMultiset(rest[1..], Step(chosen, rest[0], capacity), capacity);
    }
  }

  /** What `solve_heuristic` may return whichever order the sort leaves
      items of equal ratio in: for some ratio order of the items, the
      weight, price and mask of the selection the greedy pass makes. */
  ghost predicate IsHeuristicResult(k: Knapsack, r: (U16, U16, U32))
  {
    exists order: seq<KnapItem> :: IsRatioOrder(order, k.items) && (order == [] || order[0].weight <= k.capacity) &&
      var sel := Pack(order, [], k.capacity);
      r.0 == SumWeights(sel) && r.1 == SumPrices(sel) && r.2 == MaskSum(sel)
  }

  /** The selection of the greedy pass over the sorted items. */
  function HeuristicPass(k: Knapsack): seq<KnapItem>
    requires RatiosDefined(k.items) && MinRatioItemsFit(k)
  {
    FirstOfOrderFits(k, RatioOrderOf(k.items));
    Pack(RatioOrderOf(k.items), [], k.capacity)
  }

  /** What `solve_heuristic` returns: the weight, price and mask of the pass
      over the sorted items. */
  ghost predicate IsPassResult(k: Knapsack, r: (U16, U16, U32))
    requires RatiosDefined(k.items) && MinRatioItemsFit(k)
  {
    var sel := HeuristicPass(k);
    r.0 == SumWeights(sel) && r.1 == SumPrices(sel) && r.2 == MaskSum(sel)
  }

  /** The result of the sorted pass is one of the results over some ratio
      order, so every property proved of those holds of it. */
  lemma PassResultIsHeuristicResult(k: Knapsack, r: (U16, U16, U32))
    requires RatiosDefined(k.items) && MinRatioItemsFit(k)
    requires IsPassResult(k, r)
    ensures IsHeuristicResult(k, r)
  {
    FirstOfOrderFits(k, RatioOrderOf(k.items));
    PassResult(k, RatioOrderOf(k.items), HeuristicPass(k), r);
  }

  /** Adding the next item to a selection drawn from the items before it
      weighs no more than all the items. */
  lemma NextItemBounded(items: seq<KnapItem>, chosen: seq<KnapItem>, i: nat)
    requires i < |items|
    requires multiset(chosen) <= multiset(items[..i])
    ensures SumWeights(chosen) + items[i].weight <= SumWeights(items)
  {
    assert items[..i + 1] == items[..i] + [items[i]];
    assert items == items[..i + 1] + items[i + 1..];
    SubMultisetSums(chosen + [items[i]], items);
    SumsOfConcat(chosen, [items[i]]);
  }

  /** A selection drawn from items with distinct identities below 32 and
      16-bit totals has the same properties, and its mask fits in 32 bits. */
  lemma DrawnSelection(k: Knapsack, sel: seq<KnapItem>)
    requires multiset(sel) <= multiset(k.items)
    requires DistinctIds(k.items) && IdsBelow32(k.items)
    ensures DistinctIds(sel) && IdsBelow32(sel) && MaskSum(sel) < 0x1_0000_0000
    ensures SumWeights(sel) <= SumWeights(k.items) && SumPrices(sel) <= SumPrices(k.items)
  {
    SubMultisetSums(sel, k.items);
    SubMultisetDistinct(sel, k.items);
    forall j | 0 <= j < |sel| ensures sel[j].id < 32 {
      assert sel[j] in multiset(k.items);
    }
    MaskBits(sel);
  }

  /** One more step of the loop moves the pass one item on. */
  lemma PassAdvances(items: seq<KnapItem>, i: nat, chosen: seq<KnapItem>, capacity: nat)
    requires i < |items|
    requires chosen != [] || items[i].weight <= capacity
    requires multiset(chosen) <= multiset(items[..i])
    ensures Pack(items[i..], chosen, capacity) == Pack(items[i + 1..], Step(chosen, items[i], capacity), capacity)
    ensures multiset(Step(chosen, items[i], capacity)) <= multiset(items[..i + 1])
  {
    assert items[i..][1..] == items[i + 1..];
    assert items[..i + 1] == items[..i] + [items[i]];
    StepSubMultiset(chosen, items[i], capacity);
  }

  /** The step when the item fits: it is appended. */
  lemma StepAdds(chosen: seq<KnapItem>, item: KnapItem, capacity: nat)
    requires item.weight + SumWeights(chosen) <= capacity
    ensures Step(chosen, item, capacity) == chosen + [item]
    ensures SumWeights(chosen + [item]) == SumWeights(chosen) + item.weight
  {
    SumsOfConcat(chosen, [item]);
  }

  /** The step when the item does not fit: the exchange, weighed by the
      running weight, or nothing. */
  lemma StepExchanges(chosen: seq<KnapItem>, item: KnapItem, capacity: nat)
    requires chosen != [] && item.weight + SumWeights(chosen) > capacity
    ensures chosen[|chosen| - 1].weight <= SumWeights(chosen)
    ensures SumWeights(chosen[..|chosen| - 1] + [item])
            == item.weight + SumWeights(chosen) - chosen[|chosen| - 1].weight
    ensures Step(chosen, item, capacity) ==
      if chosen[|chosen| - 1].price < item.price
         && item.weight + SumWeights(chosen) - chosen[|chosen| - 1].weight <= capacity
      then chosen[..|chosen| - 1] + [item] else chosen
  {
    SwapWeight(chosen, item);
  }

  /** The selection the whole pass makes, reported as the heuristic
      reports it. */
  lemma PassResult(k: Knapsack, order: seq<KnapItem>, sel: seq<KnapItem>, r: (U16, U16, U32))
    requires IsRatioOrder(order, k.items) && (order == [] || order[0].weight <= k.capacity)
    requires sel == Pack(order, [], k.capacity)
    requires r.0 == SumWeights(sel) && r.1 == SumPrices(sel) && r.2 == MaskSum(sel)
    ensures IsHeuristicResult(k, r)
  {
  }

  /** The loop of `solve_heuristic` over the sorted items. It keeps
      `totalWeight` equal to the weight of `resultItems` and within the
      capacity, and the rest of the pass from the current selection equal to
      the whole pass. The `u16` sum on the fit test cannot overflow, and the
      subtraction in the exchanged weight cannot underflow because the last
      item is part of `totalWeight`. */
  method GreedyPass(items: seq<KnapItem>, capacity: U16) returns (resultItems: seq<KnapItem>)
    requires items == [] || items[0].weight <= capacity
    requires SumWeights(items) < 0x1_0000
    ensures resultItems == Pack(items, [], capacity)
    ensures SumWeights(resultItems) <= capacity
    ensures multiset(resultItems) <= multiset(items)
  {
    resultItems := [];
    var totalWeight: U16 := 0;

    for i := 0 to |items|
      invariant totalWeight == SumWeights(resultItems) <= capacity
      invariant i > 0 ==> resultItems != []
      invariant multiset(resultItems) <= multiset(items[..i])
      invariant Pack(items[i..], resultItems, capacity) == Pack(items, [], capacity)
    {
      var item := items[i];
      ghost var before := resultItems;
      NextItemBounded(items, resultItems, i);
      PassAdvances(items, i, resultItems, capacity);
      assert item.weight + totalWeight < 0x1_0000;
      if item.weight + totalWeight <= capacity {
        StepAdds(resultItems, item, capacity);
        resultItems := resultItems + [item];
        totalWeight := totalWeight + item.weight;
      } else {
        StepExchanges(resultItems, item, capacity);
        var lastItem := resultItems[|resultItems| - 1];
        var totalWeightAfter: U16 := item.weight + totalWeight - lastItem.weight;
        if lastItem.price < item.price && totalWeightAfter <= capacity {
          resultItems := resultItems[..|resultItems| - 1];
          resultItems := resultItems + [item];
          totalWeight := totalWeightAfter;
        }
      }
      assert resultItems == Step(before, item, capacity);
    }
    assert items[|items|..] == [] && items[..|items|] == items;
  }

  /** `solve_heuristic`: sort by ratio, run the greedy pass,
      and report the weight, price and mask of its selection. */
  method SolveHeuristic(k: Knapsack) returns (r: (U16, U16, U32))
    requires RatiosDefined(k.items) && MinRatioItemsFit(k)
    requires DistinctIds(k.items) && IdsBelow32(k.items)
    requires SumWeights(k.items) < 0x1_0000 && SumPrices(k.items) < 0x1_0000
    ensures r.0 <= k.capacity
    ensures IsPassResult(k, r)
    ensures IsHeuristicResult(k, r)
  {
    var items := RatioOrderOf(k.items);
    FirstOfOrderFits(k, items);
    PermutationSums(items, k.items);

    var resultItems := GreedyPass(items, k.capacity);

    DrawnSelection(k, resultItems);
    var fitness := CalcFitness(resultItems);
    var bitmask := MaskFromItems(resultItems);
    r := (fitness.0, fitness.1, bitmask);
    PassResult(k, items, resultItems, r);
  }

  /** Every result of the heuristic fits into the knapsack. */
  lemma HeuristicFits(k: Knapsack, r: (U16, U16, U32))
    requires IsHeuristicResult(k, r)
    ensures r.0 <= k.capacity
  {
    var order: seq<KnapItem> :| IsRatioOrder(order, k.items) && (order == [] || order[0].weight <= k.capacity) &&
      var sel := Pack(order, [], k.capacity);
      r.0 == SumWeights(sel) && r.1 == SumPrices(sel) && r.2 == MaskSum(sel);
    PackFits(order, [], k.capacity);
  }

  /** When identities equal positions, every item drawn from the instance
      sits at the position its identity names, and a drawn selection has no
      repeated identity. */
  lemma PositionedSelection(k: Knapsack, sel: seq<KnapItem>)
    requires IdsArePositions(k) && multiset(sel) <= multiset(k.items)
    ensures DistinctIds(sel)
    ensures forall j :: 0 <= j < |sel| ==> sel[j].id < |k.items| && k.items[sel[j].id] == sel[j]
  {
    assert DistinctIds(k.items);
    SubMultisetDistinct(sel, k.items);
    forall j | 0 <= j < |sel| ensures sel[j].id < |k.items| && k.items[sel[j].id] == sel[j] {
      assert sel[j] in multiset(k.items);
      var t :| 0 <= t < |k.items| && k.items[t] == sel[j];
    }
  }

  /** When identities equal positions, the heuristic's mask decodes to a
      selection with exactly the reported weight and price. */
  lemma HeuristicMaskDecodes(k: Knapsack, r: (U16, U16, U32))
    requires |k.items| <= 32 && IdsArePositions(k)
    requires IsHeuristicResult(k, r)
    ensures SumWeights(ItemsFromMask(k, r.2)) == r.0
    ensures SumPrices(ItemsFromMask(k, r.2)) == r.1
  {
    var order: seq<KnapItem> :| IsRatioOrder(order, k.items) && (order == [] || order[0].weight <= k.capacity) &&
      var sel := Pack(order, [], k.capacity);
      r.0 == SumWeights(sel) && r.1 == SumPrices(sel) && r.2 == MaskSum(sel);
    var sel := Pack(order, [], k.capacity);
    PackSubMultiset(order, [], k.capacity);
    PositionedSelection(k, sel);
    RoundTripPermutation(k, sel);
    PermutationSums(ItemsFromMask(k, MaskFromItems(sel)), sel);
  }

  /** When identities equal positions, the heuristic's mask names only
      positions of the instance, so it is one of the masks the exhaustive
      search visits. */
  lemma HeuristicMaskBelow(k: Knapsack, r: (U16, U16, U32))
    requires |k.items| <= 32 && IdsArePositions(k)
    requires IsHeuristicResult(k, r)
    ensures r.2 < Bits.Pow2(|k.items|)
  {
    var order: seq<KnapItem> :| IsRatioOrder(order, k.items) && (order == [] || order[0].weight <= k.capacity) &&
      var sel := Pack(order, [], k.capacity);
      r.0 == SumWeights(sel) && r.1 == SumPrices(sel) && r.2 == MaskSum(sel);
    var sel := Pack(order, [], k.capacity);
    PackSubMultiset(order, [], k.capacity);
    PositionedSelection(k, sel);
    PositionedMaskBelow(k, sel);
  }

  /** A selection of distinct identities below the item count has a mask
      below `2^n`. */
  lemma PositionedMaskBelow(k: Knapsack, sel: seq<KnapItem>)
    requires DistinctIds(sel)
    requires forall j :: 0 <= j < |sel| ==> sel[j].id < |k.items|
    ensures MaskSum(sel) < Bits.Pow2(|k.items|)
  {
    var ids := IdSeq(sel);
    assert forall j :: 0 <= j < |ids| ==> ids[j] == sel[j].id;
    Bits.SumOfDistinctPowers(ids, |k.items|);
  }

  /** No two items of the instance have the same ratio. */
  predicate DistinctRatios(items: seq<KnapItem>)
  {
    forall i, j :: 0 <= i < j < |items| ==> RatiosDiffer(items[i], items[j])
  }

  /** Both ratios are defined and differ. */
  predicate RatiosDiffer(x: KnapItem, y: KnapItem)
  {
    x.weight > 0 && y.weight > 0 && Ratio(x) != Ratio(y)
  }

  /** A permutation keeps distinct ratios distinct. */
  lemma DistinctRatiosOfPermutation(a: seq<KnapItem>, b: seq<KnapItem>)
    requires multiset(a) == multiset(b) && DistinctRatios(b)
    ensures DistinctRatios(a)
  {
    forall i, j | 0 <= i < j < |a|
      ensures RatiosDiffer(a[i], a[j])
    {
      PermutedPairDistinct(a, b, i, j);
    }
  }

  lemma PermutedPairDistinct(a: seq<KnapItem>, b: seq<KnapItem>, i: nat, j: nat)
    requires multiset(a) == multiset(b) && DistinctRatios(b)
    requires i < j < |a|
    ensures RatiosDiffer(a[i], a[j])
  {
    assert a[i] in multiset(b) && a[j] in multiset(b);
    var p :| 0 <= p < |b| && b[p] == a[i];
    var q :| 0 <= q < |b| && b[q] == a[j];
    assert a[i] != a[j] by {
      if a[i] == a[j] {
        RepeatCounted(a, i, j);
        DistinctRatiosCount(b, a[i]);
      }
    }
    var lo, hi := if p < q then p else q, if p < q then q else p;
    assert b[lo].weight > 0 && b[hi].weight > 0 && Ratio(b[lo]) != Ratio(b[hi]);
  }

  /** With distinct ratios every item occurs at most once. */
  lemma {:induction false} DistinctRatiosCount(s: seq<KnapItem>, x: KnapItem)
    requires DistinctRatios(s)
    ensures multiset(s)[x] <= 1
    decreases |s|
  {
    if s != [] {
      assert s == [s[0]] + s[1..];
      DistinctRatiosTail(s);
      DistinctRatiosCount(s[1..], x);
      if s[0] == x {
        forall t | 0 <= t < |s[1..]| ensures s[1..][t] != x {
          assert s[1..][t] == s[t + 1];
          assert Ratio(s[0]) != Ratio(s[t + 1]);
        }
      }
    }
  }

  /** With distinct ratios there is only one ratio order. */
  lemma {:induction false} RatioOrderUnique(a: seq<KnapItem>, b: seq<KnapItem>)
    requires multiset(a) == multiset(b)
    requires RatioSorted(a) && RatioSorted(b) && DistinctRatios(b)
    ensures a == b
    decreases |a|
  {
    if a != [] {
      if |a| == 1 {
        SingletonPermutation(a, b);
      } else {
        HeadsAgree(a, b);
        TailsPermutation(a, b);
        SortedTail(a);
        SortedTail(b);
        DistinctRatiosTail(b);
        RatioOrderUnique(a[1..], b[1..]);
      }
    }
  }

  lemma SingletonPermutation(a: seq<KnapItem>, b: seq<KnapItem>)
    requires |a| == 1 && multiset(a) == multiset(b)
    ensures a == b
  {
    assert |b| == |multiset(b)| == |multiset(a)| == 1;
    assert b[0] in multiset(a);
  }

  lemma TailsPermutation(a: seq<KnapItem>, b: seq<KnapItem>)
    requires a != [] && b != [] && a[0] == b[0] && multiset(a) == multiset(b)
    ensures multiset(a[1..]) == multiset(b[1..])
    ensures a == [a[0]] + a[1..] && b == [b[0]] + b[1..]
  {
    assert a == [a[0]] + a[1..] && b == [b[0]] + b[1..];
    assert multiset(a[1..]) == multiset(a) - multiset{a[0]};
    assert multiset(b[1..]) == multiset(b) - multiset{b[0]};
  }

  /** Two ratio orders of the same items with distinct ratios start with
      the same item. */
  lemma HeadsAgree(a: seq<KnapItem>, b: seq<KnapItem>)
    requires |a| >= 2 && multiset(a) == multiset(b)
    requires RatioSorted(a) && RatioSorted(b) && DistinctRatios(b)
    ensures a[0] == b[0]
  {
    assert a[0] in multiset(b) && b[0] in multiset(a);
    var t :| 0 <= t < |b| && b[t] == a[0];
    var u :| 0 <= u < |a| && a[u] == b[0];
    assert |b| == |multiset(b)| == |multiset(a)| == |a|;
    assert a[0].weight > 0 && a[1].weight > 0 && Ratio(a[0]) <= Ratio(a[1]);
    assert b[0].weight > 0 && b[1].weight > 0 && Ratio(b[0]) <= Ratio(b[1]);
    assert Ratio(a[0]) <= Ratio(a[u]);
    assert Ratio(b[0]) <= Ratio(b[t]);
    assert t == 0;
  }

  lemma DistinctRatiosTail(s: seq<KnapItem>)
    requires s != [] && DistinctRatios(s)
    ensures DistinctRatios(s[1..])
  {
    forall i, j | 0 <= i < j < |s[1..]|
      ensures RatiosDiffer(s[1..][i], s[1..][j])
    {
      assert s[1..][i] == s[i + 1] && s[1..][j] == s[j + 1];
    }
  }

  /** With distinct ratios the order the sort leaves items of equal ratio
      in cannot matter: every ratio order gives the same weight, price and
      mask. */
  lemma DistinctRatiosOneResult(k: Knapsack, r1: (U16, U16, U32), r2: (U16, U16, U32))
    requires DistinctRatios(k.items)
    requires IsHeuristicResult(k, r1) && IsHeuristicResult(k, r2)
    ensures r1 == r2
  {
    var o1: seq<KnapItem> :| IsRatioOrder(o1, k.items) && (o1 == [] || o1[0].weight <= k.capacity) &&
      var sel := Pack(o1, [], k.capacity);
      r1.0 == SumWeights(sel) && r1.1 == SumPrices(sel) && r1.2 == MaskSum(sel);
    var o2: seq<KnapItem> :| IsRatioOrder(o2, k.items) && (o2 == [] || o2[0].weight <= k.capacity) &&
      var sel := Pack(o2, [], k.capacity);
      r2.0 == SumWeights(sel) && r2.1 == SumPrices(sel) && r2.2 == MaskSum(sel);
    DistinctRatiosOfPermutation(o2, k.items);
    RatioOrderUnique(o1, o2);
  }

  /** When the items admit only one ratio order, the heuristic's result is
      the pass over that order and nothing else. */
  lemma SoleOrderResult(k: Knapsack, order: seq<KnapItem>, r: (U16, U16, U32))
    requires IsRatioOrder(order, k.items) && (order == [] || order[0].weight <= k.capacity)
    requires forall o :: IsRatioOrder(o, k.items) ==> o == order
    ensures IsHeuristicResult(k, r) <==>
      var sel := Pack(order, [], k.capacity);
      r.0 == SumWeights(sel) && r.1 == SumPrices(sel) && r.2 == MaskSum(sel)
  {
  }
}
