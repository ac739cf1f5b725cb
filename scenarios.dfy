/** Small instances worked through completely. */
module Scenarios {
  import opened KnapTypes
  import opened Bits
  import opened Fitness
  import opened Codec
  import opened Bruteforce
  import opened Heuristic

  const ItemA := KnapItem(0, 5, 10)
  const ItemB := KnapItem(1, 4, 4)
  const ItemC := KnapItem(2, 6, 12)

  /** Capacity 10 and items (weight 5, price 10), (4, 4), (6, 12), with
      identities equal to positions. */
  const ThreeItems := Knapsack(0, 10, [ItemA, ItemB, ItemC])

  function Optional(b: bool, x: KnapItem): seq<KnapItem>
  {
    if b then [x] else []
  }

  /** A mask over three items, position by position. */
  lemma SelectOfThree(items: seq<KnapItem>, m: nat)
    requires |items| == 3
    ensures Select(items, m, 0) ==
      Optional(m % 2 == 1, items[0]) + Optional(m / 2 % 2 == 1, items[1]) + Optional(m / 4 % 2 == 1, items[2])
  {
    assert Bit(m, 1) == Bit(m / 2, 0);
    assert Bit(m, 2) == Bit(m / 2 / 2, 0) && m / 2 / 2 == m / 4;
    assert Select(items, m, 3) == [];
    assert Select(items, m, 2) == Optional(Bit(m, 2), items[2]);
  }

  /** The weight and price of every mask of the three-item instance, bit
      by bit. */
  lemma ThreeItemSums(m: U32)
    ensures MaskWeight(ThreeItems, m) == 5 * (m % 2) + 4 * (m / 2 % 2) + 6 * (m / 4 % 2)
    ensures MaskPrice(ThreeItems, m) == 10 * (m % 2) + 4 * (m / 2 % 2) + 12 * (m / 4 % 2)
  {
    var items := ThreeItems.items;
    SelectOfThree(items, m);
    var x := Optional(m % 2 == 1, items[0]);
    var y := Optional(m / 2 % 2 == 1, items[1]);
    var z := Optional(m / 4 % 2 == 1, items[2]);
    SumsOfConcat(x + y, z);
    SumsOfConcat(x, y);
  }

  /** No mask below 8 that fits is worth more than 16, and none below 6 that
      fits is worth 16. */
  lemma ThreeItemBound(m: U32)
    requires m < 8
    ensures MaskWeight(ThreeItems, m) <= 10 ==> MaskPrice(ThreeItems, m) <= 16
    ensures MaskWeight(ThreeItems, m) <= 10 && m < 6 ==> MaskPrice(ThreeItems, m) < 16
  {
    ThreeItemSums(m);
    assert m == m % 2 + 2 * (m / 2 % 2) + 4 * (m / 4 % 2);
  }

  /** The optimum is items 1 and 2, weight 10 and price 16, mask 6. Items 0
      and 1 (weight 9, price 14) fit too but are worth less, and items 0 and
      2 (weight 11) do not fit. */
  lemma ThreeItemOptimum()
    ensures IsBestSelection(ThreeItems, (10, 16, 6))
  {
    assert Pow2(3) == 8;
    ThreeItemSums(6);
    forall m: U32 | m < 8
      ensures Feasible(ThreeItems, m) ==> MaskPrice(ThreeItems, m) <= 16
      ensures Feasible(ThreeItems, m) && m < 6 ==> MaskPrice(ThreeItems, m) < 16
    {
      ThreeItemBound(m);
    }
  }

  /** The pass over the order item 1, item 0, item 2 (ratios 1, 2, 2) packs
      item 1, then item 0, and then exchanges item 0 for the more valuable
      item 2. */
  lemma PassBAC()
    ensures Pack([ItemB, ItemA, ItemC], [], 10) == [ItemB, ItemC]
  {
    assert [ItemB][1..] == [] && [ItemB, ItemA][1..] == [ItemA] && [ItemA][1..] == [];
    assert SumWeights([ItemB]) == 4 && SumWeights([ItemB, ItemA]) == 9;
    assert [ItemB, ItemA][..1] == [ItemB] && [ItemB] + [ItemC] == [ItemB, ItemC];
    assert [ItemB, ItemC][1..] == [ItemC] && [ItemC][1..] == [];
    assert SumWeights([ItemB, ItemC]) == 10;
    assert Step([], ItemB, 10) == [ItemB];
    assert Step([ItemB], ItemA, 10) == [ItemB, ItemA];
    assert Step([ItemB, ItemA], ItemC, 10) == [ItemB, ItemC];
    assert [ItemB, ItemA, ItemC][1..] == [ItemA, ItemC] && [ItemA, ItemC][1..] == [ItemC];
    assert Pack([ItemC], [ItemB, ItemA], 10) == Pack([], [ItemB, ItemC], 10);
  }

  /** The pass over the other ratio order, item 1, item 2, item 0, packs
      items 1 and 2 and then keeps them: item 0 is worth less than item 2. */
  lemma PassBCA()
    ensures Pack([ItemB, ItemC, ItemA], [], 10) == [ItemB, ItemC]
  {
    assert [ItemB][1..] == [] && [ItemB, ItemC][1..] == [ItemC] && [ItemC][1..] == [];
    assert SumWeights([ItemB]) == 4 && SumWeights([ItemB, ItemC]) == 10;
    assert Step([], ItemB, 10) == [ItemB];
    assert Step([ItemB], ItemC, 10) == [ItemB, ItemC];
    assert Step([ItemB, ItemC], ItemA, 10) == [ItemB, ItemC];
    assert [ItemB, ItemC, ItemA][1..] == [ItemC, ItemA] && [ItemC, ItemA][1..] == [ItemA];
    assert [ItemA][1..] == [];
    assert Pack([ItemA], [ItemB, ItemC], 10) == Pack([], [ItemB, ItemC], 10);
  }

  /** Item 1 has the least ratio, so every ratio order starts with it and
      continues with items 0 and 2 in either order. */
  lemma ThreeItemOrders(o: seq<KnapItem>)
    requires IsRatioOrder(o, ThreeItems.items)
    ensures o == [ItemB, ItemA, ItemC] || o == [ItemB, ItemC, ItemA]
  {
    var ms := multiset(ThreeItems.items);
    assert ms == multiset{ItemA, ItemB, ItemC};
    assert |o| == |multiset(o)| == 3;
    forall i | 0 <= i < 3 ensures o[i] == ItemA || o[i] == ItemB || o[i] == ItemC {
      assert o[i] in multiset(o);
    }
    assert ItemB in multiset(o);
    var t :| 0 <= t < 3 && o[t] == ItemB;
    assert Ratio(o[0]) <= Ratio(o[t]) == 1;
    assert o[0] == ItemB;
    assert ItemA in multiset(o) && ItemC in multiset(o);
  }

  /** Items 1 and 2 weigh 10, are worth 16, and set bits 1 and 2. */
  lemma PassValue()
    ensures SumWeights([ItemB, ItemC]) == 10 && SumPrices([ItemB, ItemC]) == 16
    ensures MaskSum([ItemB, ItemC]) == 6
  {
    assert [ItemB, ItemC][1..] == [ItemC] && [ItemC][1..] == [];
    assert SumWeights([ItemC]) == 6 && SumPrices([ItemC]) == 12;
    assert IdSeq([ItemB, ItemC]) == [1, 2];
    assert [1, 2][..1] == [1] && [1][..0] == [];
    assert Pow2(1) == 2 && Pow2(2) == 4;
    assert SumOfPowers([1]) == 2;
  }

  /** On the three-item instance the heuristic reaches the optimum, whichever
      ratio order the sort leaves. */
  lemma ThreeItemHeuristic(r: (U16, U16, U32))
    ensures IsHeuristicResult(ThreeItems, r) <==> r == (10, 16, 6)
  {
    PassBAC();
    PassValue();
    var order := [ItemB, ItemA, ItemC];
    assert multiset(order) == multiset(ThreeItems.items);
    assert IsRatioOrder(order, ThreeItems.items);
    if IsHeuristicResult(ThreeItems, r) {
      var o: seq<KnapItem> :| IsRatioOrder(o, ThreeItems.items) && (o == [] || o[0].weight <= ThreeItems.capacity) &&
        var sel := Pack(o, [], ThreeItems.capacity);
        r.0 == SumWeights(sel) && r.1 == SumPrices(sel) && r.2 == MaskSum(sel);
      ThreeItemOrders(o);
      PassBCA();
    }
  }

  /** On the three-item instance the sort and the pass of
      `solve_heuristic` select items 1 and 2. */
  lemma ThreeItemPass()
    ensures RatiosDefined(ThreeItems.items) && MinRatioItemsFit(ThreeItems)
    ensures HeuristicPass(ThreeItems) == [ItemB, ItemC]
  {
    assert MinRatioItemsFit(ThreeItems);
    var o := RatioOrderOf(ThreeItems.items);
    ThreeItemOrders(o);
    if o == [ItemB, ItemA, ItemC] {
      PassBAC();
    } else {
      PassBCA();
    }
  }

  /** So the heuristic reports weight 10, price 16, mask 6. */
  lemma ThreeItemSolved(r: (U16, U16, U32))
    ensures RatiosDefined(ThreeItems.items) && MinRatioItemsFit(ThreeItems)
    ensures IsPassResult(ThreeItems, r) <==> r == (10, 16, 6)
  {
    ThreeItemPass();
    PassValue();
  }

  /** No items: both strategies report weight 0, price 0, mask 0. */
  lemma EmptyInstance(k: Knapsack, r: (U16, U16, U32))
    requires k.items == []
    ensures IsBestSelection(k, (0, 0, 0))
    ensures IsHeuristicResult(k, r) <==> r == (0, 0, 0)
  {
    assert ItemsFromMask(k, 0) == [];
    forall o | IsRatioOrder(o, k.items) ensures o == [] {
      assert |o| == |multiset(o)| == 0;
    }
    SoleOrderResult(k, [], r);
  }

  const Single := KnapItem(0, 3, 7)

  /** One item (weight 3, price 7) that does not fit into capacity 2: the
      exhaustive search reports nothing selected, and the heuristic cannot
      run, because its first item does not fit and the exchange step then
      asks for the last item of an empty selection. */
  lemma OversizedItem()
    ensures IsBestSelection(Knapsack(0, 2, [Single]), (0, 0, 0))
    ensures !MinRatioItemsFit(Knapsack(0, 2, [Single]))
  {
    var k := Knapsack(0, 2, [Single]);
    assert Pow2(1) == 2;
    assert Select(k.items, 0, 1) == [] && Select(k.items, 1, 1) == [];
    assert ItemsFromMask(k, 0) == [] && ItemsFromMask(k, 1) == [Single];
    assert HasMinRatio(k.items, 0);
  }

  /** One item (weight 3, price 7) that fits into capacity 5: the
      exhaustive search selects it, weight 3, price 7, mask 1. */
  lemma FittingItemBest()
    ensures IsBestSelection(Knapsack(0, 5, [Single]), (3, 7, 1))
  {
    var k := Knapsack(0, 5, [Single]);
    assert Pow2(1) == 2;
    assert Select(k.items, 0, 1) == [] && Select(k.items, 1, 1) == [];
    assert ItemsFromMask(k, 0) == [] && ItemsFromMask(k, 1) == [Single];
    assert [Single][1..] == [];
    assert MaskWeight(k, 0) == 0 && MaskPrice(k, 0) == 0;
    assert MaskWeight(k, 1) == 3 && MaskPrice(k, 1) == 7;
  }

  /** The heuristic selects the same single item. */
  lemma FittingItemHeuristic(r: (U16, U16, U32))
    ensures IsHeuristicResult(Knapsack(0, 5, [Single]), r) <==> r == (3, 7, 1)
  {
    var k := Knapsack(0, 5, [Single]);
    forall o | IsRatioOrder(o, k.items) ensures o == k.items {
      SingletonPermutation(k.items, o);
    }
    assert [Single][1..] == [];
    assert Pack(k.items, [], 5) == Pack([], Step([], Single, 5), 5) == [Single];
    assert IdSeq([Single]) == [0] && [0][..0] == [];
    SoleOrderResult(k, k.items, r);
  }
}
