/** The records the solver works on: the instance and its items (defined by
    the parser, which is not part of this model), the strategy selector and
    the solution record the driver assembles. */
module KnapTypes {

  /** Rust's `u16` and `u32`, as bounded naturals. */
  type U16 = x: nat | x < 0x1_0000
  type U32 = x: nat | x < 0x1_0000_0000

  /** An item: its identity (used as a bit position when a selection is
      encoded), its weight and its price. */
  datatype KnapItem = KnapItem(id: U16, weight: U16, price: U16)

  /** A problem instance: identifier, capacity and the ordered items. The
      position of an item in `items` is its bit in a selection mask. */
  datatype Knapsack = Knapsack(id: U16, capacity: U16, items: seq<KnapItem>)

  datatype SolutionType = Bruteforce | Heuristic

  /** The solution record. `elapsed` is the measured solving time, supplied
      by the caller's clock. */
  datatype KnapSolution = KnapSolution(
    knapId: U16,
    bitmask: U32,
    price: U16,
    weight: U16,
    elapsed: real,
    soltype: SolutionType
  )

  /** No two items of `s` carry the same identity. */
  predicate DistinctIds(s: seq<KnapItem>)
  {
    forall i, j :: 0 <= i < j < |s| ==> s[i].id != s[j].id
  }

  /** Every identity of `s` names a bit of a 32-bit mask. */
  predicate IdsBelow32(s: seq<KnapItem>)
  {
    forall i :: 0 <= i < |s| ==> s[i].id < 32
  }

  /** Every item's identity equals its position in the instance. */
  predicate IdsArePositions(k: Knapsack)
  {
    forall i :: 0 <= i < |k.items| ==> k.items[i].id == i
  }
}
