# Knapsack solver core

This project models `src/solver.rs` of a 0/1 knapsack solver and proves properties of the model. An instance (`Knapsack`) has an identity, a capacity and a list of items. Each item (`KnapItem`) has an identity, a weight and a price, all 16-bit.

The solver offers two strategies:

- **Exhaustive search** (`solve_bruteforce`) walks every selection mask and keeps the first most valuable selection that fits.
- **Greedy heuristic** (`solve_heuristic`):
  - it sorts the items by price/weight ratio, rounded down, ascending;
  - it then adds each item while it fits;
  - when an item does not fit, it exchanges it for the last chosen item if that is strictly less valuable and the exchange fits.

`solve` runs one strategy and wraps the returned (weight, price, mask) triple into a `KnapSolution` record. `validate` checks the reported weight against the capacity.

Modules, one per concern of the source file:

- `KnapTypes` (`types.dfy`): the records and the `SolutionType` tag, with 16- and 32-bit widths as subset types of `nat`.
- `Bits` (`bits.dfy`): powers of two and bit `i` of a number, defined by halving. These stand in for `1 << i` and `&`.
- `Fitness` (`fitness.dfy`): `calc_fitness` and its reference sums.
- `Codec` (`codec.dfy`): `items_from_bmask` and `bitmask_from_items`, and what decoding and encoding do to each other.
- `Bruteforce` (`bruteforce.dfy`): the search loop, proved against `IsBestSelection`. That predicate says: optimal among feasible masks below `2^n`, and the lowest-numbered such mask.
- `Heuristic` (`heuristic.dfy`):
  - the ratio order and the one-step function `Step`;
  - the reference pass `Pack`;
  - the loop `GreedyPass`, proved equal to `Pack`;
  - `RatioOrderOf`, a deterministic ratio sort that stands for `sort_unstable_by`;
  - `SolveHeuristic`, proved to return the triple of the pass over that order (`IsPassResult`). That triple is also one of the results over any ratio order (`IsHeuristicResult`), which is what the general lemmas are stated for.
- `Solver` (`solver.dfy`): `solve` and `validate`, plus properties that relate the two strategies.
- `Scenarios` (`scenarios.dfy`): small instances worked through completely.

Panics of the source, taken with debug-build overflow checks, become preconditions:

- **Search.**
  - `u32::pow(2, n)` overflows unless there are fewer than 32 items.
  - `calc_fitness` adds in 16 bits. The search sums every subset, including the one with all items, so the totals of all items must fit in 16 bits.
- **Heuristic.**
  - The comparator divides by every weight it sees. The sort calls it once there are at least two items, so then every weight must be positive (`RatiosDefined`).
  - `result_items.last().unwrap()` panics when the first item of the sorted order does not fit on its own. Any item of least ratio may come first, so every such item must fit (`MinRatioItemsFit`).
  - The shift `1 << item.id` needs identities below 32, and the `u32` sum must not overflow. Distinct identities below 32 are enough for both.

Edge cases, as the code handles them:

- **First item too heavy.** When the first item of the sorted order does not fit on its own, `result_items.last().unwrap()` (`src/solver.rs:75`) panics. `MinRatioItemsFit` excludes this case; `Scenarios.OversizedItem` shows such an instance.
- **Zero weights.** The comparator divides by the weight (`src/solver.rs:65`). `RatiosDefined` excludes zero weights once there are two or more items.
- **Three items.** Take capacity 10 and items (weight 5, price 10), (4, 4), (6, 12). The optimum is items 1 and 2: weight 10, price 16, mask 6 (`Scenarios.ThreeItemOptimum`). The heuristic reaches it under either ratio order (`Scenarios.ThreeItemHeuristic`, `Scenarios.ThreeItemSolved`).

## Model

| member | source | states |
|---|---|---|
| Fitness.CalcFitness | src/solver.rs:36-40 | When the totals fit in 16 bits, the fold returns exactly the total weight and the total price of the given items. |
| Fitness.PermutationSums | src/solver.rs:38-40 | Any reordering of the items has the same totals. This is why sorting before summing changes nothing. |
| Codec.ItemsFromMaskPicks | src/solver.rs:22-27 | The items a mask selects are the items at the mask's set bit positions below the item count, in instance order. |
| Codec.HighBitsIgnored | src/solver.rs:23-27 | Two masks that agree on every bit below the item count select the same items. |
| Codec.NoBitsNoItems | src/solver.rs:23-27 | A mask with no bit set below the item count selects nothing. |
| Codec.DecodePositions | src/solver.rs:23-27 | Every increasing list of positions is selected by the sum of their powers of two. That sum stays below `2^n` and fits in 32 bits. So every sub-selection has a mask. |
| Codec.MaskFromItems | src/solver.rs:29-34 | With identities below 32 and a sum that fits in 32 bits, the mask of distinct identities has bit `i` set exactly when `i` is one of the identities. |
| Codec.MaskBits | src/solver.rs:30-34 | Distinct identities below 32 never overflow the `u32` sum, and bit `i` of the sum is set exactly when `i` is an identity. |
| Codec.RoundTrip | src/solver.rs:23-34 | A selection in instance order, each item at the position its identity names, is encoded and decoded back to itself. |
| Codec.RoundTripPermutation | src/solver.rs:23-34 | A selection with distinct identities, each item at the position its identity names, decodes back to the same items, as a multiset. |
| Codec.RepeatedIdCarries | src/solver.rs:31-33 | Because the fold adds instead of or-ing, an identity encoded twice carries into the next bit. The mask then decodes to an item that was never selected. |
| Bruteforce.SelectionSumsBounded | src/solver.rs:52-53 | The weight and price of every mask's selection are at most the totals of all items. So `calc_fitness` inside the loop cannot overflow. |
| Bruteforce.StepKeepsBest | src/solver.rs:55-57 | Keeping a mask only when it fits and is strictly more valuable extends "best over masks `0..=m-1`" to "best over masks `0..=m`". |
| Bruteforce.TopMaskSelectsNothing | src/solver.rs:48-52 | `2^n` fits in 32 bits, and the last mask the loop visits, `2^n` itself, selects nothing. |
| Bruteforce.SolveBruteforce | src/solver.rs:42-61 | Under its no-panic preconditions the search returns a feasible mask below `2^n` with its own weight and price. No feasible mask is worth more, and every lower feasible mask is worth strictly less. |
| Bruteforce.BestSelectionUnique | src/solver.rs:42-61 | The search's result is fully determined by the instance. Two results meeting the specification are equal. |
| Bruteforce.BestBeatsEverySelection | src/solver.rs:42-61 | Optimality over item selections, not only masks. No sub-selection that fits is worth more than the search's result. |
| Heuristic.RatioOrderOf | src/solver.rs:64-65 | Whenever the comparator can be evaluated, the sort returns a permutation of the items that is non-descending by ratio. It is a function of the items, as the deterministic sort is. |
| Heuristic.FirstOfOrderFits | src/solver.rs:65-75 | When every item of least ratio fits, the first item of every ratio order fits. So `last().unwrap()` is reached only on a non-empty selection. |
| Heuristic.StepFits | src/solver.rs:71-81 | One iteration keeps the chosen items within the capacity: adding only when it fits, exchanging only when the exchange fits. |
| Heuristic.StepSubMultiset | src/solver.rs:71-81 | One iteration only adds the current item or exchanges it for the last one. The selection stays within the items seen so far. |
| Heuristic.PackFits | src/solver.rs:70-83 | The whole pass ends within the capacity when it starts within it. |
| Heuristic.PackSubMultiset | src/solver.rs:70-83 | The pass only ever selects items from the order it walks, each at most as often as it occurs there. |
| Heuristic.GreedyPass | src/solver.rs:67-83 | The loop's selection is the reference pass over the sorted items, fits the capacity, and is drawn from those items. The running `u16` weight never overflows or underflows. |
| Heuristic.SolveHeuristic | src/solver.rs:63-89 | Under its no-panic preconditions the heuristic reports a weight within the capacity. The triple is the weight, price and mask of the greedy pass over the sorted items. |
| Heuristic.PassResultIsHeuristicResult | src/solver.rs:63-89 | The triple of the sorted pass is a result over some ratio order, so every lemma about those results applies to what the heuristic reports. |
| Heuristic.HeuristicFits | src/solver.rs:63-89 | Every result the heuristic may give fits the capacity. |
| Heuristic.HeuristicMaskDecodes | src/solver.rs:85-88 | When identities equal positions, decoding the heuristic's mask gives a selection of exactly the reported weight and price. |
| Heuristic.HeuristicMaskBelow | src/solver.rs:85-88 | When identities equal positions, the heuristic's mask is below `2^n`, so it is one of the masks the search visits. |
| Heuristic.DistinctRatiosOneResult | src/solver.rs:64-65 | When no two items share a ratio, every ratio order gives the same triple, so the sort's handling of ties cannot matter. |
| Heuristic.SoleOrderResult | src/solver.rs:63-89 | When the items admit a single ratio order, the heuristic's results are exactly the pass over that order. |
| Solver.ValidateMeansFeasible | src/solver.rs:91-94 | For a record reporting its own mask's weight, validation holds exactly when the mask's selection fits. |
| Solver.Solve | src/solver.rs:96-117 | The record copies the instance identity, the strategy and the measured time. Its weight, price and mask are the chosen strategy's result (`IsSolution`). It always passes validation. |
| Solver.BruteforceValid | src/solver.rs:92-94 | Every record of the exhaustive search passes validation. |
| Solver.HeuristicValid | src/solver.rs:92-94 | Every record of the heuristic passes validation. |
| Solver.SolveIdempotent | src/solver.rs:98-104 | Solving the same instance twice with the same strategy reports the same weight, price and mask, for both strategies and every solvable instance. |
| Solver.HeuristicAtMostOptimum | src/solver.rs:101-104 | When identities equal positions, the heuristic's price never exceeds the search's. |
| Scenarios.ThreeItemOptimum | src/solver.rs:42-61 | For capacity 10 and items (5, 10), (4, 4), (6, 12), the search's only result is weight 10, price 16, mask 6. |
| Scenarios.ThreeItemOrders | src/solver.rs:64-65 | On that instance the sort leaves item 1 first, followed by items 0 and 2 in either order. |
| Scenarios.ThreeItemHeuristic | src/solver.rs:63-89 | On that instance the heuristic's results are exactly weight 10, price 16, mask 6. |
| Scenarios.ThreeItemPass | src/solver.rs:64-83 | On that instance the sort and the greedy pass of `solve_heuristic` select items 1 and 2. |
| Scenarios.ThreeItemSolved | src/solver.rs:63-89 | On that instance the sorted pass of `solve_heuristic` reports exactly weight 10, price 16, mask 6. |
| Scenarios.EmptyInstance | src/solver.rs:42-89 | With no items both strategies report weight 0, price 0, mask 0. |
| Scenarios.OversizedItem | src/solver.rs:42-75 | A single item heavier than the capacity: the search reports nothing selected, and the heuristic's no-panic precondition fails. |
| Scenarios.FittingItemBest | src/solver.rs:42-61 | A single item (3, 7) that fits into capacity 5: the search reports weight 3, price 7, mask 1. |
| Scenarios.FittingItemHeuristic | src/solver.rs:63-89 | The same instance: the heuristic's results are exactly weight 3, price 7, mask 1. |

## Left out

- Timing: `PreciseTime::now()` and the `f32` conversion of the elapsed duration are not modelled. `Solver.Solve` takes the elapsed time as a `real` parameter and copies it into the record.
- The `parser` module, which defines `Knapsack` and `KnapItem` and reads instances, is not part of this model. Only the two record types it provides are modelled.
- The `Debug`, `Clone` and `Copy` derivations have no counterpart. Records are Dafny values.
- Panics are modelled as preconditions of the operations that would panic. No model of the panic itself is given.
- Heuristic.SolveHeuristic: requires distinct identities below 32 and all-item totals below `2^16`. These are enough to rule out a shift or add overflow, but stronger than what the code strictly needs for a particular order.
- Heuristic.RatioOrderOf: `sort_unstable_by` is modelled as an insertion sort by ratio, on values and not in place. Both are deterministic, but the order the real sort leaves items of equal ratio in is not modelled. The exact triple (`IsPassResult`) is therefore stated for the insertion sort's order. Every other property is proved for every ratio order (`IsHeuristicResult`), and so holds whatever order the real sort leaves ties in.
- Heuristic.SolveHeuristic: the `usize` index paired with each item is dropped, because nothing reads it after the sort.
- Heuristic.DistinctRatiosOneResult: proved only when ratios are distinct. With equal ratios, different ratio orders can give different results; the program's own sort still fixes one of them.
- Masks are unbounded `nat` values below `2^32`, not `bv32`. `&` and `<<` are expressed through `Bits.Bit` and `Bits.Pow2`.
- Heuristic.GreedyPass: the loop of `solve_heuristic` is a method of its own, called by `SolveHeuristic`. `result_items` is a sequence value and not a growable vector of references.
