/** `calc_fitness`: the total weight and total price of a selection of
    items, and how those totals behave under concatenation and
    sub-selection. */
module Fitness {
  import opened KnapTypes

  /** Reference definitions of the two totals. */
  function SumWeights(s: seq<KnapItem>): nat
  {
    if s == [] then 0 else s[0].weight + SumWeights(s[1..])
  }

  function SumPrices(s: seq<KnapItem>): nat
  {
    if s == [] then 0 else s[0].price + SumPrices(s[1..])
  }

  /** The left fold `(acc.0 + weight, acc.1 + price)` of `calc_fitness`,
      over unbounded accumulators. */
  function FoldFitness(s: seq<KnapItem>, acc: (nat, nat)): (r: (nat, nat))
    ensures r == (acc.0 + SumWeights(s), acc.1 + SumPrices(s))
    decreases |s|
  {
    if s == [] then acc
    else FoldFitness(s[1..], (acc.0 + s[0].weight, acc.1 + s[0].price))
  }

  /** `calc_fitness`: the fold starts from (0, 0) and accumulates in `u16`.
      The totals are never smaller than a partial sum, so no step of the
      fold overflows exactly when the totals fit in 16 bits. */
  function CalcFitness(s: seq<KnapItem>): (r: (U16, U16))
    requires SumWeights(s) < 0x1_0000 && SumPrices(s) < 0x1_0000
    ensures r.0 == SumWeights(s) && r.1 == SumPrices(s)
  {
    FoldFitness(s, (0, 0))
  }

  lemma {:induction false} SumsOfConcat(a: seq<KnapItem>, b: seq<KnapItem>)
    ensures SumWeights(a + b) == SumWeights(a) + SumWeights(b)
    ensures SumPrices(a + b) == SumPrices(a) + SumPrices(b)
    decreases |a|
  {
    if a == [] {
      assert a + b == b;
    } else {
      assert (a + b)[1..] == a[1..] + b;
      SumsOfConcat(a[1..], b);
    }
  }

  /** A sub-selection (as a multiset) weighs and costs no more than the
      whole; in particular a permutation has the same totals. */
  lemma {:induction false} SubMultisetSums(a: seq<KnapItem>, b: seq<KnapItem>)
    requires multiset(a) <= multiset(b)
    ensures SumWeights(a) <= SumWeights(b) && SumPrices(a) <= SumPrices(b)
    decreases |a|
  {
    if a != [] {
      var x := a[0];
      assert x in multiset(a);
      var k :| 0 <= k < |b| && b[k] == x;
      var rest := b[..k] + b[k + 1..];
      assert b == b[..k] + ([x] + b[k + 1..]);
      SumsOfConcat(b[..k], [x] + b[k + 1..]);
      SumsOfConcat([x], b[k + 1..]);
      SumsOfConcat(b[..k], b[k + 1..]);
      assert multiset(rest) == multiset(b) - multiset{x};
      assert a == [x] + a[1..];
      SubMultisetSums(a[1..], rest);
    }
  }

  lemma PermutationSums(a: seq<KnapItem>, b: seq<KnapItem>)
    requires multiset(a) == multiset(b)
    ensures SumWeights(a) == SumWeights(b) && SumPrices(a) == SumPrices(b)
  {
    SubMultisetSums(a, b);
    SubMultisetSums(b, a);
  }
}
