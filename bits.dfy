/** Selection masks as natural numbers: powers of two, the bit test
    `m & (1 << i) != 0`, and sums of distinct powers of two (the masks the
    solver builds with `acc + (1 << id)`). */
module Bits {

  /** `1 << n`. */
  function Pow2(n: nat): (r: nat)
    ensures r >= 1
  {
    if n == 0 then 1 else 2 * Pow2(n - 1)
  }

  /** Bit `i` of `m` is set. */
  predicate Bit(m: nat, i: nat)
    decreases i
  {
    if i == 0 then m % 2 == 1 else Bit(m / 2, i - 1)
  }

  lemma {:induction false} Pow2Monotone(a: nat, b: nat)
    requires a <= b
    ensures Pow2(a) <= Pow2(b)
    decreases b
  {
    if a < b {
      Pow2Monotone(a, b - 1);
    }
  }

  lemma {:induction false} Pow2Add(a: nat, b: nat)
    ensures Pow2(a + b) == Pow2(a) * Pow2(b)
    decreases a
  {
    if a > 0 {
      Pow2Add(a - 1, b);
    }
  }

  /** Every shift `1 << n` with `n < 32` fits in 32 bits, and `1 << 32` is
      the first one that does not. */
  lemma Pow2Below32(n: nat)
    requires n < 32
    ensures Pow2(n) <= 0x8000_0000 && Pow2(32) == 0x1_0000_0000
  {
    assert Pow2(7) == 0x80 && Pow2(8) == 0x100;
    Pow2Add(8, 8);
    Pow2Add(8, 7);
    Pow2Add(16, 15);
    Pow2Add(16, 16);
    Pow2Monotone(n, 31);
  }

  lemma {:induction false} NoBitOfZero(i: nat)
    ensures !Bit(0, i)
    decreases i
  {
    if i > 0 {
      NoBitOfZero(i - 1);
    }
  }

  /** Adding `1 << a` to a number whose bit `a` is clear sets exactly that
      bit: no carry reaches any other position. */
  lemma {:induction false} BitOfSum(x: nat, a: nat, i: nat)
    requires !Bit(x, a)
    ensures Bit(x + Pow2(a), i) <==> Bit(x, i) || i == a
    decreases a
  {
    if a == 0 {
      assert x % 2 == 0;
      if i > 0 {
        assert (x + 1) / 2 == x / 2;
      }
    } else {
      assert (x + Pow2(a)) % 2 == x % 2;
      assert (x + Pow2(a)) / 2 == x / 2 + Pow2(a - 1);
      if i > 0 {
        BitOfSum(x / 2, a - 1, i - 1);
      }
    }
  }

  /** Setting a clear bit below position `w` keeps a number below `1 << w`. */
  lemma {:induction false} SumBelowPow(x: nat, a: nat, w: nat)
    requires x < Pow2(w) && a < w && !Bit(x, a)
    ensures x + Pow2(a) < Pow2(w)
    decreases a
  {
    if a == 0 {
      assert x % 2 == 0;
    } else {
      SumBelowPow(x / 2, a - 1, w - 1);
    }
  }

  /** `1 << n` has exactly bit `n` set. */
  lemma BitOfPow2(n: nat, i: nat)
    ensures Bit(Pow2(n), i) <==> i == n
  {
    NoBitOfZero(n);
    NoBitOfZero(i);
    BitOfSum(0, n, i);
  }

  /** The fold `acc + (1 << p)` over the positions `ps`, from the left. */
  function SumOfPowers(ps: seq<nat>): nat
  {
    if ps == [] then 0 else SumOfPowers(ps[..|ps| - 1]) + Pow2(ps[|ps| - 1])
  }

  predicate Distinct(ps: seq<nat>)
  {
    forall i, j :: 0 <= i < j < |ps| ==> ps[i] != ps[j]
  }

  /** Summing distinct powers of two is the same as or-ing them: the sum has
      exactly the bits `ps` set, and stays below `1 << w` when every
      position is below `w`. */
  lemma {:induction false} SumOfDistinctPowers(ps: seq<nat>, w: nat)
    requires Distinct(ps)
    requires forall j :: 0 <= j < |ps| ==> ps[j] < w
    ensures SumOfPowers(ps) < Pow2(w)
    ensures forall i :: Bit(SumOfPowers(ps), i) <==> i in ps
  {
    if ps == [] {
      forall i ensures !Bit(0, i) {
        NoBitOfZero(i);
      }
    } else {
      var init, a := ps[..|ps| - 1], ps[|ps| - 1];
      assert ps == init + [a];
      SumOfDistinctPowers(init, w);
      assert a !in init;
      SumBelowPow(SumOfPowers(init), a, w);
      forall i ensures Bit(SumOfPowers(ps), i) <==> i in ps {
        BitOfSum(SumOfPowers(init), a, i);
      }
    }
  }
}
