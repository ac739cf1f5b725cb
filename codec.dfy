/** The selection-mask codec: `items_from_bmask` decodes a mask into the
    items at its set positions, `bitmask_from_items` encodes a selection by
    adding `1 << id` for each of its items. */
module Codec {
  import opened KnapTypes
  import opened Bits

  predicate Increasing(ps: seq<nat>)
  {
    forall i, j :: 0 <= i < j < |ps| ==> ps[i] < ps[j]
  }

  /** The positions `lo <= i < hi` whose bit is set in `m`, in increasing
      order. */
  function SetBits(m: nat, lo: nat, hi: nat): (r: seq<nat>)
    ensures Increasing(r)
    ensures forall j :: 0 <= j < |r| ==> lo <= r[j] < hi
    ensures forall i :: i in r <==> lo <= i < hi && Bit(m, i)
    decreases hi - lo
  {
    if lo >= hi then []
    else (if Bit(m, lo) then [lo] else []) + SetBits(m, lo + 1, hi)
  }

  /** The items at positions `ps`, in the order of `ps`. */
  function Pick(items: seq<KnapItem>, ps: seq<nat>): seq<KnapItem>
    requires forall j :: 0 <= j < |ps| ==> ps[j] < |items|
  {
    seq(|ps|, j requires 0 <= j < |ps| => items[ps[j]])
  }

  /** The filter over `items.iter().enumerate()` from position `pos` on:
      keeps the item at position `i` when bit `i` of `m` is set. */
  function Select(items: seq<KnapItem>, m: nat, pos: nat): seq<KnapItem>
    requires pos <= |items|
    decreases |items| - pos
  {
    if pos == |items| then []
    else (if Bit(m, pos) then [items[pos]] else []) + Select(items, m, pos + 1)
  }

  /** `items_from_bmask`. The shift `1 << i` needs every position below
      32. */
  function ItemsFromMask(k: Knapsack, mask: U32): seq<KnapItem>
    requires |k.items| <= 32
  {
    Select(k.items, mask, 0)
  }

  lemma PickConcat(items: seq<KnapItem>, a: seq<nat>, b: seq<nat>)
    requires forall j :: 0 <= j < |a| ==> a[j] < |items|
    requires forall j :: 0 <= j < |b| ==> b[j] < |items|
    ensures Pick(items, a + b) == Pick(items, a) + Pick(items, b)
  {
  }

  /** The filter from `pos` on keeps exactly the items at the set positions
      from `pos` on, in position order. */
  lemma {:induction false} SelectPicks(items: seq<KnapItem>, m: nat, pos: nat)
    requires pos <= |items|
    ensures Select(items, m, pos) == Pick(items, SetBits(m, pos, |items|))
    decreases |items| - pos
  {
    if pos < |items| {
      SelectPicks(items, m, pos + 1);
      var head: seq<nat> := if Bit(m, pos) then [pos] else [];
      PickConcat(items, head, SetBits(m, pos + 1, |items|));
    }
  }

  /** `items_from_bmask` returns the items at exactly the set positions of
      the mask, in instance order; bits from position `|k.items|` on name
      no item. */
  lemma ItemsFromMaskPicks(k: Knapsack, mask: U32)
    requires |k.items| <= 32
    ensures ItemsFromMask(k, mask) == Pick(k.items, SetBits(mask, 0, |k.items|))
  {
    SelectPicks(k.items, mask, 0);
  }

  lemma FirstIsMember<T>(s: seq<T>)
    ensures s == [] || s[0] in s
  {
  }

  /** Two increasing position lists with the same members are equal. */
  lemma {:induction false} IncreasingUnique(a: seq<nat>, b: seq<nat>)
    requires Increasing(a) && Increasing(b)
    requires forall x :: x in a <==> x in b
    ensures a == b
    decreases |a|
  {
    if a == [] {
      FirstIsMember(b);
    } else {
      assert a[0] in a;
      assert b[0] in b;
      assert a[0] == b[0];
      forall x ensures x in a[1..] <==> x in b[1..] {
        assert x in a[1..] <==> x in a && x != a[0];
        assert x in b[1..] <==> x in b && x != b[0];
      }
      IncreasingUnique(a[1..], b[1..]);
      assert a == [a[0]] + a[1..] && b == [b[0]] + b[1..];
    }
  }

  /** Only the bits below the item count matter. */
  lemma HighBitsIgnored(k: Knapsack, m1: U32, m2: U32)
    requires |k.items| <= 32
    requires forall i :: 0 <= i < |k.items| ==> (Bit(m1, i) <==> Bit(m2, i))
    ensures ItemsFromMask(k, m1) == ItemsFromMask(k, m2)
  {
    ItemsFromMaskPicks(k, m1);
    ItemsFromMaskPicks(k, m2);
    IncreasingUnique(SetBits(m1, 0, |k.items|), SetBits(m2, 0, |k.items|));
  }

  /** A mask with no set bit below the item count selects nothing. */
  lemma NoBitsNoItems(k: Knapsack, m: U32)
    requires |k.items| <= 32
    requires forall i :: 0 <= i < |k.items| ==> !Bit(m, i)
    ensures ItemsFromMask(k, m) == []
  {
    var ps := SetBits(m, 0, |k.items|);
    ItemsFromMaskPicks(k, m);
    FirstIsMember(ps);
  }

  /** Every increasing list of positions is the decoding of the sum of its
      powers of two: every sub-selection of the items has a mask. */
  lemma DecodePositions(k: Knapsack, ps: seq<nat>)
    requires |k.items| <= 32
    requires Increasing(ps)
    requires forall j :: 0 <= j < |ps| ==> ps[j] < |k.items|
    ensures SumOfPowers(ps) < Pow2(|k.items|) && SumOfPowers(ps) < 0x1_0000_0000
    ensures ItemsFromMask(k, SumOfPowers(ps)) == Pick(k.items, ps)
  {
    SumOfDistinctPowers(ps, |k.items|);
    Pow2Monotone(|k.items|, 32);
    Pow2Below32(0);
    IncreasingUnique(SetBits(SumOfPowers(ps), 0, |k.items|), ps);
    ItemsFromMaskPicks(k, SumOfPowers(ps));
  }

  /** The identities of a selection, in its order. */
  function IdSeq(s: seq<KnapItem>): seq<nat>
  {
    seq(|s|, j requires 0 <= j < |s| => s[j].id as nat)
  }

  /** The fold `acc + (1 << item.id)` of `bitmask_from_items`, without a
      width. */
  function MaskSum(s: seq<KnapItem>): nat
  {
    SumOfPowers(IdSeq(s))
  }

  /** With distinct identities below 32 the sum fits in 32 bits and has
      exactly the identities' bits set; `+` then coincides with `|`. */
  lemma MaskBits(s: seq<KnapItem>)
    requires IdsBelow32(s)
    ensures DistinctIds(s) ==> MaskSum(s) < 0x1_0000_0000
    ensures DistinctIds(s) ==> forall i :: Bit(MaskSum(s), i) <==> i in IdSeq(s)
  {
    if DistinctIds(s) {
      SumOfDistinctPowers(IdSeq(s), 32);
      Pow2Below32(0);
    }
  }

  /** `bitmask_from_items`. The shift needs every identity below 32 and the
      `u32` sum must not overflow; when the identities are distinct the
      result has exactly their bits set. */
  function MaskFromItems(s: seq<KnapItem>): (r: U32)
    requires IdsBelow32(s)
    requires MaskSum(s) < 0x1_0000_0000
    ensures DistinctIds(s) ==> forall i :: Bit(r, i) <==> i in IdSeq(s)
  {
    MaskBits(s);
    MaskSum(s)
  }

  /** Round trip: a selection taken in instance order, each item sitting at
      the position its identity names, is encoded and decoded back to
      itself. */
  lemma RoundTrip(k: Knapsack, sub: seq<KnapItem>)
    requires |k.items| <= 32
    requires forall j :: 0 <= j < |sub| ==> sub[j].id < |k.items| && k.items[sub[j].id] == sub[j]
    requires forall i, j :: 0 <= i < j < |sub| ==> sub[i].id < sub[j].id
    ensures IdsBelow32(sub) && MaskSum(sub) < 0x1_0000_0000
    ensures ItemsFromMask(k, MaskFromItems(sub)) == sub
  {
    DecodePositions(k, IdSeq(sub));
  }

  /** A selection without repeated identities contains each item at most
      once. */
  lemma {:induction false} DistinctIdsCount(s: seq<KnapItem>, x: KnapItem)
    requires DistinctIds(s)
    ensures multiset(s)[x] == if x in s then 1 else 0
    decreases |s|
  {
    if s != [] {
      assert s == [s[0]] + s[1..];
      DistinctIdsCount(s[1..], x);
    }
  }

  /** A sub-selection (as a multiset) of a selection with distinct
      identities has distinct identities. */
  lemma {:induction false} SubMultisetDistinct(a: seq<KnapItem>, b: seq<KnapItem>)
    requires multiset(a) <= multiset(b)
    requires DistinctIds(b)
    ensures DistinctIds(a)
    decreases |a|
  {
    forall i, j | 0 <= i < j < |a| ensures a[i].id != a[j].id {
      if a[i].id == a[j].id {
        assert a[i] in multiset(b) && a[j] in multiset(b);
        var p :| 0 <= p < |b| && b[p] == a[i];
        var q :| 0 <= q < |b| && b[q] == a[j];
        assert p == q;
        RepeatCounted(a, i, j);
        DistinctIdsCount(b, a[i]);
        assert false;
      }
    }
  }

  /** An item occurring at two positions is counted twice. */
  lemma RepeatCounted(a: seq<KnapItem>, i: nat, j: nat)
    requires i < j < |a| && a[i] == a[j]
    ensures multiset(a)[a[i]] >= 2
  {
    assert a == a[..j] + a[j..];
    assert a[i] in a[..j] && a[j] in a[j..];
  }

  /** Two selections without repeated identities that have the same members
      are permutations of each other. */
  lemma SameMembersPermutation(r: seq<KnapItem>, s: seq<KnapItem>)
    requires DistinctIds(r) && DistinctIds(s)
    requires forall x :: x in r <==> x in s
    ensures multiset(r) == multiset(s)
  {
    forall x ensures multiset(r)[x] == multiset(s)[x] {
      DistinctIdsCount(r, x);
      DistinctIdsCount(s, x);
    }
  }

  /** A mask whose set bits below the item count are the identities of
      `sub` decodes to the members of `sub`, each once. */
  lemma DecodedMembers(k: Knapsack, sub: seq<KnapItem>, mask: U32)
    requires |k.items| <= 32
    requires forall j :: 0 <= j < |sub| ==> sub[j].id < |k.items| && k.items[sub[j].id] == sub[j]
    requires forall i :: 0 <= i < |k.items| ==> (Bit(mask, i) <==> i in IdSeq(sub))
    ensures DistinctIds(ItemsFromMask(k, mask))
    ensures forall x :: x in ItemsFromMask(k, mask) <==> x in sub
  {
    var ps := SetBits(mask, 0, |k.items|);
    var r := ItemsFromMask(k, mask);
    ItemsFromMaskPicks(k, mask);
    forall j | 0 <= j < |r| ensures r[j] in sub && r[j].id == ps[j] {
      assert ps[j] in ps;
      var t :| 0 <= t < |sub| && IdSeq(sub)[t] == ps[j];
      assert r[j] == sub[t];
    }
    forall x | x in sub ensures x in r {
      var t :| 0 <= t < |sub| && sub[t] == x;
      var i := IdSeq(sub)[t];
      assert i in IdSeq(sub) && i in ps;
      var j :| 0 <= j < |ps| && ps[j] == i;
      assert r[j] == x;
    }
  }

  /** Round trip up to order: a selection with distinct identities, each
      item sitting at the position its identity names, decodes back to the
      same items (in instance order). */
  lemma RoundTripPermutation(k: Knapsack, sub: seq<KnapItem>)
    requires |k.items| <= 32
    requires forall j :: 0 <= j < |sub| ==> sub[j].id < |k.items| && k.items[sub[j].id] == sub[j]
    requires DistinctIds(sub)
    ensures IdsBelow32(sub) && MaskSum(sub) < 0x1_0000_0000
    ensures multiset(ItemsFromMask(k, MaskFromItems(sub))) == multiset(sub)
  {
    MaskBits(sub);
    var mask := MaskFromItems(sub);
    DecodedMembers(k, sub, mask);
    SameMembersPermutation(ItemsFromMask(k, mask), sub);
  }

  /** Why the identities must be distinct: `+` is not `|`, so an identity
      added twice carries into the next bit, and the mask decodes to an
      item that was never selected. */
  lemma RepeatedIdCarries(k: Knapsack)
    requires 2 <= |k.items| <= 32 && IdsArePositions(k)
    ensures MaskSum([k.items[0], k.items[0]]) == 2
    ensures ItemsFromMask(k, 2) == [k.items[1]]
  {
    var e := k.items[0];
    assert e.id == 0;
    assert IdSeq([e, e]) == [0, 0];
    assert [0, 0][..1] == [0] && [0][..0] == [];
    assert SumOfPowers([0, 0]) == SumOfPowers([0]) + 1 == 2;
    assert Bit(2, 1) && !Bit(2, 0);
    forall i | 2 <= i ensures !Bit(2, i) {
      NoBitOfZero(i - 2);
      assert Bit(2, i) == Bit(1, i - 1) == Bit(0, i - 2);
    }
    IncreasingUnique(SetBits(2, 0, |k.items|), [1]);
    ItemsFromMaskPicks(k, 2);
  }
}
