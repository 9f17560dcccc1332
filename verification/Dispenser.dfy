/** The gumball machine's dispenser: an array of item numbers, shuffled one swap at a time as items are
    sold, so that every item is sold once. */
module Dispenser {
  import opened Bits

  const MAX_NUM_INDICES_TO_INIT_FOR_CHUNK: nat := 250000

  predicate Distinct(s: seq<nat>) {
    forall j, k :: 0 <= j < k < |s| ==> s[j] != s[k]
  }

  function Identity(n: nat): (s: seq<nat>)
    ensures |s| == n
  {
    seq(n, (i: nat) => i)
  }

  function Swapped(s: seq<nat>, i: nat, j: nat): (s': seq<nat>)
    requires i < |s| && j < |s|
    ensures |s'| == |s|
  {
    s[i := s[j]][j := s[i]]
  }

  // ----- one draw, and many

  /** The indices after one draw among the first `remaining`, and the index drawn. */
  function Draw(indices: seq<nat>, remaining: nat, entropy: nat): (seq<nat>, nat)
    requires 0 < remaining <= |indices|
  {
    (Swapped(indices, entropy % remaining, remaining - 1), indices[entropy % remaining])
  }

  function Draws(indices: seq<nat>, remaining: nat, entropies: seq<nat>): (seq<nat>, seq<nat>)
    requires |entropies| <= remaining <= |indices|
    ensures |Draws(indices, remaining, entropies).0| == |indices|
    ensures |Draws(indices, remaining, entropies).1| == |entropies|
    decreases |entropies|
  {
    if |entropies| == 0 then (indices, [])
    else
      var n := |entropies| - 1;
      var (before, drawn) := Draws(indices, remaining, entropies[..n]);
      var (after, x) := Draw(before, remaining - n, entropies[n]);
      (after, drawn + [x])
  }

  lemma SwapIsPermutation(s: seq<nat>, i: nat, j: nat)
    requires i < |s| && j < |s|
    ensures multiset(Swapped(s, i, j)) == multiset(s)
  {
  }

  /** One draw takes one of the remaining items and leaves the others. */
  lemma DrawConserves(indices: seq<nat>, remaining: nat, entropy: nat)
    requires 0 < remaining <= |indices|
    ensures var (after, x) := Draw(indices, remaining, entropy);
      && |after| == |indices| && after[remaining - 1] == x
      && multiset(after[..remaining - 1]) + multiset{x} == multiset(indices[..remaining])
      && forall k :: remaining <= k < |after| ==> after[k] == indices[k]
  {
    SwapConserves(indices, remaining, entropy % remaining);
  }

  lemma SwapConserves(indices: seq<nat>, remaining: nat, selected: nat)
    requires selected < remaining <= |indices|
    ensures var after := Swapped(indices, selected, remaining - 1);
      && after[remaining - 1] == indices[selected]
      && multiset(after[..remaining - 1]) + multiset{indices[selected]} == multiset(indices[..remaining])
      && forall k :: remaining <= k < |after| ==> after[k] == indices[k]
  {
    var last := remaining - 1;
    assert Swapped(indices, selected, last)[..remaining] == Swapped(indices[..remaining], selected, last);
    hide Swapped;
    SwapIsPermutation(indices[..remaining], selected, last);
    LastApart(Swapped(indices, selected, last), last);
    SwapSlots(indices, selected, last);
  }

  lemma SwapSlots(s: seq<nat>, i: nat, j: nat)
    requires i < |s| && j < |s|
    ensures Swapped(s, i, j)[j] == s[i]
    ensures forall k :: 0 <= k < |s| && k != i && k != j ==> Swapped(s, i, j)[k] == s[k]
  {
  }

  lemma LastApart(s: seq<nat>, last: nat)
    requires last < |s|
    ensures multiset(s[..last + 1]) == multiset(s[..last]) + multiset{s[last]}
  {
    assert s[..last + 1] == s[..last] + [s[last]];
  }

  /** Conservation: items drawn and items remaining are together what was there at the start, whatever
      the entropy; the drawn items lie behind the remaining ones; items past the start are not touched. */
  ghost predicate Conserved(indices: seq<nat>, remaining: nat, after: seq<nat>, drawn: seq<nat>)
    requires |drawn| <= remaining <= |indices| == |after|
  {
    && multiset(drawn) + multiset(after[..remaining - |drawn|]) == multiset(indices[..remaining])
    && after[remaining..] == indices[remaining..]
    && forall j :: 0 <= j < |drawn| ==> drawn[j] == after[remaining - 1 - j]
  }

  lemma ConservedOnce(indices: seq<nat>, remaining: nat, before: seq<nat>, drawn: seq<nat>, entropy: nat)
    requires |drawn| < remaining <= |indices| == |before| && Conserved(indices, remaining, before, drawn)
    ensures var (after, x) := Draw(before, remaining - |drawn|, entropy);
      |after| == |indices| && Conserved(indices, remaining, after, drawn + [x])
  {
    var r := remaining - |drawn|;
    DrawConserves(before, r, entropy);
    var (after, x) := Draw(before, r, entropy);
    hide Draw;
    assert multiset(drawn + [x]) == multiset(drawn) + multiset{x};
    StillBehind(indices, remaining, before, drawn, after, x);
  }

  lemma StillBehind(indices: seq<nat>, remaining: nat, before: seq<nat>, drawn: seq<nat>, after: seq<nat>, x: nat)
    requires |drawn| < remaining <= |indices| == |before| == |after|
    requires before[remaining..] == indices[remaining..]
    requires forall j :: 0 <= j < |drawn| ==> drawn[j] == before[remaining - 1 - j]
    requires var r := remaining - |drawn|; after[r - 1] == x && forall k :: r <= k < |after| ==> after[k] == before[k]
    ensures after[remaining..] == indices[remaining..]
    ensures forall j :: 0 <= j <= |drawn| ==> (drawn + [x])[j] == after[remaining - 1 - j]
  {
    assert after[remaining..] == before[remaining..];
  }

  lemma {:induction false} DrawsConserve(indices: seq<nat>, remaining: nat, entropies: seq<nat>)
    requires |entropies| <= remaining <= |indices|
    ensures Conserved(indices, remaining, Draws(indices, remaining, entropies).0,
      Draws(indices, remaining, entropies).1)
  {
    if |entropies| > 0 {
      var n := |entropies| - 1;
      DrawsConserve(indices, remaining, entropies[..n]);
      var (before, drawn) := Draws(indices, remaining, entropies[..n]);
      ConservedOnce(indices, remaining, before, drawn, entropies[n]);
    }
  }

  // ----- which item a draw hands out

  /** One draw, slot by slot: the picked slot gets what was in the last remaining one, which gets what was
      picked; every other slot keeps its item. */
  lemma DrawSlots(indices: seq<nat>, remaining: nat, entropy: nat, k: nat)
    requires 0 < remaining <= |indices| && k < |indices|
    ensures var (after, x) := Draw(indices, remaining, entropy);
      && |after| == |indices| && x == indices[entropy % remaining]
      && after[k] == if k == remaining - 1 then x
                     else if k == entropy % remaining then indices[remaining - 1]
                     else indices[k]
  {
  }

  /** What slot k holds after j draws, traced back through the picks: a picked slot holds what came from
      the slot that was the last remaining one then. */
  ghost function TracedBack(indices: seq<nat>, remaining: nat, entropies: seq<nat>, k: nat, j: nat): nat
    requires j <= |entropies| && |entropies| <= remaining <= |indices| && k < remaining
    decreases j
  {
    if j == 0 then indices[k]
    else if k == entropies[j - 1] % (remaining - (j - 1))
    then TracedBack(indices, remaining, entropies, remaining - j, j - 1)
    else TracedBack(indices, remaining, entropies, k, j - 1)
  }

  /** The items that a run of draws hands out, and those that remain, by that trace. */
  lemma {:induction false} DrawsBySlot(indices: seq<nat>, remaining: nat, entropies: seq<nat>, n: nat)
    requires n <= |entropies| <= remaining <= |indices|
    ensures var (after, drawn) := Draws(indices, remaining, entropies[..n]);
      && (forall j :: 0 <= j < n ==>
            drawn[j] == TracedBack(indices, remaining, entropies, entropies[j] % (remaining - j), j))
      && (forall k :: 0 <= k < remaining - n ==> after[k] == TracedBack(indices, remaining, entropies, k, n))
  {
    if n > 0 {
      hide Draw;
      DrawsBySlot(indices, remaining, entropies, n - 1);
      assert entropies[..n][..n - 1] == entropies[..n - 1];
      DrawsUnfold(indices, remaining, entropies[..n]);
      var (before, drawn) := Draws(indices, remaining, entropies[..n - 1]);
      hide Draws;
      var r := remaining - (n - 1);
      DrawSlots(before, r, entropies[n - 1], 0);
      forall k | 0 <= k < remaining - n
        ensures Draw(before, r, entropies[n - 1]).0[k] == TracedBack(indices, remaining, entropies, k, n)
      {
        DrawSlots(before, r, entropies[n - 1], k);
      }
    }
  }

  /** A slot that no earlier draw has picked still holds its own item. */
  lemma {:induction false} UnpickedSlot(indices: seq<nat>, remaining: nat, entropies: seq<nat>, k: nat, j: nat)
    requires j <= |entropies| <= remaining <= |indices| && k < remaining
    requires forall i :: 0 <= i < j ==> entropies[i] % (remaining - i) != k
    ensures TracedBack(indices, remaining, entropies, k, j) == indices[k]
  {
    if j > 0 {
      UnpickedSlot(indices, remaining, entropies, k, j - 1);
    }
  }

  // ----- conservation means no item twice

  lemma {:induction false} DistinctByCount(s: seq<nat>)
    ensures Distinct(s) <==> forall x :: multiset(s)[x] <= 1
  {
    if |s| > 0 {
      var n := |s| - 1;
      DistinctByCount(s[..n]);
      assert s == s[..n] + [s[n]];
      assert multiset(s) == multiset(s[..n]) + multiset{s[n]};
      if Distinct(s) {
        forall x
          ensures multiset(s)[x] <= 1
        {
          if x == s[n] {
            assert s[n] !in s[..n];
          }
        }
      }
      if forall x :: multiset(s)[x] <= 1 {
        forall x
          ensures multiset(s[..n])[x] <= 1
        {
          assert multiset(s)[x] <= 1;
        }
        assert multiset(s)[s[n]] <= 1;
        assert s[n] !in s[..n];
        forall j, k | 0 <= j < k < |s|
          ensures s[j] != s[k]
        {
          assert s[..n][j] == s[j];
        }
      }
    }
  }

  /** Sold and unsold items are together the numbers below their count. */
  ghost predicate Balanced(dispensed: seq<nat>, unsold: seq<nat>) {
    multiset(dispensed) + multiset(unsold) == multiset(Identity(|dispensed| + |unsold|))
  }

  /** So no item was sold twice, and once nothing is left exactly those items have been sold. */
  lemma BalancedSales(dispensed: seq<nat>, unsold: seq<nat>)
    requires Balanced(dispensed, unsold)
    ensures Distinct(dispensed) && Distinct(unsold)
    ensures forall x :: x in dispensed ==> x < |dispensed| + |unsold| && x !in unsold
    ensures unsold == [] ==> forall x: nat :: x in dispensed <==> x < |dispensed|
  {
    var n := |dispensed| + |unsold|;
    DistinctByCount(dispensed);
    DistinctByCount(unsold);
    forall x: nat
      ensures multiset(dispensed)[x] + multiset(unsold)[x] == if x < n then 1 else 0
    {
      IdentityCount(n, x);
      assert (multiset(dispensed) + multiset(unsold))[x] == multiset(Identity(n))[x];
    }
    forall x | x in dispensed
      ensures x < n && x !in unsold
    {
      assert multiset(dispensed)[x] > 0;
      assert multiset(unsold)[x] == 0;
    }
    if unsold == [] {
      forall x: nat | x < n
        ensures x in dispensed
      {
        assert multiset(dispensed)[x] + multiset(unsold)[x] == 1;
      }
    }
  }

  lemma IdentityCount(n: nat, x: nat)
    ensures multiset(Identity(n))[x] == if x < n then 1 else 0
  {
    DistinctByCount(Identity(n));
    if x < n {
      assert Identity(n)[x] == x;
    }
  }

  lemma DrawsKeepBalance(dispensed: seq<nat>, indices: seq<nat>, remaining: nat, entropies: seq<nat>)
    requires |entropies| <= remaining <= |indices|
    requires Balanced(dispensed, indices[..remaining])
    ensures var (after, drawn) := Draws(indices, remaining, entropies);
      Balanced(dispensed + drawn, after[..remaining - |entropies|])
  {
    DrawsConserve(indices, remaining, entropies);
    var (after, drawn) := Draws(indices, remaining, entropies);
    hide Draws, Balanced;
    SalesKeepBalance(dispensed, indices[..remaining], drawn, after[..remaining - |drawn|]);
  }

  lemma SalesKeepBalance(dispensed: seq<nat>, unsold: seq<nat>, drawn: seq<nat>, rest: seq<nat>)
    requires Balanced(dispensed, unsold) && multiset(drawn) + multiset(rest) == multiset(unsold)
    requires |drawn| + |rest| == |unsold|
    ensures Balanced(dispensed + drawn, rest)
  {
    assert |dispensed + drawn| + |rest| == |dispensed| + |unsold|;
    hide Identity;
    assert multiset(dispensed + drawn) + multiset(rest) == multiset(dispensed) + (multiset(drawn) + multiset(rest));
  }

  // ----- selling again after a restart

  /** The sold items lie behind the remaining ones, the last sold first. */
  ghost predicate SoldBehind(indices: seq<nat>, remaining: nat, dispensed: seq<nat>) {
    && remaining + |dispensed| <= |indices|
    && forall j :: 0 <= j < |dispensed| ==> dispensed[j] == indices[remaining + |dispensed| - 1 - j]
  }

  /** After some sales, `remaining` is set to `raised`: the next draw repeats a sold item exactly when it
      picks one of the slots where the sold items are. */
  lemma RaisedRepeatsExactly(indices: seq<nat>, remaining: nat, dispensed: seq<nat>, raised: nat, entropy: nat)
    requires Distinct(indices) && SoldBehind(indices, remaining, dispensed) && 0 < raised <= |indices|
    ensures Draw(indices, raised, entropy).1 in dispensed <==> remaining <= entropy % raised < remaining + |dispensed|
  {
    var selected, start := entropy % raised, remaining + |dispensed|;
    if remaining <= selected < start {
      assert dispensed[start - 1 - selected] == indices[selected];
    }
    if indices[selected] in dispensed {
      var j :| 0 <= j < |dispensed| && dispensed[j] == indices[selected];
      assert indices[start - 1 - j] == indices[selected];
    }
  }

  /** So no draw can repeat an item if and only if nothing had been sold or `remaining` was not raised. */
  lemma RaisedIsSafeExactly(indices: seq<nat>, remaining: nat, dispensed: seq<nat>, raised: nat)
    requires Distinct(indices) && SoldBehind(indices, remaining, dispensed) && remaining <= raised <= |indices|
    ensures NextIsNew(indices, raised, dispensed) <==> dispensed == [] || raised == remaining
  {
    hide Distinct, SoldBehind, Draw;
    if raised > 0 {
      forall entropy: nat
        ensures Draw(indices, raised, entropy).1 in dispensed
             <==> remaining <= entropy % raised < remaining + |dispensed|
      {
        RaisedRepeatsExactly(indices, remaining, dispensed, raised, entropy);
      }
      if dispensed != [] && raised > remaining {
        SmallMod(remaining, raised);
        assert Draw(indices, raised, remaining).1 in dispensed;
      }
    }
  }

  /** Whatever the entropy, the next item has not been sold yet. */
  ghost predicate NextIsNew(indices: seq<nat>, remaining: nat, dispensed: seq<nat>)
    requires remaining <= |indices|
  {
    remaining > 0 ==> forall entropy: nat :: Draw(indices, remaining, entropy).1 !in dispensed
  }

  lemma SmallMod(x: nat, m: nat)
    requires x < m
    ensures x % m == x
  {
  }

  /** Draws leave the sold items behind the remaining ones. */
  lemma DrawsLieBehind(dispensed: seq<nat>, indices: seq<nat>, remaining: nat, entropies: seq<nat>)
    requires |entropies| <= remaining <= |indices| && SoldBehind(indices, remaining, dispensed) && Distinct(indices)
    ensures var (after, drawn) := Draws(indices, remaining, entropies);
      SoldBehind(after, remaining - |entropies|, dispensed + drawn) && Distinct(after)
  {
    var (after, drawn) := Draws(indices, remaining, entropies);
    DrawsConserve(indices, remaining, entropies);
    DrawsKeepDistinct(indices, remaining, entropies);
    hide Draws, Distinct;
    LiesBehind(dispensed, indices, remaining, after, drawn);
  }

  lemma LiesBehind(dispensed: seq<nat>, indices: seq<nat>, remaining: nat, after: seq<nat>, drawn: seq<nat>)
    requires |drawn| <= remaining <= |indices| == |after| && SoldBehind(indices, remaining, dispensed)
    requires after[remaining..] == indices[remaining..]
    requires forall j :: 0 <= j < |drawn| ==> drawn[j] == after[remaining - 1 - j]
    ensures SoldBehind(after, remaining - |drawn|, dispensed + drawn)
  {
    var n := |dispensed|;
    forall j | 0 <= j < n + |drawn|
      ensures (dispensed + drawn)[j] == after[remaining + n - 1 - j]
    {
      if j < n {
        assert after[remaining..][n - 1 - j] == indices[remaining..][n - 1 - j];
      }
    }
  }

  lemma DrawsKeepDistinct(indices: seq<nat>, start: nat, entropies: seq<nat>)
    requires Distinct(indices) && |entropies| <= start <= |indices|
    ensures Distinct(Draws(indices, start, entropies).0)
  {
    var (after, drawn) := Draws(indices, start, entropies);
    DrawsPermute(indices, start, entropies);
    DistinctByCount(indices);
    DistinctByCount(after);
  }

  lemma {:induction false} DrawsPermute(indices: seq<nat>, start: nat, entropies: seq<nat>)
    requires |entropies| <= start <= |indices|
    ensures multiset(Draws(indices, start, entropies).0) == multiset(indices)
  {
    if |entropies| > 0 {
      var n := |entropies| - 1;
      DrawsPermute(indices, start, entropies[..n]);
      SwapIsPermutation(Draws(indices, start, entropies[..n]).0, entropies[n] % (start - n), start - n - 1);
    }
  }

  datatype Sale = Sold(items: seq<nat>) | Aborted

  class GumballMachine {
    const indices: array<nat>
    const maxItems: nat
    const maxMintSize: nat
    const goLiveDate: int
    /** Length of a config line; 0 if the item's number is all there is. */
    const extensionLen: nat
    var remaining: nat
    var totalItemsAdded: nat
    var smallestUninitializedIndex: nat
    /** Everything sold so far. */
    ghost var dispensed: seq<nat>

    ghost predicate Valid()
      reads this, indices
    {
      && indices.Length == maxItems < TWO_32
      && smallestUninitializedIndex <= maxItems && remaining <= maxItems
      && (dispensed == [] ==> forall k :: 0 <= k < smallestUninitializedIndex ==> indices[k] == k)
      && (extensionLen == 0 ==> totalItemsAdded == 0)
      && (extensionLen > 0 ==> remaining + |dispensed| == totalItemsAdded)
      && totalItemsAdded <= maxItems
      && (smallestUninitializedIndex < maxItems ==> dispensed == [])
    }

    /** The sales are in order: see `BalancedSales`. */
    ghost predicate InOrder()
      reads this, indices
    {
      && Valid() && Balanced(dispensed, indices[..remaining])
      && Distinct(indices[..]) && SoldBehind(indices[..], remaining, dispensed)
    }

    constructor (maxItems: nat, maxMintSize: nat, goLiveDate: int, extensionLen: nat)
      requires maxItems < TWO_32
      ensures Valid() && fresh(indices) && dispensed == []
      ensures remaining == totalItemsAdded == smallestUninitializedIndex == 0
      ensures this.maxItems == maxItems && this.extensionLen == extensionLen && this.goLiveDate == goLiveDate
      ensures this.maxMintSize == if maxMintSize < 1 then (if maxItems < 1 then maxItems else 1)
                                  else if maxMintSize < maxItems then maxMintSize else maxItems
    {
      this.maxItems, this.goLiveDate, this.extensionLen := maxItems, goLiveDate, extensionLen;
      this.maxMintSize := Min(Max(maxMintSize, 1), maxItems);
      indices := new nat[maxItems](_ => 0);
      remaining, totalItemsAdded, smallestUninitializedIndex := 0, 0, 0;
      dispensed := [];
    }

    /** Numbers the next slots. Without config lines everything is put up for sale each time, also after
        sales, and from then on an item can be sold twice unless nothing had been sold or everything was
        still for sale. With an overflow of the 32-bit sum the call panics. */
    method InitializeIndicesChunk() returns (panicked: bool)
      requires Valid()
      modifies indices, this`smallestUninitializedIndex, this`remaining
      ensures Valid()
      ensures panicked <==> old(smallestUninitializedIndex) + MAX_NUM_INDICES_TO_INIT_FOR_CHUNK >= TWO_32
      ensures panicked ==>
        && indices[..] == old(indices[..]) && remaining == old(remaining)
        && smallestUninitializedIndex == old(smallestUninitializedIndex)
      ensures !panicked ==>
        && smallestUninitializedIndex
             == Min(old(smallestUninitializedIndex) + MAX_NUM_INDICES_TO_INIT_FOR_CHUNK, maxItems)
        && remaining == (if extensionLen == 0 then maxItems else old(remaining))
        && (old(smallestUninitializedIndex) == maxItems ==> indices[..] == old(indices[..]))
      ensures old(InOrder()) ==>
        (NextIsNew(indices[..], remaining, dispensed) <==> dispensed == [] || remaining == old(remaining))
    {
      hide NextIsNew, Distinct, SoldBehind, Balanced;
      if old(InOrder()) {
        RaisedIsSafeExactly(indices[..], remaining, dispensed, remaining);
        RaisedIsSafeExactly(indices[..], remaining, dispensed, maxItems);
      }
      if smallestUninitializedIndex + MAX_NUM_INDICES_TO_INIT_FOR_CHUNK >= TWO_32 {
        return true;
      }
      var first := smallestUninitializedIndex;
      var next := Min(smallestUninitializedIndex + MAX_NUM_INDICES_TO_INIT_FOR_CHUNK, maxItems);
      for i := first to next
        invariant forall k :: 0 <= k < first ==> indices[k] == old(indices[k])
        invariant forall k :: first <= k < i ==> indices[k] == k
        invariant first == next ==> indices[..] == old(indices[..])
        invariant remaining == old(remaining)
      {
        indices[i] := i;
      }
      smallestUninitializedIndex := next;
      if extensionLen == 0 {
        remaining := maxItems;
      }
      panicked := false;
      NothingToRepeat(indices[..], remaining);
    }

    /** Puts the items of new config lines up for sale; the lines themselves are not modelled. After sales
        the slots put up for sale again are those of sold items. */
    method AddConfigLines(length: nat) returns (panicked: bool)
      requires Valid()
      modifies this`totalItemsAdded, this`remaining
      ensures Valid()
      ensures panicked <==>
        extensionLen == 0 || length % extensionLen != 0 || old(totalItemsAdded) + length / extensionLen > maxItems
      ensures panicked ==> remaining == old(remaining) && totalItemsAdded == old(totalItemsAdded)
      ensures !panicked ==>
        && remaining == old(remaining) + length / extensionLen
        && totalItemsAdded == old(totalItemsAdded) + length / extensionLen
      ensures old(InOrder()) ==>
        (NextIsNew(indices[..], remaining, dispensed) <==> dispensed == [] || remaining == old(remaining))
    {
      hide NextIsNew, Distinct, SoldBehind, Balanced;
      if old(InOrder()) {
        RaisedIsSafeExactly(indices[..], remaining, dispensed, remaining);
      }
      if extensionLen == 0 || length % extensionLen != 0 {
        return true;
      }
      var lines := length / extensionLen;
      if totalItemsAdded + lines > maxItems {
        return true;
      }
      if old(InOrder()) {
        RaisedIsSafeExactly(indices[..], remaining, dispensed, remaining + lines);
      }
      totalItemsAdded := totalItemsAdded + lines;
      remaining := remaining + lines;
      panicked := false;
    }

    /** Once all slots are numbered and nothing has been sold, the sales are in order. */
    lemma SalesBeginInOrder()
      requires Valid() && dispensed == [] && smallestUninitializedIndex == maxItems
      ensures InOrder()
    {
      assert indices[..remaining] == Identity(remaining);
      assert indices[..] == Identity(maxItems);
    }

    /** One swap: the drawn item ends just past the remaining ones. */
    method ShuffleAndFetch(entropy: nat) returns (item: nat)
      requires Valid() && remaining > 0 && smallestUninitializedIndex == maxItems
      modifies indices, this`remaining, this`dispensed
      ensures Valid()
      ensures (indices[..], item) == Draw(old(indices[..]), old(remaining), entropy)
      ensures item == old(indices[entropy % remaining])
      ensures forall k :: 0 <= k < indices.Length ==>
        indices[k] == if k == remaining then item
                      else if k == entropy % old(remaining) then old(indices[remaining - 1])
                      else old(indices[k])
      ensures remaining == old(remaining) - 1 && dispensed == old(dispensed) + [item]
    {
      var selected := entropy % remaining;
      remaining := remaining - 1;
      indices[selected], indices[remaining] := indices[remaining], indices[selected];
      item := indices[remaining];
      dispensed := dispensed + [item];
      assert indices[..] == Swapped(old(indices[..]), selected, remaining);
    }

    /** Sells up to numItems items, at least one. The entropy of a draw is a hash of the recent blocks and
        of `remaining`. A failed mint undoes the whole sale. */
    method FindAndMint(numItems: nat, now: int, entropy: nat -> nat, mintsSucceed: bool) returns (sale: Sale)
      requires Valid()
      modifies indices, this`remaining, this`dispensed
      ensures Valid()
      ensures sale.Aborted? <==>
        smallestUninitializedIndex != maxItems || numItems > maxMintSize || now <= goLiveDate || old(remaining) == 0
          || !mintsSucceed
      ensures sale.Aborted? ==>
        indices[..] == old(indices[..]) && remaining == old(remaining) && dispensed == old(dispensed)
      ensures sale.Sold? ==>
        && |sale.items| == Min(Max(numItems, 1), old(remaining)) && remaining == old(remaining) - |sale.items|
        && (indices[..], sale.items)
             == Draws(old(indices[..]), old(remaining), Entropies(entropy, old(remaining), |sale.items|))
        && dispensed == old(dispensed) + sale.items
      ensures sale.Sold? ==> forall j :: 0 <= j < |sale.items| ==>
        ItemDrawn(old(indices[..]), old(remaining), entropy, j, sale.items[j])
      ensures old(InOrder()) ==> InOrder()
    {
      hide Draws, Draw, Balanced, Entropies, SoldBehind, Distinct;
      if smallestUninitializedIndex != maxItems || numItems > maxMintSize || now <= goLiveDate {
        return Aborted;
      }
      var count := Min(Max(numItems, 1), remaining);
      if count == 0 || !mintsSucceed {
        return Aborted;
      }
      ghost var was, r := indices[..], remaining;
      NoDrawYet(was, r, entropy);
      var items: seq<nat> := [];
      for i := 0 to count
        invariant Valid() && remaining == r - i && |items| == i
        invariant (indices[..], items) == Draws(was, r, Entropies(entropy, r, i))
        invariant dispensed == old(dispensed) + items
      {
        DrawOneMore(was, r, entropy, i);
        var item := ShuffleAndFetch(entropy(remaining));
        items := items + [item];
      }
      if old(InOrder()) {
        DrawsKeepBalance(old(dispensed), was, r, Entropies(entropy, r, count));
        DrawsLieBehind(old(dispensed), was, r, Entropies(entropy, r, count));
      }
      SaleBySlot(was, r, entropy, count);
      sale := Sold(items);
    }
  }

  /** The slot that draw j of a sale picks among those remaining then. */
  function Picked(remaining: nat, entropy: nat -> nat, j: nat): nat
    requires j < remaining
  {
    entropy(remaining - j) % (remaining - j)
  }

  /** The j-th item of a sale: what was in the slot it picks when the sale began, if no earlier draw of the
      sale has picked that slot, and otherwise what the trace of the picks leads to. */
  ghost predicate ItemDrawn(indices: seq<nat>, remaining: nat, entropy: nat -> nat, j: nat, item: nat)
    requires j < remaining <= |indices|
  {
    var slot := Picked(remaining, entropy, j);
    && ((forall i :: 0 <= i < j ==> Picked(remaining, entropy, i) != slot) ==> item == indices[slot])
    && item == TracedBack(indices, remaining, Entropies(entropy, remaining, j), slot, j)
  }

  lemma SaleBySlot(indices: seq<nat>, remaining: nat, entropy: nat -> nat, n: nat)
    requires n <= remaining <= |indices|
    ensures var items := Draws(indices, remaining, Entropies(entropy, remaining, n)).1;
      forall j :: 0 <= j < n ==> ItemDrawn(indices, remaining, entropy, j, items[j])
  {
    hide Draws, TracedBack, ItemDrawn;
    var es := Entropies(entropy, remaining, n);
    assert es[..n] == es;
    DrawsBySlot(indices, remaining, es, n);
    forall j | 0 <= j < n
      ensures ItemDrawn(indices, remaining, entropy, j, Draws(indices, remaining, es).1[j])
    {
      ItemBySlot(indices, remaining, entropy, n, j);
    }
  }

  lemma ItemBySlot(indices: seq<nat>, remaining: nat, entropy: nat -> nat, n: nat, j: nat)
    requires j < n <= remaining <= |indices|
    ensures var es := Entropies(entropy, remaining, n);
      ItemDrawn(indices, remaining, entropy, j, TracedBack(indices, remaining, es, es[j] % (remaining - j), j))
  {
    hide TracedBack;
    var es, prefix := Entropies(entropy, remaining, n), Entropies(entropy, remaining, j);
    var slot := Picked(remaining, entropy, j);
    assert slot == es[j] % (remaining - j);
    TraceOfPrefix(indices, remaining, es, prefix, slot, j);
    if forall i :: 0 <= i < j ==> Picked(remaining, entropy, i) != slot {
      forall i | 0 <= i < j
        ensures prefix[i] % (remaining - i) != slot
      {
        assert Picked(remaining, entropy, i) != slot;
      }
      UnpickedSlot(indices, remaining, prefix, slot, j);
    }
  }

  /** The trace of the first j draws depends on those draws only. */
  lemma {:induction false} TraceOfPrefix(indices: seq<nat>, remaining: nat, entropies: seq<nat>, prefix: seq<nat>,
                                         k: nat, j: nat)
    requires j <= |prefix| && j <= |entropies| <= remaining <= |indices| && |prefix| <= remaining && k < remaining
    requires forall i :: 0 <= i < j ==> prefix[i] == entropies[i]
    ensures TracedBack(indices, remaining, entropies, k, j) == TracedBack(indices, remaining, prefix, k, j)
    decreases j
  {
    if j > 0 {
      TraceOfPrefix(indices, remaining, entropies, prefix,
        if k == entropies[j - 1] % (remaining - (j - 1)) then remaining - j else k, j - 1);
    }
  }

  function Min(a: nat, b: nat): (m: nat)
    ensures m <= a && m <= b && (m == a || m == b)
  {
    if a < b then a else b
  }

  function Max(a: nat, b: nat): (m: nat)
    ensures m >= a && m >= b && (m == a || m == b)
  {
    if a < b then b else a
  }

  /** The entropies of n draws in a row. */
  function Entropies(entropy: nat -> nat, remaining: nat, n: nat): (es: seq<nat>)
    requires n <= remaining
    ensures |es| == n
  {
    seq(n, i requires 0 <= i < n => entropy(remaining - i))
  }

  lemma NoDrawYet(indices: seq<nat>, remaining: nat, entropy: nat -> nat)
    requires remaining <= |indices|
    ensures Draws(indices, remaining, Entropies(entropy, remaining, 0)) == (indices, [])
  {
  }

  lemma DrawOneMore(indices: seq<nat>, remaining: nat, entropy: nat -> nat, n: nat)
    requires n < remaining <= |indices|
    ensures var (before, drawn) := Draws(indices, remaining, Entropies(entropy, remaining, n));
            var (after, x) := Draw(before, remaining - n, entropy(remaining - n));
      Draws(indices, remaining, Entropies(entropy, remaining, n + 1)) == (after, drawn + [x])
  {
    hide Draw;
    var es := Entropies(entropy, remaining, n + 1);
    assert es[..n] == Entropies(entropy, remaining, n) && es[n] == entropy(remaining - n);
    DrawsUnfold(indices, remaining, es);
    hide Draws;
  }

  lemma DrawsUnfold(indices: seq<nat>, remaining: nat, entropies: seq<nat>)
    requires 0 < |entropies| <= remaining <= |indices|
    ensures var n := |entropies| - 1;
            var (before, drawn) := Draws(indices, remaining, entropies[..n]);
            var (after, x) := Draw(before, remaining - n, entropies[n]);
      Draws(indices, remaining, entropies) == (after, drawn + [x])
  {
    hide Draw;
  }

  datatype Request = Request(numItems: nat, now: int, entropy: nat -> nat, mintsSucceed: bool)

  /** Over any run of sales no item is sold twice, and once nothing remains every item put up for sale has
      been sold. */
  method Sell(machine: GumballMachine, requests: seq<Request>)
    requires machine.InOrder()
    modifies machine`remaining, machine`dispensed, machine.indices
    ensures machine.InOrder() && Distinct(machine.dispensed)
    ensures |machine.dispensed| + machine.remaining == old(|machine.dispensed| + machine.remaining)
    ensures machine.totalItemsAdded == old(machine.totalItemsAdded)
    ensures forall x :: x in machine.dispensed ==> x < |machine.dispensed| + machine.remaining
    ensures machine.remaining == 0 ==> forall x: nat :: x in machine.dispensed <==> x < |machine.dispensed|
  {
    for i := 0 to |requests|
      invariant machine.InOrder()
      invariant |machine.dispensed| + machine.remaining == old(|machine.dispensed| + machine.remaining)
    {
      hide Balanced, Draws, Entropies;
      var request := requests[i];
      var _ := machine.FindAndMint(request.numItems, request.now, request.entropy, request.mintsSucceed);
    }
    BalancedSales(machine.dispensed, machine.indices[..machine.remaining]);
  }

  /** A new machine, set up line by line, if it has lines, and chunk by chunk, and then any run of sales. */
  method SetUpAndSell(maxItems: nat, maxMintSize: nat, goLiveDate: int, extensionLen: nat, lines: seq<nat>,
                      requests: seq<Request>)
    returns (machine: GumballMachine, ghost total: nat)
    requires maxItems + MAX_NUM_INDICES_TO_INIT_FOR_CHUNK < TWO_32
    ensures fresh(machine) && total == (if extensionLen == 0 then maxItems else machine.totalItemsAdded)
    ensures |machine.dispensed| + machine.remaining == total && Distinct(machine.dispensed)
    ensures forall x :: x in machine.dispensed ==> x < total
    ensures machine.remaining == 0 ==> forall x: nat :: x in machine.dispensed <==> x < total
  {
    machine := new GumballMachine(maxItems, maxMintSize, goLiveDate, extensionLen);
    for i := 0 to |lines|
      invariant machine.Valid() && machine.dispensed == [] && fresh(machine) && fresh(machine.indices)
      invariant machine.maxItems == maxItems && machine.extensionLen == extensionLen
    {
      var _ := machine.AddConfigLines(lines[i]);
    }
    var panicked := machine.InitializeIndicesChunk();
    while machine.smallestUninitializedIndex < maxItems
      invariant machine.Valid() && machine.dispensed == [] && fresh(machine) && fresh(machine.indices)
      invariant machine.maxItems == maxItems && machine.extensionLen == extensionLen
      invariant extensionLen == 0 ==> machine.remaining == maxItems
      decreases maxItems - machine.smallestUninitializedIndex
    {
      panicked := machine.InitializeIndicesChunk();
    }
    machine.SalesBeginInOrder();
    total := machine.remaining;
    Sell(machine, requests);
  }

  lemma NothingToRepeat(indices: seq<nat>, remaining: nat)
    requires remaining <= |indices|
    ensures NextIsNew(indices, remaining, [])
  {
  }

  lemma OneDraw(indices: seq<nat>, remaining: nat, entropy: nat -> nat)
    requires 0 < remaining <= |indices|
    ensures var (after, x) := Draw(indices, remaining, entropy(remaining));
      Draws(indices, remaining, Entropies(entropy, remaining, 1)) == (after, [x])
  {
    hide Draws, Draw, Entropies;
    NoDrawYet(indices, remaining, entropy);
    DrawOneMore(indices, remaining, entropy, 0);
    var x := Draw(indices, remaining, entropy(remaining)).1;
    assert [] + [x] == [x];
  }

  /** Two items, one sold, set up once more: the same item is sold again. */
  method SellTwice() returns (machine: GumballMachine)
    ensures machine.maxItems == 2 && machine.dispensed == [1, 1]
  {
    hide Draws, Entropies, Balanced, SoldBehind, Distinct, NextIsNew;
    var entropy: nat -> nat := remaining => 1;
    OneDraw([0, 1], 2, entropy);
    machine := new GumballMachine(2, 1, 0, 0);
    var panicked := machine.InitializeIndicesChunk();
    assert machine.indices[..] == [0, 1];
    var sale := machine.FindAndMint(1, 1, entropy, true);
    assert machine.indices[..] == [0, 1];
    panicked := machine.InitializeIndicesChunk();
    sale := machine.FindAndMint(1, 1, entropy, true);
  }
}
