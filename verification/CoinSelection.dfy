/** Largest-first coin selection over the unspent coins of one asset. */
module CoinSelection {
  import opened Prelude
  import opened Sums
  import opened Listings
  import opened AssetStore

  datatype SelectError = AssetNotFound(id: AssetId)

  ghost predicate SortedDescending(s: seq<OwnedAsset>) {
    forall i, j :: 0 <= i < j < |s| ==> s[j].amount <= s[i].amount
  }

  /**
   * `sel` is what the selection loop leaves: a non-empty prefix of the coins in descending order, cut at the
   * first coin where the running 64-bit total reaches the target, or all coins when it never does.
   */
  ghost predicate SelectedFrom(all: seq<OwnedAsset>, target: nat, sel: seq<OwnedAsset>) {
    && 1 <= |sel| <= |all|
    && sel == all[..|sel|]
    && (forall i :: 1 <= i < |sel| ==> RunningTotal(all, i) < target)
    && (target <= RunningTotal(all, |sel|) || sel == all)
  }

  /** The 64-bit total after `n` coins. */
  function RunningTotal(all: seq<OwnedAsset>, n: nat): nat
    requires n <= |all|
  {
    Wrap64(Total(all[..n], AmountOf))
  }

  ghost predicate IsSelection(coins: set<OwnedAsset>, target: nat, sel: seq<OwnedAsset>) {
    exists all :: Enumerates(all, coins) && SortedDescending(all) && SelectedFrom(all, target, sel)
  }

  method SortByAmount(s: seq<OwnedAsset>, ghost coins: set<OwnedAsset>) returns (r: seq<OwnedAsset>)
    requires Enumerates(s, coins)
    ensures Enumerates(r, coins) && SortedDescending(r)
  {
    r := [];
    ghost var done: set<OwnedAsset> := {};
    for n := 0 to |s|
      invariant Enumerates(r, done) && SortedDescending(r)
      invariant forall a :: a in done <==> a in s[..n]
    {
      var p := 0;
      while p < |r| && s[n].amount <= r[p].amount
        invariant p <= |r|
        invariant forall i :: 0 <= i < p ==> s[n].amount <= r[i].amount
      {
        p := p + 1;
      }
      EnumerateInsertAt(r, done, p, s[n]);
      r := r[..p] + [s[n]] + r[p..];
      done := done + {s[n]};
      assert s[..n + 1] == s[..n] + [s[n]];
    }
    assert s[..|s|] == s;
    assert done == coins;
  }

  method CoinSelect(store: MemoryAssetStore, id: AssetId, target: nat)
    returns (r: Result<seq<OwnedAsset>, SelectError>)
    ensures r.Err? <==> UnspentOf(store.rows, id) == {}
    ensures r.Err? ==> r.error == AssetNotFound(id)
    ensures r.Ok? ==> IsSelection(UnspentOf(store.rows, id), target, r.value)
  {
    ghost var coins := UnspentOf(store.rows, id);
    var unspent := store.GetUnspent(id);
    EnumerateEmpty(unspent, coins);
    if |unspent| == 0 {
      return Err(AssetNotFound(id));
    }
    var all := SortByAmount(unspent, coins);
    EnumerateEmpty(all, coins);
    var selected := TakeUntil(all, target);
    r := Ok(selected);
  }

  /** The selection loop proper. */
  method TakeUntil(all: seq<OwnedAsset>, target: nat) returns (selected: seq<OwnedAsset>)
    requires all != []
    ensures SelectedFrom(all, target, selected)
  {
    selected := [];
    var total := 0;
    for n := 0 to |all|
      invariant selected == all[..n]
      invariant total == RunningTotal(all, n)
      invariant forall i :: 1 <= i <= n ==> RunningTotal(all, i) < target
    {
      TotalSnoc(selected, all[n], AmountOf);
      WrapOnce(Total(selected, AmountOf), all[n].amount);
      selected := selected + [all[n]];
      total := Wrap64(total + all[n].amount);
      assert selected == all[..n + 1];
      if target <= total {
        break;
      }
    }
  }

  // ----- what the selection guarantees -----

  lemma NextLargest(all: seq<OwnedAsset>, m: nat)
    requires SortedDescending(all) && m < |all|
    ensures all[..|all| - 1][..m] == all[..m]
    ensures Total(all[..m], AmountOf) + all[|all| - 1].amount <= Total(all[..m + 1], AmountOf)
  {
    assert all[..m + 1] == all[..m] + [all[m]];
    TotalSnoc(all[..m], all[m], AmountOf);
  }

  /** Of all sets of `n` listed coins, the `n` largest have the greatest total. */
  lemma {:induction false} LargestCoinsDominate(all: seq<OwnedAsset>, coins: set<OwnedAsset>, some: set<OwnedAsset>)
    requires Enumerates(all, coins) && SortedDescending(all) && some <= coins
    ensures |some| <= |all|
    ensures Sum(some, AmountOf) <= Total(all[..|some|], AmountOf)
    decreases |all|
  {
    if all == [] {
      EnumerateEmpty(all, coins);
      assert some == {} && all[..0] == [];
    } else {
      var n := |all| - 1;
      var front, last := all[..n], all[n];
      EnumerateDropLast(all, coins);
      if last in some {
        var rest := some - {last};
        LargestCoinsDominate(front, coins - {last}, rest);
        SumSplit(some, AmountOf, last);
        assert |some| == |rest| + 1;
        NextLargest(all, |rest|);
      } else {
        LargestCoinsDominate(front, coins - {last}, some);
        assert front[..|some|] == all[..|some|];
      }
    }
  }

  /** A choice of coins that reaches the target. */
  ghost predicate Reaches(coins: set<OwnedAsset>, target: nat, some: set<OwnedAsset>) {
    some <= coins && target <= Sum(some, AmountOf)
  }

  /**
   * While the holdings fit in 64 bits, a selection that reaches the target uses the fewest coins any choice
   * could, and none of them is superfluous: dropping the last one falls short.
   */
  lemma SelectionIsOptimal(coins: set<OwnedAsset>, target: nat, sel: seq<OwnedAsset>)
    requires IsSelection(coins, target, sel)
    requires 0 < target <= Total(sel, AmountOf) && Sum(coins, AmountOf) < U64_LIMIT
    ensures Total(sel[..|sel| - 1], AmountOf) < target
    ensures forall other :: Reaches(coins, target, other) ==> |sel| <= |other|
  {
    var all :| Enumerates(all, coins) && SortedDescending(all) && SelectedFrom(all, target, sel);
    SelectedTotals(all, coins, target, sel);
    var n := |sel|;
    assert sel[..n - 1] == all[..n - 1];
    forall other | Reaches(coins, target, other)
      ensures n <= |other|
    {
      NoSmallerSelection(all, coins, target, n, other);
    }
  }

  /**
   * While the holdings fit in 64 bits, a selection that misses the target holds every unspent coin, so the
   * amount it reports as available is the whole balance.
   */
  lemma ShortfallReportsBalance(coins: set<OwnedAsset>, target: nat, sel: seq<OwnedAsset>)
    requires IsSelection(coins, target, sel)
    requires Total(sel, AmountOf) < target && Sum(coins, AmountOf) < U64_LIMIT
    ensures Enumerates(sel, coins) && Total(sel, AmountOf) == Sum(coins, AmountOf)
    ensures !Reaches(coins, target, coins)
  {
    var all :| Enumerates(all, coins) && SortedDescending(all) && SelectedFrom(all, target, sel);
    SelectedTotals(all, coins, target, sel);
    TotalOfListing(all, coins, AmountOf);
  }

  lemma SelectedTotals(all: seq<OwnedAsset>, coins: set<OwnedAsset>, target: nat, sel: seq<OwnedAsset>)
    requires Enumerates(all, coins) && SelectedFrom(all, target, sel)
    requires Sum(coins, AmountOf) < U64_LIMIT
    ensures 0 < target ==> Total(sel[..|sel| - 1], AmountOf) < target
    ensures target <= Total(sel, AmountOf) || sel == all
  {
    var n := |sel|;
    PrefixFits(all, coins, n);
    PrefixFits(all, coins, n - 1);
    assert sel[..n - 1] == all[..n - 1];
    if n == 1 {
      assert all[..0] == [];
    }
  }

  lemma NoSmallerSelection(
    all: seq<OwnedAsset>, coins: set<OwnedAsset>, target: nat, n: nat, other: set<OwnedAsset>)
    requires Enumerates(all, coins) && SortedDescending(all) && other <= coins
    requires 1 <= n <= |all|
    requires Total(all[..n - 1], AmountOf) < target <= Sum(other, AmountOf)
    ensures n <= |other|
  {
    LargestCoinsDominate(all, coins, other);
    if |other| < n {
      TotalPrefixMonotone(all, AmountOf, |other|, n - 1);
    }
  }

  /** No 64-bit running total of the selection wraps while the holdings fit. */
  lemma PrefixFits(all: seq<OwnedAsset>, coins: set<OwnedAsset>, n: nat)
    requires Enumerates(all, coins) && n <= |all| && Sum(coins, AmountOf) < U64_LIMIT
    ensures RunningTotal(all, n) == Total(all[..n], AmountOf)
  {
    TotalOfListing(all, coins, AmountOf);
    assert all[..|all|] == all && all[..0] == [];
    TotalPrefixMonotone(all, AmountOf, 0, n);
    TotalPrefixMonotone(all, AmountOf, n, |all|);
    WrapFits(Total(all[..n], AmountOf));
  }

  /** Every selected coin is listed once, and no coin larger than a selected one was passed over. */
  lemma SelectionIsLargest(coins: set<OwnedAsset>, target: nat, sel: seq<OwnedAsset>)
    requires IsSelection(coins, target, sel)
    ensures Enumerates(sel, Elements(sel)) && Elements(sel) <= coins
    ensures forall a, b :: a in sel && b in coins && b !in sel ==> b.amount <= a.amount
  {
    var all :| Enumerates(all, coins) && SortedDescending(all) && SelectedFrom(all, target, sel);
    EnumeratePrefix(all, coins, |sel|);
    forall a, b | a in sel && b in coins && b !in sel
      ensures b.amount <= a.amount
    {
      var i :| 0 <= i < |sel| && sel[i] == a;
      var j :| 0 <= j < |all| && all[j] == b;
      assert sel[i] == all[i] && |sel| <= j;
    }
  }
}
