/** The send as the node runs it, against the store object. */
module SendPipeline {
  import opened Prelude
  import opened Sums
  import opened Listings
  import opened Replacement
  import opened AssetStore
  import opened CoinSelection
  import opened WalletSend

  /** Every other unspent row at the outpoints of the selected inputs, each once. */
  method CollectPassives(store: MemoryAssetStore, selected: seq<OwnedAsset>) returns (passives: seq<OwnedAsset>)
    requires WellKeyed(store.rows)
    requires forall i :: 0 <= i < |selected| ==>
      KeyOf(selected[i]) in store.rows && store.rows[KeyOf(selected[i])] == selected[i]
    ensures Enumerates(passives, PassivesAt(store.rows, Anchors(selected), selected))
  {
    var selectedIds := set i | 0 <= i < |selected| :: KeyOf(selected[i]);
    var seen: set<OutPoint> := {};
    passives := [];
    for n := 0 to |selected|
      invariant seen == Anchors(selected[..n])
      invariant Enumerates(passives, PassivesAt(store.rows, seen, selected))
    {
      var op := selected[n].anchor;
      assert Anchors(selected[..n + 1]) == Anchors(selected[..n]) + {op} by {
        assert selected[..n + 1] == selected[..n] + [selected[n]];
        assert forall i :: 0 <= i < n ==> selected[..n + 1][i] == selected[..n][i];
        assert selected[..n + 1][n].anchor == op;
      }
      if op in seen {
        assert seen + {op} == seen;
      } else {
        var here := store.UnspentAtOutpoint(op);
        ghost var before := PassivesAt(store.rows, seen, selected);
        ghost var added: set<OwnedAsset> := {};
        for m := 0 to |here|
          invariant added == set a | a in here[..m] && a !in selected
          invariant Enumerates(passives, before + added)
        {
          var a := here[m];
          assert here[..m + 1] == here[..m] + [a];
          assert a in Elements(here);
          assert KeyOf(a) in selectedIds <==> a in selected;
          if KeyOf(a) !in selectedIds {
            assert a !in before + added;
            EnumerateSnoc(passives, before + added, a);
            assert before + added + {a} == before + (added + {a});
            passives := passives + [a];
            added := added + {a};
          }
        }
        assert here[..|here|] == here;
        assert added == set a | a in Elements(here) && a !in selected;
        assert before + added == PassivesAt(store.rows, seen + {op}, selected);
        seen := seen + {op};
      }
    }
    assert selected[..|selected|] == selected;
  }

  /** A passive can only be re-anchored when its key descriptor and its genesis are on record. */
  method CheckPassives(passives: seq<OwnedAsset>) returns (error: Option<SendError>)
    ensures error.None? <==> AllReAnchorable(passives)
    ensures error.Some? ==> error.value == PassiveNotSignable || error.value == GenesisMissing
  {
    for n := 0 to |passives|
      invariant AllReAnchorable(passives[..n])
    {
      if passives[n].scriptKeyDesc.None? {
        return Some(PassiveNotSignable);
      }
      if GenesisFromOwned(passives[n]).None? {
        return Some(GenesisMissing);
      }
    }
    error := None;
  }

  method MarkAllSpent(store: MemoryAssetStore, inputs: seq<OwnedAsset>)
    requires forall a :: a in inputs ==> KeyOf(a) in store.rows
    modifies store
    ensures store.rows == SpendAll(old(store.rows), inputs)
  {
    ghost var rows := store.rows;
    for n := 0 to |inputs|
      invariant store.rows == SpendAll(rows, inputs[..n])
    {
      assert inputs[..n + 1][..n] == inputs[..n];
      SpendAllEffect(rows, inputs[..n]);
      assert inputs[n] in inputs;
      var marked := store.MarkRowSpent(KeyOf(inputs[n]));
    }
    assert inputs[..|inputs|] == inputs;
  }

  method PersistPassives(store: MemoryAssetStore, passives: seq<OwnedAsset>, at: ChangeOutput)
    requires AllReAnchorable(passives)
    modifies store
    ensures store.rows == InsertAll(old(store.rows), ReAnchoredAll(passives, at))
  {
    ghost var rows, moved := store.rows, ReAnchoredAll(passives, at);
    for n := 0 to |passives|
      invariant store.rows == InsertAll(rows, moved[..n])
    {
      assert moved[..n + 1][..n] == moved[..n];
      store.InsertAsset(ReAnchored(passives[n], at));
    }
    assert moved[..|passives|] == moved;
  }

  /** Steps 6, 7 and 7b: mark everything consumed as spent, then persist the change and the passives. */
  method MoveRows(store: MemoryAssetStore, id: AssetId, change: nat, selected: seq<OwnedAsset>,
                  passives: seq<OwnedAsset>, at: ChangeOutput, g: Genesis)
    requires AllReAnchorable(passives)
    requires forall a :: a in selected + passives ==> KeyOf(a) in store.rows
    modifies store
    ensures store.rows == MovedRows(old(store.rows), id, change, selected, passives, at, g)
  {
    ghost var rows := store.rows;
    SpendAllConcat(rows, selected, passives);
    SpendAllEffect(rows, selected);
    MarkAllSpent(store, selected);
    MarkAllSpent(store, passives);
    ghost var spent := store.rows;
    ghost var head: seq<OwnedAsset> := [];
    if change > 0 {
      head := [ChangeRow(id, change, at, g)];
      assert head[..0] == [];
      store.InsertAsset(ChangeRow(id, change, at, g));
    }
    assert store.rows == InsertAll(spent, head);
    InsertAllConcat(spent, head, ReAnchoredAll(passives, at));
    PersistPassives(store, passives, at);
  }

  /**
   * What the wallet and the chain backend answer: no transaction went out, or one did, in which the outputs could then
   * be located or not.
   */
  datatype Backend = Refused | Unlocated | Located(at: ChangeOutput)

  /** Everything the node itself checks before it asks the backends. */
  ghost predicate Ready(id: AssetId, amount: nat, genesisId: Genesis -> AssetId,
                        selected: seq<OwnedAsset>, passives: seq<OwnedAsset>)
  {
    && selected != [] && amount <= Wrap64(Total(selected, AmountOf))
    && GenesisFromOwned(selected[0]).Some? && genesisId(GenesisFromOwned(selected[0]).value) == id
    && AllReAnchorable(passives)
  }

  /**
   * Sends `amount` of `id`. `genesisId` is the hash that turns a genesis into an asset id; `proofsBuilt` says whether
   * building the proofs and registering the anchor succeeded after the rows were moved.
   */
  method Send(store: MemoryAssetStore, id: AssetId, amount: nat, genesisId: Genesis -> AssetId,
              backend: Backend, proofsBuilt: bool)
    returns (r: Result<(), SendError>, selected: seq<OwnedAsset>, passives: seq<OwnedAsset>)
    requires WellKeyed(store.rows)
    modifies store
    // What it works on: a selection, and the other unspent rows at its outpoints.
    ensures UnspentOf(old(store.rows), id) != {} ==> IsSelection(UnspentOf(old(store.rows), id), amount, selected)
    ensures UnspentOf(old(store.rows), id) != {} && amount <= Wrap64(Total(selected, AmountOf)) ==>
      Enumerates(passives, PassivesAt(old(store.rows), Anchors(selected), selected))
    // It goes through exactly when the node's own checks pass and the backends answer; else the store is left alone.
    ensures (r.Ok? || r.error == AfterBroadcast) <==>
      UnspentOf(old(store.rows), id) != {} && backend.Located? && Ready(id, amount, genesisId, selected, passives)
    ensures r.Ok? <==> (r.Ok? || r.error == AfterBroadcast) && proofsBuilt
    ensures r.Err? && r.error != AfterBroadcast ==> store.rows == old(store.rows)
    ensures (r.Ok? || r.error == AfterBroadcast) ==>
      store.rows == MovedRows(old(store.rows), id, Wrap64(Total(selected, AmountOf)) - amount, selected, passives,
                              backend.at, GenesisFromOwned(selected[0]).value)
    ensures (r.Ok? || r.error == AfterBroadcast) ==> Consumes(old(store.rows), id, amount, selected, passives)
    // While the holdings fit in 64 bits the change is what the inputs leave over.
    ensures (r.Ok? || r.error == AfterBroadcast) && old(Balance(store.rows, id)) < U64_LIMIT ==>
      && amount <= Total(selected, AmountOf)
      && store.rows == SendRows(old(store.rows), id, amount, selected, passives,
                                backend.at, GenesisFromOwned(selected[0]).value)
    // A transaction that went out without its outputs being found leaves what it spends unspent here.
    ensures r == Err(OutputsMissing) ==> backend.Unlocated?
    ensures r == Err(NotBroadcast) ==> backend.Refused?
    ensures r == Err(UnknownAsset) <==> UnspentOf(old(store.rows), id) == {}
    ensures old(Balance(store.rows, id)) < U64_LIMIT ==>
      ((r.Err? && r.error.InsufficientBalance?) <==>
        (UnspentOf(old(store.rows), id) != {} && old(Balance(store.rows, id)) < amount))
    ensures old(Balance(store.rows, id)) < U64_LIMIT && r.Err? && r.error.InsufficientBalance? ==>
      r.error.available == old(Balance(store.rows, id)) && r.error.needed == amount
  {
    ghost var rows := store.rows;
    ghost var coins := UnspentOf(rows, id);
    passives := [];
    var picked := CoinSelect(store, id, amount);
    if picked.Err? {
      return Err(UnknownAsset), [], [];
    }
    selected := picked.value;
    SelectionRows(rows, id, amount, selected);
    SelectionBalance(rows, id, amount, selected);
    var total := SumAmounts(selected);
    if total < amount {
      return Err(InsufficientBalance(total, amount)), selected, [];
    }
    passives := CollectPassives(store, selected);
    var genesis := GenesisFromOwned(selected[0]);
    if genesis.None? {
      return Err(GenesisMissing), selected, passives;
    }
    if genesisId(genesis.value) != id {
      return Err(GenesisMismatch), selected, passives;
    }
    var refused := CheckPassives(passives);
    if refused.Some? {
      return Err(refused.value), selected, passives;
    }
    if !backend.Located? {
      return Err(if backend.Refused? then NotBroadcast else OutputsMissing), selected, passives;
    }
    PassiveRows(rows, selected, passives);
    WrappedIsBelow(selected);
    MoveRows(store, id, total - amount, selected, passives, backend.at, genesis.value);
    r := if proofsBuilt then Ok(()) else Err(AfterBroadcast);
  }

  /** The 64-bit sum of the selected amounts. */
  method SumAmounts(s: seq<OwnedAsset>) returns (total: nat)
    ensures total == Wrap64(Total(s, AmountOf))
  {
    total := 0;
    for n := 0 to |s|
      invariant total == Wrap64(Total(s[..n], AmountOf))
    {
      assert s[..n + 1] == s[..n] + [s[n]];
      TotalSnoc(s[..n], s[n], AmountOf);
      WrapOnce(Total(s[..n], AmountOf), s[n].amount);
      total := Wrap64(total + s[n].amount);
    }
    assert s[..|s|] == s;
  }

  /** A wrapped total never claims more than the coins hold. */
  lemma WrappedIsBelow(s: seq<OwnedAsset>)
    ensures Wrap64(Total(s, AmountOf)) <= Total(s, AmountOf)
  {
    TotalNonNegative(s, AmountOf);
    WrapBelow(Total(s, AmountOf));
  }

  /** Selected coins are real unspent rows. */
  lemma SelectionRows(rows: Rows, id: AssetId, target: nat, sel: seq<OwnedAsset>)
    requires WellKeyed(rows) && IsSelection(UnspentOf(rows, id), target, sel)
    ensures Enumerates(sel, Elements(sel)) && Elements(sel) <= UnspentOf(rows, id) && sel != []
    ensures forall i :: 0 <= i < |sel| ==> KeyOf(sel[i]) in rows && rows[KeyOf(sel[i])] == sel[i]
  {
    SelectionIsLargest(UnspentOf(rows, id), target, sel);
    forall i | 0 <= i < |sel|
      ensures KeyOf(sel[i]) in rows && rows[KeyOf(sel[i])] == sel[i]
    {
      assert sel[i] in Elements(sel);
    }
  }

  lemma PassiveRows(rows: Rows, selected: seq<OwnedAsset>, passives: seq<OwnedAsset>)
    requires WellKeyed(rows) && Enumerates(passives, PassivesAt(rows, Anchors(selected), selected))
    requires forall i :: 0 <= i < |selected| ==> KeyOf(selected[i]) in rows
    ensures forall a :: a in selected + passives ==> KeyOf(a) in rows
  {
    forall a | a in passives
      ensures KeyOf(a) in rows
    {
      assert a in Elements(passives);
    }
  }

  /** While the holdings fit, the 64-bit total is exact, and a shortfall is the whole balance. */
  lemma SelectionBalance(rows: Rows, id: AssetId, target: nat, sel: seq<OwnedAsset>)
    requires WellKeyed(rows) && IsSelection(UnspentOf(rows, id), target, sel)
    ensures Balance(rows, id) < U64_LIMIT ==>
      && Wrap64(Total(sel, AmountOf)) == Total(sel, AmountOf) <= Balance(rows, id)
      && (Total(sel, AmountOf) < target ==> Total(sel, AmountOf) == Balance(rows, id))
  {
    if Balance(rows, id) < U64_LIMIT {
      BalanceIsUnspentTotal(rows, id);
      SelectionTotal(UnspentOf(rows, id), target, sel);
      if Total(sel, AmountOf) < target {
        ShortfallReportsBalance(UnspentOf(rows, id), target, sel);
      }
    }
  }

  lemma SelectionTotal(coins: set<OwnedAsset>, target: nat, sel: seq<OwnedAsset>)
    requires IsSelection(coins, target, sel) && Sum(coins, AmountOf) < U64_LIMIT
    ensures Wrap64(Total(sel, AmountOf)) == Total(sel, AmountOf) <= Sum(coins, AmountOf)
  {
    var all :| Enumerates(all, coins) && SortedDescending(all) && SelectedFrom(all, target, sel);
    PrefixFits(all, coins, |sel|);
    TotalOfListing(all, coins, AmountOf);
    assert all[..|all|] == all;
    TotalPrefixMonotone(all, AmountOf, |sel|, |all|);
  }
}
