/** What one broadcast send does to the balances and to the anchors of the store. */
module SendProperties {
  import opened Prelude
  import opened Listings
  import opened Replacement
  import opened AssetStore
  import opened WalletSend

  /** No row is anchored at the outpoint: the anchor transaction is new. */
  ghost predicate FreshOutpoint(rows: Rows, op: OutPoint) {
    forall k :: k in rows ==> k.outpoint != op
  }

  /**
   * The condition under which a send loses nothing: no two passives share asset id and script key, and none
   * already holds the freshly derived change key for the asset being sent.
   */
  ghost predicate NoDestinationClash(id: AssetId, change: nat, passives: seq<OwnedAsset>, at: ChangeOutput) {
    && PairsDistinct(passives)
    && (change > 0 ==> (id, at.scriptKey) !in Pairs(passives))
  }

  function Pairs(s: seq<OwnedAsset>): set<(AssetId, ScriptKey)> {
    set p | p in s :: (p.assetId, p.scriptKey)
  }

  /** No two of the assets share asset id and script key. */
  ghost predicate PairsDistinct(s: seq<OwnedAsset>) {
    s == [] ||
    (PairsDistinct(s[..|s| - 1]) && (s[|s| - 1].assetId, s[|s| - 1].scriptKey) !in Pairs(s[..|s| - 1]))
  }

  /** What a send marks spent is exactly what is unspent at the anchors it consumes, each row once. */
  lemma SpentRows(rows: Rows, id: AssetId, amount: nat, selected: seq<OwnedAsset>, passives: seq<OwnedAsset>)
    requires Consumes(rows, id, amount, selected, passives)
    ensures Distinct(selected + passives)
    ensures forall a :: a in selected + passives ==> KeyOf(a) in rows && rows[KeyOf(a)] == a && !a.spent
    ensures KeySet(selected + passives)
         == set k | k in rows && !rows[k].spent && k.outpoint in Anchors(selected)
  {
    forall i | 0 <= i < |selected|
      ensures selected[i] in UnspentOf(rows, id) && selected[i].anchor in Anchors(selected)
    {
      assert selected[i] in Elements(selected);
    }
    forall p | p in passives
      ensures p in PassivesAt(rows, Anchors(selected), selected)
    {
      assert p in Elements(passives);
    }
    DistinctConcat(selected, passives);
    forall k | k in rows && !rows[k].spent && k.outpoint in Anchors(selected)
      ensures k in KeySet(selected + passives)
    {
      if rows[k] !in selected {
        assert rows[k] in Elements(passives);
      }
      assert rows[k] in selected + passives;
    }
  }

  /** The coins consumed and the rows created balance out, whatever goes into the change. */
  lemma CreatedTotals(rows: Rows, id: AssetId, change: nat, selected: seq<OwnedAsset>, passives: seq<OwnedAsset>,
                      at: ChangeOutput, g: Genesis, x: AssetId)
    requires Consumes(rows, id, 0, selected, passives)
    ensures Total(selected + passives, AmountFor(x)) - (if x == id then Total(selected, AmountOf) - change else 0)
         == Total(Created(id, change, passives, at, g), AmountFor(x))
  {
    var w := AmountFor(x);
    var head := if change > 0 then [ChangeRow(id, change, at, g)] else [];
    var moved := ReAnchoredAll(passives, at);
    TotalConcat(selected, passives, w);
    TotalConcat(head, moved, w);
    TotalPointwise(passives, w, moved, w);
    assert forall i :: 0 <= i < |selected| ==> selected[i].assetId == id by {
      assert forall i :: 0 <= i < |selected| ==> selected[i] in Elements(selected);
    }
    if x == id {
      TotalPointwise(selected, w, selected, AmountOf);
    } else {
      TotalZero(selected, w);
    }
    if change > 0 {
      TotalSnoc([], head[0], w);
      assert [] + [head[0]] == head;
    }
  }

  /** The created rows are unspent and sit at the change outpoint. */
  lemma CreatedRows(id: AssetId, change: nat, passives: seq<OwnedAsset>, at: ChangeOutput, g: Genesis)
    requires AllReAnchorable(passives)
    ensures forall a :: a in Created(id, change, passives, at, g) ==> !a.spent && a.anchor == at.outpoint
  {
    var moved := ReAnchoredAll(passives, at);
    forall a | a in moved
      ensures !a.spent && a.anchor == at.outpoint
    {
      var i :| 0 <= i < |moved| && moved[i] == a;
    }
  }

  /** They are worth something when the passives are. */
  lemma CreatedWorth(id: AssetId, change: nat, passives: seq<OwnedAsset>, at: ChangeOutput, g: Genesis)
    requires AllReAnchorable(passives) && forall p :: p in passives ==> 0 < p.amount
    ensures forall a :: a in Created(id, change, passives, at, g) ==> 0 < a.amount
  {
    var moved := ReAnchoredAll(passives, at);
    forall a | a in moved
      ensures 0 < a.amount
    {
      var i :| 0 <= i < |moved| && moved[i] == a;
      assert passives[i] in passives;
    }
  }

  lemma {:induction false} DistinctKeysCons(c: OwnedAsset, s: seq<OwnedAsset>)
    ensures DistinctKeys([c] + s) <==> DistinctKeys(s) && KeyOf(c) !in KeySet(s)
    decreases |s|
  {
    var r := [c] + s;
    if s == [] {
      assert r == [c] && r[..0] == [];
    } else {
      var n := |s| - 1;
      assert r[..|r| - 1] == [c] + s[..n];
      KeySetSnoc(s);
      assert KeySet([c] + s[..n]) == {KeyOf(c)} + KeySet(s[..n]) by {
        assert forall a :: a in [c] + s[..n] <==> a == c || a in s[..n];
      }
      DistinctKeysCons(c, s[..n]);
    }
  }

  /** The identities the passives get at the change outpoint. */
  lemma MovedKeySet(passives: seq<OwnedAsset>, at: ChangeOutput, id: AssetId, key: ScriptKey)
    requires AllReAnchorable(passives)
    ensures AssetKey(at.outpoint, id, key) in KeySet(ReAnchoredAll(passives, at)) <==> (id, key) in Pairs(passives)
  {
    var moved := ReAnchoredAll(passives, at);
    forall i | 0 <= i < |passives|
      ensures moved[i] in moved && passives[i] in passives
      ensures KeyOf(moved[i]) == AssetKey(at.outpoint, passives[i].assetId, passives[i].scriptKey)
    {
    }
  }

  lemma {:induction false} MovedDistinctIff(passives: seq<OwnedAsset>, at: ChangeOutput)
    requires AllReAnchorable(passives)
    ensures DistinctKeys(ReAnchoredAll(passives, at)) <==> PairsDistinct(passives)
    decreases |passives|
  {
    if passives != [] {
      var n := |passives| - 1;
      var front := passives[..n];
      assert ReAnchoredAll(passives, at)[..n] == ReAnchoredAll(front, at);
      MovedKeySet(front, at, passives[n].assetId, passives[n].scriptKey);
      MovedDistinctIff(front, at);
    }
  }

  /** The created rows have distinct identities exactly when the destinations do not clash. */
  lemma CreatedDistinctIff(id: AssetId, change: nat, passives: seq<OwnedAsset>, at: ChangeOutput, g: Genesis)
    requires AllReAnchorable(passives)
    ensures DistinctKeys(Created(id, change, passives, at, g)) <==> NoDestinationClash(id, change, passives, at)
  {
    var moved := ReAnchoredAll(passives, at);
    MovedDistinctIff(passives, at);
    MovedKeySet(passives, at, id, at.scriptKey);
    if change > 0 {
      DistinctKeysCons(ChangeRow(id, change, at, g), moved);
    } else {
      assert Created(id, change, passives, at, g) == moved;
    }
  }

  /** The rows a send creates and, in the same transaction, overwrites again. */
  function Overwritten(id: AssetId, change: nat, passives: seq<OwnedAsset>, at: ChangeOutput, g: Genesis)
    : seq<OwnedAsset>
    requires AllReAnchorable(passives)
  {
    Replaced(Created(id, change, passives, at, g), KeyOf)
  }

  /**
   * What a send does to every balance, exactly and for any change: the sent asset falls by what does not come back as
   * change, and besides each asset falls by the created rows of it that were overwritten.
   */
  lemma SendBalance(rows: Rows, id: AssetId, change: nat, selected: seq<OwnedAsset>, passives: seq<OwnedAsset>,
                    at: ChangeOutput, g: Genesis, x: AssetId)
    requires Consumes(rows, id, 0, selected, passives) && FreshOutpoint(rows, at.outpoint)
    ensures Balance(MovedRows(rows, id, change, selected, passives, at, g), x)
         == Balance(rows, x) - (if x == id then Total(selected, AmountOf) - change else 0)
            - Total(Overwritten(id, change, passives, at, g), AmountFor(x))
  {
    var s := Created(id, change, passives, at, g);
    SpentRows(rows, id, 0, selected, passives);
    SpendAllBalance(rows, selected + passives, x);
    CreatedTotals(rows, id, change, selected, passives, at, g, x);
    CreatedRows(id, change, passives, at, g);
    CreatedAreFresh(rows, selected + passives, s, at.outpoint);
    InsertAllBalance(SpendAll(rows, selected + passives), s, x);
  }

  /** Nothing is lost of any asset exactly when what was overwritten was worth nothing. */
  lemma NothingOfWorthIff(lost: seq<OwnedAsset>)
    ensures (forall x :: Total(lost, AmountFor(x)) == 0) <==> forall a :: a in lost ==> a.amount == 0
  {
    if forall x :: Total(lost, AmountFor(x)) == 0 {
      forall a | a in lost
        ensures a.amount == 0
      {
        TotalAtLeast(lost, AmountFor(a.assetId), a);
      }
    } else {
      var x :| Total(lost, AmountFor(x)) != 0;
      if forall a :: a in lost ==> a.amount == 0 {
        TotalZero(lost, AmountFor(x));
      }
    }
  }

  /**
   * Conservation, exactly: a send lowers the balance of the asset it sends by the amount sent and leaves every
   * other balance alone if and only if every row it overwrites was worth nothing.
   */
  lemma SendConservesIff(rows: Rows, id: AssetId, amount: nat, selected: seq<OwnedAsset>,
                         passives: seq<OwnedAsset>, at: ChangeOutput, g: Genesis)
    requires Consumes(rows, id, amount, selected, passives) && FreshOutpoint(rows, at.outpoint)
    ensures (forall x :: Balance(SendRows(rows, id, amount, selected, passives, at, g), x)
                      == Balance(rows, x) - (if x == id then amount else 0))
       <==> forall a :: a in Overwritten(id, Total(selected, AmountOf) - amount, passives, at, g) ==> a.amount == 0
  {
    var lost := Overwritten(id, Total(selected, AmountOf) - amount, passives, at, g);
    forall x
      ensures Balance(SendRows(rows, id, amount, selected, passives, at, g), x)
           == Balance(rows, x) - (if x == id then amount else 0) - Total(lost, AmountFor(x))
    {
      SentBalance(rows, id, amount, selected, passives, at, g, x);
    }
    NothingOfWorthIff(lost);
  }

  lemma SentBalance(rows: Rows, id: AssetId, amount: nat, selected: seq<OwnedAsset>, passives: seq<OwnedAsset>,
                    at: ChangeOutput, g: Genesis, x: AssetId)
    requires Consumes(rows, id, amount, selected, passives) && FreshOutpoint(rows, at.outpoint)
    ensures Balance(SendRows(rows, id, amount, selected, passives, at, g), x)
         == Balance(rows, x) - (if x == id then amount else 0)
            - Total(Overwritten(id, Total(selected, AmountOf) - amount, passives, at, g), AmountFor(x))
  {
    var change := Total(selected, AmountOf) - amount;
    ConsumesAny(rows, id, amount, selected, passives);
    assert SendRows(rows, id, amount, selected, passives, at, g)
        == MovedRows(rows, id, change, selected, passives, at, g);
    SendBalance(rows, id, change, selected, passives, at, g, x);
  }

  lemma ConsumesAny(rows: Rows, id: AssetId, amount: nat, selected: seq<OwnedAsset>, passives: seq<OwnedAsset>)
    requires Consumes(rows, id, amount, selected, passives)
    ensures Consumes(rows, id, 0, selected, passives)
  {
  }

  /** Nothing is overwritten exactly when the destinations do not clash. */
  lemma OverwritesIff(id: AssetId, change: nat, passives: seq<OwnedAsset>, at: ChangeOutput, g: Genesis)
    requires AllReAnchorable(passives)
    ensures Overwritten(id, change, passives, at, g) == [] <==> NoDestinationClash(id, change, passives, at)
  {
    CreatedDistinctIff(id, change, passives, at, g);
    NoneReplacedIff(Created(id, change, passives, at, g));
  }

  /** So without a clash every send conserves. */
  lemma SendConserves(rows: Rows, id: AssetId, amount: nat, selected: seq<OwnedAsset>,
                      passives: seq<OwnedAsset>, at: ChangeOutput, g: Genesis)
    requires Consumes(rows, id, amount, selected, passives) && FreshOutpoint(rows, at.outpoint)
    requires NoDestinationClash(id, Total(selected, AmountOf) - amount, passives, at)
    ensures forall x :: Balance(SendRows(rows, id, amount, selected, passives, at, g), x)
                     == Balance(rows, x) - (if x == id then amount else 0)
  {
    SendConservesIff(rows, id, amount, selected, passives, at, g);
    OverwritesIff(id, Total(selected, AmountOf) - amount, passives, at, g);
  }

  /** And with a clash among passives that are worth something it does not. */
  lemma ClashingSendLoses(rows: Rows, id: AssetId, amount: nat, selected: seq<OwnedAsset>,
                          passives: seq<OwnedAsset>, at: ChangeOutput, g: Genesis)
    requires Consumes(rows, id, amount, selected, passives) && FreshOutpoint(rows, at.outpoint)
    requires forall p :: p in passives ==> 0 < p.amount
    requires !NoDestinationClash(id, Total(selected, AmountOf) - amount, passives, at)
    ensures exists x :: Balance(SendRows(rows, id, amount, selected, passives, at, g), x)
                     != Balance(rows, x) - (if x == id then amount else 0)
  {
    SendConservesIff(rows, id, amount, selected, passives, at, g);
    var a := LostRow(id, Total(selected, AmountOf) - amount, passives, at, g);
  }

  /** A clash overwrites a row that is worth something, if all passives are. */
  lemma LostRow(id: AssetId, change: nat, passives: seq<OwnedAsset>, at: ChangeOutput, g: Genesis)
    returns (a: OwnedAsset)
    requires AllReAnchorable(passives) && forall p :: p in passives ==> 0 < p.amount
    requires !NoDestinationClash(id, change, passives, at)
    ensures a in Overwritten(id, change, passives, at, g) && a.amount > 0
  {
    var lost := Overwritten(id, change, passives, at, g);
    OverwritesIff(id, change, passives, at, g);
    CreatedWorth(id, change, passives, at, g);
    ReplacedIff(Created(id, change, passives, at, g), KeyOf);
    a := lost[0];
    assert a in lost;
  }

  lemma CreatedAreFresh(rows: Rows, inputs: seq<OwnedAsset>, s: seq<OwnedAsset>, op: OutPoint)
    requires FreshOutpoint(rows, op) && forall a :: a in s ==> a.anchor == op
    ensures SpendAll(rows, inputs).Keys !! KeySet(s)
  {
    SpendAllEffect(rows, inputs);
  }

  /**
   * Two coins of asset 1 at two outpoints, each with a payment of asset 2 beside it: the first payment under script
   * key 7, the second under `key`.
   */
  lemma Holdings(key: nat) returns (rows: Rows, selected: seq<OwnedAsset>, passives: seq<OwnedAsset>)
    ensures Consumes(rows, AssetId(1), 7, selected, passives) && Total(selected, AmountOf) == 10
    ensures FreshOutpoint(rows, OutPoint(3, 0))
    ensures |passives| == 2 && forall p :: p in passives ==> p.amount == 5 && p.assetId == AssetId(2)
    ensures PairsDistinct(passives) <==> key != 7
  {
    var op1, op2 := OutPoint(1, 0), OutPoint(2, 0);
    var coin := (id: nat, op: OutPoint, k: nat) =>
      OwnedAsset(AssetId(id), 5, op, ScriptKey(k), false, 1, Some(KeyDescriptor(212, 0, 0)), None,
                 Some(op), Some("t"), Some(0), Some(0), Some(Normal));
    var a1, a2, b1, b2 := coin(1, op1, 1), coin(1, op2, 2), coin(2, op1, 7), coin(2, op2, key);
    rows := map[KeyOf(a1) := a1, KeyOf(a2) := a2, KeyOf(b1) := b1, KeyOf(b2) := b2];
    selected, passives := [a1, a2], [b1, b2];
    assert Total(selected, AmountOf) == 10 by {
      assert selected == ([] + [a1]) + [a2];
      TotalSnoc([], a1, AmountOf);
      TotalSnoc([] + [a1], a2, AmountOf);
    }
    assert Anchors(selected) == {op1, op2} by {
      assert selected[0].anchor == op1 && selected[1].anchor == op2;
    }
    assert Elements(selected) == {a1, a2} <= UnspentOf(rows, AssetId(1)) by {
      assert rows[KeyOf(a1)] == a1 && rows[KeyOf(a2)] == a2;
    }
    assert PassivesAt(rows, {op1, op2}, selected) == {b1, b2} by {
      assert rows[KeyOf(b1)] == b1 && rows[KeyOf(b2)] == b2;
    }
    TwoPairs(b1, b2);
  }

  lemma TwoPairs(a: OwnedAsset, b: OwnedAsset)
    ensures PairsDistinct([a, b]) <==> (a.assetId, a.scriptKey) != (b.assetId, b.scriptKey)
  {
    assert [a, b][..1] == [a] && [a][..0] == [];
    assert Pairs([a]) == {(a.assetId, a.scriptKey)} by {
      assert a in [a];
    }
    assert PairsDistinct([a][..0]) && Pairs([a][..0]) == {};
    assert PairsDistinct([a]);
  }

  const CHANGE_AT := ChangeOutput(
    OutPoint(3, 0), ScriptKey(9), KeyDescriptor(212, 0, 0), KeyDescriptor(212, 0, 0))

  const SOME_GENESIS := Genesis(OutPoint(1, 0), "t", 0, 0, Normal)

  /** The clash happens: with both payments under one script key the send changes a balance it should not. */
  lemma ClashWitness() returns (rows: Rows, selected: seq<OwnedAsset>, passives: seq<OwnedAsset>)
    ensures Consumes(rows, AssetId(1), 7, selected, passives)
    ensures FreshOutpoint(rows, CHANGE_AT.outpoint)
    ensures exists x :: Balance(SendRows(rows, AssetId(1), 7, selected, passives, CHANGE_AT, SOME_GENESIS), x)
                     != Balance(rows, x) - (if x == AssetId(1) then 7 else 0)
  {
    rows, selected, passives := Holdings(7);
    ClashingSendLoses(rows, AssetId(1), 7, selected, passives, CHANGE_AT, SOME_GENESIS);
  }

  /**
   * After a send, whatever its change and whether or not destinations clash, nothing unspent is left at an anchor it
   * consumed, rows anchored elsewhere are untouched, and every new row is unspent at the change outpoint.
   */
  lemma SendLeavesNoOrphans(rows: Rows, id: AssetId, change: nat, selected: seq<OwnedAsset>,
                            passives: seq<OwnedAsset>, at: ChangeOutput, g: Genesis)
    requires Consumes(rows, id, 0, selected, passives)
    requires FreshOutpoint(rows, at.outpoint)
    ensures var after := MovedRows(rows, id, change, selected, passives, at, g);
      && WellKeyed(after)
      && (forall k :: k in after && k.outpoint in Anchors(selected) ==> after[k].spent)
      && (forall k :: k in rows && k.outpoint !in Anchors(selected) ==> k in after && after[k] == rows[k])
      && (forall k :: k in after && k !in rows ==> k.outpoint == at.outpoint && !after[k].spent)
  {
    SpentEffect(rows, id, 0, selected, passives);
    CreatedRows(id, change, passives, at, g);
    CompositeEffect(rows, SpendAll(rows, selected + passives), Anchors(selected),
                    Created(id, change, passives, at, g), at.outpoint);
  }

  /**
   * Every unspent sibling of a spent input reappears at the change outpoint, unspent, with the same asset id,
   * script key, amount, key descriptor and genesis.
   */
  lemma SendReAnchors(rows: Rows, id: AssetId, amount: nat, selected: seq<OwnedAsset>,
                      passives: seq<OwnedAsset>, at: ChangeOutput, g: Genesis, p: OwnedAsset)
    requires Consumes(rows, id, amount, selected, passives)
    requires NoDestinationClash(id, Total(selected, AmountOf) - amount, passives, at)
    requires p in rows.Values && !p.spent && p.anchor in Anchors(selected) && p !in selected
    ensures var k := AssetKey(at.outpoint, p.assetId, p.scriptKey);
      var after := SendRows(rows, id, amount, selected, passives, at, g);
      && k in after && !after[k].spent && after[k].assetId == p.assetId && after[k].scriptKey == p.scriptKey
      && after[k].amount == p.amount && after[k].scriptKeyDesc == p.scriptKeyDesc
      && GenesisFromOwned(after[k]) == GenesisFromOwned(p)
  {
    SiblingIsPassive(rows, id, amount, selected, passives, p);
    PassiveReappears(SpendAll(rows, selected + passives), id, Total(selected, AmountOf) - amount, passives, at, g, p);
  }

  lemma SpentEffect(rows: Rows, id: AssetId, amount: nat, selected: seq<OwnedAsset>, passives: seq<OwnedAsset>)
    requires Consumes(rows, id, amount, selected, passives)
    ensures var spent := SpendAll(rows, selected + passives);
      && spent.Keys == rows.Keys
      && forall k :: k in rows ==>
           spent[k] == if k.outpoint in Anchors(selected) then rows[k].(spent := true) else rows[k]
    ensures forall op :: op in Anchors(selected) ==> exists k :: k in rows && k.outpoint == op
  {
    SpentRows(rows, id, amount, selected, passives);
    SpendAllEffect(rows, selected + passives);
    forall op | op in Anchors(selected)
      ensures exists k :: k in rows && k.outpoint == op
    {
      var i :| 0 <= i < |selected| && selected[i].anchor == op;
      assert selected[i] in selected + passives;
      assert KeyOf(selected[i]).outpoint == op;
    }
  }

  /** The store after spending everything at `ops` and inserting unspent rows at the fresh outpoint `op`. */
  lemma CompositeEffect(rows: Rows, spent: Rows, ops: set<OutPoint>, s: seq<OwnedAsset>, op: OutPoint)
    requires WellKeyed(rows) && spent.Keys == rows.Keys
    requires forall k :: k in rows ==> spent[k] == if k.outpoint in ops then rows[k].(spent := true) else rows[k]
    requires forall o :: o in ops ==> exists k :: k in rows && k.outpoint == o
    requires FreshOutpoint(rows, op) && forall a :: a in s ==> !a.spent && a.anchor == op
    ensures var after := InsertAll(spent, s);
      && WellKeyed(after)
      && (forall k :: k in after && k.outpoint in ops ==> after[k].spent)
      && (forall k :: k in rows && k.outpoint !in ops ==> k in after && after[k] == rows[k])
      && (forall k :: k in after && k !in rows ==> k.outpoint == op && !after[k].spent)
  {
    InsertAllEffect(spent, s);
    assert forall k :: k in KeySet(s) ==> k.outpoint == op && k !in rows && op !in ops;
  }

  lemma SiblingIsPassive(rows: Rows, id: AssetId, amount: nat, selected: seq<OwnedAsset>,
                         passives: seq<OwnedAsset>, p: OwnedAsset)
    requires Consumes(rows, id, amount, selected, passives)
    requires p in rows.Values && !p.spent && p.anchor in Anchors(selected) && p !in selected
    ensures p in passives
  {
    var key :| key in rows && rows[key] == p;
    assert p in PassivesAt(rows, Anchors(selected), selected);
    assert p in Elements(passives);
  }

  lemma PassiveReappears(spent: Rows, id: AssetId, change: nat, passives: seq<OwnedAsset>,
                         at: ChangeOutput, g: Genesis, p: OwnedAsset)
    requires AllReAnchorable(passives) && p in passives
    requires NoDestinationClash(id, change, passives, at)
    ensures GenesisFromOwned(p).Some?
    ensures var k := AssetKey(at.outpoint, p.assetId, p.scriptKey);
      var after := InsertAll(spent, Created(id, change, passives, at, g));
      k in after && after[k] == ReAnchored(p, at)
  {
    var s := Created(id, change, passives, at, g);
    CreatedDistinctIff(id, change, passives, at, g);
    var i :| 0 <= i < |passives| && passives[i] == p;
    assert ReAnchoredAll(passives, at)[i] in s;
    InsertAllKeeps(spent, s, ReAnchored(p, at));
  }
}
