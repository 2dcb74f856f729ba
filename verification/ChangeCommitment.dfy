/**
 * The asset commitment of the change output. Each asset of the output is committed as a tree of its own and
 * upserted under its tap key (the asset id, or the group key of a grouped asset), so a later asset with the same
 * tap key replaces an earlier one.
 */
module ChangeCommitment {
  import opened Listings
  import opened Replacement
  import opened AssetStore
  import opened WalletSend
  import opened SendProperties

  type TapKey = nat
  type OutputCommitment = map<TapKey, OwnedAsset>

  /** The root asset first, then every passive in turn. */
  method RebuildCommitment(root: OwnedAsset, passives: seq<OwnedAsset>, tapKey: OwnedAsset -> TapKey)
    returns (c: OutputCommitment)
    ensures c == Keyed([root] + passives, tapKey)
  {
    ghost var assets := [root] + passives;
    c := map[tapKey(root) := root];
    assert assets[..1][..0] == [];
    for n := 0 to |passives|
      invariant c == Keyed(assets[..n + 1], tapKey)
    {
      assert assets[..n + 2][..n + 1] == assets[..n + 1];
      c := c[tapKey(passives[n]) := passives[n]];
    }
    assert assets[..|passives| + 1] == assets;
  }

  /** The assets the change output of a send is made of: its change or, in its place, a tombstone; then the passives. */
  function OutputAssets(id: AssetId, change: nat, passives: seq<OwnedAsset>, at: ChangeOutput, g: Genesis,
                        tombstone: OwnedAsset): seq<OwnedAsset>
    requires AllReAnchorable(passives)
  {
    [if change > 0 then ChangeRow(id, change, at, g) else tombstone] + ReAnchoredAll(passives, at)
  }

  ghost function CommitmentOf(id: AssetId, change: nat, passives: seq<OwnedAsset>, at: ChangeOutput, g: Genesis,
                              tombstone: OwnedAsset, tapKey: OwnedAsset -> TapKey): OutputCommitment
    requires AllReAnchorable(passives)
  {
    Keyed(OutputAssets(id, change, passives, at, g, tombstone), tapKey)
  }

  /** The row is the asset the output commits to under its tap key. */
  ghost predicate Committed(c: OutputCommitment, a: OwnedAsset, tapKey: OwnedAsset -> TapKey) {
    tapKey(a) in c && c[tapKey(a)] == a
  }

  /** The created rows the output does not commit to: a later asset of the output took their tap key. */
  function Uncommitted(id: AssetId, change: nat, passives: seq<OwnedAsset>, at: ChangeOutput, g: Genesis,
                       tapKey: OwnedAsset -> TapKey): seq<OwnedAsset>
    requires AllReAnchorable(passives)
  {
    Replaced(Created(id, change, passives, at, g), tapKey)
  }

  ghost predicate TapKeysDistinct(id: AssetId, change: nat, passives: seq<OwnedAsset>, at: ChangeOutput, g: Genesis,
                                  tapKey: OwnedAsset -> TapKey)
    requires AllReAnchorable(passives)
  {
    KeysDistinct(Created(id, change, passives, at, g), tapKey)
  }

  /** One more thing in front only shows where nothing else has its key. */
  lemma {:induction false} KeyedFront(c: OwnedAsset, s: seq<OwnedAsset>, tapKey: OwnedAsset -> TapKey, k: TapKey)
    ensures k in Keyed([c] + s, tapKey) <==> k == tapKey(c) || k in Keyed(s, tapKey)
    ensures k in Keyed(s, tapKey) ==> Keyed([c] + s, tapKey)[k] == Keyed(s, tapKey)[k]
    ensures k == tapKey(c) && k !in Keyed(s, tapKey) ==> Keyed([c] + s, tapKey)[k] == c
    decreases |s|
  {
    var r := [c] + s;
    if s == [] {
      assert r == [c] && r[..0] == [];
    } else {
      assert r[..|r| - 1] == [c] + s[..|s| - 1] && r[|r| - 1] == s[|s| - 1];
      KeyedFront(c, s[..|s| - 1], tapKey, k);
    }
  }

  /** If it weighs nothing, replacing it costs nothing. */
  lemma {:induction false} WeightlessFront(c: OwnedAsset, s: seq<OwnedAsset>, tapKey: OwnedAsset -> TapKey, x: AssetId)
    requires c.amount == 0
    ensures Total(Replaced([c] + s, tapKey), AmountFor(x)) == Total(Replaced(s, tapKey), AmountFor(x))
    decreases |s|
  {
    var r := [c] + s;
    if s == [] {
      assert r == [c] && r[..0] == [];
    } else {
      var front, last := s[..|s| - 1], s[|s| - 1];
      assert r[..|r| - 1] == [c] + front && r[|r| - 1] == last;
      WeightlessFront(c, front, tapKey, x);
      KeyedFront(c, front, tapKey, tapKey(last));
      ReplacedStep([c] + front, last, tapKey, x);
      ReplacedStep(front, last, tapKey, x);
      assert r == [c] + front + [last] && s == front + [last];
    }
  }

  lemma ReplacedStep(s: seq<OwnedAsset>, last: OwnedAsset, tapKey: OwnedAsset -> TapKey, x: AssetId)
    ensures var k := tapKey(last);
      Total(Replaced(s + [last], tapKey), AmountFor(x)) == Total(Replaced(s, tapKey), AmountFor(x))
        + (if k in Keyed(s, tapKey) then AmountFor(x)(Keyed(s, tapKey)[k]) else 0)
  {
    assert (s + [last])[..|s|] == s;
    if tapKey(last) in Keyed(s, tapKey) {
      TotalSnoc(Replaced(s, tapKey), Keyed(s, tapKey)[tapKey(last)], AmountFor(x));
    } else {
      assert Replaced(s + [last], tapKey) == Replaced(s, tapKey);
    }
  }

  /**
   * What the change output commits to of each asset, exactly: what the send created of it, less the created rows whose
   * tap key a later one took.
   */
  lemma CommittedValue(id: AssetId, change: nat, passives: seq<OwnedAsset>, at: ChangeOutput, g: Genesis,
                       tombstone: OwnedAsset, tapKey: OwnedAsset -> TapKey, x: AssetId)
    requires AllReAnchorable(passives) && tombstone.amount == 0
    ensures MapTotal(CommitmentOf(id, change, passives, at, g, tombstone, tapKey), AmountFor(x))
         == Total(Created(id, change, passives, at, g), AmountFor(x))
            - Total(Uncommitted(id, change, passives, at, g, tapKey), AmountFor(x))
  {
    var moved, created := ReAnchoredAll(passives, at), Created(id, change, passives, at, g);
    KeyedTotal(OutputAssets(id, change, passives, at, g, tombstone), tapKey, AmountFor(x));
    if change == 0 {
      assert created == moved;
      TotalConcat([tombstone], moved, AmountFor(x));
      TotalSnoc([], tombstone, AmountFor(x));
      assert [] + [tombstone] == [tombstone];
      WeightlessFront(tombstone, moved, tapKey, x);
    } else {
      assert created == OutputAssets(id, change, passives, at, g, tombstone);
    }
  }

  lemma SendCommits(rows: Rows, id: AssetId, amount: nat, selected: seq<OwnedAsset>, passives: seq<OwnedAsset>,
                    at: ChangeOutput, g: Genesis, tombstone: OwnedAsset, tapKey: OwnedAsset -> TapKey, x: AssetId)
    requires Consumes(rows, id, amount, selected, passives) && tombstone.amount == 0
    ensures var change := Total(selected, AmountOf) - amount;
      MapTotal(CommitmentOf(id, change, passives, at, g, tombstone, tapKey), AmountFor(x))
      == Total(selected + passives, AmountFor(x)) - (if x == id then amount else 0)
         - Total(Uncommitted(id, change, passives, at, g, tapKey), AmountFor(x))
  {
    var change := Total(selected, AmountOf) - amount;
    CommittedValue(id, change, passives, at, g, tombstone, tapKey, x);
    CreatedTotals(rows, id, change, selected, passives, at, g, x);
  }

  /**
   * The change output of a send commits to all the value the send consumed and did not send, of every asset, if and
   * only if every created row whose tap key a later one took was worth nothing.
   */
  lemma SendCommitsIff(rows: Rows, id: AssetId, amount: nat, selected: seq<OwnedAsset>, passives: seq<OwnedAsset>,
                       at: ChangeOutput, g: Genesis, tombstone: OwnedAsset, tapKey: OwnedAsset -> TapKey)
    requires Consumes(rows, id, amount, selected, passives) && tombstone.amount == 0
    ensures var change := Total(selected, AmountOf) - amount;
      (forall x :: MapTotal(CommitmentOf(id, change, passives, at, g, tombstone, tapKey), AmountFor(x))
                == Total(selected + passives, AmountFor(x)) - (if x == id then amount else 0))
      <==> forall a :: a in Uncommitted(id, change, passives, at, g, tapKey) ==> a.amount == 0
  {
    var change := Total(selected, AmountOf) - amount;
    var c := CommitmentOf(id, change, passives, at, g, tombstone, tapKey);
    var missed := Uncommitted(id, change, passives, at, g, tapKey);
    forall x
      ensures MapTotal(c, AmountFor(x)) == Total(selected + passives, AmountFor(x)) - (if x == id then amount else 0)
                                           - Total(missed, AmountFor(x))
    {
      SendCommits(rows, id, amount, selected, passives, at, g, tombstone, tapKey, x);
    }
    NothingOfWorthIff(missed);
  }

  /** The last of the created rows with a tap key is the one the output commits to. */
  lemma {:induction false} LastOfKeyStays(created: seq<OwnedAsset>, tapKey: OwnedAsset -> TapKey, i: nat)
    requires i < |created| && forall j :: i < j < |created| ==> tapKey(created[j]) != tapKey(created[i])
    ensures Committed(Keyed(created, tapKey), created[i], tapKey)
    decreases |created|
  {
    if i < |created| - 1 {
      LastOfKeyStays(created[..|created| - 1], tapKey, i);
    }
  }

  /** The output misses no created row exactly when they have tap keys of their own, and then it commits to each. */
  lemma AllCommittedIff(id: AssetId, change: nat, passives: seq<OwnedAsset>, at: ChangeOutput, g: Genesis,
                        tombstone: OwnedAsset, tapKey: OwnedAsset -> TapKey)
    requires AllReAnchorable(passives)
    ensures Uncommitted(id, change, passives, at, g, tapKey) == [] <==>
      TapKeysDistinct(id, change, passives, at, g, tapKey)
    ensures TapKeysDistinct(id, change, passives, at, g, tapKey) ==>
      forall a :: a in Created(id, change, passives, at, g) ==>
        Committed(CommitmentOf(id, change, passives, at, g, tombstone, tapKey), a, tapKey)
  {
    var created := Created(id, change, passives, at, g);
    ReplacedIff(created, tapKey);
    if TapKeysDistinct(id, change, passives, at, g, tapKey) {
      forall a | a in created
        ensures Committed(CommitmentOf(id, change, passives, at, g, tombstone, tapKey), a, tapKey)
      {
        var i :| 0 <= i < |created| && created[i] == a;
        LastOfKeyStays(created, tapKey, i);
        if change == 0 {
          assert created == ReAnchoredAll(passives, at);
          KeyedFront(tombstone, created, tapKey, tapKey(a));
        } else {
          assert created == OutputAssets(id, change, passives, at, g, tombstone);
        }
      }
    }
  }

  /** The tap key of an asset without a group. */
  function ByAssetId(a: OwnedAsset): TapKey {
    a.assetId.id
  }

  /**
   * The store and the output differ: two payments of one asset under different script keys both stay in the store, the
   * send conserves every stored balance, and yet the output commits to only one of them.
   */
  lemma StoredButNotCommitted() returns (rows: Rows, selected: seq<OwnedAsset>, passives: seq<OwnedAsset>)
    ensures Consumes(rows, AssetId(1), 7, selected, passives) && Total(selected, AmountOf) == 10
    ensures FreshOutpoint(rows, CHANGE_AT.outpoint)
    ensures forall x :: Balance(SendRows(rows, AssetId(1), 7, selected, passives, CHANGE_AT, SOME_GENESIS), x)
                     == Balance(rows, x) - (if x == AssetId(1) then 7 else 0)
    ensures forall tombstone: OwnedAsset :: tombstone.amount == 0 ==>
      MapTotal(CommitmentOf(AssetId(1), 3, passives, CHANGE_AT, SOME_GENESIS, tombstone, ByAssetId),
               AmountFor(AssetId(2))) == 5
    ensures Total(Created(AssetId(1), 3, passives, CHANGE_AT, SOME_GENESIS), AmountFor(AssetId(2))) == 10
  {
    rows, selected, passives := Holdings(8);
    var change := ChangeRow(AssetId(1), 3, CHANGE_AT, SOME_GENESIS);
    var moved := ReAnchoredAll(passives, CHANGE_AT);
    assert NoDestinationClash(AssetId(1), 3, passives, CHANGE_AT) by {
      forall p | p in passives
        ensures (p.assetId, p.scriptKey) != (AssetId(1), CHANGE_AT.scriptKey)
      {
      }
    }
    SendConserves(rows, AssetId(1), 7, selected, passives, CHANGE_AT, SOME_GENESIS);
    assert passives[0] in passives && passives[1] in passives;
    assert Created(AssetId(1), 3, passives, CHANGE_AT, SOME_GENESIS) == [change, moved[0], moved[1]];
    var w := AmountFor(AssetId(2));
    ThreeKeyed(change, moved[0], moved[1]);
    forall tombstone: OwnedAsset | tombstone.amount == 0
      ensures MapTotal(CommitmentOf(AssetId(1), 3, passives, CHANGE_AT, SOME_GENESIS, tombstone, ByAssetId), w) == 5
    {
      CommittedValue(AssetId(1), 3, passives, CHANGE_AT, SOME_GENESIS, tombstone, ByAssetId, AssetId(2));
    }
  }

  /** A row of asset 1 and two rows of asset 2, written under their asset ids. */
  lemma ThreeKeyed(a: OwnedAsset, b: OwnedAsset, c: OwnedAsset)
    requires a.assetId == AssetId(1) && b.assetId == c.assetId == AssetId(2) && b.amount == c.amount == 5
    ensures Replaced([a, b, c], ByAssetId) == [b]
    ensures Total([a, b, c], AmountFor(AssetId(2))) == 10 && Total([b], AmountFor(AssetId(2))) == 5
  {
    var w := AmountFor(AssetId(2));
    assert [a, b, c][..2] == [a, b] && [a, b][..1] == [a] && [a][..0] == [] && [b][..0] == [];
    assert Keyed([a], ByAssetId) == map[1 := a];
    assert Keyed([a, b], ByAssetId) == map[1 := a, 2 := b];
    assert Replaced([a], ByAssetId) == [] && Replaced([a, b], ByAssetId) == [];
    assert Total([a], w) == 0 && Total([a, b], w) == 5;
  }
}
