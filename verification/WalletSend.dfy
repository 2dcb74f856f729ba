/**
 * The asset send: coin selection, collection of the passive assets that share a consumed anchor, spent-marking,
 * change, and re-anchoring. One send is one step: the source holds `send_lock` for its whole duration.
 */
module WalletSend {
  import opened Prelude
  import opened Listings
  import opened Replacement
  import opened AssetStore

  datatype Genesis = Genesis(
    firstPrevOut: OutPoint, tag: string, metaHash: nat, outputIndex: nat, assetType: AssetType)

  datatype SendError =
    | UnknownAsset
    | InsufficientBalance(available: nat, needed: nat)
    | GenesisMissing
    | GenesisMismatch
    | PassiveNotSignable
    | NotBroadcast      // key derivation, signing, funding or publishing failed
    | OutputsMissing    // the transaction went out, but the outputs were not found in it
    | AfterBroadcast    // building the proofs or registering the anchor failed; the store is already updated

  /** The keys the wallet derived for the change output, and where it landed. */
  datatype ChangeOutput = ChangeOutput(
    outpoint: OutPoint, scriptKey: ScriptKey, scriptKeyDesc: KeyDescriptor, internalKey: KeyDescriptor)

  // ----- pure parts -----

  function GenesisFromOwned(a: OwnedAsset): Option<Genesis> {
    if a.genesisPoint.Some? && a.genesisTag.Some? && a.genesisMetaHash.Some?
       && a.genesisOutputIndex.Some? && a.genesisAssetType.Some?
    then Some(Genesis(a.genesisPoint.value, a.genesisTag.value, a.genesisMetaHash.value,
                      a.genesisOutputIndex.value, a.genesisAssetType.value))
    else None
  }

  function NewRow(id: AssetId, amount: nat, at: ChangeOutput, key: ScriptKey,
                  desc: Option<KeyDescriptor>, g: Genesis): OwnedAsset {
    OwnedAsset(id, amount, at.outpoint, key, false, 0, desc, Some(at.internalKey),
               Some(g.firstPrevOut), Some(g.tag), Some(g.metaHash), Some(g.outputIndex), Some(g.assetType))
  }

  function ChangeRow(id: AssetId, change: nat, at: ChangeOutput, g: Genesis): OwnedAsset {
    NewRow(id, change, at, at.scriptKey, Some(at.scriptKeyDesc), g)
  }

  /** A passive asset as it reappears in the change output: only its anchor and confirmation height change. */
  function ReAnchored(p: OwnedAsset, at: ChangeOutput): OwnedAsset
    requires GenesisFromOwned(p).Some?
  {
    NewRow(p.assetId, p.amount, at, p.scriptKey, p.scriptKeyDesc, GenesisFromOwned(p).value)
  }

  ghost predicate AllReAnchorable(passives: seq<OwnedAsset>) {
    forall i :: 0 <= i < |passives| ==> GenesisFromOwned(passives[i]).Some? && passives[i].scriptKeyDesc.Some?
  }

  function ReAnchoredAll(passives: seq<OwnedAsset>, at: ChangeOutput): (s: seq<OwnedAsset>)
    requires AllReAnchorable(passives)
    ensures |s| == |passives|
    ensures forall i :: 0 <= i < |s| ==> s[i] == ReAnchored(passives[i], at)
  {
    seq(|passives|, i requires 0 <= i < |passives| => ReAnchored(passives[i], at))
  }

  /** The rows a send creates: the change, unless it is a zero-value tombstone, then the passives. */
  function Created(id: AssetId, change: nat, passives: seq<OwnedAsset>, at: ChangeOutput, g: Genesis)
    : seq<OwnedAsset>
    requires AllReAnchorable(passives)
  {
    (if change > 0 then [ChangeRow(id, change, at, g)] else []) + ReAnchoredAll(passives, at)
  }

  function Anchors(s: seq<OwnedAsset>): set<OutPoint> {
    set i | 0 <= i < |s| :: s[i].anchor
  }

  /** Unspent rows at the given outpoints that were not selected. */
  function PassivesAt(rows: Rows, ops: set<OutPoint>, selected: seq<OwnedAsset>): set<OwnedAsset> {
    set k | k in rows && !rows[k].spent && rows[k].anchor in ops && rows[k] !in selected :: rows[k]
  }

  function Spend(rows: Rows, k: AssetKey): Rows {
    if k in rows then rows[k := rows[k].(spent := true)] else rows
  }

  function SpendAll(rows: Rows, s: seq<OwnedAsset>): Rows {
    if s == [] then rows else Spend(SpendAll(rows, s[..|s| - 1]), KeyOf(s[|s| - 1]))
  }

  function InsertAll(rows: Rows, s: seq<OwnedAsset>): Rows {
    if s == [] then rows else Insert(InsertAll(rows, s[..|s| - 1]), s[|s| - 1])
  }

  /** The store after spending the consumed rows and creating the change and the re-anchored passives. */
  function MovedRows(rows: Rows, id: AssetId, change: nat, selected: seq<OwnedAsset>, passives: seq<OwnedAsset>,
                     at: ChangeOutput, g: Genesis): Rows
    requires AllReAnchorable(passives)
  {
    InsertAll(SpendAll(rows, selected + passives), Created(id, change, passives, at, g))
  }

  /** The store after a broadcast send. */
  function SendRows(rows: Rows, id: AssetId, amount: nat, selected: seq<OwnedAsset>, passives: seq<OwnedAsset>,
                    at: ChangeOutput, g: Genesis): Rows
    requires AllReAnchorable(passives)
    requires amount <= Total(selected, AmountOf)
  {
    MovedRows(rows, id, Total(selected, AmountOf) - amount, selected, passives, at, g)
  }

  /** What a send may consume: unspent coins of the asset, and every other unspent row at their anchors. */
  ghost predicate Consumes(rows: Rows, id: AssetId, amount: nat, selected: seq<OwnedAsset>, passives: seq<OwnedAsset>)
  {
    && WellKeyed(rows)
    && selected != []
    && Enumerates(selected, Elements(selected)) && Elements(selected) <= UnspentOf(rows, id)
    && Enumerates(passives, PassivesAt(rows, Anchors(selected), selected))
    && AllReAnchorable(passives)
    && amount <= Total(selected, AmountOf)
  }

  // ----- folds over the store -----

  lemma {:induction false} SpendAllConcat(rows: Rows, s: seq<OwnedAsset>, t: seq<OwnedAsset>)
    ensures SpendAll(rows, s + t) == SpendAll(SpendAll(rows, s), t)
    decreases |t|
  {
    if t == [] {
      assert s + t == s;
    } else {
      SpendAllConcat(rows, s, t[..|t| - 1]);
      assert (s + t)[..|s + t| - 1] == s + t[..|t| - 1];
    }
  }

  lemma {:induction false} InsertAllConcat(rows: Rows, s: seq<OwnedAsset>, t: seq<OwnedAsset>)
    ensures InsertAll(rows, s + t) == InsertAll(InsertAll(rows, s), t)
    decreases |t|
  {
    if t == [] {
      assert s + t == s;
    } else {
      InsertAllConcat(rows, s, t[..|t| - 1]);
      assert (s + t)[..|s + t| - 1] == s + t[..|t| - 1];
    }
  }

  function KeySet(s: seq<OwnedAsset>): set<AssetKey> {
    set a | a in s :: KeyOf(a)
  }

  lemma KeySetSnoc(s: seq<OwnedAsset>)
    requires s != []
    ensures s == s[..|s| - 1] + [s[|s| - 1]]
    ensures KeySet(s) == KeySet(s[..|s| - 1]) + {KeyOf(s[|s| - 1])}
  {
    var front, last := s[..|s| - 1], s[|s| - 1];
    assert s == front + [last];
    assert forall a :: a in s <==> a in front || a == last;
  }

  /** Spending flips exactly the listed identities and touches nothing else. */
  lemma {:induction false} SpendAllEffect(rows: Rows, s: seq<OwnedAsset>)
    ensures SpendAll(rows, s).Keys == rows.Keys
    ensures forall k :: k in rows ==>
      SpendAll(rows, s)[k] == if k in KeySet(s) then rows[k].(spent := true) else rows[k]
    decreases |s|
  {
    if s != [] {
      KeySetSnoc(s);
      SpendAllEffect(rows, s[..|s| - 1]);
    }
  }

  lemma {:induction false} InsertAllEffect(rows: Rows, s: seq<OwnedAsset>)
    ensures InsertAll(rows, s).Keys == rows.Keys + KeySet(s)
    ensures forall k :: k in rows && k !in KeySet(s) ==> InsertAll(rows, s)[k] == rows[k]
    ensures forall k :: k in KeySet(s) ==> InsertAll(rows, s)[k] in s && KeyOf(InsertAll(rows, s)[k]) == k
    decreases |s|
  {
    if s != [] {
      KeySetSnoc(s);
      InsertAllEffect(rows, s[..|s| - 1]);
    }
  }

  // ----- balances over the folds -----

  function AmountFor(x: AssetId): OwnedAsset -> int {
    (a: OwnedAsset) => if a.assetId == x then a.amount else 0
  }

  /** Spending a list of distinct unspent rows lowers each balance by their total. */
  lemma {:induction false} SpendAllBalance(rows: Rows, s: seq<OwnedAsset>, x: AssetId)
    requires Distinct(s)
    requires forall a :: a in s ==> KeyOf(a) in rows && rows[KeyOf(a)] == a && !a.spent
    ensures Balance(SpendAll(rows, s), x) == Balance(rows, x) - Total(s, AmountFor(x))
    decreases |s|
  {
    if s != [] {
      var front, last := s[..|s| - 1], s[|s| - 1];
      KeySetSnoc(s);
      DistinctSnoc(front, last);
      SpendAllBalance(rows, front, x);
      SpendAllEffect(rows, front);
      BalanceUpdate(SpendAll(rows, front), KeyOf(last), last.(spent := true), x);
    }
  }

  /** No two rows of the list share an identity. */
  ghost predicate DistinctKeys(s: seq<OwnedAsset>) {
    s == [] || (DistinctKeys(s[..|s| - 1]) && KeyOf(s[|s| - 1]) !in KeySet(s[..|s| - 1]))
  }

  lemma {:induction false} InsertAllKeyed(rows: Rows, s: seq<OwnedAsset>)
    ensures KeySet(s) == Keyed(s, KeyOf).Keys
    ensures forall k :: k in KeySet(s) ==> k in InsertAll(rows, s) && InsertAll(rows, s)[k] == Keyed(s, KeyOf)[k]
    decreases |s|
  {
    if s != [] {
      KeySetSnoc(s);
      InsertAllKeyed(rows, s[..|s| - 1]);
    }
  }

  /**
   * Inserting rows at fresh identities raises each balance by their total less what they replace among themselves: a
   * row that a later one overwrites is gone.
   */
  lemma {:induction false} InsertAllBalance(rows: Rows, s: seq<OwnedAsset>, x: AssetId)
    requires rows.Keys !! KeySet(s) && forall a :: a in s ==> !a.spent
    ensures Balance(InsertAll(rows, s), x)
         == Balance(rows, x) + Total(s, AmountFor(x)) - Total(Replaced(s, KeyOf), AmountFor(x))
    decreases |s|
  {
    if s != [] {
      var front, last := s[..|s| - 1], s[|s| - 1];
      KeySetSnoc(s);
      InsertAllBalance(rows, front, x);
      InsertAllEffect(rows, front);
      InsertAllKeyed(rows, front);
      BalanceUpdate(InsertAll(rows, front), KeyOf(last), last, x);
      if KeyOf(last) in KeySet(front) {
        TotalSnoc(Replaced(front, KeyOf), Keyed(front, KeyOf)[KeyOf(last)], AmountFor(x));
      } else {
        assert Replaced(s, KeyOf) == Replaced(front, KeyOf);
      }
    }
  }

  /** Nothing is overwritten exactly when no two rows share an identity. */
  lemma {:induction false} NoneReplacedIff(s: seq<OwnedAsset>)
    ensures Replaced(s, KeyOf) == [] <==> DistinctKeys(s)
    decreases |s|
  {
    if s != [] {
      NoneReplacedIff(s[..|s| - 1]);
      InsertAllKeyed(map[], s[..|s| - 1]);
    }
  }

  /** Rows inserted under distinct identities are all there afterwards. */
  lemma {:induction false} InsertAllKeeps(rows: Rows, s: seq<OwnedAsset>, a: OwnedAsset)
    requires DistinctKeys(s) && a in s
    ensures KeyOf(a) in InsertAll(rows, s) && InsertAll(rows, s)[KeyOf(a)] == a
    decreases |s|
  {
    var front, last := s[..|s| - 1], s[|s| - 1];
    KeySetSnoc(s);
    if a in front {
      InsertAllKeeps(rows, front, a);
      assert KeyOf(a) in KeySet(front);
    }
  }
}
