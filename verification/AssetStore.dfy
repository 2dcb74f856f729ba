/**
 * The owned-asset store: rows keyed by (anchor outpoint, asset id, script key).
 * A row is never deleted; spending flips its `spent` flag.
 */
module AssetStore {
  import opened Prelude
  import opened Sums
  import opened Listings

  // Identifiers are compared and copied, never inspected, so their 32 or 33 bytes are one number.
  datatype OutPoint = OutPoint(txid: nat, vout: nat)
  datatype AssetId = AssetId(id: nat)
  datatype ScriptKey = ScriptKey(key: nat)
  datatype KeyDescriptor = KeyDescriptor(family: nat, index: nat, pubKey: nat)
  datatype AssetType = Normal | Collectible

  datatype OwnedAsset = OwnedAsset(
    assetId: AssetId,
    amount: nat,
    anchor: OutPoint,
    scriptKey: ScriptKey,
    spent: bool,
    blockHeight: nat,
    scriptKeyDesc: Option<KeyDescriptor>,
    internalKey: Option<KeyDescriptor>,
    genesisPoint: Option<OutPoint>,
    genesisTag: Option<string>,
    genesisMetaHash: Option<nat>,
    genesisOutputIndex: Option<nat>,
    genesisAssetType: Option<AssetType>)

  datatype AssetKey = AssetKey(outpoint: OutPoint, assetId: AssetId, scriptKey: ScriptKey)

  type Rows = map<AssetKey, OwnedAsset>

  datatype StoreError = NotFound

  function KeyOf(a: OwnedAsset): AssetKey {
    AssetKey(a.anchor, a.assetId, a.scriptKey)
  }

  /** Every row sits under its own identity. */
  ghost predicate WellKeyed(rows: Rows) {
    forall k :: k in rows ==> KeyOf(rows[k]) == k
  }

  // ----- the store operations on values -----

  function Insert(rows: Rows, a: OwnedAsset): Rows {
    rows[KeyOf(a) := a]
  }

  function MarkSpent(rows: Rows, k: AssetKey): Result<Rows, StoreError> {
    if k in rows then Ok(rows[k := rows[k].(spent := true)]) else Err(NotFound)
  }

  function SetHeight(rows: Rows, op: OutPoint, height: nat): Rows {
    map k | k in rows :: if rows[k].anchor == op then rows[k].(blockHeight := height) else rows[k]
  }

  function UnspentAt(rows: Rows, op: OutPoint): set<OwnedAsset> {
    set k | k in rows && rows[k].anchor == op && !rows[k].spent :: rows[k]
  }

  function UnspentOf(rows: Rows, id: AssetId): set<OwnedAsset> {
    set k | k in rows && rows[k].assetId == id && !rows[k].spent :: rows[k]
  }

  function AmountOf(a: OwnedAsset): int {
    a.amount
  }

  // ----- balances -----

  /** What one row contributes to the balance of `id`. */
  function Weight(rows: Rows, id: AssetId, k: AssetKey): nat {
    if k in rows && rows[k].assetId == id && !rows[k].spent then rows[k].amount else 0
  }

  ghost function Balance(rows: Rows, id: AssetId): int {
    Sum(rows.Keys, k => Weight(rows, id, k))
  }

  /** Replacing one row changes the balance by the difference of the two contributions. */
  lemma BalanceUpdate(rows: Rows, k: AssetKey, a: OwnedAsset, id: AssetId)
    ensures Balance(rows[k := a], id)
         == Balance(rows, id) - Weight(rows, id, k) + (if a.assetId == id && !a.spent then a.amount else 0)
  {
    var after := rows[k := a];
    var w := (x: AssetKey) => Weight(rows, id, x);
    var v := (x: AssetKey) => Weight(after, id, x);
    var others := rows.Keys - {k};
    assert after.Keys - {k} == others;
    SumSplit(after.Keys, v, k);
    SumCongruent(others, w, v);
    if k in rows {
      SumSplit(rows.Keys, w, k);
    } else {
      assert others == rows.Keys;
    }
  }

  /** Recording a confirmation height changes no balance. */
  lemma SetHeightKeepsBalance(rows: Rows, op: OutPoint, height: nat, id: AssetId)
    ensures Balance(SetHeight(rows, op, height), id) == Balance(rows, id)
  {
    var after := SetHeight(rows, op, height);
    assert after.Keys == rows.Keys;
    SumCongruent(rows.Keys, k => Weight(rows, id, k), k => Weight(after, id, k));
  }

  /** The balance is the total of the unspent coins of that asset. */
  lemma BalanceIsUnspentTotal(rows: Rows, id: AssetId)
    requires WellKeyed(rows)
    ensures Balance(rows, id) == Sum(UnspentOf(rows, id), AmountOf)
    ensures 0 <= Balance(rows, id)
  {
    var w := k => Weight(rows, id, k);
    var ks := set k | k in rows && rows[k].assetId == id && !rows[k].spent;
    SumSupport(ks, rows.Keys, w);
    SumNonNegative(rows.Keys, w);
    RowsAsCoins(rows, ks, id);
    assert UnspentOf(rows, id) == set k | k in ks :: rows[k];
  }

  /** Summing over identities and over the coins they identify is the same. */
  lemma {:induction false} RowsAsCoins(rows: Rows, ks: set<AssetKey>, id: AssetId)
    requires WellKeyed(rows)
    requires forall k :: k in ks ==> k in rows && rows[k].assetId == id && !rows[k].spent
    ensures Sum(ks, k => Weight(rows, id, k)) == Sum(set k | k in ks :: rows[k], AmountOf)
    decreases |ks|
  {
    if ks != {} {
      var k :| k in ks;
      var coins := set x | x in ks :: rows[x];
      var fewer := set x | x in ks - {k} :: rows[x];
      assert coins - {rows[k]} == fewer;
      SumSplit(ks, k => Weight(rows, id, k), k);
      SumSplit(coins, AmountOf, rows[k]);
      RowsAsCoins(rows, ks - {k}, id);
    }
  }

  /** 64-bit addition as the source's release build performs it. */
  function Wrap64(x: int): nat {
    x % U64_LIMIT
  }

  /** Wrapping after every addition gives the same 64-bit result as wrapping once. */
  lemma WrapOnce(x: int, y: int)
    ensures Wrap64(Wrap64(x) + y) == Wrap64(x + y)
  {
    assert x == x / U64_LIMIT * U64_LIMIT + x % U64_LIMIT;
  }

  lemma WrapFits(x: int)
    requires 0 <= x < U64_LIMIT
    ensures Wrap64(x) == x
  {
  }

  lemma WrapBelow(x: int)
    requires 0 <= x
    ensures Wrap64(x) <= x
  {
    assert x == x / U64_LIMIT * U64_LIMIT + x % U64_LIMIT;
  }

  class MemoryAssetStore {
    var rows: Rows

    constructor ()
      ensures rows == map[]
      ensures WellKeyed(rows)
    {
      rows := map[];
    }

    method InsertAsset(a: OwnedAsset)
      modifies this
      ensures rows == Insert(old(rows), a)
      ensures old(WellKeyed(rows)) ==> WellKeyed(rows)
    {
      rows := rows[KeyOf(a) := a];
    }

    method MarkRowSpent(k: AssetKey) returns (r: Result<(), StoreError>)
      modifies this
      ensures r.Ok? <==> k in old(rows)
      ensures r.Ok? ==> Ok(rows) == MarkSpent(old(rows), k)
      ensures r.Err? ==> rows == old(rows)
      ensures old(WellKeyed(rows)) ==> WellKeyed(rows)
    {
      if k in rows {
        rows := rows[k := rows[k].(spent := true)];
        r := Ok(());
      } else {
        r := Err(NotFound);
      }
    }

    method SetAnchorBlockHeight(op: OutPoint, height: nat)
      modifies this
      ensures rows == SetHeight(old(rows), op, height)
      ensures old(WellKeyed(rows)) ==> WellKeyed(rows)
    {
      ghost var before := rows;
      var todo := rows.Keys;
      while todo != {}
        invariant todo <= before.Keys == rows.Keys
        invariant forall k :: k in before ==>
          rows[k] == if k in todo then before[k] else SetHeight(before, op, height)[k]
      {
        var k :| k in todo;
        if rows[k].anchor == op {
          rows := rows[k := rows[k].(blockHeight := height)];
        }
        todo := todo - {k};
      }
    }

    /** The given coins, in whatever order the map yields them. */
    static method ListCoins(coins: set<OwnedAsset>) returns (s: seq<OwnedAsset>)
      ensures Enumerates(s, coins)
    {
      s := [];
      var todo := coins;
      while todo != {}
        invariant todo <= coins
        invariant Enumerates(s, coins - todo)
      {
        var a :| a in todo;
        EnumerateSnoc(s, coins - todo, a);
        assert coins - todo + {a} == coins - (todo - {a});
        s := s + [a];
        todo := todo - {a};
      }
      assert coins - todo == coins;
    }

    method UnspentAtOutpoint(op: OutPoint) returns (s: seq<OwnedAsset>)
      ensures Enumerates(s, UnspentAt(rows, op))
    {
      s := ListCoins(UnspentAt(rows, op));
    }

    method GetUnspent(id: AssetId) returns (s: seq<OwnedAsset>)
      ensures Enumerates(s, UnspentOf(rows, id))
    {
      s := ListCoins(UnspentOf(rows, id));
    }

    /** The reported balance: a 64-bit sum, exact while the holdings fit. */
    method ReportBalance(id: AssetId) returns (b: nat)
      ensures b == Wrap64(Balance(rows, id))
    {
      b := 0;
      var todo := rows.Keys;
      ghost var held := rows;
      ghost var w := k => Weight(held, id, k);
      ghost var exact: int := 0;
      while todo != {}
        invariant todo <= rows.Keys
        invariant exact == Sum(rows.Keys, w) - Sum(todo, w)
        invariant b == Wrap64(exact)
        invariant rows == held
      {
        var k :| k in todo;
        SumSplit(todo, w, k);
        WrapOnce(exact, w(k));
        exact := exact + w(k);
        b := Wrap64(b + Weight(rows, id, k));
        todo := todo - {k};
      }
    }
  }
}
