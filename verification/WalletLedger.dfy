/** Whole runs of a wallet: mints, receives, sends and confirmations, in any order. */
module WalletLedger {
  import opened Prelude
  import opened Listings
  import opened Replacement
  import opened AssetStore
  import opened WalletSend
  import opened SendProperties

  datatype Event =
    | Minted(coin: OwnedAsset)
    | Received(coin: OwnedAsset)
    | Sent(id: AssetId, amount: nat, selected: seq<OwnedAsset>, passives: seq<OwnedAsset>,
           at: ChangeOutput, g: Genesis)
    | Confirmed(op: OutPoint, height: nat)

  /** The store, and the outpoints some anchor transaction of this wallet has consumed. */
  datatype Ledger = Ledger(rows: Rows, consumed: set<OutPoint>)

  /** The change of a send: the 64-bit total of the selected coins, less the amount. */
  function ChangeOf(amount: nat, selected: seq<OwnedAsset>): int {
    Wrap64(Total(selected, AmountOf)) - amount
  }

  /** What the chain guarantees of each event: new outputs are new, and a spent outpoint cannot be paid again. */
  ghost predicate Enabled(l: Ledger, e: Event) {
    match e
    case Minted(coin) => !coin.spent && KeyOf(coin) !in l.rows && coin.anchor !in l.consumed
    case Received(coin) => !coin.spent && KeyOf(coin) !in l.rows && coin.anchor !in l.consumed
    case Sent(id, amount, selected, passives, at, g) =>
      && Consumes(l.rows, id, amount, selected, passives) && 0 <= ChangeOf(amount, selected)
      && FreshOutpoint(l.rows, at.outpoint) && at.outpoint !in l.consumed
    case Confirmed(_, _) => true
  }

  ghost function Step(l: Ledger, e: Event): Ledger
    requires Enabled(l, e)
  {
    match e
    case Minted(coin) => l.(rows := Insert(l.rows, coin))
    case Received(coin) => l.(rows := Insert(l.rows, coin))
    case Sent(id, amount, selected, passives, at, g) =>
      Ledger(MovedRows(l.rows, id, ChangeOf(amount, selected), selected, passives, at, g),
             l.consumed + Anchors(selected))
    case Confirmed(op, height) => l.(rows := SetHeight(l.rows, op, height))
  }

  ghost predicate Run(es: seq<Event>)
    decreases |es|, 0
  {
    es == [] || (Run(es[..|es| - 1]) && Enabled(After(es[..|es| - 1]), es[|es| - 1]))
  }

  ghost function After(es: seq<Event>): Ledger
    requires Run(es)
    decreases |es|, 1
  {
    if es == [] then Ledger(map[], {}) else Step(After(es[..|es| - 1]), es[|es| - 1])
  }

  function MintedOf(x: AssetId): Event -> int {
    (e: Event) => if e.Minted? && e.coin.assetId == x then e.coin.amount else 0
  }

  function ReceivedOf(x: AssetId): Event -> int {
    (e: Event) => if e.Received? && e.coin.assetId == x then e.coin.amount else 0
  }

  function SentOf(x: AssetId): Event -> int {
    (e: Event) => if e.Sent? && e.id == x then e.amount else 0
  }

  /** What a send loses of an asset: the created rows it overwrites, and what its 64-bit total dropped. */
  ghost function LossOf(x: AssetId): Event -> int {
    (e: Event) =>
      if e.Sent? && AllReAnchorable(e.passives) && 0 <= ChangeOf(e.amount, e.selected) then
        Total(Overwritten(e.id, ChangeOf(e.amount, e.selected), e.passives, e.at, e.g), AmountFor(x))
        + (if e.id == x then Total(e.selected, AmountOf) - Wrap64(Total(e.selected, AmountOf)) else 0)
      else 0
  }

  /** Nothing unspent is anchored at a consumed outpoint. */
  ghost predicate NothingAtConsumed(l: Ledger) {
    WellKeyed(l.rows) && forall k :: k in l.rows && k.outpoint in l.consumed ==> l.rows[k].spent
  }

  lemma StepKeepsAnchors(l: Ledger, e: Event)
    requires NothingAtConsumed(l) && Enabled(l, e)
    ensures NothingAtConsumed(Step(l, e))
  {
    match e
    case Minted(coin) =>
    case Received(coin) =>
    case Sent(id, amount, selected, passives, at, g) =>
      SendLeavesNoOrphans(l.rows, id, ChangeOf(amount, selected), selected, passives, at, g);
    case Confirmed(op, height) =>
  }

  lemma StepBalance(l: Ledger, e: Event, x: AssetId)
    requires Enabled(l, e)
    ensures Balance(Step(l, e).rows, x)
         == Balance(l.rows, x) + MintedOf(x)(e) + ReceivedOf(x)(e) - SentOf(x)(e) - LossOf(x)(e)
  {
    match e
    case Minted(coin) => BalanceUpdate(l.rows, KeyOf(coin), coin, x);
    case Received(coin) => BalanceUpdate(l.rows, KeyOf(coin), coin, x);
    case Sent(id, amount, selected, passives, at, g) =>
      SendBalance(l.rows, id, ChangeOf(amount, selected), selected, passives, at, g, x);
    case Confirmed(op, height) => SetHeightKeepsBalance(l.rows, op, height, x);
  }

  /** Over every run, each balance is what was minted and received less what was sent and what sends lost. */
  lemma {:induction false} RunBalance(es: seq<Event>, x: AssetId)
    requires Run(es)
    ensures Balance(After(es).rows, x)
         == Total(es, MintedOf(x)) + Total(es, ReceivedOf(x)) - Total(es, SentOf(x)) - Total(es, LossOf(x))
    decreases |es|
  {
    if es != [] {
      RunBalance(es[..|es| - 1], x);
      StepBalance(After(es[..|es| - 1]), es[|es| - 1], x);
    }
  }

  /** A send that cannot lose anything: its destinations do not clash and its total fits in 64 bits. */
  ghost predicate Lossless(e: Event) {
    e.Sent? ==>
      && Total(e.selected, AmountOf) < U64_LIMIT
      && (0 <= ChangeOf(e.amount, e.selected) ==>
            NoDestinationClash(e.id, ChangeOf(e.amount, e.selected), e.passives, e.at))
  }

  lemma LosslessLosesNothing(e: Event, x: AssetId)
    requires Lossless(e)
    ensures LossOf(x)(e) == 0
  {
    if e.Sent? && AllReAnchorable(e.passives) && 0 <= ChangeOf(e.amount, e.selected) {
      OverwritesIff(e.id, ChangeOf(e.amount, e.selected), e.passives, e.at, e.g);
      TotalNonNegative(e.selected, AmountOf);
      WrapFits(Total(e.selected, AmountOf));
    }
  }

  /** Over every run of such sends, each balance is what was minted and received less what was sent. */
  lemma {:induction false} LosslessRunBalance(es: seq<Event>, x: AssetId)
    requires Run(es) && forall e :: e in es ==> Lossless(e)
    ensures Balance(After(es).rows, x)
         == Total(es, MintedOf(x)) + Total(es, ReceivedOf(x)) - Total(es, SentOf(x))
  {
    RunBalance(es, x);
    forall e | e in es
      ensures LossOf(x)(e) == 0
    {
      LosslessLosesNothing(e, x);
    }
    TotalZero(es, LossOf(x));
  }

  /** Over every run, no unspent row is anchored at an outpoint an earlier anchor transaction consumed. */
  lemma {:induction false} RunKeepsAnchors(es: seq<Event>)
    requires Run(es)
    ensures NothingAtConsumed(After(es))
    decreases |es|
  {
    if es != [] {
      RunKeepsAnchors(es[..|es| - 1]);
      StepKeepsAnchors(After(es[..|es| - 1]), es[|es| - 1]);
    }
  }

  /**
   * The import does not look at what it overwrites. Importing a coin keeps the ledger free of rows at consumed
   * outpoints exactly when the coin's own outpoint is not consumed, and importing a spent coin again brings its
   * value back.
   */
  lemma ImportAgain(l: Ledger, coin: OwnedAsset)
    requires NothingAtConsumed(l) && !coin.spent
    ensures NothingAtConsumed(l.(rows := Insert(l.rows, coin))) <==> coin.anchor !in l.consumed
    ensures KeyOf(coin) in l.rows && l.rows[KeyOf(coin)].spent ==>
      Balance(Insert(l.rows, coin), coin.assetId) == Balance(l.rows, coin.assetId) + coin.amount
  {
    var after := Insert(l.rows, coin);
    assert KeyOf(coin) in after && after[KeyOf(coin)] == coin;
    BalanceUpdate(l.rows, KeyOf(coin), coin, coin.assetId);
  }
}
