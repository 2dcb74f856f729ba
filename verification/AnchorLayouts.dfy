/** The payload layouts of pending anchors, and what decoding them promises. */
module AnchorLayouts {
  import opened Prelude
  import opened Bytes
  import opened Fields
  import SupplyTree

  const PAYLOAD_VERSION: Byte := 1
  const MINT_PAYLOAD_VERSION: Byte := 2

  /** Values with codecs of their own; the layouts only carry them. */
  type Proof = nat
  type ProofFile = nat
  type Transaction = nat
  type Asset = nat
  type MetaReveal = nat
  type GroupReveal = nat

  datatype EncodedEvent = EncodedEvent(tree: SupplyTree.SubTree, body: nat)

  datatype Codecs = Codecs(
    proof: Nested<Proof>, file: Nested<ProofFile>, text: Nested<string>, tx: Nested<Transaction>,
    asset: Nested<Asset>, meta: Nested<MetaReveal>, groupReveal: Nested<GroupReveal>,
    event: SupplyTree.SubTree -> Nested<nat>)

  ghost predicate AllRoundTrip(c: Codecs) {
    && RoundTrips(c.proof) && RoundTrips(c.file) && RoundTrips(c.text) && RoundTrips(c.tx)
    && RoundTrips(c.asset) && RoundTrips(c.meta) && RoundTrips(c.groupReveal)
    && forall tree :: RoundTrips(c.event(tree))
  }

  ghost predicate AllCanonical(c: Codecs) {
    && Canonical(c.proof) && Canonical(c.file) && Canonical(c.text) && Canonical(c.tx)
    && Canonical(c.asset) && Canonical(c.meta) && Canonical(c.groupReveal)
    && forall tree :: Canonical(c.event(tree))
  }

  function Point(): Field<WirePoint> {
    As(Then(Raw(32), Number(4)), (t: (seq<Byte>, nat)) => WirePoint(t.0, t.1), (p: WirePoint) => (p.txid, p.vout))
  }

  lemma PointField()
    ensures Complete(Point()) && Sound(Point())
  {
    RawField(32);
    NumberField(4);
    ThenField(Raw(32), Number(4));
    AsField(Then(Raw(32), Number(4)), (t: (seq<Byte>, nat)) => WirePoint(t.0, t.1), (p: WirePoint) => (p.txid, p.vout));
  }

  // ----- transfers -----

  datatype Passive = Passive(outpoint: WirePoint, scriptKey: seq<Byte>, suffix: Proof, baseFile: Option<ProofFile>)

  datatype Transfer = Transfer(
    assetId: seq<Byte>, amount: nat, recipientScriptKey: seq<Byte>, recipientOutpoint: WirePoint,
    recipientSuffix: Proof,
    changeScriptKey: Option<seq<Byte>>, changeOutpoint: Option<WirePoint>, changeSuffix: Option<Proof>,
    baseFile: Option<ProofFile>, courierUrl: Option<string>,
    passive: seq<Passive>)

  type PassiveParts = (WirePoint, (seq<Byte>, (Proof, Option<ProofFile>)))
  type RecipientParts = (seq<Byte>, (nat, (seq<Byte>, (WirePoint, Proof))))
  type ChangeParts =
    (Option<seq<Byte>>, (Option<WirePoint>, (Option<Proof>, (Option<ProofFile>, Option<string>))))
  type TransferParts = (RecipientParts, (ChangeParts, seq<Passive>))

  function PassiveLayout(c: Codecs): Field<PassiveParts> {
    Then(Point(), Then(Raw(33), Then(Var(c.proof), Opt(Var(c.file)))))
  }

  function ToPassive(t: PassiveParts): Passive {
    Passive(t.0, t.1.0, t.1.1.0, t.1.1.1)
  }

  function FromPassive(p: Passive): PassiveParts {
    (p.outpoint, (p.scriptKey, (p.suffix, p.baseFile)))
  }

  function PassiveField(c: Codecs): Field<Passive> {
    As(PassiveLayout(c), ToPassive, FromPassive)
  }

  function RecipientLayout(c: Codecs): Field<RecipientParts> {
    Then(Raw(32), Then(Number(8), Then(Raw(33), Then(Point(), Var(c.proof)))))
  }

  function ChangeLayout(c: Codecs): Field<ChangeParts> {
    Then(Opt(Raw(33)), Then(Opt(Point()), Then(Opt(Var(c.proof)), Then(Opt(Var(c.file)), Opt(Var(c.text))))))
  }

  function ToTransfer(t: TransferParts): Transfer {
    var (r, (ch, passive)) := t;
    Transfer(r.0, r.1.0, r.1.1.0, r.1.1.1.0, r.1.1.1.1,
             ch.0, ch.1.0, ch.1.1.0, ch.1.1.1.0, ch.1.1.1.1, passive)
  }

  function FromTransfer(x: Transfer): TransferParts {
    ((x.assetId, (x.amount, (x.recipientScriptKey, (x.recipientOutpoint, x.recipientSuffix)))),
     ((x.changeScriptKey, (x.changeOutpoint, (x.changeSuffix, (x.baseFile, x.courierUrl)))), x.passive))
  }

  function TransferField(c: Codecs): Field<Transfer> {
    As(Then(RecipientLayout(c), Then(ChangeLayout(c), Many(PassiveField(c)))), ToTransfer, FromTransfer)
  }

  // ----- supply commitments -----

  datatype RootCommitment = RootCommitment(
    txn: Transaction, txOutIdx: nat, internalKey: seq<Byte>, outputKey: Option<seq<Byte>>,
    supplyRootHash: seq<Byte>, supplyRootSum: nat, commitmentBlock: Option<nat>, spentCommitment: Option<WirePoint>)

  datatype SupplyCommit = SupplyCommit(groupKey: seq<Byte>, commitment: RootCommitment, events: seq<EncodedEvent>)

  type OutputParts = (Transaction, (nat, (seq<Byte>, Option<seq<Byte>>)))
  type RootParts = (seq<Byte>, (nat, Option<WirePoint>))
  type SupplyParts = (seq<Byte>, (OutputParts, (RootParts, seq<EncodedEvent>)))

  function TreeCode(tree: SupplyTree.SubTree): Byte {
    match tree
    case Mint => 0
    case Burn => 1
    case Ignore => 2
  }

  function TreeOf(code: nat): Option<SupplyTree.SubTree> {
    if code == 0 then Some(SupplyTree.Mint)
    else if code == 1 then Some(SupplyTree.Burn)
    else if code == 2 then Some(SupplyTree.Ignore)
    else None
  }

  function ReadEvent(c: Codecs, s: seq<Byte>): Read<EncodedEvent> {
    var (code, s1) :- ReadNumber(1, s);
    var tree := TreeOf(code);
    if tree.None? then Err(UnknownType(s[0]))
    else
      var (body, s2) :- ReadVar(c.event(tree.value), s1);
      Ok((EncodedEvent(tree.value, body), s2))
  }

  function EventField(c: Codecs): Field<EncodedEvent> {
    Field((e: EncodedEvent) => [TreeCode(e.tree)] + Var(c.event(e.tree)).write(e.body),
          (e: EncodedEvent) => Var(c.event(e.tree)).fits(e.body), (s: seq<Byte>) => ReadEvent(c, s))
  }

  function OutputLayout(c: Codecs): Field<OutputParts> {
    Then(Var(c.tx), Then(Number(4), Then(Raw(33), Opt(Raw(32)))))
  }

  function RootLayout(): Field<RootParts> {
    Then(Raw(32), Then(Number(8), Opt(Point())))
  }

  /** The parts on the wire leave out the block the commitment was mined in. */
  function SupplyLayout(c: Codecs): Field<SupplyParts> {
    Then(Raw(33), Then(OutputLayout(c), Then(RootLayout(), Many(EventField(c)))))
  }

  function ToSupply(t: SupplyParts): SupplyCommit {
    var (key, (o, (r, events))) := t;
    SupplyCommit(key, RootCommitment(o.0, o.1.0, o.1.1.0, o.1.1.1, r.0, r.1.0, None, r.1.1), events)
  }

  function FromSupply(x: SupplyCommit): SupplyParts {
    var r := x.commitment;
    (x.groupKey, ((r.txn, (r.txOutIdx, (r.internalKey, r.outputKey))),
                  ((r.supplyRootHash, (r.supplyRootSum, r.spentCommitment)), x.events)))
  }

  // ----- mints -----

  /** What a mint payload stores; the rest of the anchor comes back from the batch store. */
  datatype MintPayload = MintPayload(
    batchKey: seq<Byte>, internalKey: seq<Byte>, commitmentVersion: Option<nat>, assets: seq<Asset>,
    metas: seq<(string, MetaReveal)>, groupReveals: seq<(string, GroupReveal)>, delegationKey: Option<seq<Byte>>)

  type BaseParts = (seq<Byte>, (seq<Byte>, (Option<nat>, (seq<Asset>, seq<(string, MetaReveal)>))))
  type LaterParts = (seq<(string, GroupReveal)>, Option<seq<Byte>>)

  function ReadCommitmentVersion(s: seq<Byte>): Read<nat> {
    var (v, rest) :- ReadNumber(1, s);
    if v > 2 then Err(Malformed) else Ok((v, rest))
  }

  function CommitmentVersion(): Field<nat> {
    Field((v: nat) => BigEndian(1, v), (v: nat) => v <= 2, (s: seq<Byte>) => ReadCommitmentVersion(s))
  }

  /** The fields both versions have. */
  function BaseLayout(c: Codecs): Field<BaseParts> {
    Then(Raw(33), Then(Raw(33), Then(Opt(CommitmentVersion()),
      Then(Many(Var(c.asset)), Many(Then(Var(c.text), Var(c.meta)))))))
  }

  /** The fields version 2 adds. */
  function LaterLayout(c: Codecs): Field<LaterParts> {
    Then(Many(Then(Var(c.text), Var(c.groupReveal))), Opt(Raw(33)))
  }

  function ToMint(b: BaseParts, l: LaterParts): MintPayload {
    MintPayload(b.0, b.1.0, b.1.1.0, b.1.1.1.0, b.1.1.1.1, l.0, l.1)
  }

  function BaseOf(x: MintPayload): BaseParts {
    (x.batchKey, (x.internalKey, (x.commitmentVersion, (x.assets, x.metas))))
  }

  function LaterOf(x: MintPayload): LaterParts {
    (x.groupReveals, x.delegationKey)
  }

  // ----- every layout is exact -----

  lemma PassiveExact(c: Codecs)
    ensures AllRoundTrip(c) ==> Complete(PassiveField(c))
    ensures AllCanonical(c) ==> Sound(PassiveField(c))
  {
    PointField();
    RawField(33);
    VarField(c.proof);
    VarField(c.file);
    OptField(Var(c.file));
    ThenField(Var(c.proof), Opt(Var(c.file)));
    ThenField(Raw(33), Then(Var(c.proof), Opt(Var(c.file))));
    ThenField(Point(), Then(Raw(33), Then(Var(c.proof), Opt(Var(c.file)))));
    AsField(PassiveLayout(c), ToPassive, FromPassive);
  }

  lemma RecipientExact(c: Codecs)
    ensures AllRoundTrip(c) ==> Complete(RecipientLayout(c))
    ensures AllCanonical(c) ==> Sound(RecipientLayout(c))
  {
    PointField();
    RawField(32);
    RawField(33);
    NumberField(8);
    VarField(c.proof);
    ThenField(Point(), Var(c.proof));
    ThenField(Raw(33), Then(Point(), Var(c.proof)));
    ThenField(Number(8), Then(Raw(33), Then(Point(), Var(c.proof))));
    ThenField(Raw(32), Then(Number(8), Then(Raw(33), Then(Point(), Var(c.proof)))));
  }

  lemma ChangeExact(c: Codecs)
    ensures AllRoundTrip(c) ==> Complete(ChangeLayout(c))
    ensures AllCanonical(c) ==> Sound(ChangeLayout(c))
  {
    PointField();
    RawField(33);
    VarField(c.proof);
    VarField(c.file);
    VarField(c.text);
    OptField(Raw(33));
    OptField(Point());
    OptField(Var(c.proof));
    OptField(Var(c.file));
    OptField(Var(c.text));
    ThenField(Opt(Var(c.file)), Opt(Var(c.text)));
    ThenField(Opt(Var(c.proof)), Then(Opt(Var(c.file)), Opt(Var(c.text))));
    ThenField(Opt(Point()), Then(Opt(Var(c.proof)), Then(Opt(Var(c.file)), Opt(Var(c.text)))));
    ThenField(Opt(Raw(33)), Then(Opt(Point()), Then(Opt(Var(c.proof)), Then(Opt(Var(c.file)), Opt(Var(c.text))))));
  }

  lemma TransferExact(c: Codecs)
    ensures AllRoundTrip(c) ==> Complete(TransferField(c))
    ensures AllCanonical(c) ==> Sound(TransferField(c))
  {
    RecipientExact(c);
    ChangeExact(c);
    PassiveExact(c);
    ManyField(PassiveField(c));
    ThenField(ChangeLayout(c), Many(PassiveField(c)));
    ThenField(RecipientLayout(c), Then(ChangeLayout(c), Many(PassiveField(c))));
    AsField(Then(RecipientLayout(c), Then(ChangeLayout(c), Many(PassiveField(c)))), ToTransfer, FromTransfer);
  }

  lemma OneByte(b: Byte, rest: seq<Byte>)
    ensures BigEndian(1, b) == [b] && ReadNumber(1, [b] + rest) == Ok((b, rest))
  {
    assert ([b] + rest)[..1] == [b] && ([b] + rest)[1..] == rest;
    assert Value([b]) == b;
    assert BigEndian(0, b / 256) == [];
  }

  lemma FirstByte(s: seq<Byte>)
    requires s != []
    ensures ReadNumber(1, s) == Ok((s[0], s[1..]))
  {
    OneByte(s[0], s[1..]);
    assert s == [s[0]] + s[1..];
  }

  lemma BodyComplete(n: Nested<nat>, code: Byte, body: nat, rest: seq<Byte>)
    requires RoundTrips(n) && |n.encode(body)| < U32_LIMIT
    ensures var s := [code] + WriteVarBytes(n.encode(body)) + rest;
      && ReadNumber(1, s) == Ok((code, WriteVarBytes(n.encode(body)) + rest))
      && ReadVar(n, WriteVarBytes(n.encode(body)) + rest) == Ok((body, rest))
  {
    var body' := WriteVarBytes(n.encode(body));
    VarBytesRoundTrip(n.encode(body), rest);
    assert [code] + body' + rest == [code] + (body' + rest);
    OneByte(code, body' + rest);
  }

  lemma EventComplete(c: Codecs, e: EncodedEvent, rest: seq<Byte>)
    requires AllRoundTrip(c) && EventField(c).fits(e)
    ensures ReadEvent(c, EventField(c).write(e) + rest) == Ok((e, rest))
  {
    BodyComplete(c.event(e.tree), TreeCode(e.tree), e.body, rest);
  }

  lemma EventSound(c: Codecs, s: seq<Byte>)
    requires AllCanonical(c) && ReadEvent(c, s).Ok?
    ensures var (e, rest) := ReadEvent(c, s).value;
      EventField(c).fits(e) && s == EventField(c).write(e) + rest
  {
    FirstByte(s);
    var (e, rest) := ReadEvent(c, s).value;
    var nested := c.event(e.tree);
    VarField(nested);
    assert Var(nested).read(s[1..]) == Ok((e.body, rest));
    assert s == [s[0]] + s[1..];
  }

  lemma EventExact(c: Codecs)
    ensures AllRoundTrip(c) ==> Complete(EventField(c))
    ensures AllCanonical(c) ==> Sound(EventField(c))
  {
    if AllRoundTrip(c) {
      forall e: EncodedEvent, rest: seq<Byte> | EventField(c).fits(e)
        ensures EventField(c).read(EventField(c).write(e) + rest) == Ok((e, rest))
      {
        EventComplete(c, e, rest);
      }
    }
    if AllCanonical(c) {
      forall s: seq<Byte> | EventField(c).read(s).Ok?
        ensures EventField(c).fits(EventField(c).read(s).value.0)
          && s == EventField(c).write(EventField(c).read(s).value.0) + EventField(c).read(s).value.1
      {
        EventSound(c, s);
      }
    }
  }

  lemma SupplyExact(c: Codecs)
    ensures AllRoundTrip(c) ==> Complete(SupplyLayout(c))
    ensures AllCanonical(c) ==> Sound(SupplyLayout(c))
  {
    OutputExact(c);
    RootExact();
    RawField(33);
    EventExact(c);
    ManyField(EventField(c));
    ThenField(RootLayout(), Many(EventField(c)));
    ThenField(OutputLayout(c), Then(RootLayout(), Many(EventField(c))));
    ThenField(Raw(33), Then(OutputLayout(c), Then(RootLayout(), Many(EventField(c)))));
  }

  lemma OutputExact(c: Codecs)
    ensures AllRoundTrip(c) ==> Complete(OutputLayout(c))
    ensures AllCanonical(c) ==> Sound(OutputLayout(c))
  {
    RawField(32);
    RawField(33);
    NumberField(4);
    VarField(c.tx);
    OptField(Raw(32));
    ThenField(Raw(33), Opt(Raw(32)));
    ThenField(Number(4), Then(Raw(33), Opt(Raw(32))));
    ThenField(Var(c.tx), Then(Number(4), Then(Raw(33), Opt(Raw(32)))));
  }

  lemma RootExact()
    ensures Complete(RootLayout()) && Sound(RootLayout())
  {
    PointField();
    RawField(32);
    NumberField(8);
    OptField(Point());
    ThenField(Number(8), Opt(Point()));
    ThenField(Raw(32), Then(Number(8), Opt(Point())));
  }

  lemma CommitmentVersionField()
    ensures Complete(CommitmentVersion()) && Sound(CommitmentVersion())
  {
    Limits();
    NumberField(1);
    forall v: nat, rest: seq<Byte> | v <= 2
      ensures ReadCommitmentVersion(BigEndian(1, v) + rest) == Ok((v, rest))
    {
      assert Number(1).read(Number(1).write(v) + rest) == Ok((v, rest));
    }
    forall s: seq<Byte> | ReadCommitmentVersion(s).Ok?
      ensures var (v, rest) := ReadCommitmentVersion(s).value;
        v <= 2 && s == BigEndian(1, v) + rest
    {
      assert Number(1).read(s).Ok?;
    }
  }

  lemma MintListsExact(c: Codecs)
    ensures AllRoundTrip(c) ==> Complete(Then(Many(Var(c.asset)), Many(Then(Var(c.text), Var(c.meta)))))
    ensures AllCanonical(c) ==> Sound(Then(Many(Var(c.asset)), Many(Then(Var(c.text), Var(c.meta)))))
  {
    VarField(c.asset);
    VarField(c.text);
    VarField(c.meta);
    ThenField(Var(c.text), Var(c.meta));
    ManyField(Var(c.asset));
    ManyField(Then(Var(c.text), Var(c.meta)));
    ThenField(Many(Var(c.asset)), Many(Then(Var(c.text), Var(c.meta))));
  }

  lemma BaseExact(c: Codecs)
    ensures AllRoundTrip(c) ==> Complete(BaseLayout(c))
    ensures AllCanonical(c) ==> Sound(BaseLayout(c))
  {
    MintListsExact(c);
    RawField(33);
    CommitmentVersionField();
    OptField(CommitmentVersion());
    var lists := Then(Many(Var(c.asset)), Many(Then(Var(c.text), Var(c.meta))));
    ThenField(Opt(CommitmentVersion()), lists);
    ThenField(Raw(33), Then(Opt(CommitmentVersion()), lists));
    ThenField(Raw(33), Then(Raw(33), Then(Opt(CommitmentVersion()), lists)));
  }

  lemma LaterExact(c: Codecs)
    ensures AllRoundTrip(c) ==> Complete(LaterLayout(c))
    ensures AllCanonical(c) ==> Sound(LaterLayout(c))
  {
    RawField(33);
    OptField(Raw(33));
    VarField(c.text);
    VarField(c.groupReveal);
    ThenField(Var(c.text), Var(c.groupReveal));
    ManyField(Then(Var(c.text), Var(c.groupReveal)));
    ThenField(Many(Then(Var(c.text), Var(c.groupReveal))), Opt(Raw(33)));
  }
}
