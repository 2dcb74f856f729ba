/** Whole payloads of pending anchors: what encoding and decoding them promise each other. */
module AnchorPayloads {
  import opened Prelude
  import opened Listings
  import opened Bytes
  import opened Fields
  import opened AnchorLayouts

  /** Nothing may follow the last field. */
  function Finish<T>(out: Read<T>): Result<T, DecodeError> {
    var (x, rest) :- out;
    if rest != [] then Err(TrailingBytes(|rest|)) else Ok(x)
  }

  function AfterVersion(payload: seq<Byte>): Result<seq<Byte>, DecodeError> {
    var (version, rest) :- ReadNumber(1, payload);
    if version != PAYLOAD_VERSION then Err(UnknownVersion(payload[0])) else Ok(rest)
  }

  function DecodeAs<T>(f: Field<T>, payload: seq<Byte>): Result<T, DecodeError> {
    var rest :- AfterVersion(payload);
    Finish(f.read(rest))
  }

  lemma FinishComplete<T(!new)>(f: Field<T>, x: T)
    requires Complete(f) && f.fits(x)
    ensures Finish(f.read(f.write(x))) == Ok(x)
  {
    assert f.write(x) + [] == f.write(x);
  }

  lemma FinishSound<T(!new)>(f: Field<T>, s: seq<Byte>)
    requires Sound(f) && Finish(f.read(s)).Ok?
    ensures f.fits(Finish(f.read(s)).value) && s == f.write(Finish(f.read(s)).value)
  {
    var x := Finish(f.read(s)).value;
    assert f.read(s) == Ok((x, []));
    assert f.write(x) + [] == f.write(x);
  }

  lemma AfterVersionIs(payload: seq<Byte>, rest: seq<Byte>)
    ensures AfterVersion(payload) == Ok(rest) <==> payload == [PAYLOAD_VERSION] + rest
  {
    if payload != [] {
      FirstByte(payload);
      assert payload == [payload[0]] + payload[1..];
    }
  }

  // ----- transfers -----

  function EncodeTransfer(c: Codecs, x: Transfer): seq<Byte> {
    [PAYLOAD_VERSION] + TransferField(c).write(x)
  }

  function DecodeTransfer(c: Codecs, payload: seq<Byte>): Result<Transfer, DecodeError> {
    DecodeAs(TransferField(c), payload)
  }

  /** The identifiers and numbers have their widths, and every length and count is below 2^32. */
  predicate TransferFits(c: Codecs, x: Transfer) {
    TransferField(c).fits(x)
  }

  lemma TransferRoundTrip(c: Codecs, x: Transfer)
    requires AllRoundTrip(c) && TransferFits(c, x)
    ensures DecodeTransfer(c, EncodeTransfer(c, x)) == Ok(x)
  {
    TransferExact(c);
    AfterVersionIs(EncodeTransfer(c, x), TransferField(c).write(x));
    FinishComplete(TransferField(c), x);
  }

  lemma TransferOnlyEncoded(c: Codecs, payload: seq<Byte>)
    requires AllCanonical(c) && DecodeTransfer(c, payload).Ok?
    ensures var x := DecodeTransfer(c, payload).value;
      TransferFits(c, x) && payload == EncodeTransfer(c, x)
  {
    TransferExact(c);
    var rest := AfterVersion(payload).value;
    AfterVersionIs(payload, rest);
    FinishSound(TransferField(c), rest);
  }

  /** A payload decodes to a transfer exactly when it is that transfer's encoding and every length fits. */
  lemma TransferDecodesIff(c: Codecs, payload: seq<Byte>, x: Transfer)
    requires AllRoundTrip(c) && AllCanonical(c)
    ensures DecodeTransfer(c, payload) == Ok(x) <==> TransferFits(c, x) && payload == EncodeTransfer(c, x)
  {
    if DecodeTransfer(c, payload) == Ok(x) {
      TransferOnlyEncoded(c, payload);
    }
    if TransferFits(c, x) {
      TransferRoundTrip(c, x);
    }
  }

  /** One writing is the beginning of another only if it is all of it. */
  lemma WritingsPrefixFree<T(!new)>(f: Field<T>, x: T, y: T, tail: seq<Byte>)
    requires Complete(f) && f.fits(x) && f.fits(y) && f.write(y) == f.write(x) + tail
    ensures x == y && tail == []
  {
    assert f.read(f.write(x) + tail) == Ok((x, tail));
    assert f.write(y) + [] == f.write(y);
    assert f.read(f.write(y) + []) == Ok((y, []));
  }

  lemma PayloadsPrefixFree<T(!new)>(f: Field<T>, p: seq<Byte>, q: seq<Byte>)
    requires Complete(f) && Sound(f) && DecodeAs(f, p).Ok? && DecodeAs(f, q).Ok? && p <= q
    ensures p == q
  {
    var s, t := AfterVersion(p).value, AfterVersion(q).value;
    AfterVersionIs(p, s);
    AfterVersionIs(q, t);
    FinishSound(f, s);
    FinishSound(f, t);
    var tail := t[|s|..];
    assert t == s + tail by {
      assert forall i :: 0 <= i < |s| ==> s[i] == p[i + 1] == q[i + 1] == t[i];
    }
    WritingsPrefixFree(f, DecodeAs(f, p).value, DecodeAs(f, q).value, tail);
    assert s + [] == s;
  }

  /** No accepted transfer payload is a proper prefix of another. */
  lemma TransfersPrefixFree(c: Codecs, p: seq<Byte>, q: seq<Byte>)
    requires AllRoundTrip(c) && AllCanonical(c)
    requires DecodeTransfer(c, p).Ok? && DecodeTransfer(c, q).Ok? && p <= q
    ensures p == q
  {
    TransferExact(c);
    PayloadsPrefixFree(TransferField(c), p, q);
  }

  // ----- supply commitments -----

  function EncodeSupply(c: Codecs, x: SupplyCommit): seq<Byte> {
    [PAYLOAD_VERSION] + SupplyLayout(c).write(FromSupply(x))
  }

  function DecodeSupply(c: Codecs, payload: seq<Byte>): Result<SupplyCommit, DecodeError> {
    var parts :- DecodeAs(SupplyLayout(c), payload);
    Ok(ToSupply(parts))
  }

  /** Widths and lengths as for transfers, and no confirmation block, which the payload does not carry. */
  predicate SupplyFits(c: Codecs, x: SupplyCommit) {
    SupplyLayout(c).fits(FromSupply(x)) && x.commitment.commitmentBlock.None?
  }

  lemma SupplyPartsBack(x: SupplyCommit, parts: SupplyParts)
    ensures FromSupply(ToSupply(parts)) == parts && ToSupply(parts).commitment.commitmentBlock.None?
    ensures ToSupply(FromSupply(x)) == x.(commitment := x.commitment.(commitmentBlock := None))
  {
    var (key, (o, (r, events))) := parts;
    assert o == (o.0, (o.1.0, (o.1.1.0, o.1.1.1)));
    assert r == (r.0, (r.1.0, r.1.1));
    assert parts == (key, (o, (r, events)));
  }

  /** A commitment whose lengths fit comes back without its confirmation block, and is otherwise unchanged. */
  lemma SupplyRoundTrip(c: Codecs, x: SupplyCommit)
    requires AllRoundTrip(c) && SupplyLayout(c).fits(FromSupply(x))
    ensures DecodeSupply(c, EncodeSupply(c, x)) == Ok(x.(commitment := x.commitment.(commitmentBlock := None)))
  {
    SupplyExact(c);
    AfterVersionIs(EncodeSupply(c, x), SupplyLayout(c).write(FromSupply(x)));
    FinishComplete(SupplyLayout(c), FromSupply(x));
    SupplyPartsBack(x, FromSupply(x));
  }

  lemma SupplyOnlyEncoded(c: Codecs, payload: seq<Byte>)
    requires AllCanonical(c) && DecodeSupply(c, payload).Ok?
    ensures var x := DecodeSupply(c, payload).value;
      SupplyFits(c, x) && payload == EncodeSupply(c, x)
  {
    SupplyExact(c);
    var rest := AfterVersion(payload).value;
    AfterVersionIs(payload, rest);
    FinishSound(SupplyLayout(c), rest);
    var x := DecodeSupply(c, payload).value;
    SupplyPartsBack(x, Finish(SupplyLayout(c).read(rest)).value);
  }

  lemma SupplyDecodesIff(c: Codecs, payload: seq<Byte>, x: SupplyCommit)
    requires AllRoundTrip(c) && AllCanonical(c)
    ensures DecodeSupply(c, payload) == Ok(x) <==> SupplyFits(c, x) && payload == EncodeSupply(c, x)
  {
    if DecodeSupply(c, payload) == Ok(x) {
      SupplyOnlyEncoded(c, payload);
    }
    if SupplyFits(c, x) {
      SupplyRoundTrip(c, x);
      assert x.(commitment := x.commitment.(commitmentBlock := None)) == x;
    }
  }

  /** No accepted supply-commitment payload is a proper prefix of another. */
  lemma SuppliesPrefixFree(c: Codecs, p: seq<Byte>, q: seq<Byte>)
    requires AllRoundTrip(c) && AllCanonical(c)
    requires DecodeSupply(c, p).Ok? && DecodeSupply(c, q).Ok? && p <= q
    ensures p == q
  {
    SupplyExact(c);
    PayloadsPrefixFree(SupplyLayout(c), p, q);
  }

  // ----- mints -----

  function EncodeMintPayload(c: Codecs, x: MintPayload): seq<Byte> {
    [MINT_PAYLOAD_VERSION] + (BaseLayout(c).write(BaseOf(x)) + LaterLayout(c).write(LaterOf(x)))
  }

  /** Rows written before version 2 end after the meta reveals. */
  function EncodeMintVersion1(c: Codecs, x: MintPayload): seq<Byte> {
    [1] + BaseLayout(c).write(BaseOf(x))
  }

  /** A payload of version 1, or of version 2 with further fields; version 1 leaves those at their defaults. */
  function DecodeVersions<A, B>(base: Field<A>, later: Field<B>, defaults: B, payload: seq<Byte>):
    Result<(A, B), DecodeError>
  {
    var (version, rest) :- ReadNumber(1, payload);
    if version == 1 then
      var x :- Finish(base.read(rest));
      Ok((x, defaults))
    else if version == MINT_PAYLOAD_VERSION then Finish(Then(base, later).read(rest))
    else Err(UnknownVersion(payload[0]))
  }

  lemma VersionsComplete<A(!new), B(!new)>(base: Field<A>, later: Field<B>, defaults: B, a: A, b: B)
    requires Complete(base) && Complete(later) && base.fits(a)
    ensures DecodeVersions(base, later, defaults, [1] + base.write(a)) == Ok((a, defaults))
    ensures later.fits(b) ==>
      DecodeVersions(base, later, defaults, [2] + (base.write(a) + later.write(b))) == Ok((a, b))
  {
    OneByte(1, base.write(a));
    FinishComplete(base, a);
    OneByte(2, base.write(a) + later.write(b));
    ThenField(base, later);
    if later.fits(b) {
      FinishComplete(Then(base, later), (a, b));
    }
  }

  lemma VersionsSound<A(!new), B(!new)>(base: Field<A>, later: Field<B>, defaults: B, payload: seq<Byte>)
    requires Sound(base) && Sound(later) && DecodeVersions(base, later, defaults, payload).Ok?
    ensures var (a, b) := DecodeVersions(base, later, defaults, payload).value;
      && base.fits(a)
      && ((payload == [1] + base.write(a) && b == defaults)
          || (payload == [2] + (base.write(a) + later.write(b)) && later.fits(b)))
  {
    FirstByte(payload);
    assert payload == [payload[0]] + payload[1..];
    if payload[0] == 1 {
      FinishSound(base, payload[1..]);
    } else {
      ThenField(base, later);
      FinishSound(Then(base, later), payload[1..]);
    }
  }

  const NO_LATER: LaterParts := ([], None)

  function DecodeMintPayload(c: Codecs, payload: seq<Byte>): Result<MintPayload, DecodeError> {
    var (base, later) :- DecodeVersions(BaseLayout(c), LaterLayout(c), NO_LATER, payload);
    Ok(ToMint(base, later))
  }

  predicate BaseFits(c: Codecs, x: MintPayload) {
    BaseLayout(c).fits(BaseOf(x))
  }

  predicate MintFits(c: Codecs, x: MintPayload) {
    BaseFits(c, x) && LaterLayout(c).fits(LaterOf(x))
  }

  lemma MintPartsBack(x: MintPayload, base: BaseParts, later: LaterParts)
    ensures ToMint(BaseOf(x), LaterOf(x)) == x
    ensures BaseOf(ToMint(base, later)) == base && LaterOf(ToMint(base, later)) == later
  {
    assert base == (base.0, (base.1.0, (base.1.1.0, (base.1.1.1.0, base.1.1.1.1))));
  }

  lemma MintRoundTrip(c: Codecs, x: MintPayload)
    requires AllRoundTrip(c) && BaseFits(c, x)
    ensures MintFits(c, x) ==> DecodeMintPayload(c, EncodeMintPayload(c, x)) == Ok(x)
    ensures LaterOf(x) == NO_LATER ==> DecodeMintPayload(c, EncodeMintVersion1(c, x)) == Ok(x)
  {
    BaseExact(c);
    LaterExact(c);
    VersionsComplete(BaseLayout(c), LaterLayout(c), NO_LATER, BaseOf(x), LaterOf(x));
    MintPartsBack(x, BaseOf(x), LaterOf(x));
  }

  lemma MintOnlyEncoded(c: Codecs, payload: seq<Byte>)
    requires AllCanonical(c) && DecodeMintPayload(c, payload).Ok?
    ensures var x := DecodeMintPayload(c, payload).value;
      || (MintFits(c, x) && payload == EncodeMintPayload(c, x))
      || (BaseFits(c, x) && LaterOf(x) == NO_LATER && payload == EncodeMintVersion1(c, x))
  {
    BaseExact(c);
    LaterExact(c);
    VersionsSound(BaseLayout(c), LaterLayout(c), NO_LATER, payload);
    var (base, later) := DecodeVersions(BaseLayout(c), LaterLayout(c), NO_LATER, payload).value;
    MintPartsBack(ToMint(base, later), base, later);
  }

  /**
   * A payload decodes to these mint fields exactly when it is their version-2 encoding, or their version-1 encoding and
   * the version-2 fields are at their defaults.
   */
  lemma MintDecodesIff(c: Codecs, payload: seq<Byte>, x: MintPayload)
    requires AllRoundTrip(c) && AllCanonical(c)
    ensures DecodeMintPayload(c, payload) == Ok(x) <==>
      || (MintFits(c, x) && payload == EncodeMintPayload(c, x))
      || (BaseFits(c, x) && LaterOf(x) == NO_LATER && payload == EncodeMintVersion1(c, x))
  {
    if BaseFits(c, x) {
      MintRoundTrip(c, x);
    }
    if DecodeMintPayload(c, payload) == Ok(x) {
      MintOnlyEncoded(c, payload);
    }
  }

  // ----- what a mint anchor comes back as -----

  datatype MintCommitment = MintCommitment(version: nat, tree: nat)

  /** A batch: what the batch store keeps, and the fields it may not keep (the metas, the assets, the commitment). */
  datatype Batch = Batch(
    key: seq<Byte>, persisted: nat, seedlings: map<string, Option<MetaReveal>>,
    sprouted: seq<Asset>, commitment: Option<MintCommitment>)

  datatype MintAnchor = MintAnchor(
    batch: Batch, internalKey: seq<Byte>, groupReveals: seq<(string, GroupReveal)>, delegationKey: Option<seq<Byte>>)

  /** The metas that are present, in the order the map lists its tags. */
  function MetasOf(seedlings: map<string, Option<MetaReveal>>, tags: seq<string>): seq<(string, MetaReveal)> {
    if tags == [] then []
    else
      var tag := tags[|tags| - 1];
      MetasOf(seedlings, tags[..|tags| - 1]) +
      (if tag in seedlings && seedlings[tag].Some? then [(tag, seedlings[tag].value)] else [])
  }

  function PayloadOf(m: MintAnchor, tags: seq<string>): MintPayload {
    MintPayload(m.batch.key, m.internalKey,
                if m.batch.commitment.Some? then Some(m.batch.commitment.value.version) else None,
                m.batch.sprouted, MetasOf(m.batch.seedlings, tags), m.groupReveals, m.delegationKey)
  }

  /** The loaded batch keeps its own tags; a decoded meta replaces the one stored under its tag. */
  function Overlay(stored: map<string, Option<MetaReveal>>, metas: seq<(string, MetaReveal)>):
    map<string, Option<MetaReveal>>
  {
    if metas == [] then stored
    else
      var before := Overlay(stored, metas[..|metas| - 1]);
      var (tag, meta) := metas[|metas| - 1];
      if tag in before then before[tag := Some(meta)] else before
  }

  function Restore(p: MintPayload, load: seq<Byte> -> Option<Batch>,
                   rebuild: (nat, seq<Asset>) -> Option<MintCommitment>):
    Result<MintAnchor, DecodeError>
  {
    var loaded := load(p.batchKey);
    if loaded.None? then Err(MissingBatch)
    else
      var rebuilt := if p.commitmentVersion.Some? then rebuild(p.commitmentVersion.value, p.assets) else None;
      if p.commitmentVersion.Some? && rebuilt.None? then Err(RebuildFailed)
      else
        var batch := loaded.value.(
          seedlings := Overlay(loaded.value.seedlings, p.metas), sprouted := p.assets, commitment := rebuilt);
        Ok(MintAnchor(batch, p.internalKey, p.groupReveals, p.delegationKey))
  }

  lemma {:induction false} OverlayKeys(stored: map<string, Option<MetaReveal>>, metas: seq<(string, MetaReveal)>)
    ensures Overlay(stored, metas).Keys == stored.Keys
    decreases |metas|
  {
    if metas != [] {
      OverlayKeys(stored, metas[..|metas| - 1]);
    }
  }

  lemma OverlaySnoc(
      stored: map<string, Option<MetaReveal>>, metas: seq<(string, MetaReveal)>, tag: string, meta: MetaReveal)
    ensures Overlay(stored, metas + [(tag, meta)]) ==
      if tag in stored then Overlay(stored, metas)[tag := Some(meta)] else Overlay(stored, metas)
  {
    OverlayKeys(stored, metas);
    assert (metas + [(tag, meta)])[..|metas|] == metas;
  }

  lemma {:induction false} OverlayOf(
      stored: map<string, Option<MetaReveal>>, seedlings: map<string, Option<MetaReveal>>,
      tags: seq<string>, tag: string)
    requires tag in stored
    ensures tag in Overlay(stored, MetasOf(seedlings, tags))
    ensures Overlay(stored, MetasOf(seedlings, tags))[tag] ==
      if tag in tags && tag in seedlings && seedlings[tag].Some? then seedlings[tag] else stored[tag]
    decreases |tags|
  {
    OverlayKeys(stored, MetasOf(seedlings, tags));
    if tags != [] {
      var front, last := tags[..|tags| - 1], tags[|tags| - 1];
      assert tag in tags <==> tag in front || tag == last by {
        assert tags == front + [last];
      }
      OverlayOf(stored, seedlings, front, tag);
      if last in seedlings && seedlings[last].Some? {
        OverlaySnoc(stored, MetasOf(seedlings, front), last, seedlings[last].value);
      } else {
        assert MetasOf(seedlings, tags) == MetasOf(seedlings, front);
      }
    }
  }

  /** What the batch store must keep for a mint anchor to come back. */
  ghost predicate KeptBy(stored: Batch, batch: Batch) {
    && stored.key == batch.key && stored.persisted == batch.persisted
    && stored.seedlings.Keys == batch.seedlings.Keys
    && forall tag :: tag in batch.seedlings && batch.seedlings[tag].None? ==> stored.seedlings[tag].None?
  }

  lemma OverlayRestoresIff(
      stored: map<string, Option<MetaReveal>>, seedlings: map<string, Option<MetaReveal>>, tags: seq<string>)
    requires Enumerates(tags, seedlings.Keys)
    ensures Overlay(stored, MetasOf(seedlings, tags)) == seedlings <==>
      && stored.Keys == seedlings.Keys
      && forall tag :: tag in seedlings && seedlings[tag].None? ==> stored[tag].None?
  {
    var laid := Overlay(stored, MetasOf(seedlings, tags));
    OverlayKeys(stored, MetasOf(seedlings, tags));
    forall tag | tag in stored
      ensures laid[tag] == if tag in seedlings && seedlings[tag].Some? then seedlings[tag] else stored[tag]
    {
      OverlayOf(stored, seedlings, tags, tag);
      assert tag in tags <==> tag in Elements(tags);
    }
  }

  /**
   * The anchor comes back exactly when the batch store kept the persisted part and every tag, added no meta of its own,
   * and the commitment rebuilt from the sprouted assets is the one the anchor had.
   */
  lemma MintAnchorRestoredIff(
      m: MintAnchor, tags: seq<string>, load: seq<Byte> -> Option<Batch>,
      rebuild: (nat, seq<Asset>) -> Option<MintCommitment>)
    requires Enumerates(tags, m.batch.seedlings.Keys)
    ensures Restore(PayloadOf(m, tags), load, rebuild) == Ok(m) <==>
      && load(m.batch.key).Some? && KeptBy(load(m.batch.key).value, m.batch)
      && (m.batch.commitment.Some? ==>
            rebuild(m.batch.commitment.value.version, m.batch.sprouted) == m.batch.commitment)
  {
    if load(m.batch.key).Some? {
      OverlayRestoresIff(load(m.batch.key).value.seedlings, m.batch.seedlings, tags);
    }
  }

  // ----- rows -----

  datatype AnchorPayload =
    | MintKind(mint: MintPayload)
    | TransferKind(transfer: Transfer)
    | SupplyKind(supply: SupplyCommit)

  datatype StoredRow = StoredRow(kind: Byte, payload: seq<Byte>)

  function EncodeAnchor(c: Codecs, a: AnchorPayload): StoredRow {
    match a
    case MintKind(x) => StoredRow(0, EncodeMintPayload(c, x))
    case TransferKind(x) => StoredRow(1, EncodeTransfer(c, x))
    case SupplyKind(x) => StoredRow(2, EncodeSupply(c, x))
  }

  function DecodeAnchor(c: Codecs, row: StoredRow): Result<AnchorPayload, DecodeError> {
    if row.kind == 0 then
      var x :- DecodeMintPayload(c, row.payload);
      Ok(MintKind(x))
    else if row.kind == 1 then
      var x :- DecodeTransfer(c, row.payload);
      Ok(TransferKind(x))
    else if row.kind == 2 then
      var x :- DecodeSupply(c, row.payload);
      Ok(SupplyKind(x))
    else Err(UnknownKind(row.kind))
  }

  predicate AnchorFits(c: Codecs, a: AnchorPayload) {
    match a
    case MintKind(x) => MintFits(c, x)
    case TransferKind(x) => TransferFits(c, x)
    case SupplyKind(x) => SupplyFits(c, x)
  }

  lemma FirstBytesDiffer(p: Byte, s: seq<Byte>, q: Byte, t: seq<Byte>)
    ensures [p] + s == [q] + t ==> p == q
  {
    assert ([p] + s)[0] == p && ([q] + t)[0] == q;
  }

  lemma MintRow(c: Codecs, x: MintPayload)
    requires AllRoundTrip(c)
    ensures MintFits(c, x) ==> DecodeMintPayload(c, EncodeMintPayload(c, x)) == Ok(x)
    ensures AllCanonical(c) && DecodeMintPayload(c, EncodeMintPayload(c, x)) == Ok(x) ==> MintFits(c, x)
  {
    if MintFits(c, x) {
      MintRoundTrip(c, x);
    } else if AllCanonical(c) {
      MintDecodesIff(c, EncodeMintPayload(c, x), x);
      var base, later := BaseLayout(c).write(BaseOf(x)), LaterLayout(c).write(LaterOf(x));
      FirstBytesDiffer(2, base + later, 1, base);
    }
  }

  lemma TransferRow(c: Codecs, x: Transfer)
    requires AllRoundTrip(c)
    ensures TransferFits(c, x) ==> DecodeTransfer(c, EncodeTransfer(c, x)) == Ok(x)
    ensures AllCanonical(c) && DecodeTransfer(c, EncodeTransfer(c, x)) == Ok(x) ==> TransferFits(c, x)
  {
    if TransferFits(c, x) {
      TransferRoundTrip(c, x);
    }
    if AllCanonical(c) {
      TransferDecodesIff(c, EncodeTransfer(c, x), x);
    }
  }

  lemma SupplyRow(c: Codecs, x: SupplyCommit)
    requires AllRoundTrip(c)
    ensures SupplyFits(c, x) ==> DecodeSupply(c, EncodeSupply(c, x)) == Ok(x)
    ensures AllCanonical(c) && DecodeSupply(c, EncodeSupply(c, x)) == Ok(x) ==> SupplyFits(c, x)
  {
    if SupplyFits(c, x) {
      SupplyRoundTrip(c, x);
      assert x.(commitment := x.commitment.(commitmentBlock := None)) == x;
    }
    if AllCanonical(c) {
      SupplyDecodesIff(c, EncodeSupply(c, x), x);
    }
  }

  lemma MintRowDecodes(c: Codecs, p: seq<Byte>, x: MintPayload)
    ensures DecodeAnchor(c, StoredRow(0, p)) == Ok(MintKind(x)) <==> DecodeMintPayload(c, p) == Ok(x)
  {
  }

  lemma TransferRowDecodes(c: Codecs, p: seq<Byte>, x: Transfer)
    ensures DecodeAnchor(c, StoredRow(1, p)) == Ok(TransferKind(x)) <==> DecodeTransfer(c, p) == Ok(x)
  {
  }

  lemma SupplyRowDecodes(c: Codecs, p: seq<Byte>, x: SupplyCommit)
    ensures DecodeAnchor(c, StoredRow(2, p)) == Ok(SupplyKind(x)) <==> DecodeSupply(c, p) == Ok(x)
  {
  }

  lemma MintKindRoundTrips(c: Codecs, x: MintPayload)
    requires AllRoundTrip(c)
    ensures MintFits(c, x) ==> DecodeAnchor(c, EncodeAnchor(c, MintKind(x))) == Ok(MintKind(x))
    ensures AllCanonical(c) && DecodeAnchor(c, EncodeAnchor(c, MintKind(x))) == Ok(MintKind(x)) ==> MintFits(c, x)
  {
    var row := EncodeAnchor(c, MintKind(x));
    assert row == StoredRow(0, EncodeMintPayload(c, x));
    MintRow(c, x);
    MintRowDecodes(c, row.payload, x);
  }

  lemma TransferKindRoundTrips(c: Codecs, x: Transfer)
    requires AllRoundTrip(c)
    ensures TransferFits(c, x) ==> DecodeAnchor(c, EncodeAnchor(c, TransferKind(x))) == Ok(TransferKind(x))
    ensures AllCanonical(c) && DecodeAnchor(c, EncodeAnchor(c, TransferKind(x))) == Ok(TransferKind(x)) ==>
      TransferFits(c, x)
  {
    var row := EncodeAnchor(c, TransferKind(x));
    assert row == StoredRow(1, EncodeTransfer(c, x));
    TransferRow(c, x);
    TransferRowDecodes(c, row.payload, x);
  }

  lemma SupplyKindRoundTrips(c: Codecs, x: SupplyCommit)
    requires AllRoundTrip(c)
    ensures SupplyFits(c, x) ==> DecodeAnchor(c, EncodeAnchor(c, SupplyKind(x))) == Ok(SupplyKind(x))
    ensures AllCanonical(c) && DecodeAnchor(c, EncodeAnchor(c, SupplyKind(x))) == Ok(SupplyKind(x)) ==> SupplyFits(c, x)
  {
    var row := EncodeAnchor(c, SupplyKind(x));
    assert row == StoredRow(2, EncodeSupply(c, x));
    SupplyRow(c, x);
    SupplyRowDecodes(c, row.payload, x);
  }

  /** Writing what a row stores and reading it back gives it back when its lengths fit, and only then. */
  lemma PayloadRoundTripsIff(c: Codecs, a: AnchorPayload)
    requires AllRoundTrip(c)
    ensures AnchorFits(c, a) ==> DecodeAnchor(c, EncodeAnchor(c, a)) == Ok(a)
    ensures AllCanonical(c) && DecodeAnchor(c, EncodeAnchor(c, a)) == Ok(a) ==> AnchorFits(c, a)
  {
    match a
    case MintKind(x) => MintKindRoundTrips(c, x);
    case TransferKind(x) => TransferKindRoundTrips(c, x);
    case SupplyKind(x) => SupplyKindRoundTrips(c, x);
  }

  /** Different payloads have different rows. */
  lemma RowsTellPayloadsApart(c: Codecs, a: AnchorPayload, b: AnchorPayload)
    requires AllRoundTrip(c) && AnchorFits(c, a) && AnchorFits(c, b)
    ensures EncodeAnchor(c, a) == EncodeAnchor(c, b) ==> a == b
  {
    PayloadRoundTripsIff(c, a);
    PayloadRoundTripsIff(c, b);
  }

  // ----- whole anchors -----

  datatype PendingAnchor =
    | MintPending(mint: MintAnchor)
    | TransferPending(transfer: Transfer)
    | SupplyPending(supply: SupplyCommit)

  /** What the row of an anchor stores; `tags` is the order the batch lists its seedlings in. */
  function StoredPart(a: PendingAnchor, tags: seq<string>): AnchorPayload {
    match a
    case MintPending(m) => MintKind(PayloadOf(m, tags))
    case TransferPending(x) => TransferKind(x)
    case SupplyPending(x) => SupplyKind(x)
  }

  function DecodePending(c: Codecs, row: StoredRow, load: seq<Byte> -> Option<Batch>,
                         rebuild: (nat, seq<Asset>) -> Option<MintCommitment>): Result<PendingAnchor, DecodeError>
  {
    var payload :- DecodeAnchor(c, row);
    match payload
    case MintKind(x) =>
      (var m :- Restore(x, load, rebuild);
       Ok(MintPending(m)))
    case TransferKind(x) => Ok(TransferPending(x))
    case SupplyKind(x) => Ok(SupplyPending(x))
  }

  /** What the batch store must hold for an anchor to come back; only mints need anything. */
  ghost predicate Restorable(a: PendingAnchor, load: seq<Byte> -> Option<Batch>,
                             rebuild: (nat, seq<Asset>) -> Option<MintCommitment>)
  {
    a.MintPending? ==>
      var b := a.mint.batch;
      && load(b.key).Some? && KeptBy(load(b.key).value, b)
      && (b.commitment.Some? ==> rebuild(b.commitment.value.version, b.sprouted) == b.commitment)
  }

  /** A whole anchor whose lengths fit comes back from its row exactly when the batch store kept its part of it. */
  lemma AnchorRestoredIff(c: Codecs, a: PendingAnchor, tags: seq<string>, load: seq<Byte> -> Option<Batch>,
                          rebuild: (nat, seq<Asset>) -> Option<MintCommitment>)
    requires AllRoundTrip(c) && AnchorFits(c, StoredPart(a, tags))
    requires a.MintPending? ==> Enumerates(tags, a.mint.batch.seedlings.Keys)
    ensures DecodePending(c, EncodeAnchor(c, StoredPart(a, tags)), load, rebuild) == Ok(a) <==>
      Restorable(a, load, rebuild)
  {
    PayloadRoundTripsIff(c, StoredPart(a, tags));
    RestoredFromPart(c, EncodeAnchor(c, StoredPart(a, tags)), a, tags, load, rebuild);
  }

  lemma RestoredFromPart(c: Codecs, row: StoredRow, a: PendingAnchor, tags: seq<string>,
                         load: seq<Byte> -> Option<Batch>, rebuild: (nat, seq<Asset>) -> Option<MintCommitment>)
    requires DecodeAnchor(c, row) == Ok(StoredPart(a, tags))
    requires a.MintPending? ==> Enumerates(tags, a.mint.batch.seedlings.Keys)
    ensures DecodePending(c, row, load, rebuild) == Ok(a) <==> Restorable(a, load, rebuild)
  {
    DecodedPart(c, row, StoredPart(a, tags), load, rebuild);
    if a.MintPending? {
      MintAnchorRestoredIff(a.mint, tags, load, rebuild);
    }
  }

  lemma DecodedPart(c: Codecs, row: StoredRow, part: AnchorPayload, load: seq<Byte> -> Option<Batch>,
                    rebuild: (nat, seq<Asset>) -> Option<MintCommitment>)
    requires DecodeAnchor(c, row) == Ok(part)
    ensures var r := DecodePending(c, row, load, rebuild);
      match part
      case MintKind(x) => (forall m :: r == Ok(MintPending(m)) <==> Restore(x, load, rebuild) == Ok(m))
      case TransferKind(x) => r == Ok(TransferPending(x))
      case SupplyKind(x) => r == Ok(SupplyPending(x))
  {
  }
}
