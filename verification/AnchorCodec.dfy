/** The anchor payload codec as it runs: a bounds-checked cursor, and buffers filled field by field. */
module AnchorCodec {
  import opened Prelude
  import opened Bytes
  import opened Fields
  import opened AnchorLayouts
  import opened AnchorPayloads

  /** A step of the cursor agrees with reading a field: the same value or error, and on success the same bytes left. */
  ghost predicate Agrees<T>(r: Result<T, DecodeError>, left: seq<Byte>, out: Read<T>) {
    match out
    case Ok((x, rest)) => r == Ok(x) && left == rest
    case Err(e) => r == Err(e)
  }

  class Reader {
    const data: seq<Byte>
    var pos: nat

    ghost predicate Valid()
      reads this
    {
      pos <= |data|
    }

    ghost function Left(): seq<Byte>
      requires Valid()
      reads this
    {
      data[pos..]
    }

    constructor (data: seq<Byte>)
      ensures Valid() && Left() == data
    {
      this.data := data;
      pos := 0;
    }

    method Take(n: nat) returns (r: Result<seq<Byte>, DecodeError>)
      requires Valid()
      modifies this
      ensures Valid() && Agrees(r, Left(), ReadRaw(n, old(Left())))
    {
      var end := pos + n;
      if end > |data| {
        return Err(Truncated);
      }
      assert data[pos..][..n] == data[pos..end] && data[pos..][n..] == data[end..];
      r := Ok(data[pos..end]);
      pos := end;
    }

    /** The unsigned integers of 1, 4 and 8 bytes. */
    method TakeNumber(width: nat) returns (r: Result<nat, DecodeError>)
      requires Valid()
      modifies this
      ensures Valid() && Agrees(r, Left(), ReadNumber(width, old(Left())))
    {
      var bytes :- Take(width);
      var v: nat := 0;
      for i := 0 to |bytes|
        invariant v == Value(bytes[..i])
      {
        assert bytes[..i + 1][..i] == bytes[..i];
        v := 256 * v + bytes[i];
      }
      assert bytes[..|bytes|] == bytes;
      r := Ok(v);
    }

    method TakeVarBytes() returns (r: Result<seq<Byte>, DecodeError>)
      requires Valid()
      modifies this
      ensures Valid() && Agrees(r, Left(), ReadVarBytes(old(Left())))
    {
      var length :- TakeNumber(4);
      r := Take(length);
    }

    method TakeNested<T>(n: Nested<T>) returns (r: Result<T, DecodeError>)
      requires Valid()
      modifies this
      ensures Valid() && Agrees(r, Left(), ReadVar(n, old(Left())))
    {
      var bytes :- TakeVarBytes();
      var x := n.decode(bytes);
      r := if x.None? then Err(Malformed) else Ok(x.value);
    }

    method TakePoint() returns (r: Result<WirePoint, DecodeError>)
      requires Valid()
      modifies this
      ensures Valid() && Agrees(r, Left(), Point().read(old(Left())))
    {
      var txid :- Take(32);
      var vout :- TakeNumber(4);
      r := Ok(WirePoint(txid, vout));
    }

    method TakeFlag() returns (r: Result<bool, DecodeError>)
      requires Valid()
      modifies this
      ensures Valid() && Agrees(r, Left(), ReadFlag(old(Left())))
    {
      ghost var s := Left();
      var flag :- TakeNumber(1);
      if flag == 0 {
        return Ok(false);
      } else if flag == 1 {
        return Ok(true);
      }
      FirstByte(s);
      r := Err(InvalidFlag(flag));
    }

    method TakeOptRaw(n: nat) returns (r: Result<Option<seq<Byte>>, DecodeError>)
      requires Valid()
      modifies this
      ensures Valid() && Agrees(r, Left(), ReadOpt(Raw(n), old(Left())))
    {
      var present :- TakeFlag();
      if !present {
        return Ok(None);
      }
      var bytes :- Take(n);
      r := Ok(Some(bytes));
    }

    method TakeOptPoint() returns (r: Result<Option<WirePoint>, DecodeError>)
      requires Valid()
      modifies this
      ensures Valid() && Agrees(r, Left(), ReadOpt(Point(), old(Left())))
    {
      var present :- TakeFlag();
      if !present {
        return Ok(None);
      }
      var p :- TakePoint();
      r := Ok(Some(p));
    }

    method TakeOptNested<T>(n: Nested<T>) returns (r: Result<Option<T>, DecodeError>)
      requires Valid()
      modifies this
      ensures Valid() && Agrees(r, Left(), ReadOpt(Var(n), old(Left())))
    {
      var present :- TakeFlag();
      if !present {
        return Ok(None);
      }
      var x :- TakeNested(n);
      r := Ok(Some(x));
    }

    method ExpectVersion() returns (r: Result<(), DecodeError>)
      requires Valid()
      modifies this
      ensures Valid()
      ensures match AfterVersion(old(Left()))
        case Ok(rest) => r.Ok? && Left() == rest
        case Err(e) => r == Err(e)
    {
      ghost var s := Left();
      var version :- TakeNumber(1);
      if version != PAYLOAD_VERSION {
        FirstByte(s);
        return Err(UnknownVersion(version));
      }
      r := Ok(());
    }

    method ExpectEnd() returns (r: Result<(), DecodeError>)
      requires Valid()
      ensures r == if Left() == [] then Ok(()) else Err(TrailingBytes(|Left()|))
    {
      r := if pos != |data| then Err(TrailingBytes(|data| - pos)) else Ok(());
    }
  }

  // ----- transfers -----

  method TakeRecipient(c: Codecs, reader: Reader) returns (r: Result<RecipientParts, DecodeError>)
    requires reader.Valid()
    modifies reader
    ensures reader.Valid() && Agrees(r, reader.Left(), RecipientLayout(c).read(old(reader.Left())))
  {
    var assetId :- reader.Take(32);
    var amount :- reader.TakeNumber(8);
    var scriptKey :- reader.Take(33);
    var outpoint :- reader.TakePoint();
    var suffix :- reader.TakeNested(c.proof);
    r := Ok((assetId, (amount, (scriptKey, (outpoint, suffix)))));
  }

  method TakeChange(c: Codecs, reader: Reader) returns (r: Result<ChangeParts, DecodeError>)
    requires reader.Valid()
    modifies reader
    ensures reader.Valid() && Agrees(r, reader.Left(), ChangeLayout(c).read(old(reader.Left())))
  {
    var scriptKey :- reader.TakeOptRaw(33);
    var outpoint :- reader.TakeOptPoint();
    var suffix :- reader.TakeOptNested(c.proof);
    var baseFile :- reader.TakeOptNested(c.file);
    var courierUrl :- reader.TakeOptNested(c.text);
    r := Ok((scriptKey, (outpoint, (suffix, (baseFile, courierUrl)))));
  }

  method TakePassive(c: Codecs, reader: Reader) returns (r: Result<Passive, DecodeError>)
    requires reader.Valid()
    modifies reader
    ensures reader.Valid() && Agrees(r, reader.Left(), PassiveField(c).read(old(reader.Left())))
  {
    var outpoint :- reader.TakePoint();
    var scriptKey :- reader.Take(33);
    var suffix :- reader.TakeNested(c.proof);
    var baseFile :- reader.TakeOptNested(c.file);
    r := Ok(Passive(outpoint, scriptKey, suffix, baseFile));
  }

  method TakePassives(c: Codecs, reader: Reader) returns (r: Result<seq<Passive>, DecodeError>)
    requires reader.Valid()
    modifies reader
    ensures reader.Valid() && Agrees(r, reader.Left(), ReadMany(PassiveField(c), old(reader.Left())))
  {
    var count :- reader.TakeNumber(4);
    ghost var s := reader.Left();
    var passive: seq<Passive> := [];
    for n := 0 to count
      invariant reader.Valid() && ReadAll(PassiveField(c), n, s) == Ok((passive, reader.Left()))
    {
      var one := TakePassive(c, reader);
      if one.Err? {
        ReadAllStops(PassiveField(c), n + 1, count, s);
        return Err(one.error);
      }
      passive := passive + [one.value];
    }
    r := Ok(passive);
  }

  method DecodeTransferPayload(c: Codecs, payload: seq<Byte>) returns (r: Result<Transfer, DecodeError>)
    ensures r == DecodeTransfer(c, payload)
  {
    var reader := new Reader(payload);
    var _ :- reader.ExpectVersion();
    var to :- TakeRecipient(c, reader);
    var change :- TakeChange(c, reader);
    var passive :- TakePassives(c, reader);
    var _ :- reader.ExpectEnd();
    r := Ok(ToTransfer((to, (change, passive))));
  }

  // ----- supply commitments -----

  method TakeEvent(c: Codecs, reader: Reader) returns (r: Result<EncodedEvent, DecodeError>)
    requires reader.Valid()
    modifies reader
    ensures reader.Valid() && Agrees(r, reader.Left(), ReadEvent(c, old(reader.Left())))
  {
    ghost var s := reader.Left();
    var code :- reader.TakeNumber(1);
    FirstByte(s);
    var tree := TreeOf(code);
    if tree.None? {
      return Err(UnknownType(code));
    }
    var body :- reader.TakeNested(c.event(tree.value));
    r := Ok(EncodedEvent(tree.value, body));
  }

  method TakeEvents(c: Codecs, reader: Reader) returns (r: Result<seq<EncodedEvent>, DecodeError>)
    requires reader.Valid()
    modifies reader
    ensures reader.Valid() && Agrees(r, reader.Left(), ReadMany(EventField(c), old(reader.Left())))
  {
    var count :- reader.TakeNumber(4);
    ghost var s := reader.Left();
    var events: seq<EncodedEvent> := [];
    for n := 0 to count
      invariant reader.Valid() && ReadAll(EventField(c), n, s) == Ok((events, reader.Left()))
    {
      var one := TakeEvent(c, reader);
      if one.Err? {
        ReadAllStops(EventField(c), n + 1, count, s);
        return Err(one.error);
      }
      events := events + [one.value];
    }
    r := Ok(events);
  }

  method TakeOutput(c: Codecs, reader: Reader) returns (r: Result<OutputParts, DecodeError>)
    requires reader.Valid()
    modifies reader
    ensures reader.Valid() && Agrees(r, reader.Left(), OutputLayout(c).read(old(reader.Left())))
  {
    var txn :- reader.TakeNested(c.tx);
    var txOutIdx :- reader.TakeNumber(4);
    var internalKey :- reader.Take(33);
    var outputKey :- reader.TakeOptRaw(32);
    r := Ok((txn, (txOutIdx, (internalKey, outputKey))));
  }

  method TakeRoot(reader: Reader) returns (r: Result<RootParts, DecodeError>)
    requires reader.Valid()
    modifies reader
    ensures reader.Valid() && Agrees(r, reader.Left(), RootLayout().read(old(reader.Left())))
  {
    var hash :- reader.Take(32);
    var sum :- reader.TakeNumber(8);
    var spent :- reader.TakeOptPoint();
    r := Ok((hash, (sum, spent)));
  }

  method DecodeSupplyCommitPayload(c: Codecs, payload: seq<Byte>) returns (r: Result<SupplyCommit, DecodeError>)
    ensures r == DecodeSupply(c, payload)
  {
    var reader := new Reader(payload);
    var _ :- reader.ExpectVersion();
    var groupKey :- reader.Take(33);
    var output :- TakeOutput(c, reader);
    var root :- TakeRoot(reader);
    var events :- TakeEvents(c, reader);
    var _ :- reader.ExpectEnd();
    r := Ok(ToSupply((groupKey, (output, (root, events)))));
  }

  // ----- mints -----

  method TakeCommitmentVersion(reader: Reader) returns (r: Result<Option<nat>, DecodeError>)
    requires reader.Valid()
    modifies reader
    ensures reader.Valid() && Agrees(r, reader.Left(), ReadOpt(CommitmentVersion(), old(reader.Left())))
  {
    var present :- reader.TakeFlag();
    if !present {
      return Ok(None);
    }
    var version :- reader.TakeNumber(1);
    r := if version > 2 then Err(Malformed) else Ok(Some(version));
  }

  method TakeList<T>(n: Nested<T>, reader: Reader) returns (r: Result<seq<T>, DecodeError>)
    requires reader.Valid()
    modifies reader
    ensures reader.Valid() && Agrees(r, reader.Left(), ReadMany(Var(n), old(reader.Left())))
  {
    var count :- reader.TakeNumber(4);
    ghost var s := reader.Left();
    var items: seq<T> := [];
    for i := 0 to count
      invariant reader.Valid() && ReadAll(Var(n), i, s) == Ok((items, reader.Left()))
    {
      var one := reader.TakeNested(n);
      if one.Err? {
        ReadAllStops(Var(n), i + 1, count, s);
        return Err(one.error);
      }
      items := items + [one.value];
    }
    r := Ok(items);
  }

  method TakeTagged<T>(text: Nested<string>, n: Nested<T>, reader: Reader) returns (r: Result<(string, T), DecodeError>)
    requires reader.Valid()
    modifies reader
    ensures reader.Valid() && Agrees(r, reader.Left(), ReadThen(Var(text), Var(n), old(reader.Left())))
  {
    var tag :- reader.TakeNested(text);
    var x :- reader.TakeNested(n);
    r := Ok((tag, x));
  }

  method TakeTaggedList<T>(text: Nested<string>, n: Nested<T>, reader: Reader)
    returns (r: Result<seq<(string, T)>, DecodeError>)
    requires reader.Valid()
    modifies reader
    ensures reader.Valid() && Agrees(r, reader.Left(), ReadMany(Then(Var(text), Var(n)), old(reader.Left())))
  {
    var count :- reader.TakeNumber(4);
    ghost var s := reader.Left();
    ghost var item := Then(Var(text), Var(n));
    var items: seq<(string, T)> := [];
    for i := 0 to count
      invariant reader.Valid() && ReadAll(item, i, s) == Ok((items, reader.Left()))
    {
      var one := TakeTagged(text, n, reader);
      if one.Err? {
        ReadAllStops(item, i + 1, count, s);
        return Err(one.error);
      }
      items := items + [one.value];
    }
    r := Ok(items);
  }

  method TakeBase(c: Codecs, reader: Reader) returns (r: Result<BaseParts, DecodeError>)
    requires reader.Valid()
    modifies reader
    ensures reader.Valid() && Agrees(r, reader.Left(), BaseLayout(c).read(old(reader.Left())))
  {
    var batchKey :- reader.Take(33);
    var internalKey :- reader.Take(33);
    var version :- TakeCommitmentVersion(reader);
    var assets :- TakeList(c.asset, reader);
    var metas :- TakeTaggedList(c.text, c.meta, reader);
    r := Ok((batchKey, (internalKey, (version, (assets, metas)))));
  }

  method TakeLater(c: Codecs, reader: Reader) returns (r: Result<LaterParts, DecodeError>)
    requires reader.Valid()
    modifies reader
    ensures reader.Valid() && Agrees(r, reader.Left(), LaterLayout(c).read(old(reader.Left())))
  {
    var groupReveals :- TakeTaggedList(c.text, c.groupReveal, reader);
    var delegationKey :- reader.TakeOptRaw(33);
    r := Ok((groupReveals, delegationKey));
  }

  method OverlayMetas(stored: map<string, Option<MetaReveal>>, metas: seq<(string, MetaReveal)>)
    returns (r: map<string, Option<MetaReveal>>)
    ensures r == Overlay(stored, metas)
  {
    r := stored;
    for n := 0 to |metas|
      invariant r == Overlay(stored, metas[..n])
    {
      assert metas[..n + 1][..n] == metas[..n];
      var (tag, meta) := metas[n];
      if tag in r {
        r := r[tag := Some(meta)];
      }
    }
    assert metas[..|metas|] == metas;
  }

  /** The fields of the payload, before the batch is loaded. */
  method TakeMint(c: Codecs, payload: seq<Byte>) returns (r: Result<MintPayload, DecodeError>)
    ensures r == DecodeMintPayload(c, payload)
  {
    var reader := new Reader(payload);
    var version :- reader.TakeNumber(1);
    FirstByte(payload);
    if version != 1 && version != MINT_PAYLOAD_VERSION {
      return Err(UnknownVersion(version));
    }
    var base :- TakeBase(c, reader);
    var later := NO_LATER;
    if version >= 2 {
      later :- TakeLater(c, reader);
    }
    var _ :- reader.ExpectEnd();
    r := Ok(ToMint(base, later));
  }

  method DecodeMint(
      c: Codecs, payload: seq<Byte>, load: seq<Byte> -> Option<Batch>,
      rebuild: (nat, seq<Asset>) -> Option<MintCommitment>)
    returns (r: Result<MintAnchor, DecodeError>)
    ensures DecodeMintPayload(c, payload).Err? ==> r == Err(DecodeMintPayload(c, payload).error)
    ensures DecodeMintPayload(c, payload).Ok? ==> r == Restore(DecodeMintPayload(c, payload).value, load, rebuild)
  {
    var p :- TakeMint(c, payload);
    var loaded := load(p.batchKey);
    if loaded.None? {
      return Err(MissingBatch);
    }
    var commitment: Option<MintCommitment> := None;
    if p.commitmentVersion.Some? {
      commitment := rebuild(p.commitmentVersion.value, p.assets);
      if commitment.None? {
        return Err(RebuildFailed);
      }
    }
    var batch := loaded.value.(commitment := commitment, sprouted := p.assets);
    var seedlings := OverlayMetas(batch.seedlings, p.metas);
    r := Ok(MintAnchor(batch.(seedlings := seedlings), p.internalKey, p.groupReveals, p.delegationKey));
  }

  // ----- the writers -----

  lemma Appended2(buf: seq<Byte>, p: seq<Byte>, q: seq<Byte>)
    ensures buf + p + q == buf + (p + q)
  {
  }

  lemma Appended3(buf: seq<Byte>, p: seq<Byte>, q: seq<Byte>, r: seq<Byte>)
    ensures buf + p + q + r == buf + (p + (q + r))
  {
  }

  lemma Appended4(buf: seq<Byte>, p: seq<Byte>, q: seq<Byte>, r: seq<Byte>, s: seq<Byte>)
    ensures buf + p + q + r + s == buf + (p + (q + (r + s)))
  {
  }

  lemma Appended5(buf: seq<Byte>, p: seq<Byte>, q: seq<Byte>, r: seq<Byte>, s: seq<Byte>, t: seq<Byte>)
    ensures buf + p + q + r + s + t == buf + (p + (q + (r + (s + t))))
  {
    Appended4(buf, p, q, r, s);
    assert p + (q + (r + (s + t))) == (p + (q + (r + s))) + t;
  }

  method PutAll<T>(f: Field<T>, buf: seq<Byte>, xs: seq<T>) returns (r: seq<Byte>)
    ensures r == buf + WriteMany(f, xs)
  {
    r := buf + BigEndian(4, |xs|);
    for n := 0 to |xs|
      invariant r == buf + (BigEndian(4, |xs|) + WriteAll(f, xs[..n]))
    {
      assert xs[..n + 1][..n] == xs[..n];
      r := r + f.write(xs[n]);
    }
    assert xs[..|xs|] == xs;
  }

  method PutOpt<T>(f: Field<T>, buf: seq<Byte>, x: Option<T>) returns (r: seq<Byte>)
    ensures r == buf + WriteOpt(f, x)
  {
    match x {
      case Some(value) =>
        r := buf + [1];
        r := r + f.write(value);
      case None => r := buf + [0];
    }
  }

  lemma RecipientBytes(c: Codecs, x: Transfer)
    ensures RecipientLayout(c).write(FromTransfer(x).0) ==
      x.assetId + (BigEndian(8, x.amount) + (x.recipientScriptKey +
        (Point().write(x.recipientOutpoint) + WriteVarBytes(c.proof.encode(x.recipientSuffix)))))
  {
  }

  method PutRecipient(c: Codecs, buf: seq<Byte>, x: Transfer) returns (r: seq<Byte>)
    ensures r == buf + RecipientLayout(c).write(FromTransfer(x).0)
  {
    r := buf + x.assetId;
    r := r + BigEndian(8, x.amount);
    r := r + x.recipientScriptKey;
    r := r + Point().write(x.recipientOutpoint);
    r := r + WriteVarBytes(c.proof.encode(x.recipientSuffix));
    RecipientBytes(c, x);
    Appended5(buf, x.assetId, BigEndian(8, x.amount), x.recipientScriptKey,
              Point().write(x.recipientOutpoint), WriteVarBytes(c.proof.encode(x.recipientSuffix)));
  }

  lemma ChangeBytes(c: Codecs, x: Transfer)
    ensures ChangeLayout(c).write(FromTransfer(x).1.0) ==
      WriteOpt(Raw(33), x.changeScriptKey) + (WriteOpt(Point(), x.changeOutpoint) +
        (WriteOpt(Var(c.proof), x.changeSuffix) +
          (WriteOpt(Var(c.file), x.baseFile) + WriteOpt(Var(c.text), x.courierUrl))))
  {
  }

  method PutChange(c: Codecs, buf: seq<Byte>, x: Transfer) returns (r: seq<Byte>)
    ensures r == buf + ChangeLayout(c).write(FromTransfer(x).1.0)
  {
    r := PutOpt(Raw(33), buf, x.changeScriptKey);
    r := PutOpt(Point(), r, x.changeOutpoint);
    r := PutOpt(Var(c.proof), r, x.changeSuffix);
    r := PutOpt(Var(c.file), r, x.baseFile);
    r := PutOpt(Var(c.text), r, x.courierUrl);
    ChangeBytes(c, x);
    Appended5(buf, WriteOpt(Raw(33), x.changeScriptKey), WriteOpt(Point(), x.changeOutpoint),
              WriteOpt(Var(c.proof), x.changeSuffix), WriteOpt(Var(c.file), x.baseFile),
              WriteOpt(Var(c.text), x.courierUrl));
  }

  method EncodeTransferPayload(c: Codecs, x: Transfer) returns (buf: seq<Byte>)
    ensures buf == EncodeTransfer(c, x)
  {
    buf := [PAYLOAD_VERSION];
    buf := PutRecipient(c, buf, x);
    buf := PutChange(c, buf, x);
    buf := PutAll(PassiveField(c), buf, x.passive);
    ghost var parts := FromTransfer(x);
    Appended3([PAYLOAD_VERSION], RecipientLayout(c).write(parts.0), ChangeLayout(c).write(parts.1.0),
              WriteMany(PassiveField(c), x.passive));
  }

  method PutOutput(c: Codecs, buf: seq<Byte>, x: RootCommitment) returns (r: seq<Byte>)
    ensures r == buf + OutputLayout(c).write((x.txn, (x.txOutIdx, (x.internalKey, x.outputKey))))
  {
    r := buf + WriteVarBytes(c.tx.encode(x.txn));
    r := r + BigEndian(4, x.txOutIdx);
    r := r + x.internalKey;
    r := PutOpt(Raw(32), r, x.outputKey);
    Appended4(buf, WriteVarBytes(c.tx.encode(x.txn)), BigEndian(4, x.txOutIdx), x.internalKey,
              WriteOpt(Raw(32), x.outputKey));
  }

  method PutRoot(buf: seq<Byte>, x: RootCommitment) returns (r: seq<Byte>)
    ensures r == buf + RootLayout().write((x.supplyRootHash, (x.supplyRootSum, x.spentCommitment)))
  {
    r := buf + x.supplyRootHash;
    r := r + BigEndian(8, x.supplyRootSum);
    r := PutOpt(Point(), r, x.spentCommitment);
    Appended3(buf, x.supplyRootHash, BigEndian(8, x.supplyRootSum), WriteOpt(Point(), x.spentCommitment));
  }

  method EncodeSupplyCommitPayload(c: Codecs, x: SupplyCommit) returns (buf: seq<Byte>)
    ensures buf == EncodeSupply(c, x)
  {
    buf := [PAYLOAD_VERSION];
    buf := buf + x.groupKey;
    buf := PutOutput(c, buf, x.commitment);
    buf := PutRoot(buf, x.commitment);
    buf := PutAll(EventField(c), buf, x.events);
    ghost var parts := FromSupply(x);
    Appended4([PAYLOAD_VERSION], x.groupKey, OutputLayout(c).write(parts.1.0), RootLayout().write(parts.1.1.0),
              WriteMany(EventField(c), x.events));
  }

  method CollectMetas(seedlings: map<string, Option<MetaReveal>>, tags: seq<string>)
    returns (metas: seq<(string, MetaReveal)>)
    ensures metas == MetasOf(seedlings, tags)
  {
    metas := [];
    for n := 0 to |tags|
      invariant metas == MetasOf(seedlings, tags[..n])
    {
      assert tags[..n + 1][..n] == tags[..n];
      if tags[n] in seedlings && seedlings[tags[n]].Some? {
        metas := metas + [(tags[n], seedlings[tags[n]].value)];
      }
    }
    assert tags[..|tags|] == tags;
  }

  lemma BaseBytes(c: Codecs, x: MintPayload)
    ensures BaseLayout(c).write(BaseOf(x)) ==
      x.batchKey + (x.internalKey + (WriteOpt(CommitmentVersion(), x.commitmentVersion) +
        (WriteMany(Var(c.asset), x.assets) + WriteMany(Then(Var(c.text), Var(c.meta)), x.metas))))
  {
  }

  method PutBase(c: Codecs, buf: seq<Byte>, x: MintPayload) returns (r: seq<Byte>)
    ensures r == buf + BaseLayout(c).write(BaseOf(x))
  {
    r := buf + x.batchKey;
    r := r + x.internalKey;
    r := PutOpt(CommitmentVersion(), r, x.commitmentVersion);
    r := PutAll(Var(c.asset), r, x.assets);
    r := PutAll(Then(Var(c.text), Var(c.meta)), r, x.metas);
    BaseBytes(c, x);
    Appended5(buf, x.batchKey, x.internalKey, WriteOpt(CommitmentVersion(), x.commitmentVersion),
              WriteMany(Var(c.asset), x.assets), WriteMany(Then(Var(c.text), Var(c.meta)), x.metas));
  }

  method PutLater(c: Codecs, buf: seq<Byte>, x: MintPayload) returns (r: seq<Byte>)
    ensures r == buf + LaterLayout(c).write(LaterOf(x))
  {
    r := PutAll(Then(Var(c.text), Var(c.groupReveal)), buf, x.groupReveals);
    r := PutOpt(Raw(33), r, x.delegationKey);
    Appended2(buf, WriteMany(Then(Var(c.text), Var(c.groupReveal)), x.groupReveals),
              WriteOpt(Raw(33), x.delegationKey));
  }

  method PutMint(c: Codecs, x: MintPayload) returns (buf: seq<Byte>)
    ensures buf == EncodeMintPayload(c, x)
  {
    buf := [MINT_PAYLOAD_VERSION];
    buf := PutBase(c, buf, x);
    buf := PutLater(c, buf, x);
    Appended2([MINT_PAYLOAD_VERSION], BaseLayout(c).write(BaseOf(x)), LaterLayout(c).write(LaterOf(x)));
  }

  method EncodeMint(c: Codecs, m: MintAnchor, tags: seq<string>) returns (buf: seq<Byte>)
    ensures buf == EncodeMintPayload(c, PayloadOf(m, tags))
  {
    var metas := CollectMetas(m.batch.seedlings, tags);
    var version := if m.batch.commitment.Some? then Some(m.batch.commitment.value.version) else None;
    buf := PutMint(c, MintPayload(
      m.batch.key, m.internalKey, version, m.batch.sprouted, metas, m.groupReveals, m.delegationKey));
  }
}
