/** Universe leaf keys on the wire: the outpoint as display-order text, the script key without its parity byte. */
module LeafKeyWire {
  import opened Prelude
  import opened Bytes
  import opened ByteFields

  datatype LeafKey = LeafKey(outpoint: WirePoint, scriptKey: seq<Byte>)

  /** The widths of the types: a 32-byte hash, a 32-bit index, a 33-byte key. */
  predicate WellFormed(k: LeafKey) {
    |k.outpoint.txid| == 32 && k.outpoint.vout < U32_LIMIT && |k.scriptKey| == 33
  }

  datatype WireOutpoint = OpStr(text: string) | Op(hashStr: string, index: int)
  datatype WireScriptKey = KeyBytes(bytes: seq<Byte>) | KeyStr(text: string)
  datatype WireAssetKey = WireAssetKey(outpoint: Option<WireOutpoint>, scriptKey: Option<WireScriptKey>)

  datatype ConvertError =
    | MissingOutpoint
    | MalformedOutpoint
    | BadHex
    | BadLength(count: nat)
    | BadIndex
    | MissingScriptKey

  // ----- text -----

  function Reverse(s: seq<Byte>): seq<Byte> {
    if s == [] then [] else [s[|s| - 1]] + Reverse(s[..|s| - 1])
  }

  function Digit(v: nat): char
    requires v < 10
  {
    '0' + v as char
  }

  function Decimal(v: nat): string {
    if v < 10 then [Digit(v)] else Decimal(v / 10) + [Digit(v % 10)]
  }

  /** The number some decimal digits spell. */
  function DigitsValue(s: string): Option<nat> {
    if s == [] then Some(0)
    else if '0' <= s[|s| - 1] <= '9' && DigitsValue(s[..|s| - 1]).Some? then
      Some(10 * DigitsValue(s[..|s| - 1]).value + (s[|s| - 1] - '0') as nat)
    else None
  }

  /** Parsing an unsigned 32-bit integer: a plus sign is allowed, no digits or too large a value are not. */
  function ParseU32(s: string): Option<nat> {
    var digits := if s != [] && s[0] == '+' then s[1..] else s;
    var v := DigitsValue(digits);
    if digits == [] || v.None? || v.value >= U32_LIMIT then None else v
  }

  /** The text before and after the first colon. */
  function SplitAtColon(s: string): Option<(string, string)> {
    if s == [] then None
    else if s[0] == ':' then Some(([], s[1..]))
    else
      var rest := SplitAtColon(s[1..]);
      if rest.None? then None else Some(([s[0]] + rest.value.0, rest.value.1))
  }

  // ----- conversion -----

  function NormalizeUserKey(b: seq<Byte>): Result<seq<Byte>, ConvertError> {
    if |b| == 33 then Ok(b) else if |b| == 32 then Ok([2] + b) else Err(BadLength(|b|))
  }

  function TxidToText(txid: seq<Byte>): string {
    HexEncode(Reverse(txid))
  }

  function TxidFromText(s: string): Result<seq<Byte>, ConvertError> {
    var bytes := HexDecode(s);
    if bytes.Err? then Err(BadHex)
    else if |bytes.value| != 32 then Err(BadLength(|bytes.value|))
    else Ok(Reverse(bytes.value))
  }

  function LeafKeyToProto(k: LeafKey): WireAssetKey
    requires WellFormed(k)
  {
    WireAssetKey(Some(OpStr(TxidToText(k.outpoint.txid) + ":" + Decimal(k.outpoint.vout))),
             Some(KeyBytes(k.scriptKey[1..])))
  }

  function OutpointFromProto(o: WireOutpoint): Result<WirePoint, ConvertError> {
    match o
    case OpStr(text) =>
      (var parts := SplitAtColon(text);
       if parts.None? then Err(MalformedOutpoint)
       else
         var txid :- TxidFromText(parts.value.0);
         var vout := ParseU32(parts.value.1);
         if vout.None? then Err(BadIndex) else Ok(WirePoint(txid, vout.value)))
    case Op(hashStr, index) =>
      (var txid :- TxidFromText(hashStr);
       if index < 0 then Err(BadIndex) else Ok(WirePoint(txid, index)))
  }

  function LeafKeyFromProto(p: WireAssetKey): Result<LeafKey, ConvertError> {
    if p.outpoint.None? then Err(MissingOutpoint)
    else
      var outpoint :- OutpointFromProto(p.outpoint.value);
      if p.scriptKey.None? then Err(MissingScriptKey)
      else
        match p.scriptKey.value
        case KeyBytes(bytes) =>
          (var key :- NormalizeUserKey(bytes);
           Ok(LeafKey(outpoint, key)))
        case KeyStr(text) =>
          var bytes := HexDecode(text);
          if bytes.Err? then Err(BadHex)
          else
            var key :- NormalizeUserKey(bytes.value);
            Ok(LeafKey(outpoint, key))
  }

  // ----- round trips -----

  lemma {:induction false} ReverseLength(s: seq<Byte>)
    ensures |Reverse(s)| == |s|
    decreases |s|
  {
    if s != [] {
      ReverseLength(s[..|s| - 1]);
    }
  }

  lemma {:induction false} ReverseAt(s: seq<Byte>, i: nat)
    requires i < |s|
    ensures |Reverse(s)| == |s| && Reverse(s)[i] == s[|s| - 1 - i]
    decreases |s|
  {
    ReverseLength(s);
    ReverseLength(s[..|s| - 1]);
    if i > 0 {
      ReverseAt(s[..|s| - 1], i - 1);
    }
  }

  lemma ReverseTwice(s: seq<Byte>)
    ensures Reverse(Reverse(s)) == s
  {
    ReverseLength(s);
    ReverseLength(Reverse(s));
    forall i | 0 <= i < |s|
      ensures Reverse(Reverse(s))[i] == s[i]
    {
      ReverseAt(Reverse(s), i);
      ReverseAt(s, |s| - 1 - i);
    }
  }

  lemma TxidRoundTrip(txid: seq<Byte>)
    requires |txid| == 32
    ensures TxidFromText(TxidToText(txid)) == Ok(txid)
  {
    ReverseLength(txid);
    HexRoundTrip(Reverse(txid));
    ReverseTwice(txid);
  }

  lemma {:induction false} DecimalSpells(v: nat)
    ensures DigitsValue(Decimal(v)) == Some(v) && Decimal(v) != [] && '0' <= Decimal(v)[0] <= '9'
    decreases v
  {
    if v < 10 {
      assert [Digit(v)][..0] == [];
    } else {
      DecimalSpells(v / 10);
      var s := Decimal(v);
      assert s[..|s| - 1] == Decimal(v / 10) && s[0] == Decimal(v / 10)[0];
    }
  }

  lemma {:induction false} HexHasNoColon(b: seq<Byte>)
    ensures ':' !in HexEncode(b)
    decreases |b|
  {
    if b != [] {
      HexHasNoColon(b[..|b| - 1]);
    }
  }

  lemma {:induction false} SplitsAtColon(a: string, b: string)
    requires ':' !in a
    ensures SplitAtColon(a + ":" + b) == Some((a, b))
    decreases |a|
  {
    var s := a + ":" + b;
    if a == [] {
      assert s == [':'] + b;
    } else {
      SplitsAtColon(a[1..], b);
      assert a[0] in a && a == [a[0]] + a[1..];
      assert s[0] == a[0] && s[1..] == a[1..] + ":" + b;
    }
  }

  /** What a leaf key is after travelling: the same outpoint and x coordinate, with even parity. */
  function Received(k: LeafKey): LeafKey
    requires WellFormed(k)
  {
    k.(scriptKey := [2] + k.scriptKey[1..])
  }

  lemma LeafKeyTravels(k: LeafKey)
    requires WellFormed(k)
    ensures LeafKeyFromProto(LeafKeyToProto(k)) == Ok(Received(k))
    ensures WellFormed(Received(k)) && Received(Received(k)) == Received(k)
  {
    var txid, vout := TxidToText(k.outpoint.txid), Decimal(k.outpoint.vout);
    HexHasNoColon(Reverse(k.outpoint.txid));
    SplitsAtColon(txid, vout);
    TxidRoundTrip(k.outpoint.txid);
    DecimalSpells(k.outpoint.vout);
    assert ([2] + k.scriptKey[1..])[1..] == k.scriptKey[1..];
  }

  /** A leaf key comes back as it was exactly when its script key has even parity. */
  lemma LeafKeyRoundTripsIff(k: LeafKey)
    requires WellFormed(k)
    ensures LeafKeyFromProto(LeafKeyToProto(k)) == Ok(k) <==> k.scriptKey[0] == 2
  {
    LeafKeyTravels(k);
    assert k.scriptKey == [k.scriptKey[0]] + k.scriptKey[1..];
  }

  /** A key accepted in any of the four wire forms travels unchanged from then on, up to parity. */
  lemma AcceptedKeysAreWellFormed(p: WireAssetKey)
    requires LeafKeyFromProto(p).Ok?
    requires p.outpoint.Some? && p.outpoint.value.Op? ==> p.outpoint.value.index < U32_LIMIT / 2
    ensures WellFormed(LeafKeyFromProto(p).value)
    ensures LeafKeyFromProto(LeafKeyToProto(LeafKeyFromProto(p).value)) == Ok(Received(LeafKeyFromProto(p).value))
  {
    var k := LeafKeyFromProto(p).value;
    match p.outpoint.value {
      case OpStr(text) => ReverseLength(HexDecode(SplitAtColon(text).value.0).value);
      case Op(hashStr, _) => ReverseLength(HexDecode(hashStr).value);
    }
    LeafKeyTravels(k);
  }
}
