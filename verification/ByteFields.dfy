/** Bytes fields of the JSON gateway: hex, base64 in both alphabets with or without padding, and the choice between. */
module ByteFields {
  import opened Prelude
  import opened Bytes

  datatype TextError = OddLength | InvalidDigit | InvalidCharacter | TrailingBits | NeitherForm | Panic

  // ----- hex -----

  function HexDigit(c: char): Option<nat> {
    if '0' <= c <= '9' then Some((c - '0') as nat)
    else if 'a' <= c <= 'f' then Some((c - 'a') as nat + 10)
    else if 'A' <= c <= 'F' then Some((c - 'A') as nat + 10)
    else None
  }

  /** Two characters read as a number in base 16; a leading plus sign is a sign. */
  function HexPair(a: char, b: char): Option<Byte> {
    if HexDigit(b).None? then None
    else if a == '+' then Some(HexDigit(b).value)
    else if HexDigit(a).None? then None
    else Some(16 * HexDigit(a).value + HexDigit(b).value)
  }

  function HexDecode(s: string): Result<seq<Byte>, TextError> {
    if |s| % 2 != 0 then Err(OddLength) else HexPairs(s)
  }

  function HexPairs(s: string): Result<seq<Byte>, TextError>
    requires |s| % 2 == 0
  {
    if s == [] then Ok([])
    else
      var front :- HexPairs(s[..|s| - 2]);
      var last := HexPair(s[|s| - 2], s[|s| - 1]);
      if last.None? then Err(InvalidDigit) else Ok(front + [last.value])
  }

  function HexChar(v: nat): char
    requires v < 16
  {
    if v < 10 then '0' + v as char else 'a' + (v - 10) as char
  }

  function HexEncode(b: seq<Byte>): string {
    if b == [] then []
    else HexEncode(b[..|b| - 1]) + [HexChar(b[|b| - 1] / 16), HexChar(b[|b| - 1] % 16)]
  }

  lemma {:induction false} HexRoundTrip(b: seq<Byte>)
    ensures |HexEncode(b)| == 2 * |b| && HexDecode(HexEncode(b)) == Ok(b)
    decreases |b|
  {
    if b != [] {
      var front, last := b[..|b| - 1], b[|b| - 1];
      HexRoundTrip(front);
      var s := HexEncode(b);
      assert s[..|s| - 2] == HexEncode(front);
      assert s[|s| - 2] == HexChar(last / 16) && s[|s| - 1] == HexChar(last % 16);
      assert HexPair(HexChar(last / 16), HexChar(last % 16)) == Some(last);
      assert b == front + [last];
    }
  }

  /** Hex decodes exactly to the bytes its pairs of characters stand for. */
  lemma {:induction false} HexPairsIff(s: string, b: seq<Byte>)
    requires |s| % 2 == 0
    ensures HexPairs(s) == Ok(b) <==>
      |s| == 2 * |b| && forall i :: 0 <= i < |b| ==> HexPair(s[2 * i], s[2 * i + 1]) == Some(b[i])
    decreases |s|
  {
    if s != [] && b != [] {
      var front, last := b[..|b| - 1], b[|b| - 1];
      assert b == front + [last];
      HexPairsIff(s[..|s| - 2], front);
      if |s| == 2 * |b| {
        assert 2 * (|b| - 1) == |s| - 2;
        assert forall i :: 0 <= i < |front| ==>
          s[..|s| - 2][2 * i] == s[2 * i] && s[..|s| - 2][2 * i + 1] == s[2 * i + 1];
      }
      if HexPairs(s) == Ok(b) {
        assert HexPairs(s[..|s| - 2]) == Ok(front);
      }
    }
  }

  // ----- hex over any text: the source walks it two bytes at a time -----

  /** How many bytes a character takes in UTF-8. */
  function Width(c: char): nat {
    if c as int < 0x80 then 1 else if c as int < 0x800 then 2 else if c as int < 0x1_0000 then 3 else 4
  }

  function ByteLength(s: string): nat {
    if s == [] then 0 else Width(s[0]) + ByteLength(s[1..])
  }

  /** Slicing a text inside a character is not an error value: it stops the program. */
  datatype Walk = Decoded(bytes: seq<Byte>) | Refused(error: TextError) | Panicked

  function HexWalk(s: string): Walk {
    if s == [] then Decoded([])
    else if Width(s[0]) == 2 then Refused(InvalidDigit)
    else if Width(s[0]) > 2 then Panicked
    else if |s| == 1 then Refused(OddLength)
    else if Width(s[1]) > 1 then Panicked
    else
      match HexPair(s[0], s[1])
      case None => Refused(InvalidDigit)
      case Some(b) =>
        match HexWalk(s[2..])
        case Decoded(bytes) => Decoded([b] + bytes)
        case other => other
  }

  function HexAsRead(s: string): Walk {
    if ByteLength(s) % 2 != 0 then Refused(OddLength) else HexWalk(s)
  }

  /** Characters that make a hex digit pair take one byte each. */
  lemma PairIsAscii(a: char, b: char)
    requires HexPair(a, b).Some?
    ensures Width(a) == 1 && Width(b) == 1
  {
  }

  lemma {:induction false} HexWalkIff(s: string, b: seq<Byte>)
    ensures HexWalk(s) == Decoded(b) <==>
      |s| == 2 * |b| && forall i :: 0 <= i < |b| ==> HexPair(s[2 * i], s[2 * i + 1]) == Some(b[i])
    ensures HexWalk(s) == Decoded(b) ==> ByteLength(s) == |s|
    decreases |s|
  {
    if |s| >= 2 && b != [] {
      HexWalkIff(s[2..], b[1..]);
      assert b == [b[0]] + b[1..];
      assert ByteLength(s) == Width(s[0]) + ByteLength(s[1..]) && s[1..][1..] == s[2..];
      if |s| == 2 * |b| {
        if HexPair(s[0], s[1]) == Some(b[0]) {
          PairIsAscii(s[0], s[1]);
          PairsFromSecond(s, b);
        } else {
          assert HexPair(s[2 * 0], s[2 * 0 + 1]) != Some(b[0]);
        }
      }
    }
  }

  lemma PairsFromSecond(s: string, b: seq<Byte>)
    requires |s| == 2 * |b| && b != [] && HexPair(s[0], s[1]) == Some(b[0])
    ensures (forall i :: 0 <= i < |b| ==> HexPair(s[2 * i], s[2 * i + 1]) == Some(b[i])) <==>
      forall i :: 0 <= i < |b[1..]| ==> HexPair(s[2..][2 * i], s[2..][2 * i + 1]) == Some(b[1..][i])
  {
    if forall i :: 0 <= i < |b[1..]| ==> HexPair(s[2..][2 * i], s[2..][2 * i + 1]) == Some(b[1..][i]) {
      forall i | 0 <= i < |b|
        ensures HexPair(s[2 * i], s[2 * i + 1]) == Some(b[i])
      {
        if i > 0 {
          assert HexPair(s[2..][2 * (i - 1)], s[2..][2 * (i - 1) + 1]) == Some(b[1..][i - 1]);
        }
      }
    }
    if forall i :: 0 <= i < |b| ==> HexPair(s[2 * i], s[2 * i + 1]) == Some(b[i]) {
      forall i | 0 <= i < |b[1..]|
        ensures HexPair(s[2..][2 * i], s[2..][2 * i + 1]) == Some(b[1..][i])
      {
        assert HexPair(s[2 * (i + 1)], s[2 * (i + 1) + 1]) == Some(b[i + 1]);
      }
    }
  }

  /** On every text, beyond ASCII too, the walk yields bytes exactly when the pairs of characters do. */
  lemma HexAsReadIff(s: string, b: seq<Byte>)
    ensures HexAsRead(s) == Decoded(b) <==> HexDecode(s) == Ok(b)
  {
    HexWalkIff(s, b);
    if |s| % 2 == 0 {
      HexPairsIff(s, b);
    }
  }

  /** The pairs before place `n` are hex, and the two bytes after them end inside a character. */
  ghost predicate SplitsAt(s: string, n: nat)
    requires 2 * n < |s|
  {
    && (forall i :: 0 <= i < n ==> HexPair(s[2 * i], s[2 * i + 1]).Some?)
    && (Width(s[2 * n]) > 2 || (Width(s[2 * n]) == 1 && 2 * n + 1 < |s| && Width(s[2 * n + 1]) > 1))
  }

  /** Exactly when the walk panics: hex pairs, and then a character that the next two bytes cut. */
  lemma {:induction false} HexWalkPanicsIff(s: string)
    ensures HexWalk(s).Panicked? <==> exists n :: 0 <= 2 * n < |s| && SplitsAt(s, n)
    decreases |s|
  {
    if |s| >= 2 && HexPair(s[0], s[1]).Some? {
      PairIsAscii(s[0], s[1]);
      HexWalkPanicsIff(s[2..]);
      if n :| 0 <= 2 * n < |s[2..]| && SplitsAt(s[2..], n) {
        SplitsLater(s, n + 1);
        assert SplitsAt(s, n + 1);
      }
      if n :| 0 <= 2 * n < |s| && SplitsAt(s, n) {
        assert n > 0;
        SplitsLater(s, n);
        assert SplitsAt(s[2..], n - 1);
      }
    } else if s != [] {
      assert |s| >= 2 ==> HexPair(s[2 * 0], s[2 * 0 + 1]) == HexPair(s[0], s[1]);
      if HexWalk(s).Panicked? {
        assert SplitsAt(s, 0);
      }
    }
  }

  lemma SplitsLater(s: string, n: nat)
    requires 0 < n && 2 * n < |s| && HexPair(s[0], s[1]).Some?
    ensures SplitsAt(s, n) <==> SplitsAt(s[2..], n - 1)
  {
    if SplitsAt(s[2..], n - 1) {
      forall i | 0 <= i < n
        ensures HexPair(s[2 * i], s[2 * i + 1]).Some?
      {
        if i > 0 {
          assert HexPair(s[2..][2 * (i - 1)], s[2..][2 * (i - 1) + 1]).Some?;
        }
      }
    }
    if SplitsAt(s, n) {
      forall i | 0 <= i < n - 1
        ensures HexPair(s[2..][2 * i], s[2..][2 * i + 1]).Some?
      {
        assert HexPair(s[2 * (i + 1)], s[2 * (i + 1) + 1]).Some?;
      }
    }
  }

  /** For instance the text a, e with acute accent, b: four bytes, cut inside the second character. */
  lemma PanicWitness()
    ensures HexAsRead("a\U{e9}b").Panicked?
  {
    var s := "a\U{e9}b";
    assert s[1..] == "\U{e9}b" && s[1..][1..] == "b" && s[1..][1..][1..] == "";
    assert ByteLength("b") == 1;
    assert ByteLength("\U{e9}b") == 3;
    assert ByteLength(s) == 4;
  }

  // ----- base64 -----

  function Sextet(c: char): Option<nat> {
    if 'A' <= c <= 'Z' then Some((c - 'A') as nat)
    else if 'a' <= c <= 'z' then Some((c - 'a') as nat + 26)
    else if '0' <= c <= '9' then Some((c - '0') as nat + 52)
    else if c == '+' || c == '-' then Some(62)
    else if c == '/' || c == '_' then Some(63)
    else None
  }

  predicate InAlphabet(s: string) {
    forall i :: 0 <= i < |s| ==> Sextet(s[i]).Some?
  }

  function Trim(s: string): string {
    if s != [] && s[|s| - 1] == '=' then Trim(s[..|s| - 1]) else s
  }

  function ShiftLeft(x: nat, n: nat): nat {
    if n == 0 then x else 2 * ShiftLeft(x, n - 1)
  }

  function ShiftRight(x: nat, n: nat): nat {
    if n == 0 then x else ShiftRight(x / 2, n - 1)
  }

  /** The low `n` bits. */
  function LowBits(x: nat, n: nat): nat {
    if n == 0 then 0 else 2 * LowBits(x / 2, n - 1) + x % 2
  }

  lemma {:induction false} HighAndLow(x: nat, n: nat)
    ensures x == ShiftLeft(ShiftRight(x, n), n) + LowBits(x, n)
    ensures LowBits(x, n) < ShiftLeft(1, n)
    decreases n
  {
    if n > 0 {
      HighAndLow(x / 2, n - 1);
    }
  }

  /** The number a text spells in base 64. */
  function Value64(s: string): nat
    requires InAlphabet(s)
  {
    if s == [] then 0 else 64 * Value64(s[..|s| - 1]) + Sextet(s[|s| - 1]).value
  }

  /**
   * What base64 text means: its characters are in the alphabet, and their bits are the bits of the bytes followed by
   * fewer than six zero bits.
   */
  ghost predicate Spells(s: string, b: seq<Byte>) {
    && InAlphabet(s)
    && 8 * |b| <= 6 * |s| < 8 * |b| + 6
    && Value64(s) == ShiftLeft(Value(b), 6 * |s| - 8 * |b|)
  }

  /** The state of the decoding loop after some characters: whole bytes out, fewer than eight bits held back. */
  ghost predicate Spelled(s: string, out: seq<Byte>, buf: nat, bits: nat) {
    && InAlphabet(s)
    && (bits == 0 || bits == 2 || bits == 4 || bits == 6)
    && 6 * |s| == 8 * |out| + bits
    && buf < ShiftLeft(1, bits)
    && Value64(s) == ShiftLeft(Value(out), bits) + buf
  }

  lemma SmallShifts(x: nat)
    ensures ShiftLeft(x, 0) == x && ShiftLeft(x, 2) == 4 * x && ShiftLeft(x, 4) == 16 * x && ShiftLeft(x, 6) == 64 * x
  {
    assert ShiftLeft(x, 1) == 2 * x;
    assert ShiftLeft(x, 2) == 4 * x;
    assert ShiftLeft(x, 3) == 8 * x;
    assert ShiftLeft(x, 4) == 16 * x;
    assert ShiftLeft(x, 5) == 32 * x;
  }

  lemma Appended(s: string, c: char, out: seq<Byte>, b: Byte)
    requires InAlphabet(s) && Sextet(c).Some?
    ensures InAlphabet(s + [c]) && Value64(s + [c]) == 64 * Value64(s) + Sextet(c).value
    ensures Value(out + [b]) == 256 * Value(out) + b
  {
    assert (s + [c])[..|s|] == s;
    assert (out + [b])[..|out|] == out;
  }

  lemma FirstBits(s: string, c: char, out: seq<Byte>, buf: nat)
    requires Spelled(s, out, buf, 0) && Sextet(c).Some?
    ensures Spelled(s + [c], out, 64 * buf + Sextet(c).value, 6)
  {
    SmallShifts(1);
    SmallShifts(Value(out));
    Appended(s, c, out, 0);
  }

  /** Six more bits on top of two, four or six: the upper eight go out, the lower ones stay. */
  lemma NextBits(s: string, c: char, out: seq<Byte>, buf: nat, bits: nat, high: Byte, low: nat)
    requires Spelled(s, out, buf, bits) && Sextet(c).Some? && bits >= 2
    requires low < ShiftLeft(1, bits - 2) && 64 * buf + Sextet(c).value == ShiftLeft(high, bits - 2) + low
    ensures Spelled(s + [c], out + [high], low, bits - 2)
  {
    SmallShifts(Value(out));
    SmallShifts(high);
    Appended(s, c, out, high);
    SmallShifts(256 * Value(out) + high);
  }

  lemma UpperByte(buf: nat, v: nat, bits: nat)
    requires (bits == 2 || bits == 4 || bits == 6) && buf < ShiftLeft(1, bits) && v < 64
    ensures var wide := 64 * buf + v;
      && ShiftRight(wide, bits - 2) < 256
      && LowBits(wide, bits - 2) < ShiftLeft(1, bits - 2)
      && wide == ShiftLeft(ShiftRight(wide, bits - 2), bits - 2) + LowBits(wide, bits - 2)
  {
    var wide := 64 * buf + v;
    HighAndLow(wide, bits - 2);
    SmallShifts(1);
    SmallShifts(ShiftRight(wide, bits - 2));
  }

  /** The loop's variables: the bytes out, and the bits held back with their number. */
  datatype Held = Held(out: seq<Byte>, buf: nat, bits: nat)

  /** One turn of the loop. */
  function Feed(h: Held, v: nat): Held {
    var buf, bits := 64 * h.buf + v, h.bits + 6;
    if bits < 8 then Held(h.out, buf, bits)
    else Held(h.out + [ShiftRight(buf, bits - 8) % 256], LowBits(buf, bits - 8), bits - 8)
  }

  function FeedAll(s: string): Held
    requires InAlphabet(s)
  {
    if s == [] then Held([], 0, 0) else Feed(FeedAll(s[..|s| - 1]), Sextet(s[|s| - 1]).value)
  }

  lemma FeedIs(h: Held, v: nat)
    requires v < 64 && h.buf < ShiftLeft(1, h.bits)
    requires h.bits == 0 || h.bits == 2 || h.bits == 4 || h.bits == 6
    ensures h.bits == 0 ==> Feed(h, v) == Held(h.out, 64 * h.buf + v, 6)
    ensures h.bits > 0 ==>
      var wide, bits := 64 * h.buf + v, h.bits - 2;
      ShiftRight(wide, bits) < 256 && Feed(h, v) == Held(h.out + [ShiftRight(wide, bits)], LowBits(wide, bits), bits)
  {
    if h.bits > 0 {
      UpperByte(h.buf, v, h.bits);
    }
  }

  lemma NextByte(s: string, c: char, out: seq<Byte>, buf: nat, bits: nat)
    requires Spelled(s, out, buf, bits) && Sextet(c).Some? && bits > 0
    requires ShiftRight(64 * buf + Sextet(c).value, bits - 2) < 256
    ensures var wide := 64 * buf + Sextet(c).value;
      Spelled(s + [c], out + [ShiftRight(wide, bits - 2)], LowBits(wide, bits - 2), bits - 2)
  {
    var wide := 64 * buf + Sextet(c).value;
    UpperByte(buf, Sextet(c).value, bits);
    NextBits(s, c, out, buf, bits, ShiftRight(wide, bits - 2), LowBits(wide, bits - 2));
  }

  lemma FeedKeeps(s: string, c: char, h: Held)
    requires Spelled(s, h.out, h.buf, h.bits) && Sextet(c).Some?
    ensures var h' := Feed(h, Sextet(c).value); Spelled(s + [c], h'.out, h'.buf, h'.bits)
  {
    FeedIs(h, Sextet(c).value);
    if h.bits == 0 {
      FirstBits(s, c, h.out, h.buf);
    } else {
      NextByte(s, c, h.out, h.buf, h.bits);
    }
  }

  lemma {:induction false} FedIsDecoded(s: string)
    requires InAlphabet(s)
    ensures var h := FeedAll(s); Spelled(s, h.out, h.buf, h.bits)
    decreases |s|
  {
    if s != [] {
      FedIsDecoded(s[..|s| - 1]);
      assert s == s[..|s| - 1] + [s[|s| - 1]];
      FeedKeeps(s[..|s| - 1], s[|s| - 1], FeedAll(s[..|s| - 1]));
    }
  }

  /** Whether the text decodes, and to what, is settled by what it spells. */
  lemma EndOfText(s: string, out: seq<Byte>, buf: nat, bits: nat, b: seq<Byte>)
    requires Spelled(s, out, buf, bits)
    ensures Spells(s, b) <==> bits < 6 && buf == 0 && b == out
  {
    SmallShifts(1);
    SmallShifts(Value(out));
    SmallShifts(Value(b));
    if Spells(s, b) {
      assert |b| == |out| && bits < 6 && Value(b) == Value(out);
      BigEndianOfValue(b);
      BigEndianOfValue(out);
    }
  }

  lemma AllLow(x: nat, n: nat)
    requires x < ShiftLeft(1, n)
    ensures LowBits(x, n) == x
    decreases n
  {
    if n > 0 {
      AllLow(x / 2, n - 1);
    }
  }

  lemma EndOfLoop(s: string)
    requires InAlphabet(s)
    ensures var h := FeedAll(s);
      if h.bits >= 6 || LowBits(h.buf, h.bits) != 0 then forall b :: !Spells(s, b) else Spells(s, h.out)
  {
    FedIsDecoded(s);
    var h := FeedAll(s);
    AllLow(h.buf, h.bits);
    forall b
      ensures Spells(s, b) <==> h.bits < 6 && h.buf == 0 && b == h.out
    {
      EndOfText(s, h.out, h.buf, h.bits, b);
    }
  }

  /** Decoding accepts a text exactly when it spells bytes after its padding is dropped, and returns those bytes. */
  method Base64Decode(s: string) returns (r: Result<seq<Byte>, TextError>)
    ensures r.Ok? ==> Spells(Trim(s), r.value)
    ensures r.Err? ==> forall b :: !Spells(Trim(s), b)
    ensures r == Err(InvalidCharacter) <==> !InAlphabet(Trim(s))
  {
    var trimmed := Trim(s);
    var out: seq<Byte> := [];
    var buf: nat, bits: nat := 0, 0;
    for n := 0 to |trimmed|
      invariant InAlphabet(trimmed[..n]) && FeedAll(trimmed[..n]) == Held(out, buf, bits)
    {
      var c := trimmed[n];
      if Sextet(c).None? {
        return Err(InvalidCharacter);
      }
      assert trimmed[..n + 1][..n] == trimmed[..n];
      buf := 64 * buf + Sextet(c).value;
      bits := bits + 6;
      if bits >= 8 {
        bits := bits - 8;
        out := out + [ShiftRight(buf, bits) % 256];
        buf := LowBits(buf, bits);
      }
    }
    assert trimmed[..|trimmed|] == trimmed;
    EndOfLoop(trimmed);
    if bits >= 6 || LowBits(buf, bits) != 0 {
      return Err(TrailingBits);
    }
    r := Ok(out);
  }

  /** A text spells at most one string of bytes. */
  lemma SpellsOne(s: string, b: seq<Byte>, b': seq<Byte>)
    requires Spells(s, b) && Spells(s, b')
    ensures b == b'
  {
    FedIsDecoded(s);
    var h := FeedAll(s);
    EndOfText(s, h.out, h.buf, h.bits, b);
    EndOfText(s, h.out, h.buf, h.bits, b');
  }

  // ----- the encoder of RFC 4648, section 4 and section 5 -----

  function Letter(v: nat, urlSafe: bool): char
    requires v < 64
  {
    if v < 26 then 'A' + v as char
    else if v < 52 then 'a' + (v - 26) as char
    else if v < 62 then '0' + (v - 52) as char
    else if v == 62 then (if urlSafe then '-' else '+')
    else if urlSafe then '_' else '/'
  }

  lemma LetterIs(v: nat, urlSafe: bool)
    requires v < 64
    ensures Sextet(Letter(v, urlSafe)) == Some(v)
  {
    if v < 26 {
    } else if v < 52 {
    } else if v < 62 {
    }
  }

  function Letters(count: nat, v: nat, urlSafe: bool): string {
    if count == 0 then [] else Letters(count - 1, v / 64, urlSafe) + [Letter(v % 64, urlSafe)]
  }

  /** As many letters as hold the bits, which are filled up with zero bits on the right. */
  function Base64Encode(b: seq<Byte>, urlSafe: bool): string {
    var count := (8 * |b| + 5) / 6;
    Letters(count, ShiftLeft(Value(b), 6 * count - 8 * |b|), urlSafe)
  }

  function Padding(n: nat): string {
    if n == 0 then [] else Padding(n - 1) + ['=']
  }

  lemma {:induction false} LettersSpell(count: nat, v: nat, urlSafe: bool)
    requires v < ShiftLeft(1, 6 * count)
    ensures |Letters(count, v, urlSafe)| == count
    ensures InAlphabet(Letters(count, v, urlSafe)) && Value64(Letters(count, v, urlSafe)) == v
    decreases count
  {
    if count > 0 {
      SixtyFour(count - 1);
      LettersSpell(count - 1, v / 64, urlSafe);
      LetterIs(v % 64, urlSafe);
      var s := Letters(count, v, urlSafe);
      assert s[..|s| - 1] == Letters(count - 1, v / 64, urlSafe);
    }
  }

  lemma SixtyFour(n: nat)
    ensures ShiftLeft(1, 6 * (n + 1)) == 64 * ShiftLeft(1, 6 * n)
  {
    ShiftTwice(1, 6 * n, 6);
    SmallShifts(ShiftLeft(1, 6 * n));
  }

  lemma {:induction false} ShiftTwice(x: nat, m: nat, n: nat)
    ensures ShiftLeft(ShiftLeft(x, m), n) == ShiftLeft(x, m + n)
    decreases n
  {
    if n > 0 {
      ShiftTwice(x, m, n - 1);
    }
  }

  lemma {:induction false} ShiftBelow(x: nat, y: nat, n: nat)
    requires x < y
    ensures ShiftLeft(x, n) < ShiftLeft(y, n)
    decreases n
  {
    if n > 0 {
      ShiftBelow(x, y, n - 1);
    }
  }

  lemma {:induction false} LimitIsShift(n: nat)
    ensures Limit(n) == ShiftLeft(1, 8 * n)
    decreases n
  {
    if n > 0 {
      LimitIsShift(n - 1);
      ShiftTwice(1, 8 * (n - 1), 8);
      SmallShifts(ShiftLeft(1, 8 * (n - 1)));
      ShiftTwice(ShiftLeft(1, 8 * (n - 1)), 6, 2);
      SmallShifts(64 * ShiftLeft(1, 8 * (n - 1)));
    }
  }

  lemma EncodingSpells(b: seq<Byte>, urlSafe: bool)
    ensures Spells(Base64Encode(b, urlSafe), b)
  {
    var count := (8 * |b| + 5) / 6;
    var k := 6 * count - 8 * |b|;
    BigEndianOfValue(b);
    LimitIsShift(|b|);
    ShiftBelow(Value(b), Limit(|b|), k);
    ShiftTwice(1, 8 * |b|, k);
    LettersSpell(count, ShiftLeft(Value(b), k), urlSafe);
  }

  lemma {:induction false} TrimPadding(s: string, n: nat)
    requires s == [] || s[|s| - 1] != '='
    ensures Trim(s + Padding(n)) == s
    decreases n
  {
    if n == 0 {
      assert s + [] == s;
    } else {
      var t := s + Padding(n);
      assert t[..|t| - 1] == s + Padding(n - 1);
      TrimPadding(s, n - 1);
    }
  }

  /** Bytes in either alphabet, with any amount of padding, come back. */
  lemma Base64RoundTrip(b: seq<Byte>, urlSafe: bool, padding: nat)
    ensures Spells(Trim(Base64Encode(b, urlSafe) + Padding(padding)), b)
  {
    EncodingSpells(b, urlSafe);
    var s := Base64Encode(b, urlSafe);
    assert s != [] ==> Sextet(s[|s| - 1]).Some?;
    TrimPadding(s, padding);
  }

  // ----- the choice between hex and base64 -----

  ghost predicate Reads(s: string, b: seq<Byte>) {
    HexDecode(s) == Ok(b) || Spells(Trim(s), b)
  }

  predicate Matches(b: seq<Byte>, expected: Option<nat>) {
    expected.Some? ==> |b| == expected.value
  }

  /** A reading of the expected length, or that there is none; it panics where the hex walk does. */
  method DecodeBytesField(s: string, expected: Option<nat>) returns (r: Result<seq<Byte>, TextError>)
    ensures r == Err(Panic) <==> HexAsRead(s).Panicked?
    ensures r.Ok? ==> Reads(s, r.value) && Matches(r.value, expected)
    ensures r.Err? && r.error != Panic ==> forall b :: Reads(s, b) ==> !Matches(b, expected)
    ensures HexDecode(s).Ok? && Matches(HexDecode(s).value, expected) ==> r == HexDecode(s)
  {
    var hex := HexAsRead(s);
    if hex.Decoded? {
      HexAsReadIff(s, hex.bytes);
    } else if HexDecode(s).Ok? {
      HexAsReadIff(s, HexDecode(s).value);
    }
    if hex.Panicked? {
      return Err(Panic);
    }
    if hex.Decoded? && Matches(hex.bytes, expected) {
      return Ok(hex.bytes);
    }
    var base64 := Base64Decode(s);
    if base64.Ok? {
      forall b | Spells(Trim(s), b)
        ensures b == base64.value
      {
        SpellsOne(Trim(s), b, base64.value);
      }
      if Matches(base64.value, expected) {
        return base64;
      }
    }
    r := Err(NeitherForm);
  }

  lemma HexHasNoPadding(s: string, b: seq<Byte>)
    requires HexDecode(s) == Ok(b)
    ensures Trim(s) == s && |s| == 2 * |b|
  {
    HexPairsIff(s, b);
    if s != [] {
      assert HexPair(s[2 * (|b| - 1)], s[2 * (|b| - 1) + 1]).Some?;
    }
  }

  /** A text of two bytes or more is never hex and base64 for the same number of bytes. */
  lemma OneReading(s: string, b: seq<Byte>, b': seq<Byte>)
    requires HexDecode(s) == Ok(b) && |b| == |b'| && |b| >= 2
    ensures !Spells(Trim(s), b')
  {
    HexHasNoPadding(s, b);
  }

  /** So with an expected length of two or more, the text has at most one reading of that length. */
  lemma ReadingIsUnique(s: string, b: seq<Byte>, b': seq<Byte>)
    requires Reads(s, b) && Reads(s, b') && |b| == |b'| && |b| != 1
    ensures b == b'
  {
    if HexDecode(s) == Ok(b) {
      if |b| >= 2 {
        OneReading(s, b, b');
      }
    } else if HexDecode(s) == Ok(b') {
      if |b| >= 2 {
        OneReading(s, b', b);
      }
    } else {
      SpellsOne(Trim(s), b, b');
    }
  }

  /** So a field of known length, two bytes or more, gives back the bytes whichever way they were written. */
  lemma FieldRecovers(b: seq<Byte>, urlSafe: bool, padding: nat, other: seq<Byte>)
    requires |b| != 1 && |other| == |b|
    ensures Reads(HexEncode(b), other) <==> other == b
    ensures Reads(Base64Encode(b, urlSafe) + Padding(padding), other) <==> other == b
  {
    HexRoundTrip(b);
    Base64RoundTrip(b, urlSafe, padding);
    if Reads(HexEncode(b), other) {
      ReadingIsUnique(HexEncode(b), b, other);
    }
    if Reads(Base64Encode(b, urlSafe) + Padding(padding), other) {
      ReadingIsUnique(Base64Encode(b, urlSafe) + Padding(padding), b, other);
    }
  }

  /** One byte is the exception: text that is hex for one byte is also base64 for one exactly when it ends in A. */
  lemma OneByteClashIff(s: string, b: Byte, b': Byte)
    requires HexDecode(s) == Ok([b])
    ensures Spells(Trim(s), [b']) <==> s[1] == 'A' && Sextet(s[0]) == Some(b' / 4) && b' % 4 == 0
  {
    HexHasNoPadding(s, [b]);
    HexPairsIff(s, [b]);
    assert HexPair(s[2 * 0], s[2 * 0 + 1]) == Some(b);
    assert s == [s[0], s[1]];
    TwoLetters(s[0], s[1], b');
    LastLetterOfHex(s[0], s[1], b');
  }

  lemma TwoLetters(a: char, c: char, b: Byte)
    ensures Spells([a, c], [b]) <==>
      Sextet(a).Some? && Sextet(c).Some? && 64 * Sextet(a).value + Sextet(c).value == 16 * b
  {
    var s := [a, c];
    assert s[0] == a && s[1] == c;
    assert 6 * |s| - 8 * |[b]| == 4;
    if InAlphabet(s) {
      assert s[..1] == [a] && [a][..0] == [];
      assert Value64([a]) == Sextet(a).value;
      assert Value64(s) == 64 * Value64([a]) + Sextet(c).value;
      assert [b][..0] == [] && Value([b]) == b;
      SmallShifts(b);
    }
  }

  lemma LastLetterOfHex(a: char, c: char, b: Byte)
    requires HexPair(a, c).Some?
    ensures Sextet(a).Some? && Sextet(c).Some?
    ensures 64 * Sextet(a).value + Sextet(c).value == 16 * b <==> c == 'A' && Sextet(a).value == b / 4 && b % 4 == 0
  {
    var x, y := Sextet(a).value, Sextet(c).value;
    assert (64 * x + y) % 16 == y % 16;
    assert c == 'A' ==> y == 0;
    assert c != 'A' ==> 1 <= y <= 5 || 26 <= y <= 31 || 52 <= y <= 61;
  }

  /** For instance: hex wins, and the bytes are not those the base64 reading stands for. */
  lemma ClashWitness()
    ensures HexDecode("AA") == Ok([170]) && Spells(Trim("AA"), [0])
  {
    var s := "AA";
    assert s[..0] == [] && HexPair('A', 'A') == Some(170);
    HexPairsIff(s, [170]);
    OneByteClashIff(s, 170, 0);
  }
}
