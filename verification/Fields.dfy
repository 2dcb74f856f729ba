/**
 * Fields of a binary payload: how a value is written, how it is read from the front of the remaining bytes, and which
 * values fit. Payload layouts are put together from fields, and so are the proofs about them.
 */
module Fields {
  import opened Prelude
  import opened Bytes

  datatype DecodeError =
    | Truncated
    | InvalidFlag(flag: Byte)
    | UnknownVersion(version: Byte)
    | UnknownKind(kind: Byte)
    | UnknownType(code: Byte)
    | Malformed                    // a nested value or a text did not decode
    | TrailingBytes(count: nat)
    | MissingBatch
    | RebuildFailed

  /** A value and the bytes after it. */
  type Read<T> = Result<(T, seq<Byte>), DecodeError>

  datatype Field<!T> = Field(write: T -> seq<Byte>, fits: T -> bool, read: seq<Byte> -> Read<T>)

  /** What fits and is written is read back, whatever follows it. */
  ghost predicate Complete<T(!new)>(f: Field<T>) {
    forall x, rest :: f.fits(x) ==> f.read(f.write(x) + rest) == Ok((x, rest))
  }

  /** What is read is what is written there, and it fits. */
  ghost predicate Sound<T(!new)>(f: Field<T>) {
    forall s :: f.read(s).Ok? ==>
      f.fits(f.read(s).value.0) && s == f.write(f.read(s).value.0) + f.read(s).value.1
  }

  // ----- primitive fields -----

  function ReadRaw(width: nat, s: seq<Byte>): Read<seq<Byte>> {
    if |s| < width then Err(Truncated) else Ok((s[..width], s[width..]))
  }

  function Raw(width: nat): Field<seq<Byte>> {
    Field((b: seq<Byte>) => b, (b: seq<Byte>) => |b| == width, (s: seq<Byte>) => ReadRaw(width, s))
  }

  lemma RawField(width: nat)
    ensures Complete(Raw(width)) && Sound(Raw(width))
  {
    forall b: seq<Byte>, rest: seq<Byte> | |b| == width
      ensures ReadRaw(width, b + rest) == Ok((b, rest))
    {
      assert (b + rest)[..width] == b && (b + rest)[width..] == rest;
    }
  }

  function ReadNumber(width: nat, s: seq<Byte>): Read<nat> {
    var (b, rest) :- ReadRaw(width, s);
    Ok((Value(b), rest))
  }

  function Number(width: nat): Field<nat> {
    Field((v: nat) => BigEndian(width, v), (v: nat) => v < Limit(width), (s: seq<Byte>) => ReadNumber(width, s))
  }

  lemma NumberField(width: nat)
    ensures Complete(Number(width)) && Sound(Number(width))
  {
    forall v: nat, rest: seq<Byte> | v < Limit(width)
      ensures ReadNumber(width, BigEndian(width, v) + rest) == Ok((v, rest))
    {
      BigEndianLength(width, v);
      ValueOfBigEndian(width, v);
      assert (BigEndian(width, v) + rest)[..width] == BigEndian(width, v);
      assert (BigEndian(width, v) + rest)[width..] == rest;
    }
    forall s: seq<Byte> | width <= |s|
      ensures Value(s[..width]) < Limit(width) && s == BigEndian(width, Value(s[..width])) + s[width..]
    {
      BigEndianOfValue(s[..width]);
    }
  }

  /** A value with its own codec, carried as a length and that many bytes; the length is cut to 32 bits. */
  datatype Nested<!T> = Nested(encode: T -> seq<Byte>, decode: seq<Byte> -> Option<T>)

  ghost predicate RoundTrips<T(!new)>(n: Nested<T>) {
    forall x :: n.decode(n.encode(x)) == Some(x)
  }

  ghost predicate Canonical<T(!new)>(n: Nested<T>) {
    forall b :: n.decode(b).Some? ==> n.encode(n.decode(b).value) == b
  }

  function ReadVarBytes(s: seq<Byte>): Read<seq<Byte>> {
    var (length, rest) :- ReadNumber(4, s);
    ReadRaw(length, rest)
  }

  function WriteVarBytes(b: seq<Byte>): seq<Byte> {
    BigEndian(4, |b|) + b
  }

  function ReadVar<T>(n: Nested<T>, s: seq<Byte>): Read<T> {
    var (b, rest) :- ReadVarBytes(s);
    var x := n.decode(b);
    if x.None? then Err(Malformed) else Ok((x.value, rest))
  }

  function Var<T>(n: Nested<T>): Field<T> {
    Field((x: T) => WriteVarBytes(n.encode(x)), (x: T) => |n.encode(x)| < U32_LIMIT,
          (s: seq<Byte>) => ReadVar(n, s))
  }

  lemma VarBytesRoundTrip(b: seq<Byte>, rest: seq<Byte>)
    requires |b| < U32_LIMIT
    ensures ReadVarBytes(WriteVarBytes(b) + rest) == Ok((b, rest))
  {
    Limits();
    NumberField(4);
    var s := WriteVarBytes(b) + rest;
    assert s == Number(4).write(|b|) + (b + rest);
    assert Number(4).read(s) == Ok((|b|, b + rest));
    assert (b + rest)[..|b|] == b && (b + rest)[|b|..] == rest;
  }

  lemma VarBytesOnly(s: seq<Byte>)
    requires ReadVarBytes(s).Ok?
    ensures var (b, rest) := ReadVarBytes(s).value;
      |b| < U32_LIMIT && s == WriteVarBytes(b) + rest
  {
    Limits();
    NumberField(4);
    assert Number(4).read(s).Ok?;
    var (length, after) := Number(4).read(s).value;
    var (b, rest) := ReadVarBytes(s).value;
    assert after == b + rest && |b| == length;
    assert s == BigEndian(4, |b|) + (b + rest);
  }

  lemma VarComplete<T(!new)>(n: Nested<T>)
    requires RoundTrips(n)
    ensures Complete(Var(n))
  {
    forall x: T, rest: seq<Byte> | |n.encode(x)| < U32_LIMIT
      ensures ReadVar(n, WriteVarBytes(n.encode(x)) + rest) == Ok((x, rest))
    {
      VarBytesRoundTrip(n.encode(x), rest);
    }
  }

  lemma VarSound<T(!new)>(n: Nested<T>)
    requires Canonical(n)
    ensures Sound(Var(n))
  {
    forall s: seq<Byte> | ReadVar(n, s).Ok?
      ensures var (x, rest) := ReadVar(n, s).value;
        |n.encode(x)| < U32_LIMIT && s == WriteVarBytes(n.encode(x)) + rest
    {
      VarBytesOnly(s);
    }
  }

  lemma VarField<T(!new)>(n: Nested<T>)
    ensures RoundTrips(n) ==> Complete(Var(n))
    ensures Canonical(n) ==> Sound(Var(n))
  {
    if RoundTrips(n) {
      VarComplete(n);
    }
    if Canonical(n) {
      VarSound(n);
    }
  }

  // ----- fields made of fields -----

  function ReadThen<A, B>(f: Field<A>, g: Field<B>, s: seq<Byte>): Read<(A, B)> {
    var (a, s1) :- f.read(s);
    var (b, s2) :- g.read(s1);
    Ok(((a, b), s2))
  }

  function Then<A, B>(f: Field<A>, g: Field<B>): Field<(A, B)> {
    Field((x: (A, B)) => f.write(x.0) + g.write(x.1), (x: (A, B)) => f.fits(x.0) && g.fits(x.1),
          (s: seq<Byte>) => ReadThen(f, g, s))
  }

  lemma ThenField<A(!new), B(!new)>(f: Field<A>, g: Field<B>)
    ensures Complete(f) && Complete(g) ==> Complete(Then(f, g))
    ensures Sound(f) && Sound(g) ==> Sound(Then(f, g))
  {
    if Complete(f) && Complete(g) {
      forall x: (A, B), rest: seq<Byte> | f.fits(x.0) && g.fits(x.1)
        ensures ReadThen(f, g, f.write(x.0) + g.write(x.1) + rest) == Ok((x, rest))
      {
        assert f.write(x.0) + g.write(x.1) + rest == f.write(x.0) + (g.write(x.1) + rest);
      }
    }
    if Sound(f) && Sound(g) {
      forall s: seq<Byte> | ReadThen(f, g, s).Ok?
        ensures var ((a, b), rest) := ReadThen(f, g, s).value;
          f.fits(a) && g.fits(b) && s == f.write(a) + g.write(b) + rest
      {
        var (a, s1) := f.read(s).value;
        var (b, s2) := g.read(s1).value;
        assert s == f.write(a) + (g.write(b) + s2);
      }
    }
  }

  function WriteOpt<T>(f: Field<T>, x: Option<T>): seq<Byte> {
    if x.None? then [0] else [1] + f.write(x.value)
  }

  function ReadFlag(s: seq<Byte>): Read<bool> {
    var (flag, rest) :- ReadNumber(1, s);
    if flag == 0 then Ok((false, rest))
    else if flag == 1 then Ok((true, rest))
    else Err(InvalidFlag(s[0]))
  }

  function ReadOpt<T>(f: Field<T>, s: seq<Byte>): Read<Option<T>> {
    var (present, rest) :- ReadFlag(s);
    if !present then Ok((None, rest))
    else
      var (x, after) :- f.read(rest);
      Ok((Some(x), after))
  }

  function Opt<T>(f: Field<T>): Field<Option<T>> {
    Field((x: Option<T>) => WriteOpt(f, x), (x: Option<T>) => x.Some? ==> f.fits(x.value),
          (s: seq<Byte>) => ReadOpt(f, s))
  }

  lemma FlagIs(s: seq<Byte>)
    ensures s == [] ==> ReadFlag(s) == Err(Truncated)
    ensures s != [] && s[0] == 0 ==> ReadFlag(s) == Ok((false, s[1..]))
    ensures s != [] && s[0] == 1 ==> ReadFlag(s) == Ok((true, s[1..]))
    ensures s != [] && s[0] > 1 ==> ReadFlag(s) == Err(InvalidFlag(s[0]))
  {
    if s != [] {
      assert s[..1] == [s[0]];
      assert Value([s[0]]) == s[0];
    }
  }

  lemma OptField<T(!new)>(f: Field<T>)
    ensures Complete(f) ==> Complete(Opt(f))
    ensures Sound(f) ==> Sound(Opt(f))
  {
    if Complete(f) {
      forall x: Option<T>, rest: seq<Byte> | x.Some? ==> f.fits(x.value)
        ensures ReadOpt(f, WriteOpt(f, x) + rest) == Ok((x, rest))
      {
        var s := WriteOpt(f, x) + rest;
        FlagIs(s);
        assert s[1..] == if x.None? then rest else f.write(x.value) + rest;
      }
    }
    if Sound(f) {
      forall s: seq<Byte> | ReadOpt(f, s).Ok?
        ensures var (x, rest) := ReadOpt(f, s).value;
          (x.Some? ==> f.fits(x.value)) && s == WriteOpt(f, x) + rest
      {
        FlagIs(s);
        var (x, rest) := ReadOpt(f, s).value;
        assert s == [s[0]] + s[1..];
        if x.Some? {
          assert s == [1] + (f.write(x.value) + rest);
        }
      }
    }
  }

  function WriteAll<T>(f: Field<T>, xs: seq<T>): seq<Byte> {
    if xs == [] then [] else WriteAll(f, xs[..|xs| - 1]) + f.write(xs[|xs| - 1])
  }

  function ReadAll<T>(f: Field<T>, count: nat, s: seq<Byte>): Read<seq<T>> {
    if count == 0 then Ok(([], s))
    else
      var (xs, s1) :- ReadAll(f, count - 1, s);
      var (x, s2) :- f.read(s1);
      Ok((xs + [x], s2))
  }

  function WriteMany<T>(f: Field<T>, xs: seq<T>): seq<Byte> {
    BigEndian(4, |xs|) + WriteAll(f, xs)
  }

  function ReadMany<T>(f: Field<T>, s: seq<Byte>): Read<seq<T>> {
    var (count, rest) :- ReadNumber(4, s);
    ReadAll(f, count, rest)
  }

  /** A 32-bit count and that many items. */
  function Many<T>(f: Field<T>): Field<seq<T>> {
    Field((xs: seq<T>) => WriteMany(f, xs),
          (xs: seq<T>) => |xs| < U32_LIMIT && forall i :: 0 <= i < |xs| ==> f.fits(xs[i]),
          (s: seq<Byte>) => ReadMany(f, s))
  }

  lemma {:induction false} ReadAllComplete<T(!new)>(f: Field<T>, xs: seq<T>, rest: seq<Byte>)
    requires Complete(f) && forall i :: 0 <= i < |xs| ==> f.fits(xs[i])
    ensures ReadAll(f, |xs|, WriteAll(f, xs) + rest) == Ok((xs, rest))
    decreases |xs|
  {
    if xs == [] {
      assert WriteAll(f, xs) + rest == rest;
    } else {
      var front, last := xs[..|xs| - 1], xs[|xs| - 1];
      assert WriteAll(f, xs) + rest == WriteAll(f, front) + (f.write(last) + rest);
      ReadAllComplete(f, front, f.write(last) + rest);
      assert front + [last] == xs;
    }
  }

  lemma {:induction false} ReadAllSound<T(!new)>(f: Field<T>, count: nat, s: seq<Byte>)
    requires Sound(f) && ReadAll(f, count, s).Ok?
    ensures var (xs, rest) := ReadAll(f, count, s).value;
      |xs| == count && (forall i :: 0 <= i < |xs| ==> f.fits(xs[i])) && s == WriteAll(f, xs) + rest
    decreases count
  {
    if count == 0 {
      assert WriteAll(f, []) + s == s;
    } else {
      ReadAllSound(f, count - 1, s);
      var (xs, s1) := ReadAll(f, count - 1, s).value;
      var (x, s2) := f.read(s1).value;
      assert (xs + [x])[..|xs|] == xs;
      assert s == WriteAll(f, xs) + (f.write(x) + s2) == WriteAll(f, xs) + f.write(x) + s2;
    }
  }

  lemma ManyField<T(!new)>(f: Field<T>)
    ensures Complete(f) ==> Complete(Many(f))
    ensures Sound(f) ==> Sound(Many(f))
  {
    Limits();
    NumberField(4);
    if Complete(f) {
      forall xs: seq<T>, rest: seq<Byte> | |xs| < U32_LIMIT && forall i :: 0 <= i < |xs| ==> f.fits(xs[i])
        ensures ReadMany(f, BigEndian(4, |xs|) + WriteAll(f, xs) + rest) == Ok((xs, rest))
      {
        var s := BigEndian(4, |xs|) + WriteAll(f, xs) + rest;
        assert s == Number(4).write(|xs|) + (WriteAll(f, xs) + rest);
        assert Number(4).read(s) == Ok((|xs|, WriteAll(f, xs) + rest));
        ReadAllComplete(f, xs, rest);
      }
    }
    if Sound(f) {
      forall s: seq<Byte> | ReadMany(f, s).Ok?
        ensures var (xs, rest) := ReadMany(f, s).value;
          |xs| < U32_LIMIT && (forall i :: 0 <= i < |xs| ==> f.fits(xs[i]))
          && s == BigEndian(4, |xs|) + WriteAll(f, xs) + rest
      {
        assert Number(4).read(s).Ok?;
        var (count, after) := Number(4).read(s).value;
        ReadAllSound(f, count, after);
        var (xs, rest) := ReadAll(f, count, after).value;
        assert s == BigEndian(4, |xs|) + (WriteAll(f, xs) + rest);
      }
    }
  }

  /** The same bytes under another reading of the value. */
  function ReadAs<A, B>(f: Field<A>, to: A -> B, s: seq<Byte>): Read<B> {
    var (a, rest) :- f.read(s);
    Ok((to(a), rest))
  }

  function As<A, B>(f: Field<A>, to: A -> B, from: B -> A): Field<B> {
    Field((b: B) => f.write(from(b)), (b: B) => f.fits(from(b)), (s: seq<Byte>) => ReadAs(f, to, s))
  }

  lemma AsField<A(!new), B(!new)>(f: Field<A>, to: A -> B, from: B -> A)
    requires forall b :: to(from(b)) == b
    requires forall a :: from(to(a)) == a
    ensures Complete(f) ==> Complete(As(f, to, from))
    ensures Sound(f) ==> Sound(As(f, to, from))
  {
  }

  /** Once reading an item fails, reading more items fails in the same way. */
  lemma {:induction false} ReadAllStops<T>(f: Field<T>, n: nat, count: nat, s: seq<Byte>)
    requires n <= count && ReadAll(f, n, s).Err?
    ensures ReadAll(f, count, s) == Err(ReadAll(f, n, s).error)
    decreases count - n
  {
    if n < count {
      ReadAllStops(f, n + 1, count, s);
    }
  }
}
