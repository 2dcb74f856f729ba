/** Bytes and big-endian integers of a fixed width. */
module Bytes {
  import opened Prelude

  type Byte = b: nat | b < 256

  /** A transaction output as it travels and as rows store it: the id as its 32 bytes. */
  datatype WirePoint = WirePoint(txid: seq<Byte>, vout: nat)

  /** One past the largest value of `width` bytes. */
  function Limit(width: nat): nat {
    if width == 0 then 1 else 256 * Limit(width - 1)
  }

  /** The low `width` bytes, most significant first: a wider value is truncated. */
  function BigEndian(width: nat, v: nat): seq<Byte> {
    if width == 0 then [] else BigEndian(width - 1, v / 256) + [v % 256]
  }

  function Value(s: seq<Byte>): nat {
    if s == [] then 0 else 256 * Value(s[..|s| - 1]) + s[|s| - 1]
  }

  lemma {:induction false} BigEndianLength(width: nat, v: nat)
    ensures |BigEndian(width, v)| == width
    decreases width
  {
    if width > 0 {
      BigEndianLength(width - 1, v / 256);
    }
  }

  /** Reading back what was written gives the value, when it fits. */
  lemma {:induction false} ValueOfBigEndian(width: nat, v: nat)
    requires v < Limit(width)
    ensures Value(BigEndian(width, v)) == v
    decreases width
  {
    if width > 0 {
      ValueOfBigEndian(width - 1, v / 256);
      assert BigEndian(width, v)[..|BigEndian(width, v)| - 1] == BigEndian(width - 1, v / 256);
    }
  }

  /** Every string of bytes is the writing of its value. */
  lemma {:induction false} BigEndianOfValue(s: seq<Byte>)
    ensures Value(s) < Limit(|s|) && BigEndian(|s|, Value(s)) == s
    decreases |s|
  {
    if s != [] {
      var front, last := s[..|s| - 1], s[|s| - 1];
      BigEndianOfValue(front);
      assert Value(s) / 256 == Value(front) && Value(s) % 256 == last;
      assert s == front + [last];
    }
  }

  lemma Limits()
    ensures Limit(1) == 256 && Limit(4) == U32_LIMIT && Limit(8) == U64_LIMIT
  {
    assert Limit(2) == 65536;
    assert Limit(3) == 256 * Limit(2);
    assert Limit(5) == 256 * Limit(4);
    assert Limit(6) == 256 * Limit(5);
    assert Limit(7) == 256 * Limit(6);
  }
}
