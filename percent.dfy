/** `percent_encoding::percent_decode`: every `%` followed by two hexadecimal
    digits becomes the byte they spell; every other byte, a `%` that does not
    start such a triplet included, passes through. Decoding is one left-to-right
    pass, so a decoded byte is never decoded again. */
module Percent {
  import Seqs
  import opened Utf8
  import Radix

  const PercentSign: byte := 0x25

  /** The byte is an ASCII hexadecimal digit (`char::from(b).to_digit(16)` succeeds). */
  predicate IsHexDigitByte(b: byte) {
    b < 0x80 && Radix.IsHexDigit(b as int as char)
  }

  function HexDigitByteValue(b: byte): (d: nat)
    requires IsHexDigitByte(b)
    ensures d < 16
  {
    Radix.HexDigitValue(b as int as char)
  }

  /** A well-formed triplet `%XY` stands at the head of b. */
  predicate StartsTriplet(b: seq<byte>) {
    |b| >= 3 && b[0] == PercentSign && IsHexDigitByte(b[1]) && IsHexDigitByte(b[2])
  }

  function PercentDecode(b: seq<byte>): (r: seq<byte>)
    ensures |r| <= |b|
    decreases |b|
  {
    if b == [] then []
    else if StartsTriplet(b) then
      [(HexDigitByteValue(b[1]) * 16 + HexDigitByteValue(b[2])) as byte] + PercentDecode(b[3..])
    else [b[0]] + PercentDecode(b[1..])
  }

  /** One byte written as `%XY` with upper-case digits. */
  function Triplet(x: byte): (r: seq<byte>)
    ensures StartsTriplet(r)
  {
    var h := Radix.HexPair(x);
    [PercentSign, h[0] as int as byte, h[1] as int as byte]
  }

  /** Every byte written as a triplet. */
  function PercentEncode(b: seq<byte>): (r: seq<byte>)
    ensures |r| == 3 * |b|
  {
    if b == [] then [] else Triplet(b[0]) + PercentEncode(b[1..])
  }

  /** Bytes without `%` are left alone. */
  lemma {:induction false} NoPercentIdentity(b: seq<byte>)
    requires PercentSign !in b
    ensures PercentDecode(b) == b
  {
    if b != [] {
      assert b[0] != PercentSign;
      NoPercentIdentity(b[1..]);
    }
  }

  /** The triplet spelling one byte decodes to that byte. */
  lemma DecodeTriplet(x: byte, rest: seq<byte>)
    ensures PercentDecode(Triplet(x) + rest) == [x] + PercentDecode(rest)
  {
    var h := Radix.HexPair(x);
    var e := Triplet(x) + rest;
    assert e[3..] == rest;
    assert h[..1][..0] == [];
    assert Radix.DigitsValue(h) == Radix.HexDigitValue(h[0]) * 16 + Radix.HexDigitValue(h[1]);
  }

  /** Decoding undoes encoding, whatever the bytes, `%` itself included. */
  lemma DecodeEncode(b: seq<byte>)
    ensures PercentDecode(PercentEncode(b)) == b
  {
    DecodeEncodedPrefix(b, []);
    assert PercentEncode(b) + [] == PercentEncode(b);
  }

  /** A prefix without `%` is decoded on its own. */
  lemma {:induction false} DecodePlainPrefix(a: seq<byte>, b: seq<byte>)
    requires PercentSign !in a
    ensures PercentDecode(a + b) == a + PercentDecode(b)
  {
    if a == [] {
      assert a + b == b;
    } else {
      assert (a + b)[0] == a[0] != PercentSign;
      assert (a + b)[1..] == a[1..] + b;
      DecodePlainPrefix(a[1..], b);
    }
  }

  /** A run of triplets is decoded on its own. */
  lemma {:induction false} DecodeEncodedPrefix(a: seq<byte>, b: seq<byte>)
    ensures PercentDecode(PercentEncode(a) + b) == a + PercentDecode(b)
  {
    if a == [] {
      assert PercentEncode(a) + b == b;
    } else {
      EncodedStep(a, b);
      DecodeEncodedPrefix(a[1..], b);
      Seqs.ConsSplit(a, PercentDecode(b));
    }
  }

  lemma EncodedStep(a: seq<byte>, b: seq<byte>)
    requires a != []
    ensures PercentDecode(PercentEncode(a) + b) == [a[0]] + PercentDecode(PercentEncode(a[1..]) + b)
  {
    assert PercentEncode(a) + b == Triplet(a[0]) + (PercentEncode(a[1..]) + b);
    DecodeTriplet(a[0], PercentEncode(a[1..]) + b);
  }

  /** A `%` that does not start a triplet is kept, and what follows it is decoded as usual. */
  lemma LoneSignKept(b: seq<byte>)
    requires |b| > 0 && b[0] == PercentSign && !StartsTriplet(b)
    ensures PercentDecode(b) == [PercentSign] + PercentDecode(b[1..])
  {
  }

  /** The text `%XY` of one byte. */
  function TripletText(x: byte): (s: string)
    ensures |s| == 3
  {
    "%" + Radix.HexPair(x)
  }

  /** Every byte written as a triplet, as text. */
  function EncodeText(b: seq<byte>): (s: string)
    ensures |s| == 3 * |b|
  {
    if b == [] then [] else TripletText(b[0]) + EncodeText(b[1..])
  }

  lemma EncodeTripletText(x: byte)
    ensures Encode(TripletText(x)) == Triplet(x)
  {
    var h := Radix.HexPair(x);
    var s := TripletText(x);
    assert Radix.IsHexDigit(h[0]) && Radix.IsHexDigit(h[1]);
    assert s == ['%', h[0], h[1]] && s[1..] == [h[0], h[1]] && s[1..][1..] == [h[1]] && s[1..][1..][1..] == [];
    assert Encode([h[1]]) == EncodeChar(h[1]);
    assert Encode([h[0], h[1]]) == EncodeChar(h[0]) + EncodeChar(h[1]);
  }

  /** The text of the triplets is encoded as the triplet bytes. */
  lemma {:induction false} EncodeEncodeText(b: seq<byte>)
    ensures Encode(EncodeText(b)) == PercentEncode(b)
  {
    if b != [] {
      EncodeConcat(TripletText(b[0]), EncodeText(b[1..]));
      EncodeTripletText(b[0]);
      EncodeEncodeText(b[1..]);
    }
  }

  /** A triplet at the head is replaced by the byte it spells. */
  lemma DecodeHeadTriplet(h1: byte, h2: byte, rest: seq<byte>)
    requires IsHexDigitByte(h1) && IsHexDigitByte(h2)
    ensures PercentDecode([PercentSign, h1, h2] + rest)
         == [(HexDigitByteValue(h1) * 16 + HexDigitByteValue(h2)) as byte] + PercentDecode(rest)
  {
    var e := [PercentSign, h1, h2] + rest;
    assert e[1] == h1 && e[2] == h2 && e[3..] == rest;
  }

  /** `50%25%20off` decodes to `50% off`, whatever stands for `50` and `off` as long as
      they hold no `%`: the `%` that `%25` gives is not decoded again with what follows. */
  lemma PercentSignItself(a: seq<byte>, off: seq<byte>)
    requires PercentSign !in a && PercentSign !in off
    ensures PercentDecode(a + [0x25, 0x32, 0x35] + [0x25, 0x32, 0x30] + off) == a + [0x25, 0x20] + off
  {
    var t1: seq<byte> := [PercentSign, 0x32, 0x35];
    var t2: seq<byte> := [PercentSign, 0x32, 0x30];
    assert PercentDecode(t2 + off) == [0x20] + off by {
      assert HexDigitByteValue(0x32) == 2 && HexDigitByteValue(0x30) == 0;
      NoPercentIdentity(off);
      DecodeHeadTriplet(0x32, 0x30, off);
    }
    assert PercentDecode(t1 + (t2 + off)) == [0x25] + ([0x20] + off) by {
      assert HexDigitByteValue(0x32) == 2 && HexDigitByteValue(0x35) == 5;
      DecodeHeadTriplet(0x32, 0x35, t2 + off);
    }
    DecodePlainPrefix(a, t1 + (t2 + off));
    Seqs.Regroup(a, t1, t2, off);
    Seqs.Regroup(a, [0x25], [0x20], off);
    assert [0x25] + [0x20] == [0x25, 0x20];
  }

  /** `Invalid%2` has no complete triplet and is left as it is. */
  lemma IncompleteTripletKept()
    ensures PercentDecode([0x49, 0x6E, 0x76, 0x61, 0x6C, 0x69, 0x64, 0x25, 0x32])
         == [0x49, 0x6E, 0x76, 0x61, 0x6C, 0x69, 0x64, 0x25, 0x32]
  {
    var tail: seq<byte> := [0x25, 0x32];
    assert PercentDecode([0x32]) == [0x32];
    LoneSignKept(tail);
    assert tail[1..] == [0x32];
    DecodePlainPrefix([0x49, 0x6E, 0x76, 0x61, 0x6C, 0x69, 0x64], tail);
    assert [0x49, 0x6E, 0x76, 0x61, 0x6C, 0x69, 0x64] + tail
        == [0x49, 0x6E, 0x76, 0x61, 0x6C, 0x69, 0x64, 0x25, 0x32];
  }
}
