/** UTF-8 as the Rust standard library sees it: `str::as_bytes` (the encoder),
    `String::from_utf8_lossy` (a decoder that replaces every maximal invalid
    subpart by U+FFFD) and `std::str::from_utf8` (the strict decoder). */
module Utf8 {
  import Seqs
  import opened Wrappers

  newtype byte = x: int | 0 <= x < 256

  /** U+FFFD REPLACEMENT CHARACTER */
  const Replacement: char := 0xFFFD as char

  predicate IsContinuation(b: byte) {
    0x80 <= b <= 0xBF
  }

  /** Number of bytes announced by a lead byte, or 0 when b cannot start a sequence. */
  function SequenceLength(b: byte): (n: nat)
    ensures n <= 4
  {
    if b < 0x80 then 1
    else if 0xC2 <= b <= 0xDF then 2
    else if 0xE0 <= b <= 0xEF then 3
    else if 0xF0 <= b <= 0xF4 then 4
    else 0
  }

  /** Bounds of the second byte after a multi-byte lead byte (they exclude
      overlong forms, surrogates and code points beyond U+10FFFF). */
  function SecondLow(lead: byte): byte {
    if lead == 0xE0 then 0xA0 else if lead == 0xF0 then 0x90 else 0x80
  }

  function SecondHigh(lead: byte): byte {
    if lead == 0xED then 0x9F else if lead == 0xF4 then 0x8F else 0xBF
  }

  /** What the first bytes of a non-empty sequence decode to. */
  datatype Unit = Scalar(c: char) | Invalid

  /** Decodes the first scalar value of b, or recognises the maximal invalid
      subpart at its head. Returns how many bytes were used. */
  function DecodeFirst(b: seq<byte>): (r: (nat, Unit))
    requires |b| > 0
    ensures 1 <= r.0 <= |b| && r.0 <= 4
    ensures r.1.Scalar? ==> r.0 == SequenceLength(b[0])
  {
    var n := SequenceLength(b[0]);
    if n == 1 then (1, Scalar(b[0] as int as char))
    else if n == 0 then (1, Invalid)
    else if |b| < 2 || !(SecondLow(b[0]) <= b[1] <= SecondHigh(b[0])) then (1, Invalid)
    else if n == 2 then
      (2, Scalar(((b[0] as int - 0xC0) * 64 + (b[1] as int - 0x80)) as char))
    else if |b| < 3 || !IsContinuation(b[2]) then (2, Invalid)
    else if n == 3 then
      (3, Scalar(((b[0] as int - 0xE0) * 4096 + (b[1] as int - 0x80) * 64
                  + (b[2] as int - 0x80)) as char))
    else if |b| < 4 || !IsContinuation(b[3]) then (3, Invalid)
    else
      (4, Scalar(((b[0] as int - 0xF0) * 262144 + (b[1] as int - 0x80) * 4096
                  + (b[2] as int - 0x80) * 64 + (b[3] as int - 0x80)) as char))
  }

  /** `String::from_utf8_lossy`. */
  function DecodeLossy(b: seq<byte>): (s: string)
    ensures |s| <= |b|
    ensures |s| == 0 <==> |b| == 0
    decreases |b|
  {
    if b == [] then []
    else
      var (n, u) := DecodeFirst(b);
      [if u.Scalar? then u.c else Replacement] + DecodeLossy(b[n..])
  }

  /** The bytes form well-formed UTF-8. */
  predicate IsValid(b: seq<byte>)
    decreases |b|
  {
    b == [] || (DecodeFirst(b).1.Scalar? && IsValid(b[DecodeFirst(b).0..]))
  }

  /** `std::str::from_utf8`: the text, or None when the bytes are not UTF-8. */
  function FromUtf8(b: seq<byte>): (r: Option<string>)
    ensures r.Some? <==> IsValid(b)
    ensures r.Some? ==> Encode(r.value) == b
  {
    if IsValid(b) then
      EncodeDecodeValid(b);
      Some(DecodeLossy(b))
    else None
  }

  /** The UTF-8 encoding of one scalar value. */
  function EncodeChar(c: char): (b: seq<byte>)
    ensures 1 <= |b| <= 4
    ensures (c as int < 0x80) <==> |b| == 1
    ensures |b| == 1 ==> b[0] as int == c as int
    ensures |b| > 1 ==> forall i :: 0 <= i < |b| ==> b[i] >= 0x80
  {
    var cp := c as int;
    if cp < 0x80 then [cp as byte]
    else if cp < 0x800 then [(0xC0 + cp / 64) as byte, (0x80 + cp % 64) as byte]
    else if cp < 0x10000 then
      [(0xE0 + cp / 4096) as byte, (0x80 + cp / 64 % 64) as byte, (0x80 + cp % 64) as byte]
    else
      [(0xF0 + cp / 262144) as byte, (0x80 + cp / 4096 % 64) as byte,
       (0x80 + cp / 64 % 64) as byte, (0x80 + cp % 64) as byte]
  }

  /** `str::as_bytes`: the UTF-8 encoding of a text. */
  function Encode(s: string): (b: seq<byte>)
    ensures |b| >= |s|
  {
    if s == [] then [] else EncodeChar(s[0]) + Encode(s[1..])
  }

  lemma {:induction false} EncodeConcat(s: string, t: string)
    ensures Encode(s + t) == Encode(s) + Encode(t)
  {
    if s != [] {
      assert (s + t)[0] == s[0];
      assert (s + t)[1..] == s[1..] + t;
      EncodeConcat(s[1..], t);
      calc {
        Encode(s + t);
        EncodeChar(s[0]) + Encode(s[1..] + t);
        EncodeChar(s[0]) + (Encode(s[1..]) + Encode(t));
        (EncodeChar(s[0]) + Encode(s[1..])) + Encode(t);
      }
    } else {
      assert s + t == t;
    }
  }

  /** A byte below 0x80 occurs in the encoding only as the encoding of that very character. */
  lemma {:induction false} AsciiByteInEncoding(s: string, i: nat)
    requires i < |Encode(s)| && Encode(s)[i] < 0x80
    ensures (Encode(s)[i] as int as char) in s
  {
    var e := EncodeChar(s[0]);
    if i < |e| {
      assert |e| == 1;
    } else {
      AsciiByteInEncoding(s[1..], i - |e|);
    }
  }

  lemma DivMod64(x: int, q: int, r: int)
    requires x == q * 64 + r && 0 <= r < 64
    ensures x / 64 == q && x % 64 == r
  {
  }

  /** The base-64 digits that EncodeChar puts into the continuation bytes. */
  lemma Digits(cp: nat)
    ensures cp == cp / 64 * 64 + cp % 64
    ensures cp / 64 == cp / 4096 * 64 + cp / 64 % 64
    ensures cp / 4096 == cp / 262144 * 64 + cp / 4096 % 64
  {
    var a, r := cp / 4096, cp % 4096;
    DivMod64(cp, a * 64 + r / 64, r % 64);
    DivMod64(a * 64 + r / 64, a, r / 64);
    var a', r' := cp / 262144, cp % 262144;
    DivMod4096(cp, a' * 64 + r' / 4096, r' % 4096);
    DivMod64(a' * 64 + r' / 4096, a', r' / 4096);
  }

  lemma DivMod4096(x: int, q: int, r: int)
    requires x == q * 4096 + r && 0 <= r < 4096
    ensures x / 4096 == q && x % 4096 == r
  {
  }

  lemma DecodeFirstOfEncodeChar2(c: char, rest: seq<byte>)
    requires 0x80 <= c as int < 0x800
    ensures DecodeFirst(EncodeChar(c) + rest) == (2, Scalar(c))
  {
    var cp := c as int;
    var b := EncodeChar(c) + rest;
    assert b[0] as int == 0xC0 + cp / 64 && b[1] as int == 0x80 + cp % 64;
  }

  lemma DecodeFirstOfEncodeChar3(c: char, rest: seq<byte>)
    requires 0x800 <= c as int < 0x10000
    ensures DecodeFirst(EncodeChar(c) + rest) == (3, Scalar(c))
  {
    var cp := c as int;
    var b := EncodeChar(c) + rest;
    Digits(cp);
    var a, r1, r2 := cp / 4096, cp / 64 % 64, cp % 64;
    assert cp == a * 4096 + r1 * 64 + r2;
    assert b[0] as int == 0xE0 + a && b[1] as int == 0x80 + r1 && b[2] as int == 0x80 + r2;
  }

  lemma DecodeFirstOfEncodeChar4(c: char, rest: seq<byte>)
    requires 0x10000 <= c as int
    ensures DecodeFirst(EncodeChar(c) + rest) == (4, Scalar(c))
  {
    var cp := c as int;
    var b := EncodeChar(c) + rest;
    Digits(cp);
    var a, r1, r2, r3 := cp / 262144, cp / 4096 % 64, cp / 64 % 64, cp % 64;
    assert cp == a * 262144 + r1 * 4096 + r2 * 64 + r3;
    assert b[0] as int == 0xF0 + a && b[1] as int == 0x80 + r1;
    assert b[2] as int == 0x80 + r2 && b[3] as int == 0x80 + r3;
  }

  lemma DecodeFirstOfEncodeChar(c: char, rest: seq<byte>)
    ensures DecodeFirst(EncodeChar(c) + rest) == (|EncodeChar(c)|, Scalar(c))
  {
    var cp := c as int;
    if cp < 0x80 {
    } else if cp < 0x800 {
      DecodeFirstOfEncodeChar2(c, rest);
    } else if cp < 0x10000 {
      DecodeFirstOfEncodeChar3(c, rest);
    } else {
      DecodeFirstOfEncodeChar4(c, rest);
    }
  }

  /** Decoding the encoding of a text gives the text back, and the encoding is valid UTF-8. */
  lemma {:induction false} DecodeEncode(s: string)
    ensures DecodeLossy(Encode(s)) == s
    ensures IsValid(Encode(s))
    ensures FromUtf8(Encode(s)) == Some(s)
  {
    if s != [] {
      var e := EncodeChar(s[0]);
      DecodeFirstOfEncodeChar(s[0], Encode(s[1..]));
      assert (e + Encode(s[1..]))[|e|..] == Encode(s[1..]);
      DecodeEncode(s[1..]);
    }
  }

  /** A well-formed first unit is exactly the encoding of the scalar value it decodes to. */
  lemma EncodeCharOfDecodeFirst(b: seq<byte>)
    requires |b| > 0 && DecodeFirst(b).1.Scalar?
    ensures EncodeChar(DecodeFirst(b).1.c) == b[..DecodeFirst(b).0]
  {
    var n := SequenceLength(b[0]);
    if n == 2 {
      EncodeCharOfDecodeFirst2(b);
    } else if n == 3 {
      EncodeCharOfDecodeFirst3(b);
    } else if n == 4 {
      EncodeCharOfDecodeFirst4(b);
    }
  }

  lemma EncodeCharOfDecodeFirst2(b: seq<byte>)
    requires |b| > 0 && DecodeFirst(b).1.Scalar? && SequenceLength(b[0]) == 2
    ensures EncodeChar(DecodeFirst(b).1.c) == b[..2]
  {
    var cp := DecodeFirst(b).1.c as int;
    var q, r := b[0] as int - 0xC0, b[1] as int - 0x80;
    DivMod64(cp, q, r);
  }

  lemma EncodeCharOfDecodeFirst3(b: seq<byte>)
    requires |b| > 0 && DecodeFirst(b).1.Scalar? && SequenceLength(b[0]) == 3
    ensures EncodeChar(DecodeFirst(b).1.c) == b[..3]
  {
    var cp := DecodeFirst(b).1.c as int;
    var q, r1, r2 := b[0] as int - 0xE0, b[1] as int - 0x80, b[2] as int - 0x80;
    assert cp == q * 4096 + r1 * 64 + r2;
    DivMod64(cp, q * 64 + r1, r2);
    DivMod64(q * 64 + r1, q, r1);
    Digits(cp);
  }

  lemma EncodeCharOfDecodeFirst4(b: seq<byte>)
    requires |b| > 0 && DecodeFirst(b).1.Scalar? && SequenceLength(b[0]) == 4
    ensures EncodeChar(DecodeFirst(b).1.c) == b[..4]
  {
    var cp := DecodeFirst(b).1.c as int;
    var q, r1, r2, r3 := b[0] as int - 0xF0, b[1] as int - 0x80, b[2] as int - 0x80, b[3] as int - 0x80;
    assert cp == q * 262144 + r1 * 4096 + r2 * 64 + r3;
    DivMod64(cp, q * 4096 + r1 * 64 + r2, r3);
    DivMod64(q * 4096 + r1 * 64 + r2, q * 64 + r1, r2);
    DivMod64(q * 64 + r1, q, r1);
    Digits(cp);
  }

  /** Valid UTF-8 is exactly what `str::as_bytes` can produce: the strict
      decoder succeeds with s if and only if the bytes are the encoding of s. */
  lemma {:induction false} FromUtf8Characterization(b: seq<byte>, s: string)
    ensures FromUtf8(b) == Some(s) <==> b == Encode(s)
  {
    if b == Encode(s) {
      DecodeEncode(s);
    }
    if FromUtf8(b) == Some(s) {
      EncodeDecodeValid(b);
    }
  }

  lemma {:induction false} EncodeDecodeValid(b: seq<byte>)
    requires IsValid(b)
    ensures Encode(DecodeLossy(b)) == b
    decreases |b|
  {
    if b != [] {
      var n := DecodeFirst(b).0;
      EncodeCharOfDecodeFirst(b);
      EncodeDecodeValid(b[n..]);
      DecodeLossyOfValid(b);
      Seqs.SplitAt(b, n);
    }
  }

  /** One step of the strict decoder, as the lossy decoder takes it. */
  lemma DecodeLossyOfValid(b: seq<byte>)
    requires b != [] && IsValid(b)
    ensures IsValid(b[DecodeFirst(b).0..])
    ensures Encode(DecodeLossy(b)) == EncodeChar(DecodeFirst(b).1.c) + Encode(DecodeLossy(b[DecodeFirst(b).0..]))
  {
    var n, c := DecodeFirst(b).0, DecodeFirst(b).1.c;
    var s := DecodeLossy(b);
    assert s == [c] + DecodeLossy(b[n..]);
    assert s[0] == c && s[1..] == DecodeLossy(b[n..]);
  }

  /** On bytes below 0x80 the lossy decoder maps every byte to the character with that code. */
  lemma {:induction false} DecodeLossyAscii(b: seq<byte>)
    requires forall i :: 0 <= i < |b| ==> b[i] < 0x80
    ensures |DecodeLossy(b)| == |b|
    ensures forall i :: 0 <= i < |b| ==> DecodeLossy(b)[i] as int == b[i] as int
  {
    if b != [] {
      DecodeLossyAscii(b[1..]);
    }
  }
}
