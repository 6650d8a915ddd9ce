/** `src/decoder.rs`: `decode_input` (percent decoding, a charset codec, then the
    `\xNN` decoder) and its own `\xNN` decoder, which drops the character of a
    cut-off escape. */
module Decoder {
  import opened Utf8
  import Radix
  import opened Percent
  import opened Escape
  import Seqs

  /** `decode_escape_sequences` of decoder.rs. After `\x` it takes the next two
      characters at once; when fewer than two are left it writes only `\x`, and
      the one character it may have taken is lost. */
  method DecodeEscapeSequences(input: string) returns (result: string)
    ensures result == DecodeEscapes(input, DropTail)
  {
    result := [];
    var byteSeq: seq<byte> := [];
    var i := 0;
    ScanStart(input, DropTail);
    while i < |input|
      invariant Scanned(input, i, result, byteSeq, DropTail)
      decreases |input| - i
    {
      var ch := input[i];
      if ch == '\\' && i + 1 < |input| && input[i + 1] == 'x' {
        if i + 3 < |input| {
          var h1, h2 := input[i + 2], input[i + 3];
          var hexChars := [h1, h2];
          match Radix.FromStrRadix16(hexChars) {
            case Some(b) =>
              ScanByte(input, i, result, byteSeq, DropTail, b);
              byteSeq := byteSeq + [b];
              i := i + 4;
              continue;
            case None =>
          }
          ScanBadPair(input, i, result, byteSeq, DropTail);
          result := result + "\\x";
          result := result + hexChars;
          i := i + 4;
        } else {
          if i + 2 == |input| {
            ScanLoneMark(input, i, result, byteSeq, DropTail);
          } else {
            ScanDroppedPair(input, i, result, byteSeq);
          }
          result := result + "\\x";
          i := |input|;
        }
      } else {
        ScanOrdinary(input, i, result, byteSeq, DropTail);
        if byteSeq != [] {
          result := result + DecodeLossy(byteSeq);
          byteSeq := [];
        } else {
          assert result + DecodeLossy(byteSeq) == result;
        }
        result := result + [ch];
        i := i + 1;
      }
    }
    ScanEnd(input, result, byteSeq, DropTail);
    if byteSeq != [] {
      result := result + DecodeLossy(byteSeq);
    } else {
      assert result + DecodeLossy(byteSeq) == result;
    }
  }

  /** The result of `decode_input`: the text, or the error message. */
  datatype Result = Ok(text: string) | Err(message: string)

  const CharsetError: string := "EUC-KR decoding error"

  /** `decode_input(input, encoding)`. `encoding` stands for `Encoding::decode`,
      which gives the decoded text and whether any byte was malformed. */
  function DecodeInput(input: string, encoding: seq<byte> -> (string, bool)): (r: Result)
    ensures r.Err? ==> r.message == CharsetError
    ensures r.Ok? ==> |r.text| <= |encoding(PercentDecode(Encode(input))).0|
  {
    var percentDecoded := PercentDecode(Encode(input));
    var (cow, hadErrors) := encoding(percentDecoded);
    if hadErrors then Err(CharsetError) else Ok(DecodeEscapes(cow, DropTail))
  }

  /** Text written as `%XY` triplets hands the codec exactly the bytes they spell,
      as in `%BE%C8%B3%E7%C7%CF%BC%BC%BF%E4` for EUC-KR. */
  lemma TripletsReachCodec(b: seq<byte>, encoding: seq<byte> -> (string, bool))
    ensures DecodeInput(EncodeText(b), encoding)
         == if encoding(b).1 then Err(CharsetError) else Ok(DecodeEscapes(encoding(b).0, DropTail))
  {
    EncodeEncodeText(b);
    Percent.DecodeEncode(b);
  }

  /** Text with no `%` and no `\x`, which a codec that knows ASCII gives back as it is,
      passes the whole pipeline unchanged: `=`, `&`, `[` and `]` included. */
  lemma PassThrough(input: string, encoding: seq<byte> -> (string, bool))
    requires '%' !in input && HasNoEscape(input)
    requires encoding(Encode(input)) == (input, false)
    ensures DecodeInput(input, encoding) == Ok(input)
  {
    NoPercentInEncode(input);
    NoPercentIdentity(Encode(input));
    NoEscapeIdentity(input, DropTail);
  }

  /** Text without triplets on either side of a run of triplets hands the codec its
      own bytes with the run's bytes between them, as `Caf%E9` hands over `Caf` and
      0xE9, and `key=%BE%C8%B3%E7&arr[]=value2` hands over `key=`, the four EUC-KR
      bytes and `&arr[]=value2`. */
  lemma PlainAroundTriplets(a: string, b: seq<byte>, c: string, encoding: seq<byte> -> (string, bool))
    requires '%' !in a && '%' !in c
    ensures PercentDecode(Encode(a + EncodeText(b) + c)) == Encode(a) + b + Encode(c)
    ensures DecodeInput(a + EncodeText(b) + c, encoding)
         == (var bytes := Encode(a) + b + Encode(c);
             if encoding(bytes).1 then Err(CharsetError) else Ok(DecodeEscapes(encoding(bytes).0, DropTail)))
  {
    EncodeAround(a, b, c);
    NoPercentInEncode(a);
    NoPercentInEncode(c);
    DecodeAround(Encode(a), b, Encode(c));
  }

  lemma EncodeAround(a: string, b: seq<byte>, c: string)
    ensures Encode(a + EncodeText(b) + c) == Encode(a) + (PercentEncode(b) + Encode(c))
  {
    var t := EncodeText(b);
    EncodeConcat(a + t, c);
    EncodeConcat(a, t);
    EncodeEncodeText(b);
    Seqs.Associate(Encode(a), PercentEncode(b), Encode(c));
  }

  lemma DecodeAround(a: seq<byte>, b: seq<byte>, c: seq<byte>)
    requires PercentSign !in a && PercentSign !in c
    ensures PercentDecode(a + (PercentEncode(b) + c)) == a + b + c
  {
    DecodePlainPrefix(a, PercentEncode(b) + c);
    DecodeEncodedPrefix(b, c);
    NoPercentIdentity(c);
  }

  /** Text without `%` has no `%` byte in its UTF-8 encoding. */
  lemma NoPercentInEncode(s: string)
    requires '%' !in s
    ensures PercentSign !in Encode(s)
  {
    if PercentSign in Encode(s) {
      var i :| 0 <= i < |Encode(s)| && Encode(s)[i] == PercentSign;
      AsciiByteInEncoding(s, i);
    }
  }
}
