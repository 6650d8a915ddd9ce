/** `src/parser.rs`: the `\xNN` decoder that keeps the character of a cut-off
    escape, the form key-path inserter as an object updated in place, the
    form and JSON parsers, and `decode_input` over a choice of charset. */
module Parser {
  import opened Wrappers
  import opened Utf8
  import Radix
  import Percent
  import opened Escape
  import opened Json
  import opened KeyPath

  /** `decode_escape_sequences` of parser.rs: one pass over the characters with
      one character of lookahead, the bytes of a run of escapes buffered until
      an ordinary character or the end of the text. */
  method DecodeEscapeSequences(input: string) returns (result: string)
    ensures result == DecodeEscapes(input, KeepTail)
  {
    result := [];
    var byteSeq: seq<byte> := [];
    var i := 0;
    ScanStart(input, KeepTail);
    while i < |input|
      invariant Scanned(input, i, result, byteSeq, KeepTail)
      decreases |input| - i
    {
      var ch := input[i];
      var maybeHexEscapeSequence := ch == '\\' && i + 1 < |input| && input[i + 1] == 'x';
      if !maybeHexEscapeSequence {
        ScanOrdinary(input, i, result, byteSeq, KeepTail);
        if byteSeq != [] {
          result := result + DecodeLossy(byteSeq);
          byteSeq := [];
        } else {
          assert result + DecodeLossy(byteSeq) == result;
        }
        result := result + [ch];
        i := i + 1;
        continue;
      }
      // `\` and the `x` after it
      if i + 2 >= |input| {
        ScanLoneMark(input, i, result, byteSeq, KeepTail);
        result := result + "\\x";
        i := i + 2;
        continue;
      }
      var hexChar1 := input[i + 2];
      if i + 3 >= |input| {
        ScanKeptPair(input, i, result, byteSeq);
        result := result + "\\x" + [hexChar1];
        i := i + 3;
        continue;
      }
      var hexChar2 := input[i + 3];
      var hexChars := [hexChar1, hexChar2];
      match Radix.FromStrRadix16(hexChars) {
        case Some(b) =>
          ScanByte(input, i, result, byteSeq, KeepTail, b);
          byteSeq := byteSeq + [b];
        case None =>
          ScanBadPair(input, i, result, byteSeq, KeepTail);
          result := result + "\\x" + hexChars;
      }
      i := i + 4;
    }
    ScanEnd(input, result, byteSeq, KeepTail);
    if byteSeq != [] {
      result := result + DecodeLossy(byteSeq);
    } else {
      assert result + DecodeLossy(byteSeq) == result;
    }
  }

  /** The JSON object that `FormURLEncodedParser::parse` fills in. */
  class FormObject {
    var entries: map<string, Value>

    constructor ()
      ensures entries == map[]
    {
      entries := map[];
    }

    /** `add_or_update_value(&mut result, key, value)`. Returns whether it reached
        `panic!("Unexpected key format")`, in which case nothing was changed. */
    method AddOrUpdateValue(key: string, value: string) returns (panicked: bool)
      modifies this
      ensures panicked <==> Insert(old(entries), key, value).None?
      ensures panicked ==> entries == old(entries)
      ensures !panicked ==> entries == Insert(old(entries), key, value).value
    {
      var parts := Split(key, '[');
      var mainKey: string;
      var subKey: Option<string>;
      if |parts| == 1 {
        mainKey, subKey := parts[0], None;
      } else if |parts| == 2 {
        mainKey, subKey := parts[0], Some(TrimEndMatches(parts[1], ']'));
      } else {
        return true;
      }
      match subKey {
        case None =>
          entries := entries[mainKey := String(value)];
        case Some(sub) =>
          if sub == [] {
            if mainKey !in entries {
              entries := entries[mainKey := Array([])];
            }
            var arr := entries[mainKey];
            if arr.Array? {
              entries := entries[mainKey := Array(arr.elems + [String(value)])];
            }
          } else {
            if mainKey !in entries {
              entries := entries[mainKey := Object(map[])];
            }
            var nestedObject := entries[mainKey];
            if nestedObject.Object? {
              entries := entries[mainKey := Object(nestedObject.fields[sub := String(value)])];
            }
          }
      }
      return false;
    }
  }

  /** The two ways `FormURLEncodedParser::parse` can end. */
  datatype Outcome = Returned(value: Value) | Panicked(message: string)

  const KeyFormatPanic: string := "Unexpected key format"

  /** What `FormURLEncodedParser::parse` computes. `formPairs` stands for
      `form_urlencoded::parse(..).into_owned()`, the pairs of a form body. */
  function FormParse(input: seq<byte>, formPairs: seq<byte> -> seq<(string, string)>): (r: Outcome)
    ensures r == Returned(Null) <==> !IsValid(input)
    ensures r.Returned? && IsValid(input) ==> r.value.Object?
    ensures r.Panicked? ==> r.message == KeyFormatPanic
  {
    match FromUtf8(input)
    case None => Returned(Null)
    case Some(text) =>
      match Fold(map[], formPairs(Encode(DecodeEscapes(text, KeepTail))))
      case None => Panicked(KeyFormatPanic)
      case Some(m) => Returned(Object(m))
  }

  /** `FormURLEncodedParser::parse`: strict UTF-8, the escape decoding, the form
      pairs, then every pair inserted in order into a fresh object. */
  method FormUrlEncodedParse(input: seq<byte>, formPairs: seq<byte> -> seq<(string, string)>) returns (r: Outcome)
    ensures r == FormParse(input, formPairs)
  {
    var utf8StrResult := FromUtf8(input);
    match utf8StrResult {
      case None =>
        return Returned(Null);
      case Some(utf8Str) =>
        var decoded := DecodeEscapeSequences(utf8Str);
        var pairs := formPairs(Encode(decoded));
        var result := new FormObject();
        var i := 0;
        while i < |pairs|
          invariant 0 <= i <= |pairs|
          invariant Fold(result.entries, pairs[i..]) == Fold(map[], pairs)
          decreases |pairs| - i
        {
          ghost var m := result.entries;
          var panicked := result.AddOrUpdateValue(pairs[i].0, pairs[i].1);
          if panicked {
            return Panicked(KeyFormatPanic);
          }
          assert pairs[i..][0] == pairs[i] && pairs[i..][1..] == pairs[i + 1..];
          i := i + 1;
        }
        assert pairs[i..] == [];
        return Returned(Object(result.entries));
    }
  }

  /** For UTF-8 input the form parser panics exactly when a key of the form body
      has two or more `[`. */
  lemma FormParsePanicIff(input: seq<byte>, formPairs: seq<byte> -> seq<(string, string)>)
    requires IsValid(input)
    ensures var pairs := formPairs(Encode(DecodeEscapes(DecodeLossy(input), KeepTail)));
            FormParse(input, formPairs).Panicked? <==>
              exists i :: 0 <= i < |pairs| && Count(pairs[i].0, '[') >= 2
  {
    var pairs := formPairs(Encode(DecodeEscapes(DecodeLossy(input), KeepTail)));
    assert FromUtf8(input) == Some(DecodeLossy(input)) by {
      EncodeDecodeValid(input);
      FromUtf8Characterization(input, DecodeLossy(input));
    }
    FoldPanicIff(map[], pairs);
  }

  /** `JsonParser::parse`: strict UTF-8, the escape decoding, then the JSON grammar,
      given as `parseJson` (`serde_json::from_slice`); every failure gives `Null`. */
  function JsonParse(input: seq<byte>, parseJson: seq<byte> -> Option<Value>): (v: Value)
    ensures !IsValid(input) ==> v == Null
  {
    match FromUtf8(input)
    case None => Null
    case Some(utf8Str) =>
      match parseJson(Encode(DecodeEscapes(utf8Str, KeepTail)))
      case None => Null
      case Some(value) => value
  }

  /** UTF-8 text without escapes reaches the JSON grammar exactly as given. */
  lemma JsonParseSeesInput(input: seq<byte>, parseJson: seq<byte> -> Option<Value>)
    requires IsValid(input) && HasNoEscape(DecodeLossy(input))
    ensures JsonParse(input, parseJson) == match parseJson(input) case None => Null case Some(value) => value
  {
    EncodeDecodeValid(input);
    FromUtf8Characterization(input, DecodeLossy(input));
    NoEscapeIdentity(DecodeLossy(input), KeepTail);
  }

  /** The charsets `decode_input` of parser.rs offers. */
  datatype EncodingType = Utf8 | EucKr

  /** `decode_input` of parser.rs: percent decoding, then lossy UTF-8 decoding or
      the EUC-KR codec, given as `eucKr` (`EUC_KR.decode`), whose error flag is ignored. */
  function DecodeInput(input: seq<byte>, encoding: EncodingType, eucKr: seq<byte> -> (string, bool)): (s: string)
    ensures encoding == EncodingType.Utf8 ==> |s| <= |input|
    ensures encoding == EncodingType.Utf8 && Percent.PercentSign !in input && IsValid(input) ==> Encode(s) == input
  {
    match encoding
    case Utf8 =>
      PlainUtf8PassesThrough(input);
      DecodeLossy(Percent.PercentDecode(input))
    case EucKr => eucKr(Percent.PercentDecode(input)).0
  }

  lemma PlainUtf8PassesThrough(input: seq<byte>)
    ensures Percent.PercentSign !in input && IsValid(input) ==>
              Encode(DecodeLossy(Percent.PercentDecode(input))) == input
  {
    if Percent.PercentSign !in input && IsValid(input) {
      Percent.NoPercentIdentity(input);
      EncodeDecodeValid(input);
    }
  }

  /** Any text, percent-encoded byte by byte in UTF-8, comes back from the UTF-8 branch. */
  lemma DecodeInputUtf8RoundTrip(s: string, eucKr: seq<byte> -> (string, bool))
    ensures DecodeInput(Percent.PercentEncode(Encode(s)), EncodingType.Utf8, eucKr) == s
  {
    Percent.DecodeEncode(Encode(s));
    DecodeEncode(s);
  }

  /** The EUC-KR branch hands the codec the bytes the triplets spell, and its result
      depends only on the codec's text: whether the codec reports errors makes no difference. */
  lemma DecodeInputEucKrIgnoresErrors(b: seq<byte>, eucKr: seq<byte> -> (string, bool), other: seq<byte> -> (string, bool))
    requires other(b).0 == eucKr(b).0
    ensures DecodeInput(Percent.PercentEncode(b), EncodingType.EucKr, eucKr) == eucKr(b).0
    ensures DecodeInput(Percent.PercentEncode(b), EncodingType.EucKr, other)
         == DecodeInput(Percent.PercentEncode(b), EncodingType.EucKr, eucKr)
  {
    Percent.DecodeEncode(b);
  }
}
