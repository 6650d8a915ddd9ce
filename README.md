# encoded2json in Dafny

encoded2json turns a raw, possibly percent-encoded and possibly legacy-charset
text into JSON. This project models the library core behind that tool:

- **`decode_escape_sequences`**, the decoder of literal `\xNN` escapes. It exists in two copies.
  - How it works: the bytes of a run of escapes are buffered. The buffer is flushed through `String::from_utf8_lossy` before the next ordinary character and at the end of the text. An escape whose pair `u8::from_str_radix(_, 16)` rejects is copied through verbatim, and so is a `\x` cut off by the end of the text.
  - The copy in `src/parser.rs` keeps the one character that may follow a cut-off `\x`. The copy in `src/decoder.rs` consumes that character and drops it.
- **The form key-path inserter `add_or_update_value`** and the loop of `FormURLEncodedParser::parse` that folds the pairs of a form body into a JSON object.
  - Keys are split on `[`. `k` sets a string, `k[]` appends to an array, and `k[s]` sets a field of a one-level nested object.
  - A key with two or more `[` reaches `panic!("Unexpected key format")`.
- **`JsonParser::parse`** and **`decode_input` of `src/parser.rs`**, as far as they are more than calls into libraries.
- **`decode_input` of `src/decoder.rs`**, the pipeline glue: percent decoding, then a charset codec, then either the error `"EUC-KR decoding error"` or the escape-decoded text.

How the model is built:

- The two decoders are stated once, as a specification in `Escape`, and each copy of the loop is a method proved equal to it.
  - A lexer (`Lex`) cuts the text into tokens: an ordinary character, a valid escape, an invalid pair, or a cut-off `\x`.
  - A renderer (`Render`) produces the output, carrying the pending bytes.
  - The two copies differ only in how `Render` treats a cut-off `\x`, which is the `Variant` parameter.
- Both loop methods keep the invariant `Scanned`: the output so far, followed by the rendering of the unread rest with the bytes still pending, is the whole decoding.
- The inserter is a class, `Parser.FormObject`, whose `entries` map is updated in place by `AddOrUpdateValue`. It is proved equal to the function `KeyPath.Insert`, and the parse loop is proved equal to `KeyPath.Fold`.
- The library code the core calls is modelled as follows:
  - `str::split`, `trim_end_matches`, `u8::from_str_radix(_, 16)` (a leading `+` included), `percent_decode` and UTF-8 (`as_bytes`, `from_utf8_lossy` with maximal-subpart replacement, and strict `from_utf8`) are written out.
  - The charset codecs, the JSON grammar and `form_urlencoded::parse` are function-typed parameters.

| file | module | models |
|---|---|---|
| wrappers.dfy | Wrappers | `Option` |
| seqs.dfy | Seqs | regrouping and splitting of sequences |
| utf8.dfy | Utf8 | bytes, UTF-8 encoding, lossy and strict decoding |
| radix.dfy | Radix | `u8::from_str_radix(_, 16)`, two-digit upper-case hex spelling |
| percent.dfy | Percent | `percent_decode` and its inverse |
| escape.dfy | Escape | the `\xNN` decoding as lexer plus renderer, and its properties |
| json.dfy | Json | `serde_json::Value` |
| keypath.dfy | KeyPath | splitting and classifying form keys, `Insert`, `Fold` |
| parser.dfy | Parser | `src/parser.rs` |
| decoder.dfy | Decoder | `src/decoder.rs` |

The model follows the code in three places where a reader might expect something else:

- **Type conflicts.** A `k[]` key whose `k` already holds a non-array leaves the object unchanged, and so does a `k[s]` key whose `k` holds a non-object. The `if let` at src/parser.rs:183 and src/parser.rs:192 skips the update.
- **Keys such as `a[b][c]`.** Such a key splits into three pieces at src/parser.rs:162 and reaches `panic!` at src/parser.rs:169.
- **Fallback text.** The escape decoder appends fallback text before the bytes still pending are flushed. So `\x41\xGG` decodes to `\xGGA`, not `A\xGG`.

## Model

| member | source | states |
|---|---|---|
| Parser.DecodeEscapeSequences | src/parser.rs:71-128 | the loop's output equals the lexer-plus-renderer decoding in which a cut-off `\x` keeps its remaining character |
| Decoder.DecodeEscapeSequences | src/decoder.rs:18-81 | the loop's output equals the lexer-plus-renderer decoding in which a cut-off `\x` loses its remaining character |
| Escape.Lex | src/parser.rs:76-120 | every character of the input lands in exactly one token: spelling the tokens out again gives the input |
| Escape.TruncatedOnlyLast | src/parser.rs:97-108 | a cut-off `\x` can only be the last token and leaves at most one character |
| Escape.NoEscapeIdentity | src/parser.rs:80-91 | text in which no `\` precedes an `x` (the empty text included) decodes to itself, in both copies, so decoding is idempotent on it |
| Escape.Render | src/parser.rs:84-125 | the output is never longer than the pending bytes plus the text of the tokens still to render |
| Escape.DecodeEscapes | src/decoder.rs:18-81 | the decoded text is never longer than the input |
| Escape.RenderRun | src/parser.rs:113-115 | a run of valid escapes writes nothing and adds its bytes, in order, to the pending ones |
| Escape.EscapeRunIsOneBatch | src/parser.rs:113-125 | any run of escapes that `from_str_radix` accepts, in any spelling it accepts (upper- or lower-case digits, `+` and a digit), is decoded as one batch of its bytes by the lossy decoder |
| Escape.FlushBeforeOrdinary | src/parser.rs:84-90 | after any such run the batch is flushed before the next ordinary character, which follows it, and the rest is decoded afresh |
| Escape.TextRoundTrip | src/parser.rs:231-237 | escaping the UTF-8 bytes of any text as `\xHH` and decoding gives the text back, as in `\x48\x65\x6C\x6C\x6F` giving `Hello` |
| Escape.PlainPrefix | src/parser.rs:80-91 | escape-free text ahead of the rest is copied and the rest is decoded on its own, unless a trailing backslash and an `x` of the rest form a `\x` |
| Escape.PlainThenInvalidPair | src/parser.rs:228 | escape-free text followed by a pair `from_str_radix` rejects is kept whole, as `hello\xGG` stays `hello\xGG` |
| Escape.PlainThenRun | src/parser.rs:242 | escape-free text followed by a run of valid escapes gives the text and then the run's bytes decoded as one batch, as `Data: \x44\x61\x74\x61` gives `Data: Data` |
| Escape.InvalidPairVerbatim | src/parser.rs:109-119 | a pair that `from_str_radix` rejects consumes both characters, adds no byte and is copied with its `\x` |
| Escape.TruncatedAtEnd | src/parser.rs:97-108 | a `\x` cut off at the end keeps its one remaining character in parser.rs (`hello\x6` stays) and is cut down to `\x` in decoder.rs |
| Escape.FallbackTextOvertakesPendingBytes | src/decoder.rs:50-58 | after any run of valid escapes, a rejected pair or a cut-off `\x` is written before the run's bytes, which stay pending for what follows, in both copies |
| Escape.VariantsDifferOnlyOnCutPair | src/decoder.rs:40-58 | the two copies agree exactly on the inputs whose last token, as `Lex` cuts the text, is not a `\x` with one character left, and on the others (last token a `\x` with one character left) parser.rs gives one character more |
| Radix.FromStrRadix16 | src/parser.rs:113 | a parse succeeds only on hexadecimal digits, or `+` and at least one digit; a non-empty string of digits parses exactly when its value fits in a byte, and to that value |
| Radix.FromStrRadix16Pair | src/parser.rs:111-113 | a two-character string parses exactly when it is two hex digits or `+` and one hex digit, with the values those digits spell |
| Radix.HexPairRoundTrip | src/decoder.rs:41-44 | the two-digit spelling of any byte parses back to that byte |
| Utf8.DecodeLossy | src/parser.rs:85 | the lossy decoding is never longer than the bytes and is empty only for no bytes |
| Utf8.DecodeLossyAscii | src/decoder.rs:61-66 | bytes below 0x80 decode one by one to the characters with those codes |
| Utf8.FromUtf8 | src/parser.rs:56-57 | the strict decoder succeeds exactly on well-formed UTF-8, and the text it gives encodes back to the input bytes |
| Utf8.Encode | src/parser.rs:140 | `as_bytes` gives at least one byte per character |
| Utf8.EncodeConcat | src/parser.rs:140 | the bytes of two texts joined are the bytes of the first followed by those of the second |
| Utf8.FromUtf8Characterization | src/parser.rs:134-136 | the strict decoder gives text s exactly for the bytes that encode s |
| Utf8.DecodeEncode | src/parser.rs:138-140 | decoding the UTF-8 encoding of any text gives the text |
| Percent.PercentDecode | src/decoder.rs:6 | percent decoding never makes the bytes longer |
| Percent.DecodeTriplet | src/decoder.rs:122-129 | a triplet `%XY` becomes the byte it spells, as `%20` becomes a space |
| Percent.DecodeEncode | src/decoder.rs:131-138 | decoding undoes writing every byte as a triplet, `%` itself included |
| Percent.DecodeEncodedPrefix | src/decoder.rs:140-147 | a run of triplets is decoded on its own, whatever follows it |
| Percent.NoPercentIdentity | src/decoder.rs:176-181 | bytes without `%`, the empty input included, are left alone |
| Percent.DecodePlainPrefix | src/decoder.rs:149-156 | a prefix without `%` passes through unchanged ahead of the decoded rest |
| Percent.LoneSignKept | src/decoder.rs:167-174 | a `%` that does not start a triplet is kept, and what follows it is decoded as usual |
| Percent.PercentSignItself | src/decoder.rs:158-165 | for any `a` and `b` without `%`, `a%25%20b` becomes `a% b`, as `50%25%20off` becomes `50% off`: the `%` that `%25` yields is not decoded again |
| Percent.IncompleteTripletKept | src/decoder.rs:167-174 | `Invalid%2` is left unchanged |
| Percent.EncodeEncodeText | src/decoder.rs:6 | the bytes of the text of the triplets are the triplets of the bytes |
| Decoder.DecodeInput | src/decoder.rs:5-15 | a failure carries the message `"EUC-KR decoding error"`, and a success is never longer than the text the codec gave |
| Decoder.TripletsReachCodec | src/decoder.rs:88-93 | a text written as triplets hands the codec exactly the bytes they spell |
| Decoder.PlainAroundTriplets | src/decoder.rs:102-114 | text without `%` on both sides of a run of triplets hands the codec its own UTF-8 bytes around the bytes the triplets spell, as for `Caf%E9` and `key=%BE%C8%B3%E7&arr[]=value2&somemap[key3]=value3` |
| Decoder.PassThrough | src/decoder.rs:109-114 | text with no `%` and no `\x`, which the codec gives back as it is, passes the whole pipeline unchanged, `=`, `&`, `[` and `]` included |
| KeyPath.Split | src/parser.rs:162 | splitting always gives at least one piece |
| KeyPath.SplitLength | src/parser.rs:162 | splitting gives one piece more than there are separators |
| KeyPath.SplitPiecesHaveNoSep | src/parser.rs:162 | no piece contains the separator |
| KeyPath.JoinSplit | src/parser.rs:162 | joining the pieces with the separator gives the key back |
| KeyPath.SplitAtFirstSep | src/parser.rs:158-162 | a key splits at its first `[` into what comes before it and the pieces of the rest |
| KeyPath.TrimEndMatches | src/parser.rs:168 | the trimmed sub-key is the longest prefix that does not end in `]`, and only `]` were removed |
| KeyPath.TrimAllClosing | src/parser.rs:168 | a sub-key made only of `]` (as in `k[]`) trims to empty |
| KeyPath.ShapeOfPlainKey | src/parser.rs:164-166 | a key without `[` is a plain key, and its main key is the whole key |
| KeyPath.ShapeOfBracketKey | src/parser.rs:167-168 | `k[t]` (one `[`) is an array append when `t` trims to empty and a nested key with the trimmed sub-key otherwise |
| KeyPath.ShapeOf | src/parser.rs:164-170 | a key is malformed exactly when it has two or more `[`, and a plain key is the whole key and has no `[` |
| KeyPath.InsertPlainKey | src/parser.rs:173-175 | a plain key sets the entry to the string value, overwriting what was there |
| KeyPath.InsertArrayKey | src/parser.rs:177-185 | `k[` followed by any number of `]`, none included, creates `[value]`, appends to an existing array, and leaves the map unchanged when `k` holds a non-array |
| KeyPath.InsertObjectKey | src/parser.rs:186-195 | `k[s]` creates `{s: value}`, sets or overwrites `s` in an existing object, and leaves the map unchanged when `k` holds a non-object |
| KeyPath.Insert | src/parser.rs:157-198 | insertion panics exactly on keys with two or more `[` |
| KeyPath.InsertFrame | src/parser.rs:172-197 | after an insertion the keys are the old keys plus the main key, and every other entry is unchanged |
| KeyPath.Fold | src/parser.rs:143-145 | a fold that completes never loses a key |
| KeyPath.FoldFrame | src/parser.rs:143-145 | after a completed fold the keys are the old ones plus the pairs' main keys, and every entry that no pair names is unchanged |
| KeyPath.FoldPanicIff | src/parser.rs:143-145 | folding the pairs panics exactly when some key has two or more `[` |
| KeyPath.FoldConcat | src/parser.rs:143-145 | folding two runs of pairs is folding the first and then the second from its result |
| KeyPath.FoldAppendPairs | src/parser.rs:143-144 | repeated `k[]` pairs land in the array at `k` in input order |
| KeyPath.PlainKeyLastWins | src/parser.rs:173-174 | of two pairs with the same plain key the later value wins |
| KeyPath.PlainThenArrayPairs | src/parser.rs:140-147 | two plain pairs and two `a[]` pairs give two strings and the two-element array in order |
| KeyPath.NestedThenArrayPairs | src/parser.rs:140-147 | `p[c]=v&a[]=i` gives `{p: {c: v}, a: [i]}` |
| Parser.FormObject.constructor | src/parser.rs:141 | a fresh object has no entries |
| Parser.FormObject.AddOrUpdateValue | src/parser.rs:157-198 | reaches the panic exactly when `Insert` does, then changes nothing; otherwise the entries become what `Insert` gives |
| Parser.FormUrlEncodedParse | src/parser.rs:133-155 | the outcome is `FormParse`: `Null` for bytes that are not UTF-8, otherwise the fold of the pairs into a fresh object, or the panic |
| Parser.FormParse | src/parser.rs:133-155 | the result is `Null` exactly for bytes that are not UTF-8; otherwise it is an object or the panic `"Unexpected key format"` |
| Parser.FormParsePanicIff | src/parser.rs:140-147 | for UTF-8 input the parse panics exactly when a key of the form body has two or more `[` |
| Parser.JsonParse | src/parser.rs:55-67 | bytes that are not UTF-8 give `Null` |
| Parser.JsonParseSeesInput | src/parser.rs:56-60 | UTF-8 input without escapes reaches the JSON grammar exactly as given, and a grammar failure gives `Null` |
| Parser.DecodeInput | src/parser.rs:22-38 | the UTF-8 branch is never longer than the input, and gives well-formed UTF-8 without `%` back unchanged |
| Parser.DecodeInputUtf8RoundTrip | src/parser.rs:26-30 | any text, percent-encoded byte by byte in UTF-8, comes back from the UTF-8 branch |
| Parser.DecodeInputEucKrIgnoresErrors | src/parser.rs:31-36 | the EUC-KR branch hands the codec the bytes the triplets spell and returns its text, whether or not the codec reports errors |

## Left out

- `src/main.rs`: argument parsing, the choice of charset from the flags and printing are I/O. Its call to `parse_to_json`, which is defined in none of the files, is not modelled.
- The dispatch through `DataProcessor` and the `Parser` trait only forwards a call.
- The `eprintln!`/`println!` logging is output only and is not modelled.
- The JSON grammar (`serde_json::from_slice`) is a parameter of `Parser.JsonParse`.
- `form_urlencoded::parse` is a parameter of `Parser.FormParse`, which takes the sequence of pairs as given.
- The charset codecs (`EUC_KR.decode`, `Encoding::decode` for UTF-8, EUC-KR and Windows-1252) are parameters. The repository's `decode_input` tests are therefore covered only up to the bytes the codec receives: by `Decoder.TripletsReachCodec` for the inputs made only of triplets (src/decoder.rs:90 and src/decoder.rs:97), and by `Decoder.PlainAroundTriplets` for `Caf%E9` (src/decoder.rs:104) and the query string (src/decoder.rs:111).
- `decode_utf8` in the percent_decode tests: the model stops at the decoded bytes. The Unicode test case is covered only by `Percent.DecodeEncode`.
- Insertion order of `serde_json::Map` is not kept: the object is a `map`, so key order is not modelled.
- JSON numbers are integers; floating point is not modelled.
- A `panic!` is an outcome value (`Panicked`). Unwinding is not modelled.
- AddOrUpdateValue: the `Value` reference that `entry().or_insert_with` hands out is modelled as a read followed by a write of the map entry. Aliasing of that reference is not modelled.
