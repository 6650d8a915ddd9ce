/** The textual hex-escape decoding shared by `decode_escape_sequences` in
    src/parser.rs and in src/decoder.rs, as a specification: the text is cut
    into tokens (Lex), and the tokens are rendered with a buffer of pending
    escaped bytes that is flushed through the lossy UTF-8 decoder before an
    ordinary character and at the end (Render). The two copies in the source
    cut the text the same way; they differ only in how they render a `\x`
    truncated by the end of the input with one character left. */
module Escape {
  import Seqs
  import opened Utf8
  import Radix
  import Wrappers

  datatype Token =
    | Ordinary(c: char)                      // a character that does not start `\x`
    | Byte(c1: char, c2: char, value: byte)  // `\x` and a pair that parses as a byte
    | BadPair(c1: char, c2: char)            // `\x` and a pair that does not
    | Truncated(tail: string)                // `\x` and the 0 or 1 characters left

  /** parser.rs keeps the character left after a truncated `\x`; decoder.rs drops it. */
  datatype Variant = KeepTail | DropTail

  const EscapeMark: string := "\\x"

  /** A backslash followed by `x` stands at the head of s. */
  predicate StartsEscape(s: string) {
    |s| >= 2 && s[0] == '\\' && s[1] == 'x'
  }

  /** Nowhere in s does a backslash precede an `x`. */
  predicate HasNoEscape(s: string) {
    forall i :: 0 <= i < |s| - 1 ==> !(s[i] == '\\' && s[i + 1] == 'x')
  }

  /** The tokens read left to right; the pair after `\x` is always consumed,
      whether or not it parses. Spelling the tokens out again gives the input:
      every character lands in exactly one token. */
  function Lex(s: string): (ts: seq<Token>)
    ensures Spell(ts) == s
    decreases |s|
  {
    if s == [] then []
    else if StartsEscape(s) then
      if |s| < 4 then
        assert s == EscapeMark + s[2..];
        [Truncated(s[2..])]
      else
        var t := match Radix.FromStrRadix16(s[2..4])
          case Some(b) => Byte(s[2], s[3], b)
          case None => BadPair(s[2], s[3]);
        SpellEscape(s, t, Lex(s[4..]));
        [t] + Lex(s[4..])
    else
      SpellOrdinary(s, Lex(s[1..]));
      [Ordinary(s[0])] + Lex(s[1..])
  }

  /** The source text a token was read from. */
  function SpellToken(t: Token): string {
    match t
    case Ordinary(c) => [c]
    case Byte(c1, c2, _) => EscapeMark + [c1, c2]
    case BadPair(c1, c2) => EscapeMark + [c1, c2]
    case Truncated(tail) => EscapeMark + tail
  }

  function Spell(ts: seq<Token>): string {
    if ts == [] then [] else SpellToken(ts[0]) + Spell(ts[1..])
  }

  lemma SpellCons(t: Token, ts: seq<Token>)
    ensures Spell([t] + ts) == SpellToken(t) + Spell(ts)
  {
    assert ([t] + ts)[0] == t && ([t] + ts)[1..] == ts;
  }

  lemma SpellEscape(s: string, t: Token, rest: seq<Token>)
    requires StartsEscape(s) && |s| >= 4
    requires t == BadPair(s[2], s[3]) || (t.Byte? && t.c1 == s[2] && t.c2 == s[3])
    requires Spell(rest) == s[4..]
    ensures Spell([t] + rest) == s
  {
    SpellCons(t, rest);
    assert SpellToken(t) == s[..4];
    assert s == s[..4] + s[4..];
  }

  lemma SpellOrdinary(s: string, rest: seq<Token>)
    requires s != [] && Spell(rest) == s[1..]
    ensures Spell([Ordinary(s[0])] + rest) == s
  {
    SpellCons(Ordinary(s[0]), rest);
    assert s == [s[0]] + s[1..];
  }

  /** The output for the tokens ts, with the bytes `pending` not yet flushed.
      It is never longer than the pending bytes and the text of the tokens. */
  function Render(ts: seq<Token>, pending: seq<byte>, v: Variant): (r: string)
    ensures |r| <= |pending| + |Spell(ts)|
    decreases |ts|
  {
    if ts == [] then DecodeLossy(pending)
    else
      match ts[0]
      case Ordinary(c) => DecodeLossy(pending) + [c] + Render(ts[1..], [], v)
      case Byte(_, _, b) => Render(ts[1..], pending + [b], v)
      case BadPair(c1, c2) => EscapeMark + [c1, c2] + Render(ts[1..], pending, v)
      case Truncated(tail) =>
        EscapeMark + (if v == KeepTail then tail else []) + Render(ts[1..], pending, v)
  }

  /** `decode_escape_sequences`: KeepTail for src/parser.rs, DropTail for src/decoder.rs. */
  function DecodeEscapes(s: string, v: Variant): (r: string)
    ensures |r| <= |s|
  {
    Render(Lex(s), [], v)
  }

  /** The escape-spelling of one byte, `\xHH` with upper-case digits. */
  function EscapeOf(b: byte): (s: string)
    ensures |s| == 4
  {
    EscapeMark + Radix.HexPair(b)
  }

  /** The escape-spelling of bytes, one after the other. */
  function EscapeText(bs: seq<byte>): (s: string)
    ensures |s| == 4 * |bs|
  {
    if bs == [] then [] else EscapeOf(bs[0]) + EscapeText(bs[1..])
  }

  function Ordinaries(s: string): (ts: seq<Token>)
    ensures |ts| == |s|
  {
    if s == [] then [] else [Ordinary(s[0])] + Ordinaries(s[1..])
  }

  /** Only the last token can be Truncated, and it holds at most one character. */
  lemma {:induction false} TruncatedOnlyLast(s: string)
    ensures forall i :: 0 <= i < |Lex(s)| && Lex(s)[i].Truncated? ==>
              i == |Lex(s)| - 1 && |Lex(s)[i].tail| <= 1
    decreases |s|
  {
    if s == [] || (StartsEscape(s) && |s| < 4) {
    } else {
      var k := if StartsEscape(s) then 4 else 1;
      TruncatedOnlyLast(s[k..]);
      assert Lex(s) == [Lex(s)[0]] + Lex(s[k..]);
      assert !Lex(s)[0].Truncated?;
      forall i | 0 <= i < |Lex(s)| && Lex(s)[i].Truncated?
        ensures i == |Lex(s)| - 1 && |Lex(s)[i].tail| <= 1
      {
        assert i > 0 && Lex(s)[i] == Lex(s[k..])[i - 1];
      }
    }
  }

  // ---------------------------------------------------------------------------
  // Text without escapes

  lemma {:induction false} LexPlainPrefix(s: string, t: string)
    requires HasNoEscape(s)
    requires |s| > 0 && s[|s| - 1] == '\\' ==> !(|t| > 0 && t[0] == 'x')
    ensures Lex(s + t) == Ordinaries(s) + Lex(t)
    decreases |s|
  {
    if s == [] {
      assert s + t == t;
    } else {
      PlainStep(s, t);
      LexPlainPrefix(s[1..], t);
      OrdinariesCons(s, Lex(t));
    }
  }

  lemma OrdinariesCons(s: string, rest: seq<Token>)
    requires s != []
    ensures Ordinaries(s) + rest == [Ordinary(s[0])] + (Ordinaries(s[1..]) + rest)
  {
  }

  lemma PlainStep(s: string, t: string)
    requires s != [] && HasNoEscape(s)
    requires s[|s| - 1] == '\\' ==> !(|t| > 0 && t[0] == 'x')
    ensures HasNoEscape(s[1..])
    ensures Lex(s + t) == [Ordinary(s[0])] + Lex(s[1..] + t)
  {
    NoEscapeTail(s);
    PlainHead(s, t);
    LexOrdinary(s + t);
    Seqs.TailOfConcat(s, t);
  }

  /** Dropping the first character keeps a string free of escapes. */
  lemma NoEscapeTail(s: string)
    requires s != [] && HasNoEscape(s)
    ensures HasNoEscape(s[1..])
  {
    forall i | 0 <= i < |s[1..]| - 1
      ensures !(s[1..][i] == '\\' && s[1..][i + 1] == 'x')
    {
      assert s[1..][i] == s[i + 1] && s[1..][i + 1] == s[i + 2];
    }
  }

  lemma PlainHead(s: string, t: string)
    requires s != [] && HasNoEscape(s)
    requires s[|s| - 1] == '\\' ==> !(|t| > 0 && t[0] == 'x')
    ensures s + t != [] && (s + t)[0] == s[0] && !StartsEscape(s + t)
  {
    var u := s + t;
    assert u[0] == s[0];
    if |s| >= 2 {
      assert u[1] == s[1];
      assert !(s[0] == '\\' && s[1] == 'x');
    } else if |t| > 0 {
      assert u[1] == t[0];
    }
  }

  /** A string that does not open with an escape yields its first character as it is. */
  lemma LexOrdinary(u: string)
    requires u != [] && !StartsEscape(u)
    ensures Lex(u) == [Ordinary(u[0])] + Lex(u[1..])
  {
  }

  lemma {:induction false} RenderOrdinaries(s: string, rest: seq<Token>, v: Variant)
    ensures Render(Ordinaries(s) + rest, [], v) == s + Render(rest, [], v)
  {
    if s == [] {
      assert Ordinaries(s) + rest == rest;
    } else {
      var tail := Ordinaries(s[1..]) + rest;
      assert Render(Ordinaries(s) + rest, [], v) == [s[0]] + Render(tail, [], v) by {
        assert Ordinaries(s) + rest == [Ordinary(s[0])] + tail;
        RenderOrdinaryHead(s[0], tail, v);
      }
      assert Render(tail, [], v) == s[1..] + Render(rest, [], v) by {
        RenderOrdinaries(s[1..], rest, v);
      }
      Seqs.ConsSplit(s, Render(rest, [], v));
    }
  }

  lemma RenderOrdinaryHead(c: char, rest: seq<Token>, v: Variant)
    ensures Render([Ordinary(c)] + rest, [], v) == [c] + Render(rest, [], v)
  {
    var ts := [Ordinary(c)] + rest;
    assert ts[0] == Ordinary(c) && ts[1..] == rest;
    assert DecodeLossy([]) == [];
  }

  /** Text in which no backslash precedes an `x` comes out unchanged, so decoding
      is idempotent on it; in particular the empty text decodes to itself. */
  lemma NoEscapeIdentity(s: string, v: Variant)
    requires HasNoEscape(s)
    ensures DecodeEscapes(s, v) == s
    ensures DecodeEscapes(DecodeEscapes(s, v), v) == DecodeEscapes(s, v)
  {
    LexPlainPrefix(s, []);
    assert s + [] == s;
    RenderOrdinaries(s, [], v);
    assert Ordinaries(s) + [] == Ordinaries(s);
  }

  // ---------------------------------------------------------------------------
  // Runs of valid escapes

  /** `\x` and a pair, for each pair in turn: a run of escapes with nothing between them. */
  function EscapeRun(ps: seq<(char, char)>): (s: string)
    ensures |s| == 4 * |ps|
  {
    if ps == [] then [] else EscapeMark + [ps[0].0, ps[0].1] + EscapeRun(ps[1..])
  }

  /** Every pair parses with `from_str_radix`, to the byte at the same place in bs:
      upper or lower case digits, or `+` and one digit. */
  predicate ValidPairs(ps: seq<(char, char)>, bs: seq<byte>) {
    |ps| == |bs| &&
    forall i :: 0 <= i < |ps| ==> Radix.FromStrRadix16([ps[i].0, ps[i].1]) == Wrappers.Some(bs[i])
  }

  lemma ValidPairsTail(ps: seq<(char, char)>, bs: seq<byte>)
    requires ValidPairs(ps, bs) && ps != []
    ensures ValidPairs(ps[1..], bs[1..])
    ensures Radix.FromStrRadix16([ps[0].0, ps[0].1]) == Wrappers.Some(bs[0])
  {
    forall i | 0 <= i < |ps[1..]|
      ensures Radix.FromStrRadix16([ps[1..][i].0, ps[1..][i].1]) == Wrappers.Some(bs[1..][i])
    {
      assert ps[1..][i] == ps[i + 1] && bs[1..][i] == bs[i + 1];
    }
  }

  /** The first escape of a run, as the lexer sees it. */
  lemma RunHead(ps: seq<(char, char)>, t: string)
    requires ps != []
    ensures var u := EscapeRun(ps) + t;
            StartsEscape(u) && |u| >= 4 && u[2..4] == [ps[0].0, ps[0].1] && u[4..] == EscapeRun(ps[1..]) + t
  {
    var w := EscapeMark + [ps[0].0, ps[0].1];
    var x := EscapeRun(ps[1..]) + t;
    assert EscapeRun(ps) + t == w + x by {
      Seqs.Associate(w, EscapeRun(ps[1..]), t);
    }
    assert w[0] == '\\' && w[1] == 'x' && w[2..4] == [ps[0].0, ps[0].1];
    FourSlices(w, x);
  }

  lemma FourSlices(w: string, x: string)
    requires |w| == 4
    ensures (w + x)[0] == w[0] && (w + x)[1] == w[1] && (w + x)[2..4] == w[2..4] && (w + x)[4..] == x
  {
  }

  /** Reading a run adds its bytes to the pending ones and writes nothing. */
  lemma {:induction false} RenderRun(ps: seq<(char, char)>, bs: seq<byte>, t: string, pending: seq<byte>, v: Variant)
    requires ValidPairs(ps, bs)
    ensures Render(Lex(EscapeRun(ps) + t), pending, v) == Render(Lex(t), pending + bs, v)
    decreases |ps|
  {
    if ps == [] {
      assert EscapeRun(ps) + t == t;
      assert pending + bs == pending;
    } else {
      ValidPairsTail(ps, bs);
      RunHead(ps, t);
      StepByte(EscapeRun(ps) + t, pending, v, bs[0]);
      RenderRun(ps[1..], bs[1..], t, pending + [bs[0]], v);
      Seqs.AppendHead(pending, bs);
    }
  }

  /** A run of valid escapes, however its pairs are spelled, is decoded as one batch of bytes. */
  lemma EscapeRunIsOneBatch(ps: seq<(char, char)>, bs: seq<byte>, v: Variant)
    requires ValidPairs(ps, bs)
    ensures DecodeEscapes(EscapeRun(ps), v) == DecodeLossy(bs)
  {
    RenderRun(ps, bs, [], [], v);
    assert EscapeRun(ps) + [] == EscapeRun(ps);
    assert [] + bs == bs;
    StepEnd(bs, v);
  }

  /** The batch is flushed before the next ordinary character, and decoding goes on after it. */
  lemma FlushBeforeOrdinary(ps: seq<(char, char)>, bs: seq<byte>, c: char, t: string, v: Variant)
    requires ValidPairs(ps, bs) && !StartsEscape([c] + t)
    ensures DecodeEscapes(EscapeRun(ps) + [c] + t, v) == DecodeLossy(bs) + [c] + DecodeEscapes(t, v)
  {
    var u := [c] + t;
    assert EscapeRun(ps) + [c] + t == EscapeRun(ps) + u by {
      Seqs.Associate(EscapeRun(ps), [c], t);
    }
    assert DecodeEscapes(EscapeRun(ps) + u, v) == Render(Lex(u), bs, v) by {
      RenderRun(ps, bs, u, [], v);
      assert [] + bs == bs;
    }
    assert Render(Lex(u), bs, v) == DecodeLossy(bs) + [c] + DecodeEscapes(t, v) by {
      StepOrdinary(u, bs, v);
      assert u[1..] == t;
    }
  }

  /** `\xHH` with upper-case digits, for each byte: the run `EscapeText` spells. */
  function HexPairs(bs: seq<byte>): (ps: seq<(char, char)>)
    ensures |ps| == |bs|
  {
    if bs == [] then [] else [(Radix.HexPair(bs[0])[0], Radix.HexPair(bs[0])[1])] + HexPairs(bs[1..])
  }

  lemma {:induction false} EscapeTextIsRun(bs: seq<byte>)
    ensures EscapeText(bs) == EscapeRun(HexPairs(bs))
    ensures ValidPairs(HexPairs(bs), bs)
  {
    if bs != [] {
      EscapeTextIsRun(bs[1..]);
      var h := Radix.HexPair(bs[0]);
      var ps := HexPairs(bs);
      assert h == [h[0], h[1]];
      Radix.HexPairRoundTrip(bs[0]);
      assert ps[0] == (h[0], h[1]) && ps[1..] == HexPairs(bs[1..]);
      forall i | 0 <= i < |ps|
        ensures Radix.FromStrRadix16([ps[i].0, ps[i].1]) == Wrappers.Some(bs[i])
      {
        if i > 0 {
          assert ps[i] == HexPairs(bs[1..])[i - 1] && bs[i] == bs[1..][i - 1];
        }
      }
    }
  }

  /** Escaping the UTF-8 bytes of any text and decoding gives the text back. */
  lemma TextRoundTrip(s: string, v: Variant)
    ensures DecodeEscapes(EscapeText(Encode(s)), v) == s
  {
    EscapeTextIsRun(Encode(s));
    EscapeRunIsOneBatch(HexPairs(Encode(s)), Encode(s), v);
    DecodeEncode(s);
  }

  // ---------------------------------------------------------------------------
  // Fallback text: invalid pairs and truncated escapes

  /** Escape-free text ahead of the rest is copied, and the rest is decoded on its own,
      unless the text ends in a backslash that an `x` of the rest would complete. */
  lemma PlainPrefix(s: string, t: string, v: Variant)
    requires HasNoEscape(s)
    requires |s| > 0 && s[|s| - 1] == '\\' ==> !(|t| > 0 && t[0] == 'x')
    ensures DecodeEscapes(s + t, v) == s + DecodeEscapes(t, v)
  {
    LexPlainPrefix(s, t);
    RenderOrdinaries(s, Lex(t), v);
  }

  /** Escape-free text and then a pair that `from_str_radix` rejects: all of it is
      kept, as `hello\xGG` stays `hello\xGG`. */
  lemma PlainThenInvalidPair(s: string, c1: char, c2: char, v: Variant)
    requires HasNoEscape(s) && Radix.FromStrRadix16([c1, c2]).None?
    ensures DecodeEscapes(s + (EscapeMark + [c1, c2]), v) == s + EscapeMark + [c1, c2]
  {
    var u := EscapeMark + [c1, c2];
    PlainPrefix(s, u, v);
    InvalidPairVerbatim(c1, c2, [], v);
    assert u + [] == u;
    assert DecodeEscapes([], v) == [];
  }

  /** Escape-free text and then a run of valid escapes: the text, then the run's
      bytes decoded as one batch, as `Data: \x44\x61\x74\x61` gives `Data: Data`. */
  lemma PlainThenRun(s: string, ps: seq<(char, char)>, bs: seq<byte>, v: Variant)
    requires HasNoEscape(s) && ValidPairs(ps, bs)
    ensures DecodeEscapes(s + EscapeRun(ps), v) == s + DecodeLossy(bs)
  {
    if ps != [] {
      RunHead(ps, []);
      assert EscapeRun(ps) + [] == EscapeRun(ps);
    }
    PlainPrefix(s, EscapeRun(ps), v);
    EscapeRunIsOneBatch(ps, bs, v);
  }

  /** An invalid pair consumes both characters and is copied verbatim. */
  lemma InvalidPairVerbatim(c1: char, c2: char, t: string, v: Variant)
    requires Radix.FromStrRadix16([c1, c2]).None?
    ensures DecodeEscapes(EscapeMark + [c1, c2] + t, v) == EscapeMark + [c1, c2] + DecodeEscapes(t, v)
  {
    var u := EscapeMark + [c1, c2] + t;
    assert u[2..4] == [c1, c2] && u[4..] == t;
  }

  /** A `\x` cut off by the end of the input after plain text is kept as written by
      parser.rs, with its one remaining character, and cut down to `\x` by decoder.rs. */
  lemma TruncatedAtEnd(s: string, tail: string)
    requires HasNoEscape(s) && |tail| <= 1
    ensures DecodeEscapes(s + EscapeMark + tail, KeepTail) == s + EscapeMark + tail
    ensures DecodeEscapes(s + EscapeMark + tail, DropTail) == s + EscapeMark
  {
    var u := EscapeMark + tail;
    assert s + EscapeMark + tail == s + u;
    LexPlainPrefix(s, u);
    assert u[2..] == tail;
    assert Lex(u) == [Truncated(tail)];
    RenderOrdinaries(s, Lex(u), KeepTail);
    RenderOrdinaries(s, Lex(u), DropTail);
  }

  /** Fallback text does not flush the pending bytes: both copies append it before
      the bytes escaped ahead of it, which stay pending for what follows. So `\x41\xGG`
      decodes to `\xGGA` and `\x41\x` to `\xA`. */
  lemma FallbackTextOvertakesPendingBytes(ps: seq<(char, char)>, bs: seq<byte>, c1: char, c2: char, t: string, tail: string, v: Variant)
    requires ValidPairs(ps, bs) && Radix.FromStrRadix16([c1, c2]).None? && |tail| <= 1
    ensures DecodeEscapes(EscapeRun(ps) + EscapeMark + [c1, c2] + t, v)
         == EscapeMark + [c1, c2] + Render(Lex(t), bs, v)
    ensures DecodeEscapes(EscapeRun(ps) + EscapeMark + [c1, c2], v) == EscapeMark + [c1, c2] + DecodeLossy(bs)
    ensures DecodeEscapes(EscapeRun(ps) + EscapeMark + tail, v)
         == EscapeMark + (if v == KeepTail then tail else []) + DecodeLossy(bs)
  {
    InvalidPairAfterRun(ps, bs, c1, c2, t, v);
    InvalidPairAfterRun(ps, bs, c1, c2, [], v);
    assert EscapeRun(ps) + EscapeMark + [c1, c2] + [] == EscapeRun(ps) + EscapeMark + [c1, c2];
    StepEnd(bs, v);
    TruncatedAfterRun(ps, bs, tail, v);
  }

  lemma InvalidPairAfterRun(ps: seq<(char, char)>, bs: seq<byte>, c1: char, c2: char, t: string, v: Variant)
    requires ValidPairs(ps, bs) && Radix.FromStrRadix16([c1, c2]).None?
    ensures DecodeEscapes(EscapeRun(ps) + EscapeMark + [c1, c2] + t, v)
         == EscapeMark + [c1, c2] + Render(Lex(t), bs, v)
  {
    var u := EscapeMark + [c1, c2] + t;
    assert EscapeRun(ps) + EscapeMark + [c1, c2] + t == EscapeRun(ps) + u by {
      Seqs.Associate(EscapeRun(ps), EscapeMark + [c1, c2], t);
      Seqs.Associate(EscapeRun(ps), EscapeMark, [c1, c2]);
    }
    assert DecodeEscapes(EscapeRun(ps) + u, v) == Render(Lex(u), bs, v) by {
      RenderRun(ps, bs, u, [], v);
      assert [] + bs == bs;
    }
    assert Render(Lex(u), bs, v) == EscapeMark + [c1, c2] + Render(Lex(t), bs, v) by {
      FourSlices(EscapeMark + [c1, c2], t);
      StepBadPair(u, bs, v);
    }
  }

  lemma TruncatedAfterRun(ps: seq<(char, char)>, bs: seq<byte>, tail: string, v: Variant)
    requires ValidPairs(ps, bs) && |tail| <= 1
    ensures DecodeEscapes(EscapeRun(ps) + EscapeMark + tail, v)
         == EscapeMark + (if v == KeepTail then tail else []) + DecodeLossy(bs)
  {
    var u := EscapeMark + tail;
    assert EscapeRun(ps) + EscapeMark + tail == EscapeRun(ps) + u by {
      Seqs.Associate(EscapeRun(ps), EscapeMark, tail);
    }
    assert DecodeEscapes(EscapeRun(ps) + u, v) == Render(Lex(u), bs, v) by {
      RenderRun(ps, bs, u, [], v);
      assert [] + bs == bs;
    }
    assert Render(Lex(u), bs, v) == EscapeMark + (if v == KeepTail then tail else []) + DecodeLossy(bs) by {
      assert u[2..] == tail;
      StepTruncated(u, bs, v);
    }
  }

  // ---------------------------------------------------------------------------
  // The two variants compared

  /** The characters a truncated escape leaves behind, summed over the tokens. */
  function TailLength(ts: seq<Token>): nat {
    if ts == [] then 0
    else (if ts[0].Truncated? then |ts[0].tail| else 0) + TailLength(ts[1..])
  }

  lemma {:induction false} RenderVariants(ts: seq<Token>, pending: seq<byte>)
    ensures |Render(ts, pending, KeepTail)| == |Render(ts, pending, DropTail)| + TailLength(ts)
    ensures TailLength(ts) == 0 ==> Render(ts, pending, KeepTail) == Render(ts, pending, DropTail)
    decreases |ts|
  {
    if ts != [] {
      match ts[0]
      case Ordinary(_) => RenderVariants(ts[1..], []);
      case Byte(_, _, b) => RenderVariants(ts[1..], pending + [b]);
      case BadPair(_, _) => RenderVariants(ts[1..], pending);
      case Truncated(_) => RenderVariants(ts[1..], pending);
    }
  }

  /** The input ends in `\x` and exactly one more character, as the lexer reads it. */
  predicate EndsInCutPair(s: string) {
    var ts := Lex(s);
    |ts| > 0 && ts[|ts| - 1].Truncated? && |ts[|ts| - 1].tail| == 1
  }

  lemma {:induction false} TailLengthOfLastOnly(ts: seq<Token>)
    requires forall i :: 0 <= i < |ts| && ts[i].Truncated? ==> i == |ts| - 1 && |ts[i].tail| <= 1
    ensures TailLength(ts) == if |ts| > 0 && ts[|ts| - 1].Truncated? then |ts[|ts| - 1].tail| else 0
  {
    if ts != [] {
      assert forall i :: 0 <= i < |ts[1..]| && ts[1..][i].Truncated? ==>
        i == |ts[1..]| - 1 && |ts[1..][i].tail| <= 1 by {
        forall i | 0 <= i < |ts[1..]| && ts[1..][i].Truncated?
          ensures i == |ts[1..]| - 1 && |ts[1..][i].tail| <= 1
        {
          assert ts[1..][i] == ts[i + 1];
        }
      }
      TailLengthOfLastOnly(ts[1..]);
    }
  }

  /** The two copies of the decoder agree on every input except those that end in a
      cut-off pair, where parser.rs keeps one character more than decoder.rs. */
  lemma VariantsDifferOnlyOnCutPair(s: string)
    ensures DecodeEscapes(s, KeepTail) == DecodeEscapes(s, DropTail) <==> !EndsInCutPair(s)
    ensures |DecodeEscapes(s, KeepTail)| == |DecodeEscapes(s, DropTail)| + (if EndsInCutPair(s) then 1 else 0)
  {
    RenderVariants(Lex(s), []);
    TruncatedOnlyLast(s);
    TailLengthOfLastOnly(Lex(s));
  }

  // ------------------------------------------------------------ one scanner step
  // What is left of the output, `Render(Lex(u), pending, v)`, after one step of
  // the character loop on the unread text u with the bytes pending.

  /** An ordinary character: the pending bytes are flushed, then the character is copied. */
  lemma StepOrdinary(u: string, pending: seq<byte>, v: Variant)
    requires u != [] && !StartsEscape(u)
    ensures Render(Lex(u), pending, v) == DecodeLossy(pending) + [u[0]] + Render(Lex(u[1..]), [], v)
  {
    LexOrdinary(u);
    var ts := Lex(u);
    assert ts[0] == Ordinary(u[0]) && ts[1..] == Lex(u[1..]);
  }

  /** `\x` and at most one more character at the end of the text. */
  lemma StepTruncated(u: string, pending: seq<byte>, v: Variant)
    requires StartsEscape(u) && |u| < 4
    ensures Render(Lex(u), pending, v) == EscapeMark + (if v == KeepTail then u[2..] else []) + DecodeLossy(pending)
  {
    var ts := Lex(u);
    assert ts == [Truncated(u[2..])];
    assert ts[1..] == [];
  }

  /** `\x` and two characters that parse: one more byte is pending. */
  lemma StepByte(u: string, pending: seq<byte>, v: Variant, b: byte)
    requires StartsEscape(u) && |u| >= 4 && Radix.FromStrRadix16(u[2..4]) == Wrappers.Some(b)
    ensures Render(Lex(u), pending, v) == Render(Lex(u[4..]), pending + [b], v)
  {
    var ts := Lex(u);
    assert ts == [Byte(u[2], u[3], b)] + Lex(u[4..]);
    assert ts[0] == Byte(u[2], u[3], b) && ts[1..] == Lex(u[4..]);
  }

  /** `\x` and two characters that do not parse: copied, the pending bytes stay pending. */
  lemma StepBadPair(u: string, pending: seq<byte>, v: Variant)
    requires StartsEscape(u) && |u| >= 4 && Radix.FromStrRadix16(u[2..4]).None?
    ensures Render(Lex(u), pending, v) == EscapeMark + u[2..4] + Render(Lex(u[4..]), pending, v)
  {
    var ts := Lex(u);
    assert ts == [BadPair(u[2], u[3])] + Lex(u[4..]);
    assert ts[0] == BadPair(u[2], u[3]) && ts[1..] == Lex(u[4..]);
    assert u[2..4] == [u[2], u[3]];
  }

  /** At the end of the text only the pending bytes remain. */
  lemma StepEnd(pending: seq<byte>, v: Variant)
    ensures Render(Lex([]), pending, v) == DecodeLossy(pending)
  {
  }

  // ------------------------------------------------------------ the scanning loop
  // The invariant of a loop that has read input[..i]: what it has written,
  // followed by what the rest of the text and the pending bytes will give, is
  // the whole decoding.

  predicate Scanned(input: string, i: nat, result: string, pending: seq<byte>, v: Variant) {
    i <= |input| && result + Render(Lex(input[i..]), pending, v) == DecodeEscapes(input, v)
  }

  lemma ScanStart(input: string, v: Variant)
    ensures Scanned(input, 0, [], [], v)
  {
    assert input[0..] == input;
  }

  /** An ordinary character, read at i: flush, then copy it. */
  lemma ScanOrdinary(input: string, i: nat, result: string, pending: seq<byte>, v: Variant)
    requires Scanned(input, i, result, pending, v) && i < |input|
    requires !(input[i] == '\\' && i + 1 < |input| && input[i + 1] == 'x')
    ensures Scanned(input, i + 1, result + DecodeLossy(pending) + [input[i]], [], v)
  {
    var u := input[i..];
    StepOrdinary(u, pending, v);
    assert u[1..] == input[i + 1..];
    var rest := Render(Lex(input[i + 1..]), [], v);
    Seqs.Associate(result, DecodeLossy(pending) + [input[i]], rest);
    Seqs.Associate(result, DecodeLossy(pending), [input[i]]);
  }

  /** `\x` as the last two characters. */
  lemma ScanLoneMark(input: string, i: nat, result: string, pending: seq<byte>, v: Variant)
    requires Scanned(input, i, result, pending, v) && i + 2 == |input|
    requires input[i] == '\\' && input[i + 1] == 'x'
    ensures Scanned(input, |input|, result + EscapeMark, pending, v)
  {
    var u := input[i..];
    StepTruncated(u, pending, v);
    assert u[2..] == [] && EscapeMark + [] == EscapeMark;
    Seqs.Associate(result, EscapeMark, DecodeLossy(pending));
  }

  /** `\x` and one character as the last three, in parser.rs: the character is kept. */
  lemma ScanKeptPair(input: string, i: nat, result: string, pending: seq<byte>)
    requires Scanned(input, i, result, pending, KeepTail) && i + 3 == |input|
    requires input[i] == '\\' && input[i + 1] == 'x'
    ensures Scanned(input, |input|, result + EscapeMark + [input[i + 2]], pending, KeepTail)
  {
    var u := input[i..];
    assert Render(Lex(u), pending, KeepTail) == EscapeMark + [input[i + 2]] + DecodeLossy(pending) by {
      StepTruncated(u, pending, KeepTail);
      assert u[2..] == [input[i + 2]];
    }
    assert Render(Lex(input[|input|..]), pending, KeepTail) == DecodeLossy(pending) by {
      assert input[|input|..] == [];
    }
    Seqs.Associate(result, EscapeMark + [input[i + 2]], DecodeLossy(pending));
  }

  /** `\x` and one character as the last three, in decoder.rs: the character is dropped. */
  lemma ScanDroppedPair(input: string, i: nat, result: string, pending: seq<byte>)
    requires Scanned(input, i, result, pending, DropTail) && i + 3 == |input|
    requires input[i] == '\\' && input[i + 1] == 'x'
    ensures Scanned(input, |input|, result + EscapeMark, pending, DropTail)
  {
    var u := input[i..];
    assert Render(Lex(u), pending, DropTail) == EscapeMark + DecodeLossy(pending) by {
      StepTruncated(u, pending, DropTail);
      assert EscapeMark + [] == EscapeMark;
    }
    assert Render(Lex(input[|input|..]), pending, DropTail) == DecodeLossy(pending) by {
      assert input[|input|..] == [];
    }
    Seqs.Associate(result, EscapeMark, DecodeLossy(pending));
  }

  /** `\x` and two characters that parse, read at i: one more byte is pending. */
  lemma ScanByte(input: string, i: nat, result: string, pending: seq<byte>, v: Variant, b: byte)
    requires Scanned(input, i, result, pending, v) && i + 4 <= |input|
    requires input[i] == '\\' && input[i + 1] == 'x'
    requires Radix.FromStrRadix16([input[i + 2], input[i + 3]]) == Wrappers.Some(b)
    ensures Scanned(input, i + 4, result, pending + [b], v)
  {
    var u := input[i..];
    PairSlices(input, i);
    StepByte(u, pending, v, b);
  }

  lemma PairSlices(input: string, i: nat)
    requires i + 4 <= |input|
    ensures input[i..][2..4] == [input[i + 2], input[i + 3]] && input[i..][4..] == input[i + 4..]
  {
  }

  /** `\x` and two characters that do not parse, read at i: all four are copied. */
  lemma ScanBadPair(input: string, i: nat, result: string, pending: seq<byte>, v: Variant)
    requires Scanned(input, i, result, pending, v) && i + 4 <= |input|
    requires input[i] == '\\' && input[i + 1] == 'x'
    requires Radix.FromStrRadix16([input[i + 2], input[i + 3]]).None?
    ensures Scanned(input, i + 4, result + EscapeMark + [input[i + 2], input[i + 3]], pending, v)
  {
    var u := input[i..];
    var hex := [input[i + 2], input[i + 3]];
    var rest := Render(Lex(input[i + 4..]), pending, v);
    assert Render(Lex(u), pending, v) == EscapeMark + hex + rest by {
      PairSlices(input, i);
      StepBadPair(u, pending, v);
    }
    Seqs.Associate(result, EscapeMark + hex, rest);
    Seqs.Associate(result, EscapeMark, hex);
  }

  /** At the end of the text the pending bytes are flushed. */
  lemma ScanEnd(input: string, result: string, pending: seq<byte>, v: Variant)
    requires Scanned(input, |input|, result, pending, v)
    ensures result + DecodeLossy(pending) == DecodeEscapes(input, v)
  {
    assert input[|input|..] == [];
  }
}
