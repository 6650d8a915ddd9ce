/** Parsing hexadecimal text into a byte the way Rust's `u8::from_str_radix(src, 16)`
    does, and the two-digit hexadecimal spelling of a byte. */
module Radix {
  import opened Wrappers
  import opened Utf8

  /** `char::to_digit(16)` succeeds. */
  predicate IsHexDigit(c: char) {
    '0' <= c <= '9' || 'a' <= c <= 'f' || 'A' <= c <= 'F'
  }

  function HexDigitValue(c: char): (d: nat)
    requires IsHexDigit(c)
    ensures d < 16
  {
    if '0' <= c <= '9' then c as int - '0' as int
    else if 'a' <= c <= 'f' then c as int - 'a' as int + 10
    else c as int - 'A' as int + 10
  }

  predicate AllHexDigits(s: string) {
    forall i :: 0 <= i < |s| ==> IsHexDigit(s[i])
  }

  /** The number that a string of hexadecimal digits spells, most significant first. */
  function DigitsValue(s: string): (v: nat)
    requires AllHexDigits(s)
    ensures v < Pow16(|s|)
  {
    if s == [] then 0 else DigitsValue(s[..|s| - 1]) * 16 + HexDigitValue(s[|s| - 1])
  }

  function Pow16(n: nat): (p: nat)
    ensures p >= 1
  {
    if n == 0 then 1 else 16 * Pow16(n - 1)
  }

  /** `u8::from_str_radix(s, 16)`: an empty string, a lone sign, a non-digit
      (a `-` included, since u8 is unsigned) and a value above 255 are errors;
      a single leading `+` is accepted and skipped. */
  function FromStrRadix16(s: string): (r: Option<byte>)
    ensures r.Some? ==> (s != [] && AllHexDigits(s)) || (|s| >= 2 && s[0] == '+' && AllHexDigits(s[1..]))
    ensures s != [] && AllHexDigits(s) ==> (r.Some? <==> DigitsValue(s) < 256)
    ensures s != [] && AllHexDigits(s) && r.Some? ==> r.value as int == DigitsValue(s)
  {
    if s == [] then None
    else if (s[0] == '+' || s[0] == '-') && |s| == 1 then None
    else
      assert s[0] == '+' ==> !AllHexDigits(s) by {
        if s[0] == '+' { assert !IsHexDigit(s[0]); }
      }
      var digits := if s[0] == '+' then s[1..] else s;
      if AllHexDigits(digits) && DigitsValue(digits) < 256 then Some(DigitsValue(digits) as byte)
      else None
  }

  /** The digit for 0 <= d < 16, upper case as in `{:02X}`. */
  function HexDigit(d: nat): (c: char)
    requires d < 16
    ensures IsHexDigit(c) && HexDigitValue(c) == d
  {
    "0123456789ABCDEF"[d]
  }

  /** Two upper-case hexadecimal digits for a byte. */
  function HexPair(b: byte): (s: string)
    ensures |s| == 2 && AllHexDigits(s) && DigitsValue(s) == b as int
  {
    var s := [HexDigit(b as int / 16), HexDigit(b as int % 16)];
    assert s[..1][..0] == [];
    s
  }

  /** On a two-character string the parser accepts exactly two hexadecimal digits,
      or `+` and one hexadecimal digit, with their values. */
  lemma FromStrRadix16Pair(c1: char, c2: char)
    ensures FromStrRadix16([c1, c2]).Some? <==>
            (IsHexDigit(c1) && IsHexDigit(c2)) || (c1 == '+' && IsHexDigit(c2))
    ensures IsHexDigit(c1) && IsHexDigit(c2) ==>
            FromStrRadix16([c1, c2]) == Some((HexDigitValue(c1) * 16 + HexDigitValue(c2)) as byte)
    ensures c1 == '+' && IsHexDigit(c2) ==>
            FromStrRadix16([c1, c2]) == Some(HexDigitValue(c2) as byte)
  {
    var s := [c1, c2];
    assert s[..1] == [c1] && s[..1][..0] == [];
    assert s[1..] == [c2] && s[1..][..0] == [];
    if IsHexDigit(c1) && IsHexDigit(c2) {
      assert AllHexDigits(s);
      assert DigitsValue(s) == HexDigitValue(c1) * 16 + HexDigitValue(c2);
    } else if c1 == '+' {
      if IsHexDigit(c2) {
        assert AllHexDigits(s[1..]);
      } else {
        assert !IsHexDigit(s[1..][0]);
      }
    } else {
      assert !AllHexDigits(s) by {
        if !IsHexDigit(c1) { assert !IsHexDigit(s[0]); } else { assert !IsHexDigit(s[1]); }
      }
    }
  }

  /** Parsing the spelling of a byte gives the byte back. */
  lemma HexPairRoundTrip(b: byte)
    ensures FromStrRadix16(HexPair(b)) == Some(b)
  {
    var s := HexPair(b);
    FromStrRadix16Pair(s[0], s[1]);
    assert s == [s[0], s[1]];
    assert s[..1] == [s[0]] && s[..1][..0] == [];
  }
}
