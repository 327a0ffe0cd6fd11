/**
 * Hexadecimal text: the upper-case rendering of `Convert.ToHexString`, the
 * lower-case fixed-width `x16` format, and the two-character parse done by
 * `byte.Parse(pair, NumberStyles.HexNumber)`.
 */
module Hex {
  import opened Wrappers
  import opened Bytes

  /** The value of one hexadecimal digit, either case. */
  function DigitValue(c: char): (r: Option<nat>)
    ensures r.Some? ==> r.value < 16
    ensures r.Some? <==> ('0' <= c <= '9' || 'a' <= c <= 'f' || 'A' <= c <= 'F')
  {
    if '0' <= c <= '9' then Some(c as nat - '0' as nat)
    else if 'a' <= c <= 'f' then Some(c as nat - 'a' as nat + 10)
    else if 'A' <= c <= 'F' then Some(c as nat - 'A' as nat + 10)
    else None
  }

  /** The white space .NET number parsing skips: U+0009 to U+000D and the space. */
  predicate IsWhite(c: char) {
    '\U{9}' <= c <= '\U{D}' || c == ' '
  }

  function UpperDigit(v: nat): (c: char)
    requires v < 16
    ensures DigitValue(c) == Some(v)
    ensures '0' <= c <= '9' || 'A' <= c <= 'F'
  {
    if v < 10 then ('0' as nat + v) as char else ('A' as nat + v - 10) as char
  }

  function LowerDigit(v: nat): (c: char)
    requires v < 16
    ensures DigitValue(c) == Some(v)
    ensures '0' <= c <= '9' || 'a' <= c <= 'f'
  {
    if v < 10 then ('0' as nat + v) as char else ('a' as nat + v - 10) as char
  }

  /**
   * `byte.Parse` of a two-character string with `NumberStyles.HexNumber`:
   * leading and trailing white space is allowed, no sign and no `0x` prefix.
   * The .NET number parser also accepts NUL characters after the digits.
   */
  function ParsePair(a: char, b: char): (r: Option<byte>)
    ensures r.Some? <==>
      (DigitValue(a).Some? && DigitValue(b).Some?) ||
      (IsWhite(a) && DigitValue(b).Some?) ||
      (DigitValue(a).Some? && (IsWhite(b) || b == '\0'))
  {
    match (DigitValue(a), DigitValue(b))
    case (Some(hi), Some(lo)) => Some(16 * hi + lo)
    case (None, Some(lo)) => if IsWhite(a) then Some(lo) else None
    case (Some(hi), None) => if IsWhite(b) || b == '\0' then Some(hi) else None
    case (None, None) => None
  }

  /** `Convert.ToHexString`: two upper-case digits per byte, most significant digit first. */
  function ToHexString(bs: seq<byte>): (s: string)
    ensures |s| == 2 * |bs|
    ensures forall i :: 0 <= i < |bs| ==> s[2 * i] == UpperDigit(bs[i] / 16) && s[2 * i + 1] == UpperDigit(bs[i] % 16)
  {
    if bs == [] then [] else [UpperDigit(bs[0] / 16), UpperDigit(bs[0] % 16)] + ToHexString(bs[1..])
  }

  /** Every pair of an upper-case rendering parses back to its byte. */
  lemma ParsePairOfDigits(b: byte)
    ensures ParsePair(UpperDigit(b / 16), UpperDigit(b % 16)) == Some(b)
  {}

  /** Distinct byte strings have distinct renderings. */
  lemma {:induction false} ToHexStringInjective(x: seq<byte>, y: seq<byte>)
    requires ToHexString(x) == ToHexString(y)
    ensures x == y
  {
    assert |x| == |y|;
    forall i | 0 <= i < |x|
      ensures x[i] == y[i]
    {
      var s := ToHexString(x);
      assert ParsePair(s[2 * i], s[2 * i + 1]) == Some(x[i]) by { ParsePairOfDigits(x[i]); }
      assert ParsePair(s[2 * i], s[2 * i + 1]) == Some(y[i]) by { ParsePairOfDigits(y[i]); }
    }
  }

  /** The `width` lower-case digits of `v`, most significant first (`ToString("x16")` when width is 16). */
  function LowerHex(v: nat, width: nat): (s: string)
    requires v < Pow2(4 * width)
    ensures |s| == width
    ensures forall i :: 0 <= i < width ==> '0' <= s[i] <= '9' || 'a' <= s[i] <= 'f'
    decreases width
  {
    if width == 0 then []
    else
      assert Pow2(4 * width) == 16 * Pow2(4 * (width - 1)) by {
        Pow2Add(4, 4 * (width - 1));
        assert Pow2(4) == 16;
      }
      LowerHex(v / 16, width - 1) + [LowerDigit(v % 16)]
  }

  /** The value of a digit string, most significant first. */
  function ValueOfDigits(s: string): (r: Option<nat>)
  {
    if s == [] then Some(0)
    else
      match (ValueOfDigits(s[..|s| - 1]), DigitValue(s[|s| - 1]))
      case (Some(hi), Some(lo)) => Some(16 * hi + lo)
      case _ => None
  }

  /** Reading the lower-case rendering back gives the number. */
  lemma {:induction false} LowerHexRoundTrip(v: nat, width: nat)
    requires v < Pow2(4 * width)
    ensures ValueOfDigits(LowerHex(v, width)) == Some(v)
  {
    if width > 0 {
      assert Pow2(4 * width) == 16 * Pow2(4 * (width - 1)) by {
        Pow2Add(4, 4 * (width - 1));
        assert Pow2(4) == 16;
      }
      var s := LowerHex(v, width);
      assert s[..|s| - 1] == LowerHex(v / 16, width - 1);
      LowerHexRoundTrip(v / 16, width - 1);
    }
  }
}
