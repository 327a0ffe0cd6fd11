/**
 * The byte and string helpers of `LanPlayServer.Utils.StringUtils`. Strings
 * that the source encodes are given here as their encoded bytes; the encoding
 * itself is not modelled.
 */
module StringUtils {
  import opened Wrappers
  import opened Bytes
  import Hex

  // ---- GetFixedLengthBytes ----

  /**
   * The `size`-byte field that holds `encoded` NUL-terminated: the bytes
   * followed by zero padding when they fit with their terminator, otherwise
   * the first `size - 1` bytes and a single NUL.
   */
  function FixedLength(encoded: seq<byte>, size: nat): (r: seq<byte>)
    requires size >= 1
    ensures |r| == size
    ensures |encoded| + 1 < size ==> r == encoded + [0] + Zeros(size - |encoded| - 1)
    ensures |encoded| + 1 >= size ==> r == encoded[..size - 1] + [0]
  {
    var r := seq(size, i requires 0 <= i < size => if i < |encoded| && i < size - 1 then encoded[i] else 0);
    assert |encoded| + 1 < size ==> r == encoded + [0] + Zeros(size - |encoded| - 1);
    assert |encoded| + 1 >= size ==> r == encoded[..size - 1] + [0];
    r
  }

  /**
   * Encodes `encoded + "\0"` into a fresh `size`-byte buffer when it fits,
   * otherwise encodes it whole, cuts it to `size - 1` bytes and appends a NUL.
   * A `size` of zero makes `Array.Resize` throw, hence the precondition.
   */
  method GetFixedLengthBytes(encoded: seq<byte>, size: nat) returns (output: seq<byte>)
    requires size >= 1
    ensures output == FixedLength(encoded, size)
  {
    var input := encoded + [0];
    if |input| < size {
      var buffer := new byte[size](_ => 0);
      var i := 0;
      while i < |input|
        invariant 0 <= i <= |input|
        invariant forall j :: 0 <= j < i ==> buffer[j] == input[j]
        invariant forall j :: i <= j < size ==> buffer[j] == 0
      {
        buffer[i] := input[i];
        i := i + 1;
      }
      output := buffer[..];
    } else {
      var resized := new byte[size - 1](_ => 0);
      var i := 0;
      while i < size - 1
        invariant 0 <= i <= size - 1
        invariant forall j :: 0 <= j < i ==> resized[j] == input[j]
      {
        resized[i] := input[i];
        i := i + 1;
      }
      output := resized[..] + [0];
    }
  }

  // ---- HexToBytes ----

  /** Every complete character pair of `s` is accepted by `byte.Parse`. */
  predicate PairsParse(s: string) {
    forall i :: 0 <= i < |s| / 2 ==> Hex.ParsePair(s[2 * i], s[2 * i + 1]).Some?
  }

  /**
   * The bytes `s` denotes, two characters per byte, an odd last character
   * ignored; `None` when a pair is not a hexadecimal byte (the parse throws).
   */
  function HexDecode(s: string): (r: Option<seq<byte>>)
    ensures r.Some? <==> PairsParse(s)
    ensures r.Some? ==> |r.value| == |s| / 2
    ensures r.Some? ==> forall i :: 0 <= i < |s| / 2 ==> Hex.ParsePair(s[2 * i], s[2 * i + 1]) == Some(r.value[i])
  {
    if PairsParse(s) then
      Some(seq(|s| / 2, i requires 0 <= i < |s| / 2 && PairsParse(s) => Hex.ParsePair(s[2 * i], s[2 * i + 1]).value))
    else None
  }

  /** Fills a `len / 2` byte array pair by pair; a bad pair raises, modelled as `None`. */
  method HexToBytes(s: string) returns (r: Option<seq<byte>>)
    ensures r == HexDecode(s)
  {
    var bytesInHex := |s| / 2;
    var output := new byte[bytesInHex];
    var index := 0;
    while index < bytesInHex
      invariant 0 <= index <= bytesInHex
      invariant forall j :: 0 <= j < index ==> Hex.ParsePair(s[2 * j], s[2 * j + 1]) == Some(output[j])
    {
      var parsed := Hex.ParsePair(s[2 * index], s[2 * index + 1]);
      if parsed.None? {
        assert !PairsParse(s) by {
          assert 0 <= index < |s| / 2 && Hex.ParsePair(s[2 * index], s[2 * index + 1]).None?;
        }
        return None;
      }
      output[index] := parsed.value;
      index := index + 1;
    }
    r := Some(output[..]);
    assert HexDecode(s).value == output[..];
  }

  /** Decoding the upper-case rendering of any bytes gives those bytes back. */
  lemma HexDecodeOfToHexString(bs: seq<byte>)
    ensures HexDecode(Hex.ToHexString(bs)) == Some(bs)
  {
    var s := Hex.ToHexString(bs);
    forall i | 0 <= i < |s| / 2
      ensures Hex.ParsePair(s[2 * i], s[2 * i + 1]) == Some(bs[i])
    {
      Hex.ParsePairOfDigits(bs[i]);
    }
    assert HexDecode(s).value == bs;
  }

  /** An odd trailing character never changes the result. */
  lemma HexDecodeIgnoresOddTail(s: string, c: char)
    requires |s| % 2 == 0
    ensures HexDecode(s + [c]) == HexDecode(s)
  {
    var t := s + [c];
    assert |t| / 2 == |s| / 2;
    forall i | 0 <= i < |s| / 2
      ensures t[2 * i] == s[2 * i] && t[2 * i + 1] == s[2 * i + 1]
    {}
    assert PairsParse(t) == PairsParse(s);
    if PairsParse(s) {
      assert HexDecode(t).value == HexDecode(s).value;
    }
  }

  // ---- ReadUtf8String ----

  /** The bytes of `data` before its first zero byte, or all of them. */
  function BeforeNul(data: seq<byte>): (r: seq<byte>)
    ensures r <= data
    ensures forall i :: 0 <= i < |r| ==> r[i] != 0
    ensures |r| == |data| || data[|r|] == 0
  {
    if data == [] || data[0] == 0 then [] else [data[0]] + BeforeNul(data[1..])
  }

  /**
   * Copies bytes from index 0 into a stream until a zero byte or the end of
   * `data`; the result is those bytes (their UTF-8 decoding is not modelled).
   */
  method ReadUtf8String(data: seq<byte>) returns (r: seq<byte>)
    ensures r == BeforeNul(data)
  {
    var size := |data|;
    var index := 0;
    var ms: seq<byte> := [];
    while size > 0
      invariant 0 <= index <= |data| && size == |data| - index
      invariant ms == data[..index]
      invariant forall j :: 0 <= j < index ==> data[j] != 0
    {
      size := size - 1;
      var value := data[index];
      index := index + 1;
      if value == 0 {
        break;
      }
      ms := ms + [value];
    }
    r := ms;
    BeforeNulOfPrefix(data, r);
  }

  /** A NUL-free prefix that the data ends or a zero byte follows is what `BeforeNul` returns. */
  lemma {:induction false} BeforeNulOfPrefix(data: seq<byte>, p: seq<byte>)
    requires p <= data
    requires forall j :: 0 <= j < |p| ==> p[j] != 0
    requires |p| == |data| || data[|p|] == 0
    ensures BeforeNul(data) == p
  {
    if p != [] {
      BeforeNulOfPrefix(data[1..], p[1..]);
    }
  }

  /** A string without NUL written into a field reads back whole when it fits, cut to `size - 1` otherwise. */
  lemma ReadFixedLength(s: seq<byte>, size: nat)
    requires size >= 1
    requires forall i :: 0 <= i < |s| ==> s[i] != 0
    ensures BeforeNul(FixedLength(s, size)) == (if |s| < size then s else s[..size - 1])
  {
    var f := FixedLength(s, size);
    var p := if |s| < size then s else s[..size - 1];
    assert p <= f;
    BeforeNulOfPrefix(f, p);
  }

  // ---- CleanInput (null handling and truncation) ----

  /**
   * The part of `CleanInput` before its regular expression: `null` stays
   * `null`, and a string longer than `maxLength` is cut to it unless
   * `maxLength` is -1. A `maxLength` below -1 makes the slice throw.
   */
  function CleanInputTruncate(input: Option<string>, maxLength: int): (r: Option<string>)
    requires maxLength >= -1
    ensures r.None? <==> input.None?
    ensures r.Some? ==> r.value <= input.value
    ensures r.Some? && maxLength == -1 ==> r.value == input.value
    ensures r.Some? && maxLength >= 0 ==> |r.value| == if |input.value| > maxLength then maxLength else |input.value|
  {
    match input
    case None => None
    case Some(s) => if maxLength != -1 && |s| > maxLength then Some(s[..maxLength]) else Some(s)
  }
}
