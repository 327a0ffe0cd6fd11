/**
 * The older `LanPlayServer.StringUtils` at the repository root. Its three
 * helpers are line-for-line the same as the newer `Utils` copy, so each one
 * here runs the newer method and is held to the same specification.
 */
module LegacyStringUtils {
  import opened Wrappers
  import opened Bytes
  import StringUtils

  method GetFixedLengthBytes(encoded: seq<byte>, size: nat) returns (output: seq<byte>)
    requires size >= 1
    ensures |output| == size
    ensures |encoded| < size - 1 ==> output[..|encoded| + 1] == encoded + [0]
    ensures |encoded| >= size - 1 ==> output == encoded[..size - 1] + [0]
    ensures forall i :: |encoded| < i < size ==> output[i] == 0
  {
    output := StringUtils.GetFixedLengthBytes(encoded, size);
  }

  method HexToBytes(s: string) returns (r: Option<seq<byte>>)
    ensures r == StringUtils.HexDecode(s)
    ensures r.Some? ==> |r.value| == |s| / 2
  {
    r := StringUtils.HexToBytes(s);
  }

  method ReadUtf8String(data: seq<byte>) returns (r: seq<byte>)
    ensures r <= data && 0 !in r
    ensures |r| == |data| || data[|r|] == 0
  {
    r := StringUtils.ReadUtf8String(data);
  }
}
