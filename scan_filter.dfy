/**
 * The scan filter a client sends, and the per-field comparison both room
 * registries apply to every room: a field is compared only when its flag is
 * set.
 */
module ScanFilters {
  import opened Bytes
  import opened LdnTypes

  /** The filter values and, for each, whether its flag is set. */
  datatype ScanFilter = ScanFilter(
    localCommunicationId: u64,
    sceneId: u16,
    sessionId: seq<byte>,
    ssid: Ssid,
    networkType: byte,
    byLocalCommunicationId: bool,
    bySceneId: bool,
    bySessionId: bool,
    bySsid: bool,
    byNetworkType: bool)

  /**
   * The first `length` bytes of the name, or the whole name when `length`
   * passes its end, as the older registry's `Take` gives. The newer
   * registry slices instead, which throws when `length` passes the end; it
   * compares with this function only where both slices are in range.
   */
  function SsidBytes(s: Ssid): (r: seq<byte>)
    ensures |r| == if s.length <= |s.name| then s.length else |s.name|
    ensures r <= s.name
  {
    if s.length <= |s.name| then s.name[..s.length] else s.name
  }

  /** The room description passes every flagged comparison. */
  predicate FieldsMatch(info: NetworkInfo, f: ScanFilter) {
    && (f.byLocalCommunicationId ==> info.localCommunicationId == f.localCommunicationId)
    && (f.bySceneId ==> info.sceneId == f.sceneId)
    && (f.bySessionId ==> info.sessionId == f.sessionId)
    && (f.bySsid ==> SsidBytes(info.ssid) == SsidBytes(f.ssid))
    && (f.byNetworkType ==> info.networkType == f.networkType)
  }

  /** With no flag set every room description matches. */
  lemma NoFlagsMatchAll(info: NetworkInfo, f: ScanFilter)
    requires !f.byLocalCommunicationId && !f.bySceneId && !f.bySessionId && !f.bySsid && !f.byNetworkType
    ensures FieldsMatch(info, f)
  {}

  /** Name bytes past `length` never take part in the SSID comparison. */
  lemma SsidIgnoresTail(a: Ssid, b: Ssid)
    requires a.length == b.length <= |a.name| && a.length <= |b.name|
    requires a.name[..a.length] == b.name[..b.length]
    ensures SsidBytes(a) == SsidBytes(b)
  {}

  /** Two SSIDs of different lengths within their names never match. */
  lemma SsidLengthMatters(a: Ssid, b: Ssid)
    requires a.length <= |a.name| && b.length <= |b.name| && a.length != b.length
    ensures SsidBytes(a) != SsidBytes(b)
  {}
}
