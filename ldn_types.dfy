/**
 * The records the room server reads and writes: node slots, network
 * descriptions, proxy headers, the requests it receives and the messages it
 * sends. Only the fields the server reads or writes are kept; fixed-size
 * byte arrays are byte sequences of their declared length.
 */
module LdnTypes {
  import opened Bytes
  import JsonSerializerHelper

  /** Every room hands out addresses from 10.114.0.0/16. */
  const NetworkBaseAddress: u32 := 0x0a72_0000
  const NetworkSubnetMask: u32 := 0xffff_0000
  /** The broadcast address of 192.168.0.0/24, which the relay maps to the room's own. */
  const LegacyBroadcast: u32 := 0xc0a8_00ff
  /** The node table of a room has eight slots. */
  const NodeSlots: nat := 8
  /** The advertise data buffer holds 0x180 bytes. */
  const AdvertiseDataCapacity: nat := 0x180
  /** Milliseconds of silence after which a session is pinged. */
  const InactivityPingFrequency: int := 10000

  datatype NetworkError =
    | NoError
    | PortUnreachable
    | TooManyPlayers
    | VersionTooLow
    | VersionTooHigh
    | ConnectFailure
    | ConnectNotFound
    | ConnectTimeout
    | ConnectRejected
    | RejectFailed
    | Unknown

  /** The wire value of each error: consecutive from zero, except `Unknown`, which is -1. */
  function Code(e: NetworkError): (c: int)
    ensures -1 <= c <= 9
    ensures c == -1 <==> e == Unknown
  {
    match e
    case NoError => 0
    case PortUnreachable => 1
    case TooManyPlayers => 2
    case VersionTooLow => 3
    case VersionTooHigh => 4
    case ConnectFailure => 5
    case ConnectNotFound => 6
    case ConnectTimeout => 7
    case ConnectRejected => 8
    case RejectFailed => 9
    case Unknown => -1
  }

  lemma CodeInjective(a: NetworkError, b: NetworkError)
    ensures Code(a) == Code(b) ==> a == b
  {}

  /** One slot of a room's node table. */
  datatype NodeInfo = NodeInfo(
    ipv4Address: u32,
    macAddress: seq<byte>,
    nodeId: byte,
    isConnected: byte,
    userName: seq<byte>,
    localCommunicationVersion: u16)

  /** The slot `new NodeInfo()` gives: all zero. */
  const EmptyNode := NodeInfo(0, Zeros(6), 0, 0, Zeros(33), 0)

  datatype Ssid = Ssid(length: byte, name: seq<byte>)

  /** The description of a room that is sent to its members and to scanners. */
  datatype NetworkInfo = NetworkInfo(
    localCommunicationId: u64,
    sceneId: u16,
    sessionId: seq<byte>,
    channel: u16,
    linkLevel: byte,
    networkType: byte,
    macAddress: seq<byte>,
    ssid: Ssid,
    securityMode: u16,
    stationAcceptPolicy: byte,
    nodeCountMax: byte,
    nodeCount: byte,
    nodes: seq<NodeInfo>,
    advertiseDataSize: u16,
    advertiseData: seq<byte>,
    authenticationId: u64)

  /** The value `new NetworkInfo()` gives, used to fill fresh scan buffers. */
  const EmptyInfo := NetworkInfo(0, 0, Zeros(16), 0, 0, 0, Zeros(6), Ssid(0, Zeros(33)), 0, 0, 0, 0,
    seq(NodeSlots, _ => EmptyNode), 0, Zeros(AdvertiseDataCapacity), 0)

  /** The addressing header of every relayed packet. */
  datatype ProxyInfo = ProxyInfo(sourceIpV4: u32, sourcePort: u16, destIpV4: u32, destPort: u16, protocol: int)

  /** The four relayed packet kinds; they differ only in what they carry. */
  datatype ProxyKind = ProxyConnect | ProxyConnectReply | ProxyData | ProxyDisconnect

  /** Where a joiner reaches the host's peer-to-peer proxy. */
  datatype ExternalProxyConfig = ExternalProxyConfig(proxyIp: seq<byte>, addressFamily: int, proxyPort: u16, token: seq<byte>)

  const EmptyProxyConfig := ExternalProxyConfig(Zeros(16), 0, 0, Zeros(16))

  /** The host's proxy settings sent with a room request. */
  datatype RyuNetworkConfig = RyuNetworkConfig(
    gameVersion: seq<byte>,
    privateIp: seq<byte>,
    addressFamily: int,
    externalProxyPort: u16,
    internalProxyPort: u16)

  /** The fields of a room request the server uses. */
  datatype AccessPointRequest = AccessPointRequest(
    securityMode: u16,
    userName: seq<byte>,
    localCommunicationId: u64,
    sceneId: u16,
    channel: u16,
    nodeCountMax: byte,
    localCommunicationVersion: u16,
    ryu: RyuNetworkConfig)

  /** The remote end of a session's socket: an address family and the 4 or 16 address bytes. */
  datatype PhysicalAddress = PhysicalAddress(family: int, bytes: seq<byte>)

  /** Everything the server sends to a session. */
  datatype Message =
    | InitializeReply(id: seq<byte>, macAddress: seq<byte>)
    | SyncNetwork(info: NetworkInfo)
    | Connected(info: NetworkInfo)
    | NetworkErrorReply(error: NetworkError)
    | RejectReply
    | DisconnectNotice(disconnectIp: u32)
    | ExternalProxyState(ipAddress: u32, connected: bool)
    | ProxyConfigNotice(proxyIp: u32, proxySubnetMask: u32)
    | ExternalProxyToken(virtualIp: u32, token: seq<byte>, physicalIp: seq<byte>, addressFamily: int)
    | ExternalProxy(config: ExternalProxyConfig)
    | Ping(requester: byte, pingId: byte)
    | ScanReply(info: NetworkInfo)
    | ScanReplyEnd
    | Proxied(kind: ProxyKind, header: ProxyInfo, payload: seq<byte>)

  /** An address copied into a zeroed 16-byte buffer, as IPv4 and IPv6 both are. */
  function AddressTo16Byte(address: seq<byte>): (r: seq<byte>)
    ensures |r| == 16
    ensures |address| <= 16 ==> r[..|address|] == address
    ensures forall i :: |address| <= i < 16 ==> r[i] == 0
  {
    PadTruncate(address, 16)
  }

  /** The index of the first non-zero byte at or after `i`, or `|bs|`. */
  function SkipNul(bs: seq<byte>, i: nat): (n: nat)
    requires i <= |bs|
    ensures i <= n <= |bs|
    ensures forall k :: i <= k < n ==> bs[k] == 0
    ensures n < |bs| ==> bs[n] != 0
    decreases |bs| - i
  {
    if i == |bs| || bs[i] != 0 then i else SkipNul(bs, i + 1)
  }

  /** The end of the bytes before `j` once the zeros just before `j` are dropped. */
  function SkipNulBack(bs: seq<byte>, j: nat): (n: nat)
    requires j <= |bs|
    ensures n <= j
    ensures forall k :: n <= k < j ==> bs[k] == 0
    ensures n > 0 ==> bs[n - 1] != 0
  {
    if j == 0 || bs[j - 1] != 0 then j else SkipNulBack(bs, j - 1)
  }

  /** The bytes without their leading zeros. */
  function TrimStart(bs: seq<byte>): (r: seq<byte>)
    ensures |r| <= |bs|
    ensures forall k :: 0 <= k < |bs| - |r| ==> bs[k] == 0
    ensures r != [] ==> r[0] != 0
  {
    bs[SkipNul(bs, 0)..]
  }

  /** The bytes without their trailing zeros. */
  function TrimEnd(bs: seq<byte>): (r: seq<byte>)
    ensures |r| <= |bs|
    ensures forall k :: |r| <= k < |bs| ==> bs[k] == 0
    ensures r != [] ==> r[|r| - 1] != 0
  {
    bs[..SkipNulBack(bs, |bs|)]
  }

  /** `Trim('\0')`: the bytes with the NULs at both ends removed. */
  function TrimNul(bs: seq<byte>): seq<byte> {
    TrimEnd(TrimStart(bs))
  }

  /** The trimmed bytes are an infix of the input. */
  lemma {:induction false} TrimNulInfix(bs: seq<byte>)
    ensures var r := TrimNul(bs); var i := |bs| - |TrimStart(bs)|;
      i + |r| <= |bs| && r == bs[i..i + |r|]
  {
    var s := TrimStart(bs);
    var r := TrimEnd(s);
    var i := |bs| - |s|;
    assert s == bs[i..] && r == s[..|r|];
    PrefixOfSuffix(bs, i, |r|);
  }

  lemma PrefixOfSuffix(a: seq<byte>, i: nat, n: nat)
    requires i + n <= |a|
    ensures a[i..][..n] == a[i..i + n]
  {}

  /** The trimmed bytes, when there are any, begin and end with a non-NUL byte. */
  lemma TrimNulEnds(bs: seq<byte>)
    ensures var r := TrimNul(bs); r != [] ==> r[0] != 0 && r[|r| - 1] != 0
  {
    var s := TrimStart(bs);
    var r := TrimEnd(s);
    if r != [] {
      assert r[0] == s[0];
    }
  }

  /** Trimming cuts off only NULs, at both ends. */
  lemma {:induction false} TrimNulCutsOnlyNul(bs: seq<byte>)
    ensures var r := TrimNul(bs); var i := |bs| - |TrimStart(bs)|;
      && (forall k :: 0 <= k < i ==> bs[k] == 0)
      && (forall k :: i + |r| <= k < |bs| ==> bs[k] == 0)
  {
    var s := TrimStart(bs);
    var r := TrimEnd(s);
    var i := |bs| - |s|;
    forall k | i + |r| <= k < |bs|
      ensures bs[k] == 0
    {
      assert bs[k] == s[k - i];
    }
  }

  /** `ToLower`, character by character on ASCII letters. */
  function Lower(s: string): (r: string)
    ensures |r| == |s|
    ensures forall i :: 0 <= i < |s| ==> r[i] == JsonSerializerHelper.ToLower(s[i])
  {
    seq(|s|, i requires 0 <= i < |s| => JsonSerializerHelper.ToLower(s[i]))
  }

  /** Lower-casing twice is lower-casing once. */
  lemma LowerIdempotent(s: string)
    ensures Lower(Lower(s)) == Lower(s)
  {}
}
