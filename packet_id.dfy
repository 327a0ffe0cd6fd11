/**
 * The packet kinds of the health-check client and the byte each is sent as.
 * `auto()` numbers the members in declaration order from `Initialize = 0`;
 * `Ping` and `NetworkError` are fixed at the top of the byte range.
 */
module PacketIds {
  import opened Wrappers
  import opened Bytes

  datatype PacketId =
    | Initialize | Passphrase
    | CreateAccessPoint | CreateAccessPointPrivate | ExternalProxy | ExternalProxyToken | ExternalProxyState
    | SyncNetwork | Reject | RejectReply | Scan | ScanReply | ScanReplyEnd | Connect | ConnectPrivate
    | Connected | Disconnect
    | ProxyConfig | ProxyConnect | ProxyConnectReply | ProxyData | ProxyDisconnect
    | SetAcceptPolicy | SetAdvertiseData
    | Ping | NetworkError

  /** The members numbered by `auto()`, in declaration order. */
  const Numbered: seq<PacketId> := [
    Initialize, Passphrase,
    CreateAccessPoint, CreateAccessPointPrivate, ExternalProxy, ExternalProxyToken, ExternalProxyState,
    SyncNetwork, Reject, RejectReply, Scan, ScanReply, ScanReplyEnd, Connect, ConnectPrivate,
    Connected, Disconnect,
    ProxyConfig, ProxyConnect, ProxyConnectReply, ProxyData, ProxyDisconnect,
    SetAcceptPolicy, SetAdvertiseData]

  /** The enumeration value of a member: its place in `Numbered`, or the fixed 254 and 255. */
  function Code(id: PacketId): (c: byte) {
    match id
    case Initialize => 0
    case Passphrase => 1
    case CreateAccessPoint => 2
    case CreateAccessPointPrivate => 3
    case ExternalProxy => 4
    case ExternalProxyToken => 5
    case ExternalProxyState => 6
    case SyncNetwork => 7
    case Reject => 8
    case RejectReply => 9
    case Scan => 10
    case ScanReply => 11
    case ScanReplyEnd => 12
    case Connect => 13
    case ConnectPrivate => 14
    case Connected => 15
    case Disconnect => 16
    case ProxyConfig => 17
    case ProxyConnect => 18
    case ProxyConnectReply => 19
    case ProxyData => 20
    case ProxyDisconnect => 21
    case SetAcceptPolicy => 22
    case SetAdvertiseData => 23
    case Ping => 254
    case NetworkError => 255
  }

  /** `PacketId(value)`: the member with that value, or `None` where Python raises `ValueError`. */
  function FromCode(value: int): (r: Option<PacketId>)
    ensures r.Some? <==> 0 <= value < |Numbered| || value == 254 || value == 255
  {
    if value == 254 then Some(Ping)
    else if value == 255 then Some(NetworkError)
    else if 0 <= value < |Numbered| then Some(Numbered[value])
    else None
  }

  /**
   * `auto()` numbering: each numbered member's value is its place in the
   * declaration order, so the values run 0, 1, 2, ... without gaps.
   */
  lemma NumberedAreConsecutive()
    ensures forall i :: 0 <= i < |Numbered| ==> Code(Numbered[i]) == i
  {}

  /** Looking a member's value up gives the member back. */
  lemma FromCodeOfCode(id: PacketId)
    ensures FromCode(Code(id)) == Some(id)
  {}

  /** A value that names a member is that member's value. */
  lemma CodeOfFromCode(value: int)
    requires FromCode(value).Some?
    ensures Code(FromCode(value).value) == value
  {
    NumberedAreConsecutive();
  }

  /** No two members share a value. */
  lemma {:induction false} CodesAreDistinct(a: PacketId, b: PacketId)
    requires Code(a) == Code(b)
    ensures a == b
  {
    FromCodeOfCode(a);
    FromCodeOfCode(b);
  }
}
