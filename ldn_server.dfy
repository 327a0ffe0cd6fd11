/**
 * The room server: sessions (one per client connection), rooms ("hosted
 * games") and the registry of rooms. Every message the server sends is
 * appended to one shared log, the `Transport`; what a single session
 * receives is the projection `Outbox`. Work the source hands to `Task.Run`
 * runs to completion inside the call here.
 */
module LanPlayServer {
  import opened Wrappers
  import opened Bytes
  import opened LdnTypes
  import opened NodeTable
  import opened ScanFilters
  import Dhcp
  import Hex
  import StringUtils
  import MacAddressMemory
  import JsonSerializerHelper

  // ---- Sending ----

  /** One message handed to `SendAsync` of one session. */
  datatype Envelope = Envelope(to: LdnSession, message: Message)

  /** The log of everything sent, in order. */
  class Transport {
    var sent: seq<Envelope>

    constructor ()
      ensures sent == []
    {
      sent := [];
    }

    method Send(to: LdnSession, m: Message)
      modifies this
      ensures sent == old(sent) + [Envelope(to, m)]
    {
      sent := sent + [Envelope(to, m)];
    }

    /** The message to each recipient, in order. */
    method SendEach(recipients: seq<LdnSession>, m: Message)
      modifies this
      ensures sent == old(sent) + Fanout(recipients, m)
    {
      var i := 0;
      while i < |recipients|
        invariant 0 <= i <= |recipients|
        invariant sent == old(sent) + Fanout(recipients[..i], m)
      {
        assert Fanout(recipients[..i + 1], m) == Fanout(recipients[..i], m) + [Envelope(recipients[i], m)];
        Send(recipients[i], m);
        i := i + 1;
      }
      assert recipients[..i] == recipients;
    }
  }

  /** The same message to each player, in list order. */
  function Fanout(players: seq<LdnSession>, m: Message): seq<Envelope> {
    seq(|players|, i requires 0 <= i < |players| => Envelope(players[i], m))
  }

  /** What one session receives from a log, in order. */
  function Outbox(log: seq<Envelope>, s: LdnSession): seq<Message> {
    if log == [] then []
    else Outbox(log[..|log| - 1], s) + (if log[|log| - 1].to == s then [log[|log| - 1].message] else [])
  }

  lemma {:induction false} OutboxAppend(a: seq<Envelope>, b: seq<Envelope>, s: LdnSession)
    ensures Outbox(a + b, s) == Outbox(a, s) + Outbox(b, s)
    decreases |b|
  {
    if b != [] {
      assert (a + b)[..|a + b| - 1] == a + b[..|b| - 1];
      OutboxAppend(a, b[..|b| - 1], s);
    } else {
      assert a + b == a;
    }
  }

  /** A broadcast gives each session one copy per time it is listed, and nothing to anyone else. */
  lemma {:induction false} FanoutOutbox(players: seq<LdnSession>, m: Message, s: LdnSession)
    ensures Outbox(Fanout(players, m), s) == seq(multiset(players)[s], _ => m)
    decreases |players|
  {
    if players != [] {
      var front := players[..|players| - 1];
      assert players == front + [players[|players| - 1]];
      assert Fanout(players, m)[..|players| - 1] == Fanout(front, m);
      FanoutOutbox(front, m, s);
    }
  }

  // ---- Relaying ----

  /**
   * The header as relayed: a zero source address is replaced by the
   * sender's; any other source must be the sender's, or nothing is relayed.
   */
  function Stamp(senderIp: u32, header: ProxyInfo): (r: Option<ProxyInfo>)
    ensures r.Some? <==> header.sourceIpV4 == 0 || header.sourceIpV4 == senderIp
    ensures r.Some? ==> r.value == header.(sourceIpV4 := senderIp)
  {
    if header.sourceIpV4 == 0 then Some(header.(sourceIpV4 := senderIp))
    else if header.sourceIpV4 != senderIp then None
    else Some(header)
  }

  /** The destination, with the 192.168.0.255 broadcast mapped to the room's own. */
  function Destination(header: ProxyInfo, broadcast: u32): u32 {
    if header.destIpV4 == LegacyBroadcast then broadcast else header.destIpV4
  }

  /** The index of the first player with the address, or -1. */
  function FirstWithIp(players: seq<LdnSession>, ip: u32): (k: int)
    reads players
    ensures -1 <= k < |players|
    ensures k == -1 <==> forall j :: 0 <= j < |players| ==> players[j].ipAddress != ip
    ensures 0 <= k ==> players[k].ipAddress == ip && forall j :: 0 <= j < k ==> players[j].ipAddress != ip
  {
    if players == [] then -1
    else if players[0].ipAddress == ip then 0
    else
      var k := FirstWithIp(players[1..], ip);
      assert forall j :: 1 <= j < |players| ==> players[j] == players[1..][j - 1];
      if k == -1 then -1 else k + 1
  }

  /** The index of the first player with the node id, or -1. */
  function FirstWithNodeId(players: seq<LdnSession>, nodeId: int): (k: int)
    reads players
    ensures -1 <= k < |players|
    ensures k == -1 <==> forall j :: 0 <= j < |players| ==> players[j].nodeId != nodeId
    ensures 0 <= k ==> players[k].nodeId == nodeId && forall j :: 0 <= j < k ==> players[j].nodeId != nodeId
  {
    if players == [] then -1
    else if players[0].nodeId == nodeId then 0
    else
      var k := FirstWithNodeId(players[1..], nodeId);
      assert forall j :: 1 <= j < |players| ==> players[j] == players[1..][j - 1];
      if k == -1 then -1 else k + 1
  }

  /**
   * What relaying one proxy packet sends: nothing for a spoofed source; the
   * stamped packet to every player for the room's broadcast address; to the
   * first player holding the destination address otherwise.
   */
  function Relay(players: seq<LdnSession>, senderIp: u32, header: ProxyInfo, kind: ProxyKind,
                 payload: seq<byte>, broadcast: u32): (r: seq<Envelope>)
    reads players
    ensures header.sourceIpV4 != 0 && header.sourceIpV4 != senderIp ==> r == []
    ensures forall e :: e in r ==> e.message == Proxied(kind, header.(sourceIpV4 := senderIp), payload)
    ensures Stamp(senderIp, header).Some? && Destination(header, broadcast) == broadcast ==>
      |r| == |players| && forall i :: 0 <= i < |players| ==> r[i].to == players[i]
    ensures Stamp(senderIp, header).Some? && Destination(header, broadcast) != broadcast ==>
      && |r| <= 1
      && (r == [] <==> forall p :: p in players ==> p.ipAddress != Destination(header, broadcast))
      && (forall e :: e in r ==> e.to in players && e.to.ipAddress == Destination(header, broadcast))
  {
    match Stamp(senderIp, header)
    case None => []
    case Some(h) =>
      var dest := Destination(h, broadcast);
      var m := Proxied(kind, h, payload);
      if dest == broadcast then Fanout(players, m)
      else
        var k := FirstWithIp(players, dest);
        if k == -1 then [] else [Envelope(players[k], m)]
  }

  /** The session, if there is one, as a set. */
  function Optional(s: LdnSession?): (r: set<LdnSession>)
    ensures s != null <==> s in r
    ensures |r| <= 1
  {
    if s == null then {} else {s}
  }

  /** `List.Remove`: drops the first occurrence, if any, keeping the order of the rest. */
  function RemoveFirst(players: seq<LdnSession>, s: LdnSession): (r: seq<LdnSession>)
    ensures s !in players ==> r == players
    ensures s in players ==> |r| == |players| - 1
    ensures forall p :: p in r ==> p in players
  {
    if players == [] then []
    else if players[0] == s then players[1..]
    else [players[0]] + RemoveFirst(players[1..], s)
  }

  /** Removing takes away exactly one copy of the session, when there is one. */
  lemma {:induction false} RemoveFirstMultiset(players: seq<LdnSession>, s: LdnSession)
    ensures multiset(RemoveFirst(players, s)) == multiset(players) - multiset{s}
  {
    if players != [] {
      assert players == [players[0]] + players[1..];
      if players[0] != s {
        RemoveFirstMultiset(players[1..], s);
      }
    }
  }

  // ---- The node table of a room ----

  /**
   * The shape every room's description keeps: eight slots, and a count
   * equal to the number of connected slots and within the maximum the host
   * asked for (a byte the host chooses, which may exceed 8).
   */
  predicate RoomTable(info: NetworkInfo) {
    && |info.nodes| == NodeSlots
    && info.nodeCount == ConnectedCount(info.nodes)
    && info.nodeCount <= info.nodeCountMax
  }

  /** The admission test on the count as the room writes it: only the requested maximum is compared. */
  predicate AdmitsAsWritten(info: NetworkInfo) {
    info.nodeCount != info.nodeCountMax
  }

  /** The admission test the model uses: below the requested maximum and below the eight slots. */
  predicate Admits(info: NetworkInfo) {
    info.nodeCount != info.nodeCountMax && info.nodeCount != NodeSlots
  }

  /** A table of eight connected members whose host asked for nine. */
  function NineSeatRoom(): (r: NetworkInfo)
    ensures RoomTable(r)
  {
    var nodes := seq(NodeSlots, i requires 0 <= i < NodeSlots => EmptyNode.(isConnected := 1, nodeId := i));
    AllOccupiedCount(nodes);
    EmptyInfo.(nodeCountMax := 9, nodeCount := 8, nodes := nodes)
  }

  /**
   * With a requested maximum above 8, the written test lets a ninth joiner
   * past when no slot is free, so the slot index it then uses is -1.
   */
  lemma NinthJoinerPassesWrittenTest()
    ensures AdmitsAsWritten(NineSeatRoom()) && FirstEmpty(NineSeatRoom().nodes) == -1
    ensures !Admits(NineSeatRoom())
  {
    var nodes := NineSeatRoom().nodes;
    assert forall j :: 0 <= j < |nodes| ==> Occupied(nodes[j]);
  }

  /** Whenever the model's test admits, there is a free slot for the joiner. */
  lemma AdmittedJoinerHasSlot(info: NetworkInfo)
    requires RoomTable(info) && Admits(info)
    ensures 0 <= FirstEmpty(info.nodes)
  {
    FreeSlotExists(info.nodes);
  }

  /** A joiner written into the first free slot with its slot number as node id. */
  function Seated(info: NetworkInfo, node: NodeInfo): (r: NetworkInfo)
    requires RoomTable(info) && Admits(info) && Occupied(node)
    ensures RoomTable(r) && r.nodeCount == info.nodeCount + 1
    ensures 0 <= FirstEmpty(info.nodes)
    ensures r.nodes == info.nodes[FirstEmpty(info.nodes) := node.(nodeId := FirstEmpty(info.nodes))]
    ensures r == info.(nodeCount := r.nodeCount, nodes := r.nodes)
  {
    FreeSlotExists(info.nodes);
    var k := FirstEmpty(info.nodes);
    CountAfterWrite(info.nodes, k, node.(nodeId := k));
    info.(nodeCount := info.nodeCount + 1, nodes := info.nodes[k := node.(nodeId := k)])
  }

  /** Every occupied slot holding the address freed, and the count lowered by as many. */
  function Vacated(info: NetworkInfo, ip: u32): (r: NetworkInfo)
    requires RoomTable(info)
    ensures RoomTable(r)
    ensures r.nodes == ClearAddress(info.nodes, ip)
    ensures r.nodeCount == info.nodeCount - HoldingCount(info.nodes, ip)
    ensures r == info.(nodeCount := r.nodeCount, nodes := r.nodes)
  {
    ClearAddressKeepsCount(info.nodes, info.nodeCount, ip);
    info.(nodeCount := info.nodeCount - HoldingCount(info.nodes, ip), nodes := ClearAddress(info.nodes, ip))
  }

  // ---- Peer-to-peer proxy introduction ----

  /**
   * The two messages that introduce a joiner to the host's proxy. A joiner
   * whose address (family and 16 bytes) equals the host's public one is on
   * the host's own network: it is sent the private endpoint and the host is
   * told no physical address. Any other joiner is sent the public endpoint
   * and the host is told the joiner's address. Both carry the same token.
   */
  function ProxyIntroduction(host: LdnSession, joiner: LdnSession, virtualIp: u32, address: PhysicalAddress,
                             external: ExternalProxyConfig, private: ExternalProxyConfig, token: seq<byte>): (r: seq<Envelope>)
    ensures |r| == 2 && r[0].to == host && r[1].to == joiner
    ensures r[0].message.ExternalProxyToken? && r[0].message.virtualIp == virtualIp
    ensures r[0].message.token == token && r[1].message.ExternalProxy? && r[1].message.config.token == token
    ensures address.family == external.addressFamily && AddressTo16Byte(address.bytes) == external.proxyIp ==>
      r[0].message.physicalIp == Zeros(16) && r[1].message.config == private.(token := token)
    ensures !(address.family == external.addressFamily && AddressTo16Byte(address.bytes) == external.proxyIp) ==>
      r[0].message.physicalIp == AddressTo16Byte(address.bytes) && r[1].message.config == external.(token := token)
  {
    var bytes := AddressTo16Byte(address.bytes);
    var isPrivate := address.family == external.addressFamily && bytes == external.proxyIp;
    var config := if isPrivate then private else external;
    [Envelope(host, ExternalProxyToken(virtualIp, token, if isPrivate then Zeros(16) else bytes, address.family)),
     Envelope(joiner, ExternalProxy(config.(token := token)))]
  }

  /** The notice a peer-to-peer host gets when a member leaves unexpectedly. */
  function LeaveNotice(notify: bool, owner: LdnSession?, ip: u32): (r: seq<Envelope>)
    ensures |r| <= 1
    ensures r != [] <==> notify && owner != null
    ensures r != [] ==> r[0].to == owner && r[0].message == ExternalProxyState(ip, false)
  {
    if notify && owner != null then [Envelope(owner, ExternalProxyState(ip, false))] else []
  }

  /** What closing a room sends: a disconnect to each member, once. */
  function ClosingNotices(wasClosed: bool, players: seq<LdnSession>): seq<Envelope> {
    if wasClosed then [] else Fanout(players, DisconnectNotice(0))
  }

  /** What a scan reads of one room. */
  datatype RoomView = RoomView(room: HostedGame, passphrase: Option<seq<byte>>, info: NetworkInfo, playerCount: nat)

  function View(g: HostedGame): (v: RoomView)
    reads g
    ensures v.room == g && v.info == g.info && v.passphrase == g.passphrase && v.playerCount == |g.players|
  {
    RoomView(g, g.passphrase, g.info, |g.players|)
  }

  /**
   * The rooms a scan may report: same passphrase (a room without an owner
   * has none and is never reported), not the scanner's own room, not
   * rejecting every joiner (policy 1), passing the filter, and not empty.
   */
  predicate Visible(v: RoomView, filter: ScanFilter, passphrase: seq<byte>, exclude: HostedGame?) {
    && v.passphrase == Some(passphrase)
    && v.room != exclude
    && v.info.stationAcceptPolicy != 1
    && FieldsMatch(v.info, filter)
    && v.playerCount != 0
  }

  /** The descriptions of the visible rooms, in enumeration order. */
  function Listed(views: seq<RoomView>, filter: ScanFilter, passphrase: seq<byte>, exclude: HostedGame?): (r: seq<NetworkInfo>)
    ensures |r| <= |views|
  {
    if views == [] then []
    else
      var v := views[|views| - 1];
      Listed(views[..|views| - 1], filter, passphrase, exclude) + (if Visible(v, filter, passphrase, exclude) then [v.info] else [])
  }

  /** Every visible room is listed. */
  lemma {:induction false} VisibleAreListed(views: seq<RoomView>, filter: ScanFilter, passphrase: seq<byte>, exclude: HostedGame?)
    ensures forall i :: 0 <= i < |views| && Visible(views[i], filter, passphrase, exclude) ==>
      views[i].info in Listed(views, filter, passphrase, exclude)
    decreases |views|
  {
    if views != [] {
      var front := views[..|views| - 1];
      VisibleAreListed(front, filter, passphrase, exclude);
      assert forall i :: 0 <= i < |front| ==> front[i] == views[i];
    }
  }

  /** Everything listed is the description of a visible room. */
  lemma {:induction false} ListedAreVisible(views: seq<RoomView>, filter: ScanFilter, passphrase: seq<byte>, exclude: HostedGame?)
    ensures forall x :: x in Listed(views, filter, passphrase, exclude) ==>
      exists i :: 0 <= i < |views| && Visible(views[i], filter, passphrase, exclude) && views[i].info == x
    decreases |views|
  {
    if views != [] {
      var front := views[..|views| - 1];
      ListedAreVisible(front, filter, passphrase, exclude);
      assert forall i :: 0 <= i < |front| ==> front[i] == views[i];
    }
  }

  /** Listing one more room appends its description when it is visible. */
  lemma ListedStep(views: seq<RoomView>, i: nat, filter: ScanFilter, passphrase: seq<byte>, exclude: HostedGame?)
    requires i < |views|
    ensures Listed(views[..i + 1], filter, passphrase, exclude) == Listed(views[..i], filter, passphrase, exclude)
      + (if Visible(views[i], filter, passphrase, exclude) then [views[i].info] else [])
  {
    assert views[..i + 1][..i] == views[..i];
  }

  /**
   * A room reaches the SSID comparison of the newer registry's scan: the
   * passphrase, exclusion and policy tests and the three earlier flagged
   * fields pass, and the SSID flag is set.
   */
  predicate ReachesSsidTest(v: RoomView, filter: ScanFilter, passphrase: seq<byte>, exclude: HostedGame?) {
    && v.passphrase == Some(passphrase)
    && v.room != exclude
    && v.info.stationAcceptPolicy != 1
    && (filter.byLocalCommunicationId ==> v.info.localCommunicationId == filter.localCommunicationId)
    && (filter.bySceneId ==> v.info.sceneId == filter.sceneId)
    && (filter.bySessionId ==> v.info.sessionId == filter.sessionId)
    && filter.bySsid
  }

  /**
   * The newer registry slices `Name[..Length]` of the room's and of the
   * filter's SSID; a length past the 33-byte name throws there.
   */
  predicate SsidFaults(v: RoomView, filter: ScanFilter, passphrase: seq<byte>, exclude: HostedGame?) {
    && ReachesSsidTest(v, filter, passphrase, exclude)
    && (v.info.ssid.length > |v.info.ssid.name| || filter.ssid.length > |filter.ssid.name|)
  }

  /** The position of the first room whose SSID slice throws, or the number of rooms when none does. */
  function FirstFault(views: seq<RoomView>, filter: ScanFilter, passphrase: seq<byte>, exclude: HostedGame?): (k: nat)
    ensures k <= |views|
    ensures k < |views| ==> SsidFaults(views[k], filter, passphrase, exclude)
    ensures forall j :: 0 <= j < k ==> !SsidFaults(views[j], filter, passphrase, exclude)
  {
    if views == [] then 0
    else if SsidFaults(views[0], filter, passphrase, exclude) then 0
    else
      var k := FirstFault(views[1..], filter, passphrase, exclude);
      assert forall j :: 1 <= j < k + 1 ==> views[j] == views[1..][j - 1];
      1 + k
  }

  /** Where no slice throws, the SSID comparison is that of the slices. */
  lemma SsidComparedBySlices(v: RoomView, filter: ScanFilter, passphrase: seq<byte>, exclude: HostedGame?)
    requires ReachesSsidTest(v, filter, passphrase, exclude) && !SsidFaults(v, filter, passphrase, exclude)
    ensures SsidBytes(v.info.ssid) == v.info.ssid.name[..v.info.ssid.length]
    ensures SsidBytes(filter.ssid) == filter.ssid.name[..filter.ssid.length]
  {}

  /** A listing of the first `n` rooms is a prefix of the listing of them all. */
  lemma {:induction false} ListedPrefix(views: seq<RoomView>, n: nat, filter: ScanFilter, passphrase: seq<byte>, exclude: HostedGame?)
    requires n <= |views|
    ensures Listed(views[..n], filter, passphrase, exclude) <= Listed(views, filter, passphrase, exclude)
    decreases |views|
  {
    if n < |views| {
      var front := views[..|views| - 1];
      ListedPrefix(front, n, filter, passphrase, exclude);
      assert front[..n] == views[..n];
    } else {
      assert views[..n] == views;
    }
  }

  /** A visible room is listed at the number of descriptions before it. */
  lemma ListedAt(views: seq<RoomView>, i: nat, filter: ScanFilter, passphrase: seq<byte>, exclude: HostedGame?)
    requires i < |views| && Visible(views[i], filter, passphrase, exclude)
    ensures var p := |Listed(views[..i], filter, passphrase, exclude)|;
      p < |Listed(views, filter, passphrase, exclude)| && Listed(views, filter, passphrase, exclude)[p] == views[i].info
  {
    ListedStep(views, i, filter, passphrase, exclude);
    ListedPrefix(views, i + 1, filter, passphrase, exclude);
  }

  /**
   * Visible rooms are listed in enumeration order: the room at `i` at the
   * number of descriptions before it, and a later visible room at `j` at a
   * later position.
   */
  lemma VisibleListedInOrder(views: seq<RoomView>, i: nat, j: nat, filter: ScanFilter, passphrase: seq<byte>, exclude: HostedGame?)
    requires i < j < |views|
    requires Visible(views[i], filter, passphrase, exclude) && Visible(views[j], filter, passphrase, exclude)
    ensures var all := Listed(views, filter, passphrase, exclude);
      var p := |Listed(views[..i], filter, passphrase, exclude)|;
      var q := |Listed(views[..j], filter, passphrase, exclude)|;
      p < q < |all| && all[p] == views[i].info && all[q] == views[j].info
  {
    ListedAt(views, i, filter, passphrase, exclude);
    ListedAt(views, j, filter, passphrase, exclude);
    ListedAt(views[..j], i, filter, passphrase, exclude);
    assert views[..j][..i] == views[..i];
    assert views[..j][i] == views[i];
  }


  /** One reply per listed description, in order. */
  function ScanReplies(to: LdnSession, infos: seq<NetworkInfo>): (r: seq<Envelope>)
    ensures |r| == |infos|
    ensures forall i :: 0 <= i < |infos| ==> r[i] == Envelope(to, ScanReply(infos[i]))
  {
    seq(|infos|, i requires 0 <= i < |infos| => Envelope(to, ScanReply(infos[i])))
  }

  // ---- Session helpers ----

  /** Every character is a hexadecimal digit. */
  predicate IsHexText(s: string) {
    forall i :: 0 <= i < |s| ==> Hex.DigitValue(s[i]).Some?
  }

  /** Hexadecimal text decodes pair by pair. */
  lemma HexTextParses(s: string)
    requires IsHexText(s)
    ensures StringUtils.HexDecode(s).Some?
  {
    assert forall i :: 0 <= i < |s| / 2 ==> Hex.DigitValue(s[2 * i]).Some? && Hex.DigitValue(s[2 * i + 1]).Some?;
  }

  /** An upper-case rendering is hexadecimal text. */
  lemma HexStringIsHexText(bs: seq<byte>)
    ensures IsHexText(Hex.ToHexString(bs))
  {
    var s := Hex.ToHexString(bs);
    forall i | 0 <= i < |s|
      ensures Hex.DigitValue(s[i]).Some?
    {
      var b := i / 2;
      assert b < |bs|;
      if i == 2 * b {
        assert s[i] == Hex.UpperDigit(bs[b] / 16);
      } else {
        assert s[i] == Hex.UpperDigit(bs[b] % 16);
      }
    }
  }

  /** "Ryujinx-" in ASCII. */
  const PassphrasePrefix: seq<byte> := [0x52, 0x79, 0x75, 0x6a, 0x69, 0x6e, 0x78, 0x2d]

  /** A lower-case hexadecimal digit in ASCII. */
  predicate IsLowerHexByte(b: byte) {
    (0x30 <= b <= 0x39) || (0x61 <= b <= 0x66)
  }

  /** The pattern `Ryujinx-[0-9a-f]{8}` occurs at `k`. */
  predicate MatchesAt(s: seq<byte>, k: nat) {
    && k + 16 <= |s|
    && s[k..k + 8] == PassphrasePrefix
    && forall j :: k + 8 <= j < k + 16 ==> IsLowerHexByte(s[j])
  }

  /**
   * The accepted passphrases: empty, or 16 characters in which the pattern
   * occurs somewhere; which is exactly "Ryujinx-" and eight lower-case hex
   * digits.
   */
  function PassphraseAccepted(s: seq<byte>): (r: bool)
    ensures r <==> s == [] || (|s| == 16 && s[..8] == PassphrasePrefix && forall j :: 8 <= j < 16 ==> IsLowerHexByte(s[j]))
  {
    var found := exists k: nat :: k <= |s| && MatchesAt(s, k);
    assert found && |s| == 16 ==> MatchesAt(s, 0) by {
      if found && |s| == 16 {
        var k: nat :| k <= |s| && MatchesAt(s, k);
        assert k == 0;
      }
    }
    assert |s| == 16 && MatchesAt(s, 0) ==> found;
    s == [] || (|s| == 16 && found)
  }

  /** 32 ASCII digits "12345678" repeated, then a zero: the SSID every room gets. */
  function RoomSsidName(): (r: seq<byte>)
    ensures |r| == 33 && r[32] == 0
    ensures forall i :: 0 <= i < 32 ==> r[i] == 0x31 + i % 8
  {
    seq(33, i requires 0 <= i < 33 => if i < 32 then 0x31 + i % 8 else 0)
  }

  /** The reservation list of a public room: eight zero entries, so nothing is reserved. */
  function EmptyAddressList(): (r: seq<Dhcp.AddressEntry>)
    ensures |r| == 8 && Dhcp.ReservedSet(r) == {}
  {
    seq(8, _ => Dhcp.AddressEntry(0, Zeros(6)))
  }

  // ---- Room creation and lookup ----

  /** A room id as a fresh GUID renders it: 32 lower-case hexadecimal digits. */
  predicate IsGuidText(s: string) {
    |s| == 32 && forall i :: 0 <= i < |s| ==> '0' <= s[i] <= '9' || 'a' <= s[i] <= 'f'
  }

  /** The session id of a room: its id read as hexadecimal, two digits per byte. */
  function SessionIdOf(roomId: string): (r: seq<byte>)
    requires IsHexText(roomId)
    ensures |r| == |roomId| / 2
    ensures forall i :: 0 <= i < |r| ==> Hex.DigitValue(roomId[2 * i]).value * 16 + Hex.DigitValue(roomId[2 * i + 1]).value == r[i]
  {
    HexTextParses(roomId);
    StringUtils.HexDecode(roomId).value
  }

  /** Lower-casing the upper-case digit of a value gives the lower-cased digit itself. */
  lemma DigitCase(c: char)
    requires Hex.DigitValue(c).Some?
    ensures JsonSerializerHelper.ToLower(Hex.UpperDigit(Hex.DigitValue(c).value)) == JsonSerializerHelper.ToLower(c)
  {}

  /**
   * A room is registered under its lower-cased id, and a joiner asks for it
   * by the upper-case rendering of the session id it read from the room's
   * description. The two agree up to case, so the lookup finds the room.
   */
  lemma RoomKeyOfSessionId(roomId: string)
    requires IsHexText(roomId) && |roomId| % 2 == 0
    ensures Lower(Hex.ToHexString(SessionIdOf(roomId))) == Lower(roomId)
  {
    var bs := SessionIdOf(roomId);
    var s := Hex.ToHexString(bs);
    forall b | 0 <= b < |bs|
      ensures JsonSerializerHelper.ToLower(s[2 * b]) == JsonSerializerHelper.ToLower(roomId[2 * b])
      ensures JsonSerializerHelper.ToLower(s[2 * b + 1]) == JsonSerializerHelper.ToLower(roomId[2 * b + 1])
    {
      PairCase(roomId[2 * b], roomId[2 * b + 1], bs[b]);
    }
    forall i | 0 <= i < |roomId|
      ensures Lower(s)[i] == Lower(roomId)[i]
    {
      var b := i / 2;
      assert i == 2 * b || i == 2 * b + 1;
    }
  }

  /** The byte two digits encode renders as the same two digits, up to case. */
  lemma PairCase(a: char, c: char, v: byte)
    requires Hex.DigitValue(a).Some? && Hex.DigitValue(c).Some?
    requires Hex.DigitValue(a).value * 16 + Hex.DigitValue(c).value == v
    ensures JsonSerializerHelper.ToLower(Hex.UpperDigit(v / 16)) == JsonSerializerHelper.ToLower(a)
    ensures JsonSerializerHelper.ToLower(Hex.UpperDigit(v % 16)) == JsonSerializerHelper.ToLower(c)
  {
    assert v / 16 == Hex.DigitValue(a).value && v % 16 == Hex.DigitValue(c).value;
    DigitCase(a);
    DigitCase(c);
  }

  /** A GUID rendering is hexadecimal text. */
  lemma GuidIsHexText(s: string)
    requires IsGuidText(s)
    ensures IsHexText(s) && Lower(s) == s
  {}

  /** The table entry a session contributes: its address and MAC, connected, with its name and version. */
  function MemberNode(ip: u32, mac: seq<byte>, userName: seq<byte>, version: u16): (n: NodeInfo)
    ensures Occupied(n) && n.ipv4Address == ip && n.macAddress == mac
  {
    NodeInfo(ip, mac, 0, 1, userName, version)
  }

  /**
   * The description of a room being created: the requested ids, channel,
   * security mode and maximum; link level 3, network type 2, the host's
   * MAC, the fixed SSID, the advertisement in its 0x180-byte buffer with
   * its length, and eight empty slots, none counted yet.
   */
  function RoomDescription(sessionId: seq<byte>, request: AccessPointRequest, mac: seq<byte>, advertiseData: seq<byte>): (r: NetworkInfo)
    requires |sessionId| == 16 && |advertiseData| <= AdvertiseDataCapacity
    ensures RoomTable(r) && r.nodeCount == 0 && r.nodeCountMax == request.nodeCountMax
    ensures FirstEmpty(r.nodes) == 0 && forall i :: 0 <= i < |r.nodes| ==> !Occupied(r.nodes[i])
    ensures r.sessionId == sessionId && r.macAddress == mac && r.ssid == Ssid(32, RoomSsidName())
    ensures r.advertiseDataSize == |advertiseData| && |r.advertiseData| == AdvertiseDataCapacity
    ensures r.advertiseData[..|advertiseData|] == advertiseData
    ensures forall i :: |advertiseData| <= i < AdvertiseDataCapacity ==> r.advertiseData[i] == 0
  {
    var nodes := seq(NodeSlots, _ => EmptyNode);
    NoneOccupiedCount(nodes);
    NetworkInfo(request.localCommunicationId, request.sceneId, sessionId, request.channel, 3, 2, mac,
                Ssid(32, RoomSsidName()), request.securityMode, 0, request.nodeCountMax, 0, nodes,
                |advertiseData|, PadTruncate(advertiseData, AdvertiseDataCapacity), 0)
  }

  // ---- Ping liveness ----

  /** The ping bookkeeping of a session: the id awaited (-1 for none) and the next id. */
  datatype PingState = PingState(waitingPingId: int, pingId: byte)

  datatype PingAction = NoAction | SendPing(id: byte) | DropSession

  /**
   * One round of the background ping task. An unanswered ping drops the
   * session; otherwise, after more than 10 seconds of silence, the next id is
   * sent and awaited, the counter wrapping at 256.
   */
  function Tick(s: PingState, silentMs: int): (PingState, PingAction) {
    if s.waitingPingId != -1 then (s, DropSession)
    else if silentMs > InactivityPingFrequency then (PingState(s.pingId, (s.pingId + 1) % 256), SendPing(s.pingId))
    else (s, NoAction)
  }

  /** A ping from the client: a reply (requester 0) with the awaited id clears the wait. */
  function Answer(s: PingState, requester: byte, id: byte): PingState {
    if requester == 0 && id == s.waitingPingId then s.(waitingPingId := -1) else s
  }

  /** A ping that is not answered with its own id leads to the session being dropped on the next round. */
  lemma UnansweredPingDrops(s: PingState, silentMs: int, requester: byte, id: byte, laterMs: int)
    requires s.waitingPingId == -1 && silentMs > InactivityPingFrequency
    requires requester != 0 || id != s.pingId
    ensures Tick(s, silentMs).1 == SendPing(s.pingId)
    ensures Tick(Answer(Tick(s, silentMs).0, requester, id), laterMs).1 == DropSession
  {}

  /** An answered ping re-arms: after more silence the next id goes out. */
  lemma AnsweredPingRearms(s: PingState, silentMs: int, laterMs: int)
    requires s.waitingPingId == -1 && silentMs > InactivityPingFrequency && laterMs > InactivityPingFrequency
    ensures Tick(Answer(Tick(s, silentMs).0, 0, s.pingId), laterMs).1 == SendPing((s.pingId + 1) % 256)
  {}

  /** A quiet or answered session is never dropped. */
  lemma NoDropWithoutPendingPing(s: PingState, silentMs: int)
    requires s.waitingPingId == -1
    ensures Tick(s, silentMs).1 != DropSession
  {}

  // ---- Rooms ----

  /** One room: its description, its members, its address allocator and its proxy settings. */
  class HostedGame {
    const id: string
    const net: Transport
    const dhcp: Dhcp.VirtualDhcp
    var info: NetworkInfo
    var players: seq<LdnSession>
    var closed: bool
    var closing: bool
    var owner: LdnSession?
    /** `None` until an owner is set (the source's null). */
    var passphrase: Option<seq<byte>>
    var gameVersion: seq<byte>
    var isP2P: bool
    var externalConfig: ExternalProxyConfig
    var privateConfig: ExternalProxyConfig

    ghost predicate Valid()
      reads this, dhcp
    {
      && dhcp.Valid()
      && dhcp.baseAddress == NetworkBaseAddress && dhcp.subnetMask == NetworkSubnetMask && dhcp.hostBits == 16
      && RoomTable(info)
      && (isP2P ==> owner != null)
    }

    /** The allocator can serve the MAC: it is reserved, or some host is free. */
    ghost predicate CanLease(mac: seq<byte>)
      reads this, dhcp
    {
      Dhcp.LookupReserved(dhcp.config, mac) == 0 ==> dhcp.HasFreeHost()
    }

    static lemma RoomSubnet()
      ensures Pow2(16) == 0x1_0000
      ensures Aligned(NetworkBaseAddress, 16)
    {
      assert Pow2(8) == 256;
      Pow2Add(8, 8);
      AlignedMultiple(0x0a72, 16);
    }

    /** The room's allocator over 10.114.0.0/16 with the given reservations. */
    static method NewAllocator(dhcpConfig: seq<Dhcp.AddressEntry>) returns (d: Dhcp.VirtualDhcp)
      requires |dhcpConfig| == 8
      ensures fresh(d) && d.Valid()
      ensures d.baseAddress == NetworkBaseAddress && d.subnetMask == NetworkSubnetMask && d.hostBits == 16
      ensures d.config == dhcpConfig && d.takenIps == Dhcp.ReservedSet(dhcpConfig)
    {
      RoomSubnet();
      d := new Dhcp.VirtualDhcp(NetworkBaseAddress, NetworkSubnetMask, dhcpConfig, 16);
    }

    constructor (id: string, info: NetworkInfo, dhcpConfig: seq<Dhcp.AddressEntry>, net: Transport)
      requires RoomTable(info) && |dhcpConfig| == 8
      ensures Valid()
      ensures this.id == id && this.net == net && this.info == info
      ensures fresh(dhcp) && dhcp.config == dhcpConfig && dhcp.takenIps == Dhcp.ReservedSet(dhcpConfig)
      ensures players == [] && !closed && !closing && owner == null && passphrase == None
      ensures gameVersion == [] && !isP2P && externalConfig == EmptyProxyConfig && privateConfig == EmptyProxyConfig
    {
      var allocator := NewAllocator(dhcpConfig);
      this.id := id;
      this.net := net;
      dhcp := allocator;
      this.info := info;
      players := [];
      closed := false;
      closing := false;
      owner := null;
      passphrase := None;
      gameVersion := [];
      isP2P := false;
      externalConfig := EmptyProxyConfig;
      privateConfig := EmptyProxyConfig;
      new;
      UpdateNetworkInfo(info);
    }

    method UpdateNetworkInfo(newInfo: NetworkInfo)
      modifies this`info
      ensures info == newInfo
    {
      info := newInfo;
    }

    /**
     * Records the owner and its passphrase and game version (NULs trimmed).
     * A non-zero external port makes the room peer-to-peer, with the
     * owner's public address as the external endpoint and the requested
     * private one as the internal endpoint.
     */
    method SetOwner(session: LdnSession, request: RyuNetworkConfig)
      requires Valid()
      modifies this`owner, this`passphrase, this`gameVersion, this`isP2P, this`externalConfig, this`privateConfig
      ensures Valid()
      ensures owner == session && passphrase == Some(session.passphrase)
      ensures gameVersion == TrimNul(request.gameVersion)
      ensures request.externalProxyPort != 0 ==>
        && isP2P
        && externalConfig == ExternalProxyConfig(AddressTo16Byte(session.realAddress.bytes), session.realAddress.family,
                                                 request.externalProxyPort, Zeros(16))
        && privateConfig == ExternalProxyConfig(request.privateIp, request.addressFamily, request.internalProxyPort, Zeros(16))
      ensures request.externalProxyPort == 0 ==>
        isP2P == old(isP2P) && externalConfig == old(externalConfig) && privateConfig == old(privateConfig)
    {
      owner := session;
      passphrase := Some(session.passphrase);
      gameVersion := TrimNul(request.gameVersion);
      if request.externalProxyPort != 0 {
        isP2P := true;
        var address := session.realAddress;
        externalConfig := ExternalProxyConfig(AddressTo16Byte(address.bytes), address.family, request.externalProxyPort, Zeros(16));
        privateConfig := ExternalProxyConfig(request.privateIp, request.addressFamily, request.internalProxyPort, Zeros(16));
      }
    }

    /** Introduces a joiner to the owner's peer-to-peer proxy; `token` is the fresh random token. */
    method InitExternalProxy(session: LdnSession, token: seq<byte>)
      requires owner != null
      modifies net
      ensures net.sent == old(net.sent) +
        ProxyIntroduction(owner, session, session.ipAddress, session.realAddress, externalConfig, privateConfig, token)
    {
      var address := session.realAddress;
      var addressBytes := AddressTo16Byte(address.bytes);
      var sessionIsPrivate := address.family == externalConfig.addressFamily && addressBytes == externalConfig.proxyIp;
      var physicalIp := Zeros(16);
      if !sessionIsPrivate {
        physicalIp := addressBytes;
      }
      net.Send(owner, ExternalProxyToken(session.ipAddress, token, physicalIp, address.family));
      var configCopy := if sessionIsPrivate then privateConfig else externalConfig;
      configCopy := configCopy.(token := token);
      net.Send(session, ExternalProxy(configCopy));
    }

    /** The index of the first free slot, or -1 when all eight are connected. */
    method LocateEmptyNode() returns (k: int)
      requires |info.nodes| == NodeSlots
      ensures k == FirstEmpty(info.nodes)
    {
      var nodes := info.nodes;
      var i := 0;
      while i < |nodes|
        invariant 0 <= i <= |nodes|
        invariant forall j :: 0 <= j < i ==> Occupied(nodes[j])
      {
        if nodes[i].isConnected == 0 {
          return i;
        }
        i := i + 1;
      }
      return -1;
    }

    /** Sends the message to every member, in list order. */
    method BroadcastInLock(m: Message)
      modifies net
      ensures net.sent == old(net.sent) + Fanout(players, m)
    {
      net.SendEach(players, m);
    }

    /**
     * Leases an address for the session from the room's allocator. The
     * session keeps it only when the server relays, and is then told the
     * proxy address and mask unless the room is peer-to-peer; otherwise the
     * address goes back to the allocator.
     */
    method LeaseAddress(session: LdnSession)
      requires Valid() && CanLease(session.macAddress) && session.server.net == net
      modifies dhcp`nextIp, dhcp`takenIps, session`ipAddress, net
      ensures Valid()
      ensures var reserved := Dhcp.LookupReserved(dhcp.config, session.macAddress);
        if !session.server.useProxy then
          session.ipAddress == old(session.ipAddress) && dhcp.takenIps == old(dhcp.takenIps)
        else if reserved != 0 then
          session.ipAddress == reserved && dhcp.takenIps == old(dhcp.takenIps)
        else
          && dhcp.IsHost(session.ipAddress) && session.ipAddress !in old(dhcp.takenIps)
          && dhcp.takenIps == old(dhcp.takenIps) + {session.ipAddress}
      ensures net.sent == old(net.sent) +
        (if session.server.useProxy && !isP2P then [Envelope(session, ProxyConfigNotice(session.ipAddress, NetworkSubnetMask))] else [])
    {
      var ip := dhcp.RequestIpV4(session.macAddress);
      var taken := session.SetIpV4(ip, NetworkSubnetMask, !isP2P);
      if !taken {
        dhcp.ReturnIpV4(ip);
      }
    }

    /** Writes the joiner into the first free slot and counts it. */
    method SeatNode(session: LdnSession, node: NodeInfo)
      requires Valid() && Admits(info) && Occupied(node)
      modifies this`info, session`nodeId
      ensures Valid()
      ensures info == Seated(old(info), node) && session.nodeId == FirstEmpty(old(info.nodes))
    {
      ghost var seated := Seated(info, node);
      var nodeId := LocateEmptyNode();
      info := info.(nodeCount := info.nodeCount + 1);
      var joining := node.(nodeId := nodeId);
      session.nodeId := nodeId;
      info := info.(nodes := info.nodes[nodeId := joining]);
      assert info == seated;
    }

    /** Leases the joiner's address and seats it, with that address, in the first free slot. */
    method Admit(session: LdnSession, node: NodeInfo)
      requires Valid() && Admits(info) && Occupied(node)
      requires CanLease(session.macAddress) && session.server.net == net
      modifies this`info, dhcp`nextIp, dhcp`takenIps, session`ipAddress, session`nodeId, net
      ensures Valid()
      ensures info == Seated(old(info), node.(ipv4Address := session.ipAddress))
      ensures session.nodeId == FirstEmpty(old(info.nodes))
      ensures var reserved := Dhcp.LookupReserved(dhcp.config, session.macAddress);
        if !session.server.useProxy then
          session.ipAddress == old(session.ipAddress) && dhcp.takenIps == old(dhcp.takenIps)
        else if reserved != 0 then
          session.ipAddress == reserved && dhcp.takenIps == old(dhcp.takenIps)
        else
          && dhcp.IsHost(session.ipAddress) && session.ipAddress !in old(dhcp.takenIps)
          && dhcp.takenIps == old(dhcp.takenIps) + {session.ipAddress}
      ensures net.sent == old(net.sent) +
        (if session.server.useProxy && !isP2P then [Envelope(session, ProxyConfigNotice(session.ipAddress, NetworkSubnetMask))] else [])
    {
      LeaseAddress(session);
      SeatNode(session, node.(ipv4Address := session.ipAddress));
    }

    /**
     * Admits a member when the room is open and below its maximum: leases an
     * address, seats the node in the first free slot, introduces it to a
     * peer-to-peer host, sends the new description to the members already
     * there, and then to the joiner.
     */
    method Connect(session: LdnSession, node: NodeInfo, token: seq<byte>) returns (ok: bool)
      requires Valid() && Occupied(node)
      requires CanLease(session.macAddress)
      requires session.server.net == net
      modifies this`info, this`players, dhcp`nextIp, dhcp`takenIps
      modifies session`ipAddress, session`nodeId, session`currentGame, net
      ensures Valid()
      ensures ok <==> !old(closed) && Admits(old(info))
      ensures !ok ==> info == old(info) && players == old(players) && dhcp.takenIps == old(dhcp.takenIps)
      ensures !ok ==> unchanged(session) && net.sent == old(net.sent)
      ensures ok ==>
        && info == Seated(old(info), node.(ipv4Address := session.ipAddress))
        && session.nodeId == FirstEmpty(old(info.nodes))
        && session.currentGame == this
        && players == old(players) + [session]
      ensures ok ==>
        var reserved := Dhcp.LookupReserved(dhcp.config, session.macAddress);
        if !session.server.useProxy then
          session.ipAddress == old(session.ipAddress) && dhcp.takenIps == old(dhcp.takenIps)
        else if reserved != 0 then
          session.ipAddress == reserved && dhcp.takenIps == old(dhcp.takenIps)
        else
          && dhcp.IsHost(session.ipAddress) && session.ipAddress !in old(dhcp.takenIps)
          && dhcp.takenIps == old(dhcp.takenIps) + {session.ipAddress}
      ensures ok ==>
        net.sent == old(net.sent)
          + (if session.server.useProxy && !isP2P then [Envelope(session, ProxyConfigNotice(session.ipAddress, NetworkSubnetMask))] else [])
          + (if isP2P then ProxyIntroduction(owner, session, session.ipAddress, session.realAddress, externalConfig, privateConfig, token) else [])
          + Fanout(old(players), SyncNetwork(info))
          + [Envelope(session, Connected(info))]
    {
      if closed || !Admits(info) {
        return false;
      }
      Admit(session, node);
      Announce(session, token);
      ok := true;
    }

    /**
     * Makes the seated joiner a member: introduces it to a peer-to-peer host,
     * sends the description to the members already there, then to the joiner.
     */
    method Announce(session: LdnSession, token: seq<byte>)
      requires isP2P ==> owner != null
      modifies this`players, session`currentGame, net
      ensures session.currentGame == this && players == old(players) + [session]
      ensures net.sent == old(net.sent)
        + (if isP2P then ProxyIntroduction(owner, session, session.ipAddress, session.realAddress, externalConfig, privateConfig, token) else [])
        + Fanout(old(players), SyncNetwork(info))
        + [Envelope(session, Connected(info))]
    {
      if isP2P {
        InitExternalProxy(session, token);
      }
      BroadcastInLock(SyncNetwork(info));
      session.currentGame := this;
      players := players + [session];
      net.Send(session, Connected(info));
    }

    /**
     * Frees every connected slot holding the address, over all eight slots,
     * and lowers the count by the number freed.
     */
    method RemoveFromInfo(ip: u32)
      requires Valid()
      modifies this`info
      ensures Valid()
      ensures info == Vacated(old(info), ip)
    {
      ghost var start := info.nodes;
      var i := 0;
      while i < |info.nodes|
        invariant 0 <= i <= NodeSlots && |info.nodes| == NodeSlots
        invariant info.nodes == ClearAddress(start[..i], ip) + start[i..]
        invariant info.nodeCount + HoldingCount(start[..i], ip) == old(info.nodeCount)
        invariant info == old(info).(nodeCount := info.nodeCount, nodes := info.nodes)
      {
        ClearPrefixStep(start, i, ip);
        HoldingPrefixStep(start, i, ip);
        HoldingPrefixBound(start, i + 1, ip);
        if info.nodes[i].isConnected != 0 && info.nodes[i].ipv4Address == ip {
          info := info.(nodeCount := info.nodeCount - 1, nodes := info.nodes[i := info.nodes[i].(isConnected := 0)]);
        }
        i := i + 1;
      }
      assert start[..i] == start && start[i..] == [];
      assert info.nodes == ClearAddress(start, ip);
      ClearAddressKeepsCount(start, old(info.nodeCount), ip);
    }

    /**
     * Removes a member: out of the list, out of the room, its address back
     * to the allocator, its slot freed, the remaining members told; a
     * peer-to-peer host is told of an unexpected departure.
     */
    method DisconnectInternal(session: LdnSession, expected: bool)
      requires Valid()
      modifies this`players, this`info, dhcp`takenIps, session`currentGame, net
      ensures Valid()
      ensures players == RemoveFirst(old(players), session)
      ensures session.currentGame == null
      ensures dhcp.takenIps ==
        if session.ipAddress in dhcp.reservedIps then old(dhcp.takenIps) else old(dhcp.takenIps) - {session.ipAddress}
      ensures info == Vacated(old(info), session.ipAddress)
      ensures net.sent == old(net.sent) + LeaveNotice(isP2P && !expected, owner, session.ipAddress)
        + Fanout(players, SyncNetwork(info))
    {
      var ip := session.ipAddress;
      players := RemoveFirst(players, session);
      session.currentGame := null;
      if isP2P && !expected && owner != null {
        net.Send(owner, ExternalProxyState(ip, false));
      }
      assert net.sent == old(net.sent) + LeaveNotice(isP2P && !expected, owner, ip);
      dhcp.ReturnIpV4(ip);
      RemoveFromInfo(ip);
      BroadcastInLock(SyncNetwork(info));
    }

    /** `Disconnect`: nothing for no session; otherwise the removal above. */
    method Disconnect(session: LdnSession?, expected: bool)
      requires Valid()
      modifies this`players, this`info, dhcp`takenIps, Optional(session)`currentGame, net
      ensures Valid()
      ensures session == null ==>
        players == old(players) && info == old(info) && dhcp.takenIps == old(dhcp.takenIps) && net.sent == old(net.sent)
      ensures session != null ==>
        && players == RemoveFirst(old(players), session)
        && session.currentGame == null
        && dhcp.takenIps == (if session.ipAddress in dhcp.reservedIps then old(dhcp.takenIps) else old(dhcp.takenIps) - {session.ipAddress})
        && info == Vacated(old(info), session.ipAddress)
        && net.sent == old(net.sent) + LeaveNotice(isP2P && !expected, owner, session.ipAddress) + Fanout(players, SyncNetwork(info))
    {
      if session == null {
        return;
      }
      session.currentGame := null;
      DisconnectInternal(session, expected);
    }

    /**
     * The owner rejects the member with the given node id (the id is first
     * compared with the member count). Anyone else, or an id at or past the
     * count, gets `RejectFailed`. The sender always gets the reply.
     */
    method HandleReject(sender: LdnSession, nodeId: u32)
      requires Valid()
      modifies this`players, this`info, dhcp`takenIps, players`currentGame, net
      ensures Valid()
      ensures sender != old(owner) || nodeId >= |old(players)| ==>
        && players == old(players) && info == old(info) && dhcp.takenIps == old(dhcp.takenIps)
        && net.sent == old(net.sent) + [Envelope(sender, NetworkErrorReply(RejectFailed)), Envelope(sender, RejectReply)]
      ensures sender == old(owner) && nodeId < |old(players)| && old(FirstWithNodeId(players, nodeId)) == -1 ==>
        && players == old(players) && info == old(info) && dhcp.takenIps == old(dhcp.takenIps)
        && net.sent == old(net.sent) + [Envelope(sender, RejectReply)]
      ensures sender == old(owner) && nodeId < |old(players)| && old(FirstWithNodeId(players, nodeId)) != -1 ==>
        var target := old(players)[old(FirstWithNodeId(players, nodeId))];
        && players == RemoveFirst(old(players), target)
        && target.currentGame == null
        && info == Vacated(old(info), target.ipAddress)
        && net.sent == old(net.sent) + LeaveNotice(isP2P, owner, target.ipAddress) + Fanout(players, SyncNetwork(info))
          + [Envelope(sender, RejectReply)]
    {
      if sender == owner {
        if nodeId >= |players| {
          net.Send(sender, NetworkErrorReply(RejectFailed));
        } else {
          var k := FirstWithNodeId(players, nodeId);
          var target: LdnSession? := if k == -1 then null else players[k];
          Disconnect(target, false);
        }
      } else {
        net.Send(sender, NetworkErrorReply(RejectFailed));
      }
      net.Send(sender, RejectReply);
    }

    /** The owner sets the accept policy and the members are sent the new description. */
    method HandleSetAcceptPolicy(sender: LdnSession, policy: byte)
      requires Valid()
      modifies this`info, net
      ensures Valid()
      ensures sender == owner ==>
        info == old(info).(stationAcceptPolicy := policy) && net.sent == old(net.sent) + Fanout(players, SyncNetwork(info))
      ensures sender != owner ==> info == old(info) && net.sent == old(net.sent)
    {
      if sender == owner {
        info := info.(stationAcceptPolicy := policy);
        BroadcastInLock(SyncNetwork(info));
      }
    }

    /**
     * The owner replaces the advertise data: the size field is the length
     * truncated to 16 bits, the buffer the data padded or cut to 0x180 bytes.
     */
    method HandleSetAdvertiseData(sender: LdnSession, data: seq<byte>)
      requires Valid()
      modifies this`info, net
      ensures Valid()
      ensures sender == owner ==>
        && info == old(info).(advertiseDataSize := |data| % 0x1_0000, advertiseData := PadTruncate(data, AdvertiseDataCapacity))
        && net.sent == old(net.sent) + Fanout(players, SyncNetwork(info))
      ensures sender != owner ==> info == old(info) && net.sent == old(net.sent)
    {
      if sender == owner {
        info := info.(advertiseDataSize := |data| % 0x1_0000);
        var resized := PadTruncate(data, AdvertiseDataCapacity);
        info := info.(advertiseData := resized);
        BroadcastInLock(SyncNetwork(info));
      }
    }

    /**
     * The owner reports a member's proxy connection state. A lost
     * connection disconnects the first member with that address, which is
     * first sent a disconnect notice; the departure is an expected one.
     */
    method HandleExternalProxyState(sender: LdnSession, ip: u32, connected: bool)
      requires Valid()
      modifies this`players, this`info, dhcp`takenIps, players`currentGame, net
      ensures Valid()
      ensures sender != old(owner) || connected || old(FirstWithIp(players, ip)) == -1 ==>
        players == old(players) && info == old(info) && dhcp.takenIps == old(dhcp.takenIps) && net.sent == old(net.sent)
      ensures sender == old(owner) && !connected && old(FirstWithIp(players, ip)) != -1 ==>
        var target := old(players)[old(FirstWithIp(players, ip))];
        && target.ipAddress == ip
        && players == RemoveFirst(old(players), target)
        && target.currentGame == null
        && info == Vacated(old(info), ip)
        && net.sent == old(net.sent) + [Envelope(target, DisconnectNotice(0))] + Fanout(players, SyncNetwork(info))
    {
      if sender != owner {
        return;
      }
      var k := FirstWithIp(players, ip);
      if k != -1 {
        var player := players[k];
        if !connected {
          net.Send(player, DisconnectNotice(0));
          Disconnect(player, true);
        }
      }
    }

    /**
     * Relays one proxy packet (connect, connect reply, data or disconnect,
     * as `kind` says) from `sender` to the members `Relay` selects.
     */
    method RouteMessage(sender: LdnSession, header: ProxyInfo, kind: ProxyKind, payload: seq<byte>)
      requires Valid()
      modifies net
      ensures net.sent == old(net.sent) + Relay(players, sender.ipAddress, header, kind, payload, dhcp.BroadcastAddress())
    {
      var h := header;
      if h.sourceIpV4 == 0 {
        h := h.(sourceIpV4 := sender.ipAddress);
      } else if h.sourceIpV4 != sender.ipAddress {
        return;
      }
      var destIp := h.destIpV4;
      if destIp == LegacyBroadcast {
        destIp := dhcp.BroadcastAddress();
      }
      var isBroadcast := destIp == dhcp.BroadcastAddress();
      var snapshot := players;
      var m := Proxied(kind, h, payload);
      if isBroadcast {
        net.SendEach(snapshot, m);
      } else {
        var k := FirstWithIp(snapshot, destIp);
        if k != -1 {
          net.Send(snapshot[k], m);
        }
      }
    }

    /** Closes the room once: it is marked closing and closed and the members are told. */
    method Close()
      modifies this`closed, this`closing, net
      ensures closed
      ensures closing == (old(closing) || !old(closed))
      ensures net.sent == old(net.sent) + ClosingNotices(old(closed), players)
      ensures old(Valid()) ==> Valid()
    {
      if closed {
        return;
      }
      closing := true;
      CloseInternal();
    }

    method CloseInternal()
      modifies this`closed, net
      ensures closed
      ensures net.sent == old(net.sent) + ClosingNotices(old(closed), players)
      ensures old(Valid()) ==> Valid()
    {
      if !closed {
        closed := true;
        BroadcastInLock(DisconnectNotice(0));
      }
    }
  }

  // ---- The room registry ----

  class LdnServer {
    const net: Transport
    const macAddresses: MacAddressMemory.MemoryRegistry
    /** Always true: the server relays all traffic. */
    const useProxy: bool
    /** Rooms by lower-case id. */
    var hostedGames: map<string, HostedGame>

    constructor ()
      ensures fresh(net) && fresh(macAddresses) && net.sent == []
      ensures macAddresses.Valid() && macAddresses.idToAddress == map[]
      ensures useProxy && hostedGames == map[]
    {
      net := new Transport();
      macAddresses := new MacAddressMemory.MemoryRegistry();
      useProxy := true;
      hostedGames := map[];
    }

    /** Every room sends through the server's transport. */
    ghost predicate SharedTransport()
      reads this
    {
      forall g :: g in hostedGames.Values ==> g.net == net
    }

    /** The room under the lower-cased id, or null: ids are case-insensitive. */
    function FindGame(id: string): (g: HostedGame?)
      reads this
      ensures g != null <==> Lower(id) in hostedGames
      ensures g != null ==> g == hostedGames[Lower(id)]
    {
      if Lower(id) in hostedGames then hostedGames[Lower(id)] else null
    }

    /** The objects a connect to the room under `id` may change. */
    function RoomFrame(id: string): set<object>
      reads this
    {
      var g := FindGame(id);
      if g == null then {} else {g, g.dhcp}
    }

    /** What a scan reads of the rooms under the keys, in key order. */
    function Rooms(keys: seq<string>): (r: seq<RoomView>)
      reads this, hostedGames.Values
      requires forall k :: k in keys ==> k in hostedGames
      ensures |r| == |keys| && forall i :: 0 <= i < |keys| ==> r[i] == View(hostedGames[keys[i]])
    {
      var games := hostedGames;
      seq(|keys|, i requires 0 <= i < |keys| reads games.Values => View(games[keys[i]]))
    }

    /**
     * Installs a new room under the lower-cased id. A room already there is
     * replaced (and closed) only when the same client owns it; otherwise the
     * new room is closed and null returned.
     */
    method CreateGame(id: string, info: NetworkInfo, dhcpConfig: seq<Dhcp.AddressEntry>, oldOwnerId: string)
      returns (game: HostedGame?)
      requires RoomTable(info) && |dhcpConfig| == 8
      requires SharedTransport()
      requires Lower(id) in hostedGames ==> hostedGames[Lower(id)].owner != null
      modifies this`hostedGames, hostedGames.Values`closed, hostedGames.Values`closing, net
      ensures SharedTransport()
      ensures var key := Lower(id);
        key !in old(hostedGames) || old(hostedGames[key].owner.id) == oldOwnerId ==>
          && game != null && fresh(game) && hostedGames == old(hostedGames)[key := game]
          && game.Valid() && game.id == key && game.info == info && game.net == net
          && game.players == [] && game.owner == null && game.passphrase == None && !game.closed && !game.isP2P
          && fresh(game.dhcp) && game.dhcp.config == dhcpConfig && game.dhcp.takenIps == Dhcp.ReservedSet(dhcpConfig)
      ensures var key := Lower(id);
        key in old(hostedGames) && old(hostedGames[key].owner.id) == oldOwnerId ==>
          var previous := old(hostedGames[key]);
          previous.closed && net.sent == old(net.sent) + ClosingNotices(old(previous.closed), previous.players)
      ensures var key := Lower(id);
        key in old(hostedGames) && old(hostedGames[key].owner.id) != oldOwnerId ==>
          game == null && hostedGames == old(hostedGames) && net.sent == old(net.sent)
      ensures Lower(id) !in old(hostedGames) ==> net.sent == old(net.sent)
    {
      var key := Lower(id);
      game := new HostedGame(key, info, dhcpConfig, net);
      if key in hostedGames {
        var oldGame := hostedGames[key];
        assert oldGame in old(hostedGames).Values;
        if oldGame.owner.id == oldOwnerId {
          oldGame.Close();
          hostedGames := hostedGames[key := game];
        } else {
          game.Close();
          game := null;
        }
      } else {
        hostedGames := hostedGames[key := game];
      }
    }

    /** Removes the room under the lower-cased id, closing it. */
    method CloseGame(id: string)
      requires SharedTransport()
      modifies this`hostedGames, hostedGames.Values`closed, hostedGames.Values`closing, net
      ensures SharedTransport()
      ensures hostedGames == old(hostedGames) - {Lower(id)}
      ensures forall g :: g in old(hostedGames).Values && old(g.closing) ==> g.closing
      ensures Lower(id) in old(hostedGames) ==>
        var removed := old(hostedGames[Lower(id)]);
        removed.closed && net.sent == old(net.sent) + ClosingNotices(old(removed.closed), removed.players)
      ensures Lower(id) !in old(hostedGames) ==> net.sent == old(net.sent)
    {
      var key := Lower(id);
      if key in hostedGames {
        var removed := hostedGames[key];
        assert removed in old(hostedGames).Values;
        hostedGames := hostedGames - {key};
        removed.Close();
      }
    }

    /**
     * Copies the description of every visible room into the buffer, in key
     * order, growing it by one slot whenever it is full; returns the buffer
     * (the same one unless it grew) and the number of descriptions.
     * `keys` is the snapshot of the registry's keys, each once. A room whose
     * SSID slice is out of range makes the scan throw (`failed`), with the
     * descriptions before it already written.
     */
    method Scan(buffer: array<NetworkInfo>, filter: ScanFilter, passphrase: seq<byte>, exclude: HostedGame?, keys: seq<string>)
      returns (result: array<NetworkInfo>, count: nat, failed: bool)
      requires forall k :: k in keys <==> k in hostedGames
      requires forall i, j :: 0 <= i < j < |keys| ==> keys[i] != keys[j]
      modifies buffer
      ensures var rooms := old(Rooms(keys));
        var k := FirstFault(rooms, filter, passphrase, exclude);
        && (failed <==> k < |rooms|)
        && count <= result.Length && result[..count] == Listed(rooms[..k], filter, passphrase, exclude)
      ensures !failed ==> result[..count] == old(Listed(Rooms(keys), filter, passphrase, exclude))
      ensures result.Length == if count <= buffer.Length then buffer.Length else count
      ensures count <= buffer.Length ==> result == buffer
      ensures buffer.Length < count ==> fresh(result)
    {
      var rooms := Rooms(keys);
      result, count, failed := CollectVisible(buffer, rooms, filter, passphrase, exclude);
    }

    /** The loop of a scan, over what it reads of each room in turn, up to the first room whose SSID slice throws. */
    static method CollectVisible(buffer: array<NetworkInfo>, rooms: seq<RoomView>, filter: ScanFilter, passphrase: seq<byte>, exclude: HostedGame?)
      returns (result: array<NetworkInfo>, count: nat, failed: bool)
      modifies buffer
      ensures var k := FirstFault(rooms, filter, passphrase, exclude);
        && (failed <==> k < |rooms|)
        && count <= result.Length && result[..count] == Listed(rooms[..k], filter, passphrase, exclude)
      ensures !failed ==> result[..count] == Listed(rooms, filter, passphrase, exclude)
      ensures result.Length == if count <= buffer.Length then buffer.Length else count
      ensures count <= buffer.Length ==> result == buffer
      ensures buffer.Length < count ==> fresh(result)
    {
      result := buffer;
      count := 0;
      var i := 0;
      while i < |rooms| && !SsidFaults(rooms[i], filter, passphrase, exclude)
        invariant 0 <= i <= FirstFault(rooms, filter, passphrase, exclude)
        invariant count == |Listed(rooms[..i], filter, passphrase, exclude)| && count <= result.Length
        invariant result[..count] == Listed(rooms[..i], filter, passphrase, exclude)
        invariant result.Length == if count <= buffer.Length then buffer.Length else count
        invariant result == buffer || fresh(result)
        invariant result != buffer ==> buffer.Length < count
      {
        ListedStep(rooms, i, filter, passphrase, exclude);
        if Visible(rooms[i], filter, passphrase, exclude) {
          result := Place(result, count, rooms[i].info);
          count := count + 1;
        }
        i := i + 1;
      }
      failed := i < |rooms|;
      assert i == FirstFault(rooms, filter, passphrase, exclude);
      assert rooms[..|rooms|] == rooms;
    }

    /** Writes `x` at `count`, first growing a full buffer by one slot as `Array.Resize` does. */
    static method Place(a: array<NetworkInfo>, count: nat, x: NetworkInfo) returns (b: array<NetworkInfo>)
      requires count <= a.Length
      modifies a
      ensures b.Length == if count < a.Length then a.Length else count + 1
      ensures count < a.Length ==> b == a
      ensures count == a.Length ==> fresh(b)
      ensures b[..count + 1] == old(a[..count]) + [x]
    {
      b := a;
      if count == a.Length {
        b := Grown(a);
      }
      b[count] := x;
      assert b[..count + 1] == b[..count] + [x];
    }

    /** `Array.Resize` by one slot: the old contents, then a default description. */
    static method Grown(a: array<NetworkInfo>) returns (b: array<NetworkInfo>)
      ensures fresh(b) && b.Length == a.Length + 1
      ensures b[..a.Length] == a[..] && b[a.Length] == EmptyInfo
    {
      b := new NetworkInfo[a.Length + 1](_ => EmptyInfo);
      var i := 0;
      while i < a.Length
        invariant 0 <= i <= a.Length
        invariant b[..i] == a[..i] && b[a.Length] == EmptyInfo
        modifies b
      {
        b[i] := a[i];
        i := i + 1;
      }
    }
  }


  // ---- Sessions ----

  /** One client connection. */
  class LdnSession {
    /** The 32 lower-case hex digits of the connection's GUID. */
    const id: string
    const server: LdnServer
    /** The remote address of the socket. */
    const realAddress: PhysicalAddress
    var currentGame: HostedGame?
    var macAddress: seq<byte>
    var ipAddress: u32
    var passphrase: seq<byte>
    var nodeId: int
    var initialized: bool
    var disconnected: bool
    var waitingPingId: int
    var pingId: byte
    var lastMessageMs: int
    /** Set when the session has asked its socket to close. */
    var dropRequested: bool
    var scanBuffer: array<NetworkInfo>

    /** `mac` is the random MAC the session starts with; `nowMs` the clock. */
    constructor (server: LdnServer, id: string, realAddress: PhysicalAddress, mac: seq<byte>, nowMs: int)
      ensures this.server == server && this.id == id && this.realAddress == realAddress
      ensures currentGame == null && macAddress == mac && ipAddress == 0 && passphrase == [] && nodeId == 0
      ensures !initialized && !disconnected && waitingPingId == -1 && pingId == 0 && lastMessageMs == nowMs
      ensures !dropRequested && fresh(scanBuffer) && scanBuffer.Length == 1
    {
      this.server := server;
      this.id := id;
      this.realAddress := realAddress;
      currentGame := null;
      macAddress := mac;
      ipAddress := 0;
      passphrase := [];
      nodeId := 0;
      initialized := false;
      disconnected := false;
      waitingPingId := -1;
      pingId := 0;
      lastMessageMs := nowMs;
      dropRequested := false;
      scanBuffer := new NetworkInfo[1](_ => EmptyInfo);
    }

    function PingStatus(): PingState
      reads this
    {
      PingState(waitingPingId, pingId)
    }

    /** One round of the background ping task at time `nowMs`. */
    method Ping(nowMs: int)
      modifies this`waitingPingId, this`pingId, this`dropRequested, server.net
      ensures var step := Tick(old(PingStatus()), nowMs - lastMessageMs);
        && PingStatus() == step.0
        && dropRequested == (old(dropRequested) || step.1 == DropSession)
        && server.net.sent == old(server.net.sent) + (if step.1.SendPing? then [Envelope(this, Message.Ping(0, step.1.id))] else [])
    {
      if waitingPingId != -1 {
        dropRequested := true;
      } else {
        var deltaMs := nowMs - lastMessageMs;
        if deltaMs > InactivityPingFrequency {
          var id := pingId;
          pingId := (pingId + 1) % 256;
          waitingPingId := id;
          server.net.Send(this, Message.Ping(0, id));
        }
      }
    }

    method HandlePing(requester: byte, id: byte)
      modifies this`waitingPingId
      ensures PingStatus() == Answer(old(PingStatus()), requester, id)
    {
      if requester == 0 && id == waitingPingId {
        waitingPingId := -1;
      }
    }

    /** Every message received restarts the silence clock. */
    method MessageReceived(nowMs: int)
      modifies this`lastMessageMs
      ensures lastMessageMs == nowMs
    {
      lastMessageMs := nowMs;
    }

    /**
     * The first initialize message: the MAC registry keeps the client's MAC
     * when it is the one stored for the client's previous id, mints a new
     * one otherwise; the reply carries the session id as 16 bytes and the
     * MAC. Later initialize messages are ignored.
     */
    method HandleInitialize(messageId: seq<byte>, messageMac: seq<byte>, draws: seq<MacAddressMemory.Mac>)
      requires IsHexText(id)
      requires server.macAddresses.Valid()
      requires !initialized ==>
        var key := Hex.ToHexString(messageId);
        (key in server.macAddresses.idToAddress && server.macAddresses.idToAddress[key] == messageMac) ||
        exists i :: 0 <= i < |draws| && Hex.ToHexString(draws[i]) !in server.macAddresses.reservedAddresses
      modifies this`macAddress, this`initialized, server.macAddresses, server.net
      ensures server.macAddresses.Valid() && initialized
      ensures old(initialized) ==>
        macAddress == old(macAddress) && unchanged(server.macAddresses) && server.net.sent == old(server.net.sent)
      ensures !old(initialized) ==>
        var registry := server.macAddresses;
        var key := Hex.ToHexString(messageId);
        var known := key in old(registry.idToAddress) && old(registry.idToAddress[key]) == messageMac;
        && (known ==> macAddress == messageMac)
        && (!known ==> macAddress == draws[MacAddressMemory.FirstFresh(draws, old(registry.reservedAddresses))]
                       && macAddress !in old(registry.minted))
        && registry.idToAddress == (if id in old(registry.idToAddress) then old(registry.idToAddress)
                                    else old(registry.idToAddress)[id := macAddress])
        && StringUtils.HexDecode(id).Some?
        && server.net.sent == old(server.net.sent) + [Envelope(this, InitializeReply(StringUtils.HexDecode(id).value, macAddress))]
    {
      if initialized {
        return;
      }
      var mac := server.macAddresses.TryFind(Hex.ToHexString(messageId), messageMac, id, draws);
      macAddress := mac;
      HexTextParses(id);
      var reply := StringUtils.HexDecode(id).value;
      server.net.Send(this, InitializeReply(reply, macAddress));
      initialized := true;
    }

    /** Keeps the passphrase (the bytes before the first NUL) when it is accepted, else clears it. */
    method HandlePassphrase(field: seq<byte>)
      modifies this`passphrase
      ensures passphrase == if PassphraseAccepted(StringUtils.BeforeNul(field)) then StringUtils.BeforeNul(field) else []
    {
      var text := StringUtils.ReadUtf8String(field);
      var valid := PassphraseAccepted(text);
      passphrase := if valid then text else [];
    }

    /**
     * Takes the leased address when the server relays, telling a client of
     * a relayed (not peer-to-peer) room the proxy address and mask; reports
     * whether the address was taken.
     */
    method SetIpV4(ip: u32, subnet: u32, internalProxy: bool) returns (ok: bool)
      modifies this`ipAddress, server.net
      ensures ok == server.useProxy
      ensures ipAddress == if server.useProxy then ip else old(ipAddress)
      ensures server.net.sent == old(server.net.sent) +
        (if server.useProxy && internalProxy then [Envelope(this, ProxyConfigNotice(ip, subnet))] else [])
    {
      if server.useProxy {
        ipAddress := ip;
        if internalProxy {
          server.net.Send(this, ProxyConfigNotice(ip, subnet));
        }
        return true;
      }
      return false;
    }

    /**
     * Leaves the current room, if any; when the session owned it the room is
     * marked closing, and the room registered under its id is removed and
     * closed, its remaining members told.
     */
    method DisconnectFromGame()
      requires server.SharedTransport()
      requires currentGame != null ==> currentGame.Valid() && currentGame.net == server.net
      modifies this`currentGame, server`hostedGames, server.hostedGames.Values`closed, server.hostedGames.Values`closing, server.net
      modifies if currentGame == null then {} else {currentGame, currentGame.dhcp}
      ensures currentGame == null
      ensures old(currentGame) == null ==>
        server.hostedGames == old(server.hostedGames) && server.net.sent == old(server.net.sent)
      ensures old(currentGame) != null ==>
        var g := old(currentGame);
        && g.players == RemoveFirst(old(g.players), this)
        && g.info == Vacated(old(g.info), ipAddress)
        && (old(g.owner) == this ==>
              && g.closing && server.hostedGames == old(server.hostedGames) - {Lower(g.id)}
              && var left := old(server.net.sent) + LeaveNotice(old(g.isP2P), old(g.owner), ipAddress)
                   + Fanout(g.players, SyncNetwork(g.info));
                 && (Lower(g.id) !in old(server.hostedGames) ==> server.net.sent == left)
                 && (Lower(g.id) in old(server.hostedGames) ==>
                       var removed := old(server.hostedGames[Lower(g.id)]);
                       removed.closed && server.net.sent == left + ClosingNotices(old(removed.closed), removed.players)))
        && (old(g.owner) != this ==>
              && server.hostedGames == old(server.hostedGames)
              && server.net.sent == old(server.net.sent) + LeaveNotice(old(g.isP2P), old(g.owner), ipAddress)
                   + Fanout(g.players, SyncNetwork(g.info)))
    {
      var game := currentGame;
      if game == null {
        return;
      }
      game.Disconnect(this, false);
      if game.owner == this {
        CloseOwnRoom(game);
      }
    }

    /** The owner's leave: the room is marked closing and the room registered under its id is removed and closed. */
    method CloseOwnRoom(game: HostedGame)
      requires server.SharedTransport()
      modifies game`closing, server`hostedGames, server.hostedGames.Values`closed, server.hostedGames.Values`closing, server.net
      ensures game.closing && server.hostedGames == old(server.hostedGames) - {Lower(game.id)}
      ensures Lower(game.id) !in old(server.hostedGames) ==> server.net.sent == old(server.net.sent)
      ensures Lower(game.id) in old(server.hostedGames) ==>
        var removed := old(server.hostedGames[Lower(game.id)]);
        removed.closed && server.net.sent == old(server.net.sent) + ClosingNotices(old(removed.closed), removed.players)
    {
      game.closing := true;
      server.CloseGame(game.id);
    }

    /** The socket closed: the session is marked disconnected and leaves its room. */
    method OnDisconnected()
      requires server.SharedTransport()
      requires currentGame != null ==> currentGame.Valid() && currentGame.net == server.net
      modifies this`disconnected, this`currentGame, server`hostedGames, server.hostedGames.Values`closed, server.hostedGames.Values`closing, server.net
      modifies if currentGame == null then {} else {currentGame, currentGame.dhcp}
      ensures disconnected && currentGame == null
      ensures old(currentGame) == null ==>
        server.hostedGames == old(server.hostedGames) && server.net.sent == old(server.net.sent)
      ensures old(currentGame) != null ==>
        var g := old(currentGame);
        && g.players == RemoveFirst(old(g.players), this)
        && g.info == Vacated(old(g.info), ipAddress)
        && (old(g.owner) == this ==>
              && g.closing && server.hostedGames == old(server.hostedGames) - {Lower(g.id)}
              && var left := old(server.net.sent) + LeaveNotice(old(g.isP2P), old(g.owner), ipAddress)
                   + Fanout(g.players, SyncNetwork(g.info));
                 && (Lower(g.id) !in old(server.hostedGames) ==> server.net.sent == left)
                 && (Lower(g.id) in old(server.hostedGames) ==>
                       var removed := old(server.hostedGames[Lower(g.id)]);
                       removed.closed && server.net.sent == left + ClosingNotices(old(removed.closed), removed.players)))
        && (old(g.owner) != this ==>
              && server.hostedGames == old(server.hostedGames)
              && server.net.sent == old(server.net.sent) + LeaveNotice(old(g.isP2P), old(g.owner), ipAddress)
                   + Fanout(g.players, SyncNetwork(g.info)))
    {
      disconnected := true;
      DisconnectFromGame();
    }


    /**
     * Builds the description of a new room and registers it under `roomId`,
     * owned by this session, which then joins it as its first member. An
     * advertisement longer than the room's buffer aborts before anything
     * happens. A non-zero external proxy port the server cannot reach
     * (`proxyReachable`) is dropped and the client told. When the id is held
     * by another client's room the client is told and nothing is registered;
     * when the session has meanwhile disconnected, the room is registered and
     * removed again.
     */
    method AccessPointConfigToNetworkInfo(roomId: string, request: AccessPointRequest, dhcpConfig: seq<Dhcp.AddressEntry>,
                                          advertiseData: seq<byte>, proxyReachable: bool, token: seq<byte>)
      requires IsHexText(roomId) && |roomId| == 32 && |dhcpConfig| == 8
      requires server.SharedTransport()
      requires Lower(roomId) in server.hostedGames ==> server.hostedGames[Lower(roomId)].owner != null
      modifies this`ipAddress, this`nodeId, this`currentGame, this`dropRequested
      modifies server`hostedGames, server.hostedGames.Values`closed, server.hostedGames.Values`closing, server.net
      ensures server.SharedTransport()
      ensures dropRequested == (old(dropRequested) || |advertiseData| > AdvertiseDataCapacity)
      ensures |advertiseData| > AdvertiseDataCapacity ==>
        server.hostedGames == old(server.hostedGames) && server.net.sent == old(server.net.sent) && currentGame == old(currentGame)
      ensures |advertiseData| <= AdvertiseDataCapacity ==>
        var notice := if request.ryu.externalProxyPort != 0 && !proxyReachable then [Envelope(this, NetworkErrorReply(PortUnreachable))] else [];
        old(server.net.sent) + notice <= server.net.sent
      ensures |advertiseData| <= AdvertiseDataCapacity && Lower(roomId) in old(server.hostedGames)
              && old(server.hostedGames[Lower(roomId)].owner.id) != id ==>
        var notice := if request.ryu.externalProxyPort != 0 && !proxyReachable then [Envelope(this, NetworkErrorReply(PortUnreachable))] else [];
        && server.hostedGames == old(server.hostedGames) && currentGame == old(currentGame)
        && server.net.sent == old(server.net.sent) + notice + [Envelope(this, NetworkErrorReply(Unknown))]
      ensures |advertiseData| <= AdvertiseDataCapacity && disconnected ==>
        Lower(roomId) !in server.hostedGames || server.hostedGames == old(server.hostedGames)
      ensures |advertiseData| <= AdvertiseDataCapacity && disconnected ==> currentGame == old(currentGame)
      ensures |advertiseData| <= AdvertiseDataCapacity && !disconnected
              && (Lower(roomId) in old(server.hostedGames) ==> old(server.hostedGames[Lower(roomId)].owner.id) == id) ==>
        && Lower(roomId) in server.hostedGames
        && var g := server.hostedGames[Lower(roomId)];
        var description := RoomDescription(SessionIdOf(roomId), request, macAddress, advertiseData);
        && fresh(g) && g.owner == this && g.passphrase == Some(passphrase) && g.dhcp.config == dhcpConfig
        && g.isP2P == (request.ryu.externalProxyPort != 0 && proxyReachable)
        && (request.nodeCountMax == 0 ==>
              currentGame == old(currentGame) && g.players == [] && g.info == description)
        && (request.nodeCountMax != 0 ==>
              && currentGame == g && g.players == [this] && nodeId == 0
              && g.info == Seated(description, MemberNode(ipAddress, macAddress, request.userName, request.localCommunicationVersion))
              && |server.net.sent| > 0 && server.net.sent[|server.net.sent| - 1] == Envelope(this, Connected(g.info)))
    {
      if |advertiseData| > AdvertiseDataCapacity {
        // The copy into the room's advertisement buffer throws here, and the
        // receive handler disconnects the session.
        dropRequested := true;
        return;
      }
      var info := RoomDescription(SessionIdOf(roomId), request, macAddress, advertiseData);
      var node := MemberNode(ipAddress, macAddress, request.userName, request.localCommunicationVersion);
      var ryu := request.ryu;
      if ryu.externalProxyPort != 0 && !proxyReachable {
        ryu := ryu.(externalProxyPort := 0);
        server.net.Send(this, NetworkErrorReply(PortUnreachable));
      }
      var game := RegisterRoom(roomId, info, dhcpConfig, ryu, node, token);
    }

    /**
     * This session owns `game`, whose description was `info`: it is the
     * owner with its passphrase, the room is peer-to-peer exactly when an
     * external port is requested, and, unless the maximum admits nobody
     * (then nothing else changed since `previous` was the session's room),
     * the session is the one member, seated in the first free slot and last
     * sent the new description.
     */
    ghost predicate OwnsRoom(game: HostedGame, info: NetworkInfo, node: NodeInfo, ryu: RyuNetworkConfig, previous: HostedGame?)
      requires RoomTable(info) && Occupied(node)
      reads this, game, server.net
    {
      && game.owner == this && game.passphrase == Some(passphrase) && game.isP2P == (ryu.externalProxyPort != 0)
      && (!Admits(info) ==> currentGame == previous && game.players == [] && game.info == info)
      && (Admits(info) ==>
            && currentGame == game && game.players == [this] && nodeId == FirstEmpty(info.nodes)
            && game.info == Seated(info, node.(ipv4Address := ipAddress))
            && |server.net.sent| > 0 && server.net.sent[|server.net.sent| - 1] == Envelope(this, Connected(game.info)))
    }

    /**
     * Registers the described room and returns it, or tells the client and
     * returns null when another client's room holds the id. Unless the
     * session has disconnected it takes the room over; a disconnected
     * session's room is removed again at once.
     */
    method RegisterRoom(roomId: string, info: NetworkInfo, dhcpConfig: seq<Dhcp.AddressEntry>, ryu: RyuNetworkConfig,
                        node: NodeInfo, token: seq<byte>) returns (game: HostedGame?)
      requires RoomTable(info) && |dhcpConfig| == 8 && Occupied(node)
      requires server.SharedTransport()
      requires Lower(roomId) in server.hostedGames ==> server.hostedGames[Lower(roomId)].owner != null
      modifies this`ipAddress, this`nodeId, this`currentGame
      modifies server`hostedGames, server.hostedGames.Values`closed, server.hostedGames.Values`closing, server.net
      ensures server.SharedTransport()
      ensures old(server.net.sent) <= server.net.sent
      ensures game == null <==> Lower(roomId) in old(server.hostedGames) && old(server.hostedGames[Lower(roomId)].owner.id) != id
      ensures game == null ==>
        && server.hostedGames == old(server.hostedGames) && currentGame == old(currentGame)
        && server.net.sent == old(server.net.sent) + [Envelope(this, NetworkErrorReply(Unknown))]
      ensures game != null ==> fresh(game) && game.dhcp.config == dhcpConfig
      ensures game != null && disconnected ==> currentGame == old(currentGame) && Lower(roomId) !in server.hostedGames
      ensures game != null && !disconnected ==>
        && Lower(roomId) in server.hostedGames && server.hostedGames[Lower(roomId)] == game
        && OwnsRoom(game, info, node, ryu, old(currentGame))
    {
      game := server.CreateGame(roomId, info, dhcpConfig, id);
      if game == null {
        server.net.Send(this, NetworkErrorReply(Unknown));
        return;
      }
      Settle(roomId, game, ryu, node, token);
    }

    /** The registered room is removed again when the session has disconnected, else taken over. */
    method Settle(roomId: string, game: HostedGame, ryu: RyuNetworkConfig, node: NodeInfo, token: seq<byte>)
      requires server.SharedTransport() && Lower(roomId) in server.hostedGames && server.hostedGames[Lower(roomId)] == game
      requires game.Valid() && !game.closed && game.players == [] && !game.isP2P && Occupied(node)
      requires game.net == server.net && game.dhcp.takenIps == Dhcp.ReservedSet(game.dhcp.config)
      modifies game`owner, game`passphrase, game`gameVersion, game`isP2P, game`externalConfig, game`privateConfig
      modifies game`info, game`players, game.dhcp`nextIp, game.dhcp`takenIps, this`ipAddress, this`nodeId, this`currentGame
      modifies server`hostedGames, server.hostedGames.Values`closed, server.hostedGames.Values`closing, server.net
      ensures server.SharedTransport()
      ensures old(server.net.sent) <= server.net.sent
      ensures disconnected ==> currentGame == old(currentGame) && Lower(roomId) !in server.hostedGames
      ensures !disconnected ==>
        server.hostedGames == old(server.hostedGames) && OwnsRoom(game, old(game.info), node, ryu, old(currentGame))
    {
      if disconnected {
        server.CloseGame(roomId);
      } else {
        TakeOwnership(game, ryu, node, token);
      }
    }

    /**
     * The owner's part in a room it has just registered: it becomes the
     * owner and joins as the first member when the maximum allows one.
     */
    method TakeOwnership(game: HostedGame, ryu: RyuNetworkConfig, node: NodeInfo, token: seq<byte>)
      requires game.Valid() && !game.closed && game.players == [] && !game.isP2P && Occupied(node)
      requires game.net == server.net && game.dhcp.takenIps == Dhcp.ReservedSet(game.dhcp.config)
      modifies game`owner, game`passphrase, game`gameVersion, game`isP2P, game`externalConfig, game`privateConfig
      modifies game`info, game`players, game.dhcp`nextIp, game.dhcp`takenIps, this`ipAddress, this`nodeId, this`currentGame, server.net
      ensures OwnsRoom(game, old(game.info), node, ryu, old(currentGame))
      ensures old(server.net.sent) <= server.net.sent
      ensures !Admits(old(game.info)) ==> server.net.sent == old(server.net.sent)
    {
      game.dhcp.FreshAllocatorHasFreeHost();
      ghost var before := game.info;
      ghost var members := game.players;
      game.SetOwner(this, ryu);
      assert game.players == members;
      assert game.info == before && !game.closed && game.CanLease(macAddress);
      var joined := Join(game, node, token);
    }

    /**
     * Joins the room through its admission (`HostedGame.Connect`): succeeds
     * exactly when the room is open and admits one more member, and then
     * the session is seated, listed last and sent the new description.
     */
    method Join(game: HostedGame, node: NodeInfo, token: seq<byte>) returns (joined: bool)
      requires game.Valid() && game.net == server.net && game.CanLease(macAddress) && Occupied(node)
      modifies game`info, game`players, game.dhcp`nextIp, game.dhcp`takenIps, this`ipAddress, this`nodeId, this`currentGame, server.net
      ensures old(server.net.sent) <= server.net.sent
      ensures joined <==> !old(game.closed) && Admits(old(game.info))
      ensures !joined ==>
        && game.players == old(game.players) && game.info == old(game.info)
        && currentGame == old(currentGame) && server.net.sent == old(server.net.sent)
      ensures joined ==>
        && currentGame == game && game.players == old(game.players) + [this] && nodeId == FirstEmpty(old(game.info.nodes))
        && game.info == Seated(old(game.info), node.(ipv4Address := ipAddress))
        && |server.net.sent| > 0 && server.net.sent[|server.net.sent| - 1] == Envelope(this, Connected(game.info))
    {
      joined := game.Connect(this, node, token);
    }

    /**
     * A request for a public room: refused while in a room or before
     * initialization; otherwise the room is registered under `guid`, the
     * rendering of a fresh GUID, with no reserved addresses.
     */
    method HandleCreateAccessPoint(request: AccessPointRequest, advertiseData: seq<byte>, guid: string,
                                   proxyReachable: bool, token: seq<byte>)
      requires IsGuidText(guid)
      requires server.SharedTransport()
      requires guid in server.hostedGames ==> server.hostedGames[guid].owner != null
      modifies this`ipAddress, this`nodeId, this`currentGame, this`dropRequested
      modifies server`hostedGames, server.hostedGames.Values`closed, server.hostedGames.Values`closing, server.net
      ensures server.SharedTransport()
      ensures dropRequested == (old(dropRequested) || (old(currentGame) == null && initialized && |advertiseData| > AdvertiseDataCapacity))
      ensures old(currentGame) != null || !initialized ==>
        && currentGame == old(currentGame) && server.hostedGames == old(server.hostedGames)
        && server.net.sent == old(server.net.sent) + [Envelope(this, NetworkErrorReply(Unknown))]
      ensures currentGame != old(currentGame) ==>
        && old(currentGame) == null && initialized && currentGame != null
        && currentGame == server.FindGame(guid) && currentGame.owner == this && currentGame.players == [this]
        && server.FindGame(Hex.ToHexString(currentGame.info.sessionId)) == currentGame
    {
      if currentGame != null || !initialized {
        server.net.Send(this, NetworkErrorReply(Unknown));
        return;
      }
      GuidIsHexText(guid);
      RoomKeyOfSessionId(guid);
      AccessPointConfigToNetworkInfo(guid, request, EmptyAddressList(), advertiseData, proxyReachable, token);
    }

    /**
     * A request for a private room: refused while in a room or before
     * initialization; otherwise the room is registered under the upper-case
     * rendering of the requested session id, with the requested reservations.
     */
    method HandleCreateAccessPointPrivate(request: AccessPointRequest, sessionId: seq<byte>, addressList: seq<Dhcp.AddressEntry>,
                                          advertiseData: seq<byte>, proxyReachable: bool, token: seq<byte>)
      requires |sessionId| == 16 && |addressList| == 8
      requires server.SharedTransport()
      requires var key := Lower(Hex.ToHexString(sessionId));
        key in server.hostedGames ==> server.hostedGames[key].owner != null
      modifies this`ipAddress, this`nodeId, this`currentGame, this`dropRequested
      modifies server`hostedGames, server.hostedGames.Values`closed, server.hostedGames.Values`closing, server.net
      ensures server.SharedTransport()
      ensures dropRequested == (old(dropRequested) || (old(currentGame) == null && initialized && |advertiseData| > AdvertiseDataCapacity))
      ensures old(currentGame) != null || !initialized ==>
        && currentGame == old(currentGame) && server.hostedGames == old(server.hostedGames)
        && server.net.sent == old(server.net.sent) + [Envelope(this, NetworkErrorReply(Unknown))]
      ensures currentGame != old(currentGame) ==>
        && old(currentGame) == null && initialized && currentGame != null
        && currentGame == server.FindGame(Hex.ToHexString(sessionId)) && currentGame.owner == this
        && currentGame.players == [this] && currentGame.info.sessionId == sessionId
        && currentGame.dhcp.config == addressList
    {
      if currentGame != null || !initialized {
        server.net.Send(this, NetworkErrorReply(Unknown));
        return;
      }
      var roomId := Hex.ToHexString(sessionId);
      HexStringIsHexText(sessionId);
      StringUtils.HexDecodeOfToHexString(sessionId);
      AccessPointConfigToNetworkInfo(roomId, request, addressList, advertiseData, proxyReachable, token);
    }

    /**
     * Joins the room under `roomId` (in any case) when the client's version
     * equals that of the room's first slot, the host's. The client is told
     * when its version is higher or lower, when the room is closed or full,
     * and when there is no such room. Being in another room already is not
     * checked.
     */
    method ConnectImpl(roomId: string, userName: seq<byte>, version: u32, token: seq<byte>)
      requires server.FindGame(roomId) != null ==>
        var g := server.FindGame(roomId);
        g.Valid() && g.net == server.net && g.CanLease(macAddress)
      modifies this`ipAddress, this`nodeId, this`currentGame, server.net, server.RoomFrame(roomId)
      ensures old(server.net.sent) <= server.net.sent
      ensures server.FindGame(roomId) == null ==>
        currentGame == old(currentGame) && server.net.sent == old(server.net.sent) + [Envelope(this, NetworkErrorReply(ConnectNotFound))]
      ensures server.FindGame(roomId) != null ==>
        var g := server.FindGame(roomId);
        var hostVersion := old(g.info.nodes[0].localCommunicationVersion);
        && (version != hostVersion ==>
              && g.info == old(g.info) && g.players == old(g.players) && currentGame == old(currentGame)
              && server.net.sent == old(server.net.sent)
                   + [Envelope(this, NetworkErrorReply(if version > hostVersion then VersionTooHigh else VersionTooLow))])
        && (version == hostVersion && (old(g.closed) || !Admits(old(g.info))) ==>
              && g.info == old(g.info) && g.players == old(g.players) && currentGame == old(currentGame)
              && server.net.sent == old(server.net.sent) + [Envelope(this, NetworkErrorReply(TooManyPlayers))])
        && (version == hostVersion && !old(g.closed) && Admits(old(g.info)) ==>
              && currentGame == g && g.players == old(g.players) + [this] && nodeId == FirstEmpty(old(g.info.nodes))
              && g.info == Seated(old(g.info), MemberNode(ipAddress, macAddress, userName, version))
              && |server.net.sent| > 0 && server.net.sent[|server.net.sent| - 1] == Envelope(this, Connected(g.info)))
    {
      var game := server.FindGame(roomId);
      if game == null {
        server.net.Send(this, NetworkErrorReply(ConnectNotFound));
        return;
      }
      JoinMatchingVersion(game, userName, version, token);
    }

    /** The version check against the host's node, then the join; the outcome is sent to this session. */
    method JoinMatchingVersion(game: HostedGame, userName: seq<byte>, version: u32, token: seq<byte>)
      requires game.Valid() && game.net == server.net && game.CanLease(macAddress)
      modifies this`ipAddress, this`nodeId, this`currentGame, server.net
      modifies game`info, game`players, game.dhcp`nextIp, game.dhcp`takenIps
      ensures old(server.net.sent) <= server.net.sent
      ensures var hostVersion := old(game.info.nodes[0].localCommunicationVersion);
        && (version != hostVersion ==>
              && game.info == old(game.info) && game.players == old(game.players) && currentGame == old(currentGame)
              && server.net.sent == old(server.net.sent)
                   + [Envelope(this, NetworkErrorReply(if version > hostVersion then VersionTooHigh else VersionTooLow))])
        && (version == hostVersion && (old(game.closed) || !Admits(old(game.info))) ==>
              && game.info == old(game.info) && game.players == old(game.players) && currentGame == old(currentGame)
              && server.net.sent == old(server.net.sent) + [Envelope(this, NetworkErrorReply(TooManyPlayers))])
        && (version == hostVersion && !old(game.closed) && Admits(old(game.info)) ==>
              && currentGame == game && game.players == old(game.players) + [this] && nodeId == FirstEmpty(old(game.info.nodes))
              && game.info == Seated(old(game.info), MemberNode(ipAddress, macAddress, userName, version))
              && |server.net.sent| > 0 && server.net.sent[|server.net.sent| - 1] == Envelope(this, Connected(game.info)))
    {
      var hostVersion := game.info.nodes[0].localCommunicationVersion;
      if version > hostVersion {
        server.net.Send(this, NetworkErrorReply(VersionTooHigh));
        return;
      } else if version < hostVersion {
        server.net.Send(this, NetworkErrorReply(VersionTooLow));
        return;
      }
      var node := MemberNode(ipAddress, macAddress, userName, version % 0x1_0000);
      var joined := Join(game, node, token);
      if !joined {
        server.net.Send(this, NetworkErrorReply(TooManyPlayers));
      }
    }

    /**
     * A connect request, public or private: refused before initialization;
     * otherwise joins the room whose key matches the upper-case rendering
     * of the requested session id.
     */
    method HandleConnect(sessionId: seq<byte>, userName: seq<byte>, version: u32, token: seq<byte>)
      requires initialized && server.FindGame(Hex.ToHexString(sessionId)) != null ==>
        var g := server.FindGame(Hex.ToHexString(sessionId));
        g.Valid() && g.net == server.net && g.CanLease(macAddress)
      modifies this`ipAddress, this`nodeId, this`currentGame, server.net, server.RoomFrame(Hex.ToHexString(sessionId))
      ensures !initialized ==>
        currentGame == old(currentGame) && server.net.sent == old(server.net.sent) + [Envelope(this, NetworkErrorReply(ConnectFailure))]
      ensures initialized && server.FindGame(Hex.ToHexString(sessionId)) == null ==>
        currentGame == old(currentGame) && server.net.sent == old(server.net.sent) + [Envelope(this, NetworkErrorReply(ConnectNotFound))]
      ensures currentGame != old(currentGame) ==>
        && initialized && currentGame != null && currentGame == server.FindGame(Hex.ToHexString(sessionId))
        && (var g := currentGame; g.players == old(g.players) + [this])
        && 0 <= nodeId < NodeSlots == |currentGame.info.nodes| && version < 0x1_0000
        && currentGame.info.nodes[nodeId] == MemberNode(ipAddress, macAddress, userName, version).(nodeId := nodeId)
    {
      if !initialized {
        server.net.Send(this, NetworkErrorReply(ConnectFailure));
        return;
      }
      ConnectImpl(Hex.ToHexString(sessionId), userName, version, token);
    }

    /**
     * Sends the descriptions of the visible rooms, other than its own, then
     * the end marker. When the scan throws on an SSID slice nothing is sent
     * and the session is dropped, as the receive handler disconnects on any
     * exception; the buffer keeps what the scan wrote.
     */
    method HandleScan(filter: ScanFilter, keys: seq<string>)
      requires forall k :: k in keys <==> k in server.hostedGames
      requires forall i, j :: 0 <= i < j < |keys| ==> keys[i] != keys[j]
      modifies this`scanBuffer, scanBuffer, server.net, this`dropRequested
      ensures var rooms := old(server.Rooms(keys));
        var k := FirstFault(rooms, filter, old(passphrase), old(currentGame));
        var written := Listed(rooms[..k], filter, old(passphrase), old(currentGame));
        && |written| <= scanBuffer.Length && scanBuffer[..|written|] == written
        && (k == |rooms| ==>
              && server.net.sent == old(server.net.sent)
                   + ScanReplies(this, Listed(rooms, filter, old(passphrase), old(currentGame)))
                   + [Envelope(this, ScanReplyEnd)]
              && dropRequested == old(dropRequested))
        && (k < |rooms| ==> server.net.sent == old(server.net.sent) && dropRequested)
    {
      var buffer, games, failed := server.Scan(scanBuffer, filter, passphrase, currentGame, keys);
      scanBuffer := buffer;
      ghost var written := buffer[..games];
      ReplyToScan(buffer, games, failed);
      assert scanBuffer[..games] == written;
    }

    /** The replies and end marker of a scan that completed, or the drop of the session when it threw. */
    method ReplyToScan(buffer: array<NetworkInfo>, count: nat, failed: bool)
      requires count <= buffer.Length
      modifies server.net, this`dropRequested
      ensures failed ==> server.net.sent == old(server.net.sent) && dropRequested
      ensures !failed ==>
        && server.net.sent == old(server.net.sent) + ScanReplies(this, buffer[..count]) + [Envelope(this, ScanReplyEnd)]
        && dropRequested == old(dropRequested)
    {
      if failed {
        dropRequested := true;
        return;
      }
      SendScanReplies(buffer, count);
      server.net.Send(this, ScanReplyEnd);
    }

    /** One scan reply per description in the first `count` slots, in order. */
    method SendScanReplies(buffer: array<NetworkInfo>, count: nat)
      requires count <= buffer.Length
      modifies server.net
      ensures server.net.sent == old(server.net.sent) + ScanReplies(this, buffer[..count])
    {
      var i := 0;
      while i < count
        invariant 0 <= i <= count
        invariant server.net.sent == old(server.net.sent) + ScanReplies(this, buffer[..i])
      {
        assert ScanReplies(this, buffer[..i + 1]) == ScanReplies(this, buffer[..i]) + [Envelope(this, ScanReply(buffer[i]))];
        server.net.Send(this, ScanReply(buffer[i]));
        i := i + 1;
      }
    }
  }
}
