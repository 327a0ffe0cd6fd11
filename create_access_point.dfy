/**
 * The health-check client's `CreateAccessPoint` packet: a 188-byte payload
 * (struct format `<HH64s33s15sQHHIHBBH10s16s16siHH`) after the 12-byte
 * header, holding the security, user, network and RyuLDN network
 * configuration of the room to create.
 *
 * As written, `decode` reads `self.__header`, which inside this class is the
 * attribute `_CreateAccessPointPacket__header`; nothing assigns it before
 * that read, so every decode that gets past the header raises
 * `AttributeError`. `DecodeAsWritten` models that; `Decode` compares with the
 * constructor's header, as the `Initialize` packet does, and is the one the
 * rest of the model uses.
 */
module CreateAccessPointPackets {
  import opened Wrappers
  import opened Bytes
  import opened PacketIds
  import opened PacketHeaders
  import S = StructFormat
  import opened Packets

  /** The payload follows the server's request layout: five consecutive parts. */
  const SecurityFormat: seq<S.Code> := [S.Unsigned(2), S.Unsigned(2), S.Chars(64)]
  const UserFormat: seq<S.Code> := [S.Chars(33), S.Chars(15)]
  const IntentFormat: seq<S.Code> := [S.Unsigned(8), S.Unsigned(2), S.Unsigned(2), S.Unsigned(4)]
  const NetworkFormat: seq<S.Code> := [S.Unsigned(2), S.Unsigned(1), S.Unsigned(1), S.Unsigned(2), S.Chars(10)]
  const RyuNetworkFormat: seq<S.Code> := [S.Chars(16), S.Chars(16), S.Signed32, S.Unsigned(2), S.Unsigned(2)]
  const Format: seq<S.Code> := SecurityFormat + UserFormat + IntentFormat + NetworkFormat + RyuNetworkFormat

  /** The payload is the 188 bytes of the server's `CreateAccessPointRequest`. */
  lemma FormatSize()
    ensures |Format| == 19 && S.Size(Format) == 188
  {
    assert S.Size(SecurityFormat) == 68 && S.Size(UserFormat) == 48;
    assert S.Size(IntentFormat) == 16 && S.Size(NetworkFormat) == 16 && S.Size(RyuNetworkFormat) == 40;
    S.SizeConcat(SecurityFormat, UserFormat);
    S.SizeConcat(SecurityFormat + UserFormat, IntentFormat);
    S.SizeConcat(SecurityFormat + UserFormat + IntentFormat, NetworkFormat);
    S.SizeConcat(SecurityFormat + UserFormat + IntentFormat + NetworkFormat, RyuNetworkFormat);
  }

  /** Values that match the whole format match it part by part. */
  lemma SplitValues(vals: seq<S.Value>)
    requires S.AllMatch(Format, vals)
    ensures vals == vals[..3] + vals[3..5] + vals[5..9] + vals[9..14] + vals[14..]
    ensures S.AllMatch(SecurityFormat, vals[..3]) && S.AllMatch(UserFormat, vals[3..5])
    ensures S.AllMatch(IntentFormat, vals[5..9]) && S.AllMatch(NetworkFormat, vals[9..14])
    ensures S.AllMatch(RyuNetworkFormat, vals[14..])
  {
    var f2 := SecurityFormat + UserFormat;
    var f3 := f2 + IntentFormat;
    var f4 := f3 + NetworkFormat;
    assert vals == vals[..14] + vals[14..];
    S.AllMatchConcat(f4, RyuNetworkFormat, vals[..14], vals[14..]);
    assert vals[..14] == vals[..9] + vals[9..14];
    S.AllMatchConcat(f3, NetworkFormat, vals[..9], vals[9..14]);
    assert vals[..9] == vals[..5] + vals[5..9];
    S.AllMatchConcat(f2, IntentFormat, vals[..5], vals[5..9]);
    assert vals[..5] == vals[..3] + vals[3..5];
    S.AllMatchConcat(SecurityFormat, UserFormat, vals[..3], vals[3..5]);
  }

  /** Each slot holds an integer where the format has an integer code and a byte string where it has `s`. */
  predicate Shaped(vals: seq<S.Value>) {
    && |vals| == 19
    && vals[0].UInt? && vals[1].UInt? && vals[2].Str? && vals[3].Str? && vals[4].Str?
    && vals[5].UInt? && vals[6].UInt? && vals[7].UInt? && vals[8].UInt?
    && vals[9].UInt? && vals[10].UInt? && vals[11].UInt? && vals[12].UInt? && vals[13].Str?
    && vals[14].Str? && vals[15].Str? && vals[16].SInt? && vals[17].UInt? && vals[18].UInt?
  }

  /** Values that match the format are shaped like it. */
  lemma Shapes(vals: seq<S.Value>)
    requires S.AllMatch(Format, vals)
    ensures Shaped(vals)
  {
    SplitValues(vals);
    var security, user, intent, network, ryuNetwork := vals[..3], vals[3..5], vals[5..9], vals[9..14], vals[14..];
    assert S.Matches(SecurityFormat[0], security[0]) && S.Matches(SecurityFormat[1], security[1]) && S.Matches(SecurityFormat[2], security[2]);
    assert S.Matches(UserFormat[0], user[0]) && S.Matches(UserFormat[1], user[1]);
    assert S.Matches(IntentFormat[0], intent[0]) && S.Matches(IntentFormat[1], intent[1]);
    assert S.Matches(IntentFormat[2], intent[2]) && S.Matches(IntentFormat[3], intent[3]);
    assert S.Matches(NetworkFormat[0], network[0]) && S.Matches(NetworkFormat[1], network[1]) && S.Matches(NetworkFormat[2], network[2]);
    assert S.Matches(NetworkFormat[3], network[3]) && S.Matches(NetworkFormat[4], network[4]);
    assert S.Matches(RyuNetworkFormat[0], ryuNetwork[0]) && S.Matches(RyuNetworkFormat[1], ryuNetwork[1]);
    assert S.Matches(RyuNetworkFormat[2], ryuNetwork[2]) && S.Matches(RyuNetworkFormat[3], ryuNetwork[3]);
    assert S.Matches(RyuNetworkFormat[4], ryuNetwork[4]);
  }

  /** Attributes that hold the slots of matching values, part by part, read back as those values. */
  lemma ValuesOfParts(p: CreateAccessPointPacket, vals: seq<S.Value>)
    requires |vals| == 19
    requires vals[0] == S.UInt(p.securityMode) && vals[1] == S.UInt(p.passphraseSize) && vals[2] == S.Str(p.passphrase)
    requires vals[3] == S.Str(p.username) && vals[4] == S.Str(p.unknown1)
    requires vals[5] == S.UInt(p.localCommunicationId) && vals[6] == S.UInt(p.reserved1)
    requires vals[7] == S.UInt(p.sceneId) && vals[8] == S.UInt(p.reserved2)
    requires vals[9] == S.UInt(p.channel) && vals[10] == S.UInt(p.nodeCountMax) && vals[11] == S.UInt(p.reserved3)
    requires vals[12] == S.UInt(p.localCommunicationVersion) && vals[13] == S.Str(p.reserved4)
    requires vals[14] == S.Str(p.gameVersion) && vals[15] == S.Str(p.privateIp) && vals[16] == S.SInt(p.addressFamily)
    requires vals[17] == S.UInt(p.externalProxyPort) && vals[18] == S.UInt(p.internalProxyPort)
    ensures p.Values() == vals
  {
    assert vals == vals[..3] + vals[3..5] + vals[5..9] + vals[9..14] + vals[14..];
    assert p.SecurityValues() == vals[..3];
    assert p.UserValues() == vals[3..5];
    assert p.IntentValues() == vals[5..9];
    assert p.NetworkValues() == vals[9..14];
    assert p.RyuNetworkValues() == vals[14..];
  }

  class CreateAccessPointPacket {
    /** The base-class part, whose header `len`, `get_id` and `encode` read. */
    const packet: Packet
    /** `_CreateAccessPointPacket__header`: the received header, stored by the corrected `decode` only. */
    var header: PacketHeader?
    // Security config
    var securityMode: int
    var passphraseSize: int
    var passphrase: seq<byte>
    // User config
    var username: seq<byte>
    var unknown1: seq<byte>
    // Network config: the intent id, then the rest
    var localCommunicationId: int
    var reserved1: int
    var sceneId: int
    var reserved2: int
    var channel: int
    var nodeCountMax: int
    var reserved3: int
    var localCommunicationVersion: int
    var reserved4: seq<byte>
    // RyuLDN network config
    var gameVersion: seq<byte>
    var privateIp: seq<byte>
    var addressFamily: int
    var externalProxyPort: int
    var internalProxyPort: int

    /** A `CreateAccessPoint` header for a 188-byte payload; every integer 0 and every byte string empty. */
    constructor ()
      ensures fresh(packet) && fresh(packet.header)
      ensures packet.header.Current() == Fields(MAGIC, Code(CreateAccessPoint), VERSION, 188)
      ensures header == null
      ensures SecurityValues() == [S.UInt(0), S.UInt(0), S.Str([])] && UserValues() == [S.Str([]), S.Str([])]
      ensures IntentValues() == [S.UInt(0), S.UInt(0), S.UInt(0), S.UInt(0)]
      ensures NetworkValues() == [S.UInt(0), S.UInt(0), S.UInt(0), S.UInt(0), S.Str([])]
      ensures RyuNetworkValues() == [S.Str([]), S.Str([]), S.SInt(0), S.UInt(0), S.UInt(0)]
    {
      packet := new Packet(CreateAccessPoint, 188);
      header := null;
      securityMode, passphraseSize, passphrase := 0, 0, [];
      username, unknown1 := [], [];
      localCommunicationId, reserved1, sceneId, reserved2 := 0, 0, 0, 0;
      channel, nodeCountMax, reserved3, localCommunicationVersion, reserved4 := 0, 0, 0, 0, [];
      gameVersion, privateIp, addressFamily, externalProxyPort, internalProxyPort := [], [], 0, 0, 0;
    }

    function SecurityValues(): (vals: seq<S.Value>)
      reads this`securityMode, this`passphraseSize, this`passphrase
      ensures |vals| == |SecurityFormat|
    {
      [S.UInt(securityMode), S.UInt(passphraseSize), S.Str(passphrase)]
    }

    function UserValues(): (vals: seq<S.Value>)
      reads this`username, this`unknown1
      ensures |vals| == |UserFormat|
    {
      [S.Str(username), S.Str(unknown1)]
    }

    function IntentValues(): (vals: seq<S.Value>)
      reads this`localCommunicationId, this`reserved1, this`sceneId, this`reserved2
      ensures |vals| == |IntentFormat|
    {
      [S.UInt(localCommunicationId), S.UInt(reserved1), S.UInt(sceneId), S.UInt(reserved2)]
    }

    function NetworkValues(): (vals: seq<S.Value>)
      reads this`channel, this`nodeCountMax, this`reserved3, this`localCommunicationVersion, this`reserved4
      ensures |vals| == |NetworkFormat|
    {
      [S.UInt(channel), S.UInt(nodeCountMax), S.UInt(reserved3), S.UInt(localCommunicationVersion), S.Str(reserved4)]
    }

    function RyuNetworkValues(): (vals: seq<S.Value>)
      reads this`gameVersion, this`privateIp, this`addressFamily, this`externalProxyPort, this`internalProxyPort
      ensures |vals| == |RyuNetworkFormat|
    {
      [S.Str(gameVersion), S.Str(privateIp), S.SInt(addressFamily), S.UInt(externalProxyPort), S.UInt(internalProxyPort)]
    }

    /** The 19 payload attributes in format order. */
    function Values(): (vals: seq<S.Value>)
      reads this
      ensures |vals| == |Format|
    {
      SecurityValues() + UserValues() + IntentValues() + NetworkValues() + RyuNetworkValues()
    }

    /**
     * `encode`: a buffer of `len(self)` bytes, the constructor's header in
     * front and the payload packed after it. A negative length raises
     * `ValueError`; a buffer too short for the payload, or an integer out of
     * its field's range, raises `struct.error`.
     */
    method Encode() returns (r: Result<seq<byte>, PyError>)
      ensures packet.Len() < 0 ==> r == Failure(ValueError)
      ensures 0 <= packet.Len() && (packet.Len() < HeaderSize + S.Size(Format) || !S.AllMatch(Format, Values()))
        ==> r == Failure(StructError)
      ensures packet.Len() >= HeaderSize + S.Size(Format) && S.AllMatch(Format, Values()) ==>
        && r.Success? && |r.value| == packet.Len()
        && r.value[..HeaderSize] == packet.header.Encode()
        && S.UnpackFrom(r.value, HeaderSize, Format) == S.NormalAll(Format, Values())
        && forall i :: HeaderSize + S.Size(Format) <= i < |r.value| ==> r.value[i] == 0
    {
      var n := packet.Len();
      if n < 0 {
        return Failure(ValueError);
      }
      var result := WithHeader(n, packet.header.Encode());
      if |result| < HeaderSize + S.Size(Format) || !S.AllMatch(Format, Values()) {
        return Failure(StructError);
      }
      S.UnpackFromPackInto(result, HeaderSize, Format, Values());
      result := S.PackInto(result, HeaderSize, Format, Values());
      r := Success(result);
    }

    /**
     * `decode` as written: after the length assertion and the header
     * parse, the id comparison reads `_CreateAccessPointPacket__header`,
     * which does not exist yet. It never succeeds and never changes the
     * packet.
     */
    method DecodeAsWritten(buffer: seq<byte>) returns (raised: Option<PyError>)
      ensures raised.Some?
      ensures raised == Some(AttributeError) <==>
        |buffer| >= packet.Len() && |buffer| >= HeaderSize && FromCode(buffer[4]).Some?
    {
      if |buffer| < packet.Len() {
        return Some(AssertionError);
      }
      var received := PacketHeader.FromBuffer(buffer);
      if received.Failure? {
        return Some(received.error);
      }
      raised := Some(AttributeError);
    }

    /**
     * `decode` with the id compared against the constructor's header: the
     * buffer must hold `len(self)` bytes, start with a header that decodes
     * and carry this packet's id. The received header goes to this class's
     * own slot with its payload size set to 188, and the 19 attributes are
     * the payload read after it.
     */
    method Decode(buffer: seq<byte>) returns (raised: Option<PyError>)
      modifies this
      ensures |buffer| < packet.Len() ==> raised == Some(AssertionError) && unchanged(this)
      ensures |buffer| >= packet.Len() && |buffer| < HeaderSize ==> raised == Some(AssertionError) && unchanged(this)
      ensures |buffer| >= packet.Len() && |buffer| >= HeaderSize && FromCode(buffer[4]).None? ==>
        raised == Some(ValueError) && unchanged(this)
      ensures |buffer| >= packet.Len() && |buffer| >= HeaderSize && FromCode(buffer[4]).Some?
        && FromCode(buffer[4]).value != packet.header.packetId
        ==> raised == Some(AssertionError) && unchanged(this)
      ensures raised == None <==>
        |buffer| >= packet.Len() && |buffer| >= HeaderSize + S.Size(Format) && FromCode(buffer[4]) == Some(packet.header.packetId)
      ensures raised == None ==>
        && header != null && fresh(header)
        && header.Current() == Unpack(buffer).(dataSize := 188)
        && Values() == S.UnpackFrom(buffer, HeaderSize, Format)
    {
      if |buffer| < packet.Len() {
        return Some(AssertionError);
      }
      var received := packet.ReceiveHeader(buffer);
      if received.Failure? {
        return Some(received.error);
      }
      header := received.value;
      if |buffer| < HeaderSize + S.Size(Format) {
        return Some(StructError);
      }
      AssignFrom(buffer);
      FormatSize();
      header.dataSize := S.Size(Format);
      raised := None;
    }

    /** The unpacking of `decode`: the attributes read back as the payload after the header. */
    method AssignFrom(buffer: seq<byte>)
      requires HeaderSize + S.Size(Format) <= |buffer|
      modifies this
      ensures Values() == S.UnpackFrom(buffer, HeaderSize, Format)
      ensures header == old(header)
    {
      var vals := S.UnpackFrom(buffer, HeaderSize, Format);
      Shapes(vals);
      Assign(vals);
    }

    /** The tuple assignment of `decode`: each attribute takes its slot of the unpacked payload. */
    method Assign(vals: seq<S.Value>)
      requires Shaped(vals)
      modifies this
      ensures Values() == vals
      ensures header == old(header)
    {
      AssignSecurity(vals);
      AssignUser(vals);
      AssignIntent(vals);
      AssignNetwork(vals);
      AssignRyuNetwork(vals);
      ValuesOfParts(this, vals);
    }

    method AssignSecurity(vals: seq<S.Value>)
      requires Shaped(vals)
      modifies this`securityMode, this`passphraseSize, this`passphrase
      ensures vals[0] == S.UInt(securityMode) && vals[1] == S.UInt(passphraseSize) && vals[2] == S.Str(passphrase)
    {
      securityMode, passphraseSize, passphrase := vals[0].n, vals[1].n, vals[2].bs;
    }

    method AssignUser(vals: seq<S.Value>)
      requires Shaped(vals)
      modifies this`username, this`unknown1
      ensures vals[3] == S.Str(username) && vals[4] == S.Str(unknown1)
    {
      username, unknown1 := vals[3].bs, vals[4].bs;
    }

    method AssignIntent(vals: seq<S.Value>)
      requires Shaped(vals)
      modifies this`localCommunicationId, this`reserved1, this`sceneId, this`reserved2
      ensures vals[5] == S.UInt(localCommunicationId) && vals[6] == S.UInt(reserved1)
      ensures vals[7] == S.UInt(sceneId) && vals[8] == S.UInt(reserved2)
    {
      localCommunicationId, reserved1, sceneId, reserved2 := vals[5].n, vals[6].n, vals[7].n, vals[8].n;
    }

    method AssignNetwork(vals: seq<S.Value>)
      requires Shaped(vals)
      modifies this`channel, this`nodeCountMax, this`reserved3, this`localCommunicationVersion, this`reserved4
      ensures vals[9] == S.UInt(channel) && vals[10] == S.UInt(nodeCountMax) && vals[11] == S.UInt(reserved3)
      ensures vals[12] == S.UInt(localCommunicationVersion) && vals[13] == S.Str(reserved4)
    {
      channel, nodeCountMax, reserved3 := vals[9].n, vals[10].n, vals[11].n;
      localCommunicationVersion, reserved4 := vals[12].n, vals[13].bs;
    }

    method AssignRyuNetwork(vals: seq<S.Value>)
      requires Shaped(vals)
      modifies this`gameVersion, this`privateIp, this`addressFamily, this`externalProxyPort, this`internalProxyPort
      ensures vals[14] == S.Str(gameVersion) && vals[15] == S.Str(privateIp) && vals[16] == S.SInt(addressFamily)
      ensures vals[17] == S.UInt(externalProxyPort) && vals[18] == S.UInt(internalProxyPort)
    {
      gameVersion, privateIp, addressFamily := vals[14].bs, vals[15].bs, vals[16].i;
      externalProxyPort, internalProxyPort := vals[17].n, vals[18].n;
    }

    /** `from_buffer`: a new packet, then the corrected `decode`. */
    static method FromBuffer(buffer: seq<byte>) returns (r: Result<CreateAccessPointPacket, PyError>)
      ensures r.Success? <==> |buffer| >= HeaderSize + S.Size(Format) && FromCode(buffer[4]) == Some(CreateAccessPoint)
      ensures r.Success? ==>
        && fresh(r.value) && r.value.packet.Len() == HeaderSize + S.Size(Format)
        && r.value.Values() == S.UnpackFrom(buffer, HeaderSize, Format)
    {
      FormatSize();
      var p := new CreateAccessPointPacket();
      var raised := p.Decode(buffer);
      if raised.Some? {
        return Failure(raised.value);
      }
      r := Success(p);
    }
  }

  /**
   * The as-written decoder rejects the bytes a freshly built packet
   * encodes, which the corrected decoder reads back.
   */
  method AsWrittenRejectsOwnEncoding() returns (asWritten: Option<PyError>, corrected: Result<CreateAccessPointPacket, PyError>)
    ensures asWritten == Some(AttributeError)
    ensures corrected.Success?
  {
    FormatSize();
    var p := new CreateAccessPointPacket();
    assert S.AllMatch(Format, p.Values());
    var encoded := p.Encode();
    FromCodeOfCode(CreateAccessPoint);
    UnpackReadsPrefix(encoded.value, HeaderSize);
    asWritten := p.DecodeAsWritten(encoded.value);
    corrected := CreateAccessPointPacket.FromBuffer(encoded.value);
  }

  /**
   * Decoding what a packet with in-range attributes encodes succeeds and
   * recovers every attribute, byte strings at their fixed widths.
   */
  method EncodeDecode(p: CreateAccessPointPacket) returns (decoded: Result<CreateAccessPointPacket, PyError>)
    requires p.packet.header.Current() == Fields(MAGIC, Code(CreateAccessPoint), VERSION, 188)
    requires S.AllMatch(Format, p.Values())
    ensures decoded.Success?
    ensures decoded.value.Values() == S.NormalAll(Format, p.Values())
  {
    FormatSize();
    var encoded := p.Encode();
    FromCodeOfCode(CreateAccessPoint);
    UnpackReadsPrefix(encoded.value, HeaderSize);
    decoded := CreateAccessPointPacket.FromBuffer(encoded.value);
  }
}
