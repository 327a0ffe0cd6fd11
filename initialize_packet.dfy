/**
 * The health-check client's `Initialize` packet: a 22-byte payload (struct
 * format `<16s6s`) holding the client id and the MAC address, after the
 * 12-byte header.
 */
module InitializePackets {
  import opened Wrappers
  import opened Bytes
  import opened PacketIds
  import opened PacketHeaders
  import S = StructFormat
  import opened Packets

  const Format: seq<S.Code> := [S.Chars(16), S.Chars(6)]

  lemma FormatSize()
    ensures S.Size(Format) == 22
  {}

  class InitializePacket {
    /** The base-class part, whose header `len` and `get_id` read. */
    const packet: Packet
    /** `_InitializePacket__header`: the received header, which `decode` stores here and nowhere else. */
    var header: PacketHeader?
    var clientId: seq<byte>
    var macAddress: seq<byte>

    constructor ()
      ensures fresh(packet) && fresh(packet.header)
      ensures packet.header.Current() == Fields(MAGIC, Code(Initialize), VERSION, 22)
      ensures header == null && clientId == [] && macAddress == []
    {
      FormatSize();
      packet := new Packet(Initialize, 22);
      header := null;
      clientId := [];
      macAddress := [];
    }

    /** The payload attributes in format order. */
    function Values(): (vals: seq<S.Value>)
      reads this
      ensures S.AllMatch(Format, vals)
    {
      [S.Str(clientId), S.Str(macAddress)]
    }

    /**
     * `encode`: a buffer of `len(self)` bytes, the constructor's header in
     * front and the payload packed after it; NUL-padded or truncated to 16
     * and 6 bytes. A negative length raises `ValueError`, a buffer too short
     * for the payload `struct.error`.
     */
    method Encode() returns (r: Result<seq<byte>, PyError>)
      ensures packet.Len() < 0 ==> r == Failure(ValueError)
      ensures 0 <= packet.Len() < HeaderSize + 22 ==> r == Failure(StructError)
      ensures packet.Len() >= HeaderSize + 22 ==>
        && r.Success? && |r.value| == packet.Len()
        && r.value[..HeaderSize] == packet.header.Encode()
        && S.UnpackFrom(r.value, HeaderSize, Format) == [S.Str(PadTruncate(clientId, 16)), S.Str(PadTruncate(macAddress, 6))]
        && forall i :: HeaderSize + 22 <= i < |r.value| ==> r.value[i] == 0
    {
      FormatSize();
      var n := packet.Len();
      if n < 0 {
        return Failure(ValueError);
      }
      var result := WithHeader(n, packet.header.Encode());
      if |result| < HeaderSize + S.Size(Format) {
        return Failure(StructError);
      }
      S.UnpackFromPackInto(result, HeaderSize, Format, Values());
      result := S.PackInto(result, HeaderSize, Format, Values());
      r := Success(result);
    }

    /**
     * `decode`: the buffer must hold `len(self)` bytes, start with a header
     * that decodes, and carry this packet's id. The received header goes to
     * this class's own slot with its payload size set to 22; the client id
     * and MAC are the 16 and 6 bytes after it. The constructor's header, and
     * so `len` and `get_id`, are left as they were.
     */
    method Decode(buffer: seq<byte>) returns (raised: Option<PyError>)
      modifies this`header, this`clientId, this`macAddress
      ensures |buffer| < packet.Len() ==> raised == Some(AssertionError) && unchanged(this)
      ensures |buffer| >= packet.Len() && |buffer| < HeaderSize ==> raised == Some(AssertionError) && unchanged(this)
      ensures |buffer| >= packet.Len() && |buffer| >= HeaderSize && FromCode(buffer[4]).None? ==>
        raised == Some(ValueError) && unchanged(this)
      ensures |buffer| >= packet.Len() && |buffer| >= HeaderSize && FromCode(buffer[4]).Some?
        && FromCode(buffer[4]).value != packet.header.packetId
        ==> raised == Some(AssertionError) && unchanged(this)
      ensures raised == None <==>
        |buffer| >= packet.Len() && |buffer| >= HeaderSize + 22 && FromCode(buffer[4]) == Some(packet.header.packetId)
      ensures raised == None ==>
        && header != null && fresh(header)
        && header.Current() == Unpack(buffer).(dataSize := 22)
        && [S.Str(clientId), S.Str(macAddress)] == S.UnpackFrom(buffer, HeaderSize, Format)
    {
      FormatSize();
      if |buffer| < packet.Len() {
        return Some(AssertionError);
      }
      var received := packet.ReceiveHeader(buffer);
      if received.Failure? {
        return Some(received.error);
      }
      header := received.value;
      if |buffer| < HeaderSize + S.Size(Format) {
        return Some(StructError);
      }
      var vals := S.UnpackFrom(buffer, HeaderSize, Format);
      clientId, macAddress := vals[0].bs, vals[1].bs;
      header.dataSize := S.Size(Format);
      raised := None;
    }

    /** `from_buffer`: a new packet, then `decode`. */
    static method FromBuffer(buffer: seq<byte>) returns (r: Result<InitializePacket, PyError>)
      ensures r.Success? <==> |buffer| >= HeaderSize + 22 && FromCode(buffer[4]) == Some(Initialize)
      ensures r.Success? ==>
        && fresh(r.value) && r.value.packet.Len() == HeaderSize + 22
        && [S.Str(r.value.clientId), S.Str(r.value.macAddress)] == S.UnpackFrom(buffer, HeaderSize, Format)
    {
      var p := new InitializePacket();
      var raised := p.Decode(buffer);
      if raised.Some? {
        return Failure(raised.value);
      }
      r := Success(p);
    }
  }

  /**
   * Decoding what a freshly built packet encodes succeeds and recovers its
   * client id and MAC at their fixed widths.
   */
  method EncodeDecode(clientId: seq<byte>, macAddress: seq<byte>) returns (decoded: Result<InitializePacket, PyError>)
    ensures decoded.Success?
    ensures decoded.value.clientId == PadTruncate(clientId, 16) && decoded.value.macAddress == PadTruncate(macAddress, 6)
  {
    var p := new InitializePacket();
    p.clientId, p.macAddress := clientId, macAddress;
    var encoded := p.Encode();
    FromCodeOfCode(Initialize);
    UnpackReadsPrefix(encoded.value, HeaderSize);
    decoded := InitializePacket.FromBuffer(encoded.value);
  }
}
