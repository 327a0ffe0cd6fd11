/**
 * The part every health-check packet shares: the header its constructor
 * builds, held in the base class's private slot (`_Packet__header`). A
 * packet kind is a class holding this part; the name-mangled slots of the
 * packet kinds are separate fields of those classes.
 */
module Packets {
  import opened Wrappers
  import opened Bytes
  import opened PacketIds
  import opened PacketHeaders

  /**
   * `bytearray(n)` followed by `result[0:12] = header_bytes`, the first step
   * of every packet kind's `encode`: a slice assignment replaces the first
   * `min(n, 12)` bytes by the 12 header bytes, so a shorter buffer grows to 12.
   */
  function WithHeader(n: nat, headerBytes: seq<byte>): (r: seq<byte>)
    requires |headerBytes| == HeaderSize
    ensures |r| == if n < HeaderSize then HeaderSize else n
    ensures r[..HeaderSize] == headerBytes && forall i :: HeaderSize <= i < |r| ==> r[i] == 0
  {
    if n < HeaderSize then headerBytes else headerBytes + Zeros(n - HeaderSize)
  }

  class Packet {
    /** `_Packet__header`: assigned once, by the constructor. */
    const header: PacketHeader

    /** `Packet.__init__`: a default header with the kind's id and payload size. */
    constructor (packetId: PacketId, dataSize: i32)
      ensures fresh(header)
      ensures header.Current() == Fields(MAGIC, Code(packetId), VERSION, dataSize) && header.IsValid() == (dataSize < MAX_SIZE - HeaderSize)
    {
      header := new PacketHeader.FromDefault(packetId, dataSize);
    }

    /** `__len__`: the header's size plus the payload size the header records. */
    function Len(): (n: int)
      reads header
      ensures n == header.Len() + header.dataSize
    {
      HeaderSize + header.dataSize
    }

    /** `get_id`: the kind recorded in the constructor's header. */
    function GetId(): (id: PacketId)
      reads header
      ensures Code(id) == header.Current().packetId
    {
      header.packetId
    }

    /**
     * The header step of a packet kind's `decode`: the buffer's header must
     * decode and carry the id of the constructor's header.
     */
    method ReceiveHeader(buffer: seq<byte>) returns (r: Result<PacketHeader, PyError>)
      ensures |buffer| < HeaderSize ==> r == Failure(AssertionError)
      ensures |buffer| >= HeaderSize && FromCode(buffer[4]).None? ==> r == Failure(ValueError)
      ensures |buffer| >= HeaderSize && FromCode(buffer[4]).Some? && FromCode(buffer[4]).value != header.packetId
        ==> r == Failure(AssertionError)
      ensures r.Success? <==> |buffer| >= HeaderSize && FromCode(buffer[4]) == Some(header.packetId)
      ensures r.Success? ==> fresh(r.value) && r.value.Current() == Unpack(buffer)
    {
      r := PacketHeader.FromBuffer(buffer);
      if r.Success? && header.packetId != r.value.packetId {
        r := Failure(AssertionError);
      }
    }
  }
}
