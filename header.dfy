/**
 * The 12-byte frame header of the health-check client, struct format
 * `<IBB2xi`: magic (u32), packet id (u8), version (u8), two pad bytes, and the
 * payload size (i32), all little-endian. The constants module the client
 * imports is not part of this model; MAGIC, VERSION and MAX_SIZE take the
 * values of the RyuLDN protocol ("RLDN" read as a little-endian u32, 1,
 * 128 KiB) and the byte order is little-endian.
 */
module PacketHeaders {
  import opened Wrappers
  import opened Bytes
  import opened PacketIds

  /** What a failing call raises. */
  datatype PyError = AssertionError | ValueError | AttributeError | StructError

  const MAGIC: u32 := 0x4E44_4C52
  const VERSION: byte := 1
  const MAX_SIZE: nat := 0x2_0000
  /** `struct.calcsize("<IBB2xi")`: 4 + 1 + 1 + 2 + 4. */
  const HeaderSize: nat := 12

  /** The tuple the header struct packs and unpacks. */
  datatype Fields = Fields(magic: u32, packetId: byte, version: byte, dataSize: i32)

  lemma FourBytes()
    ensures Pow256(4) == 0x1_0000_0000
  {}

  /** `struct.pack("<IBB2xi", …)`. */
  function Pack(f: Fields): (bs: seq<byte>)
    ensures |bs| == HeaderSize
    ensures bs[4] == f.packetId && bs[5] == f.version && bs[6] == 0 && bs[7] == 0
  {
    FourBytes();
    LittleEndian(f.magic, 4) + [f.packetId, f.version, 0, 0] + LittleEndian(I32ToU32(f.dataSize), 4)
  }

  /** `struct.unpack("<IBB2xi", buffer[:12])`: the pad bytes are skipped. */
  function Unpack(bs: seq<byte>): (f: Fields)
    requires |bs| >= HeaderSize
    ensures f.packetId == bs[4] && f.version == bs[5]
  {
    FourBytes();
    Fields(FromLittleEndian(bs[0..4]), bs[4], bs[5], U32ToI32(FromLittleEndian(bs[8..12])))
  }

  /** Unpacking what was packed gives the same fields. */
  lemma UnpackPack(f: Fields)
    ensures Unpack(Pack(f)) == f
  {
    FourBytes();
    var bs := Pack(f);
    assert bs[0..4] == LittleEndian(f.magic, 4);
    assert bs[8..12] == LittleEndian(I32ToU32(f.dataSize), 4);
    FromLittleEndianOfLittleEndian(f.magic, 4);
    FromLittleEndianOfLittleEndian(I32ToU32(f.dataSize), 4);
    I32RoundTrip(f.dataSize);
  }

  /** Repacking what was unpacked restores the 12 bytes exactly when both pad bytes were zero. */
  lemma PackUnpack(bs: seq<byte>)
    requires |bs| >= HeaderSize
    ensures Pack(Unpack(bs)) == bs[..HeaderSize] <==> bs[6] == 0 && bs[7] == 0
  {
    FourBytes();
    var f := Unpack(bs);
    if bs[6] == 0 && bs[7] == 0 {
      var raw := FromLittleEndian(bs[8..12]);
      assert I32ToU32(U32ToI32(raw)) == raw;
      LittleEndianOfFromLittleEndian(bs[0..4]);
      LittleEndianOfFromLittleEndian(bs[8..12]);
      assert Pack(f) == bs[0..4] + bs[4..8] + bs[8..12];
      assert bs[..HeaderSize] == bs[0..4] + bs[4..8] + bs[8..12];
    }
  }

  /** Only the first 12 bytes are read. */
  lemma UnpackReadsPrefix(bs: seq<byte>, n: nat)
    requires HeaderSize <= n <= |bs|
    ensures Unpack(bs[..n]) == Unpack(bs)
  {
    assert bs[..n][0..4] == bs[0..4] && bs[..n][8..12] == bs[8..12];
  }

  /** What `is_valid` accepts. */
  predicate ValidFields(f: Fields) {
    f.magic == MAGIC && f.version == VERSION && HeaderSize + f.dataSize < MAX_SIZE
  }

  /**
   * A default header is valid exactly when its payload leaves the frame
   * below MAX_SIZE, and a valid header's payload size is below
   * MAX_SIZE - 12.
   */
  lemma DefaultValidity(id: PacketId, dataSize: i32)
    ensures ValidFields(Fields(MAGIC, Code(id), VERSION, dataSize)) <==> dataSize < MAX_SIZE - HeaderSize
  {}

  /** The header of one frame. */
  class PacketHeader {
    var magic: u32
    var packetId: PacketId
    var version: byte
    var dataSize: i32

    /** `from_default`: the protocol's magic and version, with the given id and payload size. */
    constructor FromDefault(packetId: PacketId, dataSize: i32)
      ensures this.magic == MAGIC && this.packetId == packetId && this.version == VERSION && this.dataSize == dataSize
    {
      magic := MAGIC;
      this.packetId := packetId;
      version := VERSION;
      this.dataSize := dataSize;
    }

    /** `__len__`: the size of the header struct, whatever the fields hold. */
    function Len(): (n: nat)
      ensures n == |Pack(Fields(0, 0, 0, 0))|
    {
      HeaderSize
    }

    function Current(): Fields
      reads this
    {
      Fields(magic, Code(packetId), version, dataSize)
    }

    /** `is_valid`: the protocol's magic and version, and a frame below MAX_SIZE. */
    predicate IsValid()
      reads this
    {
      ValidFields(Current())
    }

    /** `encode`: 12 bytes from which `Unpack` reads the fields back, with zero pad bytes. */
    function Encode(): (bs: seq<byte>)
      reads this
      ensures |bs| == HeaderSize && bs[6] == 0 && bs[7] == 0
      ensures Unpack(bs) == Current()
    {
      UnpackPack(Current());
      Pack(Current())
    }

    /**
     * `decode`: fewer than 12 bytes fail the assertion and change nothing.
     * Otherwise magic, version and size are assigned from the first 12 bytes
     * before the id byte is looked up; an id byte that names no packet kind
     * raises `ValueError` and leaves the old id in place.
     */
    method Decode(buffer: seq<byte>) returns (raised: Option<PyError>)
      modifies this
      ensures |buffer| < HeaderSize ==> raised == Some(AssertionError) && unchanged(this)
      ensures |buffer| >= HeaderSize ==>
        var f := Unpack(buffer);
        && magic == f.magic && version == f.version && dataSize == f.dataSize
        && (FromCode(f.packetId).Some? ==> raised == None && packetId == FromCode(f.packetId).value)
        && (FromCode(f.packetId).None? ==> raised == Some(ValueError) && packetId == old(packetId))
    {
      if |buffer| < HeaderSize {
        return Some(AssertionError);
      }
      var f := Unpack(buffer[..HeaderSize]);
      UnpackReadsPrefix(buffer, HeaderSize);
      magic, version, dataSize := f.magic, f.version, f.dataSize;
      var id := FromCode(f.packetId);
      if id.None? {
        return Some(ValueError);
      }
      packetId := id.value;
      raised := None;
    }

    /**
     * `from_buffer`: a new header, then `decode`. The fields a bare header
     * holds before decoding are never observed (decoding assigns all of them
     * or the header is dropped with the exception), so a default header
     * stands in for it.
     */
    static method FromBuffer(buffer: seq<byte>) returns (r: Result<PacketHeader, PyError>)
      ensures r.Failure? <==> |buffer| < HeaderSize || FromCode(buffer[4]).None?
      ensures r.Failure? ==> r.error == if |buffer| < HeaderSize then AssertionError else ValueError
      ensures r.Success? ==> fresh(r.value) && r.value.Current() == Unpack(buffer)
    {
      var header := new PacketHeader.FromDefault(Initialize, 0);
      var raised := header.Decode(buffer);
      if raised.Some? {
        return Failure(raised.value);
      }
      CodeOfFromCode(buffer[4]);
      r := Success(header);
    }
  }

  /** Decoding an encoded header restores every field. */
  method EncodeDecode(h: PacketHeader) returns (decoded: Result<PacketHeader, PyError>)
    ensures decoded.Success? && decoded.value.magic == h.magic && decoded.value.packetId == h.packetId
    ensures decoded.value.version == h.version && decoded.value.dataSize == h.dataSize
  {
    FromCodeOfCode(h.packetId);
    decoded := PacketHeader.FromBuffer(h.Encode());
    CodesAreDistinct(decoded.value.packetId, h.packetId);
  }
}
