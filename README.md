# ldn-server core, modelled in Dafny

ldn-server is the room and relay server behind local-wireless play over the
internet. A client connects, sends `Initialize`, is given a MAC address and
a session id, and then creates a room (an access point) or joins one. A room
has eight node slots that are never compacted, a member list, an owner and a
closed flag. Each room runs its own virtual DHCP allocator on 10.114.0.0/16.
The server relays every frame between the members and checks the source
address against the sender's own. A scan lists the visible rooms through a
filter, and an idle client is pinged and then dropped. Around this core sit:

- a fixed-window rate limiter for the HTTP API;
- the statistics that feed the public dashboard;
- the snake_case JSON naming policy;
- two copies of the byte and string helpers;
- an older registry;
- a Python health-check client with its own packet codec: packet ids, a
  12-byte header, struct layouts, and the `Initialize` and
  `CreateAccessPoint` packets.

The model follows the source's form. Anything the source updates in place
is a class with fields, `modifies` frames and loops with invariants:

- the DHCP allocator, the MAC registry and the rate limiter;
- the room, the registry and the session;
- the statistics registry;
- the Python packet objects.

Expression-level logic is functions over datatypes, and lemmas state what
the source promises about them. Every `SendAsync` appends an envelope
(recipient, message) to one transport log shared by the server and its
rooms. A session's outbox is the part of that log addressed to it.

Files:

| file | what it holds |
|---|---|
| `wrappers.dfy` | Option and Result types |
| `bytes.dfy` | bytes, little-endian integers, padding and truncation, bitwise operations on naturals |
| `hex.dfy` | hex digits and renderings |
| `string_utils.dfy` | `Utils/StringUtils.cs` |
| `legacy_string_utils.dfy` | the older `StringUtils.cs` |
| `snake_case.dfy` | `Utils/JsonSerializerHelper.cs` |
| `rate_limiter.dfy` | `ApiServer/RateLimiter.cs` |
| `virtual_dhcp.dfy` | `Network/VirtualDhcp.cs` |
| `mac_address_memory.dfy` | `LdnServer/MacAddressMemory.cs` |
| `ldn_types.dfy` | the node and network descriptions and the protocol messages the core reads and sends |
| `node_table.dfy` | the eight-slot node table and the written and corrected slot release |
| `scan_filter.dfy` | the scan filter shared by both registries |
| `ldn_server.dfy` | the transport, rooms, the registry and sessions (`LdnServer/*.cs`) |
| `legacy_registry.dfy` | the older `LdnServer.cs` |
| `statistics.dfy` | `Stats/Statistics.cs` and `Stats/Types/GameAnalytics.cs` |
| `packet_id.dfy`, `header.dfy` (with the Python exception kinds), `struct_format.dfy`, `packet.dfy`, `initialize_packet.dfy`, `create_access_point.dfy` | the Python health-check codec |

## Model

| member | source | states |
|---|---|---|
| StringUtils.FixedLength | Utils/StringUtils.cs:14-33 | the field is exactly `size` bytes: the encoding, its NUL and zero padding when encoding plus NUL is shorter than `size`; otherwise, the equal-length case included, the first `size - 1` bytes and one NUL |
| StringUtils.GetFixedLengthBytes | Utils/StringUtils.cs:12-36 | the resizing method returns exactly the `FixedLength` field |
| StringUtils.HexDecode | Utils/StringUtils.cs:38-51 | succeeds exactly when every complete pair parses; then holds `len / 2` bytes, byte `i` being the value of characters `2i` and `2i+1` |
| StringUtils.HexToBytes | Utils/StringUtils.cs:38-51 | the loop returns `HexDecode(s)`: `None` where a pair makes `byte.Parse` throw |
| StringUtils.HexDecodeOfToHexString | Utils/StringUtils.cs:38-51 | decoding the upper-case rendering of any bytes gives the bytes back |
| StringUtils.HexDecodeIgnoresOddTail | Utils/StringUtils.cs:40-41 | an odd trailing character never changes the result |
| StringUtils.BeforeNul | Utils/StringUtils.cs:53-71 | a prefix of the data with no zero byte, ended by the data's end or by a zero byte |
| StringUtils.ReadUtf8String | Utils/StringUtils.cs:53-71 | the copy loop yields exactly `BeforeNul(data)` |
| StringUtils.BeforeNulOfPrefix | Utils/StringUtils.cs:58-68 | any NUL-free prefix that the data ends, or that a zero byte follows, is the one the loop returns |
| StringUtils.ReadFixedLength | Utils/StringUtils.cs:12-71 | reading back a written field gives the NUL-free string when it fits and its first `size - 1` bytes otherwise |
| StringUtils.CleanInputTruncate | Utils/StringUtils.cs:82-92 | `null` iff the input is `null`; otherwise a prefix of the input, the whole input when `maxLength` is -1, else of length `min(len, maxLength)` |
| LegacyStringUtils.GetFixedLengthBytes | StringUtils.cs:11-35 | `size` bytes; when encoding plus NUL fits, the encoding, a NUL and zeros after it; otherwise the first `size - 1` bytes then a NUL |
| LegacyStringUtils.HexToBytes | StringUtils.cs:37-50 | the same decoding as the newer copy: `len / 2` bytes, odd tail ignored, `None` on a bad pair |
| LegacyStringUtils.ReadUtf8String | StringUtils.cs:52-72 | a NUL-free prefix of the data that stops at the first zero byte or the end |
| Hex.DigitValue | Utils/StringUtils.cs:47 | a value below 16 exactly for the characters 0-9, a-f and A-F |
| Hex.ParsePair | Utils/StringUtils.cs:47 | `byte.Parse(pair, HexNumber)` succeeds exactly for two hexadecimal digits, one digit beside a white-space character, or one digit followed by a NUL |
| Hex.ToHexString | LdnServer/MacAddressMemory.cs:26 | `Convert.ToHexString`: two upper-case digits per byte, high digit first |
| Hex.ParsePairOfDigits | LdnServer/MacAddressMemory.cs:26 | each rendered pair parses back to its byte |
| Hex.ToHexStringInjective | LdnServer/MacAddressMemory.cs:22-30 | distinct byte strings have distinct renderings, so keying MACs by their text loses nothing |
| Hex.LowerHex | Stats/Types/GameAnalytics.cs:39 | `ToString("x16")`: exactly `width` lower-case hexadecimal digits |
| Hex.LowerHexRoundTrip | Stats/Types/GameAnalytics.cs:39 | reading the lower-case digits back gives the number |
| Bytes.FromLittleEndianOfLittleEndian | py-healthcheck/ldn_healthcheck/ryuldn/header.py:8 | reading little-endian bytes back gives the value |
| Bytes.LittleEndianOfFromLittleEndian | py-healthcheck/ldn_healthcheck/ryuldn/header.py:8 | writing a read value gives the same bytes |
| Bytes.I32RoundTrip | py-healthcheck/ldn_healthcheck/ryuldn/header.py:8 | the two's-complement 32-bit encoding of a signed value is undone by decoding |
| Bytes.PadTruncate | py-healthcheck/ldn_healthcheck/ryuldn/packets/initialize.py:10 | the `Ns` code: exactly `n` bytes, the string's prefix then zero padding |
| StructFormat.PackOne | py-healthcheck/ldn_healthcheck/ryuldn/packets/create_access_point.py:10 | one code packs to exactly its width |
| StructFormat.UnpackOne | py-healthcheck/ldn_healthcheck/ryuldn/packets/create_access_point.py:88 | one code unpacks to a value `pack` accepts for it |
| StructFormat.UnpackPackOne | py-healthcheck/ldn_healthcheck/ryuldn/packets/create_access_point.py:88-96 | unpacking a packed value gives it back, byte strings at their width |
| StructFormat.PackUnpackOne | py-healthcheck/ldn_healthcheck/ryuldn/packets/create_access_point.py:88-96 | packing an unpacked value gives back its bytes |
| StructFormat.SizeConcat | py-healthcheck/ldn_healthcheck/ryuldn/packets/create_access_point.py:10 | `calcsize` of a format made of two parts is the sum of their sizes (no alignment with `<`) |
| StructFormat.AllMatchConcat | py-healthcheck/ldn_healthcheck/ryuldn/packets/create_access_point.py:94-116 | values match a two-part format exactly when each part's values match that part |
| StructFormat.Pack | py-healthcheck/ldn_healthcheck/ryuldn/packets/create_access_point.py:94-116 | `struct.pack` of matching values is exactly `calcsize` bytes |
| StructFormat.Unpack | py-healthcheck/ldn_healthcheck/ryuldn/packets/create_access_point.py:88 | `struct.unpack` yields one matching value per code |
| StructFormat.NormalAll | py-healthcheck/ldn_healthcheck/ryuldn/packets/initialize.py:33-35 | what each value reads back as: byte strings padded or truncated to their width, integers unchanged |
| StructFormat.UnpackPack | py-healthcheck/ldn_healthcheck/ryuldn/packets/create_access_point.py:88-96 | unpacking packed values, whatever follows them, gives the values back at their widths |
| StructFormat.PackUnpack | py-healthcheck/ldn_healthcheck/ryuldn/packets/create_access_point.py:88-96 | packing unpacked values gives back the bytes they came from |
| StructFormat.PackInto | py-healthcheck/ldn_healthcheck/ryuldn/packets/create_access_point.py:94-116 | `pack_into`: the packed bytes replace the buffer at the offset; every other byte and the length are kept |
| StructFormat.UnpackFrom | py-healthcheck/ldn_healthcheck/ryuldn/packets/create_access_point.py:88 | `unpack_from` at an offset yields one matching value per code |
| StructFormat.UnpackFromPackInto | py-healthcheck/ldn_healthcheck/ryuldn/packets/create_access_point.py:88-96 | what `pack_into` wrote at an offset, `unpack_from` at that offset reads back |
| PacketIds.FromCode | py-healthcheck/ldn_healthcheck/ryuldn/packet_id.py:4-34 | `PacketId(value)` succeeds exactly for 0..23, 254 and 255 |
| PacketIds.NumberedAreConsecutive | py-healthcheck/ldn_healthcheck/ryuldn/packet_id.py:5-31 | `auto()` numbers the members 0, 1, ..., 23 in declaration order without gaps |
| PacketIds.FromCodeOfCode | py-healthcheck/ldn_healthcheck/ryuldn/packet_id.py:4-34 | looking up a member's value gives the member |
| PacketIds.CodeOfFromCode | py-healthcheck/ldn_healthcheck/ryuldn/packet_id.py:4-34 | a value that names a member is that member's value |
| PacketIds.CodesAreDistinct | py-healthcheck/ldn_healthcheck/ryuldn/packet_id.py:4-34 | no two members share a value |
| PacketHeaders.Pack | py-healthcheck/ldn_healthcheck/ryuldn/header.py:54-57 | 12 bytes, the id and version at offsets 4 and 5 and zero pad bytes at 6 and 7 |
| PacketHeaders.Unpack | py-healthcheck/ldn_healthcheck/ryuldn/header.py:46-51 | reads the id and version from offsets 4 and 5 of the first 12 bytes |
| PacketHeaders.UnpackPack | py-healthcheck/ldn_healthcheck/ryuldn/header.py:46-57 | unpacking packed fields gives the same fields |
| PacketHeaders.PackUnpack | py-healthcheck/ldn_healthcheck/ryuldn/header.py:46-57 | repacking unpacked bytes restores the 12 bytes exactly when both pad bytes were zero |
| PacketHeaders.UnpackReadsPrefix | py-healthcheck/ldn_healthcheck/ryuldn/header.py:48-51 | only the first 12 bytes are read |
| PacketHeaders.DefaultValidity | py-healthcheck/ldn_healthcheck/ryuldn/header.py:39-44 | a default header is valid exactly when its payload size is below `MAX_SIZE - 12` |
| PacketHeaders.PacketHeader.FromDefault | py-healthcheck/ldn_healthcheck/ryuldn/header.py:17-25 | the protocol's magic and version with the given id and payload size |
| PacketHeaders.PacketHeader.Len | py-healthcheck/ldn_healthcheck/ryuldn/header.py:36-37 | the size of the packed header struct, whatever the fields hold |
| PacketHeaders.PacketHeader.Encode | py-healthcheck/ldn_healthcheck/ryuldn/header.py:54-57 | 12 bytes with zero pad bytes from which `Unpack` reads the current fields back |
| PacketHeaders.PacketHeader.Decode | py-healthcheck/ldn_healthcheck/ryuldn/header.py:46-52 | short buffer: `AssertionError`, nothing changed; else magic, version and size from the first 12 bytes, then the id, or `ValueError` with the old id kept |
| PacketHeaders.PacketHeader.FromBuffer | py-healthcheck/ldn_healthcheck/ryuldn/header.py:10-15 | fails exactly on a short buffer (`AssertionError`) or an unknown id (`ValueError`); otherwise a new header holding the buffer's fields |
| PacketHeaders.EncodeDecode | py-healthcheck/ldn_healthcheck/ryuldn/header.py:46-57 | decoding an encoded header restores magic, id, version and payload size |
| Packets.WithHeader | py-healthcheck/ldn_healthcheck/ryuldn/packets/initialize.py:31-32 | `bytearray(n)` then the slice assignment: header bytes first, zeros after, at least 12 bytes |
| Packets.Packet.constructor | py-healthcheck/ldn_healthcheck/ryuldn/packet.py:19-20 | a fresh `from_default` header with the kind's id and payload size, valid iff the size is below `MAX_SIZE - 12` |
| Packets.Packet.Len | py-healthcheck/ldn_healthcheck/ryuldn/packet.py:22-23 | header length plus the payload size the header records |
| Packets.Packet.GetId | py-healthcheck/ldn_healthcheck/ryuldn/packet.py:28-29 | the id recorded in the constructor's header |
| Packets.Packet.ReceiveHeader | py-healthcheck/ldn_healthcheck/ryuldn/packets/initialize.py:22-23 | succeeds exactly when the buffer has a header with this packet's id; `AssertionError` on a short buffer or another id, `ValueError` on an unknown id |
| InitializePackets.FormatSize | py-healthcheck/ldn_healthcheck/ryuldn/packets/initialize.py:10 | the payload is 22 bytes |
| InitializePackets.InitializePacket.constructor | py-healthcheck/ldn_healthcheck/ryuldn/packets/initialize.py:12-15 | an `Initialize` header for 22 payload bytes; empty client id and MAC |
| InitializePackets.InitializePacket.Encode | py-healthcheck/ldn_healthcheck/ryuldn/packets/initialize.py:30-37 | `len(self)` bytes, header first, the padded client id and MAC at offset 12, zeros after; `ValueError` or `struct.error` when the length does not allow it |
| InitializePackets.InitializePacket.Decode | py-healthcheck/ldn_healthcheck/ryuldn/packets/initialize.py:20-28 | each failing check raises and changes nothing; success iff long enough with this packet's id, storing the received header with payload size 22 and the two fields read at offset 12 |
| InitializePackets.InitializePacket.FromBuffer | py-healthcheck/ldn_healthcheck/ryuldn/packet.py:11-17 | construct then decode: succeeds iff the buffer holds 34 bytes with the `Initialize` id |
| InitializePackets.EncodeDecode | py-healthcheck/ldn_healthcheck/ryuldn/packets/initialize.py:20-37 | decoding what a fresh packet encodes recovers the client id and MAC padded to 16 and 6 bytes |
| CreateAccessPointPackets.FormatSize | py-healthcheck/ldn_healthcheck/ryuldn/packets/create_access_point.py:10 | the 19 codes take 188 bytes, the size of the server's `CreateAccessPointRequest` |
| CreateAccessPointPackets.SplitValues | py-healthcheck/ldn_healthcheck/ryuldn/packets/create_access_point.py:10 | values matching the format match its security, user, intent, network and RyuLDN parts |
| CreateAccessPointPackets.Shapes | py-healthcheck/ldn_healthcheck/ryuldn/packets/create_access_point.py:68-88 | every unpacked slot holds an integer for an integer code and a byte string for an `s` code |
| CreateAccessPointPackets.ValuesOfParts | py-healthcheck/ldn_healthcheck/ryuldn/packets/create_access_point.py:68-88 | attributes holding the unpacked slots read back as the unpacked tuple |
| CreateAccessPointPackets.CreateAccessPointPacket.constructor | py-healthcheck/ldn_healthcheck/ryuldn/packets/create_access_point.py:12-36 | a `CreateAccessPoint` header for 188 payload bytes; every integer 0 and every byte string empty |
| CreateAccessPointPackets.CreateAccessPointPacket.Encode | py-healthcheck/ldn_healthcheck/ryuldn/packets/create_access_point.py:91-118 | `len(self)` bytes, the header first and the 19 attributes in declared order at offset 12, zeros after; `ValueError` on a negative length, `struct.error` on a short buffer or an out-of-range integer |
| CreateAccessPointPackets.CreateAccessPointPacket.DecodeAsWritten | py-healthcheck/ldn_healthcheck/ryuldn/packets/create_access_point.py:63-66 | never succeeds: `AssertionError`/`ValueError` from the length and header checks, otherwise `AttributeError` |
| CreateAccessPointPackets.CreateAccessPointPacket.Decode | py-healthcheck/ldn_healthcheck/ryuldn/packets/create_access_point.py:63-89 | corrected: each failing check raises and changes nothing; success iff long enough with this packet's id, storing the header (size 188) and the 19 attributes read at offset 12 |
| CreateAccessPointPackets.CreateAccessPointPacket.AssignFrom | py-healthcheck/ldn_healthcheck/ryuldn/packets/create_access_point.py:68-88 | after the tuple assignment the attributes are the payload unpacked at offset 12 |
| CreateAccessPointPackets.CreateAccessPointPacket.Assign | py-healthcheck/ldn_healthcheck/ryuldn/packets/create_access_point.py:68-88 | each attribute takes its slot of the unpacked tuple |
| CreateAccessPointPackets.CreateAccessPointPacket.FromBuffer | py-healthcheck/ldn_healthcheck/ryuldn/packet.py:11-17 | construct then the corrected decode: succeeds iff the buffer holds 200 bytes with the `CreateAccessPoint` id |
| CreateAccessPointPackets.AsWrittenRejectsOwnEncoding | py-healthcheck/ldn_healthcheck/ryuldn/packets/create_access_point.py:66 | the as-written decode raises `AttributeError` on the bytes a fresh packet encodes, which the corrected decode accepts |
| CreateAccessPointPackets.EncodeDecode | py-healthcheck/ldn_healthcheck/ryuldn/packets/create_access_point.py:63-118 | for in-range attributes, decoding the encoding recovers all 19, byte strings at their fixed widths |
| LdnTypes.Code | Network/Types/NetworkErrorMessage.cs:5-23 | the wire value of an error lies in -1..9 and is -1 exactly for `Unknown` |
| LdnTypes.CodeInjective | Network/Types/NetworkErrorMessage.cs:5-23 | no two errors share a wire value |
| LdnTypes.AddressTo16Byte | LdnServer/HostedGame.cs:148-156 | 16 bytes: the address bytes first, zeros after |
| LdnTypes.SkipNul | LdnServer/HostedGame.cs:169 | the first non-NUL position at or after `i`, every byte skipped being NUL |
| LdnTypes.SkipNulBack | LdnServer/HostedGame.cs:169 | the position after the last non-NUL byte before `j`, every byte skipped being NUL |
| LdnTypes.TrimStart | LdnServer/HostedGame.cs:169 | `TrimStart('\0')`: drops only leading NULs and leaves none |
| LdnTypes.TrimEnd | LdnServer/HostedGame.cs:169 | `TrimEnd('\0')`: drops only trailing NULs and leaves none |
| LdnTypes.TrimNulInfix | LdnServer/HostedGame.cs:169 | the trimmed game version is a contiguous part of the received bytes |
| LdnTypes.TrimNulEnds | LdnServer/HostedGame.cs:169 | a non-empty trimmed version begins and ends with a non-NUL byte |
| LdnTypes.TrimNulCutsOnlyNul | LdnServer/HostedGame.cs:169 | every byte removed by the trim, at either end, is NUL |
| LdnTypes.Lower | LdnServer/LdnServer.cs:36 | `ToLower` keeps the length and lower-cases each letter |
| LdnTypes.LowerIdempotent | LdnServer/LdnServer.cs:36-77 | lower-casing an already lower-cased room key changes nothing, so a stored key is found again by the same lookup |
| ScanFilters.SsidBytes | LdnServer.cs:96-100 | the older registry's `Take`: the name cut to its declared length, never past the end of the name; the newer registry compares the same bytes wherever its slices are in range (`LanPlayServer.SsidComparedBySlices`) |
| ScanFilters.NoFlagsMatchAll | LdnServer/LdnServer.cs:116-156 | with no filter flag set, every room passes the field comparisons |
| ScanFilters.SsidIgnoresTail | LdnServer/LdnServer.cs:140-148 | name bytes past the declared length never take part in the comparison |
| ScanFilters.SsidLengthMatters | LdnServer/LdnServer.cs:140-148 | two SSIDs whose declared lengths differ never match |
| NodeTable.ConnectedCount | LdnServer/HostedGame.cs:258 | the number of occupied slots, at most the number of slots |
| NodeTable.FirstEmpty | LdnServer/HostedGame.cs:324-337 | the lowest slot whose `IsConnected` is zero, every slot below it occupied; -1 exactly when all eight are occupied |
| NodeTable.AllOccupiedCount | LdnServer/HostedGame.cs:324-337 | a table with every slot occupied counts all its slots |
| NodeTable.FreeSlotExists | LdnServer/HostedGame.cs:257 | while fewer slots are occupied than exist, the slot search finds one |
| NodeTable.CountAfterWrite | LdnServer/HostedGame.cs:263 | writing one slot changes the occupied count by what leaves the slot and what arrives |
| NodeTable.HoldingCount | LdnServer/HostedGame.cs:292-322 | the occupied slots holding an address never outnumber the occupied slots |
| NodeTable.ClearAddress | LdnServer/HostedGame.cs:292-322 | corrected update: the table keeps its eight slots |
| NodeTable.ClearAddressClears | LdnServer/HostedGame.cs:292-322 | after the corrected update no occupied slot holds the address; a slot that held it only loses `IsConnected`; every other slot is unchanged |
| NodeTable.ClearAddressCount | LdnServer/HostedGame.cs:292-322 | the corrected update lowers the occupied count by exactly the number of slots that held the address |
| NodeTable.ClearPrefixStep | LdnServer/HostedGame.cs:298-305 | clearing the first `i` slots and then slot `i` is clearing the first `i + 1` |
| NodeTable.HoldingPrefixStep | LdnServer/HostedGame.cs:298-305 | the holders among the first `i + 1` slots are those among the first `i` plus slot `i` |
| NodeTable.HoldingPrefixBound | LdnServer/HostedGame.cs:298-305 | the first `n` slots hold the address no more often than the whole table |
| NodeTable.ClearAddressKeepsCount | LdnServer/HostedGame.cs:292-322 | when the count matched the occupied slots, decrementing per holder keeps it matching and never below zero |
| NodeTable.RemoveAsWritten | LdnServer/HostedGame.cs:292-322 | as written: slots at or past the count read at entry are never touched |
| NodeTable.RemoveFromInfoAsWritten | LdnServer/HostedGame.cs:292-322 | the loop as written clears and counts down every slot below the entry count whose address matches, occupied or not, with byte wrap-around |
| NodeTable.NoneOccupiedCount | LdnServer/HostedGame.cs:292-322 | a table with no occupied slot counts none |
| NodeTable.DepartedMemberStaysListed | LdnServer/HostedGame.cs:296-300 | after a lower slot was vacated, a leaving member in slot 2 with count 2 stays listed as connected and the count stays 2; the corrected update clears the slot |
| NodeTable.StaleSlotCountedTwice | LdnServer/HostedGame.cs:298-305 | a cleared slot that still carries a rejoined member's address is counted again, leaving count 1 for two occupied slots; the corrected update leaves 2 |
| Dhcp.ListedCount | Network/VirtualDhcp.cs:45-52 | the entries before the first zero address, all non-zero |
| Dhcp.LookupReserved | Network/VirtualDhcp.cs:60-78 | non-zero exactly when a listed entry carries the MAC, and then a reserved address |
| Dhcp.StepInside | Network/VirtualDhcp.cs:89 | inside the subnet the cursor step (base OR'd with the masked successor) is `ip + 1` |
| Dhcp.StepWrap | Network/VirtualDhcp.cs:89 | from the broadcast address the cursor step gives the network address, with 32-bit wrap-around |
| Dhcp.Avoid | Network/VirtualDhcp.cs:109-112 | among `n + 1` consecutive addresses one is outside any `n` given ones |
| Dhcp.ListedAddresses | Network/VirtualDhcp.cs:45-57 | the listed reserved addresses in order, containing every reserved address |
| Dhcp.VirtualDhcp.BroadcastAddress | Network/VirtualDhcp.cs:28 | the last address of the subnet |
| Dhcp.VirtualDhcp.BroadcastIsLast | Network/VirtualDhcp.cs:28 | the base OR'd with the inverted mask is the base plus the subnet size minus one |
| Dhcp.VirtualDhcp.IsIpValid | Network/VirtualDhcp.cs:80-83 | inside the subnet, true exactly for host addresses: neither network nor broadcast |
| Dhcp.VirtualDhcp.SubnetFits | Network/VirtualDhcp.cs:30-36 | the subnet lies below 2^32 |
| Dhcp.VirtualDhcp.MaskIsLowBits | Network/VirtualDhcp.cs:34 | `~mask` is the subnet size minus one |
| Dhcp.VirtualDhcp.CandidateIsSuccessor | Network/VirtualDhcp.cs:89 | one cursor step is the next address of the subnet, wrapping to the network address |
| Dhcp.VirtualDhcp.CycleNextIp | Network/VirtualDhcp.cs:85-92 | the do-while leaves the cursor on the next host address after the old one |
| Dhcp.VirtualDhcp.DistanceDecreases | Network/VirtualDhcp.cs:109-112 | each cursor move brings it strictly closer to any other host, so the search loop ends once a free host exists |
| Dhcp.VirtualDhcp.PopulateWithList | Network/VirtualDhcp.cs:41-58 | the listed addresses become taken and reserved, and `hasReservedIps` is set iff the list is non-empty |
| Dhcp.VirtualDhcp.constructor | Network/VirtualDhcp.cs:30-39 | cursor at `base + 1`, the listed reservations taken and reserved, and the allocator invariant established |
| Dhcp.VirtualDhcp.ReservedIpLookup | Network/VirtualDhcp.cs:60-78 | the loop returns `LookupReserved`: the first listed entry with the MAC, or 0 |
| Dhcp.VirtualDhcp.RequestIpV4 | Network/VirtualDhcp.cs:94-121 | a reserved MAC gets its reservation with nothing changed; otherwise a free, unreserved host address, now taken, with the cursor on the next host after it |
| Dhcp.VirtualDhcp.ReturnIpV4 | Network/VirtualDhcp.cs:123-132 | a dynamic address is released; a reserved one stays taken |
| Dhcp.VirtualDhcp.FreshAllocatorHasFreeHost | LdnServer/HostedGame.cs:123-132 | a fresh room allocator with at most eight reservations has a free host address |
| Dhcp.VirtualDhcp.RequestTwice | Network/VirtualDhcp.cs:94-121 | two dynamic requests without a release in between get two distinct host addresses, both now taken |
| MacAddressMemory.FirstFresh | LdnServer/MacAddressMemory.cs:22-28 | the first random draw whose hex rendering is not reserved; every earlier draw's rendering is reserved |
| MacAddressMemory.MintKeepsRenderings | LdnServer/MacAddressMemory.cs:26-30 | a MAC whose rendering is not reserved differs from every MAC minted before, and reserving its rendering keeps the reserved set equal to the renderings of the minted MACs |
| MacAddressMemory.MintStaysConsistent | LdnServer/MacAddressMemory.cs:26-30 | minting such a MAC keeps the registry's invariant |
| MacAddressMemory.MemoryRegistry.constructor | LdnServer/MacAddressMemory.cs:10-13 | nothing reserved, no ids, nothing minted |
| MacAddressMemory.MemoryRegistry.GetNewMac | LdnServer/MacAddressMemory.cs:15-34 | the MAC is the first draw whose rendering was not reserved; it differs from every earlier MAC; its rendering is now reserved |
| MacAddressMemory.MemoryRegistry.TryFind | LdnServer/MacAddressMemory.cs:36-48 | the stored MAC when it equals the client's, otherwise a newly minted one; the result is stored under `newId` only when that id has no entry |
| RateLimiter.Limiter.constructor | ApiServer/RateLimiter.cs:16-19 | no limit configured and no buckets |
| RateLimiter.Limiter.SetRateLimit | ApiServer/RateLimiter.cs:21-25 | the limit and window are set; the buckets are kept |
| RateLimiter.Limiter.IsRateLimited | ApiServer/RateLimiter.cs:27-62 | the answer and the address's new bucket are the decision for its old bucket, with the 32-bit count that wraps and the unsigned 32-bit limit; other addresses' buckets are unchanged |
| RateLimiter.FirstRequest | ApiServer/RateLimiter.cs:29-37 | a first request is let through and opens a window counting one |
| RateLimiter.WindowReset | ApiServer/RateLimiter.cs:43-47 | a request once the window is over is let through and opens a new window |
| RateLimiter.LimitedLeavesBucket | ApiServer/RateLimiter.cs:50-53 | inside the window a full bucket refuses the request and stays as it was |
| RateLimiter.CountsRequest | ApiServer/RateLimiter.cs:54-57 | inside the window a bucket below the limit counts the request and lets it through; the 32-bit count goes up by one, or wraps from 2^31 - 1 to -2^31 |
| RateLimiter.LimitedIff | ApiServer/RateLimiter.cs:27-62 | a request is refused exactly when it falls inside an existing window whose count has reached the limit |
| RateLimiter.CountBounded | ApiServer/RateLimiter.cs:27-62 | under a fixed limit below 2^31 a bucket's count stays between 1 and `max(1, limit)` |
| RateLimiter.AdmittedPerWindow | ApiServer/RateLimiter.cs:27-62 | under a limit below 2^31, within one window at most `max(1, limit)` requests from an address are let through |
| RateLimiter.Increment | ApiServer/RateLimiter.cs:56 | `Count++` on a 32-bit `int`: the count plus one modulo 2^32, lower than before exactly when it wraps from the largest value |
| RateLimiter.LargeLimitNeverRefuses | ApiServer/RateLimiter.cs:10-16 | a `uint` limit of 2^31 or more exceeds every value of the 32-bit count, so no request is refused |
| RateLimiter.LargeLimitAdmitsAll | ApiServer/RateLimiter.cs:27-62 | under such a limit every request of a run inside one window is let through |
| RateLimiter.CountWrapsUnderLargeLimit | ApiServer/RateLimiter.cs:50-56 | under the limit 2^31 the request after 2^31 - 1 counted ones is admitted and wraps the count to -2^31, and the next one is admitted too |
| JsonSerializerHelper.ToLower | Utils/JsonSerializerHelper.cs:49 | the result is never an upper-case letter; an upper-case letter maps to its lower-case form and anything else is kept |
| JsonSerializerHelper.Piece | Utils/JsonSerializerHelper.cs:43-60 | one or two characters ending in the lower-cased character; two, the first an underscore, exactly when an upper-case character follows a character that is not upper-case |
| JsonSerializerHelper.ConvertName | Utils/JsonSerializerHelper.cs:32-64 | a null name stays null; otherwise the builder loop yields the snake-case conversion |
| JsonSerializerHelper.NoUpperInPrefix | Utils/JsonSerializerHelper.cs:41-61 | no prefix of the builder's text holds an upper-case character |
| JsonSerializerHelper.PrefixLength | Utils/JsonSerializerHelper.cs:41-61 | the builder's length is the number of characters read plus one per inserted underscore |
| JsonSerializerHelper.LowerPrefixUnchanged | Utils/JsonSerializerHelper.cs:57-60 | a name with no upper-case character is copied unchanged, prefix by prefix |
| JsonSerializerHelper.NoUpperInOutput | Utils/JsonSerializerHelper.cs:32-64 | a converted name holds no upper-case character |
| JsonSerializerHelper.OutputLength | Utils/JsonSerializerHelper.cs:32-64 | a converted name is the input's length plus one per inserted underscore |
| JsonSerializerHelper.FixedPoint | Utils/JsonSerializerHelper.cs:32-64 | a name without upper-case characters converts to itself |
| JsonSerializerHelper.Idempotent | Utils/JsonSerializerHelper.cs:32-64 | converting a converted name changes nothing |
| JsonSerializerHelper.PublicPlayersCountKey | Stats/Types/LdnAnalytics.cs:12 | the `PublicPlayersCount` property is serialised under the key `public_players_count` |
| Statistics.StatusAsWritten | Stats/Types/GameAnalytics.cs:42 | as written: the label is "Joinable" exactly when the accept policy is 1, the policy that admits nobody |
| Statistics.Status | Stats/Types/GameAnalytics.cs:42 | corrected: "Joinable" exactly when the accept policy is not 1, otherwise "Not Joinable" |
| Statistics.StatusAsWrittenIsReversed | Stats/Types/GameAnalytics.cs:42 | for policies 0 and 1 the written label is the opposite of the corrected one |
| Statistics.StatusMatchesScan | LdnServer/LdnServer.cs:109-114 | the corrected label says "Joinable" exactly for the rooms a scan may list, and the written label differs from it for every policy |
| Statistics.SixteenDigitsHoldU64 | Stats/Types/GameAnalytics.cs:39 | every 64-bit id fits in sixteen hexadecimal digits |
| Statistics.AppIdText | Stats/Types/GameAnalytics.cs:39 | sixteen lower-case digits that read back as the application id |
| Statistics.PlayerNames | Stats/Types/GameAnalytics.cs:25-31 | one name per slot, in slot order, each read up to its first NUL |
| Statistics.FromGame | Stats/Types/GameAnalytics.cs:19-46 | id, counts, version and scene copied from the room; the name or "Unknown"; the application id as sixteen hex digits; "P2P" exactly for a peer-to-peer room; the corrected status; the names of the first `NodeCount` slots |
| Statistics.ActiveRooms | Stats/Statistics.cs:67-70 | the rooms with players never outnumber the records |
| Statistics.TallyBounds | Stats/Statistics.cs:58-100 | the total counts the rooms with players and all their players; the private, proxy and in-progress counts never exceed the total, so the public figures are never negative |
| Statistics.TallyConcat | Stats/Statistics.cs:65-91 | counting two runs of records is adding their counts |
| Statistics.PlusAssociates | Stats/Statistics.cs:65-91 | adding counters is associative |
| Statistics.PlusSwaps | Stats/Statistics.cs:65-91 | the order in which two runs are added does not matter |
| Statistics.TallyPrefixIsTally | Stats/Statistics.cs:65-91 | the counters after the first `n` iterations are the counts over the first `n` records |
| Statistics.TallyOne | Stats/Statistics.cs:65-91 | counting one record is that record's contribution |
| Statistics.PlusNothing | Stats/Statistics.cs:58-63 | the zeroed counters are the unit of addition |
| Statistics.FindLast | Stats/Statistics.cs:27 | when two enumerations hold the same records, the last record of one sits in the other with the rest matching |
| Statistics.TallyPermutation | Stats/Statistics.cs:27 | the totals do not depend on the order in which the dictionary enumerates its records |
| Statistics.TallyAround | Stats/Statistics.cs:65-91 | a record in the middle counts as if it came last |
| Statistics.LdnAnalytics.constructor | Stats/Types/LdnAnalytics.cs:5-12 | all eight published counters start at zero |
| Statistics.StatisticsRegistry.constructor | Stats/Statistics.cs:12-16 | no records, no subscriptions, no events |
| Statistics.StatisticsRegistry.Snapshot | Stats/Statistics.cs:27 | the records listed in the given id order |
| Statistics.StatisticsRegistry.UpdateLdnAnalytics | Stats/Statistics.cs:56-103 | the published figures are the counts over the records, the public ones as total minus private, and one change event is raised |
| Statistics.StatisticsRegistry.CountRooms | Stats/Statistics.cs:58-91 | the loop's six counters end as the counts over the records |
| Statistics.StatisticsRegistry.AddGameAnalytics | Stats/Statistics.cs:18-29 | a known id changes nothing; otherwise the room's record is stored, the room subscribed, the event raised and the totals recomputed over all records |
| Statistics.StatisticsRegistry.RemoveGameAnalytics | Stats/Statistics.cs:45-54 | an unknown id changes nothing; otherwise the record is removed, the room unsubscribed, the event raised with the removed record and the totals recomputed |
| LegacyServer.LegacyRoom.constructor | LdnServer.cs:25 | a room under the given id with the given description, not closed |
| LegacyServer.LegacyRoom.Close | LdnServer.cs:27-31 | the room is closed |
| LegacyServer.ViewOf | LdnServer.cs:56-63 | what a scan reads of a room: its passphrase and its description |
| LegacyServer.LegacyListed | LdnServer.cs:48-125 | the scan lists no more descriptions than there are rooms |
| LegacyServer.LegacyVisibleAreListed | LdnServer.cs:54-122 | every room with the scanner's passphrase, a policy other than 1 and passing the filter is listed |
| LegacyServer.LegacyListedAreVisible | LdnServer.cs:54-122 | every listed description belongs to such a room |
| LegacyServer.NewerScanIsNarrower | LdnServer.cs:54-112 | every room the newer registry's scan reports, the older one reports too |
| LegacyServer.OlderScanListsEmptyRooms | LdnServer/LdnServer.cs:158-161 | a room without players that the older scan lists is hidden by the newer one, which lists it only once it has a player and is not the scanner's own room |
| LegacyServer.LegacyListedStep | LdnServer.cs:54-122 | one more loop iteration appends the next room's description exactly when that room is visible |
| LegacyServer.LegacyListedPrefix | LdnServer.cs:54-122 | what the loop has listed after the first `n` rooms is a prefix of the whole listing |
| LegacyServer.LegacyListedAt | LdnServer.cs:54-122 | a visible room's description sits in the listing right after what the rooms before it contributed |
| LegacyServer.LegacyVisibleListedInOrder | LdnServer.cs:54-122 | of two visible rooms, the earlier one in enumeration order is listed at an earlier position |
| LegacyServer.LegacyLdnServer.constructor | LdnServer.cs:17-21 | no rooms |
| LegacyServer.LegacyLdnServer.FindGame | LdnServer.cs:36-41 | the room under exactly this id, or null when there is none |
| LegacyServer.LegacyLdnServer.Rooms | LdnServer.cs:50 | what a scan reads of the rooms under the keys, in key order |
| LegacyServer.LegacyLdnServer.CreateGame | LdnServer.cs:23-34 | a new open room is stored under the id; a room it replaces is closed; every other room is untouched |
| LegacyServer.LegacyLdnServer.CloseGame | LdnServer.cs:127-131 | the room under exactly this id is removed and closed; nothing else changes |
| LegacyServer.LegacyLdnServer.Scan | LdnServer.cs:48-125 | the first `count` entries of the buffer, grown by one slot at a time when full, are the visible rooms' descriptions in enumeration order (`LegacyServer.LegacyVisibleListedInOrder` proves the order) |
| LegacyServer.LegacyLdnServer.CollectVisible | LdnServer.cs:54-122 | the loop fills the buffer with exactly the listed descriptions, growing it only when it is full |
| LanPlayServer.FanoutOutbox | LdnServer/HostedGame.cs:593-599 | a broadcast gives each session one copy per time it is listed and nothing to anyone else |
| LanPlayServer.Stamp | LdnServer/HostedGame.cs:343-352 | relayed exactly when the source is zero or the sender's own address, and then stamped with the sender's address |
| LanPlayServer.FirstWithIp | LdnServer/HostedGame.cs:384 | `FirstOrDefault`: the first player with the address, or -1 when none has it |
| LanPlayServer.FirstWithNodeId | LdnServer/HostedGame.cs:407 | `FirstOrDefault`: the first player with the node id, or -1 when none has it |
| LanPlayServer.Relay | LdnServer/HostedGame.cs:341-391 | nothing for a spoofed source; for the room's broadcast address (192.168.0.255 included) the stamped packet to every player in order; otherwise to at most one player, who holds the destination, and to none only when nobody does |
| LanPlayServer.Optional | LdnServer/HostedGame.cs:536 | a session that may be null as a set of at most one |
| LanPlayServer.RemoveFirst | LdnServer/HostedGame.cs:529 | `List.Remove`: one element shorter when the session is listed, unchanged otherwise, and nothing new |
| LanPlayServer.RemoveFirstMultiset | LdnServer/HostedGame.cs:529 | removal takes away exactly one copy of the session, when there is one |
| LanPlayServer.NineSeatRoom | LdnServer/HostedGame.cs:241 | a well-formed table of eight connected members whose host asked for nine |
| LanPlayServer.NinthJoinerPassesWrittenTest | LdnServer/HostedGame.cs:241-263 | with a requested maximum of nine and eight members, the written test admits a joiner while the slot search returns -1; the corrected test refuses |
| LanPlayServer.AdmittedJoinerHasSlot | LdnServer/HostedGame.cs:241-263 | whenever the corrected test admits, the slot search finds a free slot |
| LanPlayServer.Seated | LdnServer/HostedGame.cs:257-263 | the joiner is written into the first free slot with that slot as its node id, the count goes up by one and the table stays well formed |
| LanPlayServer.Vacated | LdnServer/HostedGame.cs:292-322 | corrected: every occupied slot holding the address is freed and the count lowered by as many, keeping the table well formed |
| LanPlayServer.ProxyIntroduction | LdnServer/HostedGame.cs:200-231 | the host gets the token message and the joiner the proxy settings, both with the same token; a joiner on the host's public address gets the private settings and the host no physical address, any other joiner the public settings and the host its address |
| LanPlayServer.LeaveNotice | LdnServer/HostedGame.cs:534-541 | exactly one `ExternalProxyState` disconnect notice to the owner for an unexpected leave from a peer-to-peer room with an owner, none otherwise |
| LanPlayServer.View | LdnServer/LdnServer.cs:95-107 | what a scan reads of a room: its passphrase, description and player count |
| LanPlayServer.Listed | LdnServer/LdnServer.cs:84-174 | the scan lists no more descriptions than there are rooms |
| LanPlayServer.VisibleAreListed | LdnServer/LdnServer.cs:93-171 | every room with the scanner's passphrase, other than the scanner's own, not on policy 1, passing the filter and with players, is listed |
| LanPlayServer.ListedAreVisible | LdnServer/LdnServer.cs:93-171 | every listed description belongs to such a room |
| LanPlayServer.ListedStep | LdnServer/LdnServer.cs:93-171 | one more loop iteration appends the next room's description exactly when that room is visible |
| LanPlayServer.ListedPrefix | LdnServer/LdnServer.cs:165-170 | what the loop has listed after the first `n` rooms is a prefix of the whole listing |
| LanPlayServer.ListedAt | LdnServer/LdnServer.cs:165-170 | a visible room's description sits in the listing right after what the rooms before it contributed |
| LanPlayServer.VisibleListedInOrder | LdnServer/LdnServer.cs:93-171 | of two visible rooms, the earlier one in key order is listed at an earlier position |
| LanPlayServer.FirstFault | LdnServer/LdnServer.cs:141-149 | the first room at which the SSID comparison slices past the end of a name (the room's or the filter's), or the number of rooms when none does; no room before it faults |
| LanPlayServer.SsidComparedBySlices | LdnServer/LdnServer.cs:141-149 | where neither slice passes the end of its name, the slices are exactly the bytes `SsidBytes` compares |
| LanPlayServer.ScanReplies | LdnServer/LdnSession.cs:315-320 | one `ScanReply` per listed description, in order, all to the scanner |
| LanPlayServer.HexTextParses | LdnServer/LdnSession.cs:372 | `Convert.FromHexString` of a room id made of hex digits succeeds |
| LanPlayServer.HexStringIsHexText | LdnServer/LdnSession.cs:362 | an upper-case rendering consists of hex digits |
| LanPlayServer.PassphraseAccepted | LdnServer/LdnSession.cs:157-158 | accepted exactly when empty, or 16 characters that are "Ryujinx-" followed by eight lower-case hex digits |
| LanPlayServer.RoomSsidName | LdnServer/LdnSession.cs:391-406 | 33 bytes: the digits 1 to 8 four times, then a zero |
| LanPlayServer.EmptyAddressList | LdnServer/LdnSession.cs:347 | eight entries and nothing reserved |
| LanPlayServer.SessionIdOf | LdnServer/LdnSession.cs:371-372 | one byte per pair of hex digits of the room id, the pair's value |
| LanPlayServer.DigitCase | LdnServer/LdnSession.cs:581 | re-rendering a digit's value in upper case agrees with the digit up to case |
| LanPlayServer.RoomKeyOfSessionId | LdnServer/LdnSession.cs:581 | the upper-case rendering of a room's session id, lower-cased as the lookup does, is the room's lower-cased id, so a joiner finds the room it scanned |
| LanPlayServer.PairCase | LdnServer/LdnSession.cs:581 | the byte two digits encode renders as the same two digits, up to case |
| LanPlayServer.GuidIsHexText | LdnServer/LdnSession.cs:345 | a GUID rendered without dashes is lower-case hex text |
| LanPlayServer.MemberNode | LdnServer/LdnSession.cs:409-417 | an occupied slot with the session's address and MAC |
| LanPlayServer.RoomDescription | LdnServer/LdnSession.cs:371-422 | the requested ids and maximum, the host's MAC, the fixed 32-byte SSID, the advertisement at the start of its 0x180-byte buffer with its length and zeros after, and eight empty slots counting none |
| LanPlayServer.UnansweredPingDrops | LdnServer/LdnSession.cs:90-135 | after more than 10 s of silence a ping goes out; unless it is answered with its own id and requester 0, the next round drops the session |
| LanPlayServer.AnsweredPingRearms | LdnServer/LdnSession.cs:90-135 | an answered ping clears the wait, and after more silence the next id (mod 256) goes out |
| LanPlayServer.NoDropWithoutPendingPing | LdnServer/LdnSession.cs:90-113 | a session with no ping awaited is never dropped by a round |
| LanPlayServer.HostedGame.RoomSubnet | LdnServer/HostedGame.cs:46-47 | 10.114.0.0 is aligned to the 16 host bits of 255.255.0.0 |
| LanPlayServer.HostedGame.NewAllocator | LdnServer/HostedGame.cs:129 | an allocator over 10.114.0.0/16 with the given reservations, all taken |
| LanPlayServer.HostedGame.constructor | LdnServer/HostedGame.cs:123-132 | the id and description given, no members, no owner or passphrase, not closed, not peer-to-peer, and a fresh allocator with the reservations taken |
| LanPlayServer.HostedGame.UpdateNetworkInfo | LdnServer/HostedGame.cs:134-146 | the description is replaced |
| LanPlayServer.HostedGame.SetOwner | LdnServer/HostedGame.cs:158-198 | owner, passphrase and NUL-trimmed version recorded; a non-zero external port makes the room peer-to-peer with the owner's public address and the requested private endpoint; otherwise the proxy settings are kept |
| LanPlayServer.HostedGame.InitExternalProxy | LdnServer/HostedGame.cs:200-231 | sends exactly the two introduction messages, to the owner and to the joiner |
| LanPlayServer.HostedGame.LocateEmptyNode | LdnServer/HostedGame.cs:324-337 | the loop returns the first free slot, or -1 |
| LanPlayServer.HostedGame.BroadcastInLock | LdnServer/HostedGame.cs:593-599 | the message to every member, in list order |
| LanPlayServer.HostedGame.LeaseAddress | LdnServer/HostedGame.cs:246-252 | a reserved MAC gets its reservation; otherwise a free host address, now taken; the proxy settings are sent unless the room is peer-to-peer |
| LanPlayServer.HostedGame.SeatNode | LdnServer/HostedGame.cs:257-263 | the node lands in the first free slot with that slot as node id, and the count goes up by one |
| LanPlayServer.HostedGame.Admit | LdnServer/HostedGame.cs:246-263 | the joiner's leased address is written into its slot, and the address and slot are as above |
| LanPlayServer.HostedGame.Connect | LdnServer/HostedGame.cs:233-290 | corrected: succeeds exactly when the room is open and below both its maximum and the eight slots; a refusal changes nothing; on success the joiner is seated, leased, listed last, introduced to a peer-to-peer host, and the new description goes to the earlier members and then to the joiner |
| LanPlayServer.HostedGame.Announce | LdnServer/HostedGame.cs:265-280 | the joiner is listed and its room set; the proxy introduction, the broadcast and the joiner's `Connected` message are sent in that order |
| LanPlayServer.HostedGame.RemoveFromInfo | LdnServer/HostedGame.cs:292-322 | corrected: the table is `Vacated`, so every connected slot with the address is freed, over all eight, and the count stays equal to the occupied slots |
| LanPlayServer.HostedGame.DisconnectInternal | LdnServer/HostedGame.cs:521-565 | the session is removed from the list and its room cleared, its address returned unless reserved, its slot freed, a peer-to-peer owner told of an unexpected leave, and the members sent the new description |
| LanPlayServer.HostedGame.Disconnect | LdnServer/HostedGame.cs:567-576 | nothing for a null session; otherwise the removal above |
| LanPlayServer.HostedGame.HandleReject | LdnServer/HostedGame.cs:393-419 | a non-owner, or an id at or past the member count, gets `RejectFailed` and nothing changes; otherwise the first member with the node id, if any, is disconnected as unexpected; the sender always gets `RejectReply` |
| LanPlayServer.HostedGame.HandleSetAcceptPolicy | LdnServer/HostedGame.cs:421-436 | only the owner changes the policy, and the members are sent the new description |
| LanPlayServer.HostedGame.HandleSetAdvertiseData | LdnServer/HostedGame.cs:438-457 | only the owner changes it: the size is the length truncated to 16 bits, the buffer the data padded or cut to 0x180 bytes, and the members are sent the new description |
| LanPlayServer.HostedGame.HandleExternalProxyState | LdnServer/HostedGame.cs:459-487 | a lost connection the owner reports makes the first member with that address get a disconnect notice and be removed as an expected leave; otherwise nothing changes |
| LanPlayServer.HostedGame.RouteMessage | LdnServer/HostedGame.cs:341-391 | sends exactly what `Relay` selects for the current members |
| LanPlayServer.HostedGame.Close | LdnServer/HostedGame.cs:601-609 | the room ends closed; it is marked closing unless it was already closed; each member gets one disconnect notice the first time only |
| LanPlayServer.HostedGame.CloseInternal | LdnServer/HostedGame.cs:611-633 | the room ends closed, and the members get one disconnect notice the first time only |
| LanPlayServer.LdnServer.constructor | LdnServer/LdnServer.cs:20-32 | an empty registry that relays through the proxy, with an empty MAC registry and nothing sent |
| LanPlayServer.LdnServer.FindGame | LdnServer/LdnServer.cs:70-77 | found exactly when the lower-cased id is a key, and then the room under it |
| LanPlayServer.LdnServer.Rooms | LdnServer/LdnServer.cs:86 | what a scan reads of each room under the keys, in key order |
| LanPlayServer.LdnServer.CreateGame | LdnServer/LdnServer.cs:34-68 | a fresh room is installed under the lower-cased id when the key is free or the old room has the same owner id, which is then closed; another client's room stays and the new one is closed and not returned |
| LanPlayServer.LdnServer.CloseGame | LdnServer/LdnServer.cs:176-186 | the key is removed and the room under it, if any, closed; nothing is sent otherwise |
| LanPlayServer.LdnServer.Scan | LdnServer/LdnServer.cs:84-174 | fails exactly when some room reaches the SSID test with a declared length past the end of a name; the first `count` slots are the descriptions listed before the first such room, and with no failure the visible rooms' descriptions in key order, under the filter and passphrase and without the excluded room; the buffer is the same one unless it had to grow |
| LanPlayServer.LdnServer.CollectVisible | LdnServer/LdnServer.cs:93-171 | the loop stops failed exactly at the first room whose SSID slice throws; its output equals `Listed` over the rooms before that point, and over all room views when nothing fails, the buffer growing only when full |
| LanPlayServer.LdnServer.Place | LdnServer/LdnServer.cs:165-170 | the value is written after the first `count` entries, which are kept; the buffer grows by one slot only when full |
| LanPlayServer.LdnServer.Grown | LdnServer/LdnServer.cs:167 | `Array.Resize` by one: a fresh buffer with the old contents and one default description |
| LanPlayServer.LdnSession.constructor | LdnServer/LdnSession.cs:47-78 | no room, the random MAC, no address, passphrase or node id, not initialized or disconnected, no ping outstanding, the clock at the start, and a one-slot scan buffer |
| LanPlayServer.LdnSession.Ping | LdnServer/LdnSession.cs:90-113 | one round of the ping state machine: the new state is `Tick` of the old and the silence, a ping is sent when it asks for one, and the session is dropped when it says so |
| LanPlayServer.LdnSession.HandlePing | LdnServer/LdnSession.cs:128-135 | the ping state is `Answer` of the old state and the reply |
| LanPlayServer.LdnSession.MessageReceived | LdnServer/LdnSession.cs:251-267 | every message restarts the silence clock |
| LanPlayServer.LdnSession.HandleInitialize | LdnServer/LdnSession.cs:137-152 | once only: the MAC is kept when the registry stores it for the client's previous id, else the first fresh draw; the id maps to it; the reply carries the 16-byte session id and the MAC |
| LanPlayServer.LdnSession.HandlePassphrase | LdnServer/LdnSession.cs:154-161 | the passphrase before the first NUL when accepted, else empty |
| LanPlayServer.LdnSession.SetIpV4 | LdnServer/LdnSession.cs:284-308 | the address is taken exactly when the server relays, and a relayed room's client is sent the proxy configuration |
| LanPlayServer.LdnSession.DisconnectFromGame | LdnServer/LdnSession.cs:115-126 | the session ends in no room and has left its old room's list and slot; the room sends the leave notice (to the owner of a peer-to-peer room) and the new description to the remaining members; when the session owned the room, the room is closing, its id leaves the registry, and the room registered under it is closed with a disconnect notice to each remaining member unless it was closed already; otherwise the registry is unchanged; without a room nothing changes or is sent |
| LanPlayServer.LdnSession.CloseOwnRoom | LdnServer/LdnSession.cs:121-125 | the room is marked closing, its id leaves the registry, and the room registered under it is closed with the closing notices; nothing is sent when the id is not registered |
| LanPlayServer.LdnSession.OnDisconnected | LdnServer/LdnSession.cs:235-249 | the session is marked disconnected and leaves its room with every effect stated for `DisconnectFromGame`: list, slot, registry, closing, closed and what is sent |
| LanPlayServer.LdnSession.AccessPointConfigToNetworkInfo | LdnServer/LdnSession.cs:367-463 | an oversized advertisement changes nothing; a foreign room under the id leaves the registry unchanged and the client told; otherwise a fresh room owned by this session is registered, peer-to-peer only for a reachable external port, and the session joins it when the maximum allows; an oversized advertisement also drops the session |
| LanPlayServer.LdnSession.RegisterRoom | LdnServer/LdnSession.cs:438-444 | null exactly when another client's room holds the id, and then the client is told; otherwise the fresh room is removed again for a disconnected session, else registered and owned |
| LanPlayServer.LdnSession.Settle | LdnServer/LdnSession.cs:446-462 | a disconnected session's room is removed from the registry; otherwise the session owns it |
| LanPlayServer.LdnSession.TakeOwnership | LdnServer/LdnSession.cs:454 | `OwnsRoom`: owner and passphrase set, peer-to-peer exactly for an external port, and the session the one member when the maximum allows; nothing sent otherwise |
| LanPlayServer.LdnSession.Join | LdnServer/LdnSession.cs:455 | joins exactly when the room is open and admits one more; a refusal changes nothing; a join seats and lists the session and sends it `Connected` last |
| LanPlayServer.LdnSession.HandleCreateAccessPoint | LdnServer/LdnSession.cs:325-350 | refused while in a room or before initialization; a change of room means the session owns, alone, the room found under the GUID and under its own session id; the session is dropped exactly when an admitted request carries an oversized advertisement |
| LanPlayServer.LdnSession.HandleCreateAccessPointPrivate | LdnServer/LdnSession.cs:352-365 | refused while in a room or before initialization; a change of room means the session owns, alone, the room under the requested session id with the requested reservations; the session is dropped exactly when an admitted request carries an oversized advertisement |
| LanPlayServer.LdnSession.ConnectImpl | LdnServer/LdnSession.cs:505-564 | no such room gives `ConnectNotFound`; a version other than the host's gives `VersionTooHigh` or `VersionTooLow`; a closed or full room gives `TooManyPlayers`; otherwise the session is seated, listed last and sent `Connected` |
| LanPlayServer.LdnSession.JoinMatchingVersion | LdnServer/LdnSession.cs:525-558 | the version check against the host's slot, then the join, with the outcomes above |
| LanPlayServer.LdnSession.HandleConnect | LdnServer/LdnSession.cs:566-603 | `ConnectFailure` before initialization, `ConnectNotFound` for an unknown id; a change of room means the session is in the room under the id, listed last, in a slot holding its address, MAC, name and 16-bit version |
| LanPlayServer.LdnSession.HandleScan | LdnServer/LdnSession.cs:310-323 | one reply per visible room other than its own, in key order, then the end marker; when the scan throws at an SSID slice, nothing is sent and the session is dropped, the buffer keeping the descriptions written before the throw |
| LanPlayServer.LdnSession.ReplyToScan | LdnServer/LdnSession.cs:315-322 | a failed scan sends nothing and drops the session; otherwise one scan reply per description in the first `count` slots, in order, then the end marker |
| LanPlayServer.LdnSession.SendScanReplies | LdnServer/LdnSession.cs:315-322 | one scan reply per description in the first `count` slots, in order |

## Left out

- Sockets are not modelled. This covers `OnConnected`, `OnReceived`, `OnError` and `GetSessionIp`, and the Python `client.py` receive loop. A session's remote address is a constructor parameter.
- `IsProxyReachable`, a TCP connect under a deadline, is the `proxyReachable` parameter.
- Concurrency is not modelled. This covers room locks, the `Task.Run` deferral in `Disconnect` and `Close`, `ConcurrentDictionary` atomicity, and the lock diagnostics. Each operation is one atomic step.
- The `BackgroundPingTask` loop is not modelled; `LanPlayServer.LdnSession.Ping` is one round of it.
- Randomness is passed in as parameters: `Guid.NewGuid` room ids and tokens, and the random MAC draws.
  - The MAC draws are a sequence, and the caller must supply a sequence in which some draw is fresh. The source retries until it finds one.
- The clock is passed in as milliseconds. The conversion from `Stopwatch` ticks is not modelled.
- RateLimiter.Limiter.IsRateLimited: the window is a whole number of milliseconds and the clock an integer. The source's window is a `double`: a NaN, infinite or out-of-range window makes `TimeSpan.FromMilliseconds` throw, and fractional windows and the sub-millisecond resolution of `DateTime` differences are not modelled.
- The name check in `HandleCreateAccessPoint` and `ConnectImpl` is not modelled: `ContainsSlur`, the ban file and the `BannedByServer` reply. The slur list is not part of this model.
- The ban check when a socket connects is not modelled (`LdnServer/IPBan.cs`).
- `RyuLdnProtocol`, the C# streaming codec, is not part of this model. Messages are datatype values, and `NetworkInfo`, `NodeInfo` and `ScanFilter` hold only the fields the core reads.
- UTF-8 decoding is not modelled. `ReadUtf8String` returns the bytes before the first NUL, and user names and passphrases stay byte sequences.
- `char.IsUpper` and `char.ToLower` beyond ASCII are not modelled; only `A`-`Z` count as upper case.
- The regex in `CleanInput` is not modelled. Only its null and length-truncation steps are.
- `INotifyPropertyChanged` events on rooms are not modelled. The statistics side effects of creating, closing and updating rooms are not wired into the registry; `Statistics` models them as separate calls.
- `Stats/StatsDumper.cs`, `ApiServer/ApiSession.cs`, `ApiServer/ApiServer.cs`, `Program.cs`, `www/main.js`, `Utils/GameList.cs` and `GameList.cs` are not part of this model. A game's name is an `Option` parameter of `Statistics.FromGame`.
- `Stats/Types/GameAnalytics.cs` has no `IsPublic` or `Update` member, although `Stats/Statistics.cs` uses both. `IsPublic` is a parameter of the projection, and the `UpdateGameAnalytics` handler is not modelled.
- `Statistics.StatisticsRegistry.UpdateLdnAnalytics`: its counters are unbounded integers and do not model 32-bit wrap-around. It runs as one synchronous step.
- `Dhcp.VirtualDhcp.RequestIpV4` requires a free host address. The source's search never ends when every host is taken.
- The `Dhcp.VirtualDhcp.constructor` requires a contiguous mask, a base aligned to it and at least two host bits. Rooms only ever use 10.114.0.0/16, and `LanPlayServer.HostedGame.RoomSubnet` proves that its base is aligned to the mask.
- `LanPlayServer.HostedGame.Connect` requires `CanLease` of the joiner's MAC, so that either it is reserved or a host address is free. This is the allocator precondition above.
- Rooms accept any `NodeCountMax`. The corrected admission (`LanPlayServer.Admits`) refuses at the requested maximum or at eight members, where the source's test lets a ninth joiner through and then writes to slot -1; see Findings.
- Any exception in a message handler makes the source's receive handler disconnect the session. The model shows this, as `dropRequested`, only for the oversized advertisement and for the scan's SSID slice. Other throws, such as the null dereferences the requires clauses exclude, are not modelled.
- StringUtils.GetFixedLengthBytes: requires `size >= 1`. With a size of 0 the source resizes the array to -1 and throws; that error path is not modelled. The same holds for `StringUtils.FixedLength`, `StringUtils.ReadFixedLength` and `LegacyStringUtils.GetFixedLengthBytes`.
- StringUtils.CleanInputTruncate: requires `maxLength >= -1`. A smaller maximum makes the source's slice throw; that error path is not modelled.
- StringUtils.ReadUtf8String: the `index` parameter (default 0) is not modelled; the model always reads from the start of the data, as every caller does.
- The registry requires every installed room to have an owner. The source dereferences it when a room is replaced.
- `LanPlayServer.LdnSession.AccessPointConfigToNetworkInfo` states the sent log only as an extension: the messages to the new room's members are not listed one by one. For a disconnected session it states only that the room does not stay registered and the session's room is unchanged.
- `LanPlayServer.LdnSession.RegisterRoom`, `LanPlayServer.LdnSession.Settle` and `LanPlayServer.LdnSession.TakeOwnership` state what is sent through `OwnsRoom` and as a log extension. Only the final `Connected` message is named.
- `LanPlayServer.LdnSession.Join`, `LanPlayServer.LdnSession.ConnectImpl` and `LanPlayServer.LdnSession.JoinMatchingVersion` name only the final `Connected` message of a successful join. The broadcast to earlier members is stated by `LanPlayServer.HostedGame.Connect`.
- `LanPlayServer.LdnSession.HandleCreateAccessPoint`, `LanPlayServer.LdnSession.HandleCreateAccessPointPrivate` and `LanPlayServer.LdnSession.HandleConnect` state a successful path only through its result: the session is in a new room. The room's full state is stated by the methods they call.
- The scan buffer keeps stale descriptions past `count` between scans, as in the source. Only the first `count` slots are specified.
- `Network/Types/PacketId.cs` is not modelled. It is stale: it starts at `Passphrase = 0` and has no `Initialize`. Packet ids follow the Python table.
- The Python constants module is not part of this model. `MAGIC`, `VERSION` and `MAX_SIZE` are given the values of the server protocol, and the byte order is little-endian.
- `Packet.get_size` and every `__repr__` are not modelled.
- The `__main__.py` plumbing (the Discord webhook and the service restart) is not part of this model.

## Findings

| source | as written | input that shows it | evidently intended | confidence | as-written member | corrected member |
|---|---|---|---|---|---|---|
| LdnServer/HostedGame.cs:292-322 | the slot release scans only slots below `NodeCount`, but slots are never compacted | owner in slot 0, A in slot 1, B in slot 2; A leaves (count 2); B leaves: slot 2 is never scanned and B stays connected | clear every connected slot with the address, over all eight slots | not executed | NodeTable.RemoveFromInfoAsWritten, NodeTable.DepartedMemberStaysListed, NodeTable.StaleSlotCountedTwice | LanPlayServer.HostedGame.RemoveFromInfo, NodeTable.ClearAddressKeepsCount |
| LdnServer/HostedGame.cs:241 | admission compares the count only with the requested maximum | a room created with a maximum of nine and eight members: the test admits, and the slot search returns -1 | refuse when the count reaches the maximum or the eight slots | not executed | LanPlayServer.NinthJoinerPassesWrittenTest | LanPlayServer.AdmittedJoinerHasSlot, LanPlayServer.HostedGame.Connect |
| py-healthcheck/ldn_healthcheck/ryuldn/packets/create_access_point.py:66 | `decode` reads `self.__header`, which is name-mangled to an attribute nothing assigns | decoding the bytes a fresh packet encodes raises `AttributeError` | check the received header as the initialize packet does | not executed | CreateAccessPointPackets.CreateAccessPointPacket.DecodeAsWritten, CreateAccessPointPackets.AsWrittenRejectsOwnEncoding | CreateAccessPointPackets.CreateAccessPointPacket.Decode, CreateAccessPointPackets.EncodeDecode |
| Stats/Types/GameAnalytics.cs:42 | a room is labelled "Joinable" exactly when its accept policy is 1 | policy 1, which admits nobody and hides the room from scans, is labelled "Joinable" | "Joinable" exactly when the policy is not 1, as the API server labels rooms | not executed | Statistics.StatusAsWritten, Statistics.StatusAsWrittenIsReversed | Statistics.Status, Statistics.StatusMatchesScan |
