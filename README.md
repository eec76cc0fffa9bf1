# A verified model of the wire layer of a Go MySQL/MariaDB client

This project models, in Dafny, the byte-level core of a small Go client for
MySQL and MariaDB servers. It covers the following parts of that client:

- **Packet buffer** (`mariadb/packet.go` and its older copy `mysql/packet.go`).
  A byte buffer with a read cursor, an optional 4-byte frame header (a 3-byte
  little-endian payload length and a sequence id) and a direction. It provides:
  - fixed-width little-endian reads and writes;
  - MySQL length-encoded integers;
  - NUL-terminated strings and strings with a one-byte length;
  - the OK/ERR/EOF/LOCAL_INFILE classifiers;
  - the ERR packet's code and message;
  - the `mysql_native_password` scramble;
  - the COM_QUIT, COM_INIT_DB, COM_QUERY and COM_PING command packets.
- **Connection phase** (`mariadb/handshake.go`; `mysql/packet.go:259-399`).
  The client parses the server's Initial Handshake Packet and builds its
  Handshake Response Packet. That covers capability negotiation, the choice of
  authentication token and the exact response layout.
- **Capability flags** (`mysql/capabilities/capabilities.go`): the flag
  constants and the client's `DEFAULT` mask.
- **Connection logic** (`mariadb/connection.go`):
  - `recv` turns the bytes a socket returned into a packet or an error;
  - `init` checks the server's reply to the handshake;
  - the `recvPackets` loop decides when a response has ended;
  - `Query` decodes column definitions and integer cells.

The model takes the source's own form:

- The packet is a class whose methods move the cursor and append to the
  payload.
- The parser and the response builder are methods over that class.
- The connection is a class holding `ready`, `info` and `sequence`.
- Each method is proved against a pure reference definition:
  - the cursor reads are in module `Wire`;
  - the greeting layout is in `ConnectionPhase`;
  - the response layout is in `Response`;
  - the column and row decoders are in `Decoders`;
  - the draining and decoding loops are in `Connection`.
- The properties the client promises are proved about those definitions:
  - round trips: what a server lays out, the client reads back;
  - bounds;
  - idempotence;
  - the stop rule of the drain loop.

The two Go packages differ in one primitive. `readBytes(n)` in the MariaDB
package fails when `pos + n > len`; the MySQL copy fails already when
`pos + n >= len`. Each packet therefore carries a `Dialect`, and every reader
that goes through `readBytes` is proved for both dialects. Elsewhere the two
copies are the same code, and one member models both.

Modules, in dependency order:

- `Bytes`: bytes, little-endian images, XOR and decimal text.
- `Capabilities`: flags and `DEFAULT`.
- `Wire`: reference cursor reads, length-encoded integers, the frame header,
  ERR packets and the native scramble.
- `ConnectionPhase`: the greeting.
- `Response`: negotiation, the token and the response layout.
- `Packets`: the `Packet` class, `ErrorPacket`, `hashPassword` and the command
  packets.
- `Handshake`: the parser and the response builder.
- `Decoders`: column definitions and rows.
- `Connection`: `recv`, `init`, the drain loop and `Query`.

## Model

| member | source | states |
|---|---|---|
| Bytes.LE | mariadb/packet.go:226-251 | the n-byte little-endian image `PutUintN` writes has exactly n bytes |
| Bytes.FromLE | mariadb/packet.go:126-156 | the value `LittleEndian.UintN` reads from n bytes is below 256^n |
| Bytes.FromLEOfLE | mariadb/packet.go:126-156 | reading back n written little-endian bytes yields the value modulo 256^n |
| Bytes.FromLEOfLESmall | mariadb/packet.go:126-156 | a value that fits in n bytes survives the write/read round trip unchanged |
| Bytes.LEOfFromLE | mariadb/packet.go:126-156 | writing back the value read from n bytes reproduces those bytes |
| Bytes.Zeros | mariadb/connection.go:107 | `make([]byte, n)` is n zero bytes |
| Bytes.FromLEZeroPadded | mariadb/packet.go:142-146 | zero bytes appended after a little-endian field (readUInt24's padding) do not change its value |
| Bytes.XorBytes | mariadb/packet.go:38-40 | the byte-wise XOR keeps the length of its operands |
| Bytes.XorBytesCancels | mariadb/packet.go:38-40 | XOR with the same mask twice restores the original bytes |
| Bytes.Decimal | mariadb/connection.go:117 | `%d` prints at least one character, all of them decimal digits |
| Bytes.DecimalDenotes | mariadb/connection.go:117 | the digits `%d` prints denote the number printed |
| Bytes.FirstZero | mariadb/packet.go:90-97 | the position `ReadString(0x00)` stops at holds a zero byte |
| Bytes.FirstZeroIsFirst | mariadb/packet.go:90-97 | no zero byte precedes that position; it is absent exactly when the bytes hold no zero |
| Bytes.FirstZeroAfter | mariadb/packet.go:90-97 | a zero-free string followed by a zero is cut exactly at that zero |
| Capabilities.FlagBits | mysql/capabilities/capabilities.go:3-62 | every named flag is a single distinct bit: bits 0 to 24, 30, and the MariaDB extensions at 34, 35 and 36 |
| Capabilities.DefaultBits | mysql/capabilities/capabilities.go:64-74 | DEFAULT holds its ten flags and equals 0x1a6a302 |
| Capabilities.DefaultExcludes | mysql/capabilities/capabilities.go:64-74 | DEFAULT lacks PLUGIN_AUTH, CONNECT_WITH_DB, MYSQL, COMPRESS, LOCAL_FILES, SSL, CONNECT_ATTRS and EXTENDED_TYPE_INFO, and its high 32-bit word is 0 |
| Capabilities.Has | mariadb/handshake.go:41 | the mask test `caps & flag != 0` for a single-bit flag: the flag's bit of the mask is set; stated through HasIgnoresHigh and HasLowFlag |
| Capabilities.Set | mariadb/handshake.go:77 | `caps \|= flag` for a single-bit flag: the mask unchanged when the bit is already set, else the mask plus the flag; stated through ClientCapabilities and KeepsDefault |
| Capabilities.HasIgnoresHigh | mariadb/handshake.go:36-52 | adding a multiple of 2m to a mask leaves every flag below m as it was |
| Capabilities.HasLowFlag | mariadb/handshake.go:48-54 | the extended capability word added at bit 32 does not change the flags the parser tests afterwards |
| Wire.AtSlice | mariadb/packet.go:99-106 | bytes laid out at a position are exactly the slice of the buffer there |
| Wire.TakeU8 | mariadb/packet.go:116-120 | the reference `readUInt8`: the byte under the cursor and the cursor one on, None (a panic) outside the buffer; stated by TakeU8At and TakeAdvances |
| Wire.TakeLE | mariadb/packet.go:126-156 | the reference `readUInt16`/`readUInt32`: the n bytes at the cursor read little-endian and the cursor n on, None (a panic) when they run past the end; stated by TakeLEAt |
| Wire.TakeBytes | mariadb/packet.go:99-106 | the reference `readBytes(n)`: the n bytes at the cursor and the cursor past them when they fit by the dialect's test, else nothing and no move; its properties are stated by TakeBytesShape and TakeBytesAt |
| Wire.TakeBytesShape | mariadb/packet.go:99-106 | `readBytes(n)` either takes exactly the n bytes at the cursor and moves past them, still within the buffer, or takes nothing and stays, and only when they do not fit |
| Wire.TakeNulString | mariadb/packet.go:90-97 | the reference `readStringNullEnded`: the bytes before the next zero and the cursor past it; no zero left gives the empty string and no move; a cursor past the end panics (None); its properties are stated by TakeNulStringShape, TakeNulStringAt and TakeNulStringNoZero |
| Wire.TakeNulStringShape | mariadb/packet.go:90-97 | the reading succeeds exactly when the cursor is within the buffer; the string is the bytes at the cursor, and the cursor ends past it, within the buffer |
| Wire.TakeLenEncInt | mariadb/packet.go:186-197 | the reference `readUIntEncodedLength`: a prefix below 0xfb is the value, any other prefix is followed by a 2-byte value; its properties are stated by TakeLenEncIntRange and ClientReadsLenEncModulo |
| Wire.TakeLenEncIntRange | mariadb/packet.go:186-197 | the reading needs the prefix byte, and two more after a prefix of 0xfb or above; the value is below 65536, equals the prefix when that is below 0xfb, and the cursor moves 1 or 3 bytes |
| Wire.TakeLenBytes | mariadb/packet.go:181-184 | the reference `readBytesEncodedLength`: a length byte, then `readBytes` of that many bytes; stated through LenStrRead |
| Wire.TakeU8At | mariadb/packet.go:116-120 | `readUInt8` returns the byte under the cursor and advances it by one |
| Wire.TakeLEAt | mariadb/packet.go:126-156 | `readUInt16`/`readUInt32` read back a written value modulo 256^n and advance by n |
| Wire.TakeBytesAt | mysql/packet.go:82-89 | `readBytes(n)` returns n laid-out bytes and advances by n; the MySQL copy also needs a byte after them |
| Wire.TakeNulStringAt | mariadb/packet.go:90-97 | a NUL-free string with its terminator is read back whole, the cursor past the terminator |
| Wire.NulStringRead | mariadb/packet.go:90-97 | the same, with the string's place given as a slice |
| Wire.TakeNulStringNoZero | mariadb/packet.go:90-97 | the string read before the terminator holds no zero byte |
| Wire.TakeAdvances | mariadb/packet.go:90-120 | a successful read never moves the cursor back |
| Wire.LenEnc | mariadb/packet.go:257-270 | the image `writeLengthEncoded` appends has 1 to 9 bytes, and its first byte is never 0xfb (NULL) or 0xff (ERR) |
| Wire.LenEncRoundTrip | mariadb/packet.go:257-270 | every 64-bit value written length-encoded is read back exactly by the protocol's reading, in 1, 3, 4 or 9 bytes by magnitude |
| Wire.ClientReadsLenEncModulo | mariadb/packet.go:186-197 | `readUIntEncodedLength` reads back a written v as v mod 65536, advancing 1 byte when v < 0xfb and 3 otherwise |
| Wire.LenEncLowWord | mariadb/packet.go:257-270 | past its prefix, the image of a value of 0xfb or more starts with the value's low two bytes |
| Wire.LEPrefix | mariadb/packet.go:232-239 | the first k bytes of an n-byte image are the k-byte image (writeUInt24 keeps 3 of 4 bytes) |
| Wire.WithLength | mariadb/packet.go:284-299 | the buffer `updateHeader` leaves has the same size, with byte 3 and the payload kept |
| Wire.WithLengthProperties | mariadb/packet.go:284-299 | after `updateHeader` the length field reads back as the payload size, byte 3 and the payload are kept, and a second update changes nothing |
| Wire.ErrCodeOf | mariadb/packet.go:364-370 | the code of an ERR packet is a 16-bit value |
| Wire.ErrMessageOf | mariadb/packet.go:373-389 | unless the code is 0xff (progress report), the message ends with every byte from 13 on, after the optional `#[state] ` part |
| Wire.ErrPacketRoundTrip | mysql/packet.go:413-438 | decoding a server's ERR packet recovers its code and its message (`#[state] message` with a SQL state); in the MySQL copy a state followed by an empty message is not read as the state: the brackets stay empty and the state is printed after them (`#[] state`) |
| Wire.NativeScramble | mariadb/packet.go:26-42 | the native-password token has 20 bytes |
| Wire.NativeScrambleVerifies | mariadb/packet.go:26-42 | a server holding SHA1(SHA1(password)) recovers SHA1(password) from the token and salt, and its hash is what the server stores |
| ConnectionPhase.Scramble2Length | mariadb/handshake.go:55 | the second scramble part is max(12, pluginDataLength - 9) bytes long |
| ConnectionPhase.GreetingAtFacts | mariadb/handshake.go:24-65 | a parsed greeting has a mask below 2^64 (below 2^32 with the MYSQL bit); without PLUGIN_AUTH, plugin data length 0 and no plugin name; a scramble of at most 8 + the second part's length, and all 8 first bytes in the MariaDB package; a server version without zero bytes |
| ConnectionPhase.GreetingAt | mariadb/handshake.go:24-65 | the reference greeting reading from a start position: the fixed head, then the flag-driven tail; stated by GreetingAtStart, GreetingAtFacts, GreetingRead and GreetingRoundTrip |
| ConnectionPhase.GreetingAtStart | mariadb/handshake.go:31 | the greeting's protocol version is the byte at its start, and the reading ends past it |
| ConnectionPhase.TailKeepsProtocol | mariadb/handshake.go:41-62 | the flag-driven tail keeps the protocol version and never moves the cursor back |
| ConnectionPhase.GreetingHeadAt | mariadb/handshake.go:31-39 | the reference head reading: protocol byte, NUL-ended version, u32 connection id, 8 scramble bytes, one filler byte, u16 low caps, u8 collation, u16 status, u16 high caps added at bit 16; stated by GreetingHeadFacts and GreetingHeadRead |
| ConnectionPhase.GreetingTailAt | mariadb/handshake.go:41-62 | the reference tail reading: the capability part, the second scramble part, then the plugin name, each by its flag; stated by GreetingTailFacts and GreetingTailRead |
| ConnectionPhase.TailCapabilitiesAt | mariadb/handshake.go:41-52 | the plugin data length under PLUGIN_AUTH (else one byte skipped), 6 reserved bytes, then 4 bytes skipped under MYSQL or the extended word added at bit 32; stated by TailCapabilitiesRead |
| ConnectionPhase.TailScrambleAt | mariadb/handshake.go:54-58 | under SECURE_CONNECTION, max(12, pluginDataLength - 9) bytes appended to the scramble and one byte skipped; otherwise nothing; stated by TailScrambleRead |
| ConnectionPhase.TailPluginNameAt | mariadb/handshake.go:60-62 | under PLUGIN_AUTH, the NUL-ended plugin name; otherwise nothing; stated by TailPluginNameRead and TailPluginNameFacts |
| ConnectionPhase.GreetingHeadFacts | mariadb/handshake.go:31-39 | the fixed start gives a 32-bit mask, a NUL-free version and an 8-byte first scramble part (MariaDB) |
| ConnectionPhase.GreetingTailFacts | mariadb/handshake.go:41-62 | the flag-driven tail keeps the version, only extends the scramble by up to the second part, and keeps the mask's low flags |
| ConnectionPhase.TailPluginNameFacts | mariadb/handshake.go:60-62 | the plugin name is the only field the last step sets, and only under PLUGIN_AUTH |
| ConnectionPhase.LowWord | mariadb/handshake.go:36-39 | the two 16-bit capability halves combine to the mask's low 32 bits |
| ConnectionPhase.GreetingHeadSteps | mariadb/handshake.go:31-39 | the head reading is the protocol byte, the NUL-ended version, the u32 id, 8 scramble bytes, one filler byte, then u16 low caps, u8 collation, u16 status and u16 high caps, in that order |
| ConnectionPhase.GreetingHeadRead | mariadb/handshake.go:31-39 | a well-formed greeting head laid out by a server is read back field by field |
| ConnectionPhase.HeadIdentityRead | mariadb/handshake.go:31-32 | the protocol version and the NUL-ended server version are read back |
| ConnectionPhase.HeadScrambleRead | mariadb/handshake.go:33-35 | the connection id and the first scramble part are read back, the filler skipped |
| ConnectionPhase.HeadCapabilitiesRead | mariadb/handshake.go:36-39 | the low caps half, the collation, the status and the high caps half are read back |
| ConnectionPhase.GreetingTailRead | mariadb/handshake.go:41-62 | the tail of a well-formed greeting completes the head into the whole request |
| ConnectionPhase.TailReadParts | mariadb/handshake.go:41-62 | the tail's three parts (capabilities, second scramble, plugin name) laid out in order are read back |
| ConnectionPhase.TailReadFlags | mariadb/handshake.go:41-58 | the same, with the three flags given as booleans |
| ConnectionPhase.TailAuthRead | mariadb/handshake.go:54-62 | the second scramble part and the plugin name are read back one after the other |
| ConnectionPhase.HeadOfCompleted | mariadb/handshake.go:36-52 | the tail supplies exactly the high capability word, the plugin data length and the name that the head lacks |
| ConnectionPhase.TailFlags | mariadb/handshake.go:41-52 | the PLUGIN_AUTH and MYSQL tests on the 32-bit mask agree with the full mask, and the MYSQL bit forces a zero extended word |
| ConnectionPhase.GreetingTailSteps | mariadb/handshake.go:41-62 | the tail reading is its three parts in order |
| ConnectionPhase.TailCapabilitiesRead | mariadb/handshake.go:41-52 | plugin data length read only under PLUGIN_AUTH (else one byte skipped), 6 reserved bytes skipped, the u32 extended word added at bit 32 only without the MYSQL bit (else 4 bytes skipped) |
| ConnectionPhase.TailScrambleRead | mariadb/handshake.go:54-58 | under SECURE_CONNECTION the next bytes extend the scramble and one byte is skipped; otherwise nothing moves |
| ConnectionPhase.TailPluginNameRead | mariadb/handshake.go:60-62 | the plugin name is read only under PLUGIN_AUTH |
| ConnectionPhase.GreetingRead | mariadb/handshake.go:24-65 | a well-formed greeting laid out at p is read back whole, the cursor at its end |
| ConnectionPhase.GreetingSteps | mariadb/handshake.go:24-65 | the whole reading is its head followed by its tail |
| ConnectionPhase.GreetingRoundTrip | mysql/packet.go:259-311 | the parser inverts the server's greeting layout in both dialects, whatever surrounds it |
| Response.ClientCapabilities | mariadb/handshake.go:75-94 | the client mask has PLUGIN_AUTH iff the server does, CONNECT_WITH_DB iff a database is configured and the server offers it, and fits 32 bits |
| Response.ClientCapabilitiesKeepDefault | mariadb/handshake.go:75-94 | the client mask keeps DEFAULT's ten flags, never sets MYSQL, COMPRESS, LOCAL_FILES, SSL, CONNECT_ATTRS or EXTENDED_TYPE_INFO, and has a zero high word |
| Response.KeepsDefault | mysql/capabilities/capabilities.go:64-74 | each mask negotiation can produce keeps DEFAULT's flags |
| Response.AuthToken | mariadb/handshake.go:96-107 | a token exists iff the plugin is mysql_clear_password (the password) or mysql_native_password (the native scramble) |
| Response.TokenField | mariadb/handshake.go:121-130 | under LENENC_CLIENT_DATA, a length-encoded length that reads back as the token's size, then the token; else under SECURE_CONNECTION the plugin data length byte, then the token; else the token, then a 0 |
| Response.LenEncPrefixed | mariadb/handshake.go:121-123 | a token after its length-encoded length: the length reads back, and the token starts right after it |
| Response.ResponseFixed | mariadb/handshake.go:111-117 | the first 32 bytes: the client mask's low word, the max packet size 2^30, the collation, 19 zero bytes and the mask's high word; stated by ResponseFixedRead and WriteFixed |
| Response.ResponseIdentity | mariadb/handshake.go:118-130 | the user name, a 0, then the token field; stated by ResponseIdentityRead and WriteIdentity |
| Response.ResponseTrailer | mariadb/handshake.go:132-144 | the database and a 0 under the client's CONNECT_WITH_DB, the plugin name and a 0 under the server's PLUGIN_AUTH, one 0 under the server's CONNECT_ATTRS; stated by ResponseTrailerRead and WriteTrailer |
| Response.ResponseBody | mariadb/handshake.go:109-144 | a response body exists exactly when the plugin is mysql_clear_password or mysql_native_password; it holds the user name at byte 32, followed by a 0 |
| Response.NoPluginAuthRefused | mariadb/handshake.go:60-62 | a server without PLUGIN_AUTH leaves the name empty, so the client has no token for it |
| Response.ResponseFixedRead | mariadb/handshake.go:111-117 | the fixed 32 bytes read back as the mask, 2^30, the collation and the zero high word |
| Response.LenEncValueAt | mariadb/handshake.go:121-123 | a length-encoded length laid out in the response is read back with its width |
| Response.TakeLenEncStringAt | mariadb/handshake.go:121-123 | a length-encoded token is read back whole |
| Response.ResponseIdentityRead | mariadb/handshake.go:118-123 | the user name and the length-encoded token are read back |
| Response.ResponseTrailerRead | mariadb/handshake.go:132-144 | the database (under the client's CONNECT_WITH_DB) and the plugin name (under the server's PLUGIN_AUTH) are read back |
| Response.TrailerFieldsRead | mariadb/handshake.go:132-140 | each optional field is read back when its flag is set |
| Response.OptionalCStringRead | mariadb/handshake.go:132-140 | an optional NUL-terminated field is read back whole when its flag is set; otherwise nothing is read |
| Response.ResponseSteps | mariadb/handshake.go:109-144 | the server's reading of a response is its three parts in order |
| Response.ResponseLayoutRead | mariadb/handshake.go:109-144 | the three parts laid out in order are read back |
| Response.ResponseRoundTrip | mariadb/handshake.go:70-150 | under LENENC_CLIENT_DATA a server reads back everything the client wrote: mask, max packet size, collation, user, token, database and plugin name |
| Packets.Signed | mariadb/packet.go:112-160 | the two's-complement reading lies in [-half, half) and differs from the unsigned value by 0 or 2·half |
| Packets.Packet.constructor | mariadb/packet.go:47-53 | `&Packet{}` is empty, cursor 0, no header, Incoming |
| Packets.Packet.PayloadLength | mariadb/packet.go:63-69 | the buffer size without the 4 header bytes when there is a header |
| Packets.Packet.Peek | mariadb/packet.go:79-81 | `peek()` is the byte under the cursor, the same as `peekAt` at the cursor |
| Packets.Packet.PeekAt | mariadb/packet.go:83-88 | the byte at i below the end; 0 past the end; i == len excluded, since it panics |
| Packets.Packet.IsOK | mariadb/packet.go:342-346 | Incoming, byte 4 is 0x00 (or past the end) and payload length < 0xffffff |
| Packets.Packet.IsEOF | mariadb/packet.go:332-336 | Incoming, byte 4 is 0xfe and payload length < 9 |
| Packets.Packet.IsERR | mariadb/packet.go:338-340 | Incoming and byte 4 is 0xff |
| Packets.Packet.IsLocalInfile | mariadb/packet.go:348-350 | Incoming and byte 4 is 0xfb |
| Packets.ClassifiersExclusive | mariadb/packet.go:332-350 | at most one classifier holds, and none for an Outgoing packet |
| Packets.Packet.ResetPos | mariadb/packet.go:71-73 | the cursor is 0 and nothing else changes |
| Packets.Packet.Skip | mariadb/packet.go:75-77 | the cursor moves by n, unchecked |
| Packets.Packet.ReadStringNullEnded | mariadb/packet.go:90-97 | returns the bytes before the first 0 and moves past it; with no 0, returns empty and stays |
| Packets.Packet.ReadBytes | mariadb/packet.go:99-106 | the next n bytes and the cursor moved by n when they fit by the dialect's test, else empty and unmoved |
| Packets.Packet.ReadBytesRest | mariadb/packet.go:108-110 | `readBytesRest()` is everything from the cursor on: the bytes before the cursor followed by it make up the whole payload |
| Packets.Packet.ReadUInt8 | mariadb/packet.go:116-120 | the byte under the cursor; the cursor moves by 1 |
| Packets.Packet.ReadInt8 | mariadb/packet.go:112-114 | that byte as a signed 8-bit value |
| Packets.Packet.ReadUInt16 | mariadb/packet.go:126-136 | two little-endian bytes; the cursor moves by 2 |
| Packets.Packet.ReadInt16 | mariadb/packet.go:122-124 | that value as a signed 16-bit value |
| Packets.Packet.ReadUInt24 | mariadb/packet.go:142-146 | three little-endian bytes, the cursor unmoved, and byte pos+3 overwritten with 0 when it exists |
| Packets.Packet.ReadUInt32 | mariadb/packet.go:152-156 | four little-endian bytes; the cursor moves by 4 |
| Packets.Packet.ReadInt32 | mariadb/packet.go:148-150 | that value as a signed 32-bit value |
| Packets.Packet.ReadInt24 | mariadb/packet.go:138-140 | reads four bytes, as a signed 32-bit value |
| Packets.Packet.ReadUInt64 | mariadb/packet.go:162-179 | up to 8 little-endian bytes, zero-padded at the end of the buffer; the cursor stops at the end |
| Packets.Packet.ReadInt64 | mariadb/packet.go:158-160 | that value as a signed 64-bit value |
| Packets.Packet.ReadBytesEncodedLength | mariadb/packet.go:181-184 | a length byte, then readBytes of that many bytes (empty when they do not fit) |
| Packets.Packet.ReadStringLengthEncodedNullable | mariadb/packet.go:214-220 | null iff the byte is 0xfb, without moving; otherwise the string with a one-byte length |
| Packets.Packet.ReadUIntEncodedLength | mariadb/packet.go:186-197 | the reference reading: one byte below 0xfb, else a 2-byte value after any prefix; always below 65536 |
| Packets.Packet.WriteUInt8 | mariadb/packet.go:222-224 | appends the byte |
| Packets.Packet.WriteUInt16 | mariadb/packet.go:226-230 | appends 2 little-endian bytes |
| Packets.Packet.WriteUInt24 | mariadb/packet.go:232-239 | appends 3 little-endian bytes, or nothing from 2^24 on |
| Packets.Packet.WriteUInt32 | mariadb/packet.go:241-245 | appends 4 little-endian bytes |
| Packets.Packet.WriteUInt64 | mariadb/packet.go:247-251 | appends 8 little-endian bytes |
| Packets.Packet.WriteBytes | mariadb/packet.go:253-255 | appends the bytes |
| Packets.Packet.WriteLengthEncoded | mariadb/packet.go:257-270 | appends exactly LenEnc(v): v, or 0xfc/0xfd/0xfe with 2/3/8 little-endian bytes by magnitude, and nothing else changes |
| Packets.Packet.WriteHeader | mariadb/packet.go:272-278 | prepends the first 4 bytes only when there is no header yet; otherwise a no-op |
| Packets.Packet.WriteEmptyHeader | mariadb/packet.go:280-282 | prepends 4 zero bytes unless a header exists |
| Packets.Packet.UpdateHeader | mariadb/packet.go:284-299 | frames the packet and sets bytes 0 to 2 to the little-endian payload size, keeping byte 3 and the body (idempotent by Wire.WithLengthProperties) |
| Packets.Packet.CopyLengthField | mariadb/packet.go:294-298 | the copy loop replaces bytes 0 to 2 and keeps the rest |
| Packets.Packet.SetSequence | mysql/packet.go:228-239 | with a header, byte 3 is set and getSequence returns it; without one, nothing changes and getSequence is 0 |
| Packets.Packet.GetSequence | mariadb/packet.go:307-312 | byte 3 of the header when there is one, 0 otherwise |
| Packets.ErrorPacket.constructor | mariadb/packet.go:359-362 | wraps the packet it is given |
| Packets.ErrorPacket.Code | mariadb/packet.go:364-370 | bytes 5 and 6 little-endian, cursor left at 0 |
| Packets.ErrorPacket.Error | mariadb/packet.go:373-389 | the reference message (0xff code, `#[state] rest`, or the bytes from 7 on), cursor left at 0 |
| Packets.HashPassword | mariadb/packet.go:26-42 | the XOR loop computes the native scramble |
| Packets.CreateQuitPacket | mariadb/packet.go:391-397 | a framed Outgoing packet of payload [0x01], length 1, sequence 0 |
| Packets.CreateInitDbPacket | mariadb/packet.go:399-407 | payload [0x02] ++ name ++ [0], length in the header, sequence 0, Outgoing |
| Packets.CreateQueryPacket | mariadb/packet.go:409-417 | payload [0x03] ++ query ++ [0], header length \|query\| + 2, sequence 0, Outgoing |
| Packets.CreatePingPacket | mariadb/packet.go:419-425 | a framed Outgoing packet of payload [0x0e], length 1, sequence 0 |
| Handshake.ParseHandshakeRequest | mariadb/handshake.go:24-65 | skips the header when there is one and reads exactly the reference greeting, leaving the cursor after it |
| Handshake.ParseGreetingHead | mariadb/handshake.go:31-39 | the fixed fields are read as the reference head reads them |
| Handshake.ParseHeadIdentity | mariadb/handshake.go:31-34 | protocol, version, id and first scramble part, each where the reference reads it |
| Handshake.ParseHeadFlags | mariadb/handshake.go:35-39 | the filler is skipped, then low caps, collation, status and high caps, moving 8 bytes |
| Handshake.HeadBounds | mariadb/handshake.go:31-39 | a successful head reading finds room for each field |
| Handshake.HeadSteps | mariadb/handshake.go:31-39 | the head reading composed from the reads of its fields |
| Handshake.ParseTailCapabilities | mariadb/handshake.go:41-52 | the plugin data length, the reserved bytes and the extended word, as the reference reads them |
| Handshake.ParseTailScramble | mariadb/handshake.go:54-58 | the second scramble part under SECURE_CONNECTION, as the reference reads it |
| Handshake.ParsePluginName | mariadb/handshake.go:60-62 | the plugin name under PLUGIN_AUTH, as the reference reads it |
| Handshake.CreateHandshakeResponsePacket | mariadb/handshake.go:70-150 | a fresh packet framed with length = body size and sequence 1, whose body is the reference response; the mask handed back for `info.clientCapabilities` is the negotiated one |
| Handshake.NegotiateCapabilities | mariadb/handshake.go:75-94 | DEFAULT plus PLUGIN_AUTH and CONNECT_WITH_DB as offered |
| Handshake.PickAuthToken | mariadb/handshake.go:96-107 | the token and plugin name for the two supported plugins |
| Handshake.ResponseBodyParts | mariadb/handshake.go:109-144 | the reference body is the fixed part, the identity and the trailer |
| Handshake.WriteResponseBody | mariadb/handshake.go:111-144 | appends exactly the response body |
| Handshake.WriteIdentity | mariadb/handshake.go:118-130 | appends the user name, a 0 and the token field |
| Handshake.FramedBody | mariadb/handshake.go:146-147 | framing then setting sequence 1 keeps the body and records its length |
| Handshake.WriteZeros | mariadb/handshake.go:114-116 | the loop appends n zero bytes |
| Handshake.WriteFixed | mariadb/handshake.go:111-117 | appends low mask word, 1073741824, collation, 19 zeros and high mask word |
| Handshake.WriteTokenField | mariadb/handshake.go:121-130 | appends lenenc(\|token\|) ++ token, or pluginDataLength ++ token, or token ++ 0, by the server's flags |
| Handshake.WriteTrailer | mariadb/handshake.go:132-144 | appends the database iff the client mask has CONNECT_WITH_DB, the plugin name iff the server has PLUGIN_AUTH, and one 0 iff the server has CONNECT_ATTRS |
| Decoders.ExtendedTypesPrefix | mariadb/connection.go:268-276 | the extended type loop fails only where a shorter block already fails, and reads k entries for k rounds |
| Decoders.LenStr | mariadb/connection.go:262-267 | a string with a one-byte length is one byte longer |
| Decoders.FieldsBytes | mariadb/connection.go:278-284 | the fixed fields occupy 13 bytes |
| Decoders.LenStrRead | mariadb/packet.go:209-212 | a string with a one-byte length is read back whole when a byte follows it |
| Decoders.NamesRead | mariadb/connection.go:262-267 | the six names are read back and the fifth (the alias) kept |
| Decoders.FieldsRead | mariadb/connection.go:278-294 | the lenenc fixedFields, u16 charset, u32 max size, u8 type, u16 flags, u8 decimals and u16 reserved are read back in order |
| Decoders.ColumnRoundTrip | mariadb/connection.go:260-294 | a server's column definition without an extended block is read back whole, with the alias as name |
| Decoders.DecodeColumn | mariadb/connection.go:260-294 | skips the header and reads the reference column definition; hands back the extended count as the loop counter, or the counter unchanged |
| Decoders.DecodeNames | mariadb/connection.go:262-267 | reads the six names, returning the fifth |
| Decoders.DecodeExtendedTypes | mariadb/connection.go:268-276 | reads the count and that many entries |
| Decoders.DecodeFields | mariadb/connection.go:278-294 | reads the fixed fields into the column record |
| Decoders.ColumnAt | mariadb/connection.go:260-294 | the reference column definition reading: six names, the extended block when asked for, the fixed fields; stated by ColumnAtName, ColumnRoundTrip and DecodeColumn |
| Decoders.ColumnAtName | mariadb/connection.go:262-267 | a column definition takes its name from the fifth of the six names (the alias); without the extended block it has no type entries |
| Decoders.ColumnNamesAt | mariadb/connection.go:262-267 | six strings with a one-byte length each, keeping the fifth (the column alias) as the name; stated by NamesRead |
| Decoders.ExtendedTypesAt | mariadb/connection.go:268-276 | the first n entries of the extended type block, a type byte and a one-byte-length string each; stated by ExtendedTypesPrefix |
| Decoders.ExtendedBlockAt | mariadb/connection.go:268-276 | a length-encoded count, then that many extended type entries; stated by DecodeExtendedTypes |
| Decoders.ColumnFieldsAt | mariadb/connection.go:278-294 | the lenenc count of fixed fields, u16 charset, u32 max size, u8 type, u16 flags, u8 decimals and u16 reserved, stored under the name read before; stated by FieldsRead |
| Decoders.RowPrefix | mariadb/connection.go:311-330 | a row readable over some columns is readable over each prefix of them |
| Decoders.RowAdvances | mariadb/connection.go:311-330 | the cursor never moves back over a row |
| Decoders.CellAt | mariadb/connection.go:312-327 | a column of any other kind than TINY, SHORT or LONG yields no value and leaves the cursor where it was |
| Decoders.IntegerCellRange | mariadb/connection.go:316-324 | an integer cell moves the cursor on and yields a value from -49 up to 65535 - 48, never -1 (a negative result is lowered by one more) |
| Decoders.RowAt | mariadb/connection.go:311-330 | the reference row reading: each cell in column order, stored under its column's name; stated by RowStep, RowPrefix, RowAdvances and RowHasEveryColumn |
| Decoders.RowHasEveryColumn | mariadb/connection.go:327 | a row read holds a cell under the name of every column |
| Decoders.DecimalCell | mariadb/connection.go:316-324 | a single-digit cell decodes to its digit; a longer number decodes to its leading digit, smaller than the number, with the cursor inside the cell |
| Decoders.NegativeCell | mariadb/connection.go:316-324 | a negative number's cell ('-' first) decodes to -4 whatever its digits |
| Decoders.DigitCells | mariadb/connection.go:316-324 | single-digit cells take two bytes each |
| Decoders.RowStep | mariadb/connection.go:311-330 | reading one more column stores its cell under its name |
| Decoders.DigitCellRead | mariadb/connection.go:316-324 | a one-digit cell of an integer column reads back as that digit |
| Decoders.DigitRowRoundTrip | mariadb/connection.go:309-330 | a row of one-digit integer cells decodes to the map from each column name to its digit |
| Decoders.DigitCellsSplit | mariadb/connection.go:311-330 | the cells of a row are those of all but the last column, then the last one's cell |
| Decoders.DigitRowStep | mariadb/connection.go:311-330 | the last digit cell read after the rest of the row |
| Decoders.DigitRowLookup | mariadb/connection.go:327 | with distinct names, each column's name maps to its own digit |
| Decoders.ResultRow.constructor | mariadb/connection.go:310 | a new row is empty |
| Decoders.Repeat | mariadb/connection.go:328 | n copies of the same value: the same row object, appended once per column, and the same map in the reference reading |
| Decoders.DecodeCell | mariadb/connection.go:312-327 | one cell as the reference reads it: integer kinds step back over the string and read a lenenc integer minus 48 (one less when negative); other kinds give no value |
| Decoders.DecodeRow | mariadb/connection.go:309-330 | one fresh row holding every cell under its column's name, appended to the result once per column |
| Connection.ServerErrorText | mariadb/connection.go:115-118 | the text of a server error is "mysql error [", the code's digits, "]: " and the message, and both can be read back |
| Connection.ErrorText | mariadb/connection.go:99-201 | the texts of the connection's errors as `fmt.Errorf` formats them: a short header, a failed body read, `mysql error [code]: message`, the authentication switch and LOCAL_INFILE refusals; a socket error passes its own text; stated by ServerErrorText |
| Connection.RecvBuffer | mariadb/connection.go:102-112 | the buffer `recv` builds: the header with byte 3 cleared by readUInt24, then a zero-filled body of the announced size holding what the read returned; stated by RecvOutcomeFacts |
| Connection.SequenceAfter | mariadb/connection.go:105 | the sequence number after the first n receives of a run: 0 once one of them read a full header, the starting value otherwise; stated by SequenceAfterCleared |
| Connection.RecvOutcome | mariadb/connection.go:91-120 | a packet is produced only after a full 4-byte header and a body read; it is 4 + the announced size long and never an ERR packet |
| Connection.SequenceAfterCleared | mariadb/connection.go:105 | after a run of receives, the connection's sequence number is 0 if one of them read a full header (readUInt24 has cleared byte 3), and unchanged otherwise |
| Connection.RecvOutcomeFacts | mariadb/connection.go:91-120 | recv never returns an ERR packet; a packet is the header (sequence byte cleared) followed by the announced-size body that starts with the bytes read; a server error comes only from a 0xff byte |
| Connection.InfoOf | mariadb/connection.go:159-166 | the recorded info holds the server's mask and version; the client mask lacks EXTENDED_TYPE_INFO and LOCAL_FILES and has DEPRECATE_EOF |
| Connection.Outcomes | mariadb/connection.go:194-198 | one outcome per receive, none of them an ERR packet |
| Connection.EndsResponse | mariadb/connection.go:208 | the stop test holds iff the low byte of the announced payload size is below 9 and byte 4 is 0xfe |
| Connection.Drain | mariadb/connection.go:192-214 | the draining puts at most one item on the channel per receive, and a closed channel holds at least one item |
| Connection.Step | mariadb/connection.go:194-210 | one pass of the `recvPackets` loop: an error is forwarded and stops it, a LOCAL_INFILE packet is refused and stops it, any other packet is forwarded and stops it when EndsResponse holds; stated by DrainForwards, DrainStops and DrainRefusesLocalInfile |
| Connection.ReceivableSuffix | mariadb/connection.go:194-211 | the receives after any point still hold more than their header each |
| Connection.DrainAdvance | mariadb/connection.go:193-211 | one more receive taken by the loop: its item joins those before it, and the loop stops there or goes on with the rest |
| Connection.DrainForwards | mariadb/connection.go:192-214 | every item but the last is a received packet forwarded as it came, neither LOCAL_INFILE nor response-ending |
| Connection.DrainStops | mariadb/connection.go:192-214 | the channel closes on a read error, on a refused LOCAL_INFILE request, or after a packet whose byte 0 < 9 and byte 4 = 0xfe; left open only when every receive was forwarded |
| Connection.DrainRefusesLocalInfile | mariadb/connection.go:200-204 | no LOCAL_INFILE packet ever reaches the channel |
| Connection.DrainUnfold | mariadb/connection.go:193-211 | the loop is the first receive's step, then the rest unless it stopped |
| Connection.OkPacketContinues | mariadb/connection.go:207-210 | an OK packet is forwarded and does not end the response |
| Connection.RecvEofEndsResponse | mariadb/connection.go:208-210 | a received EOF packet ends the response |
| Connection.LongPacketEndsResponse | mariadb/connection.go:208 | the test reads only the size's low byte: a 0x105-byte packet with 0xfe, too long to be EOF, ends the response too |
| Connection.PrependNothing | mariadb/connection.go:253-254 | nothing read before a result leaves it unchanged |
| Connection.PrependAppend | mariadb/connection.go:295 | values appended one at a time add up |
| Connection.ColumnsRead | mariadb/connection.go:255-296 | a counter at or past the count reads no column and takes no item |
| Connection.ColumnsLoopFailure | mariadb/connection.go:255-259 | for any decoder of one column packet (ColumnsRead's among them), a column loop that ends in an error has read nothing and has taken at least one item, within the channel |
| Connection.ColumnsReadCounts | mariadb/connection.go:255-296 | without the extended block the loop reads one column per packet: count - i columns from as many packet items |
| Connection.ColumnsLoopCounts | mariadb/connection.go:255-296 | the same, for any decoder of one column packet |
| Connection.ColumnsLoopStep | mariadb/connection.go:255-296 | one pass decodes the item and goes on from the counter handed back |
| Connection.ColumnsLoopUnfold | mariadb/connection.go:256-260 | a loop with a result has decoded the packet it met |
| Connection.ColumnsReadInside | mariadb/connection.go:255-256 | a loop that is not done has an item to take |
| Connection.ColumnsReadError | mariadb/connection.go:257-259 | an error item ends the column loop with that error and nothing read |
| Connection.RowsReadUnfold | mariadb/connection.go:299-330 | one pass of the row loop: an error returns it, an EOF packet ends it, any other packet is decoded |
| Connection.RowsRead | mariadb/connection.go:298-332 | the reference row loop: an error item ends it with that error, an EOF packet ends it, any other packet's row is held once per column; stated by RowsReadBounds, RowsReadUnfold and RowsReadEndsAtEof |
| Connection.RowsReadBounds | mariadb/connection.go:298-332 | the row loop takes at least one item and stays within the channel; one that ends in an error has read no rows |
| Connection.RowsReadEndsAtEof | mariadb/connection.go:299-332 | a row loop without an error ends at an EOF packet after decoding every packet before it, one entry per column each |
| Connection.CellsOfAppend | mariadb/connection.go:328 | the maps of appended rows follow the earlier ones |
| Connection.CellsOfRepeat | mariadb/connection.go:328 | the same row n times holds its map n times |
| Connection.PacketOf | mariadb/connection.go:102-113 | the packet a channel item carries: the bytes, header set, Incoming, cursor 0 |
| Connection.RowsReadInside | mariadb/connection.go:299-300 | a row loop with a result has an item to take |
| Connection.RowsReadError | mariadb/connection.go:301-303 | an error item ends the row loop with that error |
| Connection.DecodeRowItem | mariadb/connection.go:304-331 | an EOF packet ends the loop; any other packet's row is appended once per column, and the loop goes on |
| Connection.RowItemStep | mariadb/connection.go:304-331 | after the row decoded at a packet that is not EOF, the result is that row once per column, then the rest of the loop |
| Connection.ColumnItemDecodes | mariadb/connection.go:260-294 | a packet item the loop meets is a readable column definition |
| Connection.DecodeColumnItem | mariadb/connection.go:260-295 | one pass: the column decoded and the counter handed back, the rest of the loop continuing from them |
| Connection.ColumnItemStep | mariadb/connection.go:255-296 | after a decoded column the loop goes on from the counter handed back |
| Connection.HeadAt | mariadb/connection.go:241-252 | the first item of the response: an error item gives its error; an OK packet gives a last insert id below 65536; any other packet gives its column count |
| Connection.ColumnCountByte | mariadb/connection.go:252 | the column count is the single byte after the header: a count below 0xfb is read back exactly, a larger one reads as its prefix byte, which is right only for 0xfc |
| Connection.OkReadsHeader | mariadb/connection.go:245-249 | the OK branch reads its two integers from byte 1 on, inside the header: for an OK packet shorter than 0xfb bytes the recorded last insert id is 0, whatever the server sent |
| Connection.QueryRead | mariadb/connection.go:241-332 | the decoding below the early return: a result exists only when the first item can be read, and any error discards the rows read |
| Connection.QueryReadEndsAtEof | mariadb/connection.go:241-332 | with the client's mask, a response decoded without an error has exactly the announced number of column definitions right after the first item, then rows up to an EOF packet, one map per column for each row |
| Connection.Connection.constructor | mariadb/connection.go:42-53 | a connection before the handshake: not ready, empty info, sequence 0 |
| Connection.Connection.Recv | mariadb/connection.go:91-120 | the outcome of recv: an error exactly when no packet is returned, the packet otherwise, framed, Incoming and read from 0; the sequence recorded is 0 after a full header |
| Connection.Connection.RecvItem | mariadb/connection.go:194-211 | one pass of the `recvPackets` loop: the item put on the channel and whether the loop stops are exactly Step of the receive outcome; the sequence is 0 after a full header |
| Connection.Connection.StartHandshake | mariadb/connection.go:159-166 | parses the greeting, leaving the greeting's cursor where the reference reading ends, records its info, and builds the reference response with sequence 1 |
| Connection.Connection.FinishHandshake | mariadb/connection.go:177-187 | 0xfe after the header gives the authentication-switch error and leaves `ready`; any other reply sets `ready` |
| Connection.Connection.Init | mariadb/connection.go:153-188 | each failed receive ends init with its error; a greeting yields the recorded info and the response; the reply decides `ready` as FinishHandshake does; the sequence number is 0 once the greeting's header was read whole |
| Connection.Connection.RecvPackets | mariadb/connection.go:192-214 | the items put on the channel and whether it was closed are exactly Drain of the receive outcomes; at most one item per receive, and the sequence number is the one left by the receives the loop made |
| Connection.Connection.Query | mariadb/connection.go:234-240 | builds the COM_QUERY packet (sending is not modelled), consumes the response as `recvPackets` does, leaving the sequence number that loop leaves, and returns no rows and no error |
| Connection.Connection.DecodeColumns | mariadb/connection.go:252-296 | the column loop's columns, next item and error are exactly the reference column reading with the connection's client mask |
| Connection.Connection.DecodeRows | mariadb/connection.go:298-332 | the row loop's row maps, next item and error are exactly the reference row reading |
| Connection.Connection.DecodeHead | mariadb/connection.go:241-252 | the first item read as the reference reads it; an OK packet's last insert id is recorded in `lastInsertId`, which nothing else changes |
| Connection.Connection.DecodeResponse | mariadb/connection.go:241-332 | the first item, then the column loop over the announced count, then the row loop: row maps and error exactly as the reference reading, with `lastInsertId` set only by an OK packet |

## Left out

- Socket I/O is not modelled: dialling, `socket.Read`/`Write` and `send`. Each
  read is a parameter holding the bytes returned or the error raised. A short
  body read leaves the rest of the zero-filled buffer as zeros. Send errors
  cannot occur in the model.
- `Connection.Connection.Init` does not send its response packet; it returns it.
  A failed send (mariadb/connection.go:167-170) is therefore not modelled.
- Goroutines, channels and timers are not modelled:
  - `communicate`;
  - the `select` loop of `drainQueue` with its ticker ping;
  - `queue.go`.
- The response channel is a finite sequence of receive outcomes. When the
  sequence is exhausted before the stop rule fires, the channel stays open.
  `Connection.Connection.RecvPackets` then returns with `closed` false, and
  `Connection.Connection.Query` still returns no rows and no error. In the
  source, Query's `range q` (mariadb/connection.go:237) would block on such
  an open channel until the receiver goroutine sends more or closes it;
  that blocking is not modelled.
- `Connection.Connection.Query` returns at mariadb/connection.go:240, before
  any decoding. The code below that return (lines 241-332) cannot run. It is
  modelled separately, over a sequence of channel items:
  - `Connection.Connection.DecodeHead` reads the first item: an error, the
    OK branch that sets `lastInsertId`, or the column count;
  - `Connection.Connection.DecodeResponse` then runs `DecodeColumns` and
    `DecodeRows` on it.
  Nothing calls `DecodeResponse` from `Query`, just as nothing in the source
  reaches those lines.
- `Connection.Connection.DecodeColumns` takes the connection's mask test as a
  boolean argument of the reference reading. The client never sets
  EXTENDED_TYPE_INFO, so `Connection.ColumnsReadCounts` is stated only for
  the case without the extended block.
- `Connection.PacketOf` rebuilds a packet from the bytes a channel item holds.
  It does not share the packet object `recv` created.
- `Decoders.DecodeRow` keeps the aliasing of the source: the same row object
  is appended once per column. Go map semantics beyond insertion and lookup
  (iteration order, nil values) are not modelled.
- `Decoders.DecodeExtendedTypes` returns the entries it walks over only as a
  ghost value, because the source discards them.
- Printing (`fmt.Printf`) is left out.
- SHA-1 is not modelled: `crypto/sha1` is a function parameter with 20-byte
  results.
- `math.Max` over floats is an integer maximum.
- `readUIntPrefixLength` is left out because nothing calls it.
- `storePos`, `restorePos` and `haveStoredPos` are left out, because their
  value receivers never change the caller's packet.
- `readStringLengthEncoded` is the same reading as `readBytesEncodedLength`,
  modelled once as `Packets.Packet.ReadBytesEncodedLength`.
- The unreachable code after `return` in `readUInt16` and `readUInt32` is left
  out.
- `Handshake.ParseTailScramble` returns the scramble as a new value. The source
  appends the second part to a slice of the packet's payload, which can
  overwrite payload bytes after the first 8 scramble bytes. That aliasing is
  not modelled: the reference reading is over the original bytes.
- Go panics (an index or slice out of range, and the unsupported-plugin panic)
  are modelled as preconditions, with these exceptions:
  - `Response.AuthToken` yields None for an unsupported plugin, so that the
    refusal can be stated;
  - the reference reads yield None where the source would panic.
- A Go slice expression `s[a:b]` panics only past the slice's capacity,
  not past its length. The model treats every slice past its length as a
  panic, so spare capacity behind a payload is never read.
- Integer widths beyond the byte level are not modelled:
  - The MySQL copy types the capability mask as `int64`; the model uses one
    unbounded mask for both copies, proved below 2^64.
  - `Packets.Packet.WriteUInt16`, `WriteUInt32` and `WriteUInt64` require
    their argument to fit instead of truncating it as Go's conversion would.
    Every caller in the core passes a fitting value.
  - `Packets.Packet.UpdateHeader` and the command constructors require the
    body to stay below 2^24 bytes. At that size `writeUInt24` writes nothing
    and the copy loop would index an empty slice.
- The mysql package's `Packet` has no direction. The model's `direction` field
  stays at its default Incoming for MySQL-dialect packets.
- The `OkPacket` of mysql/packet.go (lines 440 onward) is left out, as is all
  of `mysql/connector.go`: these are socket calls and prints around the packet
  functions already modelled.
- `mariadb/types.go` is not part of this model beyond the column record and
  the TINY, SHORT and LONG type codes.
- Payload splitting over 0xffffff bytes, affected-row tracking, prepared
  statements, TLS and compression are absent from the source and from the
  model.
