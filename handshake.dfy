/**
  The two connection-phase routines as the client runs them over a packet
  buffer: `parseHandshakeRequest` (mariadb/handshake.go; its copy
  `CreateHandshakeRequestPacket` in mysql/packet.go) and
  `createHandshakeResponsePacket` (with its copy
  `CreateHandshakeResponsePacket`). Each is proved against the reference
  reading and layout of the connection phase.
*/
module Handshake {
  import opened Bytes
  import opened Wire
  import opened Capabilities
  import opened ConnectionPhase
  import opened Response
  import opened Packets

  /** Where the greeting body starts: after the header, when the packet has one. */
  function GreetingStart(p: int, hasHeader: bool): int
  {
    if hasHeader then p + 4 else p
  }

  /**
    `parseHandshakeRequest(packet)`: walks the cursor over the greeting,
    filling the request field by field. It panics exactly where the reading
    GreetingAt fails; otherwise it yields GreetingAt's request and leaves
    the cursor where GreetingAt stops.
  */
  method ParseHandshakeRequest(packet: Packet) returns (hsr: HandshakeRequest)
    requires packet.pos >= 0
    requires GreetingAt(packet.dialect, packet.payload, GreetingStart(packet.pos, packet.hasHeader)).Some?
    modifies packet`pos
    ensures Reads(GreetingAt(packet.dialect, packet.payload, GreetingStart(old(packet.pos), packet.hasHeader)), hsr, packet.pos)
  {
    ghost var d, s, framed := packet.dialect, packet.payload, packet.hasHeader;
    ghost var start := GreetingStart(packet.pos, framed);
    if packet.hasHeader {
      packet.Skip(4);
    }
    assert packet.pos == start && packet.payload == s && packet.dialect == d;
    HeadBounds(d, s, start);
    hsr := ParseGreetingHead(packet);
    ghost var head, tailStart := hsr, packet.pos;
    assert GreetingTailAt(d, s, head, tailStart).Some?;
    hsr := ParseTailCapabilities(packet, hsr);
    ghost var afterCapabilities, scrambleStart := hsr, packet.pos;
    hsr := ParseTailScramble(packet, hsr);
    ghost var afterScramble, nameStart := hsr, packet.pos;
    hsr := ParsePluginName(packet, hsr);
    GreetingTailSteps(d, s, head, tailStart, Has(head.capabilities, PLUGIN_AUTH), Has(head.capabilities, MYSQL),
                      Has(afterCapabilities.capabilities, SECURE_CONNECTION), Has(afterScramble.capabilities, PLUGIN_AUTH),
                      afterCapabilities, scrambleStart, afterScramble, nameStart, hsr, packet.pos);
    GreetingSteps(d, s, start, head, tailStart, hsr, packet.pos);
    assert packet.payload == s && packet.hasHeader == framed;
  }

  /**
    The fixed part of the greeting, up to the upper capability word; it
    needs room for each field, as HeadBounds finds in a successful reading.
  */
  method ParseGreetingHead(packet: Packet) returns (hsr: HandshakeRequest)
    requires HeadRoom(packet.dialect, packet.payload, packet.pos)
    modifies packet`pos
    ensures Reads(GreetingHeadAt(packet.dialect, packet.payload, old(packet.pos)), hsr, packet.pos)
  {
    ghost var d, s, start := packet.dialect, packet.payload, packet.pos;
    var protocolVersion, serverVersion, connection, scramble := ParseHeadIdentity(packet);
    ghost var p := TakeNulString(s, start + 1).value.1;
    ghost var r := packet.pos;
    var low, collation, status, high := ParseHeadFlags(packet);
    hsr := EMPTY_REQUEST.(protocolVersion := protocolVersion, serverVersion := serverVersion,
                          connection := connection, scramble := scramble,
                          capabilities := low + high * 0x1_0000,
                          collation := collation, status := status);
    HeadSteps(d, s, start, p, r, hsr, low, high);
  }

  /** The protocol version, the server version, the connection id and the first scramble part. */
  method ParseHeadIdentity(packet: Packet) returns (protocolVersion: byte, serverVersion: seq<byte>, connection: nat, scramble: seq<byte>)
    requires 0 <= packet.pos < |packet.payload| && TakeNulString(packet.payload, packet.pos + 1).Some?
    requires TakeNulString(packet.payload, packet.pos + 1).value.1 + 4 <= |packet.payload|
    modifies packet`pos
    ensures Reads(TakeU8(packet.payload, old(packet.pos)), protocolVersion, old(packet.pos) + 1)
    ensures var p := TakeNulString(packet.payload, old(packet.pos) + 1).value.1;
            && Reads(TakeNulString(packet.payload, old(packet.pos) + 1), serverVersion, p)
            && Reads(TakeLE(packet.payload, p, 4), connection, p + 4)
            && TakeBytes(packet.dialect, packet.payload, p + 4, 8).0 == scramble
            && TakeBytes(packet.dialect, packet.payload, p + 4, 8).1 == packet.pos
  {
    protocolVersion := packet.ReadUInt8();
    serverVersion := packet.ReadStringNullEnded();
    connection := packet.ReadUInt32();
    scramble := packet.ReadBytes(8);
  }

  /** The filler byte, the lower capability word, the collation and the status flags. */
  method ParseHeadFlags(packet: Packet) returns (low: nat, collation: byte, status: nat, high: nat)
    requires 0 <= packet.pos && packet.pos + 8 <= |packet.payload|
    modifies packet`pos
    ensures packet.pos == old(packet.pos) + 8
    ensures Reads(TakeLE(packet.payload, old(packet.pos) + 1, 2), low, old(packet.pos) + 3)
    ensures Reads(TakeU8(packet.payload, old(packet.pos) + 3), collation, old(packet.pos) + 4)
    ensures Reads(TakeLE(packet.payload, old(packet.pos) + 4, 2), status, old(packet.pos) + 6)
    ensures Reads(TakeLE(packet.payload, old(packet.pos) + 6, 2), high, old(packet.pos) + 8)
  {
    packet.Skip(1);
    low := packet.ReadUInt16();
    collation := packet.ReadUInt8();
    status := packet.ReadUInt16();
    high := packet.ReadUInt16();
  }

  /** Room for each field of the head: the version string ends, and the fixed fields after it fit. */
  predicate HeadRoom(d: Dialect, s: seq<byte>, start: int)
  {
    && 0 <= start < |s| && TakeNulString(s, start + 1).Some?
    && var p := TakeNulString(s, start + 1).value.1;
       p >= 0 && p + 4 <= |s| && TakeBytes(d, s, p + 4, 8).1 + 8 <= |s|
  }

  /** A successful head reading finds room for each of its fields. */
  lemma HeadBounds(d: Dialect, s: seq<byte>, start: nat)
    requires GreetingHeadAt(d, s, start).Some?
    ensures HeadRoom(d, s, start)
  {
  }

  /** The head reading composed from the reads of its fields. */
  lemma HeadSteps(d: Dialect, s: seq<byte>, start: nat, p: nat, r: nat, h: HandshakeRequest, low: nat, high: nat)
    requires Reads(TakeU8(s, start), h.protocolVersion, start + 1)
    requires Reads(TakeNulString(s, start + 1), h.serverVersion, p)
    requires Reads(TakeLE(s, p, 4), h.connection, p + 4)
    requires TakeBytes(d, s, p + 4, 8).0 == h.scramble && TakeBytes(d, s, p + 4, 8).1 == r
    requires Reads(TakeLE(s, r + 1, 2), low, r + 3)
    requires Reads(TakeU8(s, r + 3), h.collation, r + 4)
    requires Reads(TakeLE(s, r + 4, 2), h.status, r + 6)
    requires Reads(TakeLE(s, r + 6, 2), high, r + 8)
    requires h == EMPTY_REQUEST.(protocolVersion := h.protocolVersion, serverVersion := h.serverVersion,
                                 connection := h.connection, scramble := h.scramble,
                                 capabilities := low + high * 0x1_0000,
                                 collation := h.collation, status := h.status)
    ensures Reads(GreetingHeadAt(d, s, start), h, r + 8)
  {
  }

  /** The plugin data length, the reserved bytes and the extended capability word. */
  method ParseTailCapabilities(packet: Packet, h: HandshakeRequest) returns (hsr: HandshakeRequest)
    requires packet.pos >= 0
    requires TailCapabilitiesAt(packet.payload, h, Has(h.capabilities, PLUGIN_AUTH), Has(h.capabilities, MYSQL), packet.pos).Some?
    modifies packet`pos
    ensures Reads(TailCapabilitiesAt(packet.payload, h, Has(h.capabilities, PLUGIN_AUTH), Has(h.capabilities, MYSQL), old(packet.pos)),
                  hsr, packet.pos)
  {
    ghost var s, start := packet.payload, packet.pos;
    var plugin, mysql := Has(h.capabilities, PLUGIN_AUTH), Has(h.capabilities, MYSQL);
    var pluginDataLength := 0;
    if plugin {
      pluginDataLength := packet.ReadUInt8();
    } else {
      packet.Skip(1);
    }
    assert Reads(if plugin then TakeU8(s, start) else Some((0, start + 1)), pluginDataLength, packet.pos);
    ghost var q := packet.pos;
    packet.Skip(6);
    var ext := 0;
    if mysql {
      packet.Skip(4);
    } else {
      ext := packet.ReadUInt32();
      assert Reads(TakeLE(s, q + 6, 4), ext, packet.pos);
    }
    hsr := h.(pluginDataLength := pluginDataLength, capabilities := h.capabilities + ext * 0x1_0000_0000);
  }

  /** The second part of the scramble, when the server announces secure connections. */
  method ParseTailScramble(packet: Packet, h: HandshakeRequest) returns (hsr: HandshakeRequest)
    requires packet.pos >= 0
    modifies packet`pos
    ensures TailScrambleAt(packet.dialect, packet.payload, h, Has(h.capabilities, SECURE_CONNECTION), old(packet.pos))
            == (hsr, packet.pos)
  {
    hsr := h;
    if Has(hsr.capabilities, SECURE_CONNECTION) {
      var scramble2 := packet.ReadBytes(Scramble2Length(hsr.pluginDataLength));
      hsr := hsr.(scramble := hsr.scramble + scramble2);
      packet.Skip(1);
    }
  }

  /** The authentication plugin name, when the server announces plugin authentication. */
  method ParsePluginName(packet: Packet, h: HandshakeRequest) returns (hsr: HandshakeRequest)
    requires packet.pos >= 0
    requires TailPluginNameAt(packet.payload, h, Has(h.capabilities, PLUGIN_AUTH), packet.pos).Some?
    modifies packet`pos
    ensures Reads(TailPluginNameAt(packet.payload, h, Has(h.capabilities, PLUGIN_AUTH), old(packet.pos)), hsr, packet.pos)
  {
    hsr := h;
    if Has(hsr.capabilities, PLUGIN_AUTH) {
      var pluginName := packet.ReadStringNullEnded();
      hsr := hsr.(pluginName := pluginName);
    }
  }

  /**
    A framed Handshake Response Packet as the client leaves it: the header
    holds the body length and sequence number 1, the body follows, the
    cursor is at 0 and the direction field keeps its zero value, Incoming.
  */
  predicate IsResponse(p: Packet, body: seq<byte>)
    reads p
  {
    && p.hasHeader && p.direction == Incoming && p.pos == 0
    && |p.payload| == 4 + |body| && p.payload[4..] == body
    && FromLE(p.payload[..3]) == |body| && p.payload[3] == 1
  }

  /**
    `createHandshakeResponsePacket(hsreq, config, info)`: negotiates the
    client mask, picks the auth token by the server's plugin (any other
    plugin panics, hence the first precondition), writes the response body
    field by field and frames it with sequence number 1. The mask stored
    into `info.clientCapabilities` is returned.
  */
  method CreateHandshakeResponsePacket(d: Dialect, hsreq: HandshakeRequest, config: Config, sha1: Sha1)
      returns (packet: Packet, clientCapabilities: nat)
    requires AuthToken(hsreq.pluginName, config.password, hsreq.scramble, sha1).Some?
    requires |ResponseBody(hsreq, config, sha1).value| < 0x100_0000
    ensures fresh(packet) && packet.dialect == d
    ensures clientCapabilities == ClientCapabilities(hsreq.capabilities, config.database)
    ensures IsResponse(packet, ResponseBody(hsreq, config, sha1).value)
  {
    clientCapabilities := NegotiateCapabilities(hsreq.capabilities, config.database);
    var authToken, authPlugin := PickAuthToken(hsreq.pluginName, config.password, hsreq.scramble, sha1);
    ghost var body := ResponseBody(hsreq, config, sha1).value;
    ResponseBodyParts(hsreq, config, sha1, clientCapabilities, authToken);

    packet := new Packet(d);
    packet.WriteEmptyHeader();
    WriteResponseBody(packet, hsreq, config, clientCapabilities, authToken, authPlugin);
    assert packet.payload == Zeros(4) + body && packet.hasHeader;
    assert (|packet.payload| - 4) % 0x1_0000_0000 == |body|;
    packet.UpdateHeader();
    assert packet.payload == WithLength(Zeros(4) + body);
    packet.SetSequence(1);
    assert packet.payload == WithLength(Zeros(4) + body)[3 := 1];
    FramedBody(body, 1);
  }

  /** The client mask: DEFAULT, plus what the server offers of PLUGIN_AUTH and CONNECT_WITH_DB. */
  method NegotiateCapabilities(server: nat, database: seq<byte>) returns (clientCapabilities: nat)
    ensures clientCapabilities == ClientCapabilities(server, database)
  {
    clientCapabilities := DEFAULT;
    if Has(server, PLUGIN_AUTH) {
      clientCapabilities := Set(clientCapabilities, PLUGIN_AUTH);
    }
    if database != [] && Has(server, CONNECT_WITH_DB) {
      clientCapabilities := Set(clientCapabilities, CONNECT_WITH_DB);
    }
  }

  /** The switch on the server's plugin name; any other name panics. */
  method PickAuthToken(pluginName: seq<byte>, password: seq<byte>, scramble: seq<byte>, sha1: Sha1)
      returns (authToken: seq<byte>, authPlugin: seq<byte>)
    requires AuthToken(pluginName, password, scramble, sha1).Some?
    ensures AuthToken(pluginName, password, scramble, sha1) == Some(authToken)
    ensures authPlugin == pluginName
  {
    if pluginName == CLEAR_PASSWORD {
      authToken := password;
      authPlugin := pluginName;
    } else {
      assert pluginName == NATIVE_PASSWORD;
      authToken := HashPassword(password, scramble, sha1);
      authPlugin := pluginName;
    }
  }

  /** The reference layout in terms of the negotiated mask and the chosen token. */
  lemma ResponseBodyParts(h: HandshakeRequest, c: Config, sha1: Sha1, caps: nat, token: seq<byte>)
    requires caps == ClientCapabilities(h.capabilities, c.database)
    requires AuthToken(h.pluginName, c.password, h.scramble, sha1) == Some(token)
    ensures ResponseBody(h, c, sha1)
            == Some(ResponseFixed(caps, h.collation)
                    + (ResponseIdentity(c.username, TokenField(h.capabilities, h.pluginDataLength, token))
                    + ResponseTrailer(caps, h.capabilities, c.database, h.pluginName)))
  {
  }

  /** The body of the response after the header, written field by field. */
  method WriteResponseBody(packet: Packet, hsreq: HandshakeRequest, config: Config, clientCapabilities: nat,
                           authToken: seq<byte>, authPlugin: seq<byte>)
    requires clientCapabilities < 0x1_0000_0000_0000_0000 && |authToken| < 0x1_0000_0000_0000_0000
    modifies packet`payload
    ensures packet.payload == old(packet.payload)
              + (ResponseFixed(clientCapabilities, hsreq.collation)
              + (ResponseIdentity(config.username, TokenField(hsreq.capabilities, hsreq.pluginDataLength, authToken))
              + ResponseTrailer(clientCapabilities, hsreq.capabilities, config.database, authPlugin)))
  {
    ghost var start := packet.payload;
    ghost var fixed := ResponseFixed(clientCapabilities, hsreq.collation);
    ghost var identity := ResponseIdentity(config.username, TokenField(hsreq.capabilities, hsreq.pluginDataLength, authToken));
    ghost var trailer := ResponseTrailer(clientCapabilities, hsreq.capabilities, config.database, authPlugin);
    WriteFixed(packet, clientCapabilities, hsreq.collation);
    WriteIdentity(packet, config.username, hsreq.capabilities, hsreq.pluginDataLength, authToken);
    WriteTrailer(packet, clientCapabilities, hsreq.capabilities, config.database, authPlugin);
    assert packet.payload == start + fixed + identity + trailer;
    assert start + fixed + identity + trailer == start + (fixed + (identity + trailer));
  }

  /** The user name with its terminator, then the auth-data field. */
  method WriteIdentity(packet: Packet, username: seq<byte>, server: nat, pluginDataLength: byte, authToken: seq<byte>)
    requires |authToken| < 0x1_0000_0000_0000_0000
    modifies packet`payload
    ensures packet.payload == old(packet.payload) + ResponseIdentity(username, TokenField(server, pluginDataLength, authToken))
  {
    ghost var start := packet.payload;
    packet.WriteBytes(username);
    packet.WriteUInt8(0);
    assert packet.payload == start + (username + [0]);
    WriteTokenField(packet, server, pluginDataLength, authToken);
    assert packet.payload == start + (username + [0]) + TokenField(server, pluginDataLength, authToken);
  }

  /** Framing a body and then setting the sequence number leaves the body and the length intact. */
  lemma FramedBody(body: seq<byte>, sequence: byte)
    requires |body| < 0x100_0000
    ensures var framed := WithLength(Zeros(4) + body)[3 := sequence];
            && |framed| == 4 + |body| && framed[4..] == body
            && FromLE(framed[..3]) == |body| && framed[3] == sequence
  {
    var s := Zeros(4) + body;
    WithLengthProperties(s);
    var framed := WithLength(s)[3 := sequence];
    assert framed[..3] == WithLength(s)[..3];
    assert framed[4..] == WithLength(s)[4..] == s[4..] == body;
  }

  /** The reserved filler: n zero bytes written one at a time. */
  method WriteZeros(packet: Packet, n: nat)
    modifies packet`payload
    ensures packet.payload == old(packet.payload) + Zeros(n)
  {
    ghost var before := packet.payload;
    for i := 0 to n
      invariant packet.payload == before + Zeros(i)
    {
      packet.WriteUInt8(0);
      assert Zeros(i) + [0] == Zeros(i + 1);
    }
  }

  /** The fixed 32 bytes: mask low word, max packet size, collation, 19 zeros, mask high word. */
  method WriteFixed(packet: Packet, clientCapabilities: nat, collation: byte)
    requires clientCapabilities < 0x1_0000_0000_0000_0000
    modifies packet`payload
    ensures packet.payload == old(packet.payload) + ResponseFixed(clientCapabilities, collation)
  {
    ghost var start := packet.payload;
    var low, high := clientCapabilities % 0x1_0000_0000, clientCapabilities / 0x1_0000_0000;
    packet.WriteUInt32(low);
    packet.WriteUInt32(MAX_PACKET_SIZE);
    packet.WriteUInt8(collation);
    WriteZeros(packet, 19);
    packet.WriteUInt32(high);
    assert packet.payload == start + (LE(low, 4) + (LE(MAX_PACKET_SIZE, 4) + ([collation] + (Zeros(19) + LE(high, 4)))));
  }

  /** The auth-data field, in the encoding the server's flags select. */
  method WriteTokenField(packet: Packet, server: nat, pluginDataLength: byte, authToken: seq<byte>)
    requires |authToken| < 0x1_0000_0000_0000_0000
    modifies packet`payload
    ensures packet.payload == old(packet.payload) + TokenField(server, pluginDataLength, authToken)
  {
    ghost var start := packet.payload;
    if Has(server, PLUGIN_AUTH_LENENC_CLIENT_DATA) {
      packet.WriteLengthEncoded(|authToken|);
      packet.WriteBytes(authToken);
      assert packet.payload == start + (LenEnc(|authToken|) + authToken);
    } else if Has(server, SECURE_CONNECTION) {
      packet.WriteUInt8(pluginDataLength);
      packet.WriteBytes(authToken);
      assert packet.payload == start + ([pluginDataLength] + authToken);
    } else {
      packet.WriteBytes(authToken);
      packet.WriteUInt8(0);
      assert packet.payload == start + (authToken + [0]);
    }
  }

  /** The database, the plugin name and the empty attribute block, each when its flag is set. */
  method WriteTrailer(packet: Packet, clientCapabilities: nat, server: nat, database: seq<byte>, authPlugin: seq<byte>)
    modifies packet`payload
    ensures packet.payload == old(packet.payload) + ResponseTrailer(clientCapabilities, server, database, authPlugin)
  {
    ghost var start := packet.payload;
    if Has(clientCapabilities, CONNECT_WITH_DB) {
      packet.WriteBytes(database);
      packet.WriteUInt8(0);
    }
    ghost var databasePart := if Has(clientCapabilities, CONNECT_WITH_DB) then database + [0] else [];
    assert packet.payload == start + databasePart;
    if Has(server, PLUGIN_AUTH) {
      packet.WriteBytes(authPlugin);
      packet.WriteUInt8(0);
    }
    ghost var pluginPart := if Has(server, PLUGIN_AUTH) then authPlugin + [0] else [];
    assert packet.payload == start + databasePart + pluginPart;
    if Has(server, CONNECT_ATTRS) {
      packet.WriteUInt8(0);
    }
    ghost var attrsPart: seq<byte> := if Has(server, CONNECT_ATTRS) then [0] else [];
    assert packet.payload == start + databasePart + pluginPart + attrsPart;
    assert databasePart + pluginPart + attrsPart == databasePart + (pluginPart + attrsPart);
  }
}
