/**
  The connection phase as both client packages carry it out: the Initial
  Handshake Packet a server sends and the client's reading of it, the
  capability mask the client answers with, the auth token, and the
  Handshake Response Packet with a server's reading of it.
*/
module ConnectionPhase {
  import opened Bytes
  import opened Wire
  import opened Capabilities

  // ---------------------------------------------------------------------
  // Initial Handshake Packet.

  /** The fields `parseHandshakeRequest` fills in (mariadb/handshake.go:11-22). */
  datatype HandshakeRequest = HandshakeRequest(
    protocolVersion: byte,
    serverVersion: seq<byte>,
    connection: nat,
    scramble: seq<byte>,
    capabilities: nat,
    collation: byte,
    status: nat,
    pluginDataLength: byte,
    pluginName: seq<byte>)

  /** The zero value `&HandshakeRequest{}` the parser starts from. */
  const EMPTY_REQUEST := HandshakeRequest(0, [], 0, [], 0, 0, 0, 0, [])

  /** `int(math.Max(12, float64(pluginDataLength) - 9))`: the length of the second scramble part. */
  function Scramble2Length(pld: byte): (n: nat)
    ensures n >= 12 && n >= pld - 9 && (n == 12 || n == pld - 9)
  {
    if pld - 9 > 12 then pld - 9 else 12
  }

  /**
    The client's reading of the fixed-size start of a greeting whose body
    starts at `start`: protocol version, NUL-ended server version, 4-byte
    connection id, 8 scramble bytes, a filler byte, the low capability half,
    the collation, the status and the high capability half. The result is
    the request filled so far and the cursor after it; None where a read
    panics.
  */
  function GreetingHeadAt(d: Dialect, s: seq<byte>, start: nat): Option<(HandshakeRequest, nat)>
  {
    var protocol :- TakeU8(s, start);
    var version :- TakeNulString(s, protocol.1);
    var conn :- TakeLE(s, version.1, 4);
    var scramble1 := TakeBytes(d, s, conn.1, 8);
    var low :- TakeLE(s, scramble1.1 + 1, 2);
    var collation :- TakeU8(s, low.1);
    var status :- TakeLE(s, collation.1, 2);
    var high :- TakeLE(s, status.1, 2);
    Some((EMPTY_REQUEST.(protocolVersion := protocol.0, serverVersion := version.0,
                         connection := conn.0, scramble := scramble1.0,
                         capabilities := low.0 + high.0 * 0x1_0000,
                         collation := collation.0, status := status.0), high.1))
  }

  /**
    The rest of the greeting, read from cursor p after the head h: the
    plugin data length and the extended capabilities, then the second
    scramble part and the plugin name.
  */
  function GreetingTailAt(d: Dialect, s: seq<byte>, h: HandshakeRequest, p: nat): Option<(HandshakeRequest, nat)>
  {
    var caps :- TailCapabilitiesAt(s, h, Has(h.capabilities, PLUGIN_AUTH), Has(h.capabilities, MYSQL), p);
    var scramble := TailScrambleAt(d, s, caps.0, Has(caps.0.capabilities, SECURE_CONNECTION), caps.1);
    TailPluginNameAt(s, scramble.0, Has(scramble.0.capabilities, PLUGIN_AUTH), scramble.1)
  }

  /**
    From cursor p, given the PLUGIN_AUTH and MYSQL bits of the low
    capability word read so far: the plugin data length (only with
    PLUGIN_AUTH, else one byte skipped), 6 reserved bytes, then either 4
    skipped bytes (MYSQL bit set) or the extended capability word, which is
    added to the mask as its high 32 bits.
  */
  function TailCapabilitiesAt(s: seq<byte>, h: HandshakeRequest, plugin: bool, mysql: bool, p: nat): Option<(HandshakeRequest, nat)>
  {
    var pld :- if plugin then TakeU8(s, p) else Some((0, p + 1));
    var ext :- if mysql then Some((0, pld.1 + 10)) else TakeLE(s, pld.1 + 6, 4);
    Some((h.(pluginDataLength := pld.0, capabilities := h.capabilities + ext.0 * 0x1_0000_0000), ext.1))
  }

  /**
    From cursor p, given the SECURE_CONNECTION bit of the whole mask: the
    second scramble part, as long as the plugin data length announces,
    appended to the scramble, and its filler skipped.
  */
  function TailScrambleAt(d: Dialect, s: seq<byte>, h: HandshakeRequest, secure: bool, p: nat): (HandshakeRequest, nat)
  {
    if secure then
      var scramble2 := TakeBytes(d, s, p, Scramble2Length(h.pluginDataLength));
      (h.(scramble := h.scramble + scramble2.0), scramble2.1 + 1)
    else (h, p)
  }

  /** From cursor p, given the PLUGIN_AUTH bit of the whole mask: the plugin name. */
  function TailPluginNameAt(s: seq<byte>, h: HandshakeRequest, plugin: bool, p: nat): Option<(HandshakeRequest, nat)>
  {
    if plugin then
      var name :- TakeNulString(s, p);
      Some((h.(pluginName := name.0), name.1))
    else Some((h, p))
  }

  /** The client's reading of a whole greeting: the request and the cursor after it. */
  function GreetingAt(d: Dialect, s: seq<byte>, start: nat): (r: Option<(HandshakeRequest, nat)>)
  {
    var head :- GreetingHeadAt(d, s, start);
    GreetingTailAt(d, s, head.0, head.1)
  }

  /**
    What every successful reading guarantees: the capability mask fits in 64
    bits (in 32 when the MYSQL bit is set, since the extended word is then
    skipped); without PLUGIN_AUTH the plugin data length stays 0 and the
    plugin name empty; the scramble holds at most the 8-byte first part and
    the announced second part, and in the MariaDB package always the whole
    first part (the MySQL copy's stricter readBytes can drop it when the
    greeting ends right after the capability halves); the server version
    holds no zero byte.
  */
  lemma GreetingAtFacts(d: Dialect, s: seq<byte>, start: nat)
    requires GreetingAt(d, s, start).Some?
    ensures var h := GreetingAt(d, s, start).value.0;
            && h.capabilities < 0x1_0000_0000_0000_0000
            && (Has(h.capabilities, MYSQL) ==> h.capabilities < 0x1_0000_0000)
            && (!Has(h.capabilities, PLUGIN_AUTH) ==> h.pluginDataLength == 0 && h.pluginName == [])
            && |h.scramble| <= 8 + (if Has(h.capabilities, SECURE_CONNECTION) then Scramble2Length(h.pluginDataLength) else 0)
            && (d == MariaDB ==> 8 <= |h.scramble|)
            && 0 !in h.serverVersion
  {
    var head := GreetingHeadAt(d, s, start).value;
    GreetingHeadFacts(d, s, start);
    GreetingTailFacts(d, s, head.0, head.1);
  }

  /** A greeting starts with its protocol version byte and ends past it. */
  lemma GreetingAtStart(d: Dialect, s: seq<byte>, start: nat)
    requires GreetingAt(d, s, start).Some?
    ensures start < |s| && GreetingAt(d, s, start).value.0.protocolVersion == s[start]
    ensures GreetingAt(d, s, start).value.1 > start
  {
    var head := GreetingHeadAt(d, s, start).value;
    assert start < |s| && head.0.protocolVersion == s[start] && head.1 > start;
    TailKeepsProtocol(d, s, head.0, head.1);
  }

  /** The flag-driven tail keeps the protocol version and never moves the cursor back. */
  lemma TailKeepsProtocol(d: Dialect, s: seq<byte>, h: HandshakeRequest, p: nat)
    requires GreetingTailAt(d, s, h, p).Some?
    ensures GreetingTailAt(d, s, h, p).value.0.protocolVersion == h.protocolVersion
    ensures GreetingTailAt(d, s, h, p).value.1 >= p
  {
  }

  lemma GreetingHeadFacts(d: Dialect, s: seq<byte>, start: nat)
    requires GreetingHeadAt(d, s, start).Some?
    ensures var h := GreetingHeadAt(d, s, start).value.0;
            && h.capabilities < 0x1_0000_0000 && 0 !in h.serverVersion
            && |h.scramble| <= 8 && (d == MariaDB ==> |h.scramble| == 8)
            && h.pluginDataLength == 0 && h.pluginName == []
  {
    var protocol := TakeU8(s, start).value;
    var version := TakeNulString(s, protocol.1).value;
    var conn := TakeLE(s, version.1, 4).value;
    var scramble1 := TakeBytes(d, s, conn.1, 8);
    var low := TakeLE(s, scramble1.1 + 1, 2).value;
    var collation := TakeU8(s, low.1).value;
    var status := TakeLE(s, collation.1, 2).value;
    var high := TakeLE(s, status.1, 2).value;
    assert high.1 == scramble1.1 + 8 <= |s|;
    TakeNulStringNoZero(s, protocol.1);
  }

  lemma GreetingTailFacts(d: Dialect, s: seq<byte>, h0: HandshakeRequest, p: nat)
    requires GreetingTailAt(d, s, h0, p).Some?
    requires h0.capabilities < 0x1_0000_0000 && h0.pluginDataLength == 0 && h0.pluginName == []
    ensures var h := GreetingTailAt(d, s, h0, p).value.0;
            && h.capabilities < 0x1_0000_0000_0000_0000
            && (Has(h.capabilities, MYSQL) ==> h.capabilities < 0x1_0000_0000)
            && (!Has(h.capabilities, PLUGIN_AUTH) ==> h.pluginDataLength == 0 && h.pluginName == [])
            && |h0.scramble| <= |h.scramble| <= |h0.scramble| + (if Has(h.capabilities, SECURE_CONNECTION) then Scramble2Length(h.pluginDataLength) else 0)
            && h.serverVersion == h0.serverVersion
  {
    var c0 := h0.capabilities;
    var plugin, mysql := Has(c0, PLUGIN_AUTH), Has(c0, MYSQL);
    var caps := TailCapabilitiesAt(s, h0, plugin, mysql, p).value;
    var h1 := caps.0;
    var e := (h1.capabilities - c0) / 0x1_0000_0000;
    assert h1.capabilities == c0 + e * 0x1_0000_0000 && e < 0x1_0000_0000 && (mysql ==> e == 0) by {
      var pld := if plugin then TakeU8(s, p) else Some((0, p + 1));
      var ext := if mysql then Some((0, pld.value.1 + 10)) else TakeLE(s, pld.value.1 + 6, 4);
      assert h1.capabilities == c0 + ext.value.0 * 0x1_0000_0000;
      ModUnique(h1.capabilities - c0, 0x1_0000_0000, ext.value.0, 0);
    }
    assert h1.capabilities < 0x1_0000_0000 * 0x1_0000_0000;
    HasLowFlag(c0, e, PLUGIN_AUTH);
    HasLowFlag(c0, e, MYSQL);
    var scramble := TailScrambleAt(d, s, h1, Has(h1.capabilities, SECURE_CONNECTION), caps.1);
    TailPluginNameFacts(s, scramble.0, Has(h1.capabilities, PLUGIN_AUTH), scramble.1);
  }

  /** Reading the plugin name changes nothing else, and nothing at all without PLUGIN_AUTH. */
  lemma TailPluginNameFacts(s: seq<byte>, h: HandshakeRequest, plugin: bool, p: nat)
    requires TailPluginNameAt(s, h, plugin, p).Some?
    ensures var r := TailPluginNameAt(s, h, plugin, p).value.0;
            r == h.(pluginName := r.pluginName) && (!plugin ==> r == h)
  {
  }

  /** The requests a server can describe in the documented greeting layout. */
  predicate WellFormedGreeting(h: HandshakeRequest)
  {
    && 0 !in h.serverVersion
    && h.connection < 0x1_0000_0000
    && h.status < 0x1_0000
    && h.capabilities < 0x1_0000_0000_0000_0000
    && (Has(h.capabilities, MYSQL) ==> h.capabilities < 0x1_0000_0000)
    && (Has(h.capabilities, PLUGIN_AUTH) ==> 0 !in h.pluginName)
    && (!Has(h.capabilities, PLUGIN_AUTH) ==> h.pluginDataLength == 0 && h.pluginName == [])
    && |h.scramble| == 8 + if Has(h.capabilities, SECURE_CONNECTION) then Scramble2Length(h.pluginDataLength) else 0
  }

  /** The first scramble part: the first 8 bytes of the scramble. */
  function ScramblePart1(scramble: seq<byte>): seq<byte>
  {
    if |scramble| <= 8 then scramble else scramble[..8]
  }

  /** The second scramble part: what follows the first 8 bytes. */
  function ScramblePart2(scramble: seq<byte>): seq<byte>
  {
    if |scramble| <= 8 then [] else scramble[8..]
  }

  /** What the reading of the head recovers of a request h. */
  function HeadOf(h: HandshakeRequest): HandshakeRequest
  {
    EMPTY_REQUEST.(protocolVersion := h.protocolVersion, serverVersion := h.serverVersion,
                   connection := h.connection, scramble := ScramblePart1(h.scramble),
                   capabilities := h.capabilities % 0x1_0000_0000,
                   collation := h.collation, status := h.status)
  }

  /** The fixed-size start of a greeting, up to the high capability half. */
  function GreetingHead(h: HandshakeRequest): seq<byte>
  {
    [h.protocolVersion] + (h.serverVersion + [0] + GreetingHeadRest(h))
  }

  /** The connection id, the first scramble part and its filler, then the capability fields. */
  function GreetingHeadRest(h: HandshakeRequest): seq<byte>
  {
    LE(h.connection, 4) + (ScramblePart1(h.scramble) + [0] + GreetingHeadCaps(h))
  }

  /** The low capability half, the collation, the status and the high capability half. */
  function GreetingHeadCaps(h: HandshakeRequest): seq<byte>
  {
    LE(h.capabilities, 2) + ([h.collation] + (LE(h.status, 2) + LE(h.capabilities / 0x1_0000, 2)))
  }

  /**
    The rest: the plugin data length byte, 6 reserved bytes, the extended
    capability word (zeros when the MYSQL bit is set), the second scramble
    part with its filler, then the plugin name.
  */
  function GreetingTail(h: HandshakeRequest): seq<byte>
  {
    var c := h.capabilities;
    TailCapabilitiesBytes(Has(c, PLUGIN_AUTH), Has(c, MYSQL), h.pluginDataLength, c / 0x1_0000_0000)
    + TailAuthBytes(Has(c, SECURE_CONNECTION), Has(c, PLUGIN_AUTH), ScramblePart2(h.scramble), h.pluginName)
  }

  /** The plugin data length byte (0 without PLUGIN_AUTH), 6 reserved bytes and the extended word e. */
  function TailCapabilitiesBytes(plugin: bool, mysql: bool, pld: byte, e: nat): seq<byte>
  {
    [if plugin then pld else 0] + (Zeros(6) + (if mysql then Zeros(4) else LE(e, 4)))
  }

  /** The second scramble part x with its filler, then the plugin name with its terminator. */
  function TailAuthBytes(secure: bool, plugin: bool, x: seq<byte>, name: seq<byte>): seq<byte>
  {
    (if secure then x + [0] else []) + (if plugin then name + [0] else [])
  }

  /** The greeting body a server sends for h. */
  function GreetingBytes(h: HandshakeRequest): seq<byte>
  {
    GreetingHead(h) + GreetingTail(h)
  }

  /** The low 32 bits of a mask split into the two 16-bit halves the greeting carries. */
  lemma LowWord(c: nat)
    ensures c % 0x1_0000 + ((c / 0x1_0000) % 0x1_0000) * 0x1_0000 == c % 0x1_0000_0000
    ensures c == c % 0x1_0000_0000 + (c / 0x1_0000_0000) * 0x1_0000_0000
  {
    ModSplit(c, 0x1_0000, 0x1_0000);
  }

  /** The head reading in terms of its individual steps. */
  lemma GreetingHeadSteps(d: Dialect, s: seq<byte>, start: nat, h: HandshakeRequest, p: nat)
    requires Reads(TakeU8(s, start), h.protocolVersion, start + 1)
    requires Reads(TakeNulString(s, start + 1), h.serverVersion, p)
    requires Reads(TakeLE(s, p, 4), h.connection, p + 4)
    requires TakeBytes(d, s, p + 4, 8).0 == ScramblePart1(h.scramble) && TakeBytes(d, s, p + 4, 8).1 == p + 12
    requires Reads(TakeLE(s, p + 13, 2), h.capabilities % 0x1_0000, p + 15)
    requires Reads(TakeU8(s, p + 15), h.collation, p + 16)
    requires Reads(TakeLE(s, p + 16, 2), h.status, p + 18)
    requires Reads(TakeLE(s, p + 18, 2), (h.capabilities / 0x1_0000) % 0x1_0000, p + 20)
    ensures Reads(GreetingHeadAt(d, s, start), HeadOf(h), p + 20)
  {
    LowWord(h.capabilities);
  }

  /** The start of a well-formed greeting, laid out at p, is read back field by field. */
  lemma GreetingHeadRead(d: Dialect, s: seq<byte>, p: nat, h: HandshakeRequest)
    requires WellFormedGreeting(h)
    requires At(s, p, GreetingHead(h))
    ensures Reads(GreetingHeadAt(d, s, p), HeadOf(h), p + |GreetingHead(h)|)
  {
    var q := p + 1 + |h.serverVersion| + 1;
    assert GreetingHead(h) == [h.protocolVersion] + (h.serverVersion + [0]) + GreetingHeadRest(h);
    AtSplit(s, p, [h.protocolVersion] + (h.serverVersion + [0]), GreetingHeadRest(h));
    HeadIdentityRead(s, p, h);
    HeadScrambleRead(d, s, q, h);
    HeadCapabilitiesRead(s, q + 13, h);
    GreetingHeadSteps(d, s, p, h, q);
  }

  /** The protocol version and the NUL-ended server version, laid out at p. */
  lemma HeadIdentityRead(s: seq<byte>, p: nat, h: HandshakeRequest)
    requires 0 !in h.serverVersion
    requires At(s, p, [h.protocolVersion] + (h.serverVersion + [0]))
    ensures Reads(TakeU8(s, p), h.protocolVersion, p + 1)
    ensures Reads(TakeNulString(s, p + 1), h.serverVersion, p + 1 + |h.serverVersion| + 1)
  {
    AtSplit(s, p, [h.protocolVersion], h.serverVersion + [0]);
    TakeU8At(s, p, h.protocolVersion);
    TakeNulStringAt(s, p + 1, h.serverVersion);
  }

  /** The connection id and the first scramble part with its filler, laid out at p. */
  lemma HeadScrambleRead(d: Dialect, s: seq<byte>, p: nat, h: HandshakeRequest)
    requires h.connection < 0x1_0000_0000 && |h.scramble| >= 8
    requires At(s, p, GreetingHeadRest(h))
    ensures Reads(TakeLE(s, p, 4), h.connection, p + 4)
    ensures TakeBytes(d, s, p + 4, 8).0 == ScramblePart1(h.scramble) && TakeBytes(d, s, p + 4, 8).1 == p + 12
    ensures At(s, p + 13, GreetingHeadCaps(h))
  {
    var first := ScramblePart1(h.scramble);
    assert Pow256(4) == 0x1_0000_0000;
    AtSplit(s, p, LE(h.connection, 4), first + [0] + GreetingHeadCaps(h));
    TakeLEAt(s, p, h.connection, 4);
    AtSplit(s, p + 4, first + [0], GreetingHeadCaps(h));
    AtSplit(s, p + 4, first, [0]);
    TakeBytesAt(d, s, p + 4, first);
  }

  /** The low capability half, collation, status and high capability half, laid out at p. */
  lemma HeadCapabilitiesRead(s: seq<byte>, p: nat, h: HandshakeRequest)
    requires h.status < 0x1_0000
    requires At(s, p, GreetingHeadCaps(h))
    ensures Reads(TakeLE(s, p, 2), h.capabilities % 0x1_0000, p + 2)
    ensures Reads(TakeU8(s, p + 2), h.collation, p + 3)
    ensures Reads(TakeLE(s, p + 3, 2), h.status, p + 5)
    ensures Reads(TakeLE(s, p + 5, 2), (h.capabilities / 0x1_0000) % 0x1_0000, p + 7)
  {
    var c := h.capabilities;
    var r7 := LE(c / 0x1_0000, 2);
    var r6 := LE(h.status, 2) + r7;
    var r5 := [h.collation] + r6;
    assert Pow256(2) == 0x1_0000;
    AtSplit(s, p, LE(c, 2), r5);
    TakeLEAt(s, p, c, 2);
    AtSplit(s, p + 2, [h.collation], r6);
    TakeU8At(s, p + 2, h.collation);
    AtSplit(s, p + 3, LE(h.status, 2), r7);
    TakeLEAt(s, p + 3, h.status, 2);
    TakeLEAt(s, p + 5, c / 0x1_0000, 2);
  }

  /**
    The rest of a well-formed greeting, laid out at p, completes the head
    reading HeadOf(h) into the whole request.
  */
  lemma GreetingTailRead(d: Dialect, s: seq<byte>, p: nat, h: HandshakeRequest)
    requires WellFormedGreeting(h)
    requires At(s, p, GreetingTail(h))
    ensures Reads(GreetingTailAt(d, s, HeadOf(h), p), h, p + |GreetingTail(h)|)
  {
    HeadOfCompleted(h);
    TailReadParts(d, s, p, HeadOf(h), h.capabilities, h.pluginDataLength, ScramblePart2(h.scramble), h.pluginName);
  }

  /**
    The tail laid out at p for the mask c, the plugin data length pld, the
    second scramble part x and the plugin name y completes the head reading
    h0 (whose mask is the low word of c) with exactly these values.
  */
  lemma TailReadParts(d: Dialect, s: seq<byte>, p: nat, h0: HandshakeRequest, c: nat, pld: byte, x: seq<byte>, y: seq<byte>)
    requires h0.capabilities == c % 0x1_0000_0000 && h0.pluginName == []
    requires c < 0x1_0000_0000_0000_0000 && (Has(c, MYSQL) ==> c < 0x1_0000_0000)
    requires Has(c, PLUGIN_AUTH) ==> 0 !in y
    requires !Has(c, PLUGIN_AUTH) ==> pld == 0 && y == []
    requires Has(c, SECURE_CONNECTION) ==> |x| == Scramble2Length(pld)
    requires !Has(c, SECURE_CONNECTION) ==> x == []
    requires At(s, p, TailCapabilitiesBytes(Has(c, PLUGIN_AUTH), Has(c, MYSQL), pld, c / 0x1_0000_0000)
                      + TailAuthBytes(Has(c, SECURE_CONNECTION), Has(c, PLUGIN_AUTH), x, y))
    ensures Reads(GreetingTailAt(d, s, h0, p),
                  h0.(pluginDataLength := pld, capabilities := c).(scramble := h0.scramble + x).(pluginName := y),
                  p + 11 + |TailAuthBytes(Has(c, SECURE_CONNECTION), Has(c, PLUGIN_AUTH), x, y)|)
  {
    var plugin, mysql, secure := Has(c, PLUGIN_AUTH), Has(c, MYSQL), Has(c, SECURE_CONNECTION);
    var e := c / 0x1_0000_0000;
    assert && Has(h0.capabilities, PLUGIN_AUTH) == plugin && Has(h0.capabilities, MYSQL) == mysql
           && h0.capabilities + e * 0x1_0000_0000 == c && e < 0x1_0000_0000 && (mysql ==> e == 0) by {
      TailFlags(c);
    }
    var h1 := h0.(pluginDataLength := pld, capabilities := c);
    TailReadFlags(d, s, p, h0, plugin, mysql, secure, pld, e, x, y);
    var h2 := h1.(scramble := h1.scramble + x);
    GreetingTailSteps(d, s, h0, p, plugin, mysql, secure, plugin, h1, p + 11, h2, p + 11 + (if secure then |x| + 1 else 0),
                      h2.(pluginName := y), p + 11 + |TailAuthBytes(secure, plugin, x, y)|);
  }

  /** TailReadParts with the three flags of the mask given as booleans and its high word as e. */
  lemma TailReadFlags(d: Dialect, s: seq<byte>, p: nat, h0: HandshakeRequest, plugin: bool, mysql: bool, secure: bool,
                      pld: byte, e: nat, x: seq<byte>, y: seq<byte>)
    requires h0.pluginName == [] && e < 0x1_0000_0000 && (mysql ==> e == 0)
    requires plugin ==> 0 !in y
    requires !plugin ==> pld == 0 && y == []
    requires secure ==> |x| == Scramble2Length(pld)
    requires !secure ==> x == []
    requires At(s, p, TailCapabilitiesBytes(plugin, mysql, pld, e) + TailAuthBytes(secure, plugin, x, y))
    ensures var h1 := h0.(pluginDataLength := pld, capabilities := h0.capabilities + e * 0x1_0000_0000);
            var r := p + 11 + (if secure then |x| + 1 else 0);
            && Reads(TailCapabilitiesAt(s, h0, plugin, mysql, p), h1, p + 11)
            && TailScrambleAt(d, s, h1, secure, p + 11) == (h1.(scramble := h1.scramble + x), r)
            && Reads(TailPluginNameAt(s, h1.(scramble := h1.scramble + x), plugin, r),
                     h1.(scramble := h1.scramble + x).(pluginName := y), p + 11 + |TailAuthBytes(secure, plugin, x, y)|)
  {
    AtSplit(s, p, TailCapabilitiesBytes(plugin, mysql, pld, e), TailAuthBytes(secure, plugin, x, y));
    TailCapabilitiesRead(s, p, h0, plugin, mysql, pld, e);
    TailAuthRead(d, s, p + 11, h0.(pluginDataLength := pld, capabilities := h0.capabilities + e * 0x1_0000_0000), secure, plugin, x, y);
  }

  /** The second scramble part and the plugin name, laid out at q, are read back one after the other. */
  lemma TailAuthRead(d: Dialect, s: seq<byte>, q: nat, h1: HandshakeRequest, secure: bool, plugin: bool, x: seq<byte>, y: seq<byte>)
    requires secure ==> |x| == Scramble2Length(h1.pluginDataLength)
    requires !secure ==> x == []
    requires plugin ==> 0 !in y
    requires !plugin ==> y == [] && h1.pluginName == []
    requires At(s, q, TailAuthBytes(secure, plugin, x, y))
    ensures var r := q + (if secure then |x| + 1 else 0);
            && TailScrambleAt(d, s, h1, secure, q) == (h1.(scramble := h1.scramble + x), r)
            && Reads(TailPluginNameAt(s, h1.(scramble := h1.scramble + x), plugin, r),
                     h1.(scramble := h1.scramble + x).(pluginName := y), q + |TailAuthBytes(secure, plugin, x, y)|)
  {
    var first := if secure then x + [0] else [];
    AtSplit(s, q, first, if plugin then y + [0] else []);
    TailScrambleRead(d, s, q, h1, secure, x);
    TailPluginNameRead(s, q + |first|, h1.(scramble := h1.scramble + x), plugin, y);
  }

  /** The tail supplies exactly what HeadOf(h) lacks of h. */
  lemma HeadOfCompleted(h: HandshakeRequest)
    ensures HeadOf(h).capabilities == h.capabilities % 0x1_0000_0000 && HeadOf(h).pluginName == []
    ensures HeadOf(h).(pluginDataLength := h.pluginDataLength, capabilities := h.capabilities)
                     .(scramble := HeadOf(h).scramble + ScramblePart2(h.scramble)).(pluginName := h.pluginName) == h
    ensures |GreetingTail(h)| == 11 + |TailAuthBytes(Has(h.capabilities, SECURE_CONNECTION), Has(h.capabilities, PLUGIN_AUTH),
                                                     ScramblePart2(h.scramble), h.pluginName)|
  {
    assert ScramblePart1(h.scramble) + ScramblePart2(h.scramble) == h.scramble;
  }

  /**
    The flags the tail reading consults on the low word are those of the
    whole mask, and the whole mask is the low word plus the extended word.
  */
  lemma TailFlags(c: nat)
    requires c < 0x1_0000_0000_0000_0000 && (Has(c, MYSQL) ==> c < 0x1_0000_0000)
    ensures Has(c % 0x1_0000_0000, PLUGIN_AUTH) == Has(c, PLUGIN_AUTH)
    ensures Has(c % 0x1_0000_0000, MYSQL) == Has(c, MYSQL)
    ensures c % 0x1_0000_0000 + c / 0x1_0000_0000 * 0x1_0000_0000 == c
    ensures c / 0x1_0000_0000 < 0x1_0000_0000
    ensures Has(c, MYSQL) ==> c / 0x1_0000_0000 == 0
  {
    var e := c / 0x1_0000_0000;
    LowWord(c);
    HasLowFlag(c % 0x1_0000_0000, e, PLUGIN_AUTH);
    HasLowFlag(c % 0x1_0000_0000, e, MYSQL);
  }

  /** The tail reading in terms of its three parts. */
  lemma GreetingTailSteps(d: Dialect, s: seq<byte>, h0: HandshakeRequest, p: nat, plugin: bool, mysql: bool, secure: bool, named: bool,
                          h1: HandshakeRequest, q: nat, h2: HandshakeRequest, r: nat, h: HandshakeRequest, end: nat)
    requires Has(h0.capabilities, PLUGIN_AUTH) == plugin && Has(h0.capabilities, MYSQL) == mysql
    requires Has(h1.capabilities, SECURE_CONNECTION) == secure && Has(h2.capabilities, PLUGIN_AUTH) == named
    requires Reads(TailCapabilitiesAt(s, h0, plugin, mysql, p), h1, q)
    requires TailScrambleAt(d, s, h1, secure, q) == (h2, r)
    requires Reads(TailPluginNameAt(s, h2, named, r), h, end)
    ensures Reads(GreetingTailAt(d, s, h0, p), h, end)
  {
  }

  /**
    The plugin data length byte, the reserved bytes and the extended
    capability word e, laid out at p, are read back: the plugin data length
    is restored and e becomes the high word of the mask.
  */
  lemma TailCapabilitiesRead(s: seq<byte>, p: nat, h: HandshakeRequest, plugin: bool, mysql: bool, pld: byte, e: nat)
    requires e < 0x1_0000_0000 && (mysql ==> e == 0) && (!plugin ==> pld == 0)
    requires At(s, p, TailCapabilitiesBytes(plugin, mysql, pld, e))
    ensures Reads(TailCapabilitiesAt(s, h, plugin, mysql, p),
                  h.(pluginDataLength := pld, capabilities := h.capabilities + e * 0x1_0000_0000), p + 11)
  {
    var x := if mysql then Zeros(4) else LE(e, 4);
    AtSplit(s, p, [if plugin then pld else 0], Zeros(6) + x);
    AtSplit(s, p + 1, Zeros(6), x);
    if plugin {
      TakeU8At(s, p, pld);
    }
    if !mysql {
      assert Pow256(4) == 0x1_0000_0000;
      TakeLEAt(s, p + 7, e, 4);
    }
  }

  /**
    The second scramble part x with its filler, laid out at p, is read back
    whole and extends the scramble.
  */
  lemma TailScrambleRead(d: Dialect, s: seq<byte>, p: nat, h: HandshakeRequest, secure: bool, x: seq<byte>)
    requires secure ==> |x| == Scramble2Length(h.pluginDataLength)
    requires !secure ==> x == []
    requires At(s, p, if secure then x + [0] else [])
    ensures TailScrambleAt(d, s, h, secure, p).0 == h.(scramble := h.scramble + x)
    ensures TailScrambleAt(d, s, h, secure, p).1 == p + if secure then |x| + 1 else 0
  {
    if secure {
      AtSplit(s, p, x, [0]);
      TakeBytesAt(d, s, p, x);
    } else {
      assert h.scramble + x == h.scramble;
    }
  }

  /** The plugin name y with its terminator, laid out at p, is read back whole. */
  lemma TailPluginNameRead(s: seq<byte>, p: nat, h: HandshakeRequest, plugin: bool, y: seq<byte>)
    requires plugin ==> 0 !in y
    requires !plugin ==> y == [] && h.pluginName == []
    requires At(s, p, if plugin then y + [0] else [])
    ensures Reads(TailPluginNameAt(s, h, plugin, p), h.(pluginName := y), p + if plugin then |y| + 1 else 0)
  {
    if plugin {
      TakeNulStringAt(s, p, y);
    } else {
      assert h.(pluginName := y) == h;
    }
  }

  /** A well-formed greeting laid out at p is read back whole. */
  lemma GreetingRead(d: Dialect, s: seq<byte>, p: nat, h: HandshakeRequest)
    requires WellFormedGreeting(h)
    requires At(s, p, GreetingBytes(h))
    ensures Reads(GreetingAt(d, s, p), h, p + |GreetingBytes(h)|)
  {
    var q := p + |GreetingHead(h)|;
    assert At(s, p, GreetingHead(h)) && At(s, q, GreetingTail(h)) by {
      AtSplit(s, p, GreetingHead(h), GreetingTail(h));
    }
    var end := p + |GreetingBytes(h)|;
    assert Reads(GreetingHeadAt(d, s, p), HeadOf(h), q) by {
      GreetingHeadRead(d, s, p, h);
    }
    assert Reads(GreetingTailAt(d, s, HeadOf(h), q), h, end) by {
      GreetingTailRead(d, s, q, h);
    }
    GreetingSteps(d, s, p, HeadOf(h), q, h, end);
  }

  /** The whole reading in terms of its two parts. */
  lemma GreetingSteps(d: Dialect, s: seq<byte>, p: nat, h0: HandshakeRequest, q: nat, h: HandshakeRequest, end: nat)
    requires Reads(GreetingHeadAt(d, s, p), h0, q)
    requires Reads(GreetingTailAt(d, s, h0, q), h, end)
    ensures Reads(GreetingAt(d, s, p), h, end)
  {
  }

  /**
    A well-formed greeting, with anything before and after it, is read back
    whole: the reader inverts the server's layout.
  */
  lemma GreetingRoundTrip(d: Dialect, s: seq<byte>, pre: seq<byte>, h: HandshakeRequest, post: seq<byte>)
    requires WellFormedGreeting(h)
    requires s == pre + GreetingBytes(h) + post
    ensures Reads(GreetingAt(d, s, |pre|), h, |pre| + |GreetingBytes(h)|)
  {
    AtWhole(pre, GreetingBytes(h), post);
    GreetingRead(d, s, |pre|, h);
  }
}
