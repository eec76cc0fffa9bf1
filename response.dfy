/**
  The client's answer to a greeting: the capability mask it offers, the
  auth token it chooses by plugin name, and the byte layout of the
  Handshake Response Packet, together with a server's reading of that
  layout as the client/server protocol defines it.
*/
module Response {
  import opened Bytes
  import opened Wire
  import opened Capabilities
  import opened ConnectionPhase

  /** Connection settings (`Config`): the server address and the credentials. */
  datatype Config = Config(uri: seq<byte>, username: seq<byte>, password: seq<byte>, database: seq<byte>)

  const CLEAR_PASSWORD: seq<byte> := Ascii("mysql_clear_password")
  const NATIVE_PASSWORD: seq<byte> := Ascii("mysql_native_password")

  /** The max-packet-size field the client sends: 2^30 (the source's comment says 1MB). */
  const MAX_PACKET_SIZE: nat := 0x4000_0000

  // ---------------------------------------------------------------------
  // Negotiation.

  /**
    The client's capability mask: DEFAULT, plus PLUGIN_AUTH when the server
    offers it, plus CONNECT_WITH_DB when a database is configured and the
    server offers it.
  */
  function ClientCapabilities(server: nat, database: seq<byte>): (r: nat)
    ensures Has(r, PLUGIN_AUTH) <==> Has(server, PLUGIN_AUTH)
    ensures Has(r, CONNECT_WITH_DB) <==> database != [] && Has(server, CONNECT_WITH_DB)
    ensures r < 0x1_0000_0000
  {
    var withPlugin := if Has(server, PLUGIN_AUTH) then Set(DEFAULT, PLUGIN_AUTH) else DEFAULT;
    if database != [] && Has(server, CONNECT_WITH_DB) then Set(withPlugin, CONNECT_WITH_DB) else withPlugin
  }

  /**
    Apart from those two flags the client offers exactly DEFAULT: its ten
    flags, and never the MYSQL bit, compression, LOCAL INFILE, TLS,
    connection attributes or extended type information; the high word it
    sends is 0.
  */
  lemma ClientCapabilitiesKeepDefault(server: nat, database: seq<byte>)
    ensures var r := ClientCapabilities(server, database);
            && Has(r, FOUND_ROWS) && Has(r, IGNORE_SPACE) && Has(r, PROTOCOL_41)
            && Has(r, TRANSACTIONS) && Has(r, SECURE_CONNECTION)
            && Has(r, MULTI_RESULTS) && Has(r, PS_MULTI_RESULTS)
            && Has(r, PLUGIN_AUTH_LENENC_CLIENT_DATA) && Has(r, SESSION_TRACK) && Has(r, DEPRECATE_EOF)
            && !Has(r, MYSQL) && !Has(r, COMPRESS) && !Has(r, LOCAL_FILES) && !Has(r, SSL)
            && !Has(r, CONNECT_ATTRS) && !Has(r, MARIADB_CLIENT_EXTENDED_TYPE_INFO)
            && r / 0x1_0000_0000 == 0
  {
    DefaultExcludes();
    var r := ClientCapabilities(server, database);
    if r == DEFAULT {
      DefaultBits();
    } else if r == DEFAULT + PLUGIN_AUTH {
      KeepsDefault(0x1ae_a302);
    } else if r == DEFAULT + CONNECT_WITH_DB {
      KeepsDefault(0x1a6_a30a);
    } else {
      assert r == DEFAULT + PLUGIN_AUTH + CONNECT_WITH_DB;
      KeepsDefault(0x1ae_a30a);
    }
  }

  /** The three masks negotiation can add to DEFAULT keep DEFAULT's flags. */
  lemma KeepsDefault(r: nat)
    requires r in {0x1ae_a302, 0x1a6_a30a, 0x1ae_a30a}
    ensures && Has(r, FOUND_ROWS) && Has(r, IGNORE_SPACE) && Has(r, PROTOCOL_41)
            && Has(r, TRANSACTIONS) && Has(r, SECURE_CONNECTION)
            && Has(r, MULTI_RESULTS) && Has(r, PS_MULTI_RESULTS)
            && Has(r, PLUGIN_AUTH_LENENC_CLIENT_DATA) && Has(r, SESSION_TRACK) && Has(r, DEPRECATE_EOF)
            && !Has(r, MYSQL) && !Has(r, COMPRESS) && !Has(r, LOCAL_FILES) && !Has(r, SSL)
            && !Has(r, CONNECT_ATTRS) && !Has(r, MARIADB_CLIENT_EXTENDED_TYPE_INFO)
            && r / 0x1_0000_0000 == 0
  {
  }

  // ---------------------------------------------------------------------
  // Auth token.

  /**
    The token for the server's plugin: the password itself for
    mysql_clear_password, the native scramble of it for
    mysql_native_password; any other plugin is refused (a panic in the
    source).
  */
  function AuthToken(pluginName: seq<byte>, password: seq<byte>, scramble: seq<byte>, sha1: Sha1): (r: Option<seq<byte>>)
    ensures r.Some? <==> pluginName == CLEAR_PASSWORD || pluginName == NATIVE_PASSWORD
    ensures pluginName == CLEAR_PASSWORD ==> r == Some(password)
    ensures pluginName == NATIVE_PASSWORD ==>
              r.Some? && |r.value| == 20
              && XorBytes(r.value, sha1(scramble + sha1(sha1(password)))) == sha1(password)
  {
    if pluginName == CLEAR_PASSWORD then Some(password)
    else if pluginName == NATIVE_PASSWORD then
      NativeScrambleVerifies(password, scramble, sha1);
      Some(NativeScramble(password, scramble, sha1))
    else None
  }

  /**
    A server that does not announce PLUGIN_AUTH leaves the plugin name
    empty, so the client refuses every such server.
  */
  lemma NoPluginAuthRefused(d: Dialect, s: seq<byte>, start: nat, password: seq<byte>, sha1: Sha1)
    requires GreetingAt(d, s, start).Some?
    requires !Has(GreetingAt(d, s, start).value.0.capabilities, PLUGIN_AUTH)
    ensures var h := GreetingAt(d, s, start).value.0;
            AuthToken(h.pluginName, password, h.scramble, sha1).None?
  {
    GreetingAtFacts(d, s, start);
    assert |CLEAR_PASSWORD| > 0 && |NATIVE_PASSWORD| > 0;
  }

  // ---------------------------------------------------------------------
  // Layout of the Handshake Response Packet (after the frame header).

  /**
    The auth-data field, chosen by the SERVER's flags: a length-encoded
    length when it offers PLUGIN_AUTH_LENENC_CLIENT_DATA, else, with
    SECURE_CONNECTION, one byte holding the server's plugin data length
    (not the token's), else the token and a terminating zero.
  */
  function TokenField(server: nat, pluginDataLength: byte, token: seq<byte>): (r: seq<byte>)
    ensures Has(server, PLUGIN_AUTH_LENENC_CLIENT_DATA) && |token| < 0x1_0000_0000_0000_0000 ==>
              LenEncValue(r) == Some((|token|, |r| - |token|)) && r[|r| - |token|..] == token
    ensures !Has(server, PLUGIN_AUTH_LENENC_CLIENT_DATA) && Has(server, SECURE_CONNECTION) ==>
              r == [pluginDataLength] + token
    ensures !Has(server, PLUGIN_AUTH_LENENC_CLIENT_DATA) && !Has(server, SECURE_CONNECTION) ==>
              |r| == |token| + 1 && r[..|token|] == token && r[|token|] == 0
  {
    if Has(server, PLUGIN_AUTH_LENENC_CLIENT_DATA) then
      LenEncPrefixed(token);
      LenEnc(|token|) + token
    else if Has(server, SECURE_CONNECTION) then [pluginDataLength] + token
    else token + [0]
  }

  /** A string after its length-encoded length: the length reads back, and the string follows it. */
  lemma LenEncPrefixed(x: seq<byte>)
    ensures |x| < 0x1_0000_0000_0000_0000 ==> LenEncValue(LenEnc(|x|) + x) == Some((|x|, |LenEnc(|x|)|))
  {
    if |x| < 0x1_0000_0000_0000_0000 {
      LenEncRoundTrip(|x|, x);
    }
  }

  /**
    The first 32 bytes: the low word of the client mask, the max packet
    size, the collation the server announced, 19 zero bytes and the high
    word of the mask.
  */
  function ResponseFixed(caps: nat, collation: byte): seq<byte>
  {
    LE(caps % 0x1_0000_0000, 4) + (LE(MAX_PACKET_SIZE, 4) + ([collation] + (Zeros(19) + LE(caps / 0x1_0000_0000, 4))))
  }

  /** The user name with its terminator, then the auth-data field. */
  function ResponseIdentity(username: seq<byte>, field: seq<byte>): seq<byte>
  {
    username + [0] + field
  }

  /**
    The optional end: the database when the client mask has
    CONNECT_WITH_DB, the plugin name when the server has PLUGIN_AUTH, and a
    single zero (an empty attribute block) when the server has
    CONNECT_ATTRS.
  */
  function ResponseTrailer(caps: nat, server: nat, database: seq<byte>, pluginName: seq<byte>): seq<byte>
  {
    TrailerBytes(Has(caps, CONNECT_WITH_DB), Has(server, PLUGIN_AUTH), Has(server, CONNECT_ATTRS), database, pluginName)
  }

  /** The optional end, by whether each of its three parts is present. */
  function TrailerBytes(withDatabase: bool, withPlugin: bool, withAttrs: bool,
                        database: seq<byte>, pluginName: seq<byte>): seq<byte>
  {
    (if withDatabase then database + [0] else [])
    + ((if withPlugin then pluginName + [0] else [])
    + (if withAttrs then [0] else []))
  }

  /**
    The response body the client writes for greeting h and settings c, or
    None when the server's plugin is unsupported.
  */
  function ResponseBody(h: HandshakeRequest, c: Config, sha1: Sha1): (r: Option<seq<byte>>)
    ensures r.Some? <==> h.pluginName == CLEAR_PASSWORD || h.pluginName == NATIVE_PASSWORD
    ensures r.Some? ==> |r.value| > 32 + |c.username| && r.value[32..32 + |c.username|] == c.username
                        && r.value[32 + |c.username|] == 0
  {
    var token :- AuthToken(h.pluginName, c.password, h.scramble, sha1);
    var caps := ClientCapabilities(h.capabilities, c.database);
    Some(ResponseFixed(caps, h.collation)
         + (ResponseIdentity(c.username, TokenField(h.capabilities, h.pluginDataLength, token))
         + ResponseTrailer(caps, h.capabilities, c.database, h.pluginName)))
  }

  // ---------------------------------------------------------------------
  // A server's reading, as the protocol defines it.

  /** The fields a server takes from a Handshake Response Packet. */
  datatype HandshakeResponse = HandshakeResponse(
    capabilities: nat,
    maxPacketSize: nat,
    collation: byte,
    username: seq<byte>,
    authData: seq<byte>,
    database: seq<byte>,
    pluginName: seq<byte>)

  /** A NUL-terminated string; unlike the client's reader, a missing terminator fails. */
  function TakeCString(s: seq<byte>, p: int): Option<(seq<byte>, int)>
  {
    var r :- TakeNulString(s, p);
    if r.1 > p then Some(r) else None
  }

  /** A string prefixed by its length-encoded length. */
  function TakeLenEncString(s: seq<byte>, p: int): Option<(seq<byte>, int)>
  {
    if p < 0 || p > |s| then None
    else
      var n :- LenEncValue(s[p..]);
      var start := p + n.1;
      if start + n.0 <= |s| then Some((s[start..start + n.0], start + n.0)) else None
  }

  /**
    The fixed part: the low word, the max packet size, the collation, 19
    reserved bytes and, unless the low word has the MYSQL bit, the extended
    word.
  */
  function ResponseFixedAt(s: seq<byte>, p: nat): Option<(HandshakeResponse, int)>
  {
    var low :- TakeLE(s, p, 4);
    var maxSize :- TakeLE(s, low.1, 4);
    var collation :- TakeU8(s, maxSize.1);
    var ext :- if Has(low.0, MYSQL) then Some((0, collation.1 + 23)) else TakeLE(s, collation.1 + 19, 4);
    Some((HandshakeResponse(low.0 + ext.0 * 0x1_0000_0000, maxSize.0, collation.0, [], [], [], []), ext.1))
  }

  /**
    The user name and the auth data, whose encoding the CLIENT's mask
    selects: length-encoded, one length byte, or NUL-terminated.
  */
  function ResponseIdentityAt(s: seq<byte>, r: HandshakeResponse, p: int): Option<(HandshakeResponse, int)>
  {
    var user :- TakeCString(s, p);
    var auth :- if Has(r.capabilities, PLUGIN_AUTH_LENENC_CLIENT_DATA) then TakeLenEncString(s, user.1)
                else if Has(r.capabilities, SECURE_CONNECTION) then TakeLenBytes(MariaDB, s, user.1)
                else TakeCString(s, user.1);
    Some((r.(username := user.0, authData := auth.0), auth.1))
  }

  /** The database under CONNECT_WITH_DB and the plugin name under PLUGIN_AUTH, by the client's mask. */
  function ResponseTrailerAt(s: seq<byte>, r: HandshakeResponse, p: int): Option<(HandshakeResponse, int)>
  {
    TrailerFieldsAt(s, r, p, Has(r.capabilities, CONNECT_WITH_DB), Has(r.capabilities, PLUGIN_AUTH))
  }

  /** The database and the plugin name, each read when its flag is set. */
  function TrailerFieldsAt(s: seq<byte>, r: HandshakeResponse, p: int, withDatabase: bool, withPlugin: bool)
    : Option<(HandshakeResponse, int)>
  {
    var db :- if withDatabase then TakeCString(s, p) else Some(([], p));
    var plugin :- if withPlugin then TakeCString(s, db.1) else Some(([], db.1));
    Some((r.(database := db.0, pluginName := plugin.0), plugin.1))
  }

  /** A server's reading of a response body starting at p. */
  function ResponseAt(s: seq<byte>, p: nat): Option<(HandshakeResponse, int)>
  {
    var fixed :- ResponseFixedAt(s, p);
    var identity :- ResponseIdentityAt(s, fixed.0, fixed.1);
    ResponseTrailerAt(s, identity.0, identity.1)
  }

  // ---------------------------------------------------------------------
  // Reading back the client's layout.

  lemma ResponseFixedRead(s: seq<byte>, p: nat, caps: nat, collation: byte)
    requires caps < 0x1_0000_0000 && !Has(caps, MYSQL)
    requires At(s, p, ResponseFixed(caps, collation))
    ensures Reads(ResponseFixedAt(s, p), HandshakeResponse(caps, MAX_PACKET_SIZE, collation, [], [], [], []), p + 32)
  {
    AtSplit(s, p, LE(caps % 0x1_0000_0000, 4), LE(MAX_PACKET_SIZE, 4) + ([collation] + (Zeros(19) + LE(caps / 0x1_0000_0000, 4))));
    AtSplit(s, p + 4, LE(MAX_PACKET_SIZE, 4), [collation] + (Zeros(19) + LE(caps / 0x1_0000_0000, 4)));
    AtSplit(s, p + 8, [collation], Zeros(19) + LE(caps / 0x1_0000_0000, 4));
    AtSplit(s, p + 9, Zeros(19), LE(caps / 0x1_0000_0000, 4));
    TakeLEAt(s, p, caps % 0x1_0000_0000, 4);
    TakeLEAt(s, p + 4, MAX_PACKET_SIZE, 4);
    TakeU8At(s, p + 8, collation);
    TakeLEAt(s, p + 28, caps / 0x1_0000_0000, 4);
    ModUnique(caps, 0x1_0000_0000, 0, caps);
    assert Pow256(4) == 0x1_0000_0000;
  }

  /** A length-encoded integer laid out at p is read back with its width. */
  lemma LenEncValueAt(s: seq<byte>, p: int, v: nat)
    requires v < 0x1_0000_0000_0000_0000
    requires At(s, p, LenEnc(v))
    ensures 0 <= p <= |s| && LenEncValue(s[p..]) == Some((v, |LenEnc(v)|))
  {
    var e := LenEnc(v);
    AtSlice(s, p, e);
    var rest := s[p + |e|..];
    assert s[p..] == e + rest;
    LenEncRoundTrip(v, rest);
  }

  /** A length-encoded string laid out at p is read back whole. */
  lemma TakeLenEncStringAt(s: seq<byte>, p: int, x: seq<byte>)
    requires |x| < 0x1_0000_0000_0000_0000
    requires At(s, p, LenEnc(|x|) + x)
    ensures Reads(TakeLenEncString(s, p), x, p + |LenEnc(|x|)| + |x|)
  {
    var start := p + |LenEnc(|x|)|;
    AtSplit(s, p, LenEnc(|x|), x);
    LenEncValueAt(s, p, |x|);
    AtSlice(s, start, x);
  }

  /** The user name and a length-encoded token, read back under a mask with PLUGIN_AUTH_LENENC_CLIENT_DATA. */
  lemma ResponseIdentityRead(s: seq<byte>, p: int, caps: nat, collation: byte, username: seq<byte>, token: seq<byte>)
    requires Has(caps, PLUGIN_AUTH_LENENC_CLIENT_DATA)
    requires 0 !in username && |token| < 0x1_0000_0000_0000_0000
    requires At(s, p, ResponseIdentity(username, LenEnc(|token|) + token))
    ensures Reads(ResponseIdentityAt(s, HandshakeResponse(caps, MAX_PACKET_SIZE, collation, [], [], [], []), p),
                  HandshakeResponse(caps, MAX_PACKET_SIZE, collation, username, token, [], []),
                  p + |username| + 1 + |LenEnc(|token|)| + |token|)
  {
    var q := p + |username| + 1;
    assert At(s, p, username + [0]) && At(s, q, LenEnc(|token|) + token) by {
      AtSplit(s, p, username + [0], LenEnc(|token|) + token);
    }
    assert Reads(TakeNulString(s, p), username, q) by {
      TakeNulStringAt(s, p, username);
    }
    assert Reads(TakeLenEncString(s, q), token, q + |LenEnc(|token|)| + |token|) by {
      TakeLenEncStringAt(s, q, token);
    }
  }

  /** The database and the plugin name, read back under the flags that wrote them. */
  lemma ResponseTrailerRead(s: seq<byte>, p: int, caps: nat, collation: byte, username: seq<byte>, token: seq<byte>,
                            server: nat, database: seq<byte>, pluginName: seq<byte>)
    requires Has(caps, PLUGIN_AUTH) == Has(server, PLUGIN_AUTH)
    requires 0 !in database && 0 !in pluginName
    requires At(s, p, ResponseTrailer(caps, server, database, pluginName))
    ensures Reads(ResponseTrailerAt(s, HandshakeResponse(caps, MAX_PACKET_SIZE, collation, username, token, [], []), p),
                  HandshakeResponse(caps, MAX_PACKET_SIZE, collation, username, token,
                                    if Has(caps, CONNECT_WITH_DB) then database else [],
                                    if Has(server, PLUGIN_AUTH) then pluginName else []),
                  p + |ResponseTrailer(caps, server, database, pluginName)|
                    - if Has(server, CONNECT_ATTRS) then 1 else 0)
  {
    TrailerFieldsRead(s, p, HandshakeResponse(caps, MAX_PACKET_SIZE, collation, username, token, [], []),
                      Has(caps, CONNECT_WITH_DB), Has(server, PLUGIN_AUTH), Has(server, CONNECT_ATTRS),
                      database, pluginName);
  }

  /** The optional end read back field by field. */
  lemma TrailerFieldsRead(s: seq<byte>, p: int, r: HandshakeResponse, withDatabase: bool, withPlugin: bool,
                          withAttrs: bool, database: seq<byte>, pluginName: seq<byte>)
    requires 0 !in database && 0 !in pluginName
    requires At(s, p, TrailerBytes(withDatabase, withPlugin, withAttrs, database, pluginName))
    ensures Reads(TrailerFieldsAt(s, r, p, withDatabase, withPlugin),
                  r.(database := if withDatabase then database else [],
                     pluginName := if withPlugin then pluginName else []),
                  p + |TrailerBytes(withDatabase, withPlugin, withAttrs, database, pluginName)|
                    - if withAttrs then 1 else 0)
  {
    var first := if withDatabase then database + [0] else [];
    var second := if withPlugin then pluginName + [0] else [];
    var third := if withAttrs then [0] else [];
    AtSplit(s, p, first, second + third);
    AtSplit(s, p + |first|, second, third);
    OptionalCStringRead(s, p, withDatabase, database);
    OptionalCStringRead(s, p + |first|, withPlugin, pluginName);
  }

  /** An optional NUL-terminated field, read back when its flag is set. */
  lemma OptionalCStringRead(s: seq<byte>, p: int, present: bool, x: seq<byte>)
    requires 0 !in x && At(s, p, if present then x + [0] else [])
    ensures Reads(if present then TakeCString(s, p) else Some(([], p)),
                  if present then x else [], p + if present then |x| + 1 else 0)
  {
    if present {
      TakeNulStringAt(s, p, x);
    }
  }

  /** The reading in terms of its three parts. */
  lemma ResponseSteps(s: seq<byte>, p: nat, caps: nat, collation: byte, username: seq<byte>, token: seq<byte>,
                      database: seq<byte>, pluginName: seq<byte>, q2: int, end: int)
    requires Reads(ResponseFixedAt(s, p), HandshakeResponse(caps, MAX_PACKET_SIZE, collation, [], [], [], []), p + 32)
    requires Reads(ResponseIdentityAt(s, HandshakeResponse(caps, MAX_PACKET_SIZE, collation, [], [], [], []), p + 32),
                   HandshakeResponse(caps, MAX_PACKET_SIZE, collation, username, token, [], []), q2)
    requires Reads(ResponseTrailerAt(s, HandshakeResponse(caps, MAX_PACKET_SIZE, collation, username, token, [], []), q2),
                   HandshakeResponse(caps, MAX_PACKET_SIZE, collation, username, token, database, pluginName), end)
    ensures Reads(ResponseAt(s, p), HandshakeResponse(caps, MAX_PACKET_SIZE, collation, username, token, database, pluginName), end)
  {
  }

  /**
    The three parts of a response written for mask caps (which keeps the
    server's PLUGIN_AUTH and has PLUGIN_AUTH_LENENC_CLIENT_DATA), read back
    in order.
  */
  lemma ResponseLayoutRead(s: seq<byte>, p: nat, caps: nat, collation: byte, username: seq<byte>, token: seq<byte>,
                           server: nat, database: seq<byte>, pluginName: seq<byte>)
    requires caps < 0x1_0000_0000 && !Has(caps, MYSQL)
    requires Has(caps, PLUGIN_AUTH_LENENC_CLIENT_DATA) && Has(caps, PLUGIN_AUTH) == Has(server, PLUGIN_AUTH)
    requires 0 !in username && 0 !in database && 0 !in pluginName
    requires |token| < 0x1_0000_0000_0000_0000
    requires At(s, p, ResponseFixed(caps, collation)
                      + (ResponseIdentity(username, LenEnc(|token|) + token)
                      + ResponseTrailer(caps, server, database, pluginName)))
    ensures Reads(ResponseAt(s, p),
                  HandshakeResponse(caps, MAX_PACKET_SIZE, collation, username, token,
                                    if Has(caps, CONNECT_WITH_DB) then database else [],
                                    if Has(server, PLUGIN_AUTH) then pluginName else []),
                  p + 32 + |username| + 1 + |LenEnc(|token|)| + |token|
                    + |ResponseTrailer(caps, server, database, pluginName)|
                    - if Has(server, CONNECT_ATTRS) then 1 else 0)
  {
    var fixed := ResponseFixed(caps, collation);
    var identity := ResponseIdentity(username, LenEnc(|token|) + token);
    var trailer := ResponseTrailer(caps, server, database, pluginName);
    var q2 := p + 32 + |username| + 1 + |LenEnc(|token|)| + |token|;
    assert At(s, p, fixed) && At(s, p + 32, identity + trailer) by {
      AtSplit(s, p, fixed, identity + trailer);
      assert |fixed| == 32;
    }
    assert At(s, p + 32, identity) && At(s, q2, trailer) by {
      AtSplit(s, p + 32, identity, trailer);
      assert |identity| == |username| + 1 + |LenEnc(|token|)| + |token|;
    }
    ResponseFixedRead(s, p, caps, collation);
    ResponseIdentityRead(s, p + 32, caps, collation, username, token);
    ResponseTrailerRead(s, q2, caps, collation, username, token, server, database, pluginName);
    ResponseSteps(s, p, caps, collation, username, token,
                  if Has(caps, CONNECT_WITH_DB) then database else [],
                  if Has(server, PLUGIN_AUTH) then pluginName else [],
                  q2, q2 + |trailer| - if Has(server, CONNECT_ATTRS) then 1 else 0);
  }

  /**
    When the server offers PLUGIN_AUTH_LENENC_CLIENT_DATA, a server's
    reading of the response recovers everything the client sent: its mask,
    the max packet size, the collation, the user name, the token, the
    database (when CONNECT_WITH_DB was negotiated) and the plugin name
    (under PLUGIN_AUTH); only the empty attribute block is left unread.
    Without that flag the client still writes the token as the server's
    flags select, while a server reads it as the client's mask (which always
    has the flag) selects.
  */
  lemma ResponseRoundTrip(h: HandshakeRequest, c: Config, sha1: Sha1, pre: seq<byte>, post: seq<byte>)
    requires ResponseBody(h, c, sha1).Some?
    requires Has(h.capabilities, PLUGIN_AUTH_LENENC_CLIENT_DATA)
    requires 0 !in c.username && 0 !in c.database && 0 !in h.pluginName
    requires |c.password| < 0x1_0000_0000_0000_0000
    ensures var body := ResponseBody(h, c, sha1).value;
            var caps := ClientCapabilities(h.capabilities, c.database);
            Reads(ResponseAt(pre + body + post, |pre|),
                  HandshakeResponse(caps, MAX_PACKET_SIZE, h.collation, c.username,
                                    AuthToken(h.pluginName, c.password, h.scramble, sha1).value,
                                    if Has(caps, CONNECT_WITH_DB) then c.database else [],
                                    if Has(h.capabilities, PLUGIN_AUTH) then h.pluginName else []),
                  |pre| + |body| - if Has(h.capabilities, CONNECT_ATTRS) then 1 else 0)
  {
    var body := ResponseBody(h, c, sha1).value;
    var token := AuthToken(h.pluginName, c.password, h.scramble, sha1).value;
    var caps := ClientCapabilities(h.capabilities, c.database);
    ClientCapabilitiesKeepDefault(h.capabilities, c.database);
    assert |token| < 0x1_0000_0000_0000_0000;
    assert body == ResponseFixed(caps, h.collation)
                   + (ResponseIdentity(c.username, LenEnc(|token|) + token)
                   + ResponseTrailer(caps, h.capabilities, c.database, h.pluginName));
    AtWhole(pre, body, post);
    assert |body| == 32 + |c.username| + 1 + |LenEnc(|token|)| + |token|
                     + |ResponseTrailer(caps, h.capabilities, c.database, h.pluginName)|;
    ResponseLayoutRead(pre + body + post, |pre|, caps, h.collation, c.username, token,
                       h.capabilities, c.database, h.pluginName);
  }
}
