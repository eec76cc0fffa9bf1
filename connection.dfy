/**
  The sequential logic of the MariaDB connection (mariadb/connection.go):
  turning the bytes a socket read into a packet or an error, the check of
  the server's reply to the handshake response, the rule that ends the
  draining of a response, and the decoders of column definitions and
  integer cells. Socket reads are parameters: what the read returned, or
  the error it failed with.
*/
module Connection {
  import opened Bytes
  import opened Wire
  import opened Capabilities
  import opened ConnectionPhase
  import opened Response
  import opened Packets
  import opened Handshake
  import opened Decoders

  /** What a socket read returned: the bytes read, or the error it failed with. */
  datatype SocketRead = ReadBytes(bytes: seq<byte>) | ReadError(text: seq<byte>)

  /** The errors the connection produces; a failed socket read passes its own error through. */
  datatype Error =
    | SocketError(text: seq<byte>)
    | ShortHeader
    | PayloadReadFailed
    | ServerError(code: nat, message: seq<byte>)
    | AuthSwitchUnsupported
    | LocalInfileUnsupported

  /** The text of each error, as `fmt.Errorf` formats it. */
  function ErrorText(e: Error): seq<byte>
  {
    match e
    case SocketError(text) => text
    case ShortHeader => Ascii("Read less than requried")
    case PayloadReadFailed => Ascii("Failed to read packet payload")
    case ServerError(code, message) => Ascii("mysql error [") + Decimal(code) + Ascii("]: ") + message
    case AuthSwitchUnsupported => Ascii("handshake: Authentication Switch Request is unsupported yet")
    case LocalInfileUnsupported => Ascii("Unsupported packet LOCAL_INFILE")
  }

  /**
    The text of a server error carries the code in decimal between the
    brackets, and the message after them: both can be read back.
  */
  lemma ServerErrorText(code: nat, message: seq<byte>)
    ensures var text := ErrorText(ServerError(code, message));
            var digits := text[13..|text| - |message| - 3];
            && text[..13] == Ascii("mysql error [")
            && (forall i :: 0 <= i < |digits| ==> '0' as int <= digits[i] <= '9' as int)
            && DigitsValue(digits) == code
            && text[|text| - |message|..] == message
  {
    var text := ErrorText(ServerError(code, message));
    assert text == Ascii("mysql error [") + Decimal(code) + Ascii("]: ") + message;
    assert text[13..|text| - |message| - 3] == Decimal(code);
    DecimalDenotes(code);
  }

  /** `ConnectionInfo`: what the greeting announced and the mask the client chose. */
  datatype ConnectionInfo = ConnectionInfo(
    serverVersion: seq<byte>,
    protocolVersion: byte,
    serverCapabilities: nat,
    clientCapabilities: nat)

  // ---------------------------------------------------------------------
  // recv

  /** What one `recv` yields: a packet's bytes, or an error. */
  datatype Received = Got(payload: seq<byte>) | Failed(err: Error)

  /** The payload size the 4 header bytes announce. */
  function AnnouncedSize(header: seq<byte>): nat
    requires |header| == 4
  {
    FromLE(header[..3])
  }

  /**
    The buffer `recv` builds: the header with its sequence byte cleared
    (readUInt24 writes a 0 there), then a body buffer of the announced
    size that holds what the read returned, zero-filled after it.
  */
  function RecvBuffer(header: seq<byte>, body: seq<byte>): seq<byte>
    requires |header| == 4 && |body| <= AnnouncedSize(header)
  {
    header[..3] + [0] + body + Zeros(AnnouncedSize(header) - |body|)
  }

  /**
    When `recv` runs without a panic: the reads return at most what their
    buffers hold; a complete header announces a non-empty payload (peekAt(4)
    on an empty one panics); an ERR payload is long enough for its code and
    message.
  */
  predicate RecvDefined(header: SocketRead, body: SocketRead)
  {
    && (header.ReadBytes? ==> |header.bytes| <= 4)
    && (header.ReadBytes? && |header.bytes| == 4 && body.ReadBytes? ==>
          && |body.bytes| <= AnnouncedSize(header.bytes)
          && AnnouncedSize(header.bytes) > 0
          && var buffer := RecvBuffer(header.bytes, body.bytes);
             buffer[4] == PACKET_TYPE_ERR ==> ErrReadable(buffer))
  }

  /**
    The outcome of `recv` over what the two socket reads returned: a
    failed read, a short header, a failed body read, an ERR packet turned
    into its error, or the packet's bytes.
  */
  function RecvOutcome(header: SocketRead, body: SocketRead): (r: Received)
    requires RecvDefined(header, body)
    ensures r.Got? ==> && FullHeader(header) && body.ReadBytes?
                       && |r.payload| == 4 + AnnouncedSize(header.bytes) && r.payload[4] != PACKET_TYPE_ERR
  {
    if header.ReadError? then Failed(SocketError(header.text))
    else if |header.bytes| != 4 then Failed(ShortHeader)
    else if body.ReadError? then Failed(PayloadReadFailed)
    else
      var buffer := RecvBuffer(header.bytes, body.bytes);
      if buffer[4] == PACKET_TYPE_ERR then Failed(ServerError(ErrCodeOf(buffer), ErrMessageOf(MariaDB, buffer)))
      else Got(buffer)
  }

  /**
    A header read that filled its 4 bytes: `recv` then records the sequence
    byte of the packet it builds, which readUInt24 has cleared to 0.
  */
  predicate FullHeader(header: SocketRead)
  {
    header.ReadBytes? && |header.bytes| == 4
  }

  /**
    The connection's sequence number after `recv` ran on the first n of a
    run of socket reads, starting from s: 0 once one of them read a full
    header, s otherwise.
  */
  function SequenceAfter(socketReads: seq<(SocketRead, SocketRead)>, n: nat, s: byte): byte
    requires n <= |socketReads|
  {
    if n == 0 then s
    else if FullHeader(socketReads[n - 1].0) then 0
    else SequenceAfter(socketReads, n - 1, s)
  }

  /** The sequence number is cleared if and only if one of the first n reads read a full header. */
  lemma {:induction false} SequenceAfterCleared(socketReads: seq<(SocketRead, SocketRead)>, n: nat, s: byte)
    requires n <= |socketReads|
    ensures SequenceAfter(socketReads, n, s)
            == if exists i :: 0 <= i < n && FullHeader(socketReads[i].0) then 0 else s
  {
    if n > 0 {
      SequenceAfterCleared(socketReads, n - 1, s);
    }
  }

  /**
    What `recv` hands on: never an ERR packet, always the announced size
    after a header whose length field is intact and whose sequence byte is
    0, with the bytes the read returned at the start of the body.
  */
  lemma RecvOutcomeFacts(header: SocketRead, body: SocketRead)
    requires RecvDefined(header, body)
    ensures var r := RecvOutcome(header, body);
            r.Got? ==>
              && header.ReadBytes? && body.ReadBytes?
              && |r.payload| == 4 + AnnouncedSize(header.bytes) && |r.payload| > 4
              && r.payload[4] != PACKET_TYPE_ERR
              && r.payload[..3] == header.bytes[..3] && r.payload[3] == 0
              && r.payload[4..4 + |body.bytes|] == body.bytes
    ensures var r := RecvOutcome(header, body);
            r.Failed? && r.err.ServerError? ==>
              header.ReadBytes? && |header.bytes| == 4 && body.ReadBytes?
              && RecvBuffer(header.bytes, body.bytes)[4] == PACKET_TYPE_ERR
  {
    if header.ReadBytes? && |header.bytes| == 4 && body.ReadBytes? {
      var buffer := RecvBuffer(header.bytes, body.bytes);
      assert buffer[..3] == header.bytes[..3];
      assert buffer[4..4 + |body.bytes|] == body.bytes;
    }
  }

  // ---------------------------------------------------------------------
  // init

  /**
    What `init` needs of the greeting packet to run without a panic: the
    greeting parses, the server's plugin is one the client can answer, and
    the response fits one packet.
  */
  predicate Answerable(s: seq<byte>, config: Config, sha1: Sha1)
  {
    && GreetingAt(MariaDB, s, 4).Some?
    && var h := GreetingAt(MariaDB, s, 4).value.0;
       && AuthToken(h.pluginName, config.password, h.scramble, sha1).Some?
       && |ResponseBody(h, config, sha1).value| < 0x100_0000
  }

  /** The connection info `init` records for a greeting: the mask is the one the client sent. */
  function InfoOf(h: HandshakeRequest, config: Config): (info: ConnectionInfo)
    ensures !Has(info.clientCapabilities, MARIADB_CLIENT_EXTENDED_TYPE_INFO)
    ensures Has(info.clientCapabilities, DEPRECATE_EOF) && !Has(info.clientCapabilities, LOCAL_FILES)
    ensures info.serverCapabilities == h.capabilities && info.serverVersion == h.serverVersion
  {
    ClientCapabilitiesKeepDefault(h.capabilities, config.database);
    ConnectionInfo(h.serverVersion, h.protocolVersion, h.capabilities, ClientCapabilities(h.capabilities, config.database))
  }

  // ---------------------------------------------------------------------
  // Draining a response: the loop `recvPackets` of drainQueue

  /** What the response channel carries: a packet's bytes, or an error. */
  datatype QueueItem = PacketItem(payload: seq<byte>) | ErrorItem(err: Error)

  /**
    The test that ends the draining after a packet was forwarded: the first
    header byte (the low byte of the payload size) below 9, and 0xfe after
    the header.
  */
  predicate EndsResponse(p: seq<byte>)
    requires |p| > 4
    ensures EndsResponse(p) <==> FromLE(p[..3]) % 0x100 < 9 && p[4] == PACKET_TYPE_EOF
  {
    ModUnique(FromLE(p[..3]), 0x100, FromLE(p[..3][1..]), p[0]);
    p[0] < 9 && p[4] == PACKET_TYPE_EOF
  }

  /** Every packet received holds more than its header. */
  predicate Receivable(xs: seq<Received>)
  {
    forall i :: 0 <= i < |xs| && xs[i].Got? ==> |xs[i].payload| > 4
  }

  /**
    What the draining puts on the channel for a run of receives, and
    whether it closed the channel: an error is forwarded and ends it, a
    LOCAL_INFILE request is refused and ends it, any other packet is
    forwarded and ends it when EndsResponse holds. With the receives
    exhausted first, the channel is still open.
  */
  function Drain(xs: seq<Received>): (r: (seq<QueueItem>, bool))
    requires Receivable(xs)
    ensures |r.0| <= |xs| && (r.1 ==> r.0 != [])
  {
    if xs == [] then ([], false)
    else
      var (item, stop) := Step(xs[0]);
      if stop then ([item], true)
      else
        var rest := Drain(xs[1..]);
        ([item] + rest.0, rest.1)
  }

  /** What the draining does with one receive: the item it puts on the channel, and whether it stops. */
  function Step(r: Received): (QueueItem, bool)
    requires r.Got? ==> |r.payload| > 4
  {
    match r
    case Failed(e) => (ErrorItem(e), true)
    case Got(p) =>
      if p[4] == PACKET_TYPE_LOCAL_INFILE then (ErrorItem(LocalInfileUnsupported), true)
      else (PacketItem(p), EndsResponse(p))
  }

  /** The outcomes of the receives over a run of socket reads. */
  function Outcomes(socketReads: seq<(SocketRead, SocketRead)>): (r: seq<Received>)
    requires forall i :: 0 <= i < |socketReads| ==> RecvDefined(socketReads[i].0, socketReads[i].1)
    ensures |r| == |socketReads| && Receivable(r)
    ensures forall i :: 0 <= i < |socketReads| ==> r[i] == RecvOutcome(socketReads[i].0, socketReads[i].1)
    ensures forall i :: 0 <= i < |r| && r[i].Got? ==> r[i].payload[4] != PACKET_TYPE_ERR
  {
    if socketReads == [] then []
    else
      RecvOutcomeFacts(socketReads[0].0, socketReads[0].1);
      [RecvOutcome(socketReads[0].0, socketReads[0].1)] + Outcomes(socketReads[1..])
  }

  /**
    Every item but the last is a packet forwarded as received, that neither
    asked for a local file nor ended the response; there are no more items
    than receives.
  */
  lemma {:induction false} DrainForwards(xs: seq<Received>)
    requires Receivable(xs)
    ensures var (items, _) := Drain(xs);
            && |items| <= |xs|
            && forall i :: 0 <= i < |items| - 1 ==>
                 && xs[i].Got? && items[i] == PacketItem(xs[i].payload)
                 && xs[i].payload[4] != PACKET_TYPE_LOCAL_INFILE && !EndsResponse(xs[i].payload)
  {
    if xs != [] && xs[0].Got? && xs[0].payload[4] != PACKET_TYPE_LOCAL_INFILE && !EndsResponse(xs[0].payload) {
      assert Receivable(xs[1..]);
      DrainForwards(xs[1..]);
      var rest := Drain(xs[1..]).0;
      var items := Drain(xs).0;
      assert items == [PacketItem(xs[0].payload)] + rest;
      forall i | 1 <= i < |items| - 1
        ensures xs[i].Got? && items[i] == PacketItem(xs[i].payload)
        ensures xs[i].payload[4] != PACKET_TYPE_LOCAL_INFILE && !EndsResponse(xs[i].payload)
      {
        assert items[i] == rest[i - 1] && xs[i] == xs[1..][i - 1];
      }
    }
  }

  /**
    How the draining stopped. Closed: the last item is the error of a
    failed receive, the refusal of a LOCAL_INFILE request, or a packet that
    ends the response. Still open: every receive was forwarded as a packet.
  */
  lemma {:induction false} DrainStops(xs: seq<Received>)
    requires Receivable(xs)
    ensures var (items, closed) := Drain(xs);
            && (closed ==>
                  && 0 < |items| <= |xs|
                  && var j := |items| - 1;
                     || (xs[j].Failed? && items[j] == ErrorItem(xs[j].err))
                     || (xs[j].Got? && xs[j].payload[4] == PACKET_TYPE_LOCAL_INFILE && items[j] == ErrorItem(LocalInfileUnsupported))
                     || (xs[j].Got? && xs[j].payload[4] != PACKET_TYPE_LOCAL_INFILE && EndsResponse(xs[j].payload)
                           && items[j] == PacketItem(xs[j].payload)))
            && (!closed ==> |items| == |xs| && forall i :: 0 <= i < |xs| ==>
                  && xs[i].Got? && items[i] == PacketItem(xs[i].payload)
                  && xs[i].payload[4] != PACKET_TYPE_LOCAL_INFILE && !EndsResponse(xs[i].payload))
  {
    if xs != [] && xs[0].Got? && xs[0].payload[4] != PACKET_TYPE_LOCAL_INFILE && !EndsResponse(xs[0].payload) {
      assert Receivable(xs[1..]);
      DrainStops(xs[1..]);
      var (rest, closed) := Drain(xs[1..]);
      var items := Drain(xs).0;
      assert items == [PacketItem(xs[0].payload)] + rest;
      if closed {
        assert items[|items| - 1] == rest[|rest| - 1] && xs[|items| - 1] == xs[1..][|rest| - 1];
      } else {
        forall i | 1 <= i < |xs|
          ensures xs[i].Got? && items[i] == PacketItem(xs[i].payload)
          ensures xs[i].payload[4] != PACKET_TYPE_LOCAL_INFILE && !EndsResponse(xs[i].payload)
        {
          assert items[i] == rest[i - 1] && xs[i] == xs[1..][i - 1];
        }
      }
    }
  }

  /** No LOCAL_INFILE request reaches the channel: it is always refused. */
  lemma {:induction false} DrainRefusesLocalInfile(xs: seq<Received>)
    requires Receivable(xs)
    ensures forall it :: it in Drain(xs).0 && it.PacketItem? && |it.payload| > 4 ==> it.payload[4] != PACKET_TYPE_LOCAL_INFILE
  {
    DrainForwards(xs);
    DrainStops(xs);
    var items := Drain(xs).0;
    forall it | it in items && it.PacketItem? && |it.payload| > 4
      ensures it.payload[4] != PACKET_TYPE_LOCAL_INFILE
    {
      var i :| 0 <= i < |items| && items[i] == it;
      if i == |items| - 1 && !Drain(xs).1 {
        assert xs[i].payload[4] != PACKET_TYPE_LOCAL_INFILE;
      }
    }
  }

  /** Drain unfolded once: the first receive's step, then the rest unless it stopped. */
  lemma DrainUnfold(ys: seq<Received>)
    requires Receivable(ys) && ys != []
    ensures Receivable(ys[1..])
    ensures Step(ys[0]).1 ==> Drain(ys) == ([Step(ys[0]).0], true)
    ensures !Step(ys[0]).1 ==> Drain(ys) == ([Step(ys[0]).0] + Drain(ys[1..]).0, Drain(ys[1..]).1)
  {
    assert forall i :: 0 <= i < |ys| - 1 ==> ys[1..][i] == ys[i + 1];
  }

  /** What follows a receive that holds more than its header does too. */
  lemma ReceivableSuffix(xs: seq<Received>, k: nat)
    requires Receivable(xs) && k <= |xs|
    ensures Receivable(xs[k..])
  {
    forall i | 0 <= i < |xs| - k && xs[k..][i].Got?
      ensures |xs[k..][i].payload| > 4
    {
      assert xs[k..][i] == xs[k + i];
    }
  }

  /** One more receive taken by the draining loop: the item it forwards joins those before it. */
  lemma DrainAdvance(rest: seq<Received>, items: seq<QueueItem>, total: (seq<QueueItem>, bool), item: QueueItem, stop: bool)
    requires Receivable(rest) && rest != [] && Step(rest[0]) == (item, stop)
    requires total == (items + Drain(rest).0, Drain(rest).1)
    ensures Receivable(rest[1..])
    ensures stop ==> total == (items + [item], true)
    ensures !stop ==> total == (items + [item] + Drain(rest[1..]).0, Drain(rest[1..]).1)
  {
    DrainUnfold(rest);
    if !stop {
      var tail := Drain(rest[1..]).0;
      assert items + ([item] + tail) == items + [item] + tail;
    }
  }

  /**
    An OK packet does not end the response: it is forwarded and the
    draining goes on with the next receive.
  */
  lemma OkPacketContinues(xs: seq<Received>)
    requires Receivable(xs) && xs != [] && xs[0].Got? && xs[0].payload[4] == PACKET_TYPE_OK
    ensures Drain(xs) == ([PacketItem(xs[0].payload)] + Drain(xs[1..]).0, Drain(xs[1..]).1)
  {
    assert Receivable(xs[1..]);
  }

  /**
    A received EOF packet (payload size below 9, 0xfe after the header)
    ends the response.
  */
  lemma RecvEofEndsResponse(header: SocketRead, body: SocketRead)
    requires RecvDefined(header, body)
    requires var r := RecvOutcome(header, body); r.Got? && |r.payload| - 4 < 9 && r.payload[4] == PACKET_TYPE_EOF
    ensures EndsResponse(RecvOutcome(header, body).payload)
  {
    RecvOutcomeFacts(header, body);
    var p := RecvOutcome(header, body).payload;
    var h := header.bytes[..3];
    assert FromLE(h) == h[0] + 256 * FromLE(h[1..]);
    assert p[0] == h[0];
  }

  /**
    The test reads only the low byte of the size: a packet of 0x105 bytes
    with 0xfe after the header, too long to be an EOF packet, ends the
    response too.
  */
  lemma LongPacketEndsResponse(rest: seq<byte>)
    requires |rest| == 0x104
    ensures var p := [5, 1, 0, 0, PACKET_TYPE_EOF] + rest;
            var header := ReadBytes([5, 1, 0, 0]);
            && RecvDefined(header, ReadBytes(p[4..]))
            && RecvOutcome(header, ReadBytes(p[4..])) == Got(p)
            && |p| - 4 >= 9 && EndsResponse(p)
  {
    var p := [5, 1, 0, 0, PACKET_TYPE_EOF] + rest;
    var h: seq<byte> := [5, 1, 0, 0];
    assert h[..3] == [5, 1, 0];
    assert FromLE([0]) == 0;
    assert FromLE([1, 0]) == 1 by { assert [1, 0][1..] == [0]; }
    assert FromLE([5, 1, 0]) == 0x105 by { assert [5, 1, 0][1..] == [1, 0]; }
    assert AnnouncedSize(h) == 0x105;
    assert RecvBuffer(h, p[4..]) == p;
  }

  // ---------------------------------------------------------------------
  // The decoding loops of `Query` over the response channel

  /**
    A decoding result: the values read, the index of the next item on the
    channel, and the error that ended it, if any.
  */
  type Decoded<T> = (seq<T>, nat, Option<Error>)

  /** Values read before a result: an error discards them, as `return nil, err` does. */
  function Prepend<T>(acc: seq<T>, r: Decoded<T>): Decoded<T>
  {
    if r.2.Some? then r else (acc + r.0, r.1, r.2)
  }

  /** Nothing read before a result leaves it as it is. */
  lemma PrependNothing<T>(r: Decoded<T>)
    ensures Prepend([], r) == r
  {
    if r.2.None? {
      assert [] + r.0 == r.0;
    }
  }

  /** Values read one at a time add up. */
  lemma PrependAppend<T>(acc: seq<T>, x: seq<T>, r: Decoded<T>)
    ensures Prepend(acc, Prepend(x, r)) == Prepend(acc + x, r)
  {
    if r.2.None? {
      assert acc + (x + r.0) == acc + x + r.0;
    }
  }

  /**
    The column loop of `Query` from the k-th item on, with loop counter i:
    an error item ends it with that error; a packet is decoded as a column
    definition, and the counter goes on from what the decoder hands back.
    A channel that runs dry before the loop ends is a nil packet, and a
    panic: None.
  */
  function ColumnsRead(items: seq<QueueItem>, k: nat, i: int, count: int, extended: bool): (r: Option<Decoded<TableColumn>>)
    ensures i >= count ==> r == Some(([], k, None))
  {
    ColumnsLoop(items, k, i, count, extended, ColumnDecoder(extended))
  }

  /**
    The decoder the column loop applies to each packet. It stands for
    nothing in the source, where the loop body decodes the packet in
    place: passing it as a value keeps ColumnAt folded while the proofs
    reason about the loop, which ColumnsLoop states for any decoder.
  */
  function ColumnDecoder(extended: bool): seq<byte> -> Option<ColumnDefinition>
  {
    p => ColumnOf(p, extended)
  }

  /** The column definition a packet carries after its 4-byte header. */
  function ColumnOf(p: seq<byte>, extended: bool): Option<ColumnDefinition>
  {
    var r :- ColumnAt(MariaDB, p, 4, extended);
    Some(r.0)
  }

  /** The column loop, for any decoder of one column packet. */
  function ColumnsLoop(items: seq<QueueItem>, k: nat, i: int, count: int, extended: bool,
                       decode: seq<byte> -> Option<ColumnDefinition>): (r: Option<Decoded<TableColumn>>)
    decreases |items| - k, 1
  {
    if i >= count then Some(([], k, None))
    else if k >= |items| then None
    else ColumnsItem(items, k, i, count, extended, decode)
  }

  /** One pass of the column loop, on the k-th item. */
  function ColumnsItem(items: seq<QueueItem>, k: nat, i: int, count: int, extended: bool,
                       decode: seq<byte> -> Option<ColumnDefinition>): (r: Option<Decoded<TableColumn>>)
    requires k < |items|
    decreases |items| - k, 0
  {
    match items[k]
    case ErrorItem(e) => Some(([], k + 1, Some(e)))
    case PacketItem(p) =>
      var c :- decode(p);
      var next := if extended then |c.extendedTypes| else i;
      var more :- ColumnsLoop(items, k + 1, next + 1, count, extended, decode);
      Some(Prepend([c.column], more))
  }

  /** A column loop that ends in an error has read nothing and has taken at least one item. */
  lemma {:induction false} ColumnsLoopFailure(items: seq<QueueItem>, k: nat, i: int, count: int, extended: bool,
                                              decode: seq<byte> -> Option<ColumnDefinition>)
    ensures var r := ColumnsLoop(items, k, i, count, extended, decode);
            r.Some? && r.value.2.Some? ==> r.value.0 == [] && k < r.value.1 <= |items|
    decreases |items| - k
  {
    if i < count && k < |items| && items[k].PacketItem? && decode(items[k].payload).Some? {
      var c := decode(items[k].payload).value;
      var next := if extended then |c.extendedTypes| else i;
      ColumnsLoopFailure(items, k + 1, next + 1, count, extended, decode);
    }
  }

  /**
    Without the extended type block (the client never asks for it), the
    column loop reads exactly one column per packet: a run that ends
    without an error has read count - i columns from as many items.
  */
  lemma ColumnsReadCounts(items: seq<QueueItem>, k: nat, i: int, count: int)
    requires ColumnsRead(items, k, i, count, false).Some? && ColumnsRead(items, k, i, count, false).value.2.None?
    ensures var r := ColumnsRead(items, k, i, count, false).value;
            && |r.0| == (if i < count then count - i else 0) && r.1 == k + |r.0| && (i < count ==> r.1 <= |items|)
            && forall j :: k <= j < r.1 ==> items[j].PacketItem?
  {
    ColumnsLoopCounts(items, k, i, count, ColumnDecoder(false));
  }

  lemma {:induction false} ColumnsLoopCounts(items: seq<QueueItem>, k: nat, i: int, count: int, decode: seq<byte> -> Option<ColumnDefinition>)
    requires ColumnsLoop(items, k, i, count, false, decode).Some? && ColumnsLoop(items, k, i, count, false, decode).value.2.None?
    ensures var r := ColumnsLoop(items, k, i, count, false, decode).value;
            && |r.0| == (if i < count then count - i else 0) && r.1 == k + |r.0| && (i < count ==> r.1 <= |items|)
            && forall j :: k <= j < r.1 ==> items[j].PacketItem?
    decreases |items| - k
  {
    if i < count {
      var r := ColumnsLoop(items, k, i, count, false, decode).value;
      var more := ColumnsLoop(items, k + 1, i + 1, count, false, decode).value;
      assert items[k].PacketItem? && more.2.None? && r == ([decode(items[k].payload).value.column] + more.0, more.1, None);
      ColumnsLoopCounts(items, k + 1, i + 1, count, decode);
    }
  }

  /** The column loop unfolded once, for any decoder, at a packet the decoder reads. */
  lemma ColumnsLoopStep(items: seq<QueueItem>, k: nat, i: int, count: int, extended: bool,
                        decode: seq<byte> -> Option<ColumnDefinition>, c: ColumnDefinition, column: TableColumn, next: int)
    requires ColumnsLoop(items, k, i, count, extended, decode).Some? && i < count
    requires k < |items| && items[k].PacketItem? && decode(items[k].payload) == Some(c)
    requires column == c.column && next == if extended then |c.extendedTypes| else i
    ensures ColumnsLoop(items, k + 1, next + 1, count, extended, decode).Some?
    ensures ColumnsLoop(items, k, i, count, extended, decode).value
            == Prepend([column], ColumnsLoop(items, k + 1, next + 1, count, extended, decode).value)
  {
    assert ColumnsLoop(items, k, i, count, extended, decode) == ColumnsItem(items, k, i, count, extended, decode);
  }

  /** At a packet item, a column loop that has a result has decoded that packet. */
  lemma ColumnsLoopUnfold(items: seq<QueueItem>, k: nat, i: int, count: int, extended: bool,
                          decode: seq<byte> -> Option<ColumnDefinition>)
    requires ColumnsLoop(items, k, i, count, extended, decode).Some? && i < count
    requires k < |items| && items[k].PacketItem?
    ensures decode(items[k].payload).Some?
  {
  }

  /** A column loop that has a result and is not done has an item to start from. */
  lemma ColumnsReadInside(items: seq<QueueItem>, k: nat, i: int, count: int, extended: bool)
    requires ColumnsRead(items, k, i, count, extended).Some? && i < count
    ensures k < |items|
  {
  }

  /** An error item ends the column loop with that error. */
  lemma ColumnsReadError(items: seq<QueueItem>, k: nat, i: int, count: int, extended: bool)
    requires k < |items| && items[k].ErrorItem? && i < count
    ensures ColumnsRead(items, k, i, count, extended) == Some(([], k + 1, Some(items[k].err)))
  {
    assert ColumnsLoop(items, k, i, count, extended, ColumnDecoder(extended))
        == ColumnsItem(items, k, i, count, extended, ColumnDecoder(extended));
  }

  /** The row loop unfolded once, on an item that is not an EOF packet. */
  lemma RowsReadUnfold(items: seq<QueueItem>, k: nat, columns: seq<TableColumn>)
    requires RowsRead(items, k, columns).Some?
    ensures k < |items|
    ensures items[k].ErrorItem? ==> RowsRead(items, k, columns).value == ([], k + 1, Some(items[k].err))
    ensures items[k].PacketItem? ==> |items[k].payload| > 4
    ensures items[k].PacketItem? && items[k].payload[4] == PACKET_TYPE_EOF && |items[k].payload| - 4 < 9 ==>
              RowsRead(items, k, columns).value == ([], k + 1, None)
    ensures items[k].PacketItem? && !(items[k].payload[4] == PACKET_TYPE_EOF && |items[k].payload| - 4 < 9) ==>
              && RowAt(MariaDB, items[k].payload, 4, columns).Some?
              && RowsRead(items, k + 1, columns).Some?
              && RowsRead(items, k, columns).value
                 == Prepend(Repeat(RowAt(MariaDB, items[k].payload, 4, columns).value.0, |columns|), RowsRead(items, k + 1, columns).value)
  {
  }

  /**
    The row loop of `Query` from the k-th item on: an error item ends it
    with that error, an EOF packet ends it, any other packet is decoded as
    a row, which the result holds once per column.
  */
  function RowsRead(items: seq<QueueItem>, k: nat, columns: seq<TableColumn>): (r: Option<Decoded<map<seq<byte>, Option<int>>>>)
    decreases |items| - k
  {
    if k >= |items| then None
    else match items[k]
      case ErrorItem(e) => Some(([], k + 1, Some(e)))
      case PacketItem(p) =>
        if |p| <= 4 then None
        else if p[4] == PACKET_TYPE_EOF && |p| - 4 < 9 then Some(([], k + 1, None))
        else
          var row :- RowAt(MariaDB, p, 4, columns);
          var more :- RowsRead(items, k + 1, columns);
          Some(Prepend(Repeat(row.0, |columns|), more))
  }

  /**
    A row loop takes at least one item and stays within the channel; one
    that ends in an error has read no rows.
  */
  lemma {:induction false} RowsReadBounds(items: seq<QueueItem>, k: nat, columns: seq<TableColumn>)
    ensures var r := RowsRead(items, k, columns);
            r.Some? ==> k < r.value.1 <= |items| && (r.value.2.Some? ==> r.value.0 == [])
    decreases |items| - k
  {
    if k < |items| && items[k].PacketItem? {
      RowsReadBounds(items, k + 1, columns);
    }
  }

  /**
    A row loop that ends without an error ends at an EOF packet, after
    decoding every packet before it, and holds one entry per column for
    each of them.
  */
  lemma {:induction false} RowsReadEndsAtEof(items: seq<QueueItem>, k: nat, columns: seq<TableColumn>)
    requires RowsRead(items, k, columns).Some? && RowsRead(items, k, columns).value.2.None?
    ensures var (rows, next, _) := RowsRead(items, k, columns).value;
            && k < next <= |items|
            && items[next - 1].PacketItem? && |items[next - 1].payload| > 4
            && items[next - 1].payload[4] == PACKET_TYPE_EOF && |items[next - 1].payload| - 4 < 9
            && |rows| == |columns| * (next - 1 - k)
    decreases |items| - k
  {
    RowsReadUnfold(items, k, columns);
    var p := items[k].payload;
    if !(p[4] == PACKET_TYPE_EOF && |p| - 4 < 9) {
      RowsReadEndsAtEof(items, k + 1, columns);
      var more := RowsRead(items, k + 1, columns).value;
      assert |columns| * (more.1 - 1 - k) == |columns| + |columns| * (more.1 - 1 - (k + 1));
    }
  }

  /** The maps the rows hold, in order. */
  function CellsOf(rows: seq<ResultRow>): seq<map<seq<byte>, Option<int>>>
    reads set r | r in rows
  {
    if rows == [] then [] else CellsOf(rows[..|rows| - 1]) + [rows[|rows| - 1].cells]
  }

  /** The maps of rows appended after others follow theirs. */
  lemma {:induction false} CellsOfAppend(rows: seq<ResultRow>, more: seq<ResultRow>)
    ensures CellsOf(rows + more) == CellsOf(rows) + CellsOf(more)
    decreases |more|
  {
    if more == [] {
      assert rows + more == rows;
    } else {
      var n := |more| - 1;
      assert (rows + more)[..|rows + more| - 1] == rows + more[..n];
      assert (rows + more)[|rows + more| - 1] == more[n];
      CellsOfAppend(rows, more[..n]);
    }
  }

  /** The same row n times holds its map n times. */
  lemma {:induction false} CellsOfRepeat(row: ResultRow, n: nat)
    ensures CellsOf(Repeat(row, n)) == Repeat(row.cells, n)
    decreases n
  {
    if n > 0 {
      assert Repeat(row, n)[..n - 1] == Repeat(row, n - 1);
      CellsOfRepeat(row, n - 1);
    }
  }

  /** The packet a channel item carries, as `recv` built it. */
  method PacketOf(payload: seq<byte>) returns (packet: Packet)
    ensures fresh(packet) && packet.dialect == MariaDB && packet.payload == payload
    ensures packet.pos == 0 && packet.hasHeader && packet.direction == Incoming
  {
    packet := new Packet(MariaDB);
    packet.payload := payload;
    packet.hasHeader := true;
  }

  /** A row loop that has a result has an item to start from. */
  lemma RowsReadInside(items: seq<QueueItem>, k: nat, columns: seq<TableColumn>)
    requires RowsRead(items, k, columns).Some?
    ensures k < |items|
  {
  }

  /** An error item ends the row loop with that error. */
  lemma RowsReadError(items: seq<QueueItem>, k: nat, columns: seq<TableColumn>)
    requires k < |items| && items[k].ErrorItem?
    ensures RowsRead(items, k, columns) == Some(([], k + 1, Some(items[k].err)))
  {
  }

  /**
    One step of the row loop on a packet item: an EOF packet ends the loop,
    any other packet adds its row once per column.
  */
  method DecodeRowItem(items: seq<QueueItem>, k: nat, columns: seq<TableColumn>, rows: seq<ResultRow>)
      returns (more: seq<ResultRow>, eof: bool)
    requires RowsRead(items, k, columns).Some? && k < |items| && items[k].PacketItem?
    ensures eof ==> RowsRead(items, k, columns).value == ([], k + 1, None) && more == rows
    ensures !eof ==> && RowsRead(items, k + 1, columns).Some?
                     && Prepend(CellsOf(rows), RowsRead(items, k, columns).value)
                        == Prepend(CellsOf(more), RowsRead(items, k + 1, columns).value)
  {
    var packet := PacketOf(items[k].payload);
    assert |packet.payload| > 4 by {
      RowsReadUnfold(items, k, columns);
    }
    eof := packet.IsEOF();
    if eof {
      more := rows;
      assert RowsRead(items, k, columns).value == ([], k + 1, None) by {
        RowsReadUnfold(items, k, columns);
      }
      return;
    }
    assert RowAt(MariaDB, items[k].payload, 4, columns).Some? by {
      RowsReadUnfold(items, k, columns);
    }
    ghost var before := CellsOf(rows);
    var row;
    row, more := DecodeRow(packet, columns, rows);
    assert before == CellsOf(rows);
    CellsOfAppend(rows, Repeat(row, |columns|));
    CellsOfRepeat(row, |columns|);
    RowItemStep(items, k, columns, before, row.cells);
  }

  /** The row loop after the row decoded at a packet item that is not an EOF packet. */
  lemma RowItemStep(items: seq<QueueItem>, k: nat, columns: seq<TableColumn>,
                    before: seq<map<seq<byte>, Option<int>>>, cells: map<seq<byte>, Option<int>>)
    requires RowsRead(items, k, columns).Some? && k < |items| && items[k].PacketItem?
    requires |items[k].payload| > 4 && !(items[k].payload[4] == PACKET_TYPE_EOF && |items[k].payload| - 4 < 9)
    requires RowAt(MariaDB, items[k].payload, 4, columns).Some? && cells == RowAt(MariaDB, items[k].payload, 4, columns).value.0
    ensures RowsRead(items, k + 1, columns).Some?
    ensures Prepend(before, RowsRead(items, k, columns).value)
            == Prepend(before + Repeat(cells, |columns|), RowsRead(items, k + 1, columns).value)
  {
    RowsReadUnfold(items, k, columns);
    PrependAppend(before, Repeat(cells, |columns|), RowsRead(items, k + 1, columns).value);
  }

  /** At a packet item, the column loop decodes it as a column definition. */
  lemma ColumnItemDecodes(items: seq<QueueItem>, k: nat, i: int, count: int, extended: bool)
    requires ColumnsRead(items, k, i, count, extended).Some? && i < count
    requires k < |items| && items[k].PacketItem?
    ensures ColumnAt(MariaDB, items[k].payload, 4, extended).Some?
  {
    ColumnsLoopUnfold(items, k, i, count, extended, ColumnDecoder(extended));
  }

  /** One step of the column loop: the packet at the k-th item decoded as a column definition. */
  method DecodeColumnItem(items: seq<QueueItem>, k: nat, i: int, count: int, extended: bool) returns (column: TableColumn, next: int)
    requires ColumnsRead(items, k, i, count, extended).Some? && i < count
    requires k < |items| && items[k].PacketItem?
    ensures ColumnsRead(items, k + 1, next + 1, count, extended).Some?
    ensures ColumnsRead(items, k, i, count, extended).value == Prepend([column], ColumnsRead(items, k + 1, next + 1, count, extended).value)
  {
    var payload := items[k].payload;
    ColumnItemDecodes(items, k, i, count, extended);
    var packet := PacketOf(payload);
    ghost var r := ColumnAt(MariaDB, payload, 4, extended).value;
    column, next := DecodeColumn(packet, extended, i);
    assert column == r.0.column && next == if extended then |r.0.extendedTypes| else i;
    ColumnItemStep(items, k, i, count, extended, column, next);
  }

  /** After the column decoded at a packet item, the column loop goes on from the counter handed back. */
  lemma ColumnItemStep(items: seq<QueueItem>, k: nat, i: int, count: int, extended: bool, column: TableColumn, next: int)
    requires ColumnsRead(items, k, i, count, extended).Some? && i < count
    requires k < |items| && items[k].PacketItem? && ColumnAt(MariaDB, items[k].payload, 4, extended).Some?
    requires column == ColumnAt(MariaDB, items[k].payload, 4, extended).value.0.column
    requires next == if extended then |ColumnAt(MariaDB, items[k].payload, 4, extended).value.0.extendedTypes| else i
    ensures ColumnsRead(items, k + 1, next + 1, count, extended).Some?
    ensures ColumnsRead(items, k, i, count, extended).value == Prepend([column], ColumnsRead(items, k + 1, next + 1, count, extended).value)
  {
    var c := ColumnAt(MariaDB, items[k].payload, 4, extended).value.0;
    var decode := ColumnDecoder(extended);
    assert decode(items[k].payload) == Some(c);
    ColumnsLoopStep(items, k, i, count, extended, decode, c, column, next);
    assert ColumnsRead(items, k, i, count, extended) == ColumnsLoop(items, k, i, count, extended, decode);
    assert ColumnsRead(items, k + 1, next + 1, count, extended) == ColumnsLoop(items, k + 1, next + 1, count, extended, decode);
  }

  // ---------------------------------------------------------------------
  // The first item of a query response, and the whole decoding of `Query`

  /** What `Query` makes of the first item of the response. */
  datatype QueryHead = HeadError(err: Error) | HeadOk(lastInsertId: int) | HeadColumns(count: nat)

  /**
    The first item of the response as `Query` reads it: an error item's
    error is returned; an OK packet (isOK: 0x00 after the header and a
    payload below 0xffffff bytes) is read after skip(1) from the cursor
    recv left at 0, so from byte 1 of the header on, and its second
    length-encoded integer is the last insert id; any other packet gives
    its column count as the single byte after the header (peekAt(4)). A
    channel that has run dry hands a nil packet, and a panic: None, as for
    a packet no receive produces (one no longer than its header).
  */
  function HeadAt(items: seq<QueueItem>): (r: Option<QueryHead>)
    ensures r.Some? ==> items != [] && (r.value.HeadError? <==> items[0].ErrorItem?)
    ensures r.Some? && r.value.HeadOk? ==> 0 <= r.value.lastInsertId < 0x1_0000
  {
    if items == [] then None
    else match items[0]
      case ErrorItem(e) => Some(HeadError(e))
      case PacketItem(p) =>
        if |p| <= 4 then None
        else if p[4] == PACKET_TYPE_OK && |p| - 4 < 0xff_ffff then
          var affected :- TakeLenEncInt(p, 1);
          var insertId :- TakeLenEncInt(p, affected.1);
          Some(HeadOk(insertId.0))
        else Some(HeadColumns(p[4]))
  }

  /**
    The column count is the first byte after the header, although the
    server sends it length-encoded: a count below 0xfb is read back
    exactly, a larger one reads as its prefix byte (0xfc, 0xfd or 0xfe),
    which is right only by coincidence, for 0xfc.
  */
  lemma ColumnCountByte(header: seq<byte>, n: nat, rest: seq<byte>, more: seq<QueueItem>)
    requires |header| == 4 && 0 < n < 0x1_0000_0000_0000_0000
    ensures HeadAt([PacketItem(header + LenEnc(n) + rest)] + more) == Some(HeadColumns(LenEnc(n)[0]))
    ensures n < 0xfb ==> LenEnc(n)[0] == n
    ensures n >= 0xfb ==> LenEnc(n)[0] in {0xfc, 0xfd, 0xfe}
    ensures LenEnc(n)[0] == n <==> n < 0xfb || n == 0xfc
  {
    var p := header + LenEnc(n) + rest;
    assert p[4] == LenEnc(n)[0];
  }

  /**
    The OK branch reads its two integers from byte 1 on, inside the header:
    the last insert id recorded is the high byte of the payload size,
    whatever the packet's body holds. For every OK packet shorter than 0xfb
    bytes, that is 0, whatever insert id the server sent.
  */
  lemma OkReadsHeader(sequence: byte, affected: nat, insertId: nat, rest: seq<byte>, more: seq<QueueItem>)
    requires var body := [PACKET_TYPE_OK] + LenEnc(affected) + LenEnc(insertId) + rest;
             |body| < 0xfb
    ensures var body := [PACKET_TYPE_OK] + LenEnc(affected) + LenEnc(insertId) + rest;
            HeadAt([PacketItem(LE(|body|, 3) + [sequence] + body)] + more) == Some(HeadOk(0))
  {
    var body := [PACKET_TYPE_OK] + LenEnc(affected) + LenEnc(insertId) + rest;
    var p := LE(|body|, 3) + [sequence] + body;
    LEBytes(|body|);
    assert p[1] == 0 && p[2] == 0 && p[4] == PACKET_TYPE_OK;
    assert TakeLenEncInt(p, 1) == Some((0, 2));
    assert TakeLenEncInt(p, 2) == Some((0, 3));
  }

  /**
    The header's length field of a payload shorter than 0xfb bytes: its low
    byte, then two zero bytes. These zeros are what the OK branch of
    OkReadsHeader reads as its two length-encoded integers.
  */
  lemma LEBytes(v: nat)
    requires v < 0xfb
    ensures LE(v, 3) == [v, 0, 0]
  {
    assert LE(v, 3) == [v % 0x100] + LE(v / 0x100, 2);
    assert LE(0, 2) == [0] + LE(0, 1);
    assert LE(0, 1) == [0] + LE(0, 0);
  }

  /**
    The whole decoding below the early return of `Query`: the first item
    decides between an error, an OK packet and a column count; then that
    many column definitions, then rows up to an EOF packet. Any error
    discards what was read, as `return nil, err` does.
  */
  function QueryRead(items: seq<QueueItem>, extended: bool): (r: Option<(seq<map<seq<byte>, Option<int>>>, Option<Error>)>)
    ensures r.Some? ==> HeadAt(items).Some?
    ensures r.Some? && r.value.1.Some? ==> r.value.0 == []
  {
    var head :- HeadAt(items);
    match head
    case HeadError(e) => Some(([], Some(e)))
    case HeadOk(_) => Some(([], None))
    case HeadColumns(n) =>
      var columns :- ColumnsRead(items, 1, 0, n, extended);
      if columns.2.Some? then Some(([], columns.2))
      else
        var rows :- RowsRead(items, columns.1, columns.0);
        RowsReadBounds(items, columns.1, columns.0);
        Some((rows.0, rows.2))
  }

  /**
    With the mask the client sends (no extended type block), a query
    response decoded without an error holds exactly as many column
    definitions as the first packet announced, right after it, then rows up
    to an EOF packet; the result holds one map per column for each row.
  */
  lemma QueryReadEndsAtEof(items: seq<QueueItem>)
    requires QueryRead(items, false).Some? && QueryRead(items, false).value.1.None?
    requires HeadAt(items).Some? && HeadAt(items).value.HeadColumns?
    ensures var n := HeadAt(items).value.count;
            var columns := ColumnsRead(items, 1, 0, n, false).value;
            && |columns.0| == n && columns.1 == 1 + n
            && RowsRead(items, 1 + n, columns.0).Some?
            && var (cells, next, _) := RowsRead(items, 1 + n, columns.0).value;
               && QueryRead(items, false).value.0 == cells
               && 1 + n < next <= |items|
               && items[next - 1].PacketItem? && |items[next - 1].payload| > 4
               && items[next - 1].payload[4] == PACKET_TYPE_EOF
               && |cells| == n * (next - 2 - n)
  {
    var n := HeadAt(items).value.count;
    ColumnsReadCounts(items, 1, 0, n);
    var columns := ColumnsRead(items, 1, 0, n, false).value;
    RowsReadEndsAtEof(items, 1 + n, columns.0);
  }

  class Connection {
    var ready: bool
    const config: Config
    var info: ConnectionInfo
    var sequence: byte
    var lastInsertId: int

    /** The connection `Connect` builds before the handshake: not ready, empty info. */
    constructor (config: Config)
      ensures this.config == config && !ready && info == ConnectionInfo([], 0, 0, 0)
      ensures sequence == 0 && lastInsertId == 0
    {
      this.config := config;
      ready := false;
      info := ConnectionInfo([], 0, 0, 0);
      sequence := 0;
      lastInsertId := 0;
    }

    /**
      `recv()` after its socket reads: builds the packet from the header
      and the body buffer, records the sequence number (always 0, since
      readUInt24 has cleared it), and turns an ERR packet into its error.
    */
    method Recv(header: SocketRead, body: SocketRead) returns (packet: Packet?, err: Option<Error>)
      requires RecvDefined(header, body)
      modifies this`sequence
      ensures sequence == if FullHeader(header) then 0 else old(sequence)
      ensures err.None? <==> packet != null
      ensures err.Some? ==> RecvOutcome(header, body) == Failed(err.value)
      ensures packet != null ==>
                && fresh(packet) && RecvOutcome(header, body) == Got(packet.payload)
                && packet.hasHeader && packet.direction == Incoming && packet.pos == 0
                && packet.dialect == MariaDB
    {
      if header.ReadError? {
        return null, Some(SocketError(header.text));
      }
      if |header.bytes| != 4 {
        return null, Some(ShortHeader);
      }
      var h := header.bytes;
      packet := new Packet(MariaDB);
      packet.WriteHeader(h);
      assert packet.payload[0..3] == h[..3];
      var size := packet.ReadUInt24();
      assert size == AnnouncedSize(h);
      sequence := packet.GetSequence();
      assert packet.payload == h[..3] + [0];
      if body.ReadError? {
        return null, Some(PayloadReadFailed);
      }
      var buf := body.bytes + Zeros(size - |body.bytes|);
      packet.WriteBytes(buf);
      packet.direction := Incoming;
      assert packet.payload == RecvBuffer(h, body.bytes);
      if packet.IsERR() {
        var er := new ErrorPacket(packet);
        var code := er.Code();
        var message := er.Error();
        return null, Some(ServerError(code, message));
      }
      err := None;
    }

    /**
      The first half of `init`, after the greeting was received: parses the
      greeting, records what it announced, and builds the handshake response
      (sequence number 1), whose mask is recorded too.
    */
    method StartHandshake(greeting: Packet, sha1: Sha1) returns (response: Packet)
      requires greeting.dialect == MariaDB && greeting.pos == 0 && greeting.hasHeader
      requires Answerable(greeting.payload, config, sha1)
      modifies this`info, greeting`pos
      ensures greeting.pos == GreetingAt(MariaDB, greeting.payload, 4).value.1
      ensures var h := GreetingAt(MariaDB, greeting.payload, 4).value.0;
              && info == InfoOf(h, config)
              && fresh(response) && response.dialect == MariaDB
              && IsResponse(response, ResponseBody(h, config, sha1).value)
    {
      ghost var h := GreetingAt(MariaDB, greeting.payload, 4).value.0;
      var request := ParseHandshakeRequest(greeting);
      assert request == h;
      info := ConnectionInfo(request.serverVersion, request.protocolVersion, request.capabilities, 0);
      var clientCapabilities;
      response, clientCapabilities := CreateHandshakeResponsePacket(MariaDB, request, config, sha1);
      info := info.(clientCapabilities := clientCapabilities);
    }

    /**
      The second half of `init`, on the server's reply: an Authentication
      Switch Request (0xfe after the header) is refused with the connection
      left not ready; any other reply makes the connection ready.
    */
    method FinishHandshake(reply: Packet) returns (err: Option<Error>)
      requires 0 <= reply.pos && reply.pos + 4 < |reply.payload|
      modifies this`ready, reply`pos
      ensures var switch := reply.payload[old(reply.pos) + 4] == PACKET_TYPE_EOF;
              && (switch ==> err == Some(AuthSwitchUnsupported) && ready == old(ready) && reply.pos == old(reply.pos) + 5)
              && (!switch ==> err.None? && ready && reply.pos == old(reply.pos) + 4)
    {
      reply.Skip(4);
      if reply.Peek() == 0xfe {
        reply.Skip(1);
        return Some(AuthSwitchUnsupported);
      }
      ready := true;
      err := None;
    }

    /**
      `init()`: receives the greeting, answers it, receives the server's
      reply and checks it. Each failed receive ends it with that error.
      Sending the response is left to the caller: the packet is returned.
    */
    method Init(greeting: (SocketRead, SocketRead), reply: (SocketRead, SocketRead), sha1: Sha1)
        returns (response: Packet?, err: Option<Error>)
      requires RecvDefined(greeting.0, greeting.1) && RecvDefined(reply.0, reply.1)
      requires RecvOutcome(greeting.0, greeting.1).Got? ==> Answerable(RecvOutcome(greeting.0, greeting.1).payload, config, sha1)
      modifies this`sequence, this`info, this`ready
      ensures sequence == if FullHeader(greeting.0) then 0 else old(sequence)
      ensures var first := RecvOutcome(greeting.0, greeting.1);
              && (first.Failed? ==> response == null && err == Some(first.err) && info == old(info) && ready == old(ready))
              && (first.Got? ==>
                    var h := GreetingAt(MariaDB, first.payload, 4).value.0;
                    && info == InfoOf(h, config)
                    && response != null && fresh(response) && IsResponse(response, ResponseBody(h, config, sha1).value))
      ensures var first := RecvOutcome(greeting.0, greeting.1);
              var second := RecvOutcome(reply.0, reply.1);
              first.Got? ==>
                && (second.Failed? ==> err == Some(second.err) && ready == old(ready))
                && (second.Got? && second.payload[4] == PACKET_TYPE_EOF ==> err == Some(AuthSwitchUnsupported) && ready == old(ready))
                && (second.Got? && second.payload[4] != PACKET_TYPE_EOF ==> err.None? && ready)
    {
      var packet, e := Recv(greeting.0, greeting.1);
      if e.Some? {
        return null, e;
      }
      response := StartHandshake(packet, sha1);
      packet, e := Recv(reply.0, reply.1);
      if e.Some? {
        return response, e;
      }
      RecvOutcomeFacts(reply.0, reply.1);
      err := FinishHandshake(packet);
    }

    /**
      One pass of the loop of `recvPackets`: a receive, and the item it puts
      on the channel, and whether the loop stops there.
    */
    method RecvItem(header: SocketRead, body: SocketRead) returns (item: QueueItem, stop: bool)
      requires RecvDefined(header, body)
      modifies this`sequence
      ensures sequence == if FullHeader(header) then 0 else old(sequence)
      ensures RecvOutcome(header, body).Got? ==> |RecvOutcome(header, body).payload| > 4
      ensures (item, stop) == Step(RecvOutcome(header, body))
    {
      RecvOutcomeFacts(header, body);
      var packet, err := Recv(header, body);
      if err.Some? {
        item, stop := ErrorItem(err.value), true;
      } else if packet.IsLocalInfile() {
        item, stop := ErrorItem(LocalInfileUnsupported), true;
      } else {
        item, stop := PacketItem(packet.payload), packet.Peek() < 9 && packet.PeekAt(4) == 0xfe;
      }
    }

    /**
      `recvPackets`: receives packet after packet and puts each on the
      response channel until Drain stops it; the channel is closed then.
      With the reads exhausted first, it is left open.
    */
    method RecvPackets(socketReads: seq<(SocketRead, SocketRead)>) returns (items: seq<QueueItem>, closed: bool)
      requires forall i :: 0 <= i < |socketReads| ==> RecvDefined(socketReads[i].0, socketReads[i].1)
      modifies this`sequence
      ensures (items, closed) == Drain(Outcomes(socketReads))
      ensures |items| <= |socketReads| && sequence == SequenceAfter(socketReads, |items|, old(sequence))
    {
      ghost var xs := Outcomes(socketReads);
      items, closed := [], false;
      var k := 0;
      assert items + Drain(xs[k..]).0 == Drain(xs).0 && xs[k..] == xs;
      while k < |socketReads| && !closed
        invariant 0 <= k <= |socketReads| && k == |items|
        invariant sequence == SequenceAfter(socketReads, k, old(sequence))
        invariant closed ==> Drain(xs) == (items, true)
        invariant !closed ==> Drain(xs) == (items + Drain(xs[k..]).0, Drain(xs[k..]).1)
      {
        var item, stop := RecvItem(socketReads[k].0, socketReads[k].1);
        ReceivableSuffix(xs, k);
        assert xs[k..][0] == xs[k] && xs[k..][1..] == xs[k + 1..];
        DrainAdvance(xs[k..], items, Drain(xs), item, stop);
        items, closed := items + [item], stop;
        k := k + 1;
      }
      if !closed {
        assert xs[k..] == [] && items + [] == items;
      }
    }

    /**
      `Query(query)` as written: it builds the COM_QUERY packet it hands to
      the drain, which sends it (here: returned to the caller), reads the
      whole response off the channel, and returns no rows and no error; the
      decoding below its early return (DecodeResponse) is never reached.
    */
    method Query(query: seq<byte>, socketReads: seq<(SocketRead, SocketRead)>)
        returns (request: Packet, rows: seq<ResultRow>, err: Option<Error>)
      requires |query| + 2 < 0x100_0000
      requires forall i :: 0 <= i < |socketReads| ==> RecvDefined(socketReads[i].0, socketReads[i].1)
      modifies this`sequence
      ensures fresh(request) && IsCommand(request, [COM_QUERY] + query + [0])
      ensures rows == [] && err.None?
      ensures var n := |Drain(Outcomes(socketReads)).0|;
              n <= |socketReads| && sequence == SequenceAfter(socketReads, n, old(sequence))
    {
      request := CreateQueryPacket(query);
      var items, closed := RecvPackets(socketReads);
      rows, err := [], None;
    }

    /**
      The first item of the response, read as `Query` does below its early
      return: an error item's error, or an OK packet whose last insert id
      is recorded, or the column count.
    */
    method DecodeHead(items: seq<QueueItem>) returns (head: QueryHead)
      requires HeadAt(items).Some?
      modifies this`lastInsertId
      ensures head == HeadAt(items).value
      ensures lastInsertId == if head.HeadOk? then head.lastInsertId else old(lastInsertId)
    {
      match items[0]
      case ErrorItem(e) =>
        head := HeadError(e);
      case PacketItem(p) =>
        var packet := PacketOf(p);
        if packet.IsOK() {
          packet.Skip(1);
          var affected := packet.ReadUIntEncodedLength();
          var id := packet.ReadUIntEncodedLength();
          lastInsertId := id;
          head := HeadOk(id);
        } else {
          var count := packet.PeekAt(4);
          head := HeadColumns(count);
        }
    }

    /**
      The decoding of `Query` below its early return (unreachable as
      written): the first item, then the column loop for the count it
      announced, then the row loop.
    */
    method DecodeResponse(items: seq<QueueItem>) returns (rows: seq<ResultRow>, err: Option<Error>)
      requires QueryRead(items, Has(info.clientCapabilities, MARIADB_CLIENT_EXTENDED_TYPE_INFO)).Some?
      modifies this`lastInsertId
      ensures (CellsOf(rows), err) == QueryRead(items, Has(info.clientCapabilities, MARIADB_CLIENT_EXTENDED_TYPE_INFO)).value
      ensures var head := HeadAt(items).value;
              lastInsertId == if head.HeadOk? then head.lastInsertId else old(lastInsertId)
    {
      var head := DecodeHead(items);
      match head
      case HeadError(e) =>
        return [], Some(e);
      case HeadOk(_) =>
        return [], None;
      case HeadColumns(n) =>
        var columns, next, e := DecodeColumns(items, 1, n);
        if e.Some? {
          return [], e;
        }
        var more;
        rows, more, err := DecodeRows(items, next, columns);
    }

    /**
      The column loop of `Query` (unreachable as written): for each of the
      columnCount columns it takes the next item off the channel, returns
      its error, or decodes the packet as a column definition with the
      connection's client mask.
    */
    method DecodeColumns(items: seq<QueueItem>, start: nat, columnCount: int)
        returns (columns: seq<TableColumn>, next: nat, err: Option<Error>)
      requires ColumnsRead(items, start, 0, columnCount, Has(info.clientCapabilities, MARIADB_CLIENT_EXTENDED_TYPE_INFO)).Some?
      ensures (columns, next, err) == ColumnsRead(items, start, 0, columnCount, Has(info.clientCapabilities, MARIADB_CLIENT_EXTENDED_TYPE_INFO)).value
    {
      ghost var extended := Has(info.clientCapabilities, MARIADB_CLIENT_EXTENDED_TYPE_INFO);
      ghost var total := ColumnsRead(items, start, 0, columnCount, extended).value;
      columns, next, err := [], start, None;
      var i := 0;
      PrependNothing(total);
      while i < columnCount
        invariant ColumnsRead(items, next, i, columnCount, extended).Some?
        invariant total == Prepend(columns, ColumnsRead(items, next, i, columnCount, extended).value)
        decreases |items| - next
      {
        ColumnsReadInside(items, next, i, columnCount, extended);
        if items[next].ErrorItem? {
          ColumnsReadError(items, next, i, columnCount, extended);
          return [], next + 1, Some(items[next].err);
        }
        var column, n := DecodeColumnItem(items, next, i, columnCount, Has(info.clientCapabilities, MARIADB_CLIENT_EXTENDED_TYPE_INFO));
        PrependAppend(columns, [column], ColumnsRead(items, next + 1, n + 1, columnCount, extended).value);
        columns := columns + [column];
        i := n + 1;
        next := next + 1;
      }
      assert columns + [] == columns;
    }

    /**
      The row loop of `Query` (unreachable as written): it takes items off
      the channel until an EOF packet, returns an error item's error, and
      decodes each other packet into a fresh row that the result holds
      once per column.
    */
    method DecodeRows(items: seq<QueueItem>, start: nat, columns: seq<TableColumn>)
        returns (rows: seq<ResultRow>, next: nat, err: Option<Error>)
      requires RowsRead(items, start, columns).Some?
      ensures (CellsOf(rows), next, err) == RowsRead(items, start, columns).value
    {
      ghost var total := RowsRead(items, start, columns).value;
      rows, next := [], start;
      PrependNothing(total);
      while true
        invariant RowsRead(items, next, columns).Some?
        invariant total == Prepend(CellsOf(rows), RowsRead(items, next, columns).value)
        decreases |items| - next
      {
        RowsReadInside(items, next, columns);
        match items[next]
        case ErrorItem(e) =>
          RowsReadError(items, next, columns);
          return [], next + 1, Some(e);
        case PacketItem(p) =>
          var more, eof := DecodeRowItem(items, next, columns, rows);
          if eof {
            assert CellsOf(rows) + [] == CellsOf(rows);
            return rows, next + 1, None;
          }
          rows := more;
          next := next + 1;
      }
    }
  }
}
