/**
  The packet buffer of mariadb/packet.go and its older copy in
  mysql/packet.go: a byte buffer with a read cursor, an optional 4-byte
  frame header (3-byte little-endian payload length and a sequence id)
  and, in the MariaDB package, a direction. The two copies behave alike
  except for `readBytes`, which the `dialect` of a packet selects.
*/
module Packets {
  import opened Bytes
  import opened Wire

  const PACKET_TYPE_OK: byte := 0x00
  const PACKET_TYPE_LOCAL_INFILE: byte := 0xfb
  const PACKET_TYPE_EOF: byte := 0xfe
  const PACKET_TYPE_ERR: byte := 0xff

  /** Command bytes (mariadb/connection.go). */
  const COM_QUIT: byte := 0x01
  const COM_INIT_DB: byte := 0x02
  const COM_QUERY: byte := 0x03
  const COM_PING: byte := 0x0e

  /** `PacketDirection`; the zero value, and so the default, is Incoming. */
  datatype Direction = Incoming | Outgoing

  /**
    `int8(v)`, `int16(v)`, …: the two's-complement reading of an unsigned
    value of a width whose top bit is worth half.
  */
  function Signed(v: int, half: int): (r: int)
    ensures 0 <= v < 2 * half ==> -half <= r < half
    ensures r == v || r == v - 2 * half
  {
    if v < half then v else v - 2 * half
  }

  class Packet {
    const dialect: Dialect
    var payload: seq<byte>
    var pos: int
    var hasHeader: bool
    var direction: Direction

    /** `&Packet{}`: empty, cursor at 0, no header, Incoming. */
    constructor (d: Dialect)
      ensures dialect == d && payload == [] && pos == 0 && !hasHeader && direction == Incoming
    {
      dialect := d;
      payload := [];
      pos := 0;
      hasHeader := false;
      direction := Incoming;
    }

    /** A header, once written, occupies the first 4 bytes. */
    predicate Framed()
      reads this
    {
      hasHeader ==> |payload| >= 4
    }

    /** `payloadLength()`: the buffer size without the header. */
    function PayloadLength(): (n: int)
      reads this
      requires Framed()
      ensures n >= 0 && n == |payload| - (if hasHeader then 4 else 0)
    {
      if hasHeader then |payload| - 4 else |payload|
    }

    /** `peek()`: the byte under the cursor. */
    function Peek(): (b: byte)
      reads this
      requires 0 <= pos < |payload|
      ensures b == PeekAt(pos)
    {
      payload[pos]
    }

    /**
      `peekAt(i)`: the source tests `i <= len`, so i == len panics (an index
      out of range) and only positions past the end yield 0.
    */
    function PeekAt(i: nat): (b: byte)
      reads this
      requires i != |payload|
      ensures i < |payload| ==> b == payload[i]
      ensures i > |payload| ==> b == 0
    {
      if i <= |payload| then payload[i] else 0
    }

    /** `readBytesRest()`: everything from the cursor on. */
    function ReadBytesRest(): (r: seq<byte>)
      reads this
      requires 0 <= pos <= |payload|
      ensures |r| == |payload| - pos && payload[..pos] + r == payload
    {
      payload[pos..]
    }

    /** `getSequence()`: byte 3 of the header, 0 without one. */
    function GetSequence(): (i: byte)
      reads this
      requires Framed()
      ensures hasHeader ==> i == payload[3]
      ensures !hasHeader ==> i == 0
    {
      if hasHeader then payload[3] else 0
    }

    // -------------------------------------------------------------------
    // Classifiers: they look at byte 4, the first byte after the header.

    /**
      `isOK()`. peekAt yields 0, the OK type, past the end, so an incoming
      packet shorter than 4 bytes counts as OK.
    */
    predicate IsOK()
      reads this
      requires direction == Incoming ==> |payload| != 4
      requires Framed()
      ensures IsOK() <==> direction == Incoming && (|payload| < 4 || payload[4] == PACKET_TYPE_OK)
                          && PayloadLength() < 0xff_ffff
    {
      direction == Incoming && PeekAt(4) == PACKET_TYPE_OK && PayloadLength() < 0xff_ffff
    }

    /** `isEOF()` */
    predicate IsEOF()
      reads this
      requires direction == Incoming ==> |payload| != 4
      requires Framed()
      ensures IsEOF() <==> direction == Incoming && |payload| > 4 && payload[4] == PACKET_TYPE_EOF
                           && PayloadLength() < 9
    {
      direction == Incoming && PeekAt(4) == PACKET_TYPE_EOF && PayloadLength() < 9
    }

    /** `isERR()` */
    predicate IsERR()
      reads this
      requires direction == Incoming ==> |payload| != 4
      ensures IsERR() <==> direction == Incoming && |payload| > 4 && payload[4] == PACKET_TYPE_ERR
    {
      direction == Incoming && PeekAt(4) == PACKET_TYPE_ERR
    }

    /** `isLOCALINFILE()` */
    predicate IsLocalInfile()
      reads this
      requires direction == Incoming ==> |payload| != 4
      ensures IsLocalInfile() <==> direction == Incoming && |payload| > 4 && payload[4] == PACKET_TYPE_LOCAL_INFILE
    {
      direction == Incoming && PeekAt(4) == PACKET_TYPE_LOCAL_INFILE
    }

    // -------------------------------------------------------------------
    // Cursor.

    /** `resetPos()` */
    method ResetPos()
      modifies this`pos
      ensures pos == 0
    {
      pos := 0;
    }

    /** `skip(n)`: moves the cursor, with no bounds check. */
    method Skip(n: int)
      modifies this`pos
      ensures pos == old(pos) + n
    {
      pos := pos + n;
    }

    // -------------------------------------------------------------------
    // Reads.

    /**
      `readStringNullEnded()`: the bytes before the next zero, the cursor
      moved past that zero; with no zero left, the empty string and no move.
    */
    method ReadStringNullEnded() returns (r: seq<byte>)
      requires 0 <= pos <= |payload|
      modifies this`pos
      ensures 0 !in r && old(pos) <= pos <= |payload|
      ensures || (pos == old(pos) + |r| + 1 && payload[old(pos)..pos] == r + [0])
              || (r == [] && pos == old(pos) && 0 !in payload[pos..])
      ensures TakeNulString(payload, old(pos)) == Some((r, pos))
    {
      var rest := payload[pos..];
      FirstZeroIsFirst(rest);
      match FirstZero(rest) {
        case None =>
          r := [];
        case Some(k) =>
          r := rest[..k];
          assert payload[pos..pos + k + 1] == r + [0];
          assert r == payload[pos..pos + k];
          pos := pos + k + 1;
      }
    }

    /**
      `readBytes(n)`: the next n bytes and the cursor past them when they fit
      (in the MySQL copy, when a byte remains after them); otherwise nothing
      and no move.
    */
    method ReadBytes(n: nat) returns (r: seq<byte>)
      requires pos >= 0
      modifies this`pos
      ensures BytesFit(dialect, old(pos), n, |payload|) ==> r == payload[old(pos)..old(pos) + n] && pos == old(pos) + n
      ensures !BytesFit(dialect, old(pos), n, |payload|) ==> r == [] && pos == old(pos)
      ensures TakeBytes(dialect, payload, old(pos), n) == (r, pos)
    {
      var fits := match dialect
        case MariaDB => pos + n <= |payload|
        case MySQL => pos + n < |payload|;
      if !fits {
        return [];
      }
      r := payload[pos..pos + n];
      pos := pos + n;
    }

    /** `readUInt8()` */
    method ReadUInt8() returns (v: byte)
      requires 0 <= pos < |payload|
      modifies this`pos
      ensures v == payload[old(pos)] && pos == old(pos) + 1
    {
      v := payload[pos];
      pos := pos + 1;
    }

    /** `readInt8()` */
    method ReadInt8() returns (v: int)
      requires 0 <= pos < |payload|
      modifies this`pos
      ensures v == Signed(payload[old(pos)], 0x80) && pos == old(pos) + 1
    {
      var u := ReadUInt8();
      v := Signed(u, 0x80);
    }

    /** `readUInt16()`: two little-endian bytes. */
    method ReadUInt16() returns (v: nat)
      requires 0 <= pos && pos + 2 <= |payload|
      modifies this`pos
      ensures v == FromLE(payload[old(pos)..old(pos) + 2]) && v < 0x1_0000 && pos == old(pos) + 2
    {
      v := FromLE(payload[pos..pos + 2]);
      pos := pos + 2;
    }

    /** `readInt16()` */
    method ReadInt16() returns (v: int)
      requires 0 <= pos && pos + 2 <= |payload|
      modifies this`pos
      ensures v == Signed(FromLE(payload[old(pos)..old(pos) + 2]), 0x8000) && pos == old(pos) + 2
    {
      var u := ReadUInt16();
      v := Signed(u, 0x8000);
    }

    /**
      `readUInt24()`: three little-endian bytes, without moving the cursor.
      The source appends a 0 to a sub-slice of the buffer, which overwrites
      the byte after the three when there is one.
    */
    method ReadUInt24() returns (v: nat)
      requires 0 <= pos && pos + 3 <= |payload|
      modifies this`payload
      ensures v == FromLE(old(payload)[pos..pos + 3]) && v < 0x100_0000
      ensures payload == if pos + 3 < |old(payload)| then old(payload)[pos + 3 := 0] else old(payload)
    {
      var normalized := payload[pos..pos + 3] + [0];
      if pos + 3 < |payload| {
        payload := payload[pos + 3 := 0];
      }
      FromLEZeroPadded(normalized[..3], 1);
      assert normalized == normalized[..3] + Zeros(1);
      v := FromLE(normalized);
    }

    /** `readUInt32()`: four little-endian bytes. */
    method ReadUInt32() returns (v: nat)
      requires 0 <= pos && pos + 4 <= |payload|
      modifies this`pos
      ensures v == FromLE(payload[old(pos)..old(pos) + 4]) && v < 0x1_0000_0000 && pos == old(pos) + 4
    {
      v := FromLE(payload[pos..pos + 4]);
      assert Pow256(4) == 0x1_0000_0000;
      pos := pos + 4;
    }

    /** `readInt32()` */
    method ReadInt32() returns (v: int)
      requires 0 <= pos && pos + 4 <= |payload|
      modifies this`pos
      ensures v == Signed(FromLE(payload[old(pos)..old(pos) + 4]), 0x8000_0000) && pos == old(pos) + 4
    {
      var u := ReadUInt32();
      v := Signed(u, 0x8000_0000);
    }

    /** `readInt24()`: as written it reads four bytes, through readUInt32. */
    method ReadInt24() returns (v: int)
      requires 0 <= pos && pos + 4 <= |payload|
      modifies this`pos
      ensures v == Signed(FromLE(payload[old(pos)..old(pos) + 4]), 0x8000_0000) && pos == old(pos) + 4
    {
      v := ReadInt32();
    }

    /**
      `readUInt64()`: up to eight little-endian bytes; near the end of the
      buffer it takes what is left, pads it with zeros and moves the cursor
      to the end.
    */
    method ReadUInt64() returns (v: nat)
      requires 0 <= pos <= |payload|
      modifies this`pos
      ensures pos == if old(pos) + 8 > |payload| then |payload| else old(pos) + 8
      ensures v == FromLE(payload[old(pos)..pos]) && v < 0x1_0000_0000_0000_0000
    {
      ghost var start := pos;
      var buf;
      if pos + 8 > |payload| {
        buf := payload[pos..];
        pos := |payload|;
      } else {
        buf := payload[pos..pos + 8];
        pos := pos + 8;
      }
      ghost var read := buf;
      assert read == payload[start..pos];
      var bufLen := |buf|;
      if |buf| < 8 {
        var i := 0;
        while i < 8 - bufLen
          invariant 0 <= i <= 8 - bufLen
          invariant buf == read + Zeros(i)
        {
          buf := buf + [0];
          i := i + 1;
        }
      }
      assert buf == read + Zeros(|buf| - |read|);
      FromLEZeroPadded(read, |buf| - |read|);
      assert |buf| == 8 && Pow256(8) == 0x1_0000_0000_0000_0000;
      v := FromLE(buf);
    }

    /** `readInt64()` */
    method ReadInt64() returns (v: int)
      requires 0 <= pos <= |payload|
      modifies this`pos
      ensures pos == if old(pos) + 8 > |payload| then |payload| else old(pos) + 8
      ensures v == Signed(FromLE(payload[old(pos)..pos]), 0x8000_0000_0000_0000)
    {
      var u := ReadUInt64();
      v := Signed(u, 0x8000_0000_0000_0000);
    }

    /**
      `readBytesEncodedLength()` / `readStringLengthEncoded()`: a length byte,
      then readBytes of that length.
    */
    method ReadBytesEncodedLength() returns (r: seq<byte>)
      requires 0 <= pos < |payload|
      modifies this`pos
      ensures TakeLenBytes(dialect, payload, old(pos)) == Some((r, pos))
      ensures |r| == 0 || |r| == payload[old(pos)]
      ensures pos == old(pos) + 1 + |r|
    {
      var b := ReadUInt8();
      r := ReadBytes(b);
    }

    /**
      `readStringLengthEncodedNULLABLE()`: a 0xfb byte under the cursor is
      NULL and is not consumed; otherwise a length-prefixed string.
    */
    method ReadStringLengthEncodedNullable() returns (r: seq<byte>, isNull: bool)
      requires 0 <= pos < |payload|
      modifies this`pos
      ensures isNull <==> old(payload[pos]) == 0xfb
      ensures isNull ==> r == [] && pos == old(pos)
      ensures !isNull ==> TakeLenBytes(dialect, payload, old(pos)) == Some((r, pos))
    {
      if Peek() == 0xfb {
        return [], true;
      }
      r := ReadBytesEncodedLength();
      isNull := false;
    }

    /**
      `readUIntEncodedLength()`: a prefix byte below 0xfb is the value; for
      any other prefix the source's next test (`< 65536`) always holds, so a
      2-byte value follows. Its 3- and 8-byte branches cannot be reached.
    */
    method ReadUIntEncodedLength() returns (v: nat)
      requires TakeLenEncInt(payload, pos).Some?
      modifies this`pos
      ensures TakeLenEncInt(payload, old(pos)) == Some((v, pos))
      ensures v < 0x1_0000
    {
      var length := ReadUInt8();
      if length < 0xfb {
        v := length;
      } else {
        v := ReadUInt16();
      }
    }

    // -------------------------------------------------------------------
    // Writes append to the buffer.

    /** `writeUInt8(i)` */
    method WriteUInt8(i: byte)
      modifies this`payload
      ensures payload == old(payload) + [i]
    {
      payload := payload + [i];
    }

    /** `writeUInt16(i)`: two little-endian bytes. */
    method WriteUInt16(i: nat)
      requires i < 0x1_0000
      modifies this`payload
      ensures payload == old(payload) + LE(i, 2)
    {
      payload := payload + LE(i, 2);
    }

    /** `writeUInt24(i)`: three little-endian bytes, or nothing for i >= 2^24. */
    method WriteUInt24(i: nat)
      requires i < 0x1_0000_0000
      modifies this`payload
      ensures payload == if i < 0x100_0000 then old(payload) + LE(i, 3) else old(payload)
    {
      if i < 0x100_0000 {
        var buf := LE(i, 4);
        assert buf[0..3] == LE(i, 3) by { LEPrefix(i, 4, 3); }
        payload := payload + buf[0..3];
      }
    }

    /** `writeUInt32(i)`: four little-endian bytes. */
    method WriteUInt32(i: nat)
      requires i < 0x1_0000_0000
      modifies this`payload
      ensures payload == old(payload) + LE(i, 4)
    {
      payload := payload + LE(i, 4);
    }

    /** `writeUInt64(i)`: eight little-endian bytes. */
    method WriteUInt64(i: nat)
      requires i < 0x1_0000_0000_0000_0000
      modifies this`payload
      ensures payload == old(payload) + LE(i, 8)
    {
      payload := payload + LE(i, 8);
    }

    /** `writeBytes(b)` */
    method WriteBytes(b: seq<byte>)
      modifies this`payload
      ensures payload == old(payload) + b
    {
      payload := payload + b;
    }

    /**
      `writeLengthEncoded(v)` (`writeLengthCoded` in the MySQL copy): one
      byte below 0xfb, else 0xfc and 2 bytes below 2^16, else 0xfd and 3
      bytes below 2^24, else 0xfe and 8 bytes.
    */
    method WriteLengthEncoded(v: nat)
      requires v < 0x1_0000_0000_0000_0000
      modifies this`payload
      ensures payload == old(payload) + LenEnc(v)
    {
      ghost var start := payload;
      if v < 0xfb {
        WriteUInt8(v);
      } else if v < 0x1_0000 {
        WriteUInt8(0xfc);
        WriteUInt16(v);
        assert payload == start + ([0xfc] + LE(v, 2));
      } else if v < 0x100_0000 {
        WriteUInt8(0xfd);
        WriteUInt24(v);
        assert payload == start + ([0xfd] + LE(v, 3));
      } else {
        WriteUInt8(0xfe);
        WriteUInt64(v);
        assert payload == start + ([0xfe] + LE(v, 8));
      }
    }

    // -------------------------------------------------------------------
    // Frame header.

    /** `writeHeader(b)`: puts b's first 4 bytes in front, once. */
    method WriteHeader(b: seq<byte>)
      requires |b| >= 4
      modifies this`payload, this`hasHeader
      ensures hasHeader
      ensures payload == if old(hasHeader) then old(payload) else b[..4] + old(payload)
    {
      if !hasHeader {
        payload := b[0..4] + payload;
        hasHeader := true;
      }
    }

    /** `writeEmptyHeader()` */
    method WriteEmptyHeader()
      modifies this`payload, this`hasHeader
      ensures hasHeader
      ensures payload == if old(hasHeader) then old(payload) else Zeros(4) + old(payload)
    {
      WriteHeader(Zeros(4));
    }

    /**
      `updateHeader()`: adds an empty header if there is none, then writes
      the payload size into bytes 0 to 2. The size goes through uint32 and
      writeUInt24, which writes nothing for a size of 2^24 or more; copying
      from that empty result panics.
    */
    method UpdateHeader()
      requires Framed()
      requires (|payload| + (if hasHeader then 0 else 4) - 4) % 0x1_0000_0000 < 0x100_0000
      modifies this`payload, this`hasHeader
      ensures hasHeader
      ensures payload == WithLength(if old(hasHeader) then old(payload) else Zeros(4) + old(payload))
    {
      if !hasHeader {
        WriteEmptyHeader();
      }
      ghost var framed := payload;
      assert framed == if old(hasHeader) then old(payload) else Zeros(4) + old(payload);
      var length := |payload| - 4;
      var temp := new Packet(dialect);
      temp.WriteUInt24(length % 0x1_0000_0000);
      var header := temp.payload;
      assert header == LE(length % 0x1_0000_0000, 3) && |header| == 3;
      CopyLengthField(header);
      assert payload == header + framed[3..];
      assert payload == WithLength(framed);
    }

    /** The copy loop of `updateHeader()`: the three length bytes replace bytes 0 to 2. */
    method CopyLengthField(header: seq<byte>)
      requires |header| == 3 && |payload| >= 3
      modifies this`payload
      ensures payload == header + old(payload)[3..]
    {
      var i := 0;
      while i < 3
        invariant 0 <= i <= 3 && |payload| == |old(payload)|
        invariant forall k :: 0 <= k < i ==> payload[k] == header[k]
        invariant forall k :: i <= k < |payload| ==> payload[k] == old(payload)[k]
      {
        payload := payload[i := header[i]];
        i := i + 1;
      }
    }

    /** `setSequence(i)`: writes byte 3 of the header; without a header, nothing. */
    method SetSequence(i: byte)
      requires Framed()
      modifies this`payload
      ensures Framed()
      ensures GetSequence() == if hasHeader then i else 0
      ensures payload == if hasHeader then old(payload)[3 := i] else old(payload)
    {
      if hasHeader {
        payload := payload[3 := i];
      }
    }
  }

  /** At most one classifier holds, and none for an outgoing packet. */
  lemma ClassifiersExclusive(p: Packet)
    requires p.direction == Incoming ==> |p.payload| != 4
    requires p.Framed()
    ensures !(p.IsOK() && p.IsEOF()) && !(p.IsOK() && p.IsERR()) && !(p.IsOK() && p.IsLocalInfile())
    ensures !(p.IsEOF() && p.IsERR()) && !(p.IsEOF() && p.IsLocalInfile()) && !(p.IsERR() && p.IsLocalInfile())
    ensures p.direction == Outgoing ==> !p.IsOK() && !p.IsEOF() && !p.IsERR() && !p.IsLocalInfile()
  {
  }

  /** `ErrorPacket`: an ERR packet read through the packet it wraps. */
  class ErrorPacket {
    const packet: Packet

    /** `createErrorPacket(packet)` */
    constructor (p: Packet)
      ensures packet == p
    {
      packet := p;
    }

    /** `code()`: bytes 5 and 6, little-endian; the cursor is left at 0. */
    method Code() returns (c: nat)
      requires |packet.payload| >= 7
      modifies packet`pos
      ensures c == ErrCodeOf(packet.payload) && packet.pos == 0
    {
      packet.ResetPos();
      packet.Skip(5);
      c := packet.ReadUInt16();
      packet.ResetPos();
    }

    /**
      `error()`: the message as ErrMessageOf describes it, built by moving
      the cursor; the cursor is left at 0.
    */
    method Error() returns (message: seq<byte>)
      requires ErrReadable(packet.payload)
      modifies packet`pos
      ensures message == ErrMessageOf(packet.dialect, packet.payload) && packet.pos == 0
    {
      packet.ResetPos();
      var code := Code();
      if code != 0xff {
        packet.Skip(7);
        if packet.Peek() == '#' as int {
          packet.Skip(1);
          var state := packet.ReadBytes(5);
          message := Ascii("#[") + state + Ascii("] ") + packet.ReadBytesRest();
        } else {
          message := packet.ReadBytesRest();
        }
      } else {
        message := PROGRESS_NOT_SUPPORTED;
      }
      packet.ResetPos();
    }
  }

  /**
    `hashPassword(password, salt)`: SHA1(password) XOR SHA1(salt ++
    SHA1(SHA1(password))), computed byte by byte in place.
  */
  method HashPassword(password: seq<byte>, salt: seq<byte>, sha1: Sha1) returns (digest: seq<byte>)
    ensures digest == NativeScramble(password, salt, sha1)
  {
    var stage1 := sha1(password);
    var stage2 := sha1(stage1);
    digest := sha1(salt + stage2);
    ghost var mask := digest;
    var i := 0;
    while i < |digest|
      invariant 0 <= i <= 20 && |digest| == 20
      invariant digest[..i] == XorBytes(stage1, mask)[..i]
      invariant digest[i..] == mask[i..]
    {
      digest := digest[i := XorByte(stage1[i], digest[i])];
      i := i + 1;
    }
  }

  // ---------------------------------------------------------------------
  // Command packets.

  /**
    A framed command: the header holds the payload size and sequence 0,
    and the payload is what follows it.
  */
  predicate IsCommand(p: Packet, body: seq<byte>)
    reads p
  {
    && p.hasHeader && p.direction == Outgoing && p.pos == 0
    && |p.payload| == 4 + |body| && p.payload[4..] == body
    && FromLE(p.payload[..3]) == |body| && p.payload[3] == 0
  }

  /** `createQuitPacket()`: COM_QUIT alone. */
  method CreateQuitPacket() returns (p: Packet)
    ensures fresh(p) && IsCommand(p, [COM_QUIT])
  {
    p := new Packet(MariaDB);
    p.WriteUInt8(COM_QUIT);
    p.UpdateHeader();
    p.direction := Outgoing;
    WithLengthProperties(Zeros(4) + [COM_QUIT]);
  }

  /** `createInitDbPacket(dbname)`: COM_INIT_DB, the name and a terminating zero. */
  method CreateInitDbPacket(dbname: seq<byte>) returns (p: Packet)
    requires |dbname| + 2 < 0x100_0000
    ensures fresh(p) && IsCommand(p, [COM_INIT_DB] + dbname + [0])
  {
    p := new Packet(MariaDB);
    p.WriteUInt8(COM_INIT_DB);
    p.WriteBytes(dbname);
    p.WriteUInt8(0);
    assert p.payload == [COM_INIT_DB] + dbname + [0] && !p.hasHeader;
    p.UpdateHeader();
    p.direction := Outgoing;
    WithLengthProperties(Zeros(4) + ([COM_INIT_DB] + dbname + [0]));
  }

  /** `createQueryPacket(query)`: COM_QUERY, the query text and a terminating zero. */
  method CreateQueryPacket(query: seq<byte>) returns (p: Packet)
    requires |query| + 2 < 0x100_0000
    ensures fresh(p) && IsCommand(p, [COM_QUERY] + query + [0])
  {
    p := new Packet(MariaDB);
    p.WriteUInt8(COM_QUERY);
    p.WriteBytes(query);
    p.WriteUInt8(0);
    assert p.payload == [COM_QUERY] + query + [0] && !p.hasHeader;
    p.UpdateHeader();
    p.direction := Outgoing;
    WithLengthProperties(Zeros(4) + ([COM_QUERY] + query + [0]));
  }

  /** `createPingPacket()`: COM_PING alone. */
  method CreatePingPacket() returns (p: Packet)
    ensures fresh(p) && IsCommand(p, [COM_PING])
  {
    p := new Packet(MariaDB);
    p.WriteUInt8(COM_PING);
    p.UpdateHeader();
    p.direction := Outgoing;
    WithLengthProperties(Zeros(4) + [COM_PING]);
  }
}
