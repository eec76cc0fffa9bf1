/**
  Reference definitions of the byte layouts both client packages read and
  write: the cursor reads as pure functions (None where the Go code would
  panic on a slice out of range), length-encoded integers, the 4-byte frame
  header and the ERR packet's code and message.
*/
module Wire {
  import opened Bytes

  /**
    The two packages of the client differ in one read: `readBytes(n)` in
    mariadb/packet.go fails when `pos + n > len`, the copy in mysql/packet.go
    already when `pos + n >= len`.
  */
  datatype Dialect = MariaDB | MySQL

  predicate BytesFit(d: Dialect, pos: int, n: nat, len: nat)
  {
    match d
    case MariaDB => pos + n <= len
    case MySQL => pos + n < len
  }

  // ---------------------------------------------------------------------
  // Cursor steps: each yields the value read and the cursor after it.

  /** `readUInt8`: panics unless the cursor is inside the buffer. */
  function TakeU8(s: seq<byte>, p: int): Option<(byte, int)>
  {
    if 0 <= p < |s| then Some((s[p], p + 1)) else None
  }

  /** `readUInt16`/`readUInt32`: an n-byte little-endian value, panicking past the end. */
  function TakeLE(s: seq<byte>, p: int, n: nat): Option<(nat, int)>
  {
    if 0 <= p && p + n <= |s| then Some((FromLE(s[p..p + n]), p + n)) else None
  }

  /** `readBytes(n)`: the next n bytes, or nothing and no move when they do not fit. */
  function TakeBytes(d: Dialect, s: seq<byte>, p: int, n: nat): (r: (seq<byte>, int))
    requires p >= 0
  {
    if BytesFit(d, p, n, |s|) then (s[p..p + n], p + n) else ([], p)
  }

  /**
    `readStringNullEnded`: the bytes before the next zero and the cursor past
    that zero; with no zero left, the empty string and no move. Slicing from
    a cursor beyond the end panics.
  */
  function TakeNulString(s: seq<byte>, p: int): (r: Option<(seq<byte>, int)>)
  {
    if p < 0 || p > |s| then None
    else match FirstZero(s[p..]) {
      case None => Some(([], p))
      case Some(k) => Some((s[p..p + k], p + k + 1))
    }
  }

  /**
    `readUIntEncodedLength` of mariadb/packet.go: a prefix byte below 0xfb is
    the value; any other prefix is followed by a 2-byte little-endian value,
    because the source tests the one-byte prefix against 65536 next.
  */
  function TakeLenEncInt(s: seq<byte>, p: int): (r: Option<(nat, int)>)
  {
    var b :- TakeU8(s, p);
    if b.0 < 0xfb then Some((b.0 as nat, b.1)) else TakeLE(s, b.1, 2)
  }

  /** `readStringLengthEncoded` / `readBytesEncodedLength`: a length byte, then readBytes. */
  function TakeLenBytes(d: Dialect, s: seq<byte>, p: int): (r: Option<(seq<byte>, int)>)
  {
    var b :- TakeU8(s, p);
    Some(TakeBytes(d, s, b.1, b.0))
  }

  // ---------------------------------------------------------------------
  // Reading back what a writer laid out.

  /** r is a successful read of the value v that stops at position end. */
  predicate Reads<T(==)>(r: Option<(T, int)>, v: T, end: int)
  {
    r.Some? && r.value.0 == v && r.value.1 == end
  }

  /**
    The bytes x occur in s at position p, stated byte by byte so that a
    proof unfolds it only as far as it needs.
  */
  predicate At(s: seq<byte>, p: int, x: seq<byte>)
    decreases |x|
  {
    0 <= p && p + |x| <= |s| && (x == [] || (s[p] == x[0] && At(s, p + 1, x[1..])))
  }

  /** At is the slice s[p..p + |x|] being x. */
  lemma {:induction false} AtSlice(s: seq<byte>, p: int, x: seq<byte>)
    ensures At(s, p, x) <==> 0 <= p && p + |x| <= |s| && s[p..p + |x|] == x
    decreases |x|
  {
    if x != [] && 0 <= p && p + |x| <= |s| {
      AtSlice(s, p + 1, x[1..]);
      assert s[p..p + |x|] == [s[p]] + s[p + 1..p + |x|];
      assert x == [x[0]] + x[1..];
    }
  }

  /** A writer's output sits between what precedes and what follows it. */
  lemma AtWhole(pre: seq<byte>, x: seq<byte>, post: seq<byte>)
    ensures At(pre + x + post, |pre|, x)
  {
    assert (pre + x + post)[|pre|..|pre| + |x|] == x;
    AtSlice(pre + x + post, |pre|, x);
  }

  /** Two consecutive pieces occur one after the other. */
  lemma AtSplit(s: seq<byte>, p: int, a: seq<byte>, b: seq<byte>)
    requires At(s, p, a + b)
    ensures At(s, p, a) && At(s, p + |a|, b)
  {
    AtSlice(s, p, a + b);
    assert s[p..p + |a|] == (a + b)[..|a|];
    assert s[p + |a|..p + |a| + |b|] == (a + b)[|a|..];
    AtSlice(s, p, a);
    AtSlice(s, p + |a|, b);
  }

  /** A byte read where the writer put it. */
  lemma TakeU8At(s: seq<byte>, p: int, b: byte)
    requires At(s, p, [b])
    ensures Reads(TakeU8(s, p), b, p + 1)
  {
  }

  /**
    An n-byte value read where the writer put its n-byte image: the value
    modulo 256^n, exact when it fits.
  */
  lemma TakeLEAt(s: seq<byte>, p: int, v: nat, n: nat)
    requires At(s, p, LE(v, n))
    ensures Reads(TakeLE(s, p, n), v % Pow256(n), p + n)
    ensures v < Pow256(n) ==> v % Pow256(n) == v
  {
    AtSlice(s, p, LE(v, n));
    FromLEOfLE(v, n);
    if v < Pow256(n) {
      ModUnique(v, Pow256(n), 0, v);
    }
  }

  /**
    A fixed-length run read where the writer put it; the MySQL copy also
    needs a byte after it.
  */
  lemma TakeBytesAt(d: Dialect, s: seq<byte>, p: int, x: seq<byte>)
    requires At(s, p, x) && (d == MySQL ==> p + |x| < |s|)
    ensures TakeBytes(d, s, p, |x|).0 == x && TakeBytes(d, s, p, |x|).1 == p + |x|
  {
    AtSlice(s, p, x);
  }

  /** A NUL-free string followed by its terminator is read back whole. */
  lemma TakeNulStringAt(s: seq<byte>, p: int, x: seq<byte>)
    requires At(s, p, x + [0]) && 0 !in x
    ensures Reads(TakeNulString(s, p), x, p + |x| + 1)
  {
    AtSlice(s, p, x + [0]);
    NulStringRead(s, p, x);
  }

  /** TakeNulStringAt, with the string's place given as a slice. */
  lemma NulStringRead(s: seq<byte>, p: int, x: seq<byte>)
    requires 0 <= p && p + |x| + 1 <= |s| && s[p..p + |x| + 1] == x + [0] && 0 !in x
    ensures Reads(TakeNulString(s, p), x, p + |x| + 1)
  {
    var t := s[p..];
    assert t == x + [0] + t[|x| + 1..];
    FirstZeroAfter(x, t[|x| + 1..]);
    assert s[p..p + |x|] == x;
  }

  /** A string read up to a NUL holds no NUL itself. */
  lemma TakeNulStringNoZero(s: seq<byte>, p: int)
    requires TakeNulString(s, p).Some?
    ensures 0 !in TakeNulString(s, p).value.0
  {
    FirstZeroIsFirst(s[p..]);
    if FirstZero(s[p..]).Some? {
      var k := FirstZero(s[p..]).value;
      assert s[p..p + k] == s[p..][..k];
    }
  }

  /** The cursor after a successful read is the cursor before plus the width read. */
  lemma TakeAdvances(s: seq<byte>, p: int)
    ensures TakeU8(s, p).Some? ==> TakeU8(s, p).value.1 == p + 1
    ensures TakeNulString(s, p).Some? ==> TakeNulString(s, p).value.1 >= p
    ensures TakeLenEncInt(s, p).Some? ==> TakeLenEncInt(s, p).value.1 > p
  {
  }

  /**
    `readBytes(n)` either takes exactly n bytes and moves past them, or
    takes nothing and stays; it never moves the cursor past the end.
  */
  lemma TakeBytesShape(d: Dialect, s: seq<byte>, p: int, n: nat)
    requires p >= 0
    ensures var (r, q) := TakeBytes(d, s, p, n);
            || (|r| == n && q == p + n && q <= |s| && r == s[p..q])
            || (r == [] && q == p && !BytesFit(d, p, n, |s|))
  {
  }

  /**
    `readStringNullEnded` succeeds exactly when the cursor is within the
    buffer, and leaves it within the buffer, past the string it returns.
  */
  lemma TakeNulStringShape(s: seq<byte>, p: int)
    ensures TakeNulString(s, p).Some? <==> 0 <= p <= |s|
    ensures TakeNulString(s, p).Some? ==>
              var (r, q) := TakeNulString(s, p).value;
              p + |r| <= q <= |s| && s[p..p + |r|] == r
  {
  }

  /**
    `readUIntEncodedLength` needs the prefix byte, and two more bytes after
    a prefix of 0xfb or above; what it reads is always below 65536, and the
    cursor moves 1 or 3 bytes.
  */
  lemma TakeLenEncIntRange(s: seq<byte>, p: int)
    ensures TakeLenEncInt(s, p).Some? <==> 0 <= p < |s| && (s[p] >= 0xfb ==> p + 3 <= |s|)
    ensures TakeLenEncInt(s, p).Some? ==>
              var (v, q) := TakeLenEncInt(s, p).value;
              && v < 0x1_0000 && q == p + (if s[p] < 0xfb then 1 else 3)
              && (s[p] < 0xfb ==> v == s[p])
  {
  }

  // ---------------------------------------------------------------------
  // Length-encoded integers.

  /** The bytes `writeLengthEncoded(v)` (mysql: `writeLengthCoded`) appends. */
  function LenEnc(v: nat): (r: seq<byte>)
    ensures 1 <= |r| <= 9 && r[0] != 0xfb && r[0] != 0xff
  {
    if v < 0xfb then [v]
    else if v < 0x1_0000 then [0xfc] + LE(v, 2)
    else if v < 0x100_0000 then [0xfd] + LE(v, 3)
    else [0xfe] + LE(v, 8)
  }

  /**
    The protocol's own reading of a length-encoded integer: the value and the
    number of bytes it occupies. 0xfb (NULL) and 0xff are not integers.
  */
  function LenEncValue(s: seq<byte>): Option<(nat, nat)>
  {
    if |s| == 0 then None
    else if s[0] < 0xfb then Some((s[0] as nat, 1))
    else if s[0] == 0xfc && |s| >= 3 then Some((FromLE(s[1..3]), 3))
    else if s[0] == 0xfd && |s| >= 4 then Some((FromLE(s[1..4]), 4))
    else if s[0] == 0xfe && |s| >= 9 then Some((FromLE(s[1..9]), 9))
    else None
  }

  /**
    The writer follows the protocol: every 64-bit value is read back exactly,
    whatever follows it, and occupies 1, 3, 4 or 9 bytes by magnitude.
  */
  lemma LenEncRoundTrip(v: nat, rest: seq<byte>)
    requires v < 0x1_0000_0000_0000_0000
    ensures LenEncValue(LenEnc(v) + rest) == Some((v, |LenEnc(v)|))
    ensures |LenEnc(v)| == if v < 0xfb then 1 else if v < 0x1_0000 then 3 else if v < 0x100_0000 then 4 else 9
  {
    var e := LenEnc(v);
    var s := e + rest;
    if v < 0xfb {
    } else if v < 0x1_0000 {
      assert s[1..3] == LE(v, 2);
      FromLEOfLESmall(v, 2);
    } else if v < 0x100_0000 {
      assert s[1..4] == LE(v, 3);
      FromLEOfLESmall(v, 3);
    } else {
      assert s[1..9] == LE(v, 8);
      assert Pow256(8) == 0x1_0000_0000_0000_0000;
      FromLEOfLESmall(v, 8);
    }
  }

  /**
    The client's own reader does not follow the protocol: reading back what
    the writer wrote yields v modulo 65536 (exact only below 65536) and moves
    the cursor 1 byte when v < 0xfb and 3 bytes otherwise.
  */
  lemma ClientReadsLenEncModulo(v: nat, before: seq<byte>, after: seq<byte>)
    ensures TakeLenEncInt(before + LenEnc(v) + after, |before|)
         == Some((v % 0x1_0000, |before| + if v < 0xfb then 1 else 3))
  {
    var s := before + LenEnc(v) + after;
    var p := |before|;
    assert s[p] == LenEnc(v)[0];
    if v >= 0xfb {
      LenEncLowWord(v);
      assert s[p + 1..p + 3] == LenEnc(v)[1..3];
    }
  }

  /** Past its prefix, the image of a value of 0xfb or more starts with the value's low two bytes. */
  lemma LenEncLowWord(v: nat)
    requires v >= 0xfb
    ensures |LenEnc(v)| >= 3 && LenEnc(v)[0] >= 0xfb && FromLE(LenEnc(v)[1..3]) == v % 0x1_0000
  {
    var e := LenEnc(v);
    var m := |e| - 1;
    assert e[1..] == LE(v, m);
    assert e[1..3] == LE(v, m)[..2];
    LEPrefix(v, m, 2);
    FromLEOfLE(v, 2);
  }

  /** The first k bytes of an n-byte image are the k-byte image. */
  lemma {:induction false} LEPrefix(v: nat, n: nat, k: nat)
    requires k <= n
    ensures LE(v, n)[..k] == LE(v, k)
  {
    if k > 0 {
      assert LE(v, n)[..k] == [v % 256] + LE(v / 256, n - 1)[..k - 1];
      LEPrefix(v / 256, n - 1, k - 1);
    }
  }

  // ---------------------------------------------------------------------
  // Frame header: 3-byte little-endian payload length, then the sequence id.

  /**
    The frame after `updateHeader`: the length field holds the payload size
    (buffer size minus the 4 header bytes, converted to uint32 as the source
    does), byte 3 and the payload are kept.
  */
  function WithLength(s: seq<byte>): (r: seq<byte>)
    requires |s| >= 4
    ensures |r| == |s| && r[3..] == s[3..]
  {
    LE((|s| - 4) % 0x1_0000_0000, 3) + s[3..]
  }

  /**
    Re-reading the length field after updateHeader yields exactly the payload
    size; the sequence byte and the payload are untouched; and a second
    update changes nothing.
  */
  lemma WithLengthProperties(s: seq<byte>)
    requires |s| >= 4 && |s| - 4 < 0x100_0000
    ensures |WithLength(s)| == |s| && WithLength(s)[3..] == s[3..]
    ensures FromLE(WithLength(s)[..3]) == |s| - 4
    ensures WithLength(WithLength(s)) == WithLength(s)
  {
    var r := WithLength(s);
    assert r[..3] == LE(|s| - 4, 3);
    FromLEOfLESmall(|s| - 4, 3);
    assert r[3..] == s[3..];
  }

  // ---------------------------------------------------------------------
  // ERR packet (frame header, 0xff, 2-byte code, optional '#' + 5-byte SQL state, message).

  /** The text error() returns for a code of 0xff. */
  const PROGRESS_NOT_SUPPORTED: seq<byte> := Ascii("progress error reporting is not supported")

  /** `ErrorPacket.code()`: bytes 5 and 6, little-endian. */
  function ErrCodeOf(s: seq<byte>): (c: nat)
    requires |s| >= 7
    ensures c < 0x1_0000
  {
    FromLE(s[5..7])
  }

  /** What `ErrorPacket.error()` can run on without a panic. */
  predicate ErrReadable(s: seq<byte>)
  {
    |s| >= 7 && (ErrCodeOf(s) != 0xff ==> |s| >= 8)
  }

  /**
    `ErrorPacket.error()`: the 0xff code stands for a progress report; a '#'
    at byte 7 introduces a 5-byte SQL state, printed as `#[state] message`
    (when the 5 bytes cannot be read the brackets stay empty); otherwise the
    message is everything from byte 7.
  */
  function ErrMessageOf(d: Dialect, s: seq<byte>): (r: seq<byte>)
    requires ErrReadable(s)
    ensures ErrCodeOf(s) != 0xff && |s| >= 13 ==> |r| >= |s| - 13 && r[|r| - (|s| - 13)..] == s[13..]
  {
    if ErrCodeOf(s) == 0xff then PROGRESS_NOT_SUPPORTED
    else if s[7] == '#' as int then
      var (state, p) := TakeBytes(d, s, 8, 5);
      Ascii("#[") + state + Ascii("] ") + s[p..]
    else s[7..]
  }

  /** The ERR payload a server sends: 0xff, the code, optionally '#' and a 5-byte state, the message. */
  function ErrPayload(code: nat, state: Option<seq<byte>>, message: seq<byte>): seq<byte>
  {
    [0xff] + LE(code, 2) + (if state.Some? then ['#' as int] + state.value else []) + message
  }

  /**
    Decoding a server's ERR packet recovers its code and message. In the
    MySQL copy, whose readBytes refuses a read that reaches the end, a SQL
    state with an empty message after it is not read as the state: the
    brackets stay empty and the state is printed after them, as the rest of
    the packet.
  */
  lemma ErrPacketRoundTrip(d: Dialect, header: seq<byte>, code: nat, state: Option<seq<byte>>, message: seq<byte>)
    requires |header| == 4 && code < 0x1_0000 && code != 0xff
    requires state.Some? ==> |state.value| == 5
    requires state.None? ==> message != [] && message[0] != '#' as int
    ensures ErrReadable(header + ErrPayload(code, state, message))
    ensures ErrCodeOf(header + ErrPayload(code, state, message)) == code
    ensures ErrMessageOf(d, header + ErrPayload(code, state, message))
         == if state.None? then message
            else if d == MySQL && message == [] then Ascii("#[") + Ascii("] ") + state.value
            else Ascii("#[") + state.value + Ascii("] ") + message
  {
    var s := header + ErrPayload(code, state, message);
    assert s[5..7] == LE(code, 2);
    FromLEOfLESmall(code, 2);
    if state.Some? {
      assert s[7] == '#' as int;
      assert s[8..13] == state.value;
      assert s[13..] == message;
      if d == MySQL && message == [] {
        assert !BytesFit(MySQL, 8, 5, |s|);
        assert s[8..] == state.value;
      }
    } else {
      assert s[7..] == message;
    }
  }

  // ---------------------------------------------------------------------
  // mysql_native_password.

  /** A SHA-1 digest: 20 bytes. */
  type Digest = s: seq<byte> | |s| == 20 witness Zeros(20)

  /** SHA-1 (crypto/sha1) is outside this model: callers supply it. */
  type Sha1 = seq<byte> -> Digest

  /**
    The native-password token: SHA1(password) XOR SHA1(salt ++ SHA1(SHA1(password))),
    byte by byte.
  */
  function NativeScramble(password: seq<byte>, salt: seq<byte>, sha1: Sha1): (r: seq<byte>)
    ensures |r| == 20
  {
    XorBytes(sha1(password), sha1(salt + sha1(sha1(password))))
  }

  /**
    The token does its job: a server that stores only SHA1(SHA1(password))
    and sent the salt recovers SHA1(password) from the token by XOR with
    SHA1(salt ++ stored), and hashing that again gives back what it stored.
  */
  lemma NativeScrambleVerifies(password: seq<byte>, salt: seq<byte>, sha1: Sha1)
    ensures XorBytes(NativeScramble(password, salt, sha1), sha1(salt + sha1(sha1(password)))) == sha1(password)
    ensures sha1(XorBytes(NativeScramble(password, salt, sha1), sha1(salt + sha1(sha1(password))))) == sha1(sha1(password))
  {
    XorBytesCancels(sha1(password), sha1(salt + sha1(sha1(password))));
  }
}
