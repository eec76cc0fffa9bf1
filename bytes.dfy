/**
  Byte-level vocabulary shared by both client packages: the byte type,
  little-endian integers as Go's encoding/binary writes and reads them,
  XOR of byte strings, ASCII literals and Go's `%d` formatting.
*/
module Bytes {

  /** An unsigned 8-bit value: the element of a Go `[]byte` (and of a Go `string`). */
  type byte = b: int | 0 <= b < 0x100

  datatype Option<+T> = None | Some(value: T) {
    predicate IsFailure() { None? }

    function PropagateFailure<U>(): Option<U>
      requires None?
    {
      None
    }

    function Extract(): T
      requires Some?
    {
      value
    }
  }

  function Pow256(n: nat): (r: nat)
    ensures r > 0
  {
    if n == 0 then 1 else 256 * Pow256(n - 1)
  }

  /**
    The n-byte little-endian image of v. Like `PutUintN(buf, uintN(v))`,
    only v modulo 256^n is kept.
  */
  function LE(v: nat, n: nat): (r: seq<byte>)
    ensures |r| == n
  {
    if n == 0 then [] else [v % 256] + LE(v / 256, n - 1)
  }

  /** The unsigned value of a little-endian byte string (`binary.LittleEndian.UintN`). */
  function FromLE(s: seq<byte>): (v: nat)
    ensures v < Pow256(|s|)
  {
    if s == [] then 0 else s[0] + 256 * FromLE(s[1..])
  }

  /** Euclid's uniqueness of quotient and remainder, in the form the proofs below use. */
  lemma ModUnique(v: int, d: int, q: int, m: int)
    requires d > 0 && 0 <= m < d && v == d * q + m
    ensures v % d == m && v / d == q
  {
    var q', m' := v / d, v % d;
    var k := q' - q;
    assert d * k == m - m' by {
      calc {
        d * k;
        d * q' - d * q;
        (v - m') - (v - m);
      }
    }
    assert k >= 1 ==> d * k >= d * 1;
    assert k <= -1 ==> d * k <= d * -1;
  }

  /** Reducing modulo a * b: the remainder modulo a, plus a times the next digit in base b. */
  lemma ModSplit(v: nat, a: nat, b: nat)
    requires a > 0 && b > 0
    ensures v % (a * b) == v % a + a * ((v / a) % b)
  {
    var q := v / a;
    var x, y := q / b, q % b;
    assert v == (a * b) * x + (a * y + v % a) by {
      assert q == b * x + y;
      assert v == a * q + v % a;
      MulDistributes(a, b, x, y);
    }
    assert a * y + v % a < a * b by {
      MulBelow(a, y, b);
    }
    ModUnique(v, a * b, x, a * y + v % a);
  }

  lemma MulDistributes(a: int, b: int, x: int, y: int)
    ensures a * (b * x + y) == (a * b) * x + a * y
  {
  }

  lemma MulBelow(a: nat, y: nat, b: nat)
    requires a > 0 && y < b
    ensures a * y + a <= a * b
  {
    var k := b - y - 1;
    assert a * b == a * y + a + a * k by {
      MulDistributes(a, 1, y + 1, k);
    }
  }

  /** Reading back n little-endian bytes yields the value modulo 256^n. */
  lemma {:induction false} FromLEOfLE(v: nat, n: nat)
    ensures FromLE(LE(v, n)) == v % Pow256(n)
  {
    if n > 0 {
      var r := LE(v, n);
      assert r[1..] == LE(v / 256, n - 1);
      FromLEOfLE(v / 256, n - 1);
      ModSplit(v, 256, Pow256(n - 1));
    }
  }

  /** Values that fit in n bytes survive the round trip unchanged. */
  lemma FromLEOfLESmall(v: nat, n: nat)
    requires v < Pow256(n)
    ensures FromLE(LE(v, n)) == v
  {
    FromLEOfLE(v, n);
  }

  /** Writing back the value of n bytes gives the same n bytes. */
  lemma {:induction false} LEOfFromLE(s: seq<byte>)
    ensures LE(FromLE(s), |s|) == s
  {
    if s != [] {
      var v := FromLE(s);
      assert v % 256 == s[0] && v / 256 == FromLE(s[1..]) by {
        ModUnique(v, 256, FromLE(s[1..]), s[0]);
      }
      LEOfFromLE(s[1..]);
    }
  }

  /** n zero bytes, as Go's `make([]byte, n)`. */
  function Zeros(n: nat): (r: seq<byte>)
    ensures |r| == n && forall i :: 0 <= i < n ==> r[i] == 0
  {
    seq(n, _ => 0)
  }

  /** Trailing zero bytes do not change a little-endian value. */
  lemma {:induction false} FromLEZeroPadded(s: seq<byte>, n: nat)
    ensures FromLE(s + Zeros(n)) == FromLE(s)
  {
    if s == [] {
      assert s + Zeros(n) == Zeros(n);
      ZerosValue(n);
    } else {
      assert (s + Zeros(n))[1..] == s[1..] + Zeros(n);
      FromLEZeroPadded(s[1..], n);
    }
  }

  lemma {:induction false} ZerosValue(n: nat)
    ensures FromLE(Zeros(n)) == 0
  {
    if n > 0 {
      assert Zeros(n)[1..] == Zeros(n - 1);
      ZerosValue(n - 1);
    }
  }

  /**
    Bitwise exclusive or, Go's `^`: bit by bit from the lowest, each result
    bit set when exactly one of the two operand bits is.
  */
  function Xor(a: nat, b: nat): (r: nat)
    decreases a + b
  {
    if a == 0 && b == 0 then 0 else (a + b) % 2 + 2 * Xor(a / 2, b / 2)
  }

  /** Two values below 2^k have an exclusive or below 2^k. */
  lemma {:induction false} XorBelow(a: nat, b: nat, k: nat)
    requires a < Pow2(k) && b < Pow2(k)
    ensures Xor(a, b) < Pow2(k)
    decreases a + b
  {
    if !(a == 0 && b == 0) {
      XorBelow(a / 2, b / 2, k - 1);
    }
  }

  function Pow2(k: nat): (r: nat)
    ensures r > 0
  {
    if k == 0 then 1 else 2 * Pow2(k - 1)
  }

  /** The exclusive or of two bytes is a byte. */
  lemma XorBelowByte(a: byte, b: byte)
    ensures Xor(a, b) < 0x100
  {
    assert Pow2(8) == 0x100;
    XorBelow(a, b, 8);
  }

  /** The lowest bit of an exclusive or, and the exclusive or of the bits above it. */
  lemma XorStep(a: nat, b: nat)
    ensures Xor(a, b) % 2 == (a + b) % 2 && Xor(a, b) / 2 == Xor(a / 2, b / 2)
  {
    if !(a == 0 && b == 0) {
      ModUnique(Xor(a, b), 2, Xor(a / 2, b / 2), (a + b) % 2);
    }
  }

  /** Exclusive or with the same mask twice restores the original value. */
  lemma {:induction false} XorCancels(a: nat, b: nat)
    ensures Xor(Xor(a, b), b) == a
    decreases a + b
  {
    var x := Xor(a, b);
    var y := Xor(x, b);
    XorStep(a, b);
    XorStep(x, b);
    if a + b > 0 {
      XorCancels(a / 2, b / 2);
    }
    ParityCancels(a, b, x);
    assert y % 2 == a % 2 && y / 2 == a / 2;
  }

  lemma ParityCancels(a: nat, b: nat, x: nat)
    requires x % 2 == (a + b) % 2
    ensures (x + b) % 2 == a % 2
  {
  }

  /** The exclusive or of two bytes. */
  function XorByte(a: byte, b: byte): byte
  {
    XorBelowByte(a, b);
    Xor(a, b)
  }

  /** Byte-wise exclusive or of two strings of equal length. */
  function XorBytes(a: seq<byte>, b: seq<byte>): (r: seq<byte>)
    requires |a| == |b|
    ensures |r| == |a|
  {
    seq(|a|, i requires 0 <= i < |a| => XorByte(a[i], b[i]))
  }

  /** XOR with the same mask twice restores the original string. */
  lemma XorBytesCancels(a: seq<byte>, b: seq<byte>)
    requires |a| == |b|
    ensures XorBytes(XorBytes(a, b), b) == a
  {
    var r := XorBytes(XorBytes(a, b), b);
    forall i | 0 <= i < |a|
      ensures r[i] == a[i]
    {
      XorCancels(a[i], b[i]);
    }
  }

  /**
    The bytes of a Go string literal. Every literal in this client is ASCII;
    a character outside one byte (which never occurs) would become '?'.
  */
  function Ascii(s: string): (r: seq<byte>)
    ensures |r| == |s|
  {
    seq(|s|, i requires 0 <= i < |s| => if s[i] as int < 0x100 then s[i] as int else 0x3f)
  }

  /** The decimal digits of n, as Go's `%d` prints a non-negative integer. */
  function Decimal(n: nat): (r: seq<byte>)
    ensures |r| >= 1
    ensures forall i :: 0 <= i < |r| ==> '0' as int <= r[i] <= '9' as int
  {
    if n < 10 then [48 + n] else Decimal(n / 10) + [48 + n % 10]
  }

  /** The value a string of decimal digits denotes. */
  function DigitsValue(s: seq<byte>): nat
    requires forall i :: 0 <= i < |s| ==> '0' as int <= s[i] <= '9' as int
  {
    if s == [] then 0 else 10 * DigitsValue(s[..|s| - 1]) + (s[|s| - 1] - 48)
  }

  /** `%d` is faithful: the printed digits denote the number printed. */
  lemma {:induction false} DecimalDenotes(n: nat)
    ensures DigitsValue(Decimal(n)) == n
  {
    if n >= 10 {
      var r := Decimal(n);
      assert r[..|r| - 1] == Decimal(n / 10);
      DecimalDenotes(n / 10);
    }
  }

  /** The index of the first zero byte of s, if any. */
  function FirstZero(s: seq<byte>): (r: Option<nat>)
    ensures r.Some? ==> r.value < |s| && s[r.value] == 0
  {
    if s == [] then None
    else if s[0] == 0 then Some(0)
    else match FirstZero(s[1..]) {
      case None => None
      case Some(k) => Some(k + 1)
    }
  }

  /** FirstZero finds the first zero: none before it, and none at all when it finds nothing. */
  lemma {:induction false} FirstZeroIsFirst(s: seq<byte>)
    ensures FirstZero(s).Some? ==> 0 !in s[..FirstZero(s).value]
    ensures FirstZero(s).None? <==> 0 !in s
  {
    if s != [] && s[0] != 0 {
      FirstZeroIsFirst(s[1..]);
      assert s == [s[0]] + s[1..];
      if FirstZero(s[1..]).Some? {
        var k := FirstZero(s[1..]).value;
        assert s[..k + 1] == [s[0]] + s[1..][..k];
      }
    }
  }

  /** A zero-free prefix followed by a zero: FirstZero finds that zero. */
  lemma {:induction false} FirstZeroAfter(x: seq<byte>, rest: seq<byte>)
    requires 0 !in x
    ensures FirstZero(x + [0] + rest) == Some(|x|)
  {
    if x != [] {
      assert (x + [0] + rest)[1..] == x[1..] + [0] + rest;
      FirstZeroAfter(x[1..], rest);
    }
  }
}
