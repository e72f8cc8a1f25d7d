/** Shared vocabulary: bytes, fixed-width unsigned ranges, the sh2 status codes,
    and a small Option type. */
module Common {

  /** One octet on the wire or in a file. */
  type byte = bv8

  const TWO_16: nat := 0x1_0000
  const TWO_32: nat := 0x1_0000_0000

  type uint16 = x: nat | x < 0x1_0000
  type uint32 = x: nat | x < 0x1_0000_0000

  /** Status codes of the sh2 library (its sh2_err.h is not part of this model;
      the values are the library's). Success is zero, errors are negative. */
  const SH2_OK: int := 0
  const SH2_ERR: int := -1
  const SH2_ERR_BAD_PARAM: int := -2
  const SH2_ERR_IO: int := -4
  const SH2_ERR_HUB: int := -5
  const SH2_ERR_TIMEOUT: int := -6

  datatype Option<T> = None | Some(value: T)

  /** Elapsed microseconds between two readings of a 32-bit wrapping clock,
      as the unsigned subtraction `now - start` computes it. */
  function Elapsed32(now: uint32, start: uint32): (r: uint32)
    ensures now >= start ==> r == now - start
    ensures now < start ==> r == now + TWO_32 - start
  {
    (now - start) % TWO_32
  }

  /** Unsigned value of a byte. */
  function Val(b: byte): (r: nat)
    ensures r < 256
  {
    b as int
  }

  /** Two bytes, least significant first, as an unsigned 16-bit value. */
  function LittleEndian16(lo: byte, hi: byte): (r: uint16)
    ensures r % 256 == Val(lo) && r / 256 == Val(hi)
  {
    SplitByte(Val(lo), Val(hi));
    Val(lo) + 256 * Val(hi)
  }

  /** Division by 256 separates a low byte from what lies above it. */
  lemma SplitByte(lo: nat, hi: nat)
    requires lo < 256
    ensures (lo + 256 * hi) % 256 == lo && (lo + 256 * hi) / 256 == hi
  {
    var r := lo + 256 * hi;
    assert r == 256 * hi + lo;
  }

  /** The bytes of `s`, most significant first, appended to `acc` as further
      base-256 digits. */
  function BigEndian(acc: nat, s: seq<byte>): nat
    decreases |s|
  {
    if |s| == 0 then acc else BigEndian(acc * 256 + Val(s[0]), s[1..])
  }

  /** One digit of a big-endian reading. */
  lemma BigEndianStep(acc: nat, s: seq<byte>, d: nat, next: nat, t: seq<byte>)
    requires |s| > 0 && d == Val(s[0]) && next == acc * 256 + d && t == s[1..]
    ensures BigEndian(acc, s) == BigEndian(next, t)
  {
  }

  /** Four bytes read most significant first. */
  lemma BigEndian4(s: seq<byte>)
    requires |s| == 4
    ensures BigEndian(0, s) == ((Val(s[0]) * 256 + Val(s[1])) * 256 + Val(s[2])) * 256 + Val(s[3])
  {
    var s1 := s[1..];
    var s2 := s1[1..];
    var s3 := s2[1..];
    var s4 := s3[1..];
    var a, b, c, d := Val(s[0]), Val(s1[0]), Val(s2[0]), Val(s3[0]);
    var v1 := a;
    var v2 := v1 * 256 + b;
    var v3 := v2 * 256 + c;
    var v4 := v3 * 256 + d;
    BigEndianStep(0, s, a, v1, s1);
    BigEndianStep(v1, s1, b, v2, s2);
    BigEndianStep(v2, s2, c, v3, s3);
    BigEndianStep(v3, s3, d, v4, s4);
    assert |s4| == 0;
  }

  /** Four base-256 digits fit in 32 bits. */
  lemma DigitsBound(a: nat, b: nat, c: nat, d: nat)
    requires a < 256 && b < 256 && c < 256 && d < 256
    ensures ((a * 256 + b) * 256 + c) * 256 + d < TWO_32
  {
    var x := a * 256 + b;
    assert x < 0x1_0000;
    var y := x * 256 + c;
    assert y < 0x100_0000;
  }

  /** Four big-endian bytes fit in 32 bits. */
  lemma BigEndian4Bound(s: seq<byte>)
    requires |s| == 4
    ensures BigEndian(0, s) < TWO_32
  {
    BigEndian4(s);
    DigitsBound(Val(s[0]), Val(s[1]), Val(s[2]), Val(s[3]));
  }

  /** A value below 2^32 splits into four base-256 digits. */
  lemma Digits(v: nat, q1: nat, q2: nat, q3: nat)
    requires v < TWO_32 && q1 == v / 256 && q2 == q1 / 256 && q3 == q2 / 256
    ensures q3 < 256
    ensures ((q3 * 256 + q2 % 256) * 256 + q1 % 256) * 256 + v % 256 == v
  {
    assert q2 * 256 + q1 % 256 == q1;
    assert q3 * 256 + q2 % 256 == q2;
  }

  /** A number below 16 as a byte. */
  function Nibble(n: nat): (r: byte)
    requires n < 16
    ensures Val(r) == n
  {
    match n
    case 0 => 0x0 case 1 => 0x1 case 2 => 0x2 case 3 => 0x3
    case 4 => 0x4 case 5 => 0x5 case 6 => 0x6 case 7 => 0x7
    case 8 => 0x8 case 9 => 0x9 case 10 => 0xA case 11 => 0xB
    case 12 => 0xC case 13 => 0xD case 14 => 0xE case _ => 0xF
  }

  /** Two nibbles side by side make a byte. */
  lemma JoinNibbles(h: byte, l: byte)
    requires Val(h) < 16 && Val(l) < 16
    ensures Val((h << 4) | l) == Val(h) * 16 + Val(l)
  {
  }

  /** A number below 256 as a byte. */
  function ToByte(x: nat): (b: byte)
    requires x < 256
    ensures Val(b) == x
  {
    var h := Nibble(x / 16);
    var l := Nibble(x % 16);
    JoinNibbles(h, l);
    (h << 4) | l
  }

  /** A 32-bit value as four bytes, most significant first; reading them back
      most significant first gives the value again. */
  function Write32be(v: uint32): (r: seq<byte>)
    ensures |r| == 4 && BigEndian(0, r) == v
  {
    var q1 := v / 256;
    var q2 := q1 / 256;
    var q3 := q2 / 256;
    Digits(v, q1, q2, q3);
    var r := [ToByte(q3), ToByte(q2 % 256), ToByte(q1 % 256), ToByte(v % 256)];
    BigEndian4(r);
    r
  }

  /** The bytes of a string of 8-bit characters. */
  function Bytes(s: string): (r: seq<byte>)
    ensures |r| == |s|
  {
    seq(|s|, i requires 0 <= i < |s| => ((s[i] as int) % 256) as byte)
  }

  /** A 32-bit register read as an unsigned number. */
  function Unsigned32(x: bv32): (r: uint32)
    ensures r as bv32 == x
  {
    var n := x as int;
    Range32(x, n);
    n
  }

  /** The unsigned reading of a 32-bit register is in range and converts back. */
  lemma Range32(x: bv32, n: int)
    requires n == x as int
    ensures 0 <= n < TWO_32 && n as bv32 == x
  {
  }
}
