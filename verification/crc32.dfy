/** The CRC-32 kept by the HcBin reader over every byte it consumes: the
    reflected CRC with generator 0xEDB88320, register preset to all ones and
    the final value complemented. This is the frame check sequence of IEEE
    802.3 clause 3.2.9. The reader computes it one bit at a time. */
module Crc32 {
  import opened Common

  /** The reflected generator polynomial. */
  const CRC32_POLY: bv32 := 0xEDB8_8320
  /** Register value before the first byte. */
  const CRC32_INIT: bv32 := 0xFFFF_FFFF

  /** One bit step: the low bit of (input xor register) decides whether the
      shifted register is xored with the generator. */
  function BitStep(crc: bv32, c: bv32): bv32 {
    if (c ^ crc) & 1 == 1 then (crc >> 1) ^ CRC32_POLY else crc >> 1
  }

  /** `n` bit steps, consuming the input from its least significant bit up. */
  function Steps(crc: bv32, c: bv32, n: nat): bv32
    decreases n
  {
    if n == 0 then crc else Steps(BitStep(crc, c), c >> 1, n - 1)
  }

  /** updateCrc32: eight bit steps over one byte. */
  function UpdateCrc32(crc: bv32, c: byte): bv32 {
    Steps(crc, c as bv32, 8)
  }

  /** Undoes one bit step: the top bit of the result tells whether the
      generator was xored in, and with it the low bit that was shifted out. */
  function UnBitStep(r: bv32, c: bv32): bv32 {
    if r >> 31 == 1 then ((r ^ CRC32_POLY) << 1) | ((c & 1) ^ 1) else (r << 1) | (c & 1)
  }

  /** Undoes `n` bit steps, last step first. */
  function UnSteps(r: bv32, c: bv32, n: nat): bv32
    decreases n
  {
    if n == 0 then r else UnBitStep(UnSteps(r, c >> 1, n - 1), c)
  }

  /** Undoes the update by byte `c`. */
  function UnUpdateCrc32(r: bv32, c: byte): bv32 {
    UnSteps(r, c as bv32, 8)
  }

  /** `v` shifted right `n` times. */
  function Shr(v: bv32, n: nat): bv32
    decreases n
  {
    if n == 0 then v else Shr(v >> 1, n - 1)
  }

  lemma FlipFacts(x: bv32, c: bv32)
    requires (c ^ x) & 1 == 1
    ensures ((x >> 1) ^ CRC32_POLY) >> 31 == 1
    ensures ((((x >> 1) ^ CRC32_POLY) ^ CRC32_POLY) << 1) | ((c & 1) ^ 1) == x
  {}
  lemma KeepFacts(x: bv32, c: bv32)
    requires (c ^ x) & 1 != 1
    ensures (x >> 1) >> 31 == 0
    ensures ((x >> 1) << 1) | (c & 1) == x
  {}
  lemma BitStepFlip(x: bv32, c: bv32)
    requires (c ^ x) & 1 == 1
    ensures BitStep(x, c) == (x >> 1) ^ CRC32_POLY
  {}
  lemma BitStepKeep(x: bv32, c: bv32)
    requires (c ^ x) & 1 != 1
    ensures BitStep(x, c) == x >> 1
  {}
  lemma UnBitStepHigh(r: bv32, c: bv32)
    requires r >> 31 == 1
    ensures UnBitStep(r, c) == ((r ^ CRC32_POLY) << 1) | ((c & 1) ^ 1)
  {}
  lemma UnBitStepLow(r: bv32, c: bv32)
    requires r >> 31 == 0
    ensures UnBitStep(r, c) == (r << 1) | (c & 1)
  {}
  lemma UnBitStepInvertsFlip(x: bv32, c: bv32)
    requires (c ^ x) & 1 == 1
    ensures UnBitStep(BitStep(x, c), c) == x
  {
    BitStepFlip(x, c);
    FlipFacts(x, c);
    UnBitStepHigh((x >> 1) ^ CRC32_POLY, c);
  }
  lemma UnBitStepInvertsKeep(x: bv32, c: bv32)
    requires (c ^ x) & 1 != 1
    ensures UnBitStep(BitStep(x, c), c) == x
  {
    BitStepKeep(x, c);
    KeepFacts(x, c);
    UnBitStepLow(x >> 1, c);
  }
  lemma UnBitStepInverts(x: bv32, c: bv32)
    ensures UnBitStep(BitStep(x, c), c) == x
  {
    if (c ^ x) & 1 == 1 {
      UnBitStepInvertsFlip(x, c);
    } else {
      UnBitStepInvertsKeep(x, c);
    }
  }
  lemma {:induction false} UnStepsInverts(x: bv32, c: bv32, n: nat)
    ensures UnSteps(Steps(x, c, n), c, n) == x
    decreases n
  {
    if n > 0 {
      UnStepsInverts(BitStep(x, c), c >> 1, n - 1);
      UnBitStepInverts(x, c);
    }
  }
  lemma AbsorbFacts(r: bv32, v: bv32)
    ensures (0 ^ (r ^ v)) & 1 == (v ^ r) & 1
    ensures (r ^ v) >> 1 == (r >> 1) ^ (v >> 1)
    ensures ((r >> 1) ^ (v >> 1)) ^ CRC32_POLY == ((r >> 1) ^ CRC32_POLY) ^ (v >> 1)
    ensures (0 as bv32) >> 1 == 0
  {}
  lemma BitStepAbsorb(r: bv32, v: bv32)
    ensures BitStep(r ^ v, 0) == BitStep(r, v) ^ (v >> 1)
  {
    AbsorbFacts(r, v);
    if (v ^ r) & 1 == 1 {
      BitStepFlip(r ^ v, 0);
      BitStepFlip(r, v);
    } else {
      BitStepKeep(r ^ v, 0);
      BitStepKeep(r, v);
    }
  }
  /** One unfolding of `Steps`, stated over names for the stepped values. */
  lemma UnfoldSteps(x: bv32, v: bv32, n: nat, y: bv32, w: bv32, m: nat)
    requires n == m + 1 && y == BitStep(x, v) && w == v >> 1
    ensures Steps(x, v, n) == Steps(y, w, m)
  {}

  /** One unfolding of `Steps` for a zero input. */
  lemma UnfoldZero(a: bv32, n: nat, b: bv32, m: nat)
    requires n == m + 1 && b == BitStep(a, 0)
    ensures Steps(a, 0, n) == Steps(b, 0, m)
  {}

  /** One unfolding of `Shr`. */
  lemma UnfoldShr(v: bv32, n: nat, w: bv32, m: nat)
    requires n == m + 1 && w == v >> 1
    ensures Shr(v, n) == Shr(w, m)
  {}

  /** The inductive step of `StepsAbsorb`. */
  lemma StepsAbsorbStep(x: bv32, v: bv32, n: nat, y: bv32, w: bv32, m: nat)
    requires n == m + 1 && y == BitStep(x, v) && w == v >> 1
    requires Steps(y ^ w, 0, m) == Steps(y, w, m) ^ Shr(w, m)
    ensures Steps(x ^ v, 0, n) == Steps(x, v, n) ^ Shr(v, n)
  {
    var a := x ^ v;
    var b := y ^ w;
    BitStepAbsorb(x, v);
    UnfoldZero(a, n, b, m);
    UnfoldSteps(x, v, n, y, w, m);
    UnfoldShr(v, n, w, m);
  }

  /** The input can be moved into the register: stepping `x` by input `v`
      equals stepping `x ^ v` by a zero input, up to the input bits not yet
      shifted out. */
  lemma {:induction false} StepsAbsorb(x: bv32, v: bv32, n: nat)
    ensures Steps(x ^ v, 0, n) == Steps(x, v, n) ^ Shr(v, n)
    decreases n
  {
    if n > 0 {
      var m: nat := n - 1;
      var y := BitStep(x, v);
      var w := v >> 1;
      StepsAbsorb(y, w, m);
      StepsAbsorbStep(x, v, n, y, w, m);
    }
  }

  lemma StepsAbsorbAt(x: bv32, v: bv32, a: bv32, n: nat)
    requires a == x ^ v
    ensures Steps(a, 0, n) == Steps(x, v, n) ^ Shr(v, n)
  {
    StepsAbsorb(x, v, n);
  }

  /** For a byte-sized input, eight steps shift it out completely. */
  lemma StepsAbsorbByte(x: bv32, v: bv32, a: bv32, n: nat)
    requires a == x ^ v && v < 256 && n == 8
    ensures Steps(a, 0, n) == Steps(x, v, n)
  {
    StepsAbsorbAt(x, v, a, n);
    ByteShiftedOut(v, n);
  }

  lemma UpdateIsSteps(x: bv32, c: byte, v: bv32, n: nat)
    requires v == c as bv32 && n == 8
    ensures UpdateCrc32(x, c) == Steps(x, v, n)
  {}

  lemma ByteShiftedOut(v: bv32, n: nat)
    requires v < 256 && n == 8
    ensures Shr(v, n) == 0
  {}

  /** Feeding a byte equals feeding a zero byte to the register with the
      byte xored into its low end. */
  lemma ByteIntoRegister(x: bv32, c: byte)
    ensures UpdateCrc32(x, c) == UpdateCrc32(x ^ (c as bv32), 0)
  {
    var v := c as bv32;
    ByteIntoRegisterAt(x, c, v, x ^ v, 8);
  }

  lemma ByteIntoRegisterAt(x: bv32, c: byte, v: bv32, a: bv32, n: nat)
    requires v == c as bv32 && a == x ^ v && n == 8
    ensures UpdateCrc32(x, c) == UpdateCrc32(a, 0)
  {
    StepsAbsorbByte(x, v, a, n);
    UpdateIsSteps(x, c, v, n);
    UpdateIsSteps(a, 0, 0, n);
  }

  /** The byte update is undone by `UnUpdateCrc32`. */
  lemma UpdateUndone(x: bv32, c: byte)
    ensures UnUpdateCrc32(UpdateCrc32(x, c), c) == x
  {
    var v := c as bv32;
    UnStepsInverts(x, v, 8);
    UpdateIsSteps(x, c, v, 8);
  }

  /** For a fixed input byte, different registers stay different. */
  lemma UpdateInjectiveInRegister(x: bv32, y: bv32, c: byte)
    requires x != y
    ensures UpdateCrc32(x, c) != UpdateCrc32(y, c)
  {
    UpdateUndone(x, c);
    UpdateUndone(y, c);
  }

  /** For a fixed register, different input bytes give different registers. */
  lemma UpdateInjectiveInByte(crc: bv32, a: byte, b: byte)
    requires a != b
    ensures UpdateCrc32(crc, a) != UpdateCrc32(crc, b)
  {
    ByteIntoRegister(crc, a);
    ByteIntoRegister(crc, b);
    assert crc ^ (a as bv32) != crc ^ (b as bv32);
    UpdateInjectiveInRegister(crc ^ (a as bv32), crc ^ (b as bv32), 0);
  }

  /** Register after folding every byte of `s`, in order, into `r`. */
  function Fold(r: bv32, s: seq<byte>): bv32
    decreases |s|
  {
    if |s| == 0 then r else Fold(UpdateCrc32(r, s[0]), s[1..])
  }

  /** Register after folding every byte of `s` into the preset value. */
  function CrcOf(s: seq<byte>): bv32 {
    Fold(CRC32_INIT, s)
  }

  /** The checksum as stored: the complement of the register. */
  function Checksum(s: seq<byte>): bv32 {
    !CrcOf(s)
  }

  /** Folding a concatenation folds the parts one after the other. */
  lemma {:induction false} FoldAppend(r: bv32, s: seq<byte>, t: seq<byte>)
    ensures Fold(r, s + t) == Fold(Fold(r, s), t)
    decreases |s|
  {
    if |s| > 0 {
      var r' := UpdateCrc32(r, s[0]);
      assert (s + t)[1..] == s[1..] + t;
      FoldAppend(r', s[1..], t);
    } else {
      assert s + t == t;
    }
  }

  lemma CrcOfSnoc(s: seq<byte>, b: byte)
    ensures CrcOf(s + [b]) == UpdateCrc32(CrcOf(s), b)
  {
    FoldAppend(CRC32_INIT, s, [b]);
    assert [b][1..] == [];
  }

  /** Registers that differ stay different whatever common bytes are folded
      into both. */
  lemma {:induction false} FoldKeepsDifference(r1: bv32, r2: bv32, q: seq<byte>)
    requires r1 != r2
    ensures Fold(r1, q) != Fold(r2, q)
    decreases |q|
  {
    if |q| > 0 {
      var b, q' := q[0], q[1..];
      UpdateInjectiveInRegister(r1, r2, b);
      FoldKeepsDifference(UpdateCrc32(r1, b), UpdateCrc32(r2, b), q');
    }
  }

  /** Contents whose registers differ keep different registers whatever
      common bytes follow. */
  lemma CrcSuffixKeepsDifference(u: seq<byte>, v: seq<byte>, q: seq<byte>)
    requires CrcOf(u) != CrcOf(v)
    ensures CrcOf(u + q) != CrcOf(v + q)
  {
    FoldAppend(CRC32_INIT, u, q);
    FoldAppend(CRC32_INIT, v, q);
    FoldKeepsDifference(CrcOf(u), CrcOf(v), q);
  }

  /** Different bytes after a common prefix give different registers. */
  lemma SnocDifferentBytes(p: seq<byte>, a: byte, b: byte)
    requires a != b
    ensures CrcOf(p + [a]) != CrcOf(p + [b])
  {
    CrcOfSnoc(p, a);
    CrcOfSnoc(p, b);
    UpdateInjectiveInByte(CrcOf(p), a, b);
  }

  /** Contents that differ in one byte only, anywhere, have different
      registers. */
  lemma OneByteApart(p: seq<byte>, a: byte, b: byte, q: seq<byte>)
    requires a != b
    ensures CrcOf(p + [a] + q) != CrcOf(p + [b] + q)
  {
    SnocDifferentBytes(p, a, b);
    CrcSuffixKeepsDifference(p + [a], p + [b], q);
  }

  /** The check detects every single-byte corruption: two contents of the
      same length that differ at exactly one position have different
      checksums. */
  lemma SingleByteErrorDetected(s: seq<byte>, t: seq<byte>, i: nat)
    requires |s| == |t| && i < |s| && s[i] != t[i]
    requires forall j :: 0 <= j < |s| && j != i ==> s[j] == t[j]
    ensures Checksum(s) != Checksum(t)
  {
    var p, q := s[..i], s[i + 1..];
    assert s == p + [s[i]] + q;
    assert t == p + [t[i]] + q;
    OneByteApart(p, s[i], t[i], q);
  }

  /** The register after each of the nine ASCII digits "123456789". */
  lemma CheckRegisters()
    ensures UpdateCrc32(CRC32_INIT, 0x31) == 0x7C23_1048
    ensures UpdateCrc32(0x7C23_1048, 0x32) == 0xB0AC_BB32
    ensures UpdateCrc32(0xB0AC_BB32, 0x33) == 0x77B7_9C2D
    ensures UpdateCrc32(0x77B7_9C2D, 0x34) == 0x641C_1F5C
    ensures UpdateCrc32(0x641C_1F5C, 0x35) == 0x340A_C5E3
    ensures UpdateCrc32(0x340A_C5E3, 0x36) == 0xF68D_2C9E
    ensures UpdateCrc32(0xF68D_2C9E, 0x37) == 0xAFFC_9660
    ensures UpdateCrc32(0xAFFC_9660, 0x38) == 0x651F_2550
    ensures UpdateCrc32(0x651F_2550, 0x39) == 0x340B_C6D9
  {
  }

  /** Extending known contents by one byte. */
  lemma CrcOfExtend(s: seq<byte>, b: byte, t: seq<byte>, r0: bv32, r1: bv32)
    requires t == s + [b] && CrcOf(s) == r0 && UpdateCrc32(r0, b) == r1
    ensures CrcOf(t) == r1
  {
    CrcOfSnoc(s, b);
  }

  /** The standard check value of this CRC: the nine ASCII digits "123456789"
      give 0xCBF43926. */
  lemma CheckValue()
    ensures Checksum([0x31, 0x32, 0x33, 0x34, 0x35, 0x36, 0x37, 0x38, 0x39]) == 0xCBF4_3926
  {
    CheckRegisters();
    var s0: seq<byte> := [];
    var s1 := s0 + [0x31];
    var s2 := s1 + [0x32];
    var s3 := s2 + [0x33];
    var s4 := s3 + [0x34];
    var s5 := s4 + [0x35];
    var s6 := s5 + [0x36];
    var s7 := s6 + [0x37];
    var s8 := s7 + [0x38];
    var s9 := s8 + [0x39];
    CrcOfExtend(s0, 0x31, s1, CRC32_INIT, 0x7C23_1048);
    CrcOfExtend(s1, 0x32, s2, 0x7C23_1048, 0xB0AC_BB32);
    CrcOfExtend(s2, 0x33, s3, 0xB0AC_BB32, 0x77B7_9C2D);
    CrcOfExtend(s3, 0x34, s4, 0x77B7_9C2D, 0x641C_1F5C);
    CrcOfExtend(s4, 0x35, s5, 0x641C_1F5C, 0x340A_C5E3);
    CrcOfExtend(s5, 0x36, s6, 0x340A_C5E3, 0xF68D_2C9E);
    CrcOfExtend(s6, 0x37, s7, 0xF68D_2C9E, 0xAFFC_9660);
    CrcOfExtend(s7, 0x38, s8, 0xAFFC_9660, 0x651F_2550);
    CrcOfExtend(s8, 0x39, s9, 0x651F_2550, 0x340B_C6D9);
    assert s9 == [0x31, 0x32, 0x33, 0x34, 0x35, 0x36, 0x37, 0x38, 0x39];
  }
}
