/** The CRC-16 the BNO bootloader expects after every DFU packet: generator
    0x1021, register preset to all ones, bits taken most significant first,
    no final complement (the CRC-16/CCITT-FALSE parameter set). The sender
    computes it one bit at a time and appends the register most significant
    byte first. */
module Crc16 {
  import opened Common

  /** The generator polynomial, most significant bit first. */
  const CRC16_POLY: bv16 := 0x1021
  /** Register value before the first byte. */
  const CRC16_INIT: bv16 := 0xFFFF

  /** One bit step: the top bit of (register xor input) decides whether the
      shifted register is xored with the generator. */
  function BitStep(crc: bv16, x: bv16): bv16 {
    if (crc ^ x) & 0x8000 != 0 then (crc << 1) ^ CRC16_POLY else crc << 1
  }

  /** `n` bit steps, consuming the input from its most significant bit down. */
  function Steps(crc: bv16, x: bv16, n: nat): bv16
    decreases n
  {
    if n == 0 then crc else Steps(BitStep(crc, x), x << 1, n - 1)
  }

  /** The input byte placed in the high half of a 16-bit word. */
  function High(b: byte): bv16 {
    (b as bv16) << 8
  }

  /** Eight bit steps over one byte. */
  function Update(crc: bv16, b: byte): bv16 {
    Steps(crc, High(b), 8)
  }

  /** Register after folding every byte of `s`, in order, into `r`. */
  function Fold(r: bv16, s: seq<byte>): bv16
    decreases |s|
  {
    if |s| == 0 then r else Fold(Update(r, s[0]), s[1..])
  }

  /** The CRC of a packet: its bytes folded into the preset register. */
  function CrcOf(s: seq<byte>): bv16 {
    Fold(CRC16_INIT, s)
  }

  /** The high byte of a register. */
  function HighByte(v: bv16): byte {
    (v >> 8) as bv8
  }

  /** The low byte of a register. */
  function LowByte(v: bv16): byte {
    (v & 0xFF) as bv8
  }

  /** A register as two bytes, most significant first. */
  function BigEndian16(v: bv16): (r: seq<byte>)
    ensures |r| == 2 && Val(r[0]) * 256 + Val(r[1]) == v as int
  {
    SplitRegister(v);
    [HighByte(v), LowByte(v)]
  }

  lemma SplitRegister(v: bv16)
    ensures Val(HighByte(v)) * 256 + Val(LowByte(v)) == v as int
  {
  }

  /** Folding a concatenation folds the parts one after the other. */
  lemma {:induction false} FoldAppend(r: bv16, s: seq<byte>, t: seq<byte>)
    ensures Fold(r, s + t) == Fold(Fold(r, s), t)
    decreases |s|
  {
    if |s| > 0 {
      var r' := Update(r, s[0]);
      assert (s + t)[1..] == s[1..] + t;
      FoldAppend(r', s[1..], t);
    } else {
      assert s + t == t;
    }
  }

  /** A bit step in which the register and the input agree on the bits of
      `mask`, the top bit among them: nothing is xored in, the two words shift
      together, and they agree on the shifted mask. */
  lemma QuietStep(c: bv16, x: bv16, n: nat, c': bv16, x': bv16, m: nat, mask: bv16)
    requires n == m + 1 && c' == c << 1 && x' == x << 1
    requires (c ^ x) & mask == 0 && mask & 0x8000 != 0
    ensures Steps(c, x, n) == Steps(c', x', m)
    ensures (c' ^ x') & (mask << 1) == 0
  {
  }

  /** When the register and the input agree in their top eight bits, the
      eight steps of a byte only shift the register. */
  lemma ShiftOnly(c0: bv16, x0: bv16)
    requires (c0 ^ x0) & 0xFF00 == 0
    ensures Steps(c0, x0, 8) == c0 << 8
  {
    var c1, x1 := c0 << 1, x0 << 1;
    QuietStep(c0, x0, 8, c1, x1, 7, 0xFF00);
    var c2, x2 := c1 << 1, x1 << 1;
    QuietStep(c1, x1, 7, c2, x2, 6, 0xFE00);
    var c3, x3 := c2 << 1, x2 << 1;
    QuietStep(c2, x2, 6, c3, x3, 5, 0xFC00);
    var c4, x4 := c3 << 1, x3 << 1;
    QuietStep(c3, x3, 5, c4, x4, 4, 0xF800);
    var c5, x5 := c4 << 1, x4 << 1;
    QuietStep(c4, x4, 4, c5, x5, 3, 0xF000);
    var c6, x6 := c5 << 1, x5 << 1;
    QuietStep(c5, x5, 3, c6, x6, 2, 0xE000);
    var c7, x7 := c6 << 1, x6 << 1;
    QuietStep(c6, x6, 2, c7, x7, 1, 0xC000);
    var c8, x8 := c7 << 1, x7 << 1;
    QuietStep(c7, x7, 1, c8, x8, 0, 0x8000);
    ShiftEight(c0, c1, c2, c3, c4, c5, c6, c7, c8);
  }

  /** Eight single shifts make one shift by eight. */
  lemma ShiftEight(c0: bv16, c1: bv16, c2: bv16, c3: bv16, c4: bv16, c5: bv16, c6: bv16, c7: bv16, c8: bv16)
    requires c1 == c0 << 1 && c2 == c1 << 1 && c3 == c2 << 1 && c4 == c3 << 1
    requires c5 == c4 << 1 && c6 == c5 << 1 && c7 == c6 << 1 && c8 == c7 << 1
    ensures c8 == c0 << 8
  {
  }

  /** Feeding a register its own high byte leaves its low byte on top. */
  lemma FeedHighByte(r: bv16)
    ensures Update(r, HighByte(r)) == r << 8
  {
    ShiftOnly(r, High(HighByte(r)));
  }

  /** Feeding a register, whose low half is zero, its top byte clears it. */
  lemma FeedLowByte(r: bv16)
    ensures Update(r << 8, LowByte(r)) == 0
  {
    ShiftOnly(r << 8, High(LowByte(r)));
  }

  /** The register followed by its two bytes, most significant first, folds to
      zero: this is the check a receiver makes over a packet with its CRC. */
  lemma Residue(r: bv16)
    ensures Fold(r, BigEndian16(r)) == 0
  {
    var hi, lo := HighByte(r), LowByte(r);
    FeedHighByte(r);
    FeedLowByte(r);
    FoldTwo(r, hi, lo, Update(r, hi), Update(Update(r, hi), lo));
  }

  /** Folding two bytes. */
  lemma FoldTwo(r: bv16, a: byte, b: byte, r1: bv16, r2: bv16)
    requires r1 == Update(r, a) && r2 == Update(r1, b)
    ensures Fold(r, [a, b]) == r2
  {
    assert [a, b][1..] == [b];
    assert [b][1..] == [];
    assert Fold(r, [a, b]) == Fold(r1, [b]);
    assert Fold(r1, [b]) == Fold(r2, []);
  }

  /** Extending known contents by one byte. */
  lemma CrcOfExtend(s: seq<byte>, b: byte, t: seq<byte>, r0: bv16, r1: bv16)
    requires t == s + [b] && CrcOf(s) == r0 && Update(r0, b) == r1
    ensures CrcOf(t) == r1
  {
    FoldAppend(CRC16_INIT, s, [b]);
    assert [b][1..] == [];
  }

  /** The register after each of the nine ASCII digits "123456789". */
  lemma CheckRegisters()
    ensures Update(CRC16_INIT, 0x31) == 0xC782
    ensures Update(0xC782, 0x32) == 0x3DBA
    ensures Update(0x3DBA, 0x33) == 0x5BCE
    ensures Update(0x5BCE, 0x34) == 0x5349
    ensures Update(0x5349, 0x35) == 0x4560
    ensures Update(0x4560, 0x36) == 0x2EF4
    ensures Update(0x2EF4, 0x37) == 0x7718
    ensures Update(0x7718, 0x38) == 0xA12B
    ensures Update(0xA12B, 0x39) == 0x29B1
  {
  }

  /** The standard check value of this CRC: the nine ASCII digits "123456789"
      give 0x29B1. */
  lemma CheckValue()
    ensures CrcOf([0x31, 0x32, 0x33, 0x34, 0x35, 0x36, 0x37, 0x38, 0x39]) == 0x29B1
  {
    CheckRegisters();
    var s0: seq<byte> := [];
    var s1 := s0 + [0x31];
    var s2 := s1 + [0x32];
    var s3 := s2 + [0x33];
    var s4 := s3 + [0x34];
    var s5 := s4 + [0x35];
    var s6 := s5 + [0x36];
    var s7 := s6 + [0x37];
    var s8 := s7 + [0x38];
    var s9 := s8 + [0x39];
    CrcOfExtend(s0, 0x31, s1, CRC16_INIT, 0xC782);
    CrcOfExtend(s1, 0x32, s2, 0xC782, 0x3DBA);
    CrcOfExtend(s2, 0x33, s3, 0x3DBA, 0x5BCE);
    CrcOfExtend(s3, 0x34, s4, 0x5BCE, 0x5349);
    CrcOfExtend(s4, 0x35, s5, 0x5349, 0x4560);
    CrcOfExtend(s5, 0x36, s6, 0x4560, 0x2EF4);
    CrcOfExtend(s6, 0x37, s7, 0x2EF4, 0x7718);
    CrcOfExtend(s7, 0x38, s8, 0x7718, 0xA12B);
    CrcOfExtend(s8, 0x39, s9, 0xA12B, 0x29B1);
    assert s9 == [0x31, 0x32, 0x33, 0x34, 0x35, 0x36, 0x37, 0x38, 0x39];
  }
}
