/** CRC-32C in numbers: the entries of the first table for single bits, which fix all tables, and values that follow. */
module CrcVectors {
  import opened Bits
  import opened Crc32c

  // ------------------------------------------- exclusive-or of numbers in digits

  lemma XorEven(a: nat, b: nat)
    ensures Xor(2 * a, 2 * b) == 2 * Xor(a, b)
  {
    XorDigits(2 * a, 2 * b);
  }

  /** Exclusive-or of one hexadecimal digit. */
  function Nibble(p: nat, q: nat): nat
  {
    (if p % 2 == q % 2 then 0 else 1) + (if p / 2 % 2 == q / 2 % 2 then 0 else 2)
    + (if p / 4 % 2 == q / 4 % 2 then 0 else 4) + (if p / 8 % 2 == q / 8 % 2 then 0 else 8)
  }

  lemma XorBit(a: nat, b: nat)
    ensures Xor(a, b) == (if a % 2 == b % 2 then 0 else 1) + 2 * Xor(a / 2, b / 2)
  {
    XorDigits(a, b);
  }

  lemma Digit(p: nat, q: nat)
    requires p < 16 && q < 16
    ensures Xor(p, q) == Nibble(p, q)
  {
    hide Xor;
    XorBit(p, q);
    XorBit(p / 2, q / 2);
    XorBit(p / 4, q / 4);
    XorBit(p / 8, q / 8);
    assert p / 2 / 2 == p / 4 && p / 4 / 2 == p / 8 && p / 8 / 2 == 0;
    assert q / 2 / 2 == q / 4 && q / 4 / 2 == q / 8 && q / 8 / 2 == 0;
    XorZero(0);
  }

  lemma NextDigit(a: nat, b: nat, p: nat, q: nat)
    requires p < 16 && q < 16
    ensures Xor(16 * a + p, 16 * b + q) == 16 * Xor(a, b) + Nibble(p, q)
  {
    hide Xor, Nibble;
    Digit(p, q);
    assert Pow2(4) == 16;
    XorDisjoint(p, a, 4);
    XorDisjoint(q, b, 4);
    XorExchange(p, 16 * a, q, 16 * b);
    XorEven(a, b);
    XorEven(2 * a, 2 * b);
    XorEven(4 * a, 4 * b);
    XorEven(8 * a, 8 * b);
    XorBound(p, q, 4);
    XorDisjoint(Xor(p, q), Xor(a, b), 4);
  }

  lemma Entry8()
    ensures Xor(0x082F63B7, 0x82F63B78) == 0x8AD958CF
  {
    hide Xor;
    Digit(0x0, 0x8);
    NextDigit(0x0, 0x8, 0x8, 0x2);
    NextDigit(0x08, 0x82, 0x2, 0xF);
    NextDigit(0x082, 0x82F, 0xF, 0x6);
    NextDigit(0x082F, 0x82F6, 0x6, 0x3);
    NextDigit(0x082F6, 0x82F63, 0x3, 0xB);
    NextDigit(0x082F63, 0x82F63B, 0xB, 0x7);
    NextDigit(0x082F63B, 0x82F63B7, 0x7, 0x8);
  }

  lemma Entry4()
    ensures Xor(0x456CAC67, 0x82F63B78) == 0xC79A971F
  {
    hide Xor;
    Digit(0x4, 0x8);
    NextDigit(0x4, 0x8, 0x5, 0x2);
    NextDigit(0x45, 0x82, 0x6, 0xF);
    NextDigit(0x456, 0x82F, 0xC, 0x6);
    NextDigit(0x456C, 0x82F6, 0xA, 0x3);
    NextDigit(0x456CA, 0x82F63, 0xC, 0xB);
    NextDigit(0x456CAC, 0x82F63B, 0x6, 0x7);
    NextDigit(0x456CAC6, 0x82F63B7, 0x7, 0x8);
  }

  lemma Entry2()
    ensures Xor(0x63CD4B8F, 0x82F63B78) == 0xE13B70F7
  {
    hide Xor;
    Digit(0x6, 0x8);
    NextDigit(0x6, 0x8, 0x3, 0x2);
    NextDigit(0x63, 0x82, 0xC, 0xF);
    NextDigit(0x63C, 0x82F, 0xD, 0x6);
    NextDigit(0x63CD, 0x82F6, 0x4, 0x3);
    NextDigit(0x63CD4, 0x82F63, 0xB, 0xB);
    NextDigit(0x63CD4B, 0x82F63B, 0x8, 0x7);
    NextDigit(0x63CD4B8, 0x82F63B7, 0xF, 0x8);
  }

  lemma Entry1()
    ensures Xor(0x709DB87B, 0x82F63B78) == 0xF26B8303
  {
    hide Xor;
    Digit(0x7, 0x8);
    NextDigit(0x7, 0x8, 0x0, 0x2);
    NextDigit(0x70, 0x82, 0x9, 0xF);
    NextDigit(0x709, 0x82F, 0xD, 0x6);
    NextDigit(0x709D, 0x82F6, 0xB, 0x3);
    NextDigit(0x709DB, 0x82F63, 0x8, 0xB);
    NextDigit(0x709DB8, 0x82F63B, 0x7, 0x7);
    NextDigit(0x709DB87, 0x82F63B7, 0xB, 0x8);
  }

  // ------------------------------------------------------------------ entries

  /** The entry of a bit is that of the next higher bit, shifted once more. */
  lemma LowerBit(b: nat)
    ensures ShiftBits(b, 8) == ShiftBit(ShiftBits(2 * b, 8))
  {
    hide Xor, ShiftBit;
    ShiftBitOfEven(b);
    assert ShiftBits(2 * b, 9) == ShiftBits(b, 8);
    ShiftBitsSum(2 * b, 8, 1);
    assert ShiftBits(ShiftBits(2 * b, 8), 1) == ShiftBit(ShiftBits(2 * b, 8));
  }

  lemma HighBit()
    ensures ShiftBits(0x80, 8) == 0x82F6_3B78
  {
    hide Xor;
    assert Pow2(7) * 1 == 0x80;
    ShiftBitsSum(0x80, 7, 1);
    ShiftBitsOfMultiple(1, 7);
    XorZero(0x82F6_3B78);
    assert ShiftBits(1, 1) == ShiftBit(1);
  }

  /** The entries of the first table for the eight single bits. */
  lemma SingleBits()
    ensures Table(0, 0x80) == 0x82F6_3B78 && Table(0, 0x40) == 0x417B_1DBC
    ensures Table(0, 0x20) == 0x20BD_8EDE && Table(0, 0x10) == 0x105E_C76F
    ensures Table(0, 0x08) == 0x8AD9_58CF && Table(0, 0x04) == 0xC79A_971F
    ensures Table(0, 0x02) == 0xE13B_70F7 && Table(0, 0x01) == 0xF26B_8303
  {
    hide Xor, ShiftBits;
    HighBit();
    LowerBit(0x40);
    XorZero(0x417B_1DBC);
    LowerBit(0x20);
    XorZero(0x20BD_8EDE);
    LowerBit(0x10);
    XorZero(0x105E_C76F);
    LowerBit(0x08);
    Entry8();
    LowerBit(0x04);
    Entry4();
    LowerBit(0x02);
    Entry2();
    LowerBit(0x01);
    Entry1();
  }

  /** They fix all entries of all tables, which are linear. */
  lemma TableLinear(k: nat, a: byte, b: byte)
    ensures Table(k, XorByte(a, b)) == Xor32(Table(k, a), Table(k, b))
  {
    hide Xor, ShiftBits, Table;
    TableIsShift(k, a);
    TableIsShift(k, b);
    TableIsShift(k, XorByte(a, b));
    ShiftBitsLinear(a, b, 8 * k + 8);
  }

  /** Four bytes of ones clear the register, and the next byte leaves its entry, inverted. */
  lemma AfterOnes(b: byte)
    ensures Crc(0, [0xFF, 0xFF, 0xFF, 0xFF, b]) == 0xFFFF_FFFF - Table(0, b)
  {
    hide Xor, ShiftBits, FeedBits, Register, LittleEndian, FromLe32;
    var ones: seq<byte> := [0xFF, 0xFF, 0xFF, 0xFF];
    assert [0xFF, 0xFF, 0xFF, 0xFF, b] == ones + [b];
    RegisterComposes(0xFFFF_FFFF, ones, [b]);
    RegisterOfWord(0xFFFF_FFFF, ones);
    WordOfOnes(ones);
    XorSelf(0xFFFF_FFFF);
    ShiftBitsOfZero(32);
    OneByte(0, b);
    FeedByteIsShift(0, b);
    XorZero(b);
    assert Table(0, b) == ShiftBits(b, 8);
  }

  lemma WordOfOnes(s: seq<byte>)
    requires s == [0xFF, 0xFF, 0xFF, 0xFF]
    ensures LittleEndian(s) == 0xFFFF_FFFF
  {
    hide LittleEndian;
    WordValue(s);
  }

  lemma OneByte(c: nat, b: byte)
    ensures Register(c, [b]) == FeedBits(c, b, 8)
  {
    assert [b][..0] == [];
  }

  /** Values of CRC-32C. */
  lemma KnownCrcs()
    ensures Crc(0, [0xFF, 0xFF, 0xFF, 0xFF]) == 0xFFFF_FFFF
    ensures Crc(0, [0xFF, 0xFF, 0xFF, 0xFF, 0x00]) == 0xFFFF_FFFF
    ensures Crc(0, [0xFF, 0xFF, 0xFF, 0xFF, 0x80]) == 0x7D09_C487
    ensures Crc(0, [0xFF, 0xFF, 0xFF, 0xFF, 0x40]) == 0xBE84_E243
    ensures Crc(0, [0xFF, 0xFF, 0xFF, 0xFF, 0x20]) == 0xDF42_7121
    ensures Crc(0, [0xFF, 0xFF, 0xFF, 0xFF, 0x10]) == 0xEFA1_3890
    ensures Crc(0, [0xFF, 0xFF, 0xFF, 0xFF, 0x08]) == 0x7526_A730
    ensures Crc(0, [0xFF, 0xFF, 0xFF, 0xFF, 0x04]) == 0x3865_68E0
    ensures Crc(0, [0xFF, 0xFF, 0xFF, 0xFF, 0x02]) == 0x1EC4_8F08
    ensures Crc(0, [0xFF, 0xFF, 0xFF, 0xFF, 0x01]) == 0x0D94_7CFC
  {
    hide Crc, Table;
    OnesOnly();
    SingleBits();
    ZeroEntry();
    AfterOnes(0x00);
    AfterOnes(0x80);
    AfterOnes(0x40);
    AfterOnes(0x20);
    AfterOnes(0x10);
    AfterOnes(0x08);
    AfterOnes(0x04);
    AfterOnes(0x02);
    AfterOnes(0x01);
  }

  lemma ZeroEntry()
    ensures Table(0, 0) == 0
  {
    ShiftBitsOfZero(8);
  }

  lemma OnesOnly()
    ensures Crc(0, [0xFF, 0xFF, 0xFF, 0xFF]) == 0xFFFF_FFFF
  {
    hide Xor, ShiftBits, Register, LittleEndian;
    RegisterOfWord(0xFFFF_FFFF, [0xFF, 0xFF, 0xFF, 0xFF]);
    WordOfOnes([0xFF, 0xFF, 0xFF, 0xFF]);
    XorSelf(0xFFFF_FFFF);
    ShiftBitsOfZero(32);
  }
}
