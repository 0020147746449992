/** The check value of CRC-16/CCITT: the checksum of the digits from 1 to 9, computed byte by byte. */
module CrcExample {
  import opened Words
  import opened BitWords
  import opened Sha1Standard
  import opened MachineWords
  import opened Crc

  /** Exclusive or of two words of sixteen bits. */
  predicate XorIs(x: bv32, y: bv32, r: bv32) {
    && Machine(r) == Xor(Machine(x), Machine(y))
    && Weights(Machine(x)) < 0x1_0000 && Weights(Machine(y)) < 0x1_0000 && Weights(Machine(r)) < 0x1_0000
  }

  lemma XorIsMachine(x: bv32, y: bv32, r: bv32)
    requires XorIs(x, y, r)
    ensures Xor16(Weights(Machine(x)), Weights(Machine(y))) == Weights(Machine(r))
  {
    hide Weights, Number, Word, Xor, BitAt, Xor16;
    var a, b, c := Weights(Machine(x)), Weights(Machine(y)), Weights(Machine(r));
    NumberIsWeights(Machine(x));
    NumberIsWeights(Machine(y));
    NumberIsWeights(Machine(r));
    WordIsMachine(Machine(x), Machine(y));
    Xor16IsWord(a, b, c);
  }

  lemma Xor16IsWord(a: uint16, b: uint16, c: uint16)
    requires Word(XOR, a, b) == c
    ensures Xor16(a, b) == c
  {
    hide Word, BitAt, Xor16, BitsOf, Power2;
    forall i | 0 <= i < 16 ensures BitsOf(Xor16(a, b), 16)[i] == BitsOf(c, 16)[i] {
      BitOfWord(XOR, a, b, 15 - i);
      Xor16Bits(a, b, i);
      BitsAt(c, i);
    }
    assert BitsOf(Xor16(a, b), 16) == BitsOf(c, 16);
    PowersOfTwo();
    SameBits(Xor16(a, b), c, 16);
  }

  lemma BitsAt(c: uint16, i: nat)
    requires i < 16
    ensures BitsOf(c, 16)[i] == BitAt(c, 15 - i)
  {
    hide BitAt;
  }

  lemma Xor16Bits(a: uint16, b: uint16, i: nat)
    requires i < 16
    ensures BitsOf(Xor16(a, b), 16)[i] == (BitAt(a, 15 - i) != BitAt(b, 15 - i))
  {
    hide BitAt, Value, BitsOf, Power2;
    BitsOfBitwise(XOR, a, b, 16);
    BitsAt(a, i);
    BitsAt(b, i);
    assert BitsOf(Xor16(a, b), 16)[i] == XOR.Holds(BitsOf(a, 16)[i], BitsOf(b, 16)[i]);
  }

  /** One step of the register. */
  predicate ShiftIs(c: int, d: int) {
    0 <= c < 0x1_0000 && Shift(c) == d
  }

  /** A step in which a bit leaves at the top subtracts the generator. */
  lemma Subtracted(c: uint16, x: bv32, r: bv32)
    requires c >= 0x8000 && Weights(Machine(x)) == 2 * c % 0x1_0000 && XorIs(x, 0x1021, r)
    ensures ShiftIs(c, Weights(Machine(r)))
  {
    hide Weights, XorIs, Xor16;
    XorIsMachine(x, 0x1021, r);
    GeneratorWeights();
  }

  lemma GeneratorWeights()
    ensures Weights(Machine(0x1021)) == 0x1021
  {
  }

  lemma Doubled(c: uint16)
    requires c < 0x8000
    ensures ShiftIs(c, 2 * c)
  {
  }

  lemma EightShifts(c0: int, c1: int, c2: int, c3: int, c4: int, c5: int, c6: int, c7: int, c8: int)
    requires ShiftIs(c0, c1) && ShiftIs(c1, c2) && ShiftIs(c2, c3) && ShiftIs(c3, c4)
    requires ShiftIs(c4, c5) && ShiftIs(c5, c6) && ShiftIs(c6, c7) && ShiftIs(c7, c8)
    ensures 0 <= c0 < 0x1_0000 && Shifts(c0, 8) == c8
  {
    hide Shift, Shifts;
    NoShift(c0);
    OneShift(c0, 0);
    OneShift(c0, 1);
    OneShift(c0, 2);
    OneShift(c0, 3);
    OneShift(c0, 4);
    OneShift(c0, 5);
    OneShift(c0, 6);
    OneShift(c0, 7);
  }

  lemma NoShift(c: uint16)
    ensures Shifts(c, 0) == c
  {
  }

  lemma OneShift(c: uint16, n: nat)
    ensures Shifts(c, n + 1) == Shift(Shifts(c, n))
  {
  }

  const DIGITS: bytes := [0x31, 0x32, 0x33, 0x34, 0x35, 0x36, 0x37, 0x38, 0x39]

  /** The register after the first `k` bytes. */
  predicate After(k: nat, c: uint16)
    requires k <= 9
  {
    CrcFrom(0xFFFF, DIGITS[..k]) == c
  }

  /** Byte `k` turns the register from `c` to `d`, by way of `x`. */
  lemma NextByte(k: nat, c: bv32, b: bv32, x: bv32, d: uint16)
    requires k < 9 && Weights(Machine(b)) == 0x100 * (DIGITS[k] as int) && XorIs(c, b, x)
    requires After(k, Weights(Machine(c)))
    requires Shifts(Weights(Machine(x)), 8) == d
    ensures After(k + 1, d)
  {
    hide Weights, Xor16, Shifts, XorIs;
    XorIsMachine(c, b, x);
    assert DIGITS[..k + 1][..k] == DIGITS[..k];
  }

  lemma Byte0()
    ensures After(1, 0xC782)
  {
    hide After, ShiftIs, Shifts;
    NoBytes();
    Subtracted(0xCEFF, 0x9DFE, 0x8DDF);
    Subtracted(0x8DDF, 0x1BBE, 0x0B9F);
    Doubled(0x0B9F);
    Doubled(0x173E);
    Doubled(0x2E7C);
    Doubled(0x5CF8);
    Subtracted(0xB9F0, 0x73E0, 0x63C1);
    Doubled(0x63C1);
    EightShifts(0xCEFF, 0x8DDF, 0x0B9F, 0x173E, 0x2E7C, 0x5CF8, 0xB9F0, 0x63C1, 0xC782);
    NextByte(0, 0xFFFF, 0x3100, 0xCEFF, 0xC782);
  }

  lemma Byte1()
    ensures After(2, 0x3DBA)
  {
    hide After, ShiftIs, Shifts;
    Byte0();
    Subtracted(0xF582, 0xEB04, 0xFB25);
    Subtracted(0xFB25, 0xF64A, 0xE66B);
    Subtracted(0xE66B, 0xCCD6, 0xDCF7);
    Subtracted(0xDCF7, 0xB9EE, 0xA9CF);
    Subtracted(0xA9CF, 0x539E, 0x43BF);
    Doubled(0x43BF);
    Subtracted(0x877E, 0x0EFC, 0x1EDD);
    Doubled(0x1EDD);
    EightShifts(0xF582, 0xFB25, 0xE66B, 0xDCF7, 0xA9CF, 0x43BF, 0x877E, 0x1EDD, 0x3DBA);
    NextByte(1, 0xC782, 0x3200, 0xF582, 0x3DBA);
  }

  lemma Byte2()
    ensures After(3, 0x5BCE)
  {
    hide After, ShiftIs, Shifts;
    Byte1();
    Doubled(0x0EBA);
    Doubled(0x1D74);
    Doubled(0x3AE8);
    Doubled(0x75D0);
    Subtracted(0xEBA0, 0xD740, 0xC761);
    Subtracted(0xC761, 0x8EC2, 0x9EE3);
    Subtracted(0x9EE3, 0x3DC6, 0x2DE7);
    Doubled(0x2DE7);
    EightShifts(0x0EBA, 0x1D74, 0x3AE8, 0x75D0, 0xEBA0, 0xC761, 0x9EE3, 0x2DE7, 0x5BCE);
    NextByte(2, 0x3DBA, 0x3300, 0x0EBA, 0x5BCE);
  }

  lemma Byte3()
    ensures After(4, 0x5349)
  {
    hide After, ShiftIs, Shifts;
    Byte2();
    Doubled(0x6FCE);
    Subtracted(0xDF9C, 0xBF38, 0xAF19);
    Subtracted(0xAF19, 0x5E32, 0x4E13);
    Doubled(0x4E13);
    Subtracted(0x9C26, 0x384C, 0x286D);
    Doubled(0x286D);
    Doubled(0x50DA);
    Subtracted(0xA1B4, 0x4368, 0x5349);
    EightShifts(0x6FCE, 0xDF9C, 0xAF19, 0x4E13, 0x9C26, 0x286D, 0x50DA, 0xA1B4, 0x5349);
    NextByte(3, 0x5BCE, 0x3400, 0x6FCE, 0x5349);
  }

  lemma Byte4()
    ensures After(5, 0x4560)
  {
    hide After, ShiftIs, Shifts;
    Byte3();
    Doubled(0x6649);
    Subtracted(0xCC92, 0x9924, 0x8905);
    Subtracted(0x8905, 0x120A, 0x022B);
    Doubled(0x022B);
    Doubled(0x0456);
    Doubled(0x08AC);
    Doubled(0x1158);
    Doubled(0x22B0);
    EightShifts(0x6649, 0xCC92, 0x8905, 0x022B, 0x0456, 0x08AC, 0x1158, 0x22B0, 0x4560);
    NextByte(4, 0x5349, 0x3500, 0x6649, 0x4560);
  }

  lemma Byte5()
    ensures After(6, 0x2EF4)
  {
    hide After, ShiftIs, Shifts;
    Byte4();
    Doubled(0x7360);
    Subtracted(0xE6C0, 0xCD80, 0xDDA1);
    Subtracted(0xDDA1, 0xBB42, 0xAB63);
    Subtracted(0xAB63, 0x56C6, 0x46E7);
    Doubled(0x46E7);
    Subtracted(0x8DCE, 0x1B9C, 0x0BBD);
    Doubled(0x0BBD);
    Doubled(0x177A);
    EightShifts(0x7360, 0xE6C0, 0xDDA1, 0xAB63, 0x46E7, 0x8DCE, 0x0BBD, 0x177A, 0x2EF4);
    NextByte(5, 0x4560, 0x3600, 0x7360, 0x2EF4);
  }

  lemma Byte6()
    ensures After(7, 0x7718)
  {
    hide After, ShiftIs, Shifts;
    Byte5();
    Doubled(0x19F4);
    Doubled(0x33E8);
    Doubled(0x67D0);
    Subtracted(0xCFA0, 0x9F40, 0x8F61);
    Subtracted(0x8F61, 0x1EC2, 0x0EE3);
    Doubled(0x0EE3);
    Doubled(0x1DC6);
    Doubled(0x3B8C);
    EightShifts(0x19F4, 0x33E8, 0x67D0, 0xCFA0, 0x8F61, 0x0EE3, 0x1DC6, 0x3B8C, 0x7718);
    NextByte(6, 0x2EF4, 0x3700, 0x19F4, 0x7718);
  }

  lemma Byte7()
    ensures After(8, 0xA12B)
  {
    hide After, ShiftIs, Shifts;
    Byte6();
    Doubled(0x4F18);
    Subtracted(0x9E30, 0x3C60, 0x2C41);
    Doubled(0x2C41);
    Doubled(0x5882);
    Subtracted(0xB104, 0x6208, 0x7229);
    Doubled(0x7229);
    Subtracted(0xE452, 0xC8A4, 0xD885);
    Subtracted(0xD885, 0xB10A, 0xA12B);
    EightShifts(0x4F18, 0x9E30, 0x2C41, 0x5882, 0xB104, 0x7229, 0xE452, 0xD885, 0xA12B);
    NextByte(7, 0x7718, 0x3800, 0x4F18, 0xA12B);
  }

  lemma Byte8()
    ensures After(9, 0x29B1)
  {
    hide After, ShiftIs, Shifts;
    Byte7();
    Subtracted(0x982B, 0x3056, 0x2077);
    Doubled(0x2077);
    Doubled(0x40EE);
    Subtracted(0x81DC, 0x03B8, 0x1399);
    Doubled(0x1399);
    Doubled(0x2732);
    Doubled(0x4E64);
    Subtracted(0x9CC8, 0x3990, 0x29B1);
    EightShifts(0x982B, 0x2077, 0x40EE, 0x81DC, 0x1399, 0x2732, 0x4E64, 0x9CC8, 0x29B1);
    NextByte(8, 0xA12B, 0x3900, 0x982B, 0x29B1);
  }

  lemma NoBytes()
    ensures After(0, 0xFFFF)
  {
  }

  /** The checksum of "123456789". */
  lemma CheckValue()
    ensures Checksum(DIGITS) == 0x29B1
  {
    hide After;
    Byte8();
    AfterAll(0x29B1);
  }

  lemma AfterAll(c: uint16)
    requires After(9, c)
    ensures Checksum(DIGITS) == c
  {
    hide CrcFrom;
    assert DIGITS[..9] == DIGITS;
  }
}
