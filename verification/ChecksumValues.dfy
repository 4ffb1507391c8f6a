/** The two checksums (src/protocol.cpp) against the published check values of their algorithms: what
    CRC-16/CCITT-FALSE and CRC-32/ISO-HDLC give for the nine digits "123456789". */
module ChecksumValues {
  import opened Checksums

  const NINE_DIGITS: Bytes := [0x31, 0x32, 0x33, 0x34, 0x35, 0x36, 0x37, 0x38, 0x39]

  lemma Beginnings()
    ensures NINE_DIGITS[..0] == [] && NINE_DIGITS[..9] == NINE_DIGITS
    ensures forall i :: 0 < i <= 9 ==> NINE_DIGITS[..i][..i - 1] == NINE_DIGITS[..i - 1]
  {
  }

  /** Eight bits of one byte, one by one. */
  lemma Crc16OneByte(crc: bv16, b: bv8, next: bv16)
    requires var start := crc ^ ((b as bv16) << 8);
      Crc16Bit(Crc16Bit(Crc16Bit(Crc16Bit(Crc16Bit(Crc16Bit(Crc16Bit(Crc16Bit(start)))))))) == next
    ensures Crc16Byte(crc, b) == next
  {
    hide Crc16Bit, Crc16Bits;
    var start := crc ^ ((b as bv16) << 8);
    Crc16BitsStep(start, 0);
    Crc16BitsStep(start, 1);
    Crc16BitsStep(start, 2);
    Crc16BitsStep(start, 3);
    Crc16BitsStep(start, 4);
    Crc16BitsStep(start, 5);
    Crc16BitsStep(start, 6);
    Crc16BitsStep(start, 7);
  }

  lemma Crc16Next(i: nat, crc: bv16, next: bv16)
    requires i < 9 && Crc16From(0xFFFF, NINE_DIGITS[..i]) == crc && Crc16Byte(crc, NINE_DIGITS[i]) == next
    ensures Crc16From(0xFFFF, NINE_DIGITS[..i + 1]) == next
  {
    hide Crc16Byte;
    Beginnings();
    assert NINE_DIGITS[..i + 1][..i] == NINE_DIGITS[..i];
  }

  lemma Crc16Digit1()
    ensures Crc16Byte(0xFFFF, 0x31) == 0xC782
  {
    Crc16OneByte(0xFFFF, 0x31, 0xC782);
  }

  lemma Crc16Digit2()
    ensures Crc16Byte(0xC782, 0x32) == 0x3DBA
  {
    Crc16OneByte(0xC782, 0x32, 0x3DBA);
  }

  lemma Crc16Digit3()
    ensures Crc16Byte(0x3DBA, 0x33) == 0x5BCE
  {
    Crc16OneByte(0x3DBA, 0x33, 0x5BCE);
  }

  lemma Crc16Digit4()
    ensures Crc16Byte(0x5BCE, 0x34) == 0x5349
  {
    Crc16OneByte(0x5BCE, 0x34, 0x5349);
  }

  lemma Crc16Digit5()
    ensures Crc16Byte(0x5349, 0x35) == 0x4560
  {
    Crc16OneByte(0x5349, 0x35, 0x4560);
  }

  lemma Crc16Digit6()
    ensures Crc16Byte(0x4560, 0x36) == 0x2EF4
  {
    Crc16OneByte(0x4560, 0x36, 0x2EF4);
  }

  lemma Crc16Digit7()
    ensures Crc16Byte(0x2EF4, 0x37) == 0x7718
  {
    Crc16OneByte(0x2EF4, 0x37, 0x7718);
  }

  lemma Crc16Digit8()
    ensures Crc16Byte(0x7718, 0x38) == 0xA12B
  {
    Crc16OneByte(0x7718, 0x38, 0xA12B);
  }

  lemma Crc16Digit9()
    ensures Crc16Byte(0xA12B, 0x39) == 0x29B1
  {
    Crc16OneByte(0xA12B, 0x39, 0x29B1);
  }

  lemma Crc16CheckValue()
    ensures Crc16From(0xFFFF, NINE_DIGITS) == 0x29B1
  {
    hide Crc16Byte;
    Beginnings();
    Crc16Digit1();
    Crc16Next(0, 0xFFFF, 0xC782);
    Crc16Digit2();
    Crc16Next(1, 0xC782, 0x3DBA);
    Crc16Digit3();
    Crc16Next(2, 0x3DBA, 0x5BCE);
    Crc16Digit4();
    Crc16Next(3, 0x5BCE, 0x5349);
    Crc16Digit5();
    Crc16Next(4, 0x5349, 0x4560);
    Crc16Digit6();
    Crc16Next(5, 0x4560, 0x2EF4);
    Crc16Digit7();
    Crc16Next(6, 0x2EF4, 0x7718);
    Crc16Digit8();
    Crc16Next(7, 0x7718, 0xA12B);
    Crc16Digit9();
    Crc16Next(8, 0xA12B, 0x29B1);
  }

  /** Eight bits of one byte, one by one. */
  lemma Crc32OneByte(crc: bv32, b: bv8, next: bv32)
    requires var start := crc ^ (b as bv32);
      Crc32Bit(Crc32Bit(Crc32Bit(Crc32Bit(Crc32Bit(Crc32Bit(Crc32Bit(Crc32Bit(start)))))))) == next
    ensures Crc32Byte(crc, b) == next
  {
    hide Crc32Bit, Crc32Bits;
    var start := crc ^ (b as bv32);
    Crc32BitsStep(start, 0);
    Crc32BitsStep(start, 1);
    Crc32BitsStep(start, 2);
    Crc32BitsStep(start, 3);
    Crc32BitsStep(start, 4);
    Crc32BitsStep(start, 5);
    Crc32BitsStep(start, 6);
    Crc32BitsStep(start, 7);
  }

  lemma Crc32Next(i: nat, crc: bv32, next: bv32)
    requires i < 9 && Crc32From(0xFFFFFFFF, NINE_DIGITS[..i]) == crc && Crc32Byte(crc, NINE_DIGITS[i]) == next
    ensures Crc32From(0xFFFFFFFF, NINE_DIGITS[..i + 1]) == next
  {
    hide Crc32Byte;
    Beginnings();
    assert NINE_DIGITS[..i + 1][..i] == NINE_DIGITS[..i];
  }

  lemma Crc32Digit1()
    ensures Crc32Byte(0xFFFFFFFF, 0x31) == 0x7C231048
  {
    Crc32OneByte(0xFFFFFFFF, 0x31, 0x7C231048);
  }

  lemma Crc32Digit2()
    ensures Crc32Byte(0x7C231048, 0x32) == 0xB0ACBB32
  {
    Crc32OneByte(0x7C231048, 0x32, 0xB0ACBB32);
  }

  lemma Crc32Digit3()
    ensures Crc32Byte(0xB0ACBB32, 0x33) == 0x77B79C2D
  {
    Crc32OneByte(0xB0ACBB32, 0x33, 0x77B79C2D);
  }

  lemma Crc32Digit4()
    ensures Crc32Byte(0x77B79C2D, 0x34) == 0x641C1F5C
  {
    Crc32OneByte(0x77B79C2D, 0x34, 0x641C1F5C);
  }

  lemma Crc32Digit5()
    ensures Crc32Byte(0x641C1F5C, 0x35) == 0x340AC5E3
  {
    Crc32OneByte(0x641C1F5C, 0x35, 0x340AC5E3);
  }

  lemma Crc32Digit6()
    ensures Crc32Byte(0x340AC5E3, 0x36) == 0xF68D2C9E
  {
    Crc32OneByte(0x340AC5E3, 0x36, 0xF68D2C9E);
  }

  lemma Crc32Digit7()
    ensures Crc32Byte(0xF68D2C9E, 0x37) == 0xAFFC9660
  {
    Crc32OneByte(0xF68D2C9E, 0x37, 0xAFFC9660);
  }

  lemma Crc32Digit8()
    ensures Crc32Byte(0xAFFC9660, 0x38) == 0x651F2550
  {
    Crc32OneByte(0xAFFC9660, 0x38, 0x651F2550);
  }

  lemma Crc32Digit9()
    ensures Crc32Byte(0x651F2550, 0x39) == 0x340BC6D9
  {
    Crc32OneByte(0x651F2550, 0x39, 0x340BC6D9);
  }

  lemma Crc32CheckValue()
    ensures Crc32(NINE_DIGITS) == 0xCBF43926
  {
    hide Crc32Byte;
    Beginnings();
    Crc32Digit1();
    Crc32Next(0, 0xFFFFFFFF, 0x7C231048);
    Crc32Digit2();
    Crc32Next(1, 0x7C231048, 0xB0ACBB32);
    Crc32Digit3();
    Crc32Next(2, 0xB0ACBB32, 0x77B79C2D);
    Crc32Digit4();
    Crc32Next(3, 0x77B79C2D, 0x641C1F5C);
    Crc32Digit5();
    Crc32Next(4, 0x641C1F5C, 0x340AC5E3);
    Crc32Digit6();
    Crc32Next(5, 0x340AC5E3, 0xF68D2C9E);
    Crc32Digit7();
    Crc32Next(6, 0xF68D2C9E, 0xAFFC9660);
    Crc32Digit8();
    Crc32Next(7, 0xAFFC9660, 0x651F2550);
    Crc32Digit9();
    Crc32Next(8, 0x651F2550, 0x340BC6D9);
    assert !(0x340BC6D9 as bv32) == 0xCBF43926;
  }

  // ----- Two texts of one length with one CRC-32 -----

  const FIVE_ZEROS: Bytes := [0x00, 0x00, 0x00, 0x00, 0x00]

  /** They differ by the generator polynomial itself. */
  const FIVE_BYTES: Bytes := [0x41, 0x06, 0x71, 0xDB, 0x01]

  lemma OneMore(data: Bytes, i: nat, crc: bv32, b: bv8, next: bv32)
    requires i < |data| && data[i] == b && Crc32From(0xFFFFFFFF, data[..i]) == crc && Crc32Byte(crc, b) == next
    ensures Crc32From(0xFFFFFFFF, data[..i + 1]) == next
  {
    hide Crc32Byte;
    assert data[..i + 1][..i] == data[..i];
  }

  lemma ZerosSteps1()
    ensures Crc32Byte(0xFFFFFFFF, 0x00) == 0x2DFD1072
  {
    Crc32OneByte(0xFFFFFFFF, 0x00, 0x2DFD1072);
  }

  lemma ZerosSteps2()
    ensures Crc32Byte(0x2DFD1072, 0x00) == 0xBE26ED00
  {
    Crc32OneByte(0x2DFD1072, 0x00, 0xBE26ED00);
  }

  lemma ZerosSteps3()
    ensures Crc32Byte(0xBE26ED00, 0x00) == 0x00BE26ED
  {
    Crc32OneByte(0xBE26ED00, 0x00, 0x00BE26ED);
  }

  lemma ZerosSteps4()
    ensures Crc32Byte(0x00BE26ED, 0x00) == 0xDEBB20E3
  {
    Crc32OneByte(0x00BE26ED, 0x00, 0xDEBB20E3);
  }

  lemma ZerosSteps5()
    ensures Crc32Byte(0xDEBB20E3, 0x00) == 0x39DD08E2
  {
    Crc32OneByte(0xDEBB20E3, 0x00, 0x39DD08E2);
  }

  lemma ZerosSteps()
    ensures Crc32From(0xFFFFFFFF, FIVE_ZEROS) == 0x39DD08E2
  {
    hide Crc32Byte;
    assert FIVE_ZEROS[..0] == [] && FIVE_ZEROS[..5] == FIVE_ZEROS;
    ZerosSteps1();
    OneMore(FIVE_ZEROS, 0, 0xFFFFFFFF, 0x00, 0x2DFD1072);
    ZerosSteps2();
    OneMore(FIVE_ZEROS, 1, 0x2DFD1072, 0x00, 0xBE26ED00);
    ZerosSteps3();
    OneMore(FIVE_ZEROS, 2, 0xBE26ED00, 0x00, 0x00BE26ED);
    ZerosSteps4();
    OneMore(FIVE_ZEROS, 3, 0x00BE26ED, 0x00, 0xDEBB20E3);
    ZerosSteps5();
    OneMore(FIVE_ZEROS, 4, 0xDEBB20E3, 0x00, 0x39DD08E2);
  }

  lemma BytesSteps1()
    ensures Crc32Byte(0xFFFFFFFF, 0x41) == 0x2C266174
  {
    Crc32OneByte(0xFFFFFFFF, 0x41, 0x2C266174);
  }

  lemma BytesSteps2()
    ensures Crc32Byte(0x2C266174, 0x06) == 0xBE273671
  {
    Crc32OneByte(0x2C266174, 0x06, 0xBE273671);
  }

  lemma BytesSteps3()
    ensures Crc32Byte(0xBE273671, 0x71) == 0x00BE2736
  {
    Crc32OneByte(0xBE273671, 0x71, 0x00BE2736);
  }

  lemma BytesSteps4()
    ensures Crc32Byte(0x00BE2736, 0xDB) == 0xDEBB20E2
  {
    Crc32OneByte(0x00BE2736, 0xDB, 0xDEBB20E2);
  }

  lemma BytesSteps5()
    ensures Crc32Byte(0xDEBB20E2, 0x01) == 0x39DD08E2
  {
    Crc32OneByte(0xDEBB20E2, 0x01, 0x39DD08E2);
  }

  lemma BytesSteps()
    ensures Crc32From(0xFFFFFFFF, FIVE_BYTES) == 0x39DD08E2
  {
    hide Crc32Byte;
    assert FIVE_BYTES[..0] == [] && FIVE_BYTES[..5] == FIVE_BYTES;
    BytesSteps1();
    OneMore(FIVE_BYTES, 0, 0xFFFFFFFF, 0x41, 0x2C266174);
    BytesSteps2();
    OneMore(FIVE_BYTES, 1, 0x2C266174, 0x06, 0xBE273671);
    BytesSteps3();
    OneMore(FIVE_BYTES, 2, 0xBE273671, 0x71, 0x00BE2736);
    BytesSteps4();
    OneMore(FIVE_BYTES, 3, 0x00BE2736, 0xDB, 0xDEBB20E2);
    BytesSteps5();
    OneMore(FIVE_BYTES, 4, 0xDEBB20E2, 0x01, 0x39DD08E2);
  }

  /** So a CRC-32 does not tell all texts of one length apart. */
  lemma SameCrc32()
    ensures FIVE_ZEROS != FIVE_BYTES && |FIVE_ZEROS| == |FIVE_BYTES| == 5 && Crc32(FIVE_ZEROS) == Crc32(FIVE_BYTES)
  {
    hide Crc32Byte;
    ZerosSteps();
    BytesSteps();
    assert FIVE_ZEROS[0] != FIVE_BYTES[0];
  }
}
