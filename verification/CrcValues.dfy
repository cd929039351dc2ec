/** Two facts that fix the polynomial, the first register and the last step of the CRC of tools/sender/crc32.c: its
    value for the digits 1 to 9, and what the register holds behind a message with its own CRC. */
module CrcValues {
  import opened LinearSteps
  import opened Crc32

  // ------------------------------------------------------------ a message with its CRC behind it

  /** The four bytes of a word, the lowest first. */
  function LittleEndian(w: bv32): seq<Byte> {
    [Low(w), Low(w >> 8), Low(w >> 16), Low(w >> 24)]
  }

  function Low(w: bv32): Byte {
    (w & 0xFF) as Byte
  }

  lemma LowIs(w: bv32)
    ensures Low(w) as bv32 == w & 0xFF
  {
  }

  /** What has been taken of w and what is still to come cancel as if all of w had come at once. */
  lemma ByteIn(x: bv32, w: bv32)
    ensures Xor(Absorb(x, Low(w)), w >> 8) == Bits(8, Xor(x, w))
  {
    LowIs(w);
    SplitLow(w);
    XorAssoc(x, w & 0xFF, w & 0xFFFFFF00);
    BitsLinear(8, Xor(x, w & 0xFF), w & 0xFFFFFF00);
    EightZeros(w & 0xFFFFFF00);
  }

  function Eight(c: bv32): bv32 {
    Bits(8, c)
  }

  /** The word w in four bytes: w1, w2 and w3 are what is left of it after one, two and three of them. */
  lemma FourIn(x: bv32, w: bv32, w1: bv32, w2: bv32, w3: bv32)
    requires w1 == w >> 8 && w2 == w1 >> 8 && w3 == w2 >> 8
    ensures Update(x, [Low(w), Low(w1), Low(w2), Low(w3)]) == Eight(Eight(Eight(Eight(Xor(x, w)))))
  {
    var x1 := Absorb(x, Low(w));
    var x2 := Absorb(x1, Low(w1));
    var x3 := Absorb(x2, Low(w2));
    var x4 := Absorb(x3, Low(w3));
    ByteIn(x, w);
    ByteIn(x1, w1);
    ByteIn(x2, w2);
    ByteIn(x3, w3);
    NothingLeft(w, w1, w2, w3);
    XorZero(x4);
    FoldFour(Absorb, x, Low(w), Low(w1), Low(w2), Low(w3));
  }

  lemma NothingLeft(w: bv32, w1: bv32, w2: bv32, w3: bv32)
    ensures w1 == w >> 8 && w2 == w1 >> 8 && w3 == w2 >> 8 ==> w3 >> 8 == 0 && w2 == w >> 16 && w3 == w >> 24
  {
  }

  lemma FoldFour<W, B>(absorb: (W, B) -> W, c: W, b0: B, b1: B, b2: B, b3: B)
    ensures Fold(absorb, c, [b0, b1, b2, b3]) == absorb(absorb(absorb(absorb(c, b0), b1), b2), b3)
  {
    FoldOne(absorb, c, [], b0);
    FoldOne(absorb, c, [b0], b1);
    FoldOne(absorb, c, [b0, b1], b2);
    FoldOne(absorb, c, [b0, b1, b2], b3);
    assert [] + [b0] == [b0] && [b0] + [b1] == [b0, b1];
    assert [b0, b1] + [b2] == [b0, b1, b2] && [b0, b1, b2] + [b3] == [b0, b1, b2, b3];
  }

  lemma FoldOne<W, B>(absorb: (W, B) -> W, c: W, msg: seq<B>, b: B)
    ensures Fold(absorb, c, msg + [b]) == absorb(Fold(absorb, c, msg), b)
  {
    assert (msg + [b])[..|msg|] == msg;
  }

  lemma Fours(x: bv32, w: bv32)
    ensures Update(x, LittleEndian(w)) == Eight(Eight(Eight(Eight(Xor(x, w)))))
  {
    var w1 := w >> 8;
    var w2 := w1 >> 8;
    var w3 := w2 >> 8;
    NothingLeft(w, w1, w2, w3);
    FourIn(x, w, w1, w2, w3);
  }

  lemma Complement(c: bv32)
    ensures Xor(c, c ^ ONES) == 0xFFFFFFFF
  {
  }

  lemma FirstOnes()
    ensures Eight(0xFFFFFFFF) == 0x2DFD1072
  {
    Chain8(BitStep, 0xFFFFFFFF, 0x92477CDF, 0xA49B3D4F, 0xBFF51D87, 0xB2420DE3,
           0xB49985D1, 0xB7F441C8, 0x5BFA20E4, 0x2DFD1072);
  }

  lemma SecondOnes()
    ensures Eight(0x2DFD1072) == 0xBE26ED00
  {
    Chain8(BitStep, 0x2DFD1072, 0x16FE8839, 0xE6C7C73C, 0x7363E39E, 0x39B1F1CF,
           0xF1607BC7, 0x9508BEC3, 0xA73CDC41, 0xBE26ED00);
  }

  lemma ThirdOnes()
    ensures Eight(0xBE26ED00) == 0x00BE26ED
  {
    Chain8(BitStep, 0xBE26ED00, 0x5F137680, 0x2F89BB40, 0x17C4DDA0, 0x0BE26ED0,
           0x05F13768, 0x02F89BB4, 0x017C4DDA, 0x00BE26ED);
  }

  lemma FourthOnes()
    ensures Eight(0x00BE26ED) == 0xDEBB20E3
  {
    Chain8(BitStep, 0x00BE26ED, 0xEDE79056, 0x76F3C82B, 0xD6C16735, 0x86D830BA,
           0x436C185D, 0xCC0E8F0E, 0x66074787, 0xDEBB20E3);
  }

  /** Behind a message and its CRC, the low byte first, the register is the same for every message. */
  lemma Residue(msg: seq<Byte>)
    ensures Update(0xFFFFFFFF, msg + LittleEndian(Crc(msg))) == 0xDEBB20E3
  {
    var c := Update(ONES, msg);
    UpdateConcat(ONES, msg, LittleEndian(Crc(msg)));
    Fours(c, Crc(msg));
    Complement(c);
    FirstOnes();
    SecondOnes();
    ThirdOnes();
    FourthOnes();
  }

  // ------------------------------------------------------------ the CRC of the digits 1 to 9

  lemma Digit1()
    ensures Absorb(0xFFFFFFFF, 49) == 0x7C231048
  {
    assert Xor(0xFFFFFFFF, 48 + 1) == 0xFFFFFFCE;
    Chain8(BitStep, 0xFFFFFFCE, 0x7FFFFFE7, 0xD2477CD3, 0x849B3D49, 0xAFF51D84,
           0x57FA8EC2, 0x2BFD4761, 0xF8462090, 0x7C231048);
  }

  lemma Digit2()
    ensures Absorb(0x7C231048, 50) == 0xB0ACBB32
  {
    assert Xor(0x7C231048, 48 + 2) == 0x7C23107A;
    Chain8(BitStep, 0x7C23107A, 0x3E11883D, 0xF2B0473E, 0x7958239F, 0xD11492EF,
           0x8532CA57, 0xAF21E60B, 0xBA287025, 0xB0ACBB32);
  }

  lemma Digit3()
    ensures Absorb(0xB0ACBB32, 51) == 0x77B79C2D
  {
    assert Xor(0xB0ACBB32, 48 + 3) == 0xB0ACBB01;
    Chain8(BitStep, 0xB0ACBB01, 0xB5EEDEA0, 0x5AF76F50, 0x2D7BB7A8, 0x16BDDBD4,
           0x0B5EEDEA, 0x05AF76F5, 0xEF6F385A, 0x77B79C2D);
  }

  lemma Digit4()
    ensures Absorb(0x77B79C2D, 52) == 0x641C1F5C
  {
    assert Xor(0x77B79C2D, 48 + 4) == 0x77B79C19;
    Chain8(BitStep, 0x77B79C19, 0xD6634D2C, 0x6B31A696, 0x3598D34B, 0xF774EA85,
           0x9602F662, 0x4B017B31, 0xC8383EB8, 0x641C1F5C);
  }

  lemma Digit5()
    ensures Absorb(0x641C1F5C, 53) == 0x340AC5E3
  {
    assert Xor(0x641C1F5C, 48 + 5) == 0x641C1F69;
    Chain8(BitStep, 0x641C1F69, 0xDFB68C94, 0x6FDB464A, 0x37EDA325, 0xF64E52B2,
           0x7B272959, 0xD02B178C, 0x68158BC6, 0x340AC5E3);
  }

  lemma Digit6()
    ensures Absorb(0x340AC5E3, 54) == 0xF68D2C9E
  {
    assert Xor(0x340AC5E3, 48 + 6) == 0x340AC5D5;
    Chain8(BitStep, 0x340AC5D5, 0xF7BDE1CA, 0x7BDEF0E5, 0xD057FB52, 0x682BFDA9,
           0xD9AD7DF4, 0x6CD6BEFA, 0x366B5F7D, 0xF68D2C9E);
  }

  lemma Digit7()
    ensures Absorb(0xF68D2C9E, 55) == 0xAFFC9660
  {
    assert Xor(0xF68D2C9E, 48 + 7) == 0xF68D2CA9;
    Chain8(BitStep, 0xF68D2CA9, 0x96FE1574, 0x4B7F0ABA, 0x25BF855D, 0xFF67418E,
           0x7FB3A0C7, 0xD2615343, 0x84882A81, 0xAFFC9660);
  }

  lemma Digit8()
    ensures Absorb(0xAFFC9660, 56) == 0x651F2550
  {
    assert Xor(0xAFFC9660, 48 + 8) == 0xAFFC9658;
    Chain8(BitStep, 0xAFFC9658, 0x57FE4B2C, 0x2BFF2596, 0x15FF92CB, 0xE7474A45,
           0x9E1B2602, 0x4F0D9301, 0xCA3E4AA0, 0x651F2550);
  }

  lemma Digit9()
    ensures Absorb(0x651F2550, 57) == 0x340BC6D9
  {
    assert Xor(0x651F2550, 48 + 9) == 0x651F2569;
    Chain8(BitStep, 0x651F2569, 0xDF371194, 0x6F9B88CA, 0x37CDC465, 0xF65E6112,
           0x7B2F3089, 0xD02F1B64, 0x68178DB2, 0x340BC6D9);
  }

  lemma OneMore(c: bv32, msg: seq<Byte>, b: Byte, longer: seq<Byte>)
    requires longer == msg + [b]
    ensures Update(c, longer) == Absorb(Update(c, msg), b)
  {
    FoldOne(Absorb, c, msg, b);
  }

  lemma Digits1()
    ensures Update(0xFFFFFFFF, [49]) == 0x7C231048
  {
    Digit1();
    OneMore(0xFFFFFFFF, [], 49, [49]);
  }

  lemma Digits2()
    ensures Update(0xFFFFFFFF, [49, 50]) == 0xB0ACBB32
  {
    Digits1();
    Digit2();
    OneMore(0xFFFFFFFF, [49], 50, [49, 50]);
  }

  lemma Digits3()
    ensures Update(0xFFFFFFFF, [49, 50, 51]) == 0x77B79C2D
  {
    Digits2();
    Digit3();
    OneMore(0xFFFFFFFF, [49, 50], 51, [49, 50, 51]);
  }

  lemma Digits4()
    ensures Update(0xFFFFFFFF, [49, 50, 51, 52]) == 0x641C1F5C
  {
    Digits3();
    Digit4();
    OneMore(0xFFFFFFFF, [49, 50, 51], 52, [49, 50, 51, 52]);
  }

  lemma Digits5()
    ensures Update(0xFFFFFFFF, [49, 50, 51, 52, 53]) == 0x340AC5E3
  {
    Digits4();
    Digit5();
    OneMore(0xFFFFFFFF, [49, 50, 51, 52], 53, [49, 50, 51, 52, 53]);
  }

  lemma Digits6()
    ensures Update(0xFFFFFFFF, [49, 50, 51, 52, 53, 54]) == 0xF68D2C9E
  {
    Digits5();
    Digit6();
    OneMore(0xFFFFFFFF, [49, 50, 51, 52, 53], 54, [49, 50, 51, 52, 53, 54]);
  }

  lemma Digits7()
    ensures Update(0xFFFFFFFF, [49, 50, 51, 52, 53, 54, 55]) == 0xAFFC9660
  {
    Digits6();
    Digit7();
    OneMore(0xFFFFFFFF, [49, 50, 51, 52, 53, 54], 55, [49, 50, 51, 52, 53, 54, 55]);
  }

  lemma Digits8()
    ensures Update(0xFFFFFFFF, [49, 50, 51, 52, 53, 54, 55, 56]) == 0x651F2550
  {
    Digits7();
    Digit8();
    OneMore(0xFFFFFFFF, [49, 50, 51, 52, 53, 54, 55], 56, [49, 50, 51, 52, 53, 54, 55, 56]);
  }

  lemma Digits9()
    ensures Update(0xFFFFFFFF, [49, 50, 51, 52, 53, 54, 55, 56, 57]) == 0x340BC6D9
  {
    Digits8();
    Digit9();
    OneMore(0xFFFFFFFF, [49, 50, 51, 52, 53, 54, 55, 56], 57, [49, 50, 51, 52, 53, 54, 55, 56, 57]);
  }

  /** The check value. */
  lemma NineDigits()
    ensures Crc([49, 50, 51, 52, 53, 54, 55, 56, 57]) == 0xCBF43926
  {
    Digits9();
  }
}
