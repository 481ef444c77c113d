/** What the CRC-32 is: the residue it leaves behind every message, and its published check value. */
module CrcResidue {
  import opened Arithmetic
  import opened Bytes
  import opened Crc32

  /** The state every sound message with its checksum behind it ends in. */
  const RESIDUE: bv32 := 0xDEBB20E3

  // ---------- the bytes of a word ----------

  lemma JoinIsOr(low: bv8, rest: bv32)
    ensures (low as bv32) ^ (rest << 8) == (low as bv32) | (rest << 8)
  {
  }

  lemma LowAndRest(low: bv8, rest: bv32)
    requires rest & 0xFF000000 == 0
    ensures ((low as bv32) | (rest << 8)) as nat == low as nat + 256 * (rest as nat)
  {
  }

  lemma JoinAsNat(b: byte, rest: bv32)
    requires Below(rest, 3)
    ensures Xor(Wide(b), Up(rest)) as nat == b + 256 * (rest as nat)
  {
    var low := b as bv8;
    ByteBack(b);
    JoinIsOr(low, rest);
    LowAndRest(low, rest);
  }

  /** The word of up to four bytes is the number they encode, lowest byte first. */
  lemma {:induction false} WordIsNumber(data: seq<byte>)
    requires |data| <= 4
    ensures Word(data) as nat == FromLittleEndian(data)
  {
    if data == [] {
    } else {
      hide Xor, Wide, Up, Below;
      WordIsNumber(data[1..]);
      WordBelow(data[1..]);
      BelowWider(Word(data[1..]), |data| - 1);
      JoinAsNat(data[0], Word(data[1..]));
    }
  }

  lemma WordOfEncoded(w: bv32)
    ensures Word(LittleEndian(w as nat, 4)) == w
  {
    hide Word, FromLittleEndian, LittleEndian;
    var data := LittleEndian(w as nat, 4);
    FieldLimits();
    DecodeEncode(w as nat, 4);
    WordIsNumber(data);
    AsNatInjective(Word(data), w);
  }

  // ---------- the residue ----------

  lemma ComplementMakesOnes(s: bv32)
    ensures s ^ !s == 0xFFFFFFFF
  {
  }

  lemma OnlyComplement(s: bv32, w: bv32)
    ensures Xor(s, w) == 0xFFFFFFFF <==> w == !s
  {
    ComplementMakesOnes(s);
    if Xor(s, w) == 0xFFFFFFFF {
      XorCancels(w, !s, s);
    }
  }

  lemma OnesFirst()
    ensures ByteStep(0xFFFFFFFF) == 0x2DFD1072
  {
    assert BitStep(0xFFFFFFFF) == 0x92477CDF && BitStep(0x92477CDF) == 0xA49B3D4F;
    assert BitStep(0xA49B3D4F) == 0xBFF51D87 && BitStep(0xBFF51D87) == 0xB2420DE3;
    assert BitStep(0xB2420DE3) == 0xB49985D1 && BitStep(0xB49985D1) == 0xB7F441C8;
    assert BitStep(0xB7F441C8) == 0x5BFA20E4 && BitStep(0x5BFA20E4) == 0x2DFD1072;
    hide BitStep;
    assert BitSteps(4, 0xFFFFFFFF) == 0xB2420DE3;
  }

  lemma OnesSecond()
    ensures ByteStep(0x2DFD1072) == 0xBE26ED00
  {
    assert BitStep(0x2DFD1072) == 0x16FE8839 && BitStep(0x16FE8839) == 0xE6C7C73C;
    assert BitStep(0xE6C7C73C) == 0x7363E39E && BitStep(0x7363E39E) == 0x39B1F1CF;
    assert BitStep(0x39B1F1CF) == 0xF1607BC7 && BitStep(0xF1607BC7) == 0x9508BEC3;
    assert BitStep(0x9508BEC3) == 0xA73CDC41 && BitStep(0xA73CDC41) == 0xBE26ED00;
    hide BitStep;
    assert BitSteps(4, 0x2DFD1072) == 0x39B1F1CF;
  }

  lemma OnesThird()
    ensures ByteStep(0xBE26ED00) == 0x00BE26ED
  {
    assert BitStep(0xBE26ED00) == 0x5F137680 && BitStep(0x5F137680) == 0x2F89BB40;
    assert BitStep(0x2F89BB40) == 0x17C4DDA0 && BitStep(0x17C4DDA0) == 0x0BE26ED0;
    assert BitStep(0x0BE26ED0) == 0x05F13768 && BitStep(0x05F13768) == 0x02F89BB4;
    assert BitStep(0x02F89BB4) == 0x017C4DDA && BitStep(0x017C4DDA) == 0x00BE26ED;
    hide BitStep;
    assert BitSteps(4, 0xBE26ED00) == 0x0BE26ED0;
  }

  lemma OnesFourth()
    ensures ByteStep(0x00BE26ED) == 0xDEBB20E3
  {
    assert BitStep(0x00BE26ED) == 0xEDE79056 && BitStep(0xEDE79056) == 0x76F3C82B;
    assert BitStep(0x76F3C82B) == 0xD6C16735 && BitStep(0xD6C16735) == 0x86D830BA;
    assert BitStep(0x86D830BA) == 0x436C185D && BitStep(0x436C185D) == 0xCC0E8F0E;
    assert BitStep(0xCC0E8F0E) == 0x66074787 && BitStep(0x66074787) == 0xDEBB20E3;
    hide BitStep;
    assert BitSteps(4, 0x00BE26ED) == 0x86D830BA;
  }

  lemma AllOnesStepped()
    ensures BitSteps(32, 0xFFFFFFFF) == RESIDUE
  {
    OnesFirst();
    OnesSecond();
    OnesThird();
    OnesFourth();
    hide BitSteps;
    BitStepsCompose(8, 8, 0xFFFFFFFF);
    BitStepsCompose(8, 16, 0xFFFFFFFF);
    BitStepsCompose(8, 24, 0xFFFFFFFF);
  }

  lemma WordOfFinished(s: bv32)
    ensures Word(LittleEndian(Finish(s), 4)) == !s
  {
    hide Word, LittleEndian;
    WordOfEncoded(!s);
  }

  /**
    The residue law, both ways: the four bytes behind a message are its checksum, lowest
    byte first, if and only if folding all of it from 0xFFFFFFFF ends in the residue.
   */
  lemma ResidueIff(data: seq<byte>, tail: seq<byte>)
    requires |tail| == 4
    ensures Update(0xFFFFFFFF, data + tail) == RESIDUE <==> tail == LittleEndian(Checksum(data), 4)
  {
    hide Xor, BitSteps, Word, LittleEndian, Update, Finish;
    var s := Update(0xFFFFFFFF, data);
    UpdateConcat(0xFFFFFFFF, data, tail);
    WindowIsOneWord(s, tail);
    OnlyComplement(s, Word(tail));
    AllOnesStepped();
    WordOfFinished(s);
    if Update(s, tail) == RESIDUE {
      BitStepsInjective(32, Xor(s, Word(tail)), 0xFFFFFFFF);
      WordInjective(tail, LittleEndian(Checksum(data), 4));
    }
  }

  // ---------- the check value ----------

  lemma DigitOne()
    ensures ByteStep(0xFFFFFFCE) == 0x7C231048
  {
    assert BitStep(0xFFFFFFCE) == 0x7FFFFFE7 && BitStep(0x7FFFFFE7) == 0xD2477CD3;
    assert BitStep(0xD2477CD3) == 0x849B3D49 && BitStep(0x849B3D49) == 0xAFF51D84;
    assert BitStep(0xAFF51D84) == 0x57FA8EC2 && BitStep(0x57FA8EC2) == 0x2BFD4761;
    assert BitStep(0x2BFD4761) == 0xF8462090 && BitStep(0xF8462090) == 0x7C231048;
    hide BitStep;
    assert BitSteps(4, 0xFFFFFFCE) == 0xAFF51D84;
  }

  lemma DigitTwo()
    ensures ByteStep(0x7C23107A) == 0xB0ACBB32
  {
    assert BitStep(0x7C23107A) == 0x3E11883D && BitStep(0x3E11883D) == 0xF2B0473E;
    assert BitStep(0xF2B0473E) == 0x7958239F && BitStep(0x7958239F) == 0xD11492EF;
    assert BitStep(0xD11492EF) == 0x8532CA57 && BitStep(0x8532CA57) == 0xAF21E60B;
    assert BitStep(0xAF21E60B) == 0xBA287025 && BitStep(0xBA287025) == 0xB0ACBB32;
    hide BitStep;
    assert BitSteps(4, 0x7C23107A) == 0xD11492EF;
  }

  lemma DigitThree()
    ensures ByteStep(0xB0ACBB01) == 0x77B79C2D
  {
    assert BitStep(0xB0ACBB01) == 0xB5EEDEA0 && BitStep(0xB5EEDEA0) == 0x5AF76F50;
    assert BitStep(0x5AF76F50) == 0x2D7BB7A8 && BitStep(0x2D7BB7A8) == 0x16BDDBD4;
    assert BitStep(0x16BDDBD4) == 0x0B5EEDEA && BitStep(0x0B5EEDEA) == 0x05AF76F5;
    assert BitStep(0x05AF76F5) == 0xEF6F385A && BitStep(0xEF6F385A) == 0x77B79C2D;
    hide BitStep;
    assert BitSteps(4, 0xB0ACBB01) == 0x16BDDBD4;
  }

  lemma DigitFour()
    ensures ByteStep(0x77B79C19) == 0x641C1F5C
  {
    assert BitStep(0x77B79C19) == 0xD6634D2C && BitStep(0xD6634D2C) == 0x6B31A696;
    assert BitStep(0x6B31A696) == 0x3598D34B && BitStep(0x3598D34B) == 0xF774EA85;
    assert BitStep(0xF774EA85) == 0x9602F662 && BitStep(0x9602F662) == 0x4B017B31;
    assert BitStep(0x4B017B31) == 0xC8383EB8 && BitStep(0xC8383EB8) == 0x641C1F5C;
    hide BitStep;
    assert BitSteps(4, 0x77B79C19) == 0xF774EA85;
  }

  lemma DigitFive()
    ensures ByteStep(0x641C1F69) == 0x340AC5E3
  {
    assert BitStep(0x641C1F69) == 0xDFB68C94 && BitStep(0xDFB68C94) == 0x6FDB464A;
    assert BitStep(0x6FDB464A) == 0x37EDA325 && BitStep(0x37EDA325) == 0xF64E52B2;
    assert BitStep(0xF64E52B2) == 0x7B272959 && BitStep(0x7B272959) == 0xD02B178C;
    assert BitStep(0xD02B178C) == 0x68158BC6 && BitStep(0x68158BC6) == 0x340AC5E3;
    hide BitStep;
    assert BitSteps(4, 0x641C1F69) == 0xF64E52B2;
  }

  lemma DigitSix()
    ensures ByteStep(0x340AC5D5) == 0xF68D2C9E
  {
    assert BitStep(0x340AC5D5) == 0xF7BDE1CA && BitStep(0xF7BDE1CA) == 0x7BDEF0E5;
    assert BitStep(0x7BDEF0E5) == 0xD057FB52 && BitStep(0xD057FB52) == 0x682BFDA9;
    assert BitStep(0x682BFDA9) == 0xD9AD7DF4 && BitStep(0xD9AD7DF4) == 0x6CD6BEFA;
    assert BitStep(0x6CD6BEFA) == 0x366B5F7D && BitStep(0x366B5F7D) == 0xF68D2C9E;
    hide BitStep;
    assert BitSteps(4, 0x340AC5D5) == 0x682BFDA9;
  }

  lemma DigitSeven()
    ensures ByteStep(0xF68D2CA9) == 0xAFFC9660
  {
    assert BitStep(0xF68D2CA9) == 0x96FE1574 && BitStep(0x96FE1574) == 0x4B7F0ABA;
    assert BitStep(0x4B7F0ABA) == 0x25BF855D && BitStep(0x25BF855D) == 0xFF67418E;
    assert BitStep(0xFF67418E) == 0x7FB3A0C7 && BitStep(0x7FB3A0C7) == 0xD2615343;
    assert BitStep(0xD2615343) == 0x84882A81 && BitStep(0x84882A81) == 0xAFFC9660;
    hide BitStep;
    assert BitSteps(4, 0xF68D2CA9) == 0xFF67418E;
  }

  lemma DigitEight()
    ensures ByteStep(0xAFFC9658) == 0x651F2550
  {
    assert BitStep(0xAFFC9658) == 0x57FE4B2C && BitStep(0x57FE4B2C) == 0x2BFF2596;
    assert BitStep(0x2BFF2596) == 0x15FF92CB && BitStep(0x15FF92CB) == 0xE7474A45;
    assert BitStep(0xE7474A45) == 0x9E1B2602 && BitStep(0x9E1B2602) == 0x4F0D9301;
    assert BitStep(0x4F0D9301) == 0xCA3E4AA0 && BitStep(0xCA3E4AA0) == 0x651F2550;
    hide BitStep;
    assert BitSteps(4, 0xAFFC9658) == 0xE7474A45;
  }

  lemma DigitNine()
    ensures ByteStep(0x651F2569) == 0x340BC6D9
  {
    assert BitStep(0x651F2569) == 0xDF371194 && BitStep(0xDF371194) == 0x6F9B88CA;
    assert BitStep(0x6F9B88CA) == 0x37CDC465 && BitStep(0x37CDC465) == 0xF65E6112;
    assert BitStep(0xF65E6112) == 0x7B2F3089 && BitStep(0x7B2F3089) == 0xD02F1B64;
    assert BitStep(0xD02F1B64) == 0x68178DB2 && BitStep(0x68178DB2) == 0x340BC6D9;
    hide BitStep;
    assert BitSteps(4, 0x651F2569) == 0xF65E6112;
  }

  const DIGITS: seq<byte> := [0x31, 0x32, 0x33, 0x34, 0x35, 0x36, 0x37, 0x38, 0x39]

  lemma NextDigit(i: nat, state: bv32, b: byte, mixed: bv32, next: bv32)
    requires i < 9 && DIGITS[i] == b && Xor(state, Wide(b)) == mixed && ByteStep(mixed) == next
    ensures Update(state, DIGITS[i..]) == Update(next, DIGITS[i + 1..])
  {
    hide Xor, Wide, BitSteps;
    assert DIGITS[i..][1..] == DIGITS[i + 1..];
  }

  lemma UpdateNothing(state: bv32)
    ensures Update(state, []) == state
  {
  }

  lemma MixedDigits()
    ensures Xor(0xFFFFFFFF, Wide(0x31)) == 0xFFFFFFCE
    ensures Xor(0x7C231048, Wide(0x32)) == 0x7C23107A
    ensures Xor(0xB0ACBB32, Wide(0x33)) == 0xB0ACBB01
    ensures Xor(0x77B79C2D, Wide(0x34)) == 0x77B79C19
    ensures Xor(0x641C1F5C, Wide(0x35)) == 0x641C1F69
    ensures Xor(0x340AC5E3, Wide(0x36)) == 0x340AC5D5
    ensures Xor(0xF68D2C9E, Wide(0x37)) == 0xF68D2CA9
    ensures Xor(0xAFFC9660, Wide(0x38)) == 0xAFFC9658
    ensures Xor(0x651F2550, Wide(0x39)) == 0x651F2569
  {
  }

  lemma DigitStates()
    ensures Update(0xFFFFFFFF, DIGITS) == 0x340BC6D9
  {
    MixedDigits();
    hide Xor, Wide, BitSteps, Update;
    assert DIGITS[0..] == DIGITS && DIGITS[9..] == [];
    DigitOne();
    NextDigit(0, 0xFFFFFFFF, 0x31, 0xFFFFFFCE, 0x7C231048);
    DigitTwo();
    NextDigit(1, 0x7C231048, 0x32, 0x7C23107A, 0xB0ACBB32);
    DigitThree();
    NextDigit(2, 0xB0ACBB32, 0x33, 0xB0ACBB01, 0x77B79C2D);
    DigitFour();
    NextDigit(3, 0x77B79C2D, 0x34, 0x77B79C19, 0x641C1F5C);
    DigitFive();
    NextDigit(4, 0x641C1F5C, 0x35, 0x641C1F69, 0x340AC5E3);
    DigitSix();
    NextDigit(5, 0x340AC5E3, 0x36, 0x340AC5D5, 0xF68D2C9E);
    DigitSeven();
    NextDigit(6, 0xF68D2C9E, 0x37, 0xF68D2CA9, 0xAFFC9660);
    DigitEight();
    NextDigit(7, 0xAFFC9660, 0x38, 0xAFFC9658, 0x651F2550);
    DigitNine();
    NextDigit(8, 0x651F2550, 0x39, 0x651F2569, 0x340BC6D9);
    UpdateNothing(0x340BC6D9);
  }

  /** The check value of CRC-32: the checksum of the nine digits "123456789". */
  lemma CheckValue()
    ensures Checksum(DIGITS) == 0xCBF43926
  {
    DigitStates();
    hide Update;
    assert !(0x340BC6D9 as bv32) == 0xCBF43926;
  }
}
