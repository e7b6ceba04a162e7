/** Two of the check values of CRC32C in appendix B.4 of RFC 3720. */
module CheckValues {
  import opened BitStrings
  import opened Crc32c
  import opened ChecksumTheory

  lemma OneByteFed(s: u32, a: byte, rest: seq<byte>)
    ensures Register(s, [a] + rest) == Register(ByteStep(s, a), rest)
  {
    hide ByteStep;
    assert ([a] + rest)[1..] == rest;
  }

  /** Four bytes in front of the others. */
  lemma FourBytesFed(s: u32, a: byte, b: byte, c: byte, d: byte, rest: seq<byte>, s': u32)
    requires ByteStep(ByteStep(ByteStep(ByteStep(s, a), b), c), d) == s'
    ensures Register(s, [a, b, c, d] + rest) == Register(s', rest)
  {
    hide ByteStep, Register;
    var r1 := [d] + rest;
    var r2 := [c] + r1;
    var r3 := [b] + r2;
    OneByteFed(s, a, r3);
    OneByteFed(ByteStep(s, a), b, r2);
    OneByteFed(ByteStep(ByteStep(s, a), b), c, r1);
    OneByteFed(ByteStep(ByteStep(ByteStep(s, a), b), c), d, rest);
    assert [a] + r3 == [a, b, c, d] + rest;
  }

  const ZEROS: seq<byte> :=
    [0x00, 0x00, 0x00, 0x00] +
    ([0x00, 0x00, 0x00, 0x00] +
    ([0x00, 0x00, 0x00, 0x00] +
    ([0x00, 0x00, 0x00, 0x00] +
    ([0x00, 0x00, 0x00, 0x00] +
    ([0x00, 0x00, 0x00, 0x00] +
    ([0x00, 0x00, 0x00, 0x00] +
    ([0x00, 0x00, 0x00, 0x00] + [])))))))

  lemma Zeros0()
    ensures ByteStep(ByteStep(ByteStep(ByteStep(0xFFFF_FFFF, 0x00), 0x00), 0x00), 0x00) == 0xB798_B438
  {
    assert ByteStep(0xFFFF_FFFF, 0x00) == 0xAD82_ACAE;
    assert ByteStep(0xAD82_ACAE, 0x00) == 0x0E9E_882D;
    assert ByteStep(0x0E9E_882D, 0x00) == 0x9F9B_5C85;
    assert ByteStep(0x9F9B_5C85, 0x00) == 0xB798_B438;
  }

  lemma Zeros1()
    ensures ByteStep(ByteStep(ByteStep(ByteStep(0xB798_B438, 0x00), 0x00), 0x00), 0x00) == 0x73D7_4D75
  {
    assert ByteStep(0xB798_B438, 0x00) == 0xBA8D_89CA;
    assert ByteStep(0xBA8D_89CA, 0x00) == 0xA8D5_8375;
    assert ByteStep(0xA8D5_8375, 0x00) == 0x44C1_9592;
    assert ByteStep(0x44C1_9592, 0x00) == 0x73D7_4D75;
  }

  lemma Zeros2()
    ensures ByteStep(ByteStep(ByteStep(ByteStep(0x73D7_4D75, 0x00), 0x00), 0x00), 0x00) == 0xD49F_4AA2
  {
    assert ByteStep(0x73D7_4D75, 0x00) == 0x441A_975C;
    assert ByteStep(0x441A_975C, 0x00) == 0x1C22_0F94;
    assert ByteStep(0x1C22_0F94, 0x00) == 0x552E_4907;
    assert ByteStep(0x552E_4907, 0x00) == 0xD49F_4AA2;
  }

  lemma Zeros3()
    ensures ByteStep(ByteStep(ByteStep(ByteStep(0xD49F_4AA2, 0x00), 0x00), 0x00), 0x00) == 0xBD8F_6515
  {
    assert ByteStep(0xD49F_4AA2, 0x00) == 0x43A4_5A1B;
    assert ByteStep(0x43A4_5A1B, 0x00) == 0x8994_C80E;
    assert ByteStep(0x8994_C80E, 0x00) == 0xACF1_2BEF;
    assert ByteStep(0xACF1_2BEF, 0x00) == 0xBD8F_6515;
  }

  lemma Zeros4()
    ensures ByteStep(ByteStep(ByteStep(ByteStep(0xBD8F_6515, 0x00), 0x00), 0x00), 0x00) == 0x433A_A9C1
  {
    assert ByteStep(0xBD8F_6515, 0x00) == 0x2512_5C16;
    assert ByteStep(0x2512_5C16, 0x00) == 0x36DA_32DB;
    assert ByteStep(0x36DA_32DB, 0x00) == 0x4A6C_90A2;
    assert ByteStep(0x4A6C_90A2, 0x00) == 0x433A_A9C1;
  }

  lemma Zeros5()
    ensures ByteStep(ByteStep(ByteStep(ByteStep(0x433A_A9C1, 0x00), 0x00), 0x00), 0x00) == 0x7B04_1311
  {
    assert ByteStep(0x433A_A9C1, 0x00) == 0x31A5_9F6E;
    assert ByteStep(0x31A5_9F6E, 0x00) == 0xCD8F_89DA;
    assert ByteStep(0xCD8F_89DA, 0x00) == 0xB8FC_461A;
    assert ByteStep(0xB8FC_461A, 0x00) == 0x7B04_1311;
  }

  lemma Zeros6()
    ensures ByteStep(ByteStep(ByteStep(ByteStep(0x7B04_1311, 0x00), 0x00), 0x00), 0x00) == 0x0836_3896
  {
    assert ByteStep(0x7B04_1311, 0x00) == 0xE24E_407F;
    assert ByteStep(0xE24E_407F, 0x00) == 0x2F69_2669;
    assert ByteStep(0x2F69_2669, 0x00) == 0x195B_2188;
    assert ByteStep(0x195B_2188, 0x00) == 0x0836_3896;
  }

  lemma Zeros7()
    ensures ByteStep(ByteStep(ByteStep(ByteStep(0x0836_3896, 0x00), 0x00), 0x00), 0x00) == 0x756E_C955
  {
    assert ByteStep(0x0836_3896, 0x00) == 0xB401_2DC7;
    assert ByteStep(0xB401_2DC7, 0x00) == 0x17F3_4302;
    assert ByteStep(0x17F3_4302, 0x00) == 0xE12C_83B4;
    assert ByteStep(0xE12C_83B4, 0x00) == 0x756E_C955;
  }

  /** 32 bytes 00. */
  lemma ZerosChecksum()
    ensures |ZEROS| == 32 && Checksum(ZEROS) == 0x8A91_36AA
  {
    hide ByteStep, Register;
    Zeros0();
    Zeros1();
    Zeros2();
    Zeros3();
    Zeros4();
    Zeros5();
    Zeros6();
    Zeros7();
    var r8: seq<byte> := [];
    var r7 := [0x00, 0x00, 0x00, 0x00] + r8;
    FourBytesFed(0x0836_3896, 0x00, 0x00, 0x00, 0x00, r8, 0x756E_C955);
    var r6 := [0x00, 0x00, 0x00, 0x00] + r7;
    FourBytesFed(0x7B04_1311, 0x00, 0x00, 0x00, 0x00, r7, 0x0836_3896);
    var r5 := [0x00, 0x00, 0x00, 0x00] + r6;
    FourBytesFed(0x433A_A9C1, 0x00, 0x00, 0x00, 0x00, r6, 0x7B04_1311);
    var r4 := [0x00, 0x00, 0x00, 0x00] + r5;
    FourBytesFed(0xBD8F_6515, 0x00, 0x00, 0x00, 0x00, r5, 0x433A_A9C1);
    var r3 := [0x00, 0x00, 0x00, 0x00] + r4;
    FourBytesFed(0xD49F_4AA2, 0x00, 0x00, 0x00, 0x00, r4, 0xBD8F_6515);
    var r2 := [0x00, 0x00, 0x00, 0x00] + r3;
    FourBytesFed(0x73D7_4D75, 0x00, 0x00, 0x00, 0x00, r3, 0xD49F_4AA2);
    var r1 := [0x00, 0x00, 0x00, 0x00] + r2;
    FourBytesFed(0xB798_B438, 0x00, 0x00, 0x00, 0x00, r2, 0x73D7_4D75);
    var r0 := [0x00, 0x00, 0x00, 0x00] + r1;
    FourBytesFed(0xFFFF_FFFF, 0x00, 0x00, 0x00, 0x00, r1, 0xB798_B438);
    NothingFed(0x756E_C955, r8);
    assert r0 == ZEROS && Xor32(0x756E_C955, ONES) == 0x8A91_36AA;
  }

  const RISING: seq<byte> :=
    [0x00, 0x01, 0x02, 0x03] +
    ([0x04, 0x05, 0x06, 0x07] +
    ([0x08, 0x09, 0x0A, 0x0B] +
    ([0x0C, 0x0D, 0x0E, 0x0F] +
    ([0x10, 0x11, 0x12, 0x13] +
    ([0x14, 0x15, 0x16, 0x17] +
    ([0x18, 0x19, 0x1A, 0x1B] +
    ([0x1C, 0x1D, 0x1E, 0x1F] + [])))))))

  lemma Rising0()
    ensures ByteStep(ByteStep(ByteStep(ByteStep(0xFFFF_FFFF, 0x00), 0x01), 0x02), 0x03) == 0x26CC_E55C
  {
    assert ByteStep(0xFFFF_FFFF, 0x00) == 0xAD82_ACAE;
    assert ByteStep(0xAD82_ACAE, 0x01) == 0xFCF5_0B2E;
    assert ByteStep(0xFCF5_0B2E, 0x02) == 0x6D02_B405;
    assert ByteStep(0x6D02_B405, 0x03) == 0x26CC_E55C;
  }

  lemma Rising1()
    ensures ByteStep(ByteStep(ByteStep(ByteStep(0x26CC_E55C, 0x04), 0x05), 0x06), 0x07) == 0x75D3_43C4
  {
    assert ByteStep(0x26CC_E55C, 0x04) == 0xDBDA_4EF9;
    assert ByteStep(0xDBDA_4EF9, 0x05) == 0xBEF6_7AEB;
    assert ByteStep(0xBEF6_7AEB, 0x06) == 0x5CA6_12B3;
    assert ByteStep(0x5CA6_12B3, 0x07) == 0x75D3_43C4;
  }

  lemma Rising2()
    ensures ByteStep(ByteStep(ByteStep(ByteStep(0x75D3_43C4, 0x08), 0x09), 0x0A), 0x0B) == 0xAC7C_5545
  {
    assert ByteStep(0x75D3_43C4, 0x08) == 0x8EBB_3A57;
    assert ByteStep(0x8EBB_3A57, 0x09) == 0xFDD3_DECE;
    assert ByteStep(0xFDD3_DECE, 0x0A) == 0x04EA_6205;
    assert ByteStep(0x04EA_6205, 0x0B) == 0xAC7C_5545;
  }

  lemma Rising3()
    ensures ByteStep(ByteStep(ByteStep(ByteStep(0xAC7C_5545, 0x0C), 0x0D), 0x0E), 0x0F) == 0x2636_F714
  {
    assert ByteStep(0xAC7C_5545, 0x0C) == 0x3965_BA25;
    assert ByteStep(0x3965_BA25, 0x0D) == 0xAA5D_B3AB;
    assert ByteStep(0xAA5D_B3AB, 0x0E) == 0x9710_FC09;
    assert ByteStep(0x9710_FC09, 0x0F) == 0x2636_F714;
  }

  lemma Rising4()
    ensures ByteStep(ByteStep(ByteStep(ByteStep(0x2636_F714, 0x10), 0x11), 0x12), 0x13) == 0x3386_1419
  {
    assert ByteStep(0x2636_F714, 0x10) == 0xC7BC_A1E8;
    assert ByteStep(0xC7BC_A1E8, 0x11) == 0x8B1B_0818;
    assert ByteStep(0x8B1B_0818, 0x12) == 0x6B69_3330;
    assert ByteStep(0x6B69_3330, 0x13) == 0x3386_1419;
  }

  lemma Rising5()
    ensures ByteStep(ByteStep(ByteStep(ByteStep(0x3386_1419, 0x14), 0x15), 0x16), 0x17) == 0xD643_786A
  {
    assert ByteStep(0x3386_1419, 0x14) == 0xBF1B_CAC7;
    assert ByteStep(0xBF1B_CAC7, 0x15) == 0x3257_8A96;
    assert ByteStep(0x3257_8A96, 0x16) == 0x82C4_6CF2;
    assert ByteStep(0x82C4_6CF2, 0x17) == 0xD643_786A;
  }

  lemma Rising6()
    ensures ByteStep(ByteStep(ByteStep(ByteStep(0xD643_786A, 0x18), 0x19), 0x1A), 0x1B) == 0x9B21_363E
  {
    assert ByteStep(0xD643_786A, 0x18) == 0x9075_6782;
    assert ByteStep(0x9075_6782, 0x19) == 0x0BB1_224B;
    assert ByteStep(0x0BB1_224B, 0x1A) == 0xA345_E8F2;
    assert ByteStep(0xA345_E8F2, 0x1B) == 0x9B21_363E;
  }

  lemma Rising7()
    ensures ByteStep(ByteStep(ByteStep(ByteStep(0x9B21_363E, 0x1C), 0x1D), 0x1E), 0x1F) == 0xB922_86B1
  {
    assert ByteStep(0x9B21_363E, 0x1C) == 0xC11D_DF1F;
    assert ByteStep(0xC11D_DF1F, 0x1D) == 0xE1FA_6D28;
    assert ByteStep(0xE1FA_6D28, 0x1E) == 0x16A3_5434;
    assert ByteStep(0x16A3_5434, 0x1F) == 0xB922_86B1;
  }

  /** The bytes 00 to 1F. */
  lemma RisingChecksum()
    ensures |RISING| == 32 && Checksum(RISING) == 0x46DD_794E
  {
    hide ByteStep, Register;
    Rising0();
    Rising1();
    Rising2();
    Rising3();
    Rising4();
    Rising5();
    Rising6();
    Rising7();
    var r8: seq<byte> := [];
    var r7 := [0x1C, 0x1D, 0x1E, 0x1F] + r8;
    FourBytesFed(0x9B21_363E, 0x1C, 0x1D, 0x1E, 0x1F, r8, 0xB922_86B1);
    var r6 := [0x18, 0x19, 0x1A, 0x1B] + r7;
    FourBytesFed(0xD643_786A, 0x18, 0x19, 0x1A, 0x1B, r7, 0x9B21_363E);
    var r5 := [0x14, 0x15, 0x16, 0x17] + r6;
    FourBytesFed(0x3386_1419, 0x14, 0x15, 0x16, 0x17, r6, 0xD643_786A);
    var r4 := [0x10, 0x11, 0x12, 0x13] + r5;
    FourBytesFed(0x2636_F714, 0x10, 0x11, 0x12, 0x13, r5, 0x3386_1419);
    var r3 := [0x0C, 0x0D, 0x0E, 0x0F] + r4;
    FourBytesFed(0xAC7C_5545, 0x0C, 0x0D, 0x0E, 0x0F, r4, 0x2636_F714);
    var r2 := [0x08, 0x09, 0x0A, 0x0B] + r3;
    FourBytesFed(0x75D3_43C4, 0x08, 0x09, 0x0A, 0x0B, r3, 0xAC7C_5545);
    var r1 := [0x04, 0x05, 0x06, 0x07] + r2;
    FourBytesFed(0x26CC_E55C, 0x04, 0x05, 0x06, 0x07, r2, 0x75D3_43C4);
    var r0 := [0x00, 0x01, 0x02, 0x03] + r1;
    FourBytesFed(0xFFFF_FFFF, 0x00, 0x01, 0x02, 0x03, r1, 0x26CC_E55C);
    NothingFed(0xB922_86B1, r8);
    assert r0 == RISING && Xor32(0xB922_86B1, ONES) == 0x46DD_794E;
  }

  lemma NothingFed(s: u32, data: seq<byte>)
    requires data == []
    ensures Register(s, data) == s
  {
  }
}
