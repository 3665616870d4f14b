/** Values of the CRC-32C, as published and as in the source's table. */
module Crc32cValues {
  import opened Bytes
  import opened Crc32c
  import opened Crc32cTables

  /** A byte goes in: the register after each of its bits. */
  lemma ByteStep(c: Word32, b: Byte, c0: Word32, c1: Word32, c2: Word32, c3: Word32, c4: Word32, c5: Word32,
                 c6: Word32, c7: Word32, c8: Word32)
    requires Xor(c, Wide(b)) == c0 && Bit(c0) == c1 && Bit(c1) == c2 && Bit(c2) == c3 && Bit(c3) == c4
    requires Bit(c4) == c5 && Bit(c5) == c6 && Bit(c6) == c7 && Bit(c7) == c8
    ensures ByteIn(c, b) == c8
  {
    hide Xor, Bit, Wide;
    assert Shift(c0, 1) == c1;
    assert Shift(c0, 2) == c2;
    assert Shift(c0, 3) == c3;
    assert Shift(c0, 4) == c4;
    assert Shift(c0, 5) == c5;
    assert Shift(c0, 6) == c6;
    assert Shift(c0, 7) == c7;
  }

  /** A single zero byte. */
  lemma ZeroByte()
    ensures Crc(0, [0]) == 0x527D_5351
  {
    ByteStep(0xFFFFFFFF, 0x00, 0xFFFFFFFF, 0xFD09C487, 0xFC72D93B, 0xFCCF57E5,
             0xFC91908A, 0x7E48C845, 0xBDD25F5A, 0x5EE92FAD, 0xAD82ACAE);
    hide ByteIn;
    assert Run(0xFFFF_FFFF, [0], 0, 1) == ByteIn(0xFFFF_FFFF, 0);
  }

  lemma OneTwoThree()
    ensures ByteIn(0xFFFFFFFF, 0x31) == 0x6F0A661C && ByteIn(0x6F0A661C, 0x32) == 0x8CAA3B9F
    ensures ByteIn(0x8CAA3B9F, 0x33) == 0xEF84D04D
  {
    hide ByteIn;
    ByteStep(0xFFFFFFFF, 0x31, 0xFFFFFFCE, 0x7FFFFFE7, 0xBD09C48B, 0xDC72D93D,
             0xECCF57E6, 0x7667ABF3, 0xB9C5EE81, 0xDE14CC38, 0x6F0A661C);
    ByteStep(0x6F0A661C, 0x32, 0x6F0A662E, 0x37853317, 0x9934A2F3, 0xCE6C6A01,
             0xE5C00E78, 0x72E0073C, 0x3970039E, 0x1CB801CF, 0x8CAA3B9F);
    ByteStep(0x8CAA3B9F, 0x33, 0x8CAA3BAC, 0x46551DD6, 0x232A8EEB, 0x93637C0D,
             0xCB47857E, 0x65A3C2BF, 0xB027DA27, 0xDAE5D66B, 0xEF84D04D);
  }

  lemma FourFiveSix()
    ensures ByteIn(0xEF84D04D, 0x34) == 0x09C50B11 && ByteIn(0x09C50B11, 0x35) == 0xE72EDCCA
    ensures ByteIn(0xE72EDCCA, 0x36) == 0xBECA8E79
  {
    hide ByteIn;
    ByteStep(0xEF84D04D, 0x34, 0xEF84D079, 0xF5345344, 0x7A9A29A2, 0x3D4D14D1,
             0x9C50B110, 0x4E285888, 0x27142C44, 0x138A1622, 0x09C50B11);
    ByteStep(0x09C50B11, 0x35, 0x09C50B24, 0x04E28592, 0x027142C9, 0x83CE9A1C,
             0x41E74D0E, 0x20F3A687, 0x928FE83B, 0xCBB1CF65, 0xE72EDCCA);
    ByteStep(0xE72EDCCA, 0x36, 0xE72EDCFC, 0x73976E7E, 0x39CBB73F, 0x9E13E0E7,
             0xCDFFCB0B, 0xE409DEFD, 0xF0F2D406, 0x78796A03, 0xBECA8E79);
  }

  lemma SevenEightNine()
    ensures ByteIn(0xBECA8E79, 0x37) == 0xEDBD6815 && ByteIn(0xEDBD6815, 0x38) == 0x9F787F65
    ensures ByteIn(0x9F787F65, 0x39) == 0x1CF96D7C
  {
    hide ByteIn;
    ByteStep(0xBECA8E79, 0x37, 0xBECA8E4E, 0x5F654727, 0xAD4498EB, 0xD454770D,
             0xE8DC00FE, 0x746E007F, 0xB8C13B47, 0xDE96A6DB, 0xEDBD6815);
    ByteStep(0xEDBD6815, 0x38, 0xEDBD682D, 0xF4288F6E, 0x7A1447B7, 0xBFFC18A3,
             0xDD083729, 0xEC7220EC, 0x76391076, 0x3B1C883B, 0x9F787F65);
    ByteStep(0x9F787F65, 0x39, 0x9F787F5C, 0x4FBC3FAE, 0x27DE1FD7, 0x91193493,
             0xCA7AA131, 0xE7CB6BE0, 0x73E5B5F0, 0x39F2DAF8, 0x1CF96D7C);
  }

  /** The CRC of the digits from 1 to 9, the usual check value. */
  lemma CheckValue()
    ensures Crc(0, [0x31, 0x32, 0x33, 0x34, 0x35, 0x36, 0x37, 0x38, 0x39]) == 0xE306_9283
  {
    hide ByteIn;
    OneTwoThree();
    FourFiveSix();
    SevenEightNine();
    var buf: seq<Byte> := [0x31, 0x32, 0x33, 0x34, 0x35, 0x36, 0x37, 0x38, 0x39];
    assert Run(0xFFFFFFFF, buf, 0, 1) == 0x6F0A661C;
    assert Run(0xFFFFFFFF, buf, 0, 2) == 0x8CAA3B9F;
    assert Run(0xFFFFFFFF, buf, 0, 3) == 0xEF84D04D;
    assert Run(0xFFFFFFFF, buf, 0, 4) == 0x09C50B11;
    assert Run(0xFFFFFFFF, buf, 0, 5) == 0xE72EDCCA;
    assert Run(0xFFFFFFFF, buf, 0, 6) == 0xBECA8E79;
    assert Run(0xFFFFFFFF, buf, 0, 7) == 0xEDBD6815;
    assert Run(0xFFFFFFFF, buf, 0, 8) == 0x9F787F65;
    assert Run(0xFFFFFFFF, buf, 0, 9) == 0x1CF96D7C;
  }

  /** Entries of the first table. */
  lemma FirstTable()
    ensures Lookup(0, 1) == 0xF26B_8303 && Lookup(0, 128) == 0x82F6_3B78
  {
  }

  lemma MoreOfFirstTable()
    ensures Lookup(0, 0x03) == 0x1350_F3F4 && Lookup(0, 0x77) == 0xA552_30E6 && Lookup(0, 0x7E) == 0xDDE0_EB2A
  {
  }

  /** Entries of the others: each follows from the one before and from the first table. */
  lemma OtherTables()
    ensures Lookup(1, 1) == 0x13A2_9877 && Lookup(2, 1) == 0xA541_927E && Lookup(3, 1) == 0xDD45_AAB8
  {
    hide Shift;
    FirstTable();
    MoreOfFirstTable();
  }
}
