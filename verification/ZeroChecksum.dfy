/** Files whose checksum is 0, the value that stands for none. */
module ZeroChecksum {
  import opened BitStrings
  import opened LittleEndian
  import opened Crc32c
  import opened ChecksumTheory
  import opened Wire
  import opened Disk
  import opened Transfers
  import opened Session
  import opened SessionTheory
  import opened Delivery
  import opened Manifest
  import opened Sending

  /** Four bytes: AB 9B E0 9B. */
  const UNSEEN: seq<byte> := Le32(0x9BE0_9BAB)

  lemma EightMore(c: u32, d: u32, n: nat)
    requires n >= 8 && Shift8(c) == d
    ensures Shifts(c, n) == Shifts(d, n - 8)
  {
    hide Shift;
    var half := Shift(Shift(Shift(Shift(c))));
    assert Shifts(c, n) == Shifts(Shift(Shift(c)), n - 2) == Shifts(half, n - 4);
    assert Shifts(half, n - 4) == Shifts(Shift(Shift(half)), n - 6) == Shifts(d, n - 8);
  }

  lemma FirstEight()
    ensures Shift8(0x641F_6454) == 0x96DB_52A8
  {
    assert Shift(0x641F_6454) == 0x320F_B22A;
    assert Shift(0x320F_B22A) == 0x1907_D915;
    assert Shift(0x1907_D915) == 0x8E75_D7F2;
    assert Shift(0x8E75_D7F2) == 0x473A_EBF9;
    assert Shift(0x473A_EBF9) == 0xA16B_4E84;
    assert Shift(0xA16B_4E84) == 0x50B5_A742;
    assert Shift(0x50B5_A742) == 0x285A_D3A1;
    assert Shift(0x285A_D3A1) == 0x96DB_52A8;
  }

  lemma SecondEight()
    ensures Shift8(0x96DB_52A8) == 0x2804_363B
  {
    assert Shift(0x96DB_52A8) == 0x4B6D_A954;
    assert Shift(0x4B6D_A954) == 0x25B6_D4AA;
    assert Shift(0x25B6_D4AA) == 0x12DB_6A55;
    assert Shift(0x12DB_6A55) == 0x8B9B_8E52;
    assert Shift(0x8B9B_8E52) == 0x45CD_C729;
    assert Shift(0x45CD_C729) == 0xA010_D8EC;
    assert Shift(0xA010_D8EC) == 0x5008_6C76;
    assert Shift(0x5008_6C76) == 0x2804_363B;
  }

  lemma ThirdEight()
    ensures Shift8(0x2804_363B) == 0xA942_E6BC
  {
    assert Shift(0x2804_363B) == 0x96F4_2065;
    assert Shift(0x96F4_2065) == 0xC98C_2B4A;
    assert Shift(0xC98C_2B4A) == 0x64C6_15A5;
    assert Shift(0x64C6_15A5) == 0xB095_31AA;
    assert Shift(0xB095_31AA) == 0x584A_98D5;
    assert Shift(0x584A_98D5) == 0xAED3_7712;
    assert Shift(0xAED3_7712) == 0x5769_BB89;
    assert Shift(0x5769_BB89) == 0xA942_E6BC;
  }

  lemma FourthEight()
    ensures Shift8(0xA942_E6BC) == 0xFFFF_FFFF
  {
    assert Shift(0xA942_E6BC) == 0x54A1_735E;
    assert Shift(0x54A1_735E) == 0x2A50_B9AF;
    assert Shift(0x2A50_B9AF) == 0x97DE_67AF;
    assert Shift(0x97DE_67AF) == 0xC919_08AF;
    assert Shift(0xC919_08AF) == 0xE67A_BF2F;
    assert Shift(0xE67A_BF2F) == 0xF1CB_64EF;
    assert Shift(0xF1CB_64EF) == 0xFA13_890F;
    assert Shift(0xFA13_890F) == 0xFFFF_FFFF;
  }

  lemma StartOfUnseen()
    ensures Xor32(ONES, 0x9BE0_9BAB) == 0x641F_6454 && Xor32(ONES, ONES) == 0
  {
  }

  /** There is a file with checksum 0. */
  lemma ZeroChecksumExists()
    ensures |UNSEEN| == 4 && Checksum(UNSEEN) == 0
  {
    hide Shift8, Register, Le32, Xor32;
    FeedWord(ONES, 0x9BE0_9BAB);
    StartOfUnseen();
    FirstEight();
    SecondEight();
    ThirdEight();
    FourthEight();
    EightMore(0x641F_6454, 0x96DB_52A8, 32);
    EightMore(0x96DB_52A8, 0x2804_363B, 24);
    EightMore(0x2804_363B, 0xA942_E6BC, 16);
    EightMore(0xA942_E6BC, 0xFFFF_FFFF, 8);
    assert Shifts(ONES, 0) == ONES;
  }

  /** For such a file the sender computes the field 0. */
  lemma ZeroFieldSent(t: Tree, paths: seq<Text>, e: FileEntry)
    requires e.crc32 == 0 && UpTo(Backing(t, paths, e), e.size) == UNSEEN
    ensures Filled(t, paths, e) == e
  {
    hide Checksum, Backing;
    ZeroChecksumExists();
  }

  /** And the receiver takes anything of the same length for it, also with verification on. */
  lemma UnseenDamageDelivered(env: Env, createDir: bool, xs: seq<Source>, j: nat, payload: seq<byte>, store: Store,
                              summary: Summary, ec: Errc)
    requires Ready(env, createDir, store, xs) && Encodable(xs) && j < |xs| && |payload| == 4
    requires xs[j].content == UNSEEN && xs[j].entry.crc32 == Checksum(UNSEEN)
    ensures var ys := xs[j := Source(xs[j].entry, payload)];
            var s := DamagedSession(xs, j, payload, EncodeRecords(xs[j + 1..]) + EncodeDone());
            var r := Receiving(env, createDir, s, store, summary, ec);
            r.ok && r.store.files == store.files + FilesOf(env, ys) && Summarises(env, summary, ys, r.summary)
  {
    assert Welcome(env, xs[j]);
    hide Checksum, Ready, Receiving, FilesOf, Summarises, Encodable, DamagedSession;
    ZeroChecksumExists();
    UncheckedDamageDelivered(env, createDir, xs, j, payload, store, summary, ec);
  }
}
