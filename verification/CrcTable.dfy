/**
lib/crc32.c: the table as it is written out, for builds that do not compute it: it is the one that
make_crc_table makes. Since entries are linear, the first entry of each row of sixteen and the first row
determine all others.
 */
module CrcTable {
  import opened Crc32

  function Row0(): (row: seq<bv32>)
    ensures |row| == 16
  {
    [0x0000_0000, 0x7707_3096, 0xee0e_612c, 0x9909_51ba, 0x076d_c419, 0x706a_f48f, 0xe963_a535, 0x9e64_95a3,
     0x0edb_8832, 0x79dc_b8a4, 0xe0d5_e91e, 0x97d2_d988, 0x09b6_4c2b, 0x7eb1_7cbd, 0xe7b8_2d07, 0x90bf_1d91]
  }

  function Row1(): (row: seq<bv32>)
    ensures |row| == 16
  {
    [0x1db7_1064, 0x6ab0_20f2, 0xf3b9_7148, 0x84be_41de, 0x1ada_d47d, 0x6ddd_e4eb, 0xf4d4_b551, 0x83d3_85c7,
     0x136c_9856, 0x646b_a8c0, 0xfd62_f97a, 0x8a65_c9ec, 0x1401_5c4f, 0x6306_6cd9, 0xfa0f_3d63, 0x8d08_0df5]
  }

  function Row2(): (row: seq<bv32>)
    ensures |row| == 16
  {
    [0x3b6e_20c8, 0x4c69_105e, 0xd560_41e4, 0xa267_7172, 0x3c03_e4d1, 0x4b04_d447, 0xd20d_85fd, 0xa50a_b56b,
     0x35b5_a8fa, 0x42b2_986c, 0xdbbb_c9d6, 0xacbc_f940, 0x32d8_6ce3, 0x45df_5c75, 0xdcd6_0dcf, 0xabd1_3d59]
  }

  function Row3(): (row: seq<bv32>)
    ensures |row| == 16
  {
    [0x26d9_30ac, 0x51de_003a, 0xc8d7_5180, 0xbfd0_6116, 0x21b4_f4b5, 0x56b3_c423, 0xcfba_9599, 0xb8bd_a50f,
     0x2802_b89e, 0x5f05_8808, 0xc60c_d9b2, 0xb10b_e924, 0x2f6f_7c87, 0x5868_4c11, 0xc161_1dab, 0xb666_2d3d]
  }

  function Row4(): (row: seq<bv32>)
    ensures |row| == 16
  {
    [0x76dc_4190, 0x01db_7106, 0x98d2_20bc, 0xefd5_102a, 0x71b1_8589, 0x06b6_b51f, 0x9fbf_e4a5, 0xe8b8_d433,
     0x7807_c9a2, 0x0f00_f934, 0x9609_a88e, 0xe10e_9818, 0x7f6a_0dbb, 0x086d_3d2d, 0x9164_6c97, 0xe663_5c01]
  }

  function Row5(): (row: seq<bv32>)
    ensures |row| == 16
  {
    [0x6b6b_51f4, 0x1c6c_6162, 0x8565_30d8, 0xf262_004e, 0x6c06_95ed, 0x1b01_a57b, 0x8208_f4c1, 0xf50f_c457,
     0x65b0_d9c6, 0x12b7_e950, 0x8bbe_b8ea, 0xfcb9_887c, 0x62dd_1ddf, 0x15da_2d49, 0x8cd3_7cf3, 0xfbd4_4c65]
  }

  function Row6(): (row: seq<bv32>)
    ensures |row| == 16
  {
    [0x4db2_6158, 0x3ab5_51ce, 0xa3bc_0074, 0xd4bb_30e2, 0x4adf_a541, 0x3dd8_95d7, 0xa4d1_c46d, 0xd3d6_f4fb,
     0x4369_e96a, 0x346e_d9fc, 0xad67_8846, 0xda60_b8d0, 0x4404_2d73, 0x3303_1de5, 0xaa0a_4c5f, 0xdd0d_7cc9]
  }

  function Row7(): (row: seq<bv32>)
    ensures |row| == 16
  {
    [0x5005_713c, 0x2702_41aa, 0xbe0b_1010, 0xc90c_2086, 0x5768_b525, 0x206f_85b3, 0xb966_d409, 0xce61_e49f,
     0x5ede_f90e, 0x29d9_c998, 0xb0d0_9822, 0xc7d7_a8b4, 0x59b3_3d17, 0x2eb4_0d81, 0xb7bd_5c3b, 0xc0ba_6cad]
  }

  function Row8(): (row: seq<bv32>)
    ensures |row| == 16
  {
    [0xedb8_8320, 0x9abf_b3b6, 0x03b6_e20c, 0x74b1_d29a, 0xead5_4739, 0x9dd2_77af, 0x04db_2615, 0x73dc_1683,
     0xe363_0b12, 0x9464_3b84, 0x0d6d_6a3e, 0x7a6a_5aa8, 0xe40e_cf0b, 0x9309_ff9d, 0x0a00_ae27, 0x7d07_9eb1]
  }

  function Row9(): (row: seq<bv32>)
    ensures |row| == 16
  {
    [0xf00f_9344, 0x8708_a3d2, 0x1e01_f268, 0x6906_c2fe, 0xf762_575d, 0x8065_67cb, 0x196c_3671, 0x6e6b_06e7,
     0xfed4_1b76, 0x89d3_2be0, 0x10da_7a5a, 0x67dd_4acc, 0xf9b9_df6f, 0x8ebe_eff9, 0x17b7_be43, 0x60b0_8ed5]
  }

  function Row10(): (row: seq<bv32>)
    ensures |row| == 16
  {
    [0xd6d6_a3e8, 0xa1d1_937e, 0x38d8_c2c4, 0x4fdf_f252, 0xd1bb_67f1, 0xa6bc_5767, 0x3fb5_06dd, 0x48b2_364b,
     0xd80d_2bda, 0xaf0a_1b4c, 0x3603_4af6, 0x4104_7a60, 0xdf60_efc3, 0xa867_df55, 0x316e_8eef, 0x4669_be79]
  }

  function Row11(): (row: seq<bv32>)
    ensures |row| == 16
  {
    [0xcb61_b38c, 0xbc66_831a, 0x256f_d2a0, 0x5268_e236, 0xcc0c_7795, 0xbb0b_4703, 0x2202_16b9, 0x5505_262f,
     0xc5ba_3bbe, 0xb2bd_0b28, 0x2bb4_5a92, 0x5cb3_6a04, 0xc2d7_ffa7, 0xb5d0_cf31, 0x2cd9_9e8b, 0x5bde_ae1d]
  }

  function Row12(): (row: seq<bv32>)
    ensures |row| == 16
  {
    [0x9b64_c2b0, 0xec63_f226, 0x756a_a39c, 0x026d_930a, 0x9c09_06a9, 0xeb0e_363f, 0x7207_6785, 0x0500_5713,
     0x95bf_4a82, 0xe2b8_7a14, 0x7bb1_2bae, 0x0cb6_1b38, 0x92d2_8e9b, 0xe5d5_be0d, 0x7cdc_efb7, 0x0bdb_df21]
  }

  function Row13(): (row: seq<bv32>)
    ensures |row| == 16
  {
    [0x86d3_d2d4, 0xf1d4_e242, 0x68dd_b3f8, 0x1fda_836e, 0x81be_16cd, 0xf6b9_265b, 0x6fb0_77e1, 0x18b7_4777,
     0x8808_5ae6, 0xff0f_6a70, 0x6606_3bca, 0x1101_0b5c, 0x8f65_9eff, 0xf862_ae69, 0x616b_ffd3, 0x166c_cf45]
  }

  function Row14(): (row: seq<bv32>)
    ensures |row| == 16
  {
    [0xa00a_e278, 0xd70d_d2ee, 0x4e04_8354, 0x3903_b3c2, 0xa767_2661, 0xd060_16f7, 0x4969_474d, 0x3e6e_77db,
     0xaed1_6a4a, 0xd9d6_5adc, 0x40df_0b66, 0x37d8_3bf0, 0xa9bc_ae53, 0xdebb_9ec5, 0x47b2_cf7f, 0x30b5_ffe9]
  }

  function Row15(): (row: seq<bv32>)
    ensures |row| == 16
  {
    [0xbdbd_f21c, 0xcaba_c28a, 0x53b3_9330, 0x24b4_a3a6, 0xbad0_3605, 0xcdd7_0693, 0x54de_5729, 0x23d9_67bf,
     0xb366_7a2e, 0xc461_4ab8, 0x5d68_1b02, 0x2a6f_2b94, 0xb40b_be37, 0xc30c_8ea1, 0x5a05_df1b, 0x2d02_ef8d]
  }

  /** Its sixteen entries from 16 * k on. */
  function Row(k: nat): (row: seq<bv32>)
    requires k < 16
    ensures |row| == 16
  {
    match k
    case 0 => Row0()
    case 1 => Row1()
    case 2 => Row2()
    case 3 => Row3()
    case 4 => Row4()
    case 5 => Row5()
    case 6 => Row6()
    case 7 => Row7()
    case 8 => Row8()
    case 9 => Row9()
    case 10 => Row10()
    case 11 => Row11()
    case 12 => Row12()
    case 13 => Row13()
    case 14 => Row14()
    case _ => Row15()
  }

  /** crc_table. */
  function Literal(): (tab: seq<bv32>)
    ensures |tab| == 256
  {
    seq(256, n requires 0 <= n < 256 => Row(n / 16)[n % 16])
  }

  // ------------------------------------------------------------ indices

  function Nibble(j: nat): bv4
    requires j < 16
  {
    match j
    case 0 => 0 case 1 => 1 case 2 => 2 case 3 => 3 case 4 => 4 case 5 => 5 case 6 => 6 case 7 => 7
    case 8 => 8 case 9 => 9 case 10 => 10 case 11 => 11 case 12 => 12 case 13 => 13 case 14 => 14 case _ => 15
  }

  lemma NibbleNumber(j: nat)
    requires j < 16
    ensures Nibble(j) as int == j
  {
  }

  function Low(j: nat): bv32
    requires j < 16
  {
    Nibble(j) as bv32
  }

  function High(k: nat): bv32
    requires k < 16
  {
    (Nibble(k) as bv32) << 4
  }

  lemma TwoNibbles(h: bv4, l: bv4)
    ensures (((h as bv32) << 4) | (l as bv32)) as int == 16 * (h as int) + (l as int)
    ensures ((h as bv32) << 4) | (l as bv32) == ((h as bv32) << 4) ^ (l as bv32)
  {
  }

  lemma IndexNumber(k: nat, j: nat)
    requires k < 16 && j < 16
    ensures Mix(High(k), Low(j)) as int == 16 * k + j
  {
    TwoNibbles(Nibble(k), Nibble(j));
    NibbleNumber(k);
    NibbleNumber(j);
    hide Nibble;
  }

  /** 16 * k + j as a word. */
  lemma Index(k: nat, j: nat)
    requires k < 16 && j < 16
    ensures (16 * k + j) as bv32 == Mix(High(k), Low(j))
  {
    IndexNumber(k, j);
    hide Mix, High, Low;
    Back(Mix(High(k), Low(j)), 16 * k + j);
  }

  lemma Back(z: bv32, n: nat)
    requires z as int == n
    ensures n < 0x1_0000_0000 && n as bv32 == z
  {
  }

  // ------------------------------------------------------------ the rows

  /** The entries of a row are those of the first row, mixed with its first. */
  predicate Mixes(r: seq<bv32>, z: seq<bv32>)
    requires |r| == |z| == 16
  {
       r[0] == Mix(r[0], z[0]) && r[1] == Mix(r[0], z[1]) && r[2] == Mix(r[0], z[2]) && r[3] == Mix(r[0], z[3])
    && r[4] == Mix(r[0], z[4]) && r[5] == Mix(r[0], z[5]) && r[6] == Mix(r[0], z[6]) && r[7] == Mix(r[0], z[7])
    && r[8] == Mix(r[0], z[8]) && r[9] == Mix(r[0], z[9]) && r[10] == Mix(r[0], z[10]) && r[11] == Mix(r[0], z[11])
    && r[12] == Mix(r[0], z[12]) && r[13] == Mix(r[0], z[13]) && r[14] == Mix(r[0], z[14]) && r[15] == Mix(r[0], z[15])
  }

  lemma Mixes1()
    ensures Mixes(Row1(), Row0()) && Row1()[0] == Step8(0x10)
  {
    assert Step8(0x10) == 0x1db7_1064;
    hide Step8;
  }

  lemma Mixes2()
    ensures Mixes(Row2(), Row0()) && Row2()[0] == Step8(0x20)
  {
    assert Step8(0x20) == 0x3b6e_20c8;
    hide Step8;
  }

  lemma Mixes3()
    ensures Mixes(Row3(), Row0()) && Row3()[0] == Step8(0x30)
  {
    assert Step8(0x30) == 0x26d9_30ac;
    hide Step8;
  }

  lemma Mixes4()
    ensures Mixes(Row4(), Row0()) && Row4()[0] == Step8(0x40)
  {
    assert Step8(0x40) == 0x76dc_4190;
    hide Step8;
  }

  lemma Mixes5()
    ensures Mixes(Row5(), Row0()) && Row5()[0] == Step8(0x50)
  {
    assert Step8(0x50) == 0x6b6b_51f4;
    hide Step8;
  }

  lemma Mixes6()
    ensures Mixes(Row6(), Row0()) && Row6()[0] == Step8(0x60)
  {
    assert Step8(0x60) == 0x4db2_6158;
    hide Step8;
  }

  lemma Mixes7()
    ensures Mixes(Row7(), Row0()) && Row7()[0] == Step8(0x70)
  {
    assert Step8(0x70) == 0x5005_713c;
    hide Step8;
  }

  lemma Mixes8()
    ensures Mixes(Row8(), Row0()) && Row8()[0] == Step8(0x80)
  {
    assert Step8(0x80) == 0xedb8_8320;
    hide Step8;
  }

  lemma Mixes9()
    ensures Mixes(Row9(), Row0()) && Row9()[0] == Step8(0x90)
  {
    assert Step8(0x90) == 0xf00f_9344;
    hide Step8;
  }

  lemma Mixes10()
    ensures Mixes(Row10(), Row0()) && Row10()[0] == Step8(0xa0)
  {
    assert Step8(0xa0) == 0xd6d6_a3e8;
    hide Step8;
  }

  lemma Mixes11()
    ensures Mixes(Row11(), Row0()) && Row11()[0] == Step8(0xb0)
  {
    assert Step8(0xb0) == 0xcb61_b38c;
    hide Step8;
  }

  lemma Mixes12()
    ensures Mixes(Row12(), Row0()) && Row12()[0] == Step8(0xc0)
  {
    assert Step8(0xc0) == 0x9b64_c2b0;
    hide Step8;
  }

  lemma Mixes13()
    ensures Mixes(Row13(), Row0()) && Row13()[0] == Step8(0xd0)
  {
    assert Step8(0xd0) == 0x86d3_d2d4;
    hide Step8;
  }

  lemma Mixes14()
    ensures Mixes(Row14(), Row0()) && Row14()[0] == Step8(0xe0)
  {
    assert Step8(0xe0) == 0xa00a_e278;
    hide Step8;
  }

  lemma Mixes15()
    ensures Mixes(Row15(), Row0()) && Row15()[0] == Step8(0xf0)
  {
    assert Step8(0xf0) == 0xbdbd_f21c;
    hide Step8;
  }

  lemma RowMixes(k: nat)
    requires 1 <= k < 16
    ensures Mixes(Row(k), Row0()) && Row(k)[0] == Step8(High(k))
  {
    hide Mixes, Step8, Row0, Row1, Row2, Row3, Row4, Row5, Row6, Row7, Row8, Row9, Row10, Row11, Row12, Row13, Row14, Row15;
    match k
    case 1 => Mixes1();
    case 2 => Mixes2();
    case 3 => Mixes3();
    case 4 => Mixes4();
    case 5 => Mixes5();
    case 6 => Mixes6();
    case 7 => Mixes7();
    case 8 => Mixes8();
    case 9 => Mixes9();
    case 10 => Mixes10();
    case 11 => Mixes11();
    case 12 => Mixes12();
    case 13 => Mixes13();
    case 14 => Mixes14();
    case _ => Mixes15();
  }

  lemma MixesAt(r: seq<bv32>, z: seq<bv32>, j: nat)
    requires |r| == |z| == 16 && j < 16 && Mixes(r, z)
    ensures r[j] == Mix(r[0], z[j])
  {
    hide Mix;
    if j < 4 {
    } else if j < 8 {
    } else if j < 12 {
    }
  }

  predicate LowsAre(z: seq<bv32>)
    requires |z| == 16
  {
       z[0] == Step8(0) && z[1] == Step8(1) && z[2] == Step8(2) && z[3] == Step8(3)
    && z[4] == Step8(4) && z[5] == Step8(5) && z[6] == Step8(6) && z[7] == Step8(7)
    && z[8] == Step8(8) && z[9] == Step8(9) && z[10] == Step8(10) && z[11] == Step8(11)
    && z[12] == Step8(12) && z[13] == Step8(13) && z[14] == Step8(14) && z[15] == Step8(15)
  }

  lemma Lows()
    ensures LowsAre(Row0())
  {
    assert Step8(0) == 0x0000_0000;
    assert Step8(1) == 0x7707_3096;
    assert Step8(2) == 0xee0e_612c;
    assert Step8(3) == 0x9909_51ba;
    assert Step8(4) == 0x076d_c419;
    assert Step8(5) == 0x706a_f48f;
    assert Step8(6) == 0xe963_a535;
    assert Step8(7) == 0x9e64_95a3;
    assert Step8(8) == 0x0edb_8832;
    assert Step8(9) == 0x79dc_b8a4;
    assert Step8(10) == 0xe0d5_e91e;
    assert Step8(11) == 0x97d2_d988;
    assert Step8(12) == 0x09b6_4c2b;
    assert Step8(13) == 0x7eb1_7cbd;
    assert Step8(14) == 0xe7b8_2d07;
    assert Step8(15) == 0x90bf_1d91;
    hide Step8;
  }

  lemma LowEntry(j: nat)
    requires j < 16
    ensures Row0()[j] == Step8(Low(j))
  {
    Lows();
    hide Step8, Row0;
    match j
    case 0 => assert Low(j) == 0;
    case 1 => assert Low(j) == 1;
    case 2 => assert Low(j) == 2;
    case 3 => assert Low(j) == 3;
    case 4 => assert Low(j) == 4;
    case 5 => assert Low(j) == 5;
    case 6 => assert Low(j) == 6;
    case 7 => assert Low(j) == 7;
    case 8 => assert Low(j) == 8;
    case 9 => assert Low(j) == 9;
    case 10 => assert Low(j) == 10;
    case 11 => assert Low(j) == 11;
    case 12 => assert Low(j) == 12;
    case 13 => assert Low(j) == 13;
    case 14 => assert Low(j) == 14;
    case _ => assert Low(j) == 15;
  }

  predicate IsEntry(v: bv32, n: nat)
    requires n < 256
  {
    v == Step8(n as bv32)
  }

  lemma Entry(k: nat, j: nat)
    requires k < 16 && j < 16
    ensures IsEntry(Row(k)[j], 16 * k + j)
  {
    Index(k, j);
    LowEntry(j);
    if k == 0 {
      MixZeroLeft(Low(j));
      assert High(0) == 0;
      hide Row0, Step8, Mix, Low;
    } else {
      RowMixes(k);
      MixesAt(Row(k), Row0(), j);
      Step8Linear(High(k), Low(j));
      hide Row0, Row, Step8, Mix, Low, High, Mixes;
    }
  }

  lemma MixZeroLeft(c: bv32)
    ensures Mix(0, c) == c
  {
  }

  /** The literal table is the computed one, so crc32 needs no computed table. */
  lemma LiteralIsTable()
    ensures IsTable(Literal())
  {
    hide Step8, Row;
    forall n | 0 <= n < 256
      ensures IsEntry(Literal()[n], n)
    {
      Entry(n / 16, n % 16);
      assert 16 * (n / 16) + n % 16 == n;
    }
  }

  /** crc32 with the table as built in. */
  method Crc32BuiltIn(crc: bv32, buf: seq<bv8>, addr: nat) returns (r: bv32)
    ensures r == Crc(crc, buf)
  {
    LiteralIsTable();
    hide IsTable, Literal, Crc;
    r := ComputeCrc32(Literal(), crc, buf, addr);
  }
}
