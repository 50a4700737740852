// The CRC-32C of a few short strings, worked out one byte at a time.
module CrcSamples {
  import opened CrcSpec
  import opened CrcAlgebra
  import opened Names

  // "a", "a_01" and "a.part".
  const A: seq<bv8> := [0x61]
  const A_01: seq<bv8> := [0x61, 0x5F, 0x30, 0x31]
  const A_PART: seq<bv8> := [0x61, 0x2E, 0x70, 0x61, 0x72, 0x74]

  // "small", "small-", "small-a." and "small-a.txt".
  const SMALL: seq<bv8> := [0x73, 0x6D, 0x61, 0x6C, 0x6C]
  const SMALL_DASH: seq<bv8> := SMALL + [0x2D]
  const SMALL_A: seq<bv8> := SMALL_DASH + [0x61, 0x2E]
  const SMALL_A_TXT: seq<bv8> := SMALL_A + [0x74, 0x78, 0x74]
  const ABCD: seq<bv8> := [0x61, 0x62, 0x63, 0x64]

  // The register that data leaves under the mirrored generator poly.
  ghost predicate Leaves(poly: bv32, data: seq<bv8>, reg: bv32) {
    FeedBytes(poly, ALL_ONES, data) == reg
  }

  lemma LeavesNone(poly: bv32)
    ensures Leaves(poly, [], 0xFFFF_FFFF)
  {
  }

  lemma LeavesNext(poly: bv32, data: seq<bv8>, reg: bv32, b: bv8, entered: bv32, whole: seq<bv8>, next: bv32)
    requires whole == data + [b]
    requires Leaves(poly, data, reg) && entered == reg ^ (b as bv32) && next == Eight(poly, entered)
    ensures Leaves(poly, whole, next)
  {
    hide FeedBytes;
    hide Eight;
    hide Steps;
    hide ALL_ONES;
    FeedBytesConcat(poly, ALL_ONES, data, [b]);
    FeedSingle(poly, reg, b);
    EightIsSteps(poly, entered);
  }

  lemma LeavesTells(a: seq<bv8>, b: seq<bv8>, x: bv32, y: bv32)
    requires Leaves(POLY, a, x) && Leaves(POLY, b, y) && x != y
    ensures BitSerialCrc(CASTAGNOLI, a) != BitSerialCrc(CASTAGNOLI, b)
  {
    hide FeedBytes;
    hide Mirror;
    hide BitSerialCrc;
    MirrorConstants();
    FoldIsBitSerial(CASTAGNOLI, POLY, a);
    FoldIsBitSerial(CASTAGNOLI, POLY, b);
  }

  lemma LeavesA()
    ensures Leaves(POLY, A, 0x3E2F_BCCF)
  {
    hide Leaves;
    LeavesNone(POLY);
    LeavesNext(POLY, [], 0xFFFF_FFFF, 0x61, 0xFFFF_FF9E, A, 0x3E2F_BCCF);
  }

  lemma LeavesA_01()
    ensures Leaves(POLY, A_01, 0x6FFE_2A22)
  {
    hide Leaves;
    LeavesA();
    LeavesNext(POLY, A, 0x3E2F_BCCF, 0x5F, 0x3E2F_BC90, [0x61, 0x5F], 0x9296_D3AB);
    LeavesNext(POLY, [0x61, 0x5F], 0x9296_D3AB, 0x30, 0x9296_D39B, [0x61, 0x5F, 0x30], 0x0BB3_C1FF);
    LeavesNext(POLY, [0x61, 0x5F, 0x30], 0x0BB3_C1FF, 0x31, 0x0BB3_C1CE, A_01, 0x6FFE_2A22);
  }

  lemma LeavesA_Part()
    ensures Leaves(POLY, A_PART, 0xBA24_4EBD)
  {
    hide Leaves;
    LeavesA();
    LeavesNext(POLY, A, 0x3E2F_BCCF, 0x2E, 0x3E2F_BCE1, [0x61, 0x2E], 0x1165_04A5);
    LeavesNext(POLY, [0x61, 0x2E], 0x1165_04A5, 0x70, 0x1165_04D5, [0x61, 0x2E, 0x70], 0xE633_90B3);
    LeavesNext(POLY, [0x61, 0x2E, 0x70], 0xE633_90B3, 0x61, 0xE633_90D2, [0x61, 0x2E, 0x70, 0x61], 0x320E_A2CC);
    LeavesNext(POLY, [0x61, 0x2E, 0x70, 0x61], 0x320E_A2CC, 0x72, 0x320E_A2BE,
               [0x61, 0x2E, 0x70, 0x61, 0x72], 0x1E5F_C34C);
    LeavesNext(POLY, [0x61, 0x2E, 0x70, 0x61, 0x72], 0x1E5F_C34C, 0x74, 0x1E5F_C338, A_PART, 0xBA24_4EBD);
  }

  // Different strings here, different checksums.
  lemma SamplesDiffer()
    ensures BitSerialCrc(CASTAGNOLI, []) != BitSerialCrc(CASTAGNOLI, A)
    ensures BitSerialCrc(CASTAGNOLI, A) != BitSerialCrc(CASTAGNOLI, A_01)
    ensures BitSerialCrc(CASTAGNOLI, []) != BitSerialCrc(CASTAGNOLI, A_PART)
    ensures BitSerialCrc(CASTAGNOLI, A_PART) != BitSerialCrc(CASTAGNOLI, A)
  {
    hide *;
    LeavesNone(POLY);
    LeavesA();
    LeavesA_01();
    LeavesA_Part();
    LeavesTells([], A, 0xFFFF_FFFF, 0x3E2F_BCCF);
    LeavesTells(A, A_01, 0x3E2F_BCCF, 0x6FFE_2A22);
    LeavesTells([], A_PART, 0xFFFF_FFFF, 0xBA24_4EBD);
    LeavesTells(A_PART, A, 0xBA24_4EBD, 0x3E2F_BCCF);
  }

  lemma LeavesSmall()
    ensures Leaves(POLY, SMALL, 0x8122_06B6)
  {
    hide Leaves;
    LeavesNone(POLY);
    LeavesNext(POLY, [], 0xFFFF_FFFF, 0x73, 0xFFFF_FF8C, [0x73], 0xCF4A_0B57);
    LeavesNext(POLY, [0x73], 0xCF4A_0B57, 0x6D, 0xCF4A_0B3A, [0x73, 0x6D], 0x5BCE_2B82);
    LeavesNext(POLY, [0x73, 0x6D], 0x5BCE_2B82, 0x61, 0x5BCE_2BE3, [0x73, 0x6D, 0x61], 0xF03B_95C5);
    LeavesNext(POLY, [0x73, 0x6D, 0x61], 0xF03B_95C5, 0x6C, 0xF03B_95A9, [0x73, 0x6D, 0x61, 0x6C], 0xDA09_55FF);
    LeavesNext(POLY, [0x73, 0x6D, 0x61, 0x6C], 0xDA09_55FF, 0x6C, 0xDA09_5593, SMALL, 0x8122_06B6);
  }

  lemma LeavesSmallA()
    ensures Leaves(POLY, SMALL_DASH, 0x0BA0_752A) && Leaves(POLY, SMALL_A, 0x9E48_D76D)
  {
    hide Leaves;
    LeavesSmall();
    hide SMALL;
    LeavesNext(POLY, SMALL, 0x8122_06B6, 0x2D, 0x8122_069B, SMALL_DASH, 0x0BA0_752A);
    LeavesNext(POLY, SMALL_DASH, 0x0BA0_752A, 0x61, 0x0BA0_754B, SMALL_DASH + [0x61], 0xD8F9_16F2);
    LeavesNext(POLY, SMALL_DASH + [0x61], 0xD8F9_16F2, 0x2E, 0xD8F9_16DC, SMALL_A, 0x9E48_D76D);
  }

  lemma LeavesSmallATxt()
    ensures Leaves(POLY, SMALL_A_TXT, 0xF323_44C8)
  {
    hide Leaves;
    LeavesSmallA();
    hide SMALL_A;
    LeavesNext(POLY, SMALL_A, 0x9E48_D76D, 0x74, 0x9E48_D719, SMALL_A + [0x74], 0x6872_5474);
    LeavesNext(POLY, SMALL_A + [0x74], 0x6872_5474, 0x78, 0x6872_540C, SMALL_A + [0x74, 0x78], 0x4D2B_BD84);
    LeavesNext(POLY, SMALL_A + [0x74, 0x78], 0x4D2B_BD84, 0x74, 0x4D2B_BDF0, SMALL_A_TXT, 0xF323_44C8);
  }

  lemma LeavesAbcd(poly: bv32)
    requires poly == 0xEDB8_8320
    ensures Leaves(poly, ABCD, 0x127D_32EE)
  {
    hide Leaves;
    LeavesNone(poly);
    LeavesNext(poly, [], 0xFFFF_FFFF, 0x61, 0xFFFF_FF9E, [0x61], 0x1748_41BC);
    LeavesNext(poly, [0x61], 0x1748_41BC, 0x62, 0x1748_41DE, [0x61, 0x62], 0x617C_B792);
    LeavesNext(poly, [0x61, 0x62], 0x617C_B792, 0x63, 0x617C_B7F1, [0x61, 0x62, 0x63], 0xCADB_BE3D);
    LeavesNext(poly, [0x61, 0x62, 0x63], 0xCADB_BE3D, 0x64, 0xCADB_BE59, ABCD, 0x127D_32EE);
  }

  lemma LeavesValue(generator: bv32, poly: bv32, data: seq<bv8>, reg: bv32, crc: bv32)
    requires poly == Mirror(generator) && Leaves(poly, data, reg) && crc == reg ^ ALL_ONES
    ensures BitSerialCrc(generator, data) == crc
  {
    hide FeedBytes;
    hide Mirror;
    hide BitSerialCrc;
    FoldIsBitSerial(generator, poly, data);
  }

  // The values that test/hash.c expects.
  lemma SampleCrcs()
    ensures BitSerialCrc(CASTAGNOLI, SMALL) == 0x7EDD_F949
    ensures BitSerialCrc(CASTAGNOLI, SMALL_DASH) == 0xF45F_8AD5
    ensures BitSerialCrc(CASTAGNOLI, SMALL_A) == 0x61B7_2892
    ensures BitSerialCrc(CASTAGNOLI, SMALL_A_TXT) == 0x0CDC_BB37
    ensures BitSerialCrc(ETHERNET, ABCD) == 0xED82_CD11
  {
    hide Leaves;
    hide Mirror;
    hide BitSerialCrc;
    hide SMALL_A_TXT;
    MirrorConstants();
    LeavesSmall();
    LeavesSmallA();
    LeavesSmallATxt();
    LeavesAbcd(0xEDB8_8320);
    LeavesValue(CASTAGNOLI, POLY, SMALL, 0x8122_06B6, 0x7EDD_F949);
    LeavesValue(CASTAGNOLI, POLY, SMALL_DASH, 0x0BA0_752A, 0xF45F_8AD5);
    LeavesValue(CASTAGNOLI, POLY, SMALL_A, 0x9E48_D76D, 0x61B7_2892);
    LeavesValue(CASTAGNOLI, POLY, SMALL_A_TXT, 0xF323_44C8, 0x0CDC_BB37);
    LeavesValue(ETHERNET, 0xEDB8_8320, ABCD, 0x127D_32EE, 0xED82_CD11);
  }

  lemma NumberIs(x: bv32, b0: bv8, b1: bv8, b2: bv8, b3: bv8)
    requires Byte0(x) == b0 && Byte1(x) == b1 && Byte2(x) == b2 && Byte3(x) == b3
    ensures Number(x) == (b3 as int) * 0x100_0000 + (b2 as int) * 0x1_0000 + (b1 as int) * 0x100 + (b0 as int)
  {
    hide Byte0;
    hide Byte1;
    hide Byte2;
    hide Byte3;
  }

  // ... as the numbers it expects.
  lemma SampleHashes()
    ensures Crc(SMALL) == 2128476489 && Crc(SMALL_DASH) == 4099902165
    ensures Crc(SMALL_A) == 1639393426 && Crc(SMALL_A_TXT) == 215792439
  {
    SampleCrcs();
    hide BitSerialCrc;
    hide SMALL_A_TXT;
    NumberIs(0x7EDD_F949, 0x49, 0xF9, 0xDD, 0x7E);
    NumberIs(0xF45F_8AD5, 0xD5, 0x8A, 0x5F, 0xF4);
    NumberIs(0x61B7_2892, 0x92, 0x28, 0xB7, 0x61);
    NumberIs(0x0CDC_BB37, 0x37, 0xBB, 0xDC, 0x0C);
    hide Number;
  }
}
