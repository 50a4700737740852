// nftp_crc32 of src/hash.c: a table of 256 constants, and a loop unrolled eight times.
module Crc32Code {
  import opened CrcSpec
  import opened CrcAlgebra
  import opened CrcSlicing

  // The reflected form of the ETHERNET polynomial.
  const POLY: bv32 := 0xEDB8_8320

  // crc32_table, sixteen entries at a time.
  function Row0(b: bv8): (entry: bv32)
    requires b <= 0x0F
    ensures entry == Eight(POLY, b as bv32)
  {
    match b
    case 0x00 => 0x00000000 case 0x01 => 0x77073096 case 0x02 => 0xEE0E612C case 0x03 => 0x990951BA
    case 0x04 => 0x076DC419 case 0x05 => 0x706AF48F case 0x06 => 0xE963A535 case 0x07 => 0x9E6495A3
    case 0x08 => 0x0EDB8832 case 0x09 => 0x79DCB8A4 case 0x0A => 0xE0D5E91E case 0x0B => 0x97D2D988
    case 0x0C => 0x09B64C2B case 0x0D => 0x7EB17CBD case 0x0E => 0xE7B82D07 case 0x0F => 0x90BF1D91
  }

  function Row1(b: bv8): (entry: bv32)
    requires 0x10 <= b <= 0x1F
    ensures entry == Eight(POLY, b as bv32)
  {
    match b
    case 0x10 => 0x1DB71064 case 0x11 => 0x6AB020F2 case 0x12 => 0xF3B97148 case 0x13 => 0x84BE41DE
    case 0x14 => 0x1ADAD47D case 0x15 => 0x6DDDE4EB case 0x16 => 0xF4D4B551 case 0x17 => 0x83D385C7
    case 0x18 => 0x136C9856 case 0x19 => 0x646BA8C0 case 0x1A => 0xFD62F97A case 0x1B => 0x8A65C9EC
    case 0x1C => 0x14015C4F case 0x1D => 0x63066CD9 case 0x1E => 0xFA0F3D63 case 0x1F => 0x8D080DF5
  }

  function Row2(b: bv8): (entry: bv32)
    requires 0x20 <= b <= 0x2F
    ensures entry == Eight(POLY, b as bv32)
  {
    match b
    case 0x20 => 0x3B6E20C8 case 0x21 => 0x4C69105E case 0x22 => 0xD56041E4 case 0x23 => 0xA2677172
    case 0x24 => 0x3C03E4D1 case 0x25 => 0x4B04D447 case 0x26 => 0xD20D85FD case 0x27 => 0xA50AB56B
    case 0x28 => 0x35B5A8FA case 0x29 => 0x42B2986C case 0x2A => 0xDBBBC9D6 case 0x2B => 0xACBCF940
    case 0x2C => 0x32D86CE3 case 0x2D => 0x45DF5C75 case 0x2E => 0xDCD60DCF case 0x2F => 0xABD13D59
  }

  function Row3(b: bv8): (entry: bv32)
    requires 0x30 <= b <= 0x3F
    ensures entry == Eight(POLY, b as bv32)
  {
    match b
    case 0x30 => 0x26D930AC case 0x31 => 0x51DE003A case 0x32 => 0xC8D75180 case 0x33 => 0xBFD06116
    case 0x34 => 0x21B4F4B5 case 0x35 => 0x56B3C423 case 0x36 => 0xCFBA9599 case 0x37 => 0xB8BDA50F
    case 0x38 => 0x2802B89E case 0x39 => 0x5F058808 case 0x3A => 0xC60CD9B2 case 0x3B => 0xB10BE924
    case 0x3C => 0x2F6F7C87 case 0x3D => 0x58684C11 case 0x3E => 0xC1611DAB case 0x3F => 0xB6662D3D
  }

  function Row4(b: bv8): (entry: bv32)
    requires 0x40 <= b <= 0x4F
    ensures entry == Eight(POLY, b as bv32)
  {
    match b
    case 0x40 => 0x76DC4190 case 0x41 => 0x01DB7106 case 0x42 => 0x98D220BC case 0x43 => 0xEFD5102A
    case 0x44 => 0x71B18589 case 0x45 => 0x06B6B51F case 0x46 => 0x9FBFE4A5 case 0x47 => 0xE8B8D433
    case 0x48 => 0x7807C9A2 case 0x49 => 0x0F00F934 case 0x4A => 0x9609A88E case 0x4B => 0xE10E9818
    case 0x4C => 0x7F6A0DBB case 0x4D => 0x086D3D2D case 0x4E => 0x91646C97 case 0x4F => 0xE6635C01
  }

  function Row5(b: bv8): (entry: bv32)
    requires 0x50 <= b <= 0x5F
    ensures entry == Eight(POLY, b as bv32)
  {
    match b
    case 0x50 => 0x6B6B51F4 case 0x51 => 0x1C6C6162 case 0x52 => 0x856530D8 case 0x53 => 0xF262004E
    case 0x54 => 0x6C0695ED case 0x55 => 0x1B01A57B case 0x56 => 0x8208F4C1 case 0x57 => 0xF50FC457
    case 0x58 => 0x65B0D9C6 case 0x59 => 0x12B7E950 case 0x5A => 0x8BBEB8EA case 0x5B => 0xFCB9887C
    case 0x5C => 0x62DD1DDF case 0x5D => 0x15DA2D49 case 0x5E => 0x8CD37CF3 case 0x5F => 0xFBD44C65
  }

  function Row6(b: bv8): (entry: bv32)
    requires 0x60 <= b <= 0x6F
    ensures entry == Eight(POLY, b as bv32)
  {
    match b
    case 0x60 => 0x4DB26158 case 0x61 => 0x3AB551CE case 0x62 => 0xA3BC0074 case 0x63 => 0xD4BB30E2
    case 0x64 => 0x4ADFA541 case 0x65 => 0x3DD895D7 case 0x66 => 0xA4D1C46D case 0x67 => 0xD3D6F4FB
    case 0x68 => 0x4369E96A case 0x69 => 0x346ED9FC case 0x6A => 0xAD678846 case 0x6B => 0xDA60B8D0
    case 0x6C => 0x44042D73 case 0x6D => 0x33031DE5 case 0x6E => 0xAA0A4C5F case 0x6F => 0xDD0D7CC9
  }

  function Row7(b: bv8): (entry: bv32)
    requires 0x70 <= b <= 0x7F
    ensures entry == Eight(POLY, b as bv32)
  {
    match b
    case 0x70 => 0x5005713C case 0x71 => 0x270241AA case 0x72 => 0xBE0B1010 case 0x73 => 0xC90C2086
    case 0x74 => 0x5768B525 case 0x75 => 0x206F85B3 case 0x76 => 0xB966D409 case 0x77 => 0xCE61E49F
    case 0x78 => 0x5EDEF90E case 0x79 => 0x29D9C998 case 0x7A => 0xB0D09822 case 0x7B => 0xC7D7A8B4
    case 0x7C => 0x59B33D17 case 0x7D => 0x2EB40D81 case 0x7E => 0xB7BD5C3B case 0x7F => 0xC0BA6CAD
  }

  function Row8(b: bv8): (entry: bv32)
    requires 0x80 <= b <= 0x8F
    ensures entry == Eight(POLY, b as bv32)
  {
    match b
    case 0x80 => 0xEDB88320 case 0x81 => 0x9ABFB3B6 case 0x82 => 0x03B6E20C case 0x83 => 0x74B1D29A
    case 0x84 => 0xEAD54739 case 0x85 => 0x9DD277AF case 0x86 => 0x04DB2615 case 0x87 => 0x73DC1683
    case 0x88 => 0xE3630B12 case 0x89 => 0x94643B84 case 0x8A => 0x0D6D6A3E case 0x8B => 0x7A6A5AA8
    case 0x8C => 0xE40ECF0B case 0x8D => 0x9309FF9D case 0x8E => 0x0A00AE27 case 0x8F => 0x7D079EB1
  }

  function Row9(b: bv8): (entry: bv32)
    requires 0x90 <= b <= 0x9F
    ensures entry == Eight(POLY, b as bv32)
  {
    match b
    case 0x90 => 0xF00F9344 case 0x91 => 0x8708A3D2 case 0x92 => 0x1E01F268 case 0x93 => 0x6906C2FE
    case 0x94 => 0xF762575D case 0x95 => 0x806567CB case 0x96 => 0x196C3671 case 0x97 => 0x6E6B06E7
    case 0x98 => 0xFED41B76 case 0x99 => 0x89D32BE0 case 0x9A => 0x10DA7A5A case 0x9B => 0x67DD4ACC
    case 0x9C => 0xF9B9DF6F case 0x9D => 0x8EBEEFF9 case 0x9E => 0x17B7BE43 case 0x9F => 0x60B08ED5
  }

  function Row10(b: bv8): (entry: bv32)
    requires 0xA0 <= b <= 0xAF
    ensures entry == Eight(POLY, b as bv32)
  {
    match b
    case 0xA0 => 0xD6D6A3E8 case 0xA1 => 0xA1D1937E case 0xA2 => 0x38D8C2C4 case 0xA3 => 0x4FDFF252
    case 0xA4 => 0xD1BB67F1 case 0xA5 => 0xA6BC5767 case 0xA6 => 0x3FB506DD case 0xA7 => 0x48B2364B
    case 0xA8 => 0xD80D2BDA case 0xA9 => 0xAF0A1B4C case 0xAA => 0x36034AF6 case 0xAB => 0x41047A60
    case 0xAC => 0xDF60EFC3 case 0xAD => 0xA867DF55 case 0xAE => 0x316E8EEF case 0xAF => 0x4669BE79
  }

  function Row11(b: bv8): (entry: bv32)
    requires 0xB0 <= b <= 0xBF
    ensures entry == Eight(POLY, b as bv32)
  {
    match b
    case 0xB0 => 0xCB61B38C case 0xB1 => 0xBC66831A case 0xB2 => 0x256FD2A0 case 0xB3 => 0x5268E236
    case 0xB4 => 0xCC0C7795 case 0xB5 => 0xBB0B4703 case 0xB6 => 0x220216B9 case 0xB7 => 0x5505262F
    case 0xB8 => 0xC5BA3BBE case 0xB9 => 0xB2BD0B28 case 0xBA => 0x2BB45A92 case 0xBB => 0x5CB36A04
    case 0xBC => 0xC2D7FFA7 case 0xBD => 0xB5D0CF31 case 0xBE => 0x2CD99E8B case 0xBF => 0x5BDEAE1D
  }

  function Row12(b: bv8): (entry: bv32)
    requires 0xC0 <= b <= 0xCF
    ensures entry == Eight(POLY, b as bv32)
  {
    match b
    case 0xC0 => 0x9B64C2B0 case 0xC1 => 0xEC63F226 case 0xC2 => 0x756AA39C case 0xC3 => 0x026D930A
    case 0xC4 => 0x9C0906A9 case 0xC5 => 0xEB0E363F case 0xC6 => 0x72076785 case 0xC7 => 0x05005713
    case 0xC8 => 0x95BF4A82 case 0xC9 => 0xE2B87A14 case 0xCA => 0x7BB12BAE case 0xCB => 0x0CB61B38
    case 0xCC => 0x92D28E9B case 0xCD => 0xE5D5BE0D case 0xCE => 0x7CDCEFB7 case 0xCF => 0x0BDBDF21
  }

  function Row13(b: bv8): (entry: bv32)
    requires 0xD0 <= b <= 0xDF
    ensures entry == Eight(POLY, b as bv32)
  {
    match b
    case 0xD0 => 0x86D3D2D4 case 0xD1 => 0xF1D4E242 case 0xD2 => 0x68DDB3F8 case 0xD3 => 0x1FDA836E
    case 0xD4 => 0x81BE16CD case 0xD5 => 0xF6B9265B case 0xD6 => 0x6FB077E1 case 0xD7 => 0x18B74777
    case 0xD8 => 0x88085AE6 case 0xD9 => 0xFF0F6A70 case 0xDA => 0x66063BCA case 0xDB => 0x11010B5C
    case 0xDC => 0x8F659EFF case 0xDD => 0xF862AE69 case 0xDE => 0x616BFFD3 case 0xDF => 0x166CCF45
  }

  function Row14(b: bv8): (entry: bv32)
    requires 0xE0 <= b <= 0xEF
    ensures entry == Eight(POLY, b as bv32)
  {
    match b
    case 0xE0 => 0xA00AE278 case 0xE1 => 0xD70DD2EE case 0xE2 => 0x4E048354 case 0xE3 => 0x3903B3C2
    case 0xE4 => 0xA7672661 case 0xE5 => 0xD06016F7 case 0xE6 => 0x4969474D case 0xE7 => 0x3E6E77DB
    case 0xE8 => 0xAED16A4A case 0xE9 => 0xD9D65ADC case 0xEA => 0x40DF0B66 case 0xEB => 0x37D83BF0
    case 0xEC => 0xA9BCAE53 case 0xED => 0xDEBB9EC5 case 0xEE => 0x47B2CF7F case 0xEF => 0x30B5FFE9
  }

  function Row15(b: bv8): (entry: bv32)
    requires 0xF0 <= b
    ensures entry == Eight(POLY, b as bv32)
  {
    match b
    case 0xF0 => 0xBDBDF21C case 0xF1 => 0xCABAC28A case 0xF2 => 0x53B39330 case 0xF3 => 0x24B4A3A6
    case 0xF4 => 0xBAD03605 case 0xF5 => 0xCDD70693 case 0xF6 => 0x54DE5729 case 0xF7 => 0x23D967BF
    case 0xF8 => 0xB3667A2E case 0xF9 => 0xC4614AB8 case 0xFA => 0x5D681B02 case 0xFB => 0x2A6F2B94
    case 0xFC => 0xB40BBE37 case 0xFD => 0xC30C8EA1 case 0xFE => 0x5A05DF1B case 0xFF => 0x2D02EF8D
  }

  // crc32_table: every constant is what bit-wise division of its index leaves.
  function Table(b: bv8): (entry: bv32)
    ensures entry == Eight(POLY, b as bv32)
  {
    if b <= 0x0F then Row0(b)
    else if b <= 0x1F then Row1(b)
    else if b <= 0x2F then Row2(b)
    else if b <= 0x3F then Row3(b)
    else if b <= 0x4F then Row4(b)
    else if b <= 0x5F then Row5(b)
    else if b <= 0x6F then Row6(b)
    else if b <= 0x7F then Row7(b)
    else if b <= 0x8F then Row8(b)
    else if b <= 0x9F then Row9(b)
    else if b <= 0xAF then Row10(b)
    else if b <= 0xBF then Row11(b)
    else if b <= 0xCF then Row12(b)
    else if b <= 0xDF then Row13(b)
    else if b <= 0xEF then Row14(b)
    else Row15(b)
  }

  // One look-up and shift takes in one byte.
  method OneByte(crc: bv32, b: bv8) returns (next: bv32)
    ensures next == FeedByte(POLY, crc, b)
  {
    hide Eight;
    hide Table;
    hide Steps;
    hide Lane;
    hide Shift8;
    hide Sum;
    var lane := Lane(crc, b);
    next := Add(Table(lane), Shift8(crc));
    EightIsSteps(POLY, lane as bv32);
    FeedByteLane(POLY, crc, b);
    SumElim(FeedByte(POLY, crc, b), Steps(POLY, lane as bv32, 8), Shift8(crc));
  }

  // The unrolled body of the loop.
  method EightBytes(crc: bv32, d: seq<bv8>) returns (next: bv32)
    requires |d| == 8
    ensures next == FeedBytes(POLY, crc, d)
  {
    hide FeedByte;
    FeedNext(crc, d);
    next := OneByte(crc, d[0]);
    FeedNext(next, d[1..]);
    next := OneByte(next, d[1]);
    FeedNext(next, d[2..]);
    next := OneByte(next, d[2]);
    FeedNext(next, d[3..]);
    next := OneByte(next, d[3]);
    FeedNext(next, d[4..]);
    next := OneByte(next, d[4]);
    FeedNext(next, d[5..]);
    next := OneByte(next, d[5]);
    FeedNext(next, d[6..]);
    next := OneByte(next, d[6]);
    FeedNext(next, d[7..]);
    next := OneByte(next, d[7]);
  }

  lemma FeedNext(c: bv32, d: seq<bv8>)
    requires d != []
    ensures FeedBytes(POLY, c, d) == FeedBytes(POLY, FeedByte(POLY, c, d[0]), d[1..])
    ensures FeedBytes(POLY, c, []) == c
  {
  }

  // nftp_crc32
  method Checksum(data: seq<bv8>) returns (crc: bv32)
    ensures crc == BitSerialCrc(ETHERNET, data)
  {
    hide FeedByte;
    hide FeedBytes;
    hide BitSerialCrc;
    hide Mirror;
    crc := ALL_ONES;
    var i := 0;
    FeedStart(data);
    while |data| - i >= 8
      invariant 0 <= i <= |data| && crc == FeedBytes(POLY, ALL_ONES, data[..i])
    {
      FeedOn(POLY, ALL_ONES, data, i, i + 8);
      crc := EightBytes(crc, data[i..i + 8]);
      i := i + 8;
    }
    while i < |data|
      invariant 0 <= i <= |data| && crc == FeedBytes(POLY, ALL_ONES, data[..i])
    {
      FeedOn(POLY, ALL_ONES, data, i, i + 1);
      FeedSingle(POLY, crc, data[i]);
      assert data[i..i + 1] == [data[i]];
      crc := OneByte(crc, data[i]);
      i := i + 1;
    }
    assert data[..i] == data;
    crc := crc ^ ALL_ONES;
    MirrorConstants();
    FoldIsBitSerial(ETHERNET, POLY, data);
  }

  lemma FeedStart(data: seq<bv8>)
    ensures FeedBytes(POLY, ALL_ONES, data[..0]) == ALL_ONES
  {
  }
}
