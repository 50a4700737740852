// The messages byte by byte: type codes as numbers, fields at their places, numbers most significant byte first.
module WireFormat {
  import opened Bytes
  import opened Messages

  // Two and four bytes of v from position at on are the digits of u in base 256, the highest first.
  ghost predicate Digits16(v: seq<Byte>, at: nat, u: int) {
    at + 2 <= |v| && v[at] as int == u / 0x100 && v[at + 1] as int == u % 0x100
  }

  ghost predicate Digits32(v: seq<Byte>, at: nat, u: int) {
    && at + 4 <= |v|
    && v[at] as int == u / 0x100_0000 && v[at + 1] as int == u / 0x1_0000 % 0x100
    && v[at + 2] as int == u / 0x100 % 0x100 && v[at + 3] as int == u % 0x100
  }

  lemma StandsDigits16(u: u16, v: seq<Byte>, at: nat)
    requires StandsAt(Put16(u), v, at)
    ensures Digits16(v, at, u)
  {
    hide Put16;
    Put16Digits(u);
    assert v[at] == v[at..at + 2][0] && v[at + 1] == v[at..at + 2][1];
  }

  lemma StandsDigits32(u: u32, v: seq<Byte>, at: nat)
    requires StandsAt(Put32(u), v, at)
    ensures Digits32(v, at, u)
  {
    hide Put32;
    Put32Digits(u);
    var x := v[at..at + 4];
    assert v[at] == x[0] && v[at + 1] == x[1] && v[at + 2] == x[2] && v[at + 3] == x[3];
  }

  lemma HeadDigits(kind: Byte, len: u32, body: seq<Byte>)
    ensures var v := [kind] + Put32(len) + body; v[0] == kind && Digits32(v, 1, len)
  {
    hide Put32;
    var v := [kind] + Put32(len) + body;
    assert StandsAt(Put32(len), v, 1);
    StandsDigits32(len, v, 1);
  }

  lemma HelloPieces(m: Message)
    requires m.Hello? && Encodable(m)
    ensures var v, n := Wire(m), |m.fname|;
            && |v| == 14 + n && v[0] == 0x01 && v[5] == m.id && v[10..10 + n] == m.fname
            && StandsAt(Put32(14 + n), v, 1) && StandsAt(Put16(m.blocks), v, 6) && StandsAt(Put16(n), v, 8)
            && StandsAt(Put32(m.hashcode), v, 10 + n)
  {
    hide Put16;
    hide Put32;
    hide Get16;
    hide Get32;
    HelloFields(m);
    var v, n := Wire(m), |m.fname|;
    assert v[5] == m.id && v[10..10 + n] == m.fname;
    assert StandsAt(Put32(14 + n), v, 1);
    assert StandsAt(Put16(m.blocks), v, 6);
    assert StandsAt(Put16(n), v, 8);
    assert StandsAt(Put32(m.hashcode), v, 10 + n);
  }

  // What a stream of each type looks like.
  lemma HelloImage(id: Byte, blocks: u16, fname: seq<Byte>, hashcode: u32)
    requires |fname| < 0x1_0000
    ensures var v, n := Wire(Hello(id, blocks, fname, hashcode)), |fname|;
            && |v| == 14 + n && v[0] == 0x01 && Digits32(v, 1, 14 + n) && v[5] == id
            && Digits16(v, 6, blocks) && Digits16(v, 8, n) && v[10..10 + n] == fname && Digits32(v, 10 + n, hashcode)
  {
    hide Put16;
    hide Put32;
    hide Digits16;
    hide Digits32;
    hide Wire;
    hide StandsAt;
    var m := Hello(id, blocks, fname, hashcode);
    var v, n := Wire(m), |fname|;
    HelloPieces(m);
    StandsDigits32(14 + n, v, 1);
    StandsDigits16(blocks, v, 6);
    StandsDigits16(n, v, 8);
    StandsDigits32(hashcode, v, 10 + n);
  }

  lemma AckImage(id: Byte, fileid: u32)
    ensures var v := Wire(Ack(id, fileid));
            |v| == 10 && v[0] == 0x02 && Digits32(v, 1, 10) && v[5] == id && Digits32(v, 6, fileid)
  {
    hide Put32;
    hide Digits32;
    var v := Wire(Ack(id, fileid));
    StandsDigits32(10, v, 1);
    StandsDigits32(fileid, v, 6);
  }

  lemma BlockImage(last: bool, fileid: u32, blockseq: u16, content: seq<Byte>)
    requires |content| + 15 < 0x1_0000_0000
    ensures var v, n := Wire(Block(last, fileid, blockseq, content)), |content|;
            && |v| == 15 + n && v[0] == (if last then 0x04 else 0x03) && Digits32(v, 1, 15 + n)
            && Digits32(v, 5, fileid) && Digits16(v, 9, blockseq) && Digits32(v, 11, n) && v[15..] == content
  {
    hide Put16;
    hide Put32;
    hide Digits16;
    hide Digits32;
    var v, n := Wire(Block(last, fileid, blockseq, content)), |content|;
    StandsDigits32(15 + n, v, 1);
    StandsDigits32(fileid, v, 5);
    StandsDigits16(blockseq, v, 9);
    StandsDigits32(n, v, 11);
  }

  lemma GivemeImage(fileid: u32, blockseq: u16)
    ensures var v := Wire(Giveme(fileid, blockseq));
            |v| == 11 && v[0] == 0x05 && Digits32(v, 1, 11) && Digits32(v, 5, fileid) && Digits16(v, 9, blockseq)
  {
    hide Put16;
    hide Put32;
    hide Digits16;
    hide Digits32;
    var v := Wire(Giveme(fileid, blockseq));
    StandsDigits32(11, v, 1);
    StandsDigits32(fileid, v, 5);
    StandsDigits16(blockseq, v, 9);
  }

  // The numbers that two and four bytes stand for.
  ghost function Number16(v: seq<Byte>, at: nat): int
    requires at + 2 <= |v|
  {
    (v[at] as int) * 0x100 + (v[at + 1] as int)
  }

  ghost function Number32(v: seq<Byte>, at: nat): int
    requires at + 4 <= |v|
  {
    (v[at] as int) * 0x100_0000 + (v[at + 1] as int) * 0x1_0000 + (v[at + 2] as int) * 0x100 + (v[at + 3] as int)
  }

  lemma Get16Reads(v: seq<Byte>, at: nat)
    requires at + 2 <= |v|
    ensures Get16(v, at) == Number16(v, at)
  {
  }

  lemma Get32Reads(v: seq<Byte>, at: nat)
    requires at + 4 <= |v|
    ensures Get32(v, at) == Number32(v, at)
  {
  }

  // A stream that is short of a head, or states a length other than its own.
  ghost predicate Misstated(v: seq<Byte>) {
    0 < |v| < 6 || (|v| >= 6 && Number32(v, 1) != |v|)
  }

  // What is refused: an empty stream with 10, a misstated one with 16, a type other than 1 to 5 with 18, and
  // nothing else.
  lemma ParseRefuses(v: seq<Byte>)
    requires Sized(v)
    ensures v == [] ==> Parse(v) == Error(10)
    ensures Misstated(v) ==> Parse(v) == Error(16)
    ensures v != [] && !Misstated(v) && v[0] !in {1, 2, 3, 4, 5} ==> Parse(v) == Error(18)
    ensures v != [] && !Misstated(v) && v[0] in {1, 2, 3, 4, 5} ==> Parse(v).Ok?
  {
    hide Get16;
    hide Get32;
    hide Number32;
    if |v| >= 6 {
      Get32Reads(v, 1);
    }
  }

  // What any other gives: the numbers and bytes at these places, whatever comes after them.
  lemma ParseHello(v: seq<Byte>)
    requires Sized(v) && Parse(v).Ok? && v[0] == 1
    ensures |v| >= 14 && |v| >= 14 + Number16(v, 8)
    ensures Parse(v).message == Hello(v[5], Number16(v, 6), v[10..10 + Number16(v, 8)], Number32(v, 10 + Number16(v, 8)))
  {
    hide Get16;
    hide Get32;
    hide Number16;
    hide Number32;
    Get16Reads(v, 6);
    Get16Reads(v, 8);
    Get32Reads(v, 10 + Get16(v, 8));
  }

  lemma ParseBlock(v: seq<Byte>)
    requires Sized(v) && Parse(v).Ok? && (v[0] == 3 || v[0] == 4)
    ensures |v| >= 15 && |v| >= 15 + Number32(v, 11)
    ensures Parse(v).message == Block(v[0] == 4, Number32(v, 5), Number16(v, 9), v[15..15 + Number32(v, 11)])
  {
    hide Get16;
    hide Get32;
    hide Number16;
    hide Number32;
    Get32Reads(v, 5);
    Get16Reads(v, 9);
    Get32Reads(v, 11);
  }

  lemma ParseShort(v: seq<Byte>)
    requires Sized(v) && Parse(v).Ok? && (v[0] == 2 || v[0] == 5)
    ensures v[0] == 2 ==> |v| >= 10 && Parse(v).message == Ack(v[5], Number32(v, 6))
    ensures v[0] == 5 ==> |v| >= 11 && Parse(v).message == Giveme(Number32(v, 5), Number16(v, 9))
  {
    hide Get16;
    hide Get32;
    hide Number16;
    hide Number32;
    Get32Reads(v, 5);
    if v[0] == 2 {
      Get32Reads(v, 6);
    } else {
      Get16Reads(v, 9);
    }
  }

  lemma Spells16(u: u16, b0: Byte, b1: Byte)
    requires u == Value(b0) * 0x100 + Value(b1)
    ensures Put16(u) == [b0, b1]
  {
    hide ToByte;
    hide Value;
    ByteTrip(b0);
    ByteTrip(b1);
  }

  lemma Spells32(u: u32, b0: Byte, b1: Byte, b2: Byte, b3: Byte)
    requires u == (Value(b0) * 0x100 + Value(b1)) * 0x1_0000 + Value(b2) * 0x100 + Value(b3)
    ensures Put32(u) == [b0, b1, b2, b3]
  {
    hide Put16;
    hide Value;
    Spells16(u / 0x1_0000, b0, b1);
    Spells16(u % 0x1_0000, b2, b3);
  }

  lemma SampleNumbers()
    ensures Put32(0x7C6D_8BAB) == [0x7C, 0x6D, 0x8B, 0xAB]
    ensures Put32(10) == [0, 0, 0, 10] && Put32(11) == [0, 0, 0, 11] && Put32(18) == [0, 0, 0, 18]
    ensures Put32(21) == [0, 0, 0, 21] && Put32(6) == [0, 0, 0, 6]
    ensures Put16(2) == [0, 2] && Put16(3) == [0, 3] && Put16(4) == [0, 4]
  {
    hide Put16;
    hide Put32;
    Spells32(0x7C6D_8BAB, 0x7C, 0x6D, 0x8B, 0xAB);
    Spells32(6, 0, 0, 0, 6);
    Spells32(10, 0, 0, 0, 10);
    Spells32(11, 0, 0, 0, 11);
    Spells32(18, 0, 0, 0, 18);
    Spells32(21, 0, 0, 0, 21);
    Spells16(2, 0, 2);
    Spells16(3, 0, 3);
    Spells16(4, 0, 4);
  }

  // The streams of test/codec.c.
  lemma SampleHello()
    ensures Wire(Hello(0, 3, [0x61, 0x62, 0x2E, 0x63], 0x7C6D_8BAB))
            == [0x01, 0x00, 0x00, 0x00, 0x12, 0x00, 0x00, 0x03, 0x00, 0x04, 0x61, 0x62, 0x2E, 0x63, 0x7C, 0x6D, 0x8B, 0xAB]
  {
    SampleNumbers();
    hide Put16;
    hide Put32;
  }

  lemma SampleAck()
    ensures Wire(Ack(0, 0x7C6D_8BAB)) == [0x02, 0x00, 0x00, 0x00, 0x0A, 0x00, 0x7C, 0x6D, 0x8B, 0xAB]
  {
    SampleNumbers();
    hide Put16;
    hide Put32;
  }

  lemma SampleBlock(last: bool)
    ensures Wire(Block(last, 0x7C6D_8BAB, 2, [0x61, 0x62, 0x63, 0x64, 0x65, 0x66]))
            == [if last then 0x04 else 0x03, 0x00, 0x00, 0x00, 0x15, 0x7C, 0x6D, 0x8B, 0xAB, 0x00, 0x02,
                0x00, 0x00, 0x00, 0x06, 0x61, 0x62, 0x63, 0x64, 0x65, 0x66]
  {
    SampleNumbers();
    hide Put16;
    hide Put32;
  }

  lemma SampleGiveme()
    ensures Wire(Giveme(0x7C6D_8BAB, 2)) == [0x05, 0x00, 0x00, 0x00, 0x0B, 0x7C, 0x6D, 0x8B, 0xAB, 0x00, 0x02]
  {
    SampleNumbers();
    hide Put16;
    hide Put32;
  }
}
