// The five messages of src/codec.c and the bytes that stand for them.
module Messages {
  import opened Status
  import opened Bytes

  const TYPE_HELLO: Byte := 0x01
  const TYPE_ACK: Byte := 0x02
  const TYPE_FILE: Byte := 0x03
  const TYPE_END: Byte := 0x04
  const TYPE_GIVEME: Byte := 0x05

  datatype Message =
    | Hello(id: Byte, blocks: u16, fname: seq<Byte>, hashcode: u32)
    | Ack(id: Byte, fileid: u32)
    | Block(last: bool, fileid: u32, blockseq: u16, content: seq<Byte>)
    | Giveme(fileid: u32, blockseq: u16)

  datatype Parsed = Ok(message: Message) | Error(code: int)

  function TypeOf(m: Message): Byte {
    match m
    case Hello(_, _, _, _) => TYPE_HELLO
    case Ack(_, _) => TYPE_ACK
    case Block(last, _, _, _) => if last then TYPE_END else TYPE_FILE
    case Giveme(_, _) => TYPE_GIVEME
  }

  // The length every message states about itself.
  function Size(m: Message): nat {
    match m
    case Hello(_, _, fname, _) => 14 + |fname|
    case Ack(_, _) => 10
    case Block(_, _, _, content) => 15 + |content|
    case Giveme(_, _) => 11
  }

  // The fields' widths hold what they are given.
  predicate Encodable(m: Message) {
    Size(m) < 0x1_0000_0000 && (m.Hello? ==> |m.fname| < 0x1_0000)
  }

  function Body(m: Message): seq<Byte>
    requires Encodable(m)
  {
    match m
    case Hello(id, blocks, fname, hashcode) => [id] + Put16(blocks) + Put16(|fname|) + fname + Put32(hashcode)
    case Ack(id, fileid) => [id] + Put32(fileid)
    case Block(_, fileid, blockseq, content) => Put32(fileid) + Put16(blockseq) + Put32(|content|) + content
    case Giveme(fileid, blockseq) => Put32(fileid) + Put16(blockseq)
  }

  function Wire(m: Message): (v: seq<Byte>)
    requires Encodable(m)
    ensures |v| == Size(m)
  {
    [TypeOf(m)] + Put32(Size(m)) + Body(m)
  }

  // The fields that decode reads without a check of its own lie inside the stream.
  predicate Sized(v: seq<Byte>) {
    |v| >= 6 && Get32(v, 1) == |v| ==>
      if v[0] == TYPE_HELLO then |v| >= 10 && |v| >= 14 + Get16(v, 8)
      else if v[0] == TYPE_ACK then |v| >= 10
      else if v[0] == TYPE_FILE || v[0] == TYPE_END then |v| >= 15 && |v| >= 15 + Get32(v, 11)
      else v[0] == TYPE_GIVEME ==> |v| >= 11
  }

  // What nftp_decode makes of a stream.
  function Parse(v: seq<Byte>): Parsed
    requires Sized(v)
  {
    if |v| == 0 then Error(ERR_EMPTY)
    else if |v| < 6 || Get32(v, 1) != |v| then Error(ERR_STREAM)
    else if v[0] == TYPE_HELLO then
      var namelen := Get16(v, 8);
      Ok(Hello(v[5], Get16(v, 6), v[10..10 + namelen], Get32(v, 10 + namelen)))
    else if v[0] == TYPE_ACK then Ok(Ack(v[5], Get32(v, 6)))
    else if v[0] == TYPE_FILE || v[0] == TYPE_END then
      Ok(Block(v[0] == TYPE_END, Get32(v, 5), Get16(v, 9), v[15..15 + Get32(v, 11)]))
    else if v[0] == TYPE_GIVEME then Ok(Giveme(Get32(v, 5), Get16(v, 9)))
    else Error(ERR_TYPE)
  }

  lemma WireHead(m: Message)
    requires Encodable(m)
    ensures var v := Wire(m);
            |v| == Size(m) && v[0] == TypeOf(m) && Get32(v, 1) == Size(m) && v[5..] == Body(m)
  {
    hide Body;
    hide Put32;
    hide Get32;
    var v := Wire(m);
    assert StandsAt(Put32(Size(m)), v, 1);
    GetPut32(Size(m), v, 1);
  }

  lemma HelloFields(m: Message)
    requires Encodable(m) && m.Hello?
    ensures var v := Wire(m);
            && v[5] == m.id && Get16(v, 6) == m.blocks && Get16(v, 8) == |m.fname|
            && v[10..10 + |m.fname|] == m.fname && Get32(v, 10 + |m.fname|) == m.hashcode
  {
    hide Put16;
    hide Put32;
    hide Get16;
    hide Get32;
    var v, n := Wire(m), |m.fname|;
    assert StandsAt(Put16(m.blocks), v, 6);
    assert StandsAt(Put16(n), v, 8);
    assert StandsAt(Put32(m.hashcode), v, 10 + n);
    GetPut16(m.blocks, v, 6);
    GetPut16(n, v, 8);
    GetPut32(m.hashcode, v, 10 + n);
  }

  lemma AckFields(m: Message)
    requires Encodable(m) && m.Ack?
    ensures var v := Wire(m); v[5] == m.id && Get32(v, 6) == m.fileid
  {
    hide Put32;
    hide Get32;
    assert StandsAt(Put32(m.fileid), Wire(m), 6);
    GetPut32(m.fileid, Wire(m), 6);
  }

  lemma BlockFields(m: Message)
    requires Encodable(m) && m.Block?
    ensures var v := Wire(m);
            && Get32(v, 5) == m.fileid && Get16(v, 9) == m.blockseq && Get32(v, 11) == |m.content|
            && v[15..15 + |m.content|] == m.content
  {
    hide Put16;
    hide Put32;
    hide Get16;
    hide Get32;
    var v := Wire(m);
    assert StandsAt(Put32(m.fileid), v, 5);
    assert StandsAt(Put16(m.blockseq), v, 9);
    assert StandsAt(Put32(|m.content|), v, 11);
    GetPut32(m.fileid, v, 5);
    GetPut16(m.blockseq, v, 9);
    GetPut32(|m.content|, v, 11);
  }

  lemma GivemeFields(m: Message)
    requires Encodable(m) && m.Giveme?
    ensures var v := Wire(m); Get32(v, 5) == m.fileid && Get16(v, 9) == m.blockseq
  {
    hide Put16;
    hide Put32;
    hide Get16;
    hide Get32;
    var v := Wire(m);
    assert StandsAt(Put32(m.fileid), v, 5);
    assert StandsAt(Put16(m.blockseq), v, 9);
    GetPut32(m.fileid, v, 5);
    GetPut16(m.blockseq, v, 9);
  }

  // Decoding what was encoded gives the message back.
  lemma RoundTrip(m: Message)
    requires Encodable(m)
    ensures Sized(Wire(m)) && Parse(Wire(m)) == Ok(m)
  {
    hide Wire;
    hide Body;
    hide Get16;
    hide Get32;
    WireHead(m);
    match m
    case Hello(_, _, _, _) => HelloFields(m);
    case Ack(_, _) => AckFields(m);
    case Block(_, _, _, _) => BlockFields(m);
    case Giveme(_, _) => GivemeFields(m);
  }

  // The body of a decoded stream with nothing after its fields is what follows its head.
  lemma ReverseHello(v: seq<Byte>)
    requires Sized(v) && Parse(v).Ok? && v[0] == TYPE_HELLO && |v| == Size(Parse(v).message)
    ensures Encodable(Parse(v).message) && Body(Parse(v).message) == v[5..]
  {
    hide Put16;
    hide Put32;
    hide Get16;
    hide Get32;
    var m := Parse(v).message;
    PutGet16(v, 6);
    PutGet16(v, 8);
    PutGet32(v, 10 + |m.fname|);
    assert [v[5]] == v[5..6] && v[10 + |m.fname|..] == v[10 + |m.fname|..10 + |m.fname| + 4];
    HelloParts(v, |m.fname|);
  }

  lemma HelloParts(v: seq<Byte>, n: nat)
    requires 10 + n <= |v|
    ensures v[5..6] + v[6..8] + v[8..10] + v[10..10 + n] + v[10 + n..] == v[5..]
  {
    assert v[5..6] + v[6..8] == v[5..8] && v[5..8] + v[8..10] == v[5..10] && v[5..10] + v[10..10 + n] == v[5..10 + n];
  }

  lemma ReverseBlock(v: seq<Byte>)
    requires Sized(v) && Parse(v).Ok? && (v[0] == TYPE_FILE || v[0] == TYPE_END) && |v| == Size(Parse(v).message)
    ensures Encodable(Parse(v).message) && Body(Parse(v).message) == v[5..]
  {
    hide Put16;
    hide Put32;
    hide Get16;
    hide Get32;
    PutGet32(v, 5);
    PutGet16(v, 9);
    PutGet32(v, 11);
    assert Body(Parse(v).message) == v[5..9] + v[9..11] + v[11..15] + v[15..];
    assert Body(Parse(v).message) == v[5..];
  }

  lemma ReverseShort(v: seq<Byte>)
    requires Sized(v) && Parse(v).Ok? && (v[0] == TYPE_ACK || v[0] == TYPE_GIVEME) && |v| == Size(Parse(v).message)
    ensures Encodable(Parse(v).message) && Body(Parse(v).message) == v[5..]
  {
    hide Put16;
    hide Put32;
    hide Get16;
    hide Get32;
    if v[0] == TYPE_ACK {
      PutGet32(v, 6);
      assert v[5..6] + v[6..10] == v[5..];
    } else {
      PutGet32(v, 5);
      PutGet16(v, 9);
      assert v[5..9] + v[9..11] == v[5..];
    }
  }

  // Encoding what was decoded gives the stream back, exactly when the stream holds no more than its fields.
  lemma ReverseRoundTrip(v: seq<Byte>)
    requires Sized(v) && Parse(v).Ok?
    ensures Encodable(Parse(v).message)
    ensures Wire(Parse(v).message) == v <==> |v| == Size(Parse(v).message)
  {
    hide Put32;
    hide Get16;
    hide Get32;
    hide Body;
    var m := Parse(v).message;
    if |v| == Size(m) {
      PutGet32(v, 1);
      match m
      case Hello(_, _, _, _) => ReverseHello(v);
      case Ack(_, _) => ReverseShort(v);
      case Block(_, _, _, _) => ReverseBlock(v);
      case Giveme(_, _) => ReverseShort(v);
      assert v == v[..1] + v[1..5] + v[5..];
    }
  }
}
