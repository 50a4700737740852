// src/codec.c: the message struct, decoded into and encoded from in place.

// Concatenation of a list of byte strings, and how each message splits into the pieces encode pushes.
module Pieces {
  import opened Bytes
  import opened Messages

  function Concat(bs: seq<seq<Byte>>): seq<Byte> {
    if bs == [] then [] else bs[0] + Concat(bs[1..])
  }

  lemma ConcatCons(b: seq<Byte>, bs: seq<seq<Byte>>)
    ensures Concat([b] + bs) == b + Concat(bs)
  {
    assert ([b] + bs)[1..] == bs;
  }

  lemma ConcatNone()
    ensures Concat([]) == []
  {
  }

  lemma {:induction false} ConcatSnoc(bs: seq<seq<Byte>>, b: seq<Byte>)
    ensures Concat(bs + [b]) == Concat(bs) + b
  {
    if bs == [] {
      assert bs + [b] == [b] && [b][1..] == [];
    } else {
      assert (bs + [b])[1..] == bs[1..] + [b];
      ConcatSnoc(bs[1..], b);
    }
  }

  lemma {:induction false} ConcatAppend(bs: seq<seq<Byte>>, cs: seq<seq<Byte>>)
    ensures Concat(bs + cs) == Concat(bs) + Concat(cs)
  {
    if bs == [] {
      assert bs + cs == cs;
    } else {
      assert (bs + cs)[1..] == bs[1..] + cs;
      ConcatAppend(bs[1..], cs);
    }
  }

  // The pieces after type and length.
  function BodyPieces(m: Message): seq<seq<Byte>>
    requires Encodable(m)
  {
    match m
    case Hello(id, blocks, fname, hashcode) => [[id], Put16(blocks), Put16(|fname|), fname, Put32(hashcode)]
    case Ack(id, fileid) => [[id], Put32(fileid)]
    case Block(_, fileid, blockseq, content) => [Put32(fileid), Put16(blockseq), Put32(|content|), content]
    case Giveme(fileid, blockseq) => [Put32(fileid), Put16(blockseq)]
  }

  lemma Concat2(a: seq<Byte>, b: seq<Byte>)
    ensures Concat([a, b]) == a + b
  {
    ConcatCons(b, []);
    ConcatCons(a, [b]);
    assert [a] + [b] == [a, b] && [b] + [] == [b] && b + [] == b;
  }

  lemma Concat4(a: seq<Byte>, b: seq<Byte>, c: seq<Byte>, d: seq<Byte>)
    ensures Concat([a, b, c, d]) == a + b + c + d
  {
    Concat2(c, d);
    ConcatCons(b, [c, d]);
    ConcatCons(a, [b, c, d]);
    assert [a] + [b, c, d] == [a, b, c, d] && [b] + [c, d] == [b, c, d];
    assert a + (b + (c + d)) == a + b + c + d;
  }

  lemma BodyIsPieces(m: Message)
    requires Encodable(m)
    ensures Concat(BodyPieces(m)) == Body(m)
  {
    hide Concat;
    hide Put16;
    hide Put32;
    match m
    case Hello(id, blocks, fname, hashcode) =>
      Concat4(Put16(blocks), Put16(|fname|), fname, Put32(hashcode));
      var rest := [Put16(blocks), Put16(|fname|), fname, Put32(hashcode)];
      ConcatCons([id], rest);
      assert BodyPieces(m) == [[id]] + rest;
      assert [id] + (Put16(blocks) + Put16(|fname|) + fname + Put32(hashcode)) == Body(m);
    case Ack(id, fileid) => Concat2([id], Put32(fileid));
    case Block(_, fileid, blockseq, content) =>
      Concat4(Put32(fileid), Put16(blockseq), Put32(|content|), content);
    case Giveme(fileid, blockseq) => Concat2(Put32(fileid), Put16(blockseq));
  }

  // All the pieces, with whatever length the sender stated.
  function WirePieces(m: Message, len: u32): seq<seq<Byte>>
    requires Encodable(m)
  {
    [[TypeOf(m)], Put32(len)] + BodyPieces(m)
  }

  lemma WireIsPieces(m: Message, len: u32)
    requires Encodable(m)
    ensures Concat(WirePieces(m, len)) == [TypeOf(m)] + Put32(len) + Body(m)
  {
    hide Concat;
    hide Put32;
    hide Body;
    hide BodyPieces;
    BodyIsPieces(m);
    var bs := BodyPieces(m);
    ConcatCons(Put32(len), bs);
    ConcatCons([TypeOf(m)], [Put32(len)] + bs);
    assert WirePieces(m, len) == [[TypeOf(m)]] + ([Put32(len)] + bs);
    assert [TypeOf(m)] + (Put32(len) + Body(m)) == [TypeOf(m)] + Put32(len) + Body(m);
  }
}

module Codec {
  import opened Status
  import opened Bytes
  import opened Messages
  import opened GatherVectors
  import opened Pieces
  import opened WireFormat

  // nftp_put_u16 and nftp_put_u32 write in place, the highest digit in base 256 first.
  method PutAt16(a: array<Byte>, off: nat, u: u16)
    requires off + 2 <= a.Length
    modifies a
    ensures a[off] as int == u / 0x100 && a[off + 1] as int == u % 0x100
    ensures a[off..off + 2] == Put16(u)
    ensures forall lo, hi {:trigger a[lo..hi]} ::
              0 <= lo <= hi <= a.Length && (hi <= off || off + 2 <= lo) ==> a[lo..hi] == old(a[lo..hi])
  {
    hide ToByte;
    Put16Digits(u);
    a[off] := ToByte(u / 0x100);
    a[off + 1] := ToByte(u % 0x100);
  }

  method PutAt32(a: array<Byte>, off: nat, u: u32)
    requires off + 4 <= a.Length
    modifies a
    ensures a[off] as int == u / 0x100_0000 && a[off + 1] as int == u / 0x1_0000 % 0x100
    ensures a[off + 2] as int == u / 0x100 % 0x100 && a[off + 3] as int == u % 0x100
    ensures a[off..off + 4] == Put32(u)
    ensures forall lo, hi {:trigger a[lo..hi]} ::
              0 <= lo <= hi <= a.Length && (hi <= off || off + 4 <= lo) ==> a[lo..hi] == old(a[lo..hi])
  {
    Put32Bytes(u);
    Put32Digits(u);
    hide ToByte;
    hide Put32;
    a[off] := ToByte(u / 0x100_0000);
    a[off + 1] := ToByte(u / 0x1_0000 % 0x100);
    a[off + 2] := ToByte(u / 0x100 % 0x100);
    a[off + 3] := ToByte(u % 0x100);
  }

  // Slices that read out as the given pieces gather to their concatenation.
  lemma {:induction false} GatherPieces(ss: seq<Slice>, bs: seq<seq<Byte>>)
    requires AllInBounds(ss) && |ss| == |bs|
    requires forall i :: 0 <= i < |ss| ==> Bytes1(ss[i]) == bs[i]
    ensures Gather(ss) == Concat(bs)
    decreases ss
  {
    if ss == [] {
    } else {
      GatherPieces(ss[1..], bs[1..]);
    }
  }

  lemma Get32Slice(v: seq<Byte>, pos: nat, w: seq<Byte>)
    requires pos <= |v| && w == v[pos..] && |w| >= 4
    ensures Get32(w, 0) == Get32(v, pos)
  {
  }

  // typedef struct nftp. A member whose address is taken is an array of length 1.
  class Nftp {
    const typ: array<Byte>
    const id: array<Byte>
    const exbuf: array<Byte>
    var len: u32
    var blocks: u16
    var blockseq: u16
    var fname: array?<Byte>
    var namelen: u16
    var fileid: u32
    var hashcode: u32
    var content: array?<Byte>
    var ctlen: nat

    ghost predicate Valid()
      reads this
    {
      && typ.Length == 1 && id.Length == 1 && exbuf.Length == 14
      && typ != id && typ != exbuf && id != exbuf && fname != exbuf && content != exbuf
    }

    // nftp_alloc
    constructor ()
      ensures Valid() && fresh(typ) && fresh(id) && fresh(exbuf) && typ[..] == [0] && id[..] == [0]
      ensures len == 0 && blocks == 0 && blockseq == 0 && fname == null && namelen == 0
      ensures fileid == 0 && hashcode == 0 && content == null && ctlen == 0
    {
      typ := new Byte[1](_ => 0);
      id := new Byte[1](_ => 0);
      exbuf := new Byte[14](_ => 0);
      len, blocks, blockseq, fname, namelen := 0, 0, 0, null, 0;
      fileid, hashcode, content, ctlen := 0, 0, null, 0;
    }

    // The name and content pointers reach as far as their lengths say.
    ghost predicate Backed()
      reads this
    {
      && (if fname == null then namelen == 0 else namelen <= fname.Length)
      && (if content == null then ctlen == 0 else ctlen <= content.Length)
    }

    function Name(): seq<Byte>
      requires Backed()
      reads this, fname
    {
      if fname == null then [] else fname[..namelen]
    }

    function Content(): seq<Byte>
      requires Backed()
      reads this, content
    {
      if content == null then [] else content[..ctlen]
    }

    ghost predicate Known()
      requires Valid()
      reads this, typ
    {
      typ[0] == TYPE_HELLO || typ[0] == TYPE_ACK || typ[0] == TYPE_FILE || typ[0] == TYPE_END || typ[0] == TYPE_GIVEME
    }

    // The message the fields hold.
    function Fields(): Message
      requires Valid() && Backed() && Known()
      reads this, typ, id, fname, content
    {
      if typ[0] == TYPE_HELLO then Hello(id[0], blocks, Name(), hashcode)
      else if typ[0] == TYPE_ACK then Ack(id[0], fileid)
      else if typ[0] == TYPE_GIVEME then Giveme(fileid, blockseq)
      else Block(typ[0] == TYPE_END, fileid, blockseq, Content())
    }

    // The fields hold m, and its true length.
    ghost predicate Filled(m: Message)
      reads this, typ, id, fname, content
    {
      Valid() && Backed() && Known() && Fields() == m && len == Size(m)
    }

    // nftp_decode. A HELLO leaves fileid as it was.
    method Decode(v: seq<Byte>) returns (rv: int)
      requires Valid() && Backed() && Sized(v)
      modifies this, typ, id
      ensures Valid() && exbuf[..] == old(exbuf[..])
      ensures rv == if Parse(v).Ok? then OK else Parse(v).code
      ensures rv == OK ==> Backed() && Known() && Fields() == Parse(v).message && len == |v|
      ensures rv == OK && typ[0] == TYPE_HELLO ==> fileid == old(fileid)
    {
      if |v| == 0 {
        return ERR_EMPTY;
      }
      if |v| < 6 {
        return ERR_STREAM;
      }
      var pos := 0;
      typ[0] := v[pos];
      pos := pos + 1;
      len := Get32(v, pos);
      pos := pos + 4;
      if |v| != len {
        return ERR_STREAM;
      }
      hide Get16;
      hide Get32;
      if typ[0] == TYPE_HELLO {
        DecodeHello(v);
      } else if typ[0] == TYPE_ACK {
        id[0] := v[pos];
        pos := pos + 1;
        fileid := Get32(v, pos);
      } else if typ[0] == TYPE_FILE || typ[0] == TYPE_END {
        DecodeBlock(v);
      } else if typ[0] == TYPE_GIVEME {
        fileid := Get32(v, pos);
        pos := pos + 4;
        blockseq := Get16(v, pos);
      } else {
        return ERR_TYPE;
      }
      return OK;
    }

    // malloc and memcpy of n bytes of v from pos on, with room for extra more.
    static method Copy(v: seq<Byte>, pos: nat, n: nat, extra: nat) returns (a: array<Byte>)
      requires pos + n <= |v|
      ensures fresh(a) && a.Length == n + extra && a[..n] == v[pos..pos + n]
      ensures forall i :: n <= i < a.Length ==> a[i] == 0
    {
      a := new Byte[n + extra](_ => 0);
      forall i | 0 <= i < n {
        a[i] := v[pos + i];
      }
    }

    // The HELLO branch: what follows the name is kept as content, its first four bytes being the hash.
    method DecodeHello(v: seq<Byte>)
      requires Valid() && typ[0] == TYPE_HELLO && |v| >= 10 && |v| >= 14 + Get16(v, 8)
      modifies this, id
      ensures Valid() && Backed() && len == old(len) && fileid == old(fileid)
      ensures Fields() == Hello(v[5], Get16(v, 6), v[10..10 + Get16(v, 8)], Get32(v, 10 + Get16(v, 8)))
      ensures fname != null && fresh(fname) && fname.Length == namelen + 1 && fname[namelen] == 0
    {
      hide Get16;
      hide Get32;
      var pos := 5;
      id[0] := v[pos];
      pos := pos + 1;
      blocks := Get16(v, pos);
      pos := pos + 2;
      namelen := Get16(v, pos);
      pos := pos + 2;
      fname := Copy(v, pos, namelen, 1);
      pos := pos + namelen;
      ctlen := |v| - pos;
      content := Copy(v, pos, ctlen, 0);
      hashcode := Get32(content[..], 0);
      Get32Slice(v, pos, content[..]);
    }

    // The FILE and END branch.
    method DecodeBlock(v: seq<Byte>)
      requires Valid() && (typ[0] == TYPE_FILE || typ[0] == TYPE_END)
      requires Backed() && |v| >= 15 && |v| >= 15 + Get32(v, 11)
      modifies this
      ensures Valid() && Backed() && len == old(len)
      ensures Fields() == Block(typ[0] == TYPE_END, Get32(v, 5), Get16(v, 9), v[15..15 + Get32(v, 11)])
    {
      hide Get16;
      hide Get32;
      var pos := 5;
      fileid := Get32(v, pos);
      pos := pos + 4;
      blockseq := Get16(v, pos);
      pos := pos + 2;
      ctlen := Get32(v, pos);
      pos := pos + 4;
      content := Copy(v, pos, ctlen, 0);
    }

    // The buffers a message refers to.
    ghost predicate Owned(mem: object?)
      reads this
    {
      mem == typ || mem == id || mem == exbuf || mem == fname || mem == content
    }

    // The slices read as the pieces bs, and those into the scratch buffer lie between lo and hi.
    ghost predicate Reads(ss: seq<Slice>, bs: seq<seq<Byte>>, lo: nat, hi: nat)
      reads this, Backing(ss)
    {
      && |ss| == |bs| && AllInBounds(ss) && (forall i :: 0 <= i < |ss| ==> Owned(ss[i].mem))
      && (forall i :: 0 <= i < |ss| ==> Bytes1(ss[i]) == bs[i])
      && (forall i :: 0 <= i < |ss| && ss[i].mem == exbuf ==> lo <= ss[i].off && ss[i].off + ss[i].n <= hi)
    }

    lemma ReadsNone()
      requires Valid()
      ensures Reads([], [], 4, 4)
    {
    }

    lemma ReadsWithin(ss: seq<Slice>, bs: seq<seq<Byte>>, hi: nat)
      requires Reads(ss, bs, 4, hi) && hi <= 14
      ensures Reads(ss, bs, 4, 14)
    {
    }

    // A vector with room, apart from the buffers the message owns.
    ghost predicate Room(iovs: Iovs, n: nat)
      reads this, iovs, iovs.iovs
    {
      && iovs.Valid() && iovs.low + iovs.len + n <= iovs.cap
      && !Owned(iovs.iovs)
    }

    // One field into the scratch buffer: what the earlier slices read is untouched because they all end before off.
    method Scratch16(off: nat, u: u16, ghost ss: seq<Slice>, ghost bs: seq<seq<Byte>>)
      requires Valid() && 4 <= off && off + 2 <= 14 && Reads(ss, bs, 4, off)
      modifies exbuf
      ensures Reads(ss, bs, 4, off) && exbuf[off..off + 2] == Put16(u)
    {
      hide Put16;
      PutAt16(exbuf, off, u);
    }

    method Scratch32(off: nat, u: u32, ghost ss: seq<Slice>, ghost bs: seq<seq<Byte>>)
      requires Valid() && 4 <= off && off + 4 <= 14 && Reads(ss, bs, 4, off)
      modifies exbuf
      ensures Reads(ss, bs, 4, off) && exbuf[off..off + 4] == Put32(u)
    {
      hide Put32;
      PutAt32(exbuf, off, u);
    }

    // Append a slice of a buffer of the message; in the scratch buffer it lies between lo and hi.
    method AppendSlice(iovs: Iovs, s: Slice, ghost bs: seq<seq<Byte>>, ghost lo: nat, ghost hi: nat) returns (rv: int)
      requires Valid() && Room(iovs, 1) && InBounds(s) && Owned(s.mem)
      requires 4 <= lo <= hi && (s.mem == exbuf ==> lo <= s.off && s.off + s.n <= hi)
      requires Reads(iovs.contents, bs, 4, lo)
      modifies iovs, iovs.iovs
      ensures rv == OK && iovs.iovs == old(iovs.iovs) && iovs.cap == old(iovs.cap) && iovs.low == old(iovs.low)
      ensures iovs.Valid() && iovs.len == old(iovs.len) + 1
      ensures Reads(iovs.contents, bs + [Bytes1(s)], 4, hi)
    {
      hide Bytes1;
      rv := iovs.Append(s);
    }

    // One step of encode: put two bytes into the scratch buffer and append a slice of them.
    method AppendPut16(iovs: Iovs, off: nat, u: u16, ghost bs: seq<seq<Byte>>) returns (rv: int)
      requires Valid() && Room(iovs, 1) && 4 <= off && off + 2 <= 14 && Reads(iovs.contents, bs, 4, off)
      modifies iovs, iovs.iovs, exbuf
      ensures rv == OK && iovs.iovs == old(iovs.iovs) && iovs.cap == old(iovs.cap) && iovs.low == old(iovs.low)
      ensures iovs.Valid() && iovs.len == old(iovs.len) + 1
      ensures Reads(iovs.contents, bs + [Put16(u)], 4, off + 2)
    {
      hide Put16;
      hide Reads;
      Scratch16(off, u, iovs.contents, bs);
      rv := AppendSlice(iovs, Slice(exbuf, off, 2), bs, off, off + 2);
    }

    method AppendPut32(iovs: Iovs, off: nat, u: u32, ghost bs: seq<seq<Byte>>) returns (rv: int)
      requires Valid() && Room(iovs, 1) && 4 <= off && off + 4 <= 14 && Reads(iovs.contents, bs, 4, off)
      modifies iovs, iovs.iovs, exbuf
      ensures rv == OK && iovs.iovs == old(iovs.iovs) && iovs.cap == old(iovs.cap) && iovs.low == old(iovs.low)
      ensures iovs.Valid() && iovs.len == old(iovs.len) + 1
      ensures Reads(iovs.contents, bs + [Put32(u)], 4, off + 4)
    {
      hide Put32;
      hide Reads;
      Scratch32(off, u, iovs.contents, bs);
      rv := AppendSlice(iovs, Slice(exbuf, off, 4), bs, off, off + 4);
    }

    // The numbers of a HELLO.
    ghost function Numbers(): seq<seq<Byte>>
      requires Valid()
      reads this, id
    {
      [[id[0]]] + [Put16(blocks)] + [Put16(namelen)]
    }

    method EncodeNumbers(iovs: Iovs)
      requires Valid() && Room(iovs, 5) && iovs.contents == []
      modifies iovs, iovs.iovs, exbuf
      ensures iovs.Valid() && iovs.iovs == old(iovs.iovs) && iovs.cap == old(iovs.cap) && iovs.low == old(iovs.low)
      ensures iovs.len == old(iovs.len) + 3 && Reads(iovs.contents, Numbers(), 4, 8)
    {
      hide Put16;
      hide Reads;
      ReadsNone();
      ghost var first := Bytes1(Slice(id, 0, 1));
      assert first == [id[0]];
      assert [] + [first] == [[id[0]]];
      hide Bytes1;
      var rv := AppendSlice(iovs, Slice(id, 0, 1), [], 4, 4);
      rv := AppendPut16(iovs, 4, blocks, [[id[0]]]);
      rv := AppendPut16(iovs, 6, namelen, [[id[0]]] + [Put16(blocks)]);
    }

    // The branches of nftp_encode_iovs: the pieces of the body, in order.
    method EncodeHello(iovs: Iovs)
      requires Valid() && Backed() && Known() && typ[0] == TYPE_HELLO && Encodable(Fields())
      requires Room(iovs, 5) && iovs.contents == []
      modifies iovs, iovs.iovs, exbuf
      ensures iovs.Valid() && iovs.iovs == old(iovs.iovs) && iovs.cap == old(iovs.cap) && iovs.low == old(iovs.low)
      ensures Fields() == old(Fields()) && Reads(iovs.contents, BodyPieces(Fields()), 4, 14)
    {
      hide Put32;
      hide Reads;
      hide Numbers;
      ghost var m := Fields();
      EncodeNumbers(iovs);
      ghost var bs := Numbers();
      var rv := AppendSlice(iovs, Slice(fname, 0, namelen), bs, 8, 8);
      rv := AppendPut32(iovs, 8, hashcode, bs + [m.fname]);
      NumbersFirst(m);
      ReadsWithin(iovs.contents, BodyPieces(m), 12);
    }

    lemma NumbersFirst(m: Message)
      requires Valid() && m.Hello? && Encodable(m) && m.id == id[0] && m.blocks == blocks && |m.fname| == namelen
      ensures Numbers() + [m.fname] + [Put32(m.hashcode)] == BodyPieces(m)
    {
      hide Put16;
      hide Put32;
    }

    method EncodeAck(iovs: Iovs)
      requires Valid() && Backed() && Known() && typ[0] == TYPE_ACK && Encodable(Fields())
      requires Room(iovs, 5) && iovs.contents == []
      modifies iovs, iovs.iovs, exbuf
      ensures iovs.Valid() && iovs.iovs == old(iovs.iovs) && iovs.cap == old(iovs.cap) && iovs.low == old(iovs.low)
      ensures Fields() == old(Fields()) && Reads(iovs.contents, BodyPieces(Fields()), 4, 14)
    {
      hide Put32;
      hide Reads;
      ReadsNone();
      ghost var m := Fields();
      assert Bytes1(Slice(id, 0, 1)) == id[0..1] == [m.id];
      assert [] + [Bytes1(Slice(id, 0, 1))] == [[m.id]];
      var rv := AppendSlice(iovs, Slice(id, 0, 1), [], 4, 4);
      rv := AppendPut32(iovs, 4, fileid, [[m.id]]);
      assert [[m.id]] + [Put32(fileid)] == BodyPieces(m);
      ReadsWithin(iovs.contents, BodyPieces(m), 8);
    }

    method EncodeBlock(iovs: Iovs)
      requires Valid() && Backed() && Known() && (typ[0] == TYPE_FILE || typ[0] == TYPE_END) && Encodable(Fields())
      requires Room(iovs, 5) && iovs.contents == []
      modifies iovs, iovs.iovs, exbuf
      ensures iovs.Valid() && iovs.iovs == old(iovs.iovs) && iovs.cap == old(iovs.cap) && iovs.low == old(iovs.low)
      ensures Fields() == old(Fields()) && Reads(iovs.contents, BodyPieces(Fields()), 4, 14)
    {
      hide Put16;
      hide Put32;
      hide Reads;
      ReadsNone();
      ghost var m := Fields();
      var rv := AppendPut32(iovs, 4, fileid, []);
      assert [] + [Put32(fileid)] == [Put32(fileid)];
      ghost var bs := [Put32(fileid)];
      rv := AppendPut16(iovs, 8, blockseq, bs);
      rv := AppendPut32(iovs, 10, ctlen, bs + [Put16(blockseq)]);
      rv := AppendSlice(iovs, Slice(content, 0, ctlen), bs + [Put16(blockseq)] + [Put32(ctlen)], 14, 14);
      assert bs + [Put16(blockseq)] + [Put32(ctlen)] + [m.content] == BodyPieces(m);
    }

    method EncodeGiveme(iovs: Iovs)
      requires Valid() && Backed() && Known() && typ[0] == TYPE_GIVEME && Encodable(Fields())
      requires Room(iovs, 5) && iovs.contents == []
      modifies iovs, iovs.iovs, exbuf
      ensures iovs.Valid() && iovs.iovs == old(iovs.iovs) && iovs.cap == old(iovs.cap) && iovs.low == old(iovs.low)
      ensures Fields() == old(Fields()) && Reads(iovs.contents, BodyPieces(Fields()), 4, 14)
    {
      hide Put16;
      hide Put32;
      hide Reads;
      ReadsNone();
      ghost var m := Fields();
      var rv := AppendPut32(iovs, 4, fileid, []);
      assert [] + [Put32(fileid)] == [Put32(fileid)];
      rv := AppendPut16(iovs, 8, blockseq, [Put32(fileid)]);
      assert [Put32(fileid)] + [Put16(blockseq)] == BodyPieces(m);
      ReadsWithin(iovs.contents, BodyPieces(m), 10);
    }

    // Push at the head a slice that avoids the body's part of the scratch buffer.
    method PushRef(iovs: Iovs, s: Slice, ghost bs: seq<seq<Byte>>) returns (rv: int)
      requires Valid() && iovs.Valid() && !Owned(iovs.iovs) && 1 <= iovs.low && Reads(iovs.contents, bs, 0, 14)
      requires InBounds(s) && Owned(s.mem)
      modifies iovs, iovs.iovs
      ensures rv == OK && iovs.Valid() && iovs.iovs == old(iovs.iovs) && iovs.low == old(iovs.low) - 1
      ensures Reads(iovs.contents, [Bytes1(s)] + bs, 0, 14)
    {
      hide Bytes1;
      rv := iovs.Push(s, HEAD);
    }

    // Writing the stated length leaves the body's slices alone.
    method PutLength(ghost ss: seq<Slice>, ghost bs: seq<seq<Byte>>)
      requires Valid() && Reads(ss, bs, 4, 14)
      modifies exbuf
      ensures Reads(ss, bs, 0, 14) && exbuf[0..4] == Put32(len)
    {
      hide Put32;
      PutAt32(exbuf, 0, len);
    }

    // The end of nftp_encode_iovs: the stated length, then the type, go in at the head.
    method PushHead(iovs: Iovs, ghost bs: seq<seq<Byte>>) returns (rv: int)
      requires Valid() && iovs.Valid() && !Owned(iovs.iovs) && 2 <= iovs.low && Reads(iovs.contents, bs, 4, 14)
      modifies iovs, iovs.iovs, exbuf
      ensures rv == OK && iovs.Valid() && iovs.iovs == old(iovs.iovs)
      ensures Reads(iovs.contents, [typ[..], Put32(len)] + bs, 0, 14)
    {
      hide Put32;
      hide Reads;
      PutLength(iovs.contents, bs);
      rv := PushRef(iovs, Slice(exbuf, 0, 4), bs);
      rv := PushRef(iovs, Slice(typ, 0, 1), [Put32(len)] + bs);
      assert Bytes1(Slice(typ, 0, 1)) == typ[..];
      assert [typ[..]] + ([Put32(len)] + bs) == [typ[..], Put32(len)] + bs;
    }

    // nftp_encode_iovs
    method EncodeIovs(iovs: Iovs) returns (rv: int)
      requires Valid() && Backed() && (Known() ==> Encodable(Fields()))
      requires iovs.Valid() && !Owned(iovs.iovs) && (iovs.contents == [] ==> 2 <= iovs.low && Room(iovs, 5))
      modifies iovs, iovs.iovs, exbuf
      ensures rv == if old(iovs.contents) != [] then ERR_IOVS else if !Known() then ERR_TYPE else OK
      ensures rv == OK ==> && iovs.Valid() && Fields() == old(Fields())
                           && Reads(iovs.contents, WirePieces(Fields(), len), 0, 14)
      ensures rv != OK ==> iovs.contents == old(iovs.contents)
    {
      if iovs.len != 0 {
        return ERR_IOVS;
      }
      if typ[0] == TYPE_HELLO {
        EncodeHello(iovs);
      } else if typ[0] == TYPE_ACK {
        EncodeAck(iovs);
      } else if typ[0] == TYPE_FILE || typ[0] == TYPE_END {
        EncodeBlock(iovs);
      } else if typ[0] == TYPE_GIVEME {
        EncodeGiveme(iovs);
      } else {
        return ERR_TYPE;
      }
      hide BodyPieces;
      rv := PushHead(iovs, BodyPieces(Fields()));
      assert typ[..] == [TypeOf(Fields())];
    }

    // nftp_encode
    method Encode() returns (rv: int, v: array<Byte>)
      requires Valid() && Backed() && (Known() ==> Encodable(Fields()))
      modifies exbuf
      ensures rv == if Known() then OK else ERR_TYPE
      ensures rv == OK ==> && fresh(v) && Fields() == old(Fields())
                           && v[..] == [TypeOf(Fields())] + Put32(len) + Body(Fields())
      ensures rv == OK && len == Size(Fields()) ==> v[..] == Wire(Fields())
      ensures rv == OK ==> typ[0] in {1, 2, 3, 4, 5} && v[..] != [] && v[0] == typ[0] && Digits32(v[..], 1, len)
    {
      hide Digits32;
      hide Put32;
      hide Body;
      hide WirePieces;
      var iovs := new Iovs();
      rv := EncodeIovs(iovs);
      if rv != OK {
        v := new Byte[0];
        return;
      }
      v := iovs.ToStream();
      GatherPieces(iovs.contents, WirePieces(Fields(), len));
      WireIsPieces(Fields(), len);
      HeadDigits(TypeOf(Fields()), len, Body(Fields()));
    }
  }
}
