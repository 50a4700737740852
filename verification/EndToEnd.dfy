// The whole way: split into blocks, encode, deliver in any order, decode, reassemble, check the hash.
module EndToEnd {
  import opened Options
  import opened Status
  import opened Bytes
  import opened Messages
  import opened Names
  import opened Pieces
  import opened Protocol
  import opened Transfer
  import opened Interleaving
  import opened Naming
  import opened Places
  import opened Registry
  import B = Blocks
  import R = Reassembly

  // ---- The sender ----

  // What the repository promises to transfer: any file below 4 GiB that makes at most 0xFFFF blocks,
  // under a name that a message and a C string can hold.
  ghost predicate Sendable(st: State, p: Name) {
    && st.bs > 0 && p in st.fs
    && |st.fs[p]| < 0x1_0000_0000 && B.Count(|st.fs[p]|, st.bs) <= BLOCK_NUM
    && |Basename(p)| < 0x1_0000 && CStr(Basename(p)) == Basename(p)
    && forall n: nat :: n < B.Count(|st.fs[p]|, st.bs) ==> |B.Chunk(st.fs[p], st.bs, n)| + 15 < 0x8000_0000
  }

  ghost function BlocksOf(st: State, p: Name): (cs: seq<seq<Byte>>)
    requires Sendable(st, p)
    ensures |cs| == B.Count(|st.fs[p]|, st.bs) > 0
    ensures forall i :: 0 <= i < |cs| ==> cs[i] == B.Chunk(st.fs[p], st.bs, i)
  {
    B.Chunks(st.fs[p], st.bs, B.Count(|st.fs[p]|, st.bs))
  }

  lemma BlocksAreFile(st: State, p: Name)
    requires Sendable(st, p)
    ensures Concat(BlocksOf(st, p)) == st.fs[p]
  {
    hide Concat;
    B.Partition(st.fs[p], st.bs);
  }

  lemma BlockReads(st: State, p: Name, n: nat)
    requires Sendable(st, p) && n < |BlocksOf(st, p)|
    ensures B.BlockRead(st.fs[p], st.bs, n) == BlocksOf(st, p)[n]
    ensures |BlocksOf(st, p)[n]| + 15 < 0x8000_0000
    ensures forall kind :: Fits(st, p, kind, n)
  {
    B.StartFits(|st.fs[p]|, st.bs, n);
    B.ReadsChunk(st.fs[p], st.bs, n);
    hide B.BlockRead;
    hide B.Chunk;
  }

  ghost predicate BlockKind(kind: Byte) {
    kind == TYPE_FILE || kind == TYPE_END
  }

  // The message the maker gives for block n.
  ghost function SentBlock(st: State, p: Name, n: nat, kind: Byte): Message
    requires Sendable(st, p) && n < |BlocksOf(st, p)|
  {
    Block(kind == TYPE_END, Crc(Basename(p)), n, BlocksOf(st, p)[n])
  }

  lemma MakerGives(st: State, p: Name, kind: Byte, key: int, n: nat, content: seq<Byte>)
    requires st.bs > 0 && p in st.fs && n < B.Count(|st.fs[p]|, st.bs) && BlockKind(kind) && Fits(st, p, kind, n)
    requires content == B.BlockRead(st.fs[p], st.bs, n) && n < 0x1_0000
    ensures var m := Block(kind == TYPE_END, Crc(Basename(p)), n, content);
            Encodable(m) && Maker(st, p, kind, key, n) == Reply(st, OK, Some(Wire(m)))
  {
    hide Crc;
    hide B.BlockRead;
    hide Wire;
    hide Basename;
  }

  // Every block the maker sends decodes to its number and its contents.
  lemma MakesBlock(st: State, p: Name, kind: Byte, key: int, n: nat)
    requires Sendable(st, p) && n < |BlocksOf(st, p)| && BlockKind(kind)
    ensures Fits(st, p, kind, n)
    ensures var r := Maker(st, p, kind, key, n);
            && r.rv == OK && r.st == st && r.rmsg.Some?
            && Sized(r.rmsg.value) && Parse(r.rmsg.value) == Ok(SentBlock(st, p, n, kind))
  {
    hide Crc;
    hide Fits;
    hide BlocksOf;
    BlockReads(st, p, n);
    MakerGives(st, p, kind, key, n, BlocksOf(st, p)[n]);
    hide Maker;
    RoundTrip(SentBlock(st, p, n, kind));
    hide Wire;
    hide Parse;
    hide Sized;
  }

  // The sender once it has made its HELLO.
  ghost function Announced(st: State, p: Name): State {
    st.(senders := st.senders[Crc(Basename(p)) := p])
  }

  lemma MakesHello(st: State, p: Name, key: int, n: int)
    requires Sendable(st, p)
    ensures Fits(st, p, TYPE_HELLO, n)
    ensures var r := Maker(st, p, TYPE_HELLO, key, n);
            && r.rv == OK && r.st == Announced(st, p) && r.rmsg.Some? && Sized(r.rmsg.value)
            && Parse(r.rmsg.value) == Ok(Hello(Low8(key), |BlocksOf(st, p)|, Basename(p), Crc(st.fs[p])))
  {
    hide Crc;
    hide B.BlockRead;
    var m := Hello(Low8(key), |BlocksOf(st, p)|, Basename(p), Crc(st.fs[p]));
    assert Encodable(m);
    hide Wire;
    RoundTrip(m);
    hide Parse;
    hide Sized;
  }

  // ---- The receiver ----

  // A session whose history carries only the true blocks of a file with the session's checksum.
  ghost predicate Faithful(st: State, id: u32, w: Name, blocks: seq<seq<Byte>>, h: seq<R.Delivery>) {
    && Tracking(st, id, w, |blocks|, h) && R.Faithful(blocks, h)
    && st.files[id].hashcode == Crc(Concat(blocks))
  }

  // A HELLO that is not refused opens a session with nothing delivered.
  lemma HelloOpens(st: State, m: Message)
    requires Proper(st) && m.Hello? && Acceptable(st, m) && 0 !in st.files && Crc(CStr(m.fname)) !in st.files
    ensures var r, id := HandleHello(st, m), Crc(CStr(m.fname)); var w := WorkingName(st, CStr(m.fname)).value;
            && r.rv == OK && r.rmsg == Some(Wire(Ack(m.id, Crc(Basename(CStr(m.fname))))))
            && Tracking(r.st, id, w, m.blocks, []) && r.st.files[id].hashcode == m.hashcode
            && (forall id' :: id' in st.files ==> id' in r.st.files && r.st.files[id'] == st.files[id'])
  {
    hide Crc;
    hide CStr;
    hide Wire;
    HelloEffect(st, m);
    NothingDelivered(m.blocks);
  }

  lemma NothingDelivered(cap: nat)
    requires cap > 0
    ensures !R.Complete([], cap)
  {
    assert !R.Delivered([], 0);
  }

  lemma FaithfulCommits(blocks: seq<seq<Byte>>, h: seq<R.Delivery>)
    requires R.Faithful(blocks, h) && R.Complete(h, |blocks|)
    ensures R.Commits(h, |blocks|) == blocks
  {
    forall i | 0 <= i < |blocks|
      ensures R.Commits(h, |blocks|)[i] == blocks[i]
    {
      R.FaithfulCommitted(blocks, h, i);
    }
  }

  // One true block: the session moves on, or closes with the file.
  lemma FaithfulStep(st: State, id: u32, w: Name, blocks: seq<seq<Byte>>, h: seq<R.Delivery>, m: Message)
    requires Faithful(st, id, w, blocks, h)
    requires m.Block? && m.fileid == id && m.blockseq < |blocks| && m.content == blocks[m.blockseq]
    ensures CtxOk(st.files[id]) && st.files[id].cap == |blocks|
    ensures var r, h' := HandleBlock(st, m), h + [DeliveryOf(m)];
            && r.rv == OK && SameElsewhere(st, r.st, id, w) && R.Faithful(blocks, h')
            && (if R.Complete(h', |blocks|)
                then Closed(r.st, id, w, Concat(blocks)) && r.rmsg == Some(w)
                  && r.st.calls == st.calls + Called(st.reg, st.files[id].fcb)
                  && r.st.reg == Released(st.reg, st.files[id].fcb)
                else (Faithful(r.st, id, w, blocks, h') && r.rmsg == None && r.st.calls == st.calls
                      && r.st.reg == st.reg && r.st.files[id].fcb == st.files[id].fcb))
  {
    hide Crc;
    hide Concat;
    hide Tracking;
    hide R.Complete;
    hide R.Commits;
    hide Called;
    BlockStep(st, id, w, |blocks|, h, m);
    if R.Complete(h + [DeliveryOf(m)], |blocks|) {
      FaithfulCommits(blocks, h + [DeliveryOf(m)]);
    }
    hide HandleBlock;
  }

  // ---- A whole stream ----

  datatype Sending = Sending(n: nat, kind: Byte)

  ghost predicate Sendings(count: nat, ks: seq<Sending>) {
    forall k :: 0 <= k < |ks| ==> ks[k].n < count && BlockKind(ks[k].kind)
  }

  // The stream the maker gives for a block.
  ghost function WireOf(st: State, p: Name, key: int, e: Sending): (v: seq<Byte>)
    requires Sendable(st, p) && e.n < |BlocksOf(st, p)| && BlockKind(e.kind)
    ensures Sized(v) && Parse(v) == Ok(SentBlock(st, p, e.n, e.kind))
  {
    MakesBlock(st, p, e.kind, key, e.n);
    Maker(st, p, e.kind, key, e.n).rmsg.value
  }

  // The streams the maker gives for these blocks, in this order.
  ghost function Wires(st: State, p: Name, key: int, ks: seq<Sending>): (vs: seq<seq<Byte>>)
    requires Sendable(st, p) && Sendings(|BlocksOf(st, p)|, ks)
  {
    seq(|ks|, k requires 0 <= k < |ks| => WireOf(st, p, key, ks[k]))
  }

  // What those streams deliver.
  ghost function History(blocks: seq<seq<Byte>>, ks: seq<Sending>): (h: seq<R.Delivery>)
    requires Sendings(|blocks|, ks)
    ensures |h| == |ks| && R.Faithful(blocks, h)
    ensures forall k :: 0 <= k < |ks| ==> h[k].seqno == ks[k].n
  {
    if ks == [] then []
    else History(blocks, ks[..|ks| - 1]) + [R.Delivery(ks[|ks| - 1].n, blocks[ks[|ks| - 1].n])]
  }

  // The session of a stream of true blocks: under way with its history, or closed with the file.
  ghost predicate Stands(st0: State, st: State, id: u32, w: Name, blocks: seq<seq<Byte>>, h: seq<R.Delivery>)
    requires id in st0.files
  {
    && SameElsewhere(st0, st, id, w)
    && (if R.Complete(h, |blocks|)
        then Closed(st, id, w, Concat(blocks)) && st.calls == st0.calls + Called(st0.reg, st0.files[id].fcb)
          && st.reg == Released(st0.reg, st0.files[id].fcb)
        else (Faithful(st, id, w, blocks, h) && st.calls == st0.calls && st.reg == st0.reg
              && st.files[id].fcb == st0.files[id].fcb))
  }

  lemma CompleteGrows(h: seq<R.Delivery>, e: R.Delivery, n: nat)
    requires R.Complete(h, n)
    ensures R.Complete(h + [e], n)
  {
    forall i: nat | i < n
      ensures R.Delivered(h + [e], i)
    {
      assert (h + [e])[..|h|] == h;
      R.DeliveredStep(h + [e], i);
    }
  }

  lemma StandsStep(st0: State, st: State, id: u32, w: Name, blocks: seq<seq<Byte>>, h: seq<R.Delivery>, m: Message)
    requires id in st0.files && Stands(st0, st, id, w, blocks, h) && R.Faithful(blocks, h)
    requires m.Block? && m.fileid == id && m.blockseq < |blocks| && m.content == blocks[m.blockseq]
    ensures id in st.files ==> CtxOk(st.files[id]) && m.blockseq < st.files[id].cap
    ensures Stands(st0, HandleBlock(st, m).st, id, w, blocks, h + [DeliveryOf(m)])
  {
    hide Crc;
    hide Concat;
    hide Faithful;
    hide R.Complete;
    hide Called;
    if R.Complete(h, |blocks|) {
      CompleteGrows(h, DeliveryOf(m), |blocks|);
    } else {
      FaithfulStep(st, id, w, blocks, h, m);
      hide HandleBlock;
    }
  }

  lemma StandsNone(st: State, id: u32, w: Name, blocks: seq<seq<Byte>>)
    requires Faithful(st, id, w, blocks, [])
    ensures id in st.files && Stands(st, st, id, w, blocks, [])
  {
    hide Crc;
    hide Concat;
    hide Path;
    NothingDelivered(|blocks|);
  }

  lemma WireOrdinary(snd: State, p: Name, key: int, rcv: State, w: Name, e: Sending)
    requires Sendable(snd, p) && e.n < |BlocksOf(snd, p)| && BlockKind(e.kind)
    requires Faithful(rcv, Crc(Basename(p)), w, BlocksOf(snd, p), [])
    ensures Ordinary(rcv, WireOf(snd, p, key, e))
  {
    hide Crc;
    hide Basename;
    hide Sized;
    hide Parse;
    hide BlocksOf;
    hide WireOf;
    TrackingOk(rcv, Crc(Basename(p)), w, |BlocksOf(snd, p)|, []);
  }

  lemma {:induction false} Stream(snd: State, p: Name, key: int, rcv: State, w: Name, ks: seq<Sending>)
    requires Sendable(snd, p) && Sendings(|BlocksOf(snd, p)|, ks)
    requires Proper(rcv) && Faithful(rcv, Crc(Basename(p)), w, BlocksOf(snd, p), [])
    ensures forall k :: 0 <= k < |ks| ==> Ordinary(rcv, Wires(snd, p, key, ks)[k])
    ensures Stands(rcv, HandleAll(rcv, Wires(snd, p, key, ks)), Crc(Basename(p)), w, BlocksOf(snd, p),
                   History(BlocksOf(snd, p), ks))
    decreases ks
  {
    hide Crc;
    hide Basename;
    hide Sized;
    hide Parse;
    hide BlocksOf;
    hide WireOf;
    hide Stands;
    hide Faithful;
    hide Ordinary;
    hide HandleBlock;
    var id, blocks, vs := Crc(Basename(p)), BlocksOf(snd, p), Wires(snd, p, key, ks);
    forall k | 0 <= k < |ks|
      ensures Ordinary(rcv, vs[k])
    {
      WireOrdinary(snd, p, key, rcv, w, ks[k]);
    }
    StandsNone(rcv, id, w, blocks);
    if ks == [] {
    } else {
      var n := |ks| - 1;
      Stream(snd, p, key, rcv, w, ks[..n]);
      assert vs[..n] == Wires(snd, p, key, ks[..n]);
      StandsStep(rcv, HandleAll(rcv, vs[..n]), id, w, blocks, History(blocks, ks[..n]),
                 SentBlock(snd, p, ks[n].n, ks[n].kind));
    }
  }

  // A receiver on which the HELLO for p opens a new session: file id 0 and its own are free, and so is a name.
  ghost predicate Ready(rcv: State, p: Name) {
    && Proper(rcv) && 0 !in rcv.files && Crc(Basename(p)) !in rcv.files
    && WorkingName(rcv, Basename(p)).Some?
  }

  ghost function HelloOf(snd: State, p: Name, key: int): (v: seq<Byte>)
    requires Sendable(snd, p)
    ensures Sized(v) && Parse(v) == Ok(Hello(Low8(key), |BlocksOf(snd, p)|, Basename(p), Crc(snd.fs[p])))
  {
    MakesHello(snd, p, key, 0);
    Maker(snd, p, TYPE_HELLO, key, 0).rmsg.value
  }

  // The receiver's answer to it.
  ghost function Greeting(snd: State, rcv: State, p: Name, key: int): Reply
    requires Sendable(snd, p) && Ready(rcv, p)
  {
    Handle(rcv, HelloOf(snd, p, key))
  }

  // The HELLO and its answer: the session is open, and the ACK names its file id.
  lemma HelloGreets(snd: State, rcv: State, p: Name, key: int)
    requires Sendable(snd, p) && Ready(rcv, p)
    ensures var r, id, w := Greeting(snd, rcv, p, key), Crc(Basename(p)), WorkingName(rcv, Basename(p)).value;
            && r.rv == OK && r.rmsg == Some(Wire(Ack(Low8(key), id))) && Proper(r.st)
            && Faithful(r.st, id, w, BlocksOf(snd, p), [])
            && r.st.files - {id} == rcv.files
            && r.st.fs - {Path(rcv.dir, PartName(w))} == rcv.fs - {Path(rcv.dir, PartName(w))}
            && r.st.dir == rcv.dir && r.st.bs == rcv.bs && r.st.calls == rcv.calls && r.st.senders == rcv.senders
            && var (bound, fcb) := Bind(rcv, Basename(p));
               r.st.reg == bound.reg && r.st.ids == bound.ids && r.st.files[id].fcb == fcb
  {
    hide Crc;
    hide Basename;
    hide CStr;
    hide Wire;
    hide Concat;
    hide BlocksOf;
    hide HelloOf;
    hide Path;
    hide Sized;
    var m := Hello(Low8(key), |BlocksOf(snd, p)|, Basename(p), Crc(snd.fs[p]));
    BlocksAreFile(snd, p);
    BasenameOfBasename(p);
    assert Parse(HelloOf(snd, p, key)) == Ok(m);
    hide Parse;
    HelloOpens(rcv, m);
    HelloEffect(rcv, m);
    hide HandleHello;
    hide Tracking;
  }

  // The receiver once it has been greeted and then sent these blocks.
  ghost function After(snd: State, rcv: State, p: Name, key: int, ks: seq<Sending>): State
    requires Sendable(snd, p) && Ready(rcv, p) && Sendings(|BlocksOf(snd, p)|, ks)
  {
    HelloGreets(snd, rcv, p, key);
    var greeted := Greeting(snd, rcv, p, key).st;
    Stream(snd, p, key, greeted, WorkingName(rcv, Basename(p)).value, ks);
    HandleAll(greeted, Wires(snd, p, key, ks))
  }

  // What lies under everybody else's names and ids is as it was.
  ghost predicate NothingElse(rcv: State, fin: State, id: u32, w: Name) {
    && fin.files - {id} == rcv.files
    && OnlyAt(rcv, fin, {rcv.dir + w, PartIn(rcv.dir, w)})
    && fin.dir == rcv.dir && fin.bs == rcv.bs && fin.senders == rcv.senders
  }

  lemma ElseUntouched(rcv: State, greeted: State, fin: State, id: u32, w: Name)
    requires id !in rcv.files && greeted.files - {id} == rcv.files
    requires greeted.fs - {Path(rcv.dir, PartName(w))} == rcv.fs - {Path(rcv.dir, PartName(w))}
    requires greeted.dir == rcv.dir && greeted.bs == rcv.bs && greeted.senders == rcv.senders
    requires SameElsewhere(greeted, fin, id, w)
    ensures NothingElse(rcv, fin, id, w) && fin.ids == greeted.ids
  {
    hide Path;
    hide PartName;
    hide PartIn;
    PartInIs(rcv.dir, w);
    var part := Path(rcv.dir, PartName(w));
    var ps := {Path(rcv.dir, w), part};
    forall q | q !in ps
      ensures Lookup(fin.fs, q) == Lookup(rcv.fs, q)
    {
      assert Lookup(greeted.fs, q) == Lookup(greeted.fs - {part}, q) == Lookup(rcv.fs - {part}, q);
      assert Lookup(fin.fs, q) == Lookup(fin.fs - ps, q) == Lookup(greeted.fs - ps, q);
    }
  }

  // The part file holds the blocks before the first one that is missing, and those bytes of the file.
  ghost predicate Partial(st: State, id: u32, w: Name, bs: nat, count: nat, h: seq<R.Delivery>, file: seq<Byte>) {
    && id in st.files
    && var next := st.files[id].nextid;
       && next < count && R.IsNext(count, h, next) && B.Start(next, bs) <= |file|
       && Lookup(st.fs, PartIn(st.dir, w)) == Some(file[..B.Start(next, bs)])
  }

  // From the sender's file to the receiver's. HELLO opens the session; then, whichever of the file's blocks
  // come, in whatever order and however often, the part file is the file up to the first missing block, and
  // when none is missing the file stands complete under the working name, its hash checked, the session gone,
  // its entry released, and its callback run once: that of the entry with the file's name, or else slot 0's.
  // No other file, session or sender path is touched.
  lemma Transfers(snd: State, rcv: State, p: Name, key: int, ks: seq<Sending>)
    requires Sendable(snd, p) && Ready(rcv, p) && Sendings(|BlocksOf(snd, p)|, ks)
    ensures var greeted, fin := Greeting(snd, rcv, p, key).st, After(snd, rcv, p, key, ks);
            var id, w, h, file := Crc(Basename(p)), WorkingName(rcv, Basename(p)).value,
                                  History(BlocksOf(snd, p), ks), snd.fs[p];
            && id in greeted.files && NothingElse(rcv, fin, id, w) && fin.ids == greeted.ids
            && (if R.Complete(h, |BlocksOf(snd, p)|)
                then id !in fin.files && Lookup(fin.fs, rcv.dir + w) == Some(file) && PartIn(rcv.dir, w) !in fin.fs
                  && fin.calls == rcv.calls + Called(greeted.reg, greeted.files[id].fcb)
                  && fin.reg == Released(greeted.reg, greeted.files[id].fcb)
                  && (WellFormed(rcv) ==> fin.calls == rcv.calls + CallOf(EntryFor(rcv, Basename(p))))
                else (Partial(fin, id, w, snd.bs, |BlocksOf(snd, p)|, h, file)
                  && fin.calls == rcv.calls && fin.reg == greeted.reg))
  {
    hide *;
    ReadyFresh(rcv, p);
    var id, w, blocks := Crc(Basename(p)), WorkingName(rcv, Basename(p)).value, BlocksOf(snd, p);
    var greeted, fin := Greeting(snd, rcv, p, key).st, After(snd, rcv, p, key, ks);
    var h := History(blocks, ks);
    HelloGreets(snd, rcv, p, key);
    AfterStands(snd, rcv, p, key, ks);
    StandsParts(greeted, fin, id, w, blocks, h);
    BlocksAreFile(snd, p);
    ElseUntouched(rcv, greeted, fin, id, w);
    if !R.Complete(h, |blocks|) {
      PartOfFile(snd, p, fin, id, w, h);
    } else {
      ClosedIs(fin, id, w, Concat(blocks));
      SameWhere(rcv, fin, id, w);
      if WellFormed(rcv) {
        BindReleased(rcv, Basename(p));
      }
    }
  }

  // Closed, in terms of the paths themselves.
  lemma ClosedIs(st: State, id: u32, w: Name, file: seq<Byte>)
    ensures Closed(st, id, w, file)
       <==> id !in st.files && Lookup(st.fs, st.dir + w) == Some(file) && PartIn(st.dir, w) !in st.fs
  {
    hide Path;
    hide PartName;
    hide PartIn;
    PartInIs(st.dir, w);
  }

  lemma SameWhere(rcv: State, fin: State, id: u32, w: Name)
    requires NothingElse(rcv, fin, id, w)
    ensures fin.dir == rcv.dir
  {
  }

  lemma ReadyFresh(rcv: State, p: Name)
    requires Ready(rcv, p)
    ensures Crc(Basename(p)) !in rcv.files && rcv.reg != [] && WorkingName(rcv, Basename(p)).Some?
  {
    hide Crc;
    hide Basename;
    hide WorkingName;
  }

  lemma AfterStands(snd: State, rcv: State, p: Name, key: int, ks: seq<Sending>)
    requires Sendable(snd, p) && Ready(rcv, p) && Sendings(|BlocksOf(snd, p)|, ks)
    ensures Crc(Basename(p)) in Greeting(snd, rcv, p, key).st.files
    ensures Stands(Greeting(snd, rcv, p, key).st, After(snd, rcv, p, key, ks), Crc(Basename(p)),
                   WorkingName(rcv, Basename(p)).value, BlocksOf(snd, p), History(BlocksOf(snd, p), ks))
  {
    hide Crc;
    hide Basename;
    hide WorkingName;
    hide BlocksOf;
    hide Greeting;
    hide HandleAll;
    hide Wires;
    hide Stands;
    hide History;
    HelloGreets(snd, rcv, p, key);
    Stream(snd, p, key, Greeting(snd, rcv, p, key).st, WorkingName(rcv, Basename(p)).value, ks);
  }

  lemma StandsParts(st0: State, st: State, id: u32, w: Name, blocks: seq<seq<Byte>>, h: seq<R.Delivery>)
    requires id in st0.files && Stands(st0, st, id, w, blocks, h)
    ensures SameElsewhere(st0, st, id, w)
    ensures R.Complete(h, |blocks|) ==>
              && Closed(st, id, w, Concat(blocks)) && st.calls == st0.calls + Called(st0.reg, st0.files[id].fcb)
              && st.reg == Released(st0.reg, st0.files[id].fcb)
    ensures !R.Complete(h, |blocks|) ==> Faithful(st, id, w, blocks, h) && st.calls == st0.calls && st.reg == st0.reg
  {
    hide Crc;
    hide Path;
    hide Concat;
    hide Released;
    hide Called;
    hide Closed;
    hide Faithful;
    hide SameElsewhere;
    hide R.Complete;
  }

  // What a whole transfer leaves of the registry: an entry registered for its name is taken out, but a name
  // nobody registered stays behind, if there was a slot free when HELLO came.
  lemma EntryAfterTransfer(snd: State, rcv: State, p: Name, key: int, ks: seq<Sending>)
    requires Sendable(snd, p) && Ready(rcv, p) && Sendings(|BlocksOf(snd, p)|, ks) && WellFormed(rcv)
    requires R.Complete(History(BlocksOf(snd, p), ks), |BlocksOf(snd, p)|)
    ensures rcv.reg != [] && After(snd, rcv, p, key, ks).reg == RegistryAfter(rcv, Basename(p))
  {
    hide *;
    ReadyFresh(rcv, p);
    Transfers(snd, rcv, p, key, ks);
    HelloGreets(snd, rcv, p, key);
    BindReleased(rcv, Basename(p));
  }

  // While the session is open, its part file is the file up to the first missing block.
  lemma PartOfFile(snd: State, p: Name, st: State, id: u32, w: Name, h: seq<R.Delivery>)
    requires Sendable(snd, p) && Faithful(st, id, w, BlocksOf(snd, p), h)
    ensures Partial(st, id, w, snd.bs, |BlocksOf(snd, p)|, h, snd.fs[p])
  {
    hide Crc;
    hide Path;
    hide PartName;
    hide PartIn;
    hide Concat;
    PartInIs(st.dir, w);
    var blocks := BlocksOf(snd, p);
    var next := st.files[id].nextid;
    TrackingOk(st, id, w, |blocks|, h);
    R.PartIsPrefix(blocks, h);
    hide R.Run;
    B.ChunksConcat(snd.fs[p], snd.bs, next);
    assert blocks[..next] == B.Chunks(snd.fs[p], snd.bs, next);
  }

  // What the session's len counts on the way: the blocks appended and the slots in use, except when the file is
  // a whole number of blocks and its empty last block has come more than once.
  lemma CountOfFile(snd: State, p: Name, st: State, id: u32, w: Name, h: seq<R.Delivery>)
    requires Sendable(snd, p) && Faithful(st, id, w, BlocksOf(snd, p), h)
    ensures st.files[id].len == st.files[id].nextid + R.Held(st.files[id].entries)
       <==> |snd.fs[p]| % snd.bs != 0 || R.Times(h, |BlocksOf(snd, p)| - 1) <= 1
  {
    hide Crc;
    hide Path;
    hide Concat;
    var blocks := BlocksOf(snd, p);
    B.Partition(snd.fs[p], snd.bs);
    B.LastEmpty(snd.fs[p], snd.bs);
    hide B.Chunk;
    R.CountsRight(blocks, h);
    hide R.Run;
  }

  // ---- With other transfers going on ----

  lemma GreetingApart(snd: State, rcv: State, p: Name, key: int)
    requires Sendable(snd, p) && Ready(rcv, p) && LiveApart(rcv) && Backed(rcv)
    requires Clear(rcv, Basename(p))
    ensures LiveApart(Greeting(snd, rcv, p, key).st)
  {
    hide Crc;
    hide Basename;
    hide CStr;
    hide HelloOf;
    hide BlocksOf;
    hide Sized;
    hide LiveApart;
    hide Backed;
    hide Clear;
    hide WorkingName;
    var m := Hello(Low8(key), |BlocksOf(snd, p)|, Basename(p), Crc(snd.fs[p]));
    assert Parse(HelloOf(snd, p, key)) == Ok(m);
    hide Parse;
    HelloKeepsApart(rcv, m);
    hide HandleHello;
  }

  // What can be seen of a session tells whether it is closed and how far its part file reaches.
  lemma SeenEnds(st: State, st': State, id: u32, w: Name, bs: nat, count: nat, h: seq<R.Delivery>, file: seq<Byte>)
    requires See(st, id, w) == See(st', id, w) && st.dir == st'.dir
    ensures Closed(st, id, w, file) ==> Closed(st', id, w, file)
    ensures Partial(st, id, w, bs, count, h, file) ==> Partial(st', id, w, bs, count, h, file)
  {
    hide Path;
    hide PartName;
    hide R.IsNext;
    hide B.Start;
    hide PartIn;
    PartInIs(st.dir, w);
    assert Lookup(st.files, id) == Lookup(st'.files, id);
    assert Lookup(st.fs, Path(st.dir, w)) == Lookup(st'.fs, Path(st.dir, w));
    assert Lookup(st.fs, Path(st.dir, PartName(w))) == Lookup(st'.fs, Path(st.dir, PartName(w)));
  }

  // A transfer among others. Its HELLO passes the check of its working name; then its own blocks arrive in
  // any order, with loss and repetition, between any blocks of other sessions, ACKs and noise: the file
  // stands complete when none of its blocks is missing, and until then its part file is the file up to the
  // first that is.
  lemma InterleavedTransfer(snd: State, rcv: State, p: Name, key: int, ks: seq<Sending>, msgs: seq<seq<Byte>>)
    requires Sendable(snd, p) && Ready(rcv, p) && Sendings(|BlocksOf(snd, p)|, ks)
    requires LiveApart(rcv) && Backed(rcv) && Clear(rcv, Basename(p))
    requires forall k :: 0 <= k < |msgs| ==> Ordinary(Greeting(snd, rcv, p, key).st, msgs[k])
    requires Project(msgs, Crc(Basename(p))) == Wires(snd, p, key, ks)
    ensures Proper(Greeting(snd, rcv, p, key).st)
    ensures var fin := HandleAll(Greeting(snd, rcv, p, key).st, msgs);
            var id, w, h := Crc(Basename(p)), WorkingName(rcv, Basename(p)).value, History(BlocksOf(snd, p), ks);
            if R.Complete(h, |BlocksOf(snd, p)|)
            then id !in fin.files && Lookup(fin.fs, rcv.dir + w) == Some(snd.fs[p]) && PartIn(rcv.dir, w) !in fin.fs
            else Partial(fin, id, w, snd.bs, |BlocksOf(snd, p)|, h, snd.fs[p])
  {
    hide *;
    ReadyFresh(rcv, p);
    HelloGreets(snd, rcv, p, key);
    GreetingApart(snd, rcv, p, key);
    var greeted, id, w := Greeting(snd, rcv, p, key).st, Crc(Basename(p)), WorkingName(rcv, Basename(p)).value;
    FaithfulNamed(greeted, id, w, BlocksOf(snd, p), []);
    LiveNamesApart(greeted);
    LiveNamesHas(greeted, id);
    Interleave(greeted, LiveNames(greeted), id, msgs);
    AfterIs(snd, rcv, p, key, ks);
    Transfers(snd, rcv, p, key, ks);
    var fin, alone := HandleAll(greeted, msgs), After(snd, rcv, p, key, ks);
    SameDir(greeted, fin);
    SameDir(greeted, alone);
    BlocksAreFile(snd, p);
    var blocks := BlocksOf(snd, p);
    SeenEnds(alone, fin, id, w, snd.bs, |blocks|, History(blocks, ks), Concat(blocks));
    ClosedIs(alone, id, w, Concat(blocks));
    ClosedIs(fin, id, w, Concat(blocks));
    SameWhere(rcv, alone, id, w);
  }

  lemma FaithfulNamed(st: State, id: u32, w: Name, blocks: seq<seq<Byte>>, h: seq<R.Delivery>)
    requires Faithful(st, id, w, blocks, h)
    ensures id in st.files && st.files[id].wfname == w
  {
  }

  lemma LiveNamesHas(st: State, id: u32)
    requires id in st.files
    ensures id in LiveNames(st) && LiveNames(st)[id] == st.files[id].wfname
  {
  }

  lemma SameDir(st: State, st': State)
    requires Continues(st, st')
    ensures st'.dir == st.dir
  {
  }

  lemma AfterIs(snd: State, rcv: State, p: Name, key: int, ks: seq<Sending>)
    requires Sendable(snd, p) && Ready(rcv, p) && Sendings(|BlocksOf(snd, p)|, ks)
    ensures Proper(Greeting(snd, rcv, p, key).st)
    ensures forall k :: 0 <= k < |ks| ==> Ordinary(Greeting(snd, rcv, p, key).st, Wires(snd, p, key, ks)[k])
    ensures After(snd, rcv, p, key, ks) == HandleAll(Greeting(snd, rcv, p, key).st, Wires(snd, p, key, ks))
  {
    hide HandleAll;
    hide Greeting;
    hide Ordinary;
    hide Proper;
    HelloGreets(snd, rcv, p, key);
    Stream(snd, p, key, Greeting(snd, rcv, p, key).st, WorkingName(rcv, Basename(p)).value, ks);
  }
}
