// What the calls answer, in numbers and bytes: results, messages made, progress reported, callbacks run.
module Outcomes {
  import opened Options
  import opened Status
  import opened Bytes
  import opened Messages
  import opened Names
  import opened Pieces
  import opened WireFormat
  import opened Protocol
  import opened Registry
  import opened Transfer
  import opened EndToEnd
  import B = Blocks
  import R = Reassembly

  // ---- The maker ----

  // p is a path to b: b itself, or b in some directory.
  ghost predicate Leads(p: Name, b: Name) {
    b != [] && NoSlash(b) && (p == b || exists d: Name :: p == d + [0x2F] + b)
  }

  lemma LeadsToBase(p: Name, b: Name)
    requires Leads(p, b)
    ensures Basename(p) == b
  {
    hide Basename;
    assert b + Slashes(0) == b;
    if p == b {
      BasenameOf([], b, 0);
    } else {
      var d: Name :| p == d + [0x2F] + b;
      BasenameOf(d, b, 0);
      assert d + [0x2F] + b + Slashes(0) == d + [0x2F] + b;
    }
  }

  // The result the maker returns.
  ghost function MakerCode(st: State, p: Name, kind: Byte, n: int): int
    requires st.bs > 0
  {
    if kind == 1 then
      if p !in st.fs then 2 else if |st.fs[p]| / st.bs + 1 > 65535 then 4 else 0
    else if kind == 3 || kind == 4 then
      if n < 0 then 5 else if p !in st.fs then 2 else if n > |st.fs[p]| / st.bs then 4 else 0
    else if kind == 5 then
      if n < 0 then 5 else 0
    else if kind == 2 then 0
    else 18
  }

  // What it refuses, and that a refusal makes nothing and changes nothing.
  lemma MakerRefuses(st: State, p: Name, kind: Byte, key: int, n: int)
    requires st.bs > 0 && Fits(st, p, kind, n)
    ensures var r := Maker(st, p, kind, key, n);
            && r.rv == MakerCode(st, p, kind, n) && (r.rmsg.Some? <==> r.rv == 0)
            && (r.rv != 0 || kind != 1 ==> r.st == st)
            && (r.rv == 0 && kind == 1 ==> r.st == st.(senders := st.senders[Crc(Basename(p)) := p]))
  {
    hide Crc;
    hide Basename;
    hide Wire;
    hide B.BlockRead;
  }

  lemma LowDigits(key: int)
    ensures Low8(key) as int == key % 0x100 && Low16(key) == key % 0x1_0000
  {
    hide ToByte;
    ValueTrip(key % 0x100);
  }

  // What must hold for a message to be made.
  ghost predicate CanMake(st: State, p: Name, kind: Byte, n: int)
    requires st.bs > 0
  {
    && (kind == 1 ==> p in st.fs && B.Count(|st.fs[p]|, st.bs) <= 65535)
    && (kind == 3 || kind == 4 ==> p in st.fs && 0 <= n < B.Count(|st.fs[p]|, st.bs))
    && (kind == 5 ==> 0 <= n)
  }

  lemma CodeTells(st: State, p: Name, kind: Byte, n: int)
    requires st.bs > 0 && MakerCode(st, p, kind, n) == 0
    ensures CanMake(st, p, kind, n) && kind in {1, 2, 3, 4, 5}
  {
  }

  // The message made, when one is.
  ghost function Made(st: State, p: Name, kind: Byte, key: int, n: int): Message
    requires st.bs > 0 && CanMake(st, p, kind, n)
  {
    var id := Crc(Basename(p));
    if kind == 1 then Hello(Low8(key), B.Count(|st.fs[p]|, st.bs), Basename(p), Crc(st.fs[p]))
    else if kind == 3 || kind == 4 then Block(kind == 4, id, n % 0x1_0000, B.BlockRead(st.fs[p], st.bs, n))
    else if kind == 5 then Giveme(id, n % 0x1_0000)
    else Ack(Low8(key), id)
  }

  lemma MakerMakes(st: State, p: Name, kind: Byte, key: int, n: int)
    requires st.bs > 0 && Fits(st, p, kind, n) && MakerCode(st, p, kind, n) == 0
    ensures CanMake(st, p, kind, n)
    ensures var r := Maker(st, p, kind, key, n);
            && r.rv == 0 && r.rmsg.Some? && Sized(r.rmsg.value)
            && Parse(r.rmsg.value) == Ok(Made(st, p, kind, key, n))
  {
    LowDigits(n);
    CodeTells(st, p, kind, n);
    MakerRefuses(st, p, kind, key, n);
    hide Crc;
    hide Basename;
    hide B.BlockRead;
    hide Low8;
    hide Low16;
    hide Wire;
    var m := Made(st, p, kind, key, n);
    assert Encodable(m);
    assert Maker(st, p, kind, key, n).rmsg == Some(Wire(m));
    RoundTrip(m);
    hide Parse;
    hide Sized;
    hide Maker;
  }

  // What the messages made from a path to b say, as their receiver reads them.
  lemma MakerSays(st: State, p: Name, b: Name, kind: Byte, key: int, n: int)
    requires st.bs > 0 && Fits(st, p, kind, n) && Leads(p, b) && MakerCode(st, p, kind, n) == 0
    ensures kind == 1 || kind == 3 || kind == 4 ==> p in st.fs
    ensures kind == 3 || kind == 4 ==> 0 <= n < B.Count(|st.fs[p]|, st.bs)
    ensures var r, k := Maker(st, p, kind, key, n), Low8(key);
            && k as int == key % 0x100
            && r.rv == 0 && r.rmsg.Some? && Sized(r.rmsg.value) && Parse(r.rmsg.value).Ok?
            && var m := Parse(r.rmsg.value).message;
               && (kind == 1 ==> m == Hello(k, |st.fs[p]| / st.bs + 1, b, Crc(st.fs[p])))
               && (kind == 2 ==> m == Ack(k, Crc(b)))
               && (kind == 3 || kind == 4 ==>
                     m == Block(kind == 4, Crc(b), n % 0x1_0000, B.BlockRead(st.fs[p], st.bs, n)))
               && (kind == 5 ==> m == Giveme(Crc(b), n % 0x1_0000))
  {
    hide Crc;
    hide Basename;
    hide Leads;
    hide B.BlockRead;
    hide Low8;
    hide Parse;
    hide Sized;
    hide Maker;
    LeadsToBase(p, b);
    LowDigits(key);
    CodeTells(st, p, kind, n);
    MakerMakes(st, p, kind, key, n);
  }

  // ---- The handler, where no session is at stake ----

  // Noise is refused with its code, an ACK accepted; neither changes or answers anything.
  lemma AsideAnswers(st: State, msg: seq<Byte>)
    requires Proper(st) && Sized(msg) && (Parse(msg).Ok? ==> Parse(msg).message.Ack?)
    ensures Handle(st, msg) == Reply(st, if Parse(msg).Ok? then 0 else Parse(msg).code, None)
  {
    hide Parse;
    hide Sized;
  }

  // A GIVEME for a file not announced is refused with 17, for one no longer there with 2; one for a block past
  // the end is not refused, but nothing is sent. The answer to any other is that block, as END exactly if it is
  // the last.
  lemma GivemeAnswers(st: State, m: Message)
    requires Proper(st) && m.Giveme? && Acceptable(st, m)
    ensures var r := HandleGiveme(st, m);
            && r.st == st
            && (m.fileid !in st.senders ==> r.rv == 17 && r.rmsg == None)
            && (m.fileid in st.senders && st.senders[m.fileid] !in st.fs ==> r.rv == 2 && r.rmsg == None)
    ensures m.fileid in st.senders && st.senders[m.fileid] in st.fs ==>
              var r, p := HandleGiveme(st, m), st.senders[m.fileid];
              var count := |st.fs[p]| / st.bs + 1;
              && r.rv == 0 && (r.rmsg.Some? <==> m.blockseq < count)
              && (m.blockseq < count ==>
                    && Sized(r.rmsg.value)
                    && Parse(r.rmsg.value) == Ok(Block(m.blockseq + 1 == count, Crc(Basename(p)), m.blockseq,
                                                       B.BlockRead(st.fs[p], st.bs, m.blockseq))))
  {
    hide Crc;
    hide Basename;
    hide B.BlockRead;
    hide Maker;
    hide Parse;
    hide Sized;
    hide Fits;
    if m.fileid in st.senders && st.senders[m.fileid] in st.fs {
      var p := st.senders[m.fileid];
      var kind := if m.blockseq + 1 == |st.fs[p]| / st.bs + 1 then TYPE_END else TYPE_FILE;
      MadeFits(st, m);
      MakerRefuses(st, p, kind, m.fileid, m.blockseq);
      if m.blockseq < |st.fs[p]| / st.bs + 1 {
        MakerMakes(st, p, kind, m.fileid, m.blockseq);
      }
    }
  }

  lemma MadeFits(st: State, m: Message)
    requires Proper(st) && m.Giveme? && Acceptable(st, m) && m.fileid in st.senders
    ensures Fits(st, st.senders[m.fileid], TYPE_FILE, m.blockseq) && Fits(st, st.senders[m.fileid], TYPE_END, m.blockseq)
  {
    hide Basename;
    hide B.BlockRead;
  }

  // ---- Progress ----

  // A session's capacity, and the least block number that has not come.
  lemma StatusTells(st: State, id: u32, w: Name, cap: nat, h: seq<R.Delivery>, f: Name, was: int)
    requires Tracking(st, id, w, cap, h) && Crc(Basename(f)) == id
    ensures var s := RecvStatus(st, f, was);
            s.rv == 0 && s.cap == cap && 0 <= s.nextseq < cap && R.IsNext(cap, h, s.nextseq)
  {
    hide Crc;
    hide Basename;
    TrackingOk(st, id, w, cap, h);
    RunFacts(cap, h);
    hide R.Run;
  }

  lemma StatusUnknown(st: State, f: Name, was: int)
    requires Crc(Basename(f)) !in st.files
    ensures var s := RecvStatus(st, f, was); s.rv == 17 && s.cap == was && s.nextseq == -1
  {
    hide Crc;
    hide Basename;
  }

  // What the receiver reports at any moment of a transfer, asked by any path to the file's base name: the number
  // of its blocks, right after HELLO with 0 to come next; and nothing once it is whole.
  lemma StatusOfTransfer(snd: State, rcv: State, p: Name, key: int, ks: seq<Sending>, f: Name, was: int)
    requires Sendable(snd, p) && Ready(rcv, p) && Sendings(|BlocksOf(snd, p)|, ks) && Basename(f) == Basename(p)
    ensures var s, h := RecvStatus(After(snd, rcv, p, key, ks), f, was), History(BlocksOf(snd, p), ks);
            if R.Complete(h, |BlocksOf(snd, p)|) then s.rv == 17 && s.cap == was && s.nextseq == -1
            else (s.rv == 0 && s.cap == |snd.fs[p]| / snd.bs + 1 && 0 <= s.nextseq
              && R.IsNext(s.cap, h, s.nextseq) && (ks == [] ==> s.nextseq == 0))
  {
    hide Crc;
    hide Basename;
    hide WorkingName;
    hide Greeting;
    hide Wires;
    hide HandleAll;
    hide Stands;
    hide After;
    hide Tracking;
    hide R.IsNext;
    hide R.Complete;
    var blocks, h := BlocksOf(snd, p), History(BlocksOf(snd, p), ks);
    var fin, id, w := After(snd, rcv, p, key, ks), Crc(Basename(p)), WorkingName(rcv, Basename(p)).value;
    AfterStands(snd, rcv, p, key, ks);
    StandsParts(Greeting(snd, rcv, p, key).st, fin, id, w, blocks, h);
    hide RecvStatus;
    if R.Complete(h, |blocks|) {
      StatusUnknown(fin, f, was);
    } else {
      StatusTells(fin, id, w, |blocks|, h, f, was);
      if ks == [] {
        NextOfNone(|blocks|, RecvStatus(fin, f, was).nextseq);
      }
    }
  }

  lemma NextOfNone(cap: nat, n: nat)
    requires R.IsNext(cap, [], n)
    ensures n == 0
  {
    assert !R.Delivered([], 0);
  }

  // The mark a session bears: 1 from its HELLO, 3 or 4 from its last FILE or END, 5 once it has failed its hash
  // check.
  lemma HelloMarks(st: State, m: Message)
    requires Proper(st) && m.Hello? && Acceptable(st, m) && HandleHello(st, m).rv == 0
    ensures var st', id := HandleHello(st, m).st, Crc(CStr(m.fname));
            id in st'.files && st'.files[id].status == Some(1)
  {
    hide Crc;
    hide CStr;
    hide Path;
    hide Wire;
    hide Bind;
    hide WorkingName;
  }

  lemma BlockMarks(st: State, m: Message)
    requires Proper(st) && m.Block? && Acceptable(st, m) && m.fileid in st.files
    ensures var r := HandleBlock(st, m);
            && (r.rv == 0 && m.fileid in r.st.files ==>
                  r.rmsg == None && r.st.files[m.fileid].status == Some(if m.last then 4 else 3))
            && (r.rv == 11 ==> m.fileid in r.st.files && r.st.files[m.fileid].status == Some(5))
            && r.rv in {0, 2, 11}
  {
    hide Crc;
    hide Path;
    hide PartName;
    hide R.Receive;
    hide Released;
    hide Called;
  }

  // ---- Callbacks ----

  ghost predicate Whole(snd: State, p: Name, ks: seq<Sending>)
    requires Sendable(snd, p) && Sendings(|BlocksOf(snd, p)|, ks)
  {
    R.Complete(History(BlocksOf(snd, p), ks), |BlocksOf(snd, p)|)
  }

  lemma RegisterProper(st: State, fname: Name, cb: nat, arg: int)
    requires WellFormed(st)
    ensures WellFormed(Register(st, fname, cb, arg).st) && Proper(Register(st, fname, cb, arg).st)
    ensures Register(st, fname, cb, arg).st.calls == st.calls
  {
    hide Crc;
    RegisterKeeps(st, fname, cb, arg);
    WellFormedProper(Register(st, fname, cb, arg).st);
  }

  // A name registered before its transfer: the whole file having come, (cb, arg) has been run, once, and the
  // registry is what it was before the name was registered.
  lemma RegisteredRuns(snd: State, st: State, p: Name, cb: nat, arg: int, key: int, ks: seq<Sending>)
    requires Sendable(snd, p) && Sendings(|BlocksOf(snd, p)|, ks) && Whole(snd, p, ks)
    requires WellFormed(st) && Basename(p) != [0x2A] && Register(st, Basename(p), cb, arg).rv == 0
    requires Ready(Register(st, Basename(p), cb, arg).st, p)
    ensures var fin := After(snd, Register(st, Basename(p), cb, arg).st, p, key, ks);
            fin.calls == st.calls + (if cb != 0 then [(cb, arg)] else []) && fin.reg == st.reg
  {
    hide *;
    var b := Basename(p);
    var rcv := Register(st, b, cb, arg).st;
    RegisterProper(st, b, cb, arg);
    RegisterOne(st, b, cb, arg, b);
    IsWhole(snd, p, ks);
    Transfers(snd, rcv, p, key, ks);
    EntryAfterTransfer(snd, rcv, p, key, ks);
    AddedGoes(st, b, cb, arg);
  }

  lemma IsWhole(snd: State, p: Name, ks: seq<Sending>)
    requires Sendable(snd, p) && Sendings(|BlocksOf(snd, p)|, ks)
    ensures Whole(snd, p, ks) <==> R.Complete(History(BlocksOf(snd, p), ks), |BlocksOf(snd, p)|)
  {
  }

  lemma AddedGoes(st: State, b: Name, cb: nat, arg: int)
    requires WellFormed(st) && b != [0x2A] && Register(st, b, cb, arg).rv == 0
    ensures Register(st, b, cb, arg).st.reg != [] && RegistryAfter(Register(st, b, cb, arg).st, b) == st.reg
  {
    hide Crc;
    hide Bound;
    hide LastName;
    var st', n := Register(st, b, cb, arg).st, |st.reg|;
    assert st'.reg[..n] == st.reg && |st'.reg| == n + 1 && st'.reg[n].fname == b;
    RegisterKeeps(st, b, cb, arg);
    LastNameHas(st'.reg, b);
    assert st'.reg[n + 1..] == [] && st.reg + [] == st.reg;
  }

  // With "*" registered, a name that has no entry of its own runs that callback.
  lemma StarRuns(snd: State, st: State, p: Name, cb: nat, arg: int, key: int, ks: seq<Sending>)
    requires Sendable(snd, p) && Sendings(|BlocksOf(snd, p)|, ks) && Whole(snd, p, ks)
    requires WellFormed(st) && !HasEntry(st.reg, Basename(p)) && Ready(Register(st, [0x2A], cb, arg).st, p)
    ensures var fin := After(snd, Register(st, [0x2A], cb, arg).st, p, key, ks);
            fin.calls == st.calls + (if cb != 0 then [(cb, arg)] else [])
  {
    hide *;
    RegisterProper(st, [0x2A], cb, arg);
    RegisterAll(st, cb, arg, Basename(p));
    IsWhole(snd, p, ks);
    Transfers(snd, Register(st, [0x2A], cb, arg).st, p, key, ks);
  }

  // ---- The transfer of test/proto.c ----

  // "demo.txt", "./demo.txt", "./build/" and "./build/demo.txt".
  const DEMO: Name := [0x64, 0x65, 0x6D, 0x6F, 0x2E, 0x74, 0x78, 0x74]
  const DEMO_PATH: Name := [0x2E, 0x2F] + DEMO
  const BUILD: Name := [0x2E, 0x2F, 0x62, 0x75, 0x69, 0x6C, 0x64, 0x2F]
  const BUILT: Name := [0x2E, 0x2F, 0x62, 0x75, 0x69, 0x6C, 0x64, 0x2F, 0x64, 0x65, 0x6D, 0x6F, 0x2E, 0x74, 0x78, 0x74]

  lemma DemoReady(disk: Files, bs: u32, cb: nat, arg: int)
    requires bs > 0 && BUILT !in disk
    ensures var st := Init(BUILD, bs, disk); var rcv := Register(st, [0x2A], cb, arg).st;
            && Basename(DEMO_PATH) == DEMO && !HasEntry(st.reg, DEMO)
            && WellFormed(st) && Ready(rcv, DEMO_PATH) && WorkingName(rcv, DEMO) == Some(DEMO)
            && rcv.dir == BUILD && BUILD + DEMO == BUILT && rcv.files == map[] && st.calls == []
  {
    assert DEMO_PATH == [0x2E] + [0x2F] + DEMO && BUILD + DEMO == BUILT;
    LeadsToBase(DEMO_PATH, DEMO);
    InitServes(BUILD, bs, disk, cb, arg, DEMO);
    RegisterProper(Init(BUILD, bs, disk), [0x2A], cb, arg);
    hide Crc;
    hide Basename;
  }

  // Whatever "./demo.txt" holds, and in whatever order and however often its blocks come: once all have,
  // "./build/demo.txt" holds the same, no session is left, and (cb, arg), registered for "*", has been run once.
  lemma Demo(snd: State, disk: Files, bs: u32, cb: nat, arg: int, key: int, ks: seq<Sending>)
    requires Sendable(snd, DEMO_PATH) && Sendings(|BlocksOf(snd, DEMO_PATH)|, ks) && Whole(snd, DEMO_PATH, ks)
    requires bs > 0 && BUILT !in disk && cb != 0
    ensures Ready(Register(Init(BUILD, bs, disk), [0x2A], cb, arg).st, DEMO_PATH)
    ensures var fin := After(snd, Register(Init(BUILD, bs, disk), [0x2A], cb, arg).st, DEMO_PATH, key, ks);
            && DEMO_PATH in snd.fs && Lookup(fin.fs, BUILT) == Some(snd.fs[DEMO_PATH])
            && fin.files == map[] && fin.calls == [(cb, arg)]
  {
    hide *;
    var st := Init(BUILD, bs, disk);
    var rcv := Register(st, [0x2A], cb, arg).st;
    DemoReady(disk, bs, cb, arg);
    var fin, id := After(snd, rcv, DEMO_PATH, key, ks), Crc(DEMO);
    StarRuns(snd, st, DEMO_PATH, cb, arg, key, ks);
    IsWhole(snd, DEMO_PATH, ks);
    Transfers(snd, rcv, DEMO_PATH, key, ks);
    SendableThere(snd, DEMO_PATH);
    NoneLeft(rcv, fin, id, DEMO);
  }

  lemma SendableThere(snd: State, p: Name)
    requires Sendable(snd, p)
    ensures p in snd.fs
  {
  }

  lemma NoneLeft(rcv: State, fin: State, id: u32, w: Name)
    requires NothingElse(rcv, fin, id, w) && rcv.files == map[] && id !in fin.files
    ensures fin.files == map[]
  {
    assert fin.files - {id} == fin.files;
  }
}
