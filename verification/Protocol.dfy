// src/proto.c as a state machine: what each call does to the sessions, the registry, the sender table
// and the files.
module Protocol {
  import opened Options
  import opened Status
  import opened Bytes
  import opened Messages
  import opened Names
  import B = Blocks
  import R = Reassembly

  // struct file_cb: id tells entries apart, as their addresses do; cb 0 is the null callback.
  datatype FileCb = FileCb(id: nat, fname: Name, cb: nat, arg: int)

  // struct nctx. Its fileid is its key in files. A status never assigned is None.
  datatype Ctx = Ctx(cap: nat, nextid: nat, entries: seq<Option<seq<Byte>>>, len: int,
                     hashcode: u32, fcb: nat, wfname: Name, status: Option<int>)

  // The static variables of proto.c and the file system. calls lists the callbacks run.
  datatype State = State(dir: Name, bs: u32, fs: Files, files: map<u32, Ctx>, reg: seq<FileCb>, ids: nat,
                         senders: map<u32, Name>, calls: seq<(nat, int)>)

  // What a call returns and leaves in *rmsg.
  datatype Reply = Reply(st: State, rv: int, rmsg: Option<seq<Byte>>)

  // ---- The registry ----

  // nftp_proto_init, on a given directory, block size and file system.
  function Init(dir: Name, bs: u32, fs: Files): State {
    State(dir, bs, fs, map[], [FileCb(0, STAR, 0, 0)], 1, map[], [])
  }

  // The first entry from i on with this name.
  function FindName(reg: seq<FileCb>, fname: Name, i: nat): (k: nat)
    requires i <= |reg|
    ensures i <= k <= |reg| && (k < |reg| ==> reg[k].fname == fname)
    ensures forall j :: i <= j < k ==> reg[j].fname != fname
    decreases |reg| - i
  {
    if i == |reg| || reg[i].fname == fname then i else FindName(reg, fname, i + 1)
  }

  // The last entry with this name, which is the one HELLO's loop keeps.
  function LastName(reg: seq<FileCb>, fname: Name): (k: Option<nat>)
    ensures k.Some? ==> k.value < |reg| && reg[k.value].fname == fname
    ensures k.Some? ==> forall j :: k.value < j < |reg| ==> reg[j].fname != fname
    ensures k.None? ==> forall j :: 0 <= j < |reg| ==> reg[j].fname != fname
  {
    if reg == [] then None
    else if reg[|reg| - 1].fname == fname then Some(|reg| - 1)
    else LastName(reg[..|reg| - 1], fname)
  }

  // The entry a pointer refers to.
  function FindId(reg: seq<FileCb>, id: nat): (k: nat)
    ensures k <= |reg| && (k < |reg| ==> reg[k].id == id) && forall j :: 0 <= j < k ==> reg[j].id != id
  {
    if reg == [] || reg[0].id == id then 0 else 1 + FindId(reg[1..], id)
  }

  function Dropped(reg: seq<FileCb>, i: nat): seq<FileCb>
    requires i < |reg|
  {
    reg[..i] + reg[i + 1..]
  }

  // nftp_proto_register
  function Register(st: State, fname: Name, cb: nat, arg: int): Reply {
    var fcb := FileCb(st.ids, fname, cb, arg);
    var pushed := st.(reg := st.reg + [fcb], ids := st.ids + 1);
    if fname == STAR then
      if st.reg == [] then Reply(pushed, OK, None)
      else if st.reg[0].fname != STAR then Reply(st, ERR_VEC, None)
      else Reply(st.(reg := st.reg[0 := st.reg[0].(cb := cb, arg := arg)]), OK, None)
    else if st.reg != [] && FindName(st.reg, fname, 1) < |st.reg| then Reply(st, ERR_HT, None)
    else if |st.reg| >= FILES then Reply(st, ERR_OVERFLOW, None)
    else Reply(pushed, OK, None)
  }

  // nftp_proto_unregister
  function Unregister(st: State, fname: Name): Reply {
    if fname == STAR then Reply(st, ERR_FILENAME, None)
    else if st.reg == [] then Reply(st, ERR_HT, None)
    else
      var i := FindName(st.reg, fname, 1);
      if i == |st.reg| then Reply(st, ERR_HT, None)
      else Reply(st.(reg := Dropped(st.reg, i)), OK, None)
  }

  // The registry once the session bound to entry id is done: slot 0 stays, any other entry goes.
  function Released(reg: seq<FileCb>, id: nat): seq<FileCb> {
    var i := FindId(reg, id);
    if i == 0 || i == |reg| then reg else Dropped(reg, i)
  }

  // The callback a finished session runs, if its entry has one.
  function Called(reg: seq<FileCb>, id: nat): seq<(nat, int)> {
    var k := FindId(reg, id);
    if k < |reg| && reg[k].cb != 0 then [(reg[k].cb, reg[k].arg)] else []
  }

  // ---- Making messages ----

  // C's conversion to uint8_t and uint16_t.
  function Low8(x: int): Byte {
    ToByte(x % 0x100)
  }

  function Low16(x: int): u16 {
    x % 0x1_0000
  }

  function FileAt(fs: Files, p: Name): B.File {
    if p in fs then B.Present(fs[p]) else B.Absent
  }

  // A message as bytes, with rv.
  function Encoded(st: State, m: Message): Reply
    requires Encodable(m)
  {
    Reply(st, OK, Some(Wire(m)))
  }

  // The FILE or END message of a block.
  function BlockMessage(fname: Name, last: bool, n: nat, content: seq<Byte>): Message {
    Block(last, Crc(fname), Low16(n), content)
  }

  // The message that fits in the lengths C gives it.
  predicate Fits(st: State, fpath: Name, kind: Byte, n: int)
    requires st.bs > 0
  {
    && |Basename(fpath)| < 0x1_0000
    && ((kind == TYPE_FILE || kind == TYPE_END) && n >= 0 && fpath in st.fs && n < B.Count(|st.fs[fpath]|, st.bs)
        ==> |B.BlockRead(st.fs[fpath], st.bs, n)| + 15 < 0x8000_0000)
  }

  // nftp_proto_maker
  function Maker(st: State, fpath: Name, kind: Byte, key: int, n: int): Reply
    requires st.bs > 0 && Fits(st, fpath, kind, n)
  {
    var fname := Basename(fpath);
    if kind == TYPE_HELLO then
      if fpath !in st.fs then Reply(st, ERR_FILEPATH, None)
      else
        var file := st.fs[fpath];
        var blocks := B.Count(|file|, st.bs);
        if blocks > BLOCK_NUM then Reply(st, ERR_BLOCKS, None)
        else Encoded(st.(senders := st.senders[Crc(fname) := fpath]), Hello(Low8(key), blocks, fname, Crc(file)))
    else if kind == TYPE_ACK then Encoded(st, Ack(Low8(key), Crc(fname)))
    else if kind == TYPE_FILE || kind == TYPE_END then
      if n < 0 then Reply(st, ERR_ID, None)
      else if fpath !in st.fs then Reply(st, ERR_FILEPATH, None)
      else if n >= B.Count(|st.fs[fpath]|, st.bs) then Reply(st, ERR_BLOCKS, None)
      else Encoded(st, BlockMessage(fname, kind == TYPE_END, n, B.BlockRead(st.fs[fpath], st.bs, n)))
    else if kind == TYPE_GIVEME then
      if n < 0 then Reply(st, ERR_ID, None) else Encoded(st, Giveme(Crc(fname), Low16(n)))
    else Reply(st, ERR_TYPE, None)
  }

  // ---- Handling messages ----

  // The name a session writes to: a fresh one if the file is there already.
  function WorkingName(st: State, fname: Name): Option<Name> {
    if Path(st.dir, fname) in st.fs then NewName(st.fs, st.dir, fname, 1) else Some(fname)
  }

  function PartPath(st: State, ctx: Ctx): Name {
    Path(st.dir, PartName(ctx.wfname))
  }

  function FinalPath(st: State, ctx: Ctx): Name {
    Path(st.dir, ctx.wfname)
  }

  // The ACK that answers a HELLO.
  function AckWire(id: Byte, fname: Name): seq<Byte> {
    Wire(Ack(id, Crc(Basename(fname))))
  }

  // The entry HELLO binds, and the state once an unregistered name has been registered with slot 0's callback.
  function Bind(st: State, fname: Name): (State, nat)
    requires st.reg != []
  {
    var k := LastName(st.reg, fname);
    if k.Some? then (st, st.reg[k.value].id)
    else (Register(st, fname, st.reg[0].cb, st.reg[0].arg).st, st.reg[0].id)
  }

  // The HELLO branch. It refuses only when file id 0 is live: decode leaves fileid 0 for a HELLO.
  // ht_insert reports a file id that is live already by a code the branch takes for a failure.
  function HandleHello(st: State, m: Message): Reply
    requires m.Hello? && st.reg != [] && WorkingName(st, CStr(m.fname)).Some?
  {
    var fname := CStr(m.fname);
    var id := Crc(fname);
    if 0 in st.files then Reply(st, ERR_HT, None)
    else
      var (bound, fcb) := Bind(st, fname);
      var r := R.Fresh(m.blocks);
      var ctx := Ctx(r.cap, r.nextid, r.entries, r.len, m.hashcode, fcb, WorkingName(st, fname).value, None);
      var ready := bound.(fs := st.fs[PartPath(st, ctx) := r.part]);
      if id in st.files then Reply(ready.(files := st.files[id := ctx]), ERR_HT, None)
      else
        Reply(ready.(files := st.files[id := ctx.(status := Some(STATUS_HELLO))]), OK, Some(AckWire(m.id, fname)))
  }

  // A session and its part file, as far as reassembly is concerned.
  function Load(st: State, ctx: Ctx): R.Rx {
    R.Rx(ctx.cap, ctx.nextid, ctx.entries, ctx.len, if PartPath(st, ctx) in st.fs then st.fs[PartPath(st, ctx)] else [])
  }

  function Stored(ctx: Ctx, r: R.Rx): Ctx {
    ctx.(nextid := r.nextid, entries := r.entries, len := r.len)
  }

  predicate CtxOk(ctx: Ctx) {
    0 < ctx.cap && |ctx.entries| == ctx.cap && ctx.nextid <= ctx.cap
  }

  // The state once a block has been received by session id, before the completion check.
  function Received(st: State, id: u32, m: Message): State
    requires m.Block? && id in st.files && CtxOk(st.files[id]) && m.blockseq < st.files[id].cap
  {
    var ctx := st.files[id];
    var r := R.Receive(Load(st, ctx), m.blockseq, m.content);
    var ctx' := Stored(ctx, r).(status := Some(if m.last then STATUS_END else STATUS_TRANSFER));
    st.(files := st.files[id := ctx'],
        fs := if m.blockseq == ctx.nextid then st.fs[PartPath(st, ctx) := r.part] else st.fs)
  }

  // The completion branch: rename, check the hash, run the callback, release entry and session.
  function Finish(st: State, id: u32): Reply
    requires id in st.files
  {
    var ctx := st.files[id].(status := Some(STATUS_FINISH));
    var part := PartPath(st, ctx);
    if part !in st.fs then Reply(st.(files := st.files[id := ctx]), ERR_FILEPATH, None)
    else
      var file := st.fs[part];
      var fs := (st.fs - {part})[FinalPath(st, ctx) := file];
      if Crc(file) != ctx.hashcode then
        Reply(st.(fs := fs, files := st.files[id := ctx]), ERR_PROTO, Some(ctx.wfname))
      else
        Reply(st.(fs := fs, files := st.files - {id}, reg := Released(st.reg, ctx.fcb),
                  calls := st.calls + Called(st.reg, ctx.fcb)),
              OK, Some(ctx.wfname))
  }

  // The FILE and END branch.
  function HandleBlock(st: State, m: Message): Reply
    requires m.Block?
    requires m.fileid in st.files ==> CtxOk(st.files[m.fileid]) && m.blockseq < st.files[m.fileid].cap
  {
    if m.fileid !in st.files then Reply(st, ERR_HT, None)
    else
      var ctx := st.files[m.fileid];
      if m.blockseq == ctx.nextid && PartPath(st, ctx) !in st.fs then Reply(st, ERR_FILEPATH, None)
      else
        var st' := Received(st, m.fileid, m);
        if st'.files[m.fileid].nextid == ctx.cap then Finish(st', m.fileid) else Reply(st', OK, None)
  }

  // The GIVEME branch: END for the last block, FILE for any other. The maker's own result is dropped.
  function HandleGiveme(st: State, m: Message): Reply
    requires m.Giveme? && st.bs > 0
    requires m.fileid in st.senders ==> Fits(st, st.senders[m.fileid], TYPE_FILE, m.blockseq)
  {
    if m.fileid !in st.senders then Reply(st, ERR_HT, None)
    else
      var fpath := st.senders[m.fileid];
      if fpath !in st.fs then Reply(st, ERR_FILEPATH, None)
      else
        var last := m.blockseq == B.Count(|st.fs[fpath]|, st.bs) - 1;
        Reply(st, OK, Maker(st, fpath, if last then TYPE_END else TYPE_FILE, m.fileid, m.blockseq).rmsg)
  }

  // What the code takes for granted of a message.
  predicate Acceptable(st: State, m: Message)
    requires st.bs > 0
  {
    match m
    case Hello(_, blocks, fname, _) => blocks > 0 && WorkingName(st, CStr(fname)).Some?
    case Ack(_, _) => true
    case Block(_, fileid, blockseq, _) => fileid in st.files ==> blockseq < st.files[fileid].cap
    case Giveme(fileid, blockseq) => fileid in st.senders ==> Fits(st, st.senders[fileid], TYPE_FILE, blockseq)
  }

  // The state every call may rely on: what the tables hold is well formed, and a session's entry is in the registry.
  predicate Proper(st: State) {
    && st.bs > 0 && st.reg != []
    && forall id :: id in st.files ==> CtxOk(st.files[id])
  }

  function HandleMessage(st: State, m: Message): Reply
    requires Proper(st) && Acceptable(st, m)
  {
    match m
    case Hello(_, _, _, _) => HandleHello(st, m)
    case Ack(_, _) => Reply(st, OK, None)
    case Block(_, _, _, _) => HandleBlock(st, m)
    case Giveme(_, _) => HandleGiveme(st, m)
  }

  // nftp_proto_handler
  function Handle(st: State, msg: seq<Byte>): Reply
    requires Proper(st) && Sized(msg) && (Parse(msg).Ok? ==> Acceptable(st, Parse(msg).message))
  {
    match Parse(msg)
    case Error(code) => Reply(st, code, None)
    case Ok(m) => HandleMessage(st, m)
  }

  // What nftp_proto_recv_status returns and stores; an unknown file leaves the capacity alone.
  datatype Progress = Progress(rv: int, cap: int, nextseq: int)

  // nftp_proto_recv_status
  function RecvStatus(st: State, fname: Name, cap: int): Progress {
    var id := Crc(Basename(fname));
    if id !in st.files then Progress(ERR_HT, cap, -1) else Progress(OK, st.files[id].cap, st.files[id].nextid)
  }

  // nftp_proto_recv_stop
  function RecvStop(st: State, fname: Name): Reply {
    var id := Crc(Basename(fname));
    if id !in st.files then Reply(st, ERR_HT, None)
    else
      var ctx := st.files[id];
      var erased := st.(files := st.files - {id});
      if PartPath(st, ctx) !in st.fs then Reply(erased, ERR_FILEPATH, None)
      else Reply(erased.(fs := st.fs - {PartPath(st, ctx)}, reg := Released(st.reg, ctx.fcb)), OK, None)
  }
}
