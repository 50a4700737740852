// src/proto.c as it runs: objects and tables updated in place, every call tied to the state machine.
module ProtocolCode {
  import opened Options
  import opened Status
  import opened Bytes
  import opened Messages
  import opened Names
  import opened HashTables
  import opened Tables
  import opened Vectors
  import opened Protocol
  import C = Crc32cCode
  import Codec
  import B = Blocks
  import R = Reassembly
  import G = Registry

  // A registry entry and a session as the state machine writes them.
  ghost function CbOf(f: FileCallback): FileCb
    reads f
  {
    FileCb(f.id, f.fname, f.cb, f.arg)
  }

  ghost function CtxOf(c: Nctx): Ctx
    requires c.fcb != null
    reads c, c.entries
  {
    Ctx(c.cap, c.nextid, c.entries[..], c.len, c.hashcode, c.fcb.id, c.wfname, c.status)
  }

  // The message structs the maker fills in.
  method FillHello(id: Byte, blocks: u16, fname: Name, hashcode: u32) returns (p: Codec.Nftp)
    requires |fname| < 0x1_0000
    ensures fresh(p) && fresh(p.exbuf) && p.Filled(Hello(id, blocks, fname, hashcode))
  {
    p := new Codec.Nftp();
    p.typ[0] := TYPE_HELLO;
    p.len := 5 + 1 + 2 + 2 + |fname| + 4;
    p.id[0] := id;
    p.blocks, p.namelen, p.hashcode := blocks, |fname|, hashcode;
    p.fname := Codec.Nftp.Copy(fname, 0, |fname|, 1);
    assert fname[0..|fname|] == fname;
  }

  method FillAck(id: Byte, fileid: u32) returns (p: Codec.Nftp)
    ensures fresh(p) && fresh(p.exbuf) && p.Filled(Ack(id, fileid))
  {
    p := new Codec.Nftp();
    p.typ[0] := TYPE_ACK;
    p.len, p.fileid := 6 + 4, fileid;
    p.id[0] := id;
  }

  method FillBlock(last: bool, fileid: u32, blockseq: u16, v: array<Byte>, len: nat) returns (p: Codec.Nftp)
    requires len <= v.Length && len + 15 < 0x1_0000_0000
    ensures fresh(p) && fresh(p.exbuf) && p.Filled(Block(last, fileid, blockseq, v[..len]))
  {
    p := new Codec.Nftp();
    p.typ[0] := if last then TYPE_END else TYPE_FILE;
    p.len, p.fileid, p.blockseq := 5 + 4 + 2 + 4 + len, fileid, blockseq;
    p.ctlen, p.content := len, v;
  }

  method FillGiveme(fileid: u32, blockseq: u16) returns (p: Codec.Nftp)
    ensures fresh(p) && fresh(p.exbuf) && p.Filled(Giveme(fileid, blockseq))
  {
    p := new Codec.Nftp();
    p.typ[0] := TYPE_GIVEME;
    p.len, p.fileid, p.blockseq := 5 + 4 + 2, fileid, blockseq;
  }

  // Each kind of message filled in and encoded.
  method HelloBytes(id: Byte, blocks: u16, fname: Name, hashcode: u32) returns (rv: int, rmsg: Option<seq<Byte>>)
    requires |fname| < 0x1_0000
    ensures rv == OK && rmsg == Some(Wire(Hello(id, blocks, fname, hashcode)))
  {
    hide Wire;
    var p := FillHello(id, blocks, fname, hashcode);
    rv, rmsg := EncodeTo(p, Hello(id, blocks, fname, hashcode));
  }

  method AckBytes(id: Byte, fileid: u32) returns (rv: int, rmsg: Option<seq<Byte>>)
    ensures rv == OK && rmsg == Some(Wire(Ack(id, fileid)))
  {
    hide Wire;
    var p := FillAck(id, fileid);
    rv, rmsg := EncodeTo(p, Ack(id, fileid));
  }

  method BlockBytes(last: bool, fileid: u32, blockseq: u16, v: array<Byte>, len: nat)
    returns (rv: int, rmsg: Option<seq<Byte>>)
    requires len <= v.Length && len + 15 < 0x1_0000_0000
    ensures rv == OK && rmsg == Some(Wire(Block(last, fileid, blockseq, v[..len])))
  {
    hide Wire;
    var p := FillBlock(last, fileid, blockseq, v, len);
    rv, rmsg := EncodeTo(p, Block(last, fileid, blockseq, v[..len]));
  }

  // nftp_file_readblk, then the FILE or END message of what it read.
  method ReadAndEncode(file: B.File, bs: u32, last: bool, fileid: u32, n: nat)
    returns (rv: int, rmsg: Option<seq<Byte>>)
    requires bs > 0
    requires file.Present? && n < B.Count(|file.data|, bs) ==> |B.BlockRead(file.data, bs, n)| + 15 < 0x8000_0000
    ensures rv == if file.Absent? then ERR_FILEPATH else if n >= B.Count(|file.data|, bs) then ERR_BLOCKS else OK
    ensures rmsg == if rv == OK then Some(Wire(Block(last, fileid, Low16(n), B.BlockRead(file.data, bs, n)))) else None
  {
    hide Wire;
    hide B.BlockRead;
    var v, len;
    rv, v, len := B.ReadBlk(file, n, bs);
    if rv != OK {
      return rv, None;
    }
    rv, rmsg := BlockBytes(last, fileid, Low16(n), v, len);
  }

  method GivemeBytes(fileid: u32, blockseq: u16) returns (rv: int, rmsg: Option<seq<Byte>>)
    ensures rv == OK && rmsg == Some(Wire(Giveme(fileid, blockseq)))
  {
    hide Wire;
    var p := FillGiveme(fileid, blockseq);
    rv, rmsg := EncodeTo(p, Giveme(fileid, blockseq));
  }

  // nftp_encode of a filled struct, and of one whose type was never set.
  method EncodeTo(p: Codec.Nftp, ghost m: Message) returns (rv: int, rmsg: Option<seq<Byte>>)
    requires p.Filled(m) && Encodable(m)
    modifies p.exbuf
    ensures rv == OK && rmsg == Some(Wire(m))
  {
    hide Wire;
    var v;
    rv, v := p.Encode();
    rmsg := Some(v[..]);
  }

  // nftp_alloc and nftp_decode.
  method DecodeFrom(msg: seq<Byte>) returns (parsed: Parsed)
    requires Sized(msg)
    ensures parsed == Parse(msg)
  {
    hide Sized;
    hide Parse;
    var n := new Codec.Nftp();
    var rv := n.Decode(msg);
    ParseCode(msg);
    if rv != OK {
      return Error(rv);
    }
    return Ok(n.Fields());
  }

  lemma ParseCode(msg: seq<Byte>)
    requires Sized(msg)
    ensures Parse(msg).Error? ==> Parse(msg).code != OK
    ensures Parse(msg).Ok? && Parse(msg).message.Hello? ==> |Parse(msg).message.fname| < 0x1_0000
  {
  }

  method EncodeNone() returns (rv: int)
    ensures rv == ERR_TYPE
  {
    var p := new Codec.Nftp();
    var v;
    rv, v := p.Encode();
  }

  // What reassembly sees of a session: its context and its part file.
  ghost function RxOf(c: Nctx, fs: Files, fullpath: Name): R.Rx
    reads c, c.entries
  {
    R.Rx(c.cap, c.nextid, c.entries[..], c.len, if fullpath in fs then fs[fullpath] else [])
  }

  lemma HandlePre(st: State, msg: seq<Byte>)
    requires Proper(st) && Sized(msg) && (Parse(msg).Ok? ==> Acceptable(st, Parse(msg).message))
    requires G.WellFormed(st)
    ensures G.WellFormed(Handle(st, msg).st)
    ensures Parse(msg).Ok? && Parse(msg).message.Hello? ==> |Parse(msg).message.fname| < 0x1_0000
  {
    ParseCode(msg);
    G.ApplyKeeps(st, G.HandleOp(msg));
  }

  lemma NameShort(m: Message)
    requires m.Hello? && |m.fname| < 0x1_0000
    ensures |Basename(CStr(m.fname))| < 0x1_0000
  {
    CStrShorter(m.fname);
    BasenameShort(CStr(m.fname));
  }

  lemma HelloIs(st: State, m: Message, bound: State, fcb: nat, w: Name, id: u32)
    requires st.reg != [] && m.Hello? && 0 !in st.files && (bound, fcb) == Bind(st, CStr(m.fname))
    requires WorkingName(st, CStr(m.fname)) == Some(w) && id == Crc(CStr(m.fname))
    ensures bound == st.(reg := bound.reg, ids := bound.ids)
    ensures bound.files == st.files
    ensures var ctx := Ctx(m.blocks, 0, R.Fresh(m.blocks).entries, 0, m.hashcode, fcb, w, None);
            var fs := bound.fs[Path(bound.dir, PartName(w)) := []];
            && (id in st.files ==>
                  Protocol.HandleHello(st, m) == Reply(bound.(fs := fs, files := bound.files[id := ctx]), ERR_HT, None))
            && (id !in st.files ==>
                  Protocol.HandleHello(st, m) ==
                  Reply(bound.(fs := fs, files := bound.files[id := ctx.(status := Some(STATUS_HELLO))]), OK,
                        Some(AckWire(m.id, CStr(m.fname)))))
  {
    hide Crc;
    hide CStr;
    hide Basename;
    hide Path;
    hide Wire;
    hide Bind;
    BindScalars(st, CStr(m.fname));
  }

  lemma RefusedIs(st: State, m: Message)
    requires st.reg != [] && m.Hello? && 0 in st.files && WorkingName(st, CStr(m.fname)).Some?
    ensures Protocol.HandleHello(st, m) == Reply(st, ERR_HT, None)
  {
    hide Crc;
    hide CStr;
  }

  lemma AckIs(st: State, fname: Name, b: Byte)
    requires st.bs > 0 && Fits(st, fname, TYPE_ACK, 0)
    ensures Protocol.Maker(st, fname, TYPE_ACK, Value(b), 0) == Reply(st, OK, Some(AckWire(b, fname)))
  {
    hide Crc;
    hide Basename;
    hide Wire;
    hide Value;
    hide ToByte;
    ByteTrip(b);
  }

  lemma BindScalars(st: State, fname: Name)
    requires st.reg != []
    ensures Bind(st, fname).0 == st.(reg := Bind(st, fname).0.reg, ids := Bind(st, fname).0.ids)
  {
  }

  lemma SameName(st: State, st': State, fname: Name)
    requires st.dir == st'.dir && st.fs == st'.fs
    ensures WorkingName(st, fname) == WorkingName(st', fname)
  {
  }

  lemma LastNameNone(reg: seq<FileCb>, fname: Name)
    requires reg == []
    ensures LastName(reg, fname) == None
  {
  }

  lemma LastNameStep(reg: seq<FileCb>, fname: Name, i: nat)
    requires i < |reg|
    ensures LastName(reg[..i + 1], fname) == if reg[i].fname == fname then Some(i) else LastName(reg[..i], fname)
  {
    assert reg[..i + 1][..i] == reg[..i];
  }

  lemma SameBindings(st: State, st': State, id: u32)
    requires G.WellFormed(st) && id in st.files && id in st'.files
    requires st'.bs == st.bs && st'.reg == st.reg && st'.ids == st.ids
    requires st'.files - {id} == st.files - {id}
    requires st'.files[id] == st.files[id].(status := st'.files[id].status)
    ensures G.WellFormed(st')
  {
    forall i | i in st'.files
      ensures i in st.files && CtxOk(st'.files[i]) && st'.files[i].fcb == st.files[i].fcb
    {
      if i != id {
        assert i in st'.files - {id} && (st.files - {id})[i] == st.files[i];
      }
    }
  }

  lemma BlockPre(st: State, m: Message)
    requires G.WellFormed(st) && m.Block? && Acceptable(st, m)
    ensures G.WellFormed(Protocol.HandleBlock(st, m).st)
    ensures m.fileid in st.files ==>
              && CtxOk(st.files[m.fileid]) && m.blockseq < st.files[m.fileid].cap
              && G.WellFormed(Received(st, m.fileid, m))
  {
    G.BlockKeeps(st, m);
    hide Received;
    hide Finish;
    if m.fileid in st.files {
      G.ReceivedKeeps(st, m);
    }
  }

  lemma ReceivedIs(st: State, id: u32, m: Message)
    requires m.Block? && id in st.files && CtxOk(st.files[id]) && m.blockseq < st.files[id].cap
    ensures var st', c := Received(st, id, m), st.files[id];
            var r := R.Receive(Load(st, c), m.blockseq, m.content);
            && st'.files - {id} == st.files - {id} && id in st'.files
            && st'.files[id] == Ctx(c.cap, r.nextid, r.entries, r.len, c.hashcode, c.fcb, c.wfname,
                                    Some(if m.last then STATUS_END else STATUS_TRANSFER))
            && st' == st.(files := st'.files, fs := st'.fs)
            && st'.fs == if m.blockseq == c.nextid then st.fs[PartPath(st, c) := r.part] else st.fs
  {
    hide R.Receive;
  }

  // These sessions stand for m, each in objects of its own.
  ghost predicate SessionsShow(cs: set<Nctx>, bs: set<array<Option<seq<Byte>>>>,
                               sessions: map<u32, Nctx>, m: map<u32, Ctx>)
    reads cs, bs
  {
    && m.Keys == sessions.Keys
    && (forall id :: id in m ==>
          var c := sessions[id];
          && c in cs && c.entries in bs && c.fileid == id && c.entries.Length == c.cap
          && c.fcb != null && m[id] == CtxOf(c))
    && (forall i, j :: i in m && j in m && i != j ==>
          sessions[i] != sessions[j] && sessions[i].entries != sessions[j].entries)
  }

  // One session set apart from the rest, whose objects it does not share, and put back.
  lemma SessionsSplit(cs: set<Nctx>, bs: set<array<Option<seq<Byte>>>>, sessions: map<u32, Nctx>, m: map<u32, Ctx>,
                      id: u32)
    requires SessionsShow(cs, bs, sessions, m) && id in sessions
    ensures SessionsShow(cs - {sessions[id]}, bs - {sessions[id].entries}, sessions - {id}, m - {id})
  {
  }

  lemma SessionsLess(cs: set<Nctx>, bs: set<array<Option<seq<Byte>>>>, sessions: map<u32, Nctx>, m: map<u32, Ctx>,
                     id: u32)
    requires SessionsShow(cs, bs, sessions, m) && id in sessions
    ensures SessionsShow(cs, bs, sessions - {id}, m - {id})
  {
  }

  lemma SessionsJoin(cs: set<Nctx>, bs: set<array<Option<seq<Byte>>>>, sessions: map<u32, Nctx>, m: map<u32, Ctx>,
                     id: u32, c: Nctx)
    requires SessionsShow(cs - {c}, bs - {c.entries}, sessions - {id}, m - {id})
    requires id in sessions && id in m && sessions[id] == c && c in cs && c.entries in bs
    requires c.fileid == id && c.entries.Length == c.cap && c.fcb != null && m[id] == CtxOf(c)
    ensures SessionsShow(cs, bs, sessions, m)
  {
    assert m.Keys == (m - {id}).Keys + {id} && sessions.Keys == (sessions - {id}).Keys + {id};
    forall i | i in m && i != id
      ensures sessions[i] != c && sessions[i].entries != c.entries
    {
      assert i in m - {id} && (sessions - {id})[i] == sessions[i];
    }
  }

  lemma SessionsMore(cs: set<Nctx>, bs: set<array<Option<seq<Byte>>>>, sessions: map<u32, Nctx>, m: map<u32, Ctx>,
                     id: u32, c: Nctx)
    requires SessionsShow(cs, bs, sessions, m) && c !in cs && c.entries !in bs
    requires c.fileid == id && c.entries.Length == c.cap && c.fcb != null
    ensures SessionsShow(cs + {c}, bs + {c.entries}, sessions[id := c], m[id := CtxOf(c)])
  {
  }

  lemma BindingsMore(cs: set<Nctx>, sessions: map<u32, Nctx>, cbs: seq<FileCallback>, id: u32, c: Nctx)
    requires Bindings(cs, sessions, cbs) && c.fcb in cbs
    ensures Bindings(cs + {c}, sessions[id := c], cbs)
  {
  }

  // These entries stand for the registry.
  ghost predicate RegistryShows(es: set<FileCallback>, cbs: seq<FileCallback>, reg: seq<FileCb>, ids: nat)
    reads es
  {
    && |reg| == |cbs|
    && (forall i :: 0 <= i < |reg| ==> cbs[i] in es && reg[i] == CbOf(cbs[i]) && reg[i].id < ids)
    && (forall i, j :: 0 <= i < j < |reg| ==> reg[i].id != reg[j].id)
  }

  // Every session's entry is in the registry.
  ghost predicate Bindings(cs: set<Nctx>, sessions: map<u32, Nctx>, cbs: seq<FileCallback>)
    reads cs`fcb
  {
    forall id :: id in sessions ==> sessions[id] in cs && sessions[id].fcb in cbs
  }

  lemma BindingsJoin(cs: set<Nctx>, sessions: map<u32, Nctx>, cbs: seq<FileCallback>, id: u32, c: Nctx)
    requires Bindings(cs - {c}, sessions - {id}, cbs) && id in sessions && sessions[id] == c && c in cs && c.fcb in cbs
    ensures Bindings(cs, sessions, cbs)
  {
    forall i | i in sessions && i != id
      ensures sessions[i] in cs && sessions[i].fcb in cbs
    {
      assert i in sessions - {id};
    }
  }

  lemma BindingsLess(cs: set<Nctx>, sessions: map<u32, Nctx>, cbs: seq<FileCallback>, id: u32)
    requires Bindings(cs, sessions, cbs)
    ensures Bindings(cs, sessions - {id}, cbs)
  {
  }

  lemma ShowsPushed(es: set<FileCallback>, cbs: seq<FileCallback>, reg: seq<FileCb>, ids: nat, fcb: FileCallback)
    requires RegistryShows(es, cbs, reg, ids) && fcb.id == ids
    ensures RegistryShows(es + {fcb}, cbs + [fcb], reg + [CbOf(fcb)], ids + 1)
  {
  }

  lemma BindingsPushed(cs: set<Nctx>, sessions: map<u32, Nctx>, cbs: seq<FileCallback>, fcb: FileCallback)
    requires Bindings(cs, sessions, cbs)
    ensures Bindings(cs, sessions, cbs + [fcb])
  {
    forall id | id in sessions
      ensures sessions[id].fcb in cbs + [fcb]
    {
    }
  }

  lemma ShowsDropped(es: set<FileCallback>, cbs: seq<FileCallback>, reg: seq<FileCb>, ids: nat, i: nat)
    requires RegistryShows(es, cbs, reg, ids) && i < |reg|
    ensures RegistryShows(es, cbs[..i] + cbs[i + 1..], Dropped(reg, i), ids)
  {
  }

  lemma BindingsDropped(cs: set<Nctx>, sessions: map<u32, Nctx>, cbs: seq<FileCallback>, i: nat)
    requires Bindings(cs, sessions, cbs) && i < |cbs| && forall id :: id in sessions ==> sessions[id].fcb != cbs[i]
    ensures Bindings(cs, sessions, cbs[..i] + cbs[i + 1..])
  {
    forall id | id in sessions
      ensures sessions[id].fcb in cbs[..i] + cbs[i + 1..]
    {
      var k :| 0 <= k < |cbs| && cbs[k] == sessions[id].fcb;
      assert (cbs[..i] + cbs[i + 1..])[if k < i then k else k - 1] == cbs[k];
    }
  }

  // The entries once fcb is released: slot 0 stays.
  ghost function Kept(cbs: seq<FileCallback>, fcb: FileCallback): seq<FileCallback> {
    var i := FirstIndex(cbs, fcb);
    if i == 0 || i == |cbs| then cbs else cbs[..i] + cbs[i + 1..]
  }

  lemma KeptHas(cbs: seq<FileCallback>, fcb: FileCallback, f: FileCallback)
    requires f in cbs && (f != fcb || f == cbs[0])
    ensures f in Kept(cbs, fcb)
  {
    hide FirstIndex;
    var i := FirstIndex(cbs, fcb);
    var k :| 0 <= k < |cbs| && cbs[k] == f && (f == cbs[0] ==> k == 0);
    if 0 < i < |cbs| {
      assert Kept(cbs, fcb)[if k < i then k else k - 1] == f;
    }
  }

  // Following a pointer is finding its id.
  lemma PointerIsId(es: set<FileCallback>, cbs: seq<FileCallback>, reg: seq<FileCb>, ids: nat, k: nat)
    requires RegistryShows(es, cbs, reg, ids) && k < |reg|
    ensures FindId(reg, cbs[k].id) == k
  {
  }

  class Proto {
    const tables: TableSet
    const crc: C.Crc32c
    var recvdir: Name
    var blocksz: u32
    var fs: Files
    var calls: seq<(nat, int)>
    // The state this object stands for.
    ghost var abs: State

    // The sessions, buffers and entries in use.
    ghost var ctxs: set<Nctx>
    ghost var bufs: set<array<Option<seq<Byte>>>>
    ghost var entries: set<FileCallback>

    ghost function Owned(): set<object>
      reads `ctxs, `bufs, `entries
    {
      ctxs + bufs + entries
    }

    ghost function Repr(): set<object>
      reads `ctxs, `bufs, `entries, tables`Repr
    {
      {this, crc, crc.table} + tables.Repr + Owned()
    }

    // The tables' own objects are none of the rest.
    ghost predicate Apart()
      reads `ctxs, `bufs, `entries, tables`Repr
    {
      {this, crc, crc.table} + Owned() !! tables.Repr && {this, crc, crc.table} !! Owned() && tables in tables.Repr
    }

    // All but the bindings, which finishing a session breaks for a moment.
    ghost predicate Core()
      reads this, tables, Repr()
      ensures Core() ==> {this, crc, crc.table} !! tables.Repr
    {
      && Apart() && tables.Valid() && crc.Valid()
      && abs.dir == recvdir && abs.bs == blocksz && abs.fs == fs && abs.calls == calls && abs.senders == tables.paths
      && SessionsShow(ctxs, bufs, tables.sessions, abs.files)
      && RegistryShows(entries, tables.callbacks, abs.reg, abs.ids)
    }

    ghost predicate Valid()
      reads this, tables, Repr()
      ensures Valid() ==> {this, crc, crc.table} !! tables.Repr
    {
      Core() && Bindings(ctxs, tables.sessions, tables.callbacks)
    }

    // ---- The file system and the hash ----

    // nftp_file_append
    method FileAppend(fpath: Name, str: seq<Byte>) returns (rv: int)
      modifies `fs
      ensures rv == if fpath in old(fs) then OK else ERR_FILEPATH
      ensures fs == if rv == OK then old(fs)[fpath := old(fs)[fpath] + str] else old(fs)
    {
      if fpath !in fs {
        return ERR_FILEPATH;
      }
      fs := fs[fpath := fs[fpath] + str];
      return OK;
    }

    // nftp_file_write
    method FileWrite(fpath: Name, str: seq<Byte>) returns (rv: int)
      modifies `fs
      ensures rv == OK && fs == old(fs)[fpath := str]
    {
      fs := fs[fpath := str];
      return OK;
    }

    // nftp_file_remove
    method FileRemove(fpath: Name) returns (rv: int)
      modifies `fs
      ensures rv == if fpath in old(fs) then OK else ERR_FILEPATH
      ensures fs == old(fs) - {fpath}
    {
      if fpath !in fs {
        return ERR_FILEPATH;
      }
      fs := fs - {fpath};
      return OK;
    }

    // nftp_file_rename
    method FileRename(from: Name, to: Name) returns (rv: int)
      modifies `fs
      ensures rv == if from in old(fs) then OK else ERR_FILEPATH
      ensures fs == if rv == OK then (old(fs) - {from})[to := old(fs)[from]] else old(fs)
    {
      if from !in fs {
        return ERR_FILEPATH;
      }
      fs := (fs - {from})[to := fs[from]];
      return OK;
    }

    // NFTP_HASH of bytes that lie anywhere in memory.
    method Hash(data: seq<Byte>) returns (h: u32)
      requires crc.Valid()
      modifies crc, crc.table
      ensures crc.Valid() && h == Crc(data)
    {
      var address: nat := *;
      var c := crc.Checksum(data, address);
      h := Number(c);
    }

    // Empty tables stand for a state with no sessions and no entries.
    lemma EmptyValid()
      requires tables in tables.Repr && {this, crc, crc.table} !! tables.Repr && tables.Valid() && crc.Valid()
      requires ctxs == {} && bufs == {} && entries == {}
      requires tables.sessions == map[] && tables.callbacks == []
      requires abs == State(recvdir, blocksz, fs, map[], [], abs.ids, tables.paths, calls)
      ensures Valid()
    {
      hide TableSet.Valid;
      hide C.Crc32c.Valid;
    }

    // nftp_proto_init
    constructor (hash: u32 -> nat, dir: Name, bs: u32, disk: Files)
      ensures Valid() && fresh(Repr()) && abs == Init(dir, bs, disk)
    {
      hide TableSet.Valid;
      hide C.Crc32c.Valid;
      hide Core;
      hide Bindings;
      tables := new TableSet(hash);
      crc := new C.Crc32c();
      recvdir, blocksz, fs, calls := dir, bs, disk, [];
      abs := State(dir, bs, disk, map[], [], 0, map[], []);
      ctxs, bufs, entries := {}, {}, {};
      new;
      EmptyValid();
      var rv := PushEntry(STAR, 0, 0);
    }

    lemma ShownCount()
      requires Core()
      ensures |abs.reg| == |tables.callbacks| <= FILES
    {
      hide TableSet.Valid;
    }

    // A new entry at the end of the registry.
    method PushEntry(fname: Name, cb: nat, arg: int) returns (rv: int)
      requires Valid()
      modifies `abs, `entries, tables.Repr
      ensures Valid() && fresh(tables.Repr - old(tables.Repr))
      ensures fresh(entries - old(entries))
      ensures rv == if |old(abs).reg| >= FILES then ERR_OVERFLOW else OK
      ensures abs == if rv != OK then old(abs)
                     else old(abs).(reg := old(abs).reg + [FileCb(old(abs).ids, fname, cb, arg)],
                                    ids := old(abs).ids + 1)
      ensures tables.sessions == old(tables.sessions) && old(tables.callbacks) <= tables.callbacks
    {
      hide TableSet.Valid;
      hide C.Crc32c.Valid;
      hide SessionsShow;
      hide Bindings;
      hide RegistryShows;
      var fcb := new FileCallback(abs.ids, fname, cb, arg);
      assert |abs.reg| == |tables.callbacks| by { ShownCount(); }
      rv := tables.PushCallback(fcb);
      if rv == OK {
        ShowsPushed(entries, old(tables.callbacks), abs.reg, abs.ids, fcb);
        BindingsPushed(ctxs, tables.sessions, old(tables.callbacks), fcb);
        abs := abs.(reg := abs.reg + [FileCb(abs.ids, fname, cb, arg)], ids := abs.ids + 1);
        entries := entries + {fcb};
      }
      assert Apart();
      assert crc.Valid();
      assert tables.Valid();
      assert SessionsShow(ctxs, bufs, tables.sessions, abs.files);
      assert Bindings(ctxs, tables.sessions, tables.callbacks);
      assert RegistryShows(entries, tables.callbacks, abs.reg, abs.ids);
      assert Core();
    }

    // The cb and arg of '*' updated in place.
    method UpdateFirst(cb: nat, arg: int)
      requires Valid() && abs.reg != []
      modifies `abs, entries
      ensures Valid() && abs == old(abs).(reg := old(abs).reg[0 := old(abs).reg[0].(cb := cb, arg := arg)])
    {
      hide TableSet.Valid;
      hide C.Crc32c.Valid;
      hide SessionsShow;
      hide Bindings;
      hide Apart;
      OwnEntry(0);
      var fcb := tables.GetCallback(0);
      fcb.cb, fcb.arg := cb, arg;
      abs := abs.(reg := abs.reg[0 := abs.reg[0].(cb := cb, arg := arg)]);
      assert RegistryShows(entries, tables.callbacks, abs.reg, abs.ids);
      assert tables.Valid() && crc.Valid();
      assert Core();
    }

    lemma OwnEntry(i: nat)
      requires Core() && i < |abs.reg|
      ensures i < |tables.callbacks| && tables.callbacks[i] in entries
      ensures var fcb: object := tables.callbacks[i]; fcb !in tables.Repr + {this, tables, crc, crc.table}
    {
      hide TableSet.Valid;
    }

    // The loop over the entries after '*'.
    method FindEntry(fname: Name) returns (i: nat)
      requires Core() && abs.reg != []
      ensures i == FindName(abs.reg, fname, 1)
    {
      hide TableSet.Valid;
      hide C.Crc32c.Valid;
      hide SessionsShow;
      var n := tables.CountCallbacks();
      i := 1;
      while i < n
        invariant 1 <= i <= n && FindName(abs.reg, fname, i) == FindName(abs.reg, fname, 1)
      {
        var fcb := tables.GetCallback(i);
        if fcb.fname == fname {
          return;
        }
        i := i + 1;
      }
    }

    // nftp_proto_register
    method Register(fname: Name, cb: nat, arg: int) returns (rv: int)
      requires Valid()
      modifies `abs, `entries, entries, tables.Repr
      ensures Valid() && fresh(tables.Repr - old(tables.Repr))
      ensures fresh(entries - old(entries))
      ensures var r := Protocol.Register(old(abs), fname, cb, arg); abs == r.st && rv == r.rv
      ensures tables.sessions == old(tables.sessions) && ctxs == old(ctxs) && bufs == old(bufs)
      ensures old(tables.callbacks) <= tables.callbacks
    {
      hide TableSet.Valid;
      hide C.Crc32c.Valid;
      hide SessionsShow;
      hide RegistryShows;
      hide Bindings;
      hide FindName;
      ShownCount();
      if abs.reg != [] {
        EntryFacts(0);
      }
      var n := tables.CountCallbacks();
      if fname == STAR {
        if n == 0 {
          rv := PushEntry(fname, cb, arg);
          return;
        }
        var fcbn := tables.GetCallback(0);
        if fcbn.fname != fname {
          return ERR_VEC;
        }
        UpdateFirst(cb, arg);
        return OK;
      }
      if n > 0 {
        var i := FindEntry(fname);
        if i < n {
          return ERR_HT;
        }
      }
      rv := PushEntry(fname, cb, arg);
    }

    // nftp_vec_delete of one entry.
    method DeleteEntry(i: nat)
      requires Core() && i < |abs.reg|
      modifies `abs, tables.Repr
      ensures Core() && tables.Repr == old(tables.Repr) && tables.sessions == old(tables.sessions)
      ensures tables.callbacks == old(tables.callbacks)[..i] + old(tables.callbacks)[i + 1..]
      ensures abs == old(abs).(reg := Dropped(old(abs).reg, i))
    {
      hide TableSet.Valid;
      hide C.Crc32c.Valid;
      hide SessionsShow;
      hide RegistryShows;
      ShownCount();
      var rv := tables.DeleteCallback(i);
      ShowsDropped(entries, old(tables.callbacks), abs.reg, abs.ids, i);
      abs := abs.(reg := Dropped(abs.reg, i));
      assert Apart();
      assert SessionsShow(ctxs, bufs, tables.sessions, abs.files);
      assert RegistryShows(entries, tables.callbacks, abs.reg, abs.ids);
    }

    // No session's entry bears the name of entry i.
    lemma IdleEntry(fname: Name, i: nat)
      requires Valid() && i < |abs.reg| && abs.reg[i].fname == fname && G.Idle(abs, fname)
      ensures forall id :: id in tables.sessions ==> tables.sessions[id].fcb != tables.callbacks[i]
    {
      hide TableSet.Valid;
    }

    // nftp_proto_unregister
    method Unregister(fname: Name) returns (rv: int)
      requires Valid() && abs.reg != [] && G.Idle(abs, fname)
      modifies `abs, tables.Repr
      ensures Valid() && Repr() == old(Repr())
      ensures var r := Protocol.Unregister(old(abs), fname); abs == r.st && rv == r.rv
    {
      hide TableSet.Valid;
      hide C.Crc32c.Valid;
      hide SessionsShow;
      hide RegistryShows;
      hide Bindings;
      if fname == STAR {
        return ERR_FILENAME;
      }
      ShownCount();
      var n := tables.CountCallbacks();
      var i := FindEntry(fname);
      if i < n {
        IdleEntry(fname, i);
        BindingsDropped(ctxs, tables.sessions, tables.callbacks, i);
        DeleteEntry(i);
        return OK;
      }
      return ERR_HT;
    }

    // The loop that finds a session's entry by its address.
    method FindPointer(fcb: FileCallback) returns (i: nat)
      requires Core() && fcb in tables.callbacks
      ensures i < |abs.reg| == |tables.callbacks| && tables.callbacks[i] == fcb
      ensures i == FindId(abs.reg, fcb.id) == FirstIndex(tables.callbacks, fcb)
    {
      hide TableSet.Valid;
      hide C.Crc32c.Valid;
      hide SessionsShow;
      hide RegistryShows;
      hide FindId;
      ShownCount();
      var n := tables.CountCallbacks();
      i := 0;
      while i < n
        invariant 0 <= i <= n && fcb !in tables.callbacks[..i]
      {
        var f := tables.GetCallback(i);
        if f == fcb {
          PointerIsId(entries, tables.callbacks, abs.reg, abs.ids, i);
          return;
        }
        i := i + 1;
      }
      assert false;
    }

    // A session's entry is deleted unless it is slot 0.
    method ReleaseEntry(fcb: FileCallback)
      requires Core() && fcb in tables.callbacks
      modifies `abs, tables.Repr
      ensures Core() && tables.Repr == old(tables.Repr) && tables.sessions == old(tables.sessions)
      ensures abs == old(abs).(reg := Released(old(abs).reg, fcb.id))
      ensures tables.callbacks == Kept(old(tables.callbacks), fcb)
    {
      hide TableSet.Valid;
      hide C.Crc32c.Valid;
      hide SessionsShow;
      hide RegistryShows;
      hide FindId;
      var i := FindPointer(fcb);
      if i != 0 {
        DeleteEntry(i);
      }
    }

    // ---- FILE and END ----

    // The do-while loop: step nextid, and append and free the buffered block there, while there is one.
    method DrainBuffered(ctx: Nctx, fullpath: Name) returns (rv: int)
      requires ctx.entries.Length == ctx.cap && ctx.nextid < ctx.cap && fullpath in fs
      modifies `fs, ctx`nextid, ctx.entries
      ensures rv == OK && RxOf(ctx, fs, fullpath) == R.Drain(old(RxOf(ctx, fs, fullpath)))
      ensures fullpath in fs && fs == old(fs)[fullpath := fs[fullpath]]
    {
      ghost var r := RxOf(ctx, fs, fullpath);
      while true
        invariant ctx.nextid < ctx.cap && fullpath in fs && fs == old(fs)[fullpath := fs[fullpath]]
        invariant R.Drain(RxOf(ctx, fs, fullpath)) == R.Drain(r)
        decreases ctx.cap - ctx.nextid
      {
        ghost var s := RxOf(ctx, fs, fullpath);
        ctx.nextid := ctx.nextid + 1;
        if ctx.nextid > ctx.cap - 1 || ctx.entries[ctx.nextid].None? {
          assert RxOf(ctx, fs, fullpath) == R.Drain(s);
          return OK;
        }
        rv := FileAppend(fullpath, ctx.entries[ctx.nextid].value);
        if rv != OK {
          return rv;
        }
        ctx.entries[ctx.nextid] := None;
        assert ctx.entries[..] == s.entries[ctx.nextid := None];
      }
    }

    // One block, from the test on nextid up to the count of received blocks.
    method ReceiveBlock(ctx: Nctx, seqno: nat, content: seq<Byte>, fullpath: Name) returns (rv: int)
      requires ctx.entries.Length == ctx.cap && ctx.nextid <= ctx.cap && seqno < ctx.cap
      modifies `fs, ctx`nextid, ctx`len, ctx.entries
      ensures rv == if seqno == old(ctx.nextid) && fullpath !in old(fs) then ERR_FILEPATH else OK
      ensures rv == OK ==> RxOf(ctx, fs, fullpath) == R.Receive(old(RxOf(ctx, fs, fullpath)), seqno, content)
      ensures rv == OK ==> fs == if seqno == old(ctx.nextid)
                                 then old(fs)[fullpath := RxOf(ctx, fs, fullpath).part] else old(fs)
      ensures rv != OK ==> fs == old(fs) && RxOf(ctx, fs, fullpath) == old(RxOf(ctx, fs, fullpath))
    {
      hide R.Drain;
      if seqno == ctx.nextid {
        rv := FileAppend(fullpath, content);
        if rv != OK {
          return;
        }
        rv := DrainBuffered(ctx, fullpath);
      } else {
        if ctx.entries[seqno].Some? && |ctx.entries[seqno].value| != 0 {
          ctx.len := ctx.len - 1;
        }
        ctx.entries[seqno] := Some(content);
        rv := OK;
      }
      ctx.len := ctx.len + 1;
    }

    // Everything but session id, which c stands for. It reads none of what a block's arrival changes.
    ghost predicate Rest(id: u32, c: Nctx, others: map<u32, Ctx>, reg: seq<FileCb>, ids: nat, senders: map<u32, Name>)
      reads `ctxs, `bufs, `entries, tables, tables.Repr, crc, crc.table
      reads ctxs - {c}, bufs - {c.entries}, entries, c`fcb
    {
      && Apart() && tables.Valid() && crc.Valid() && senders == tables.paths
      && c in ctxs && c.entries in bufs && c.fileid == id && c.entries.Length == c.cap
      && c.fcb != null && c.fcb in tables.callbacks
      && SessionsShow(ctxs - {c}, bufs - {c.entries}, tables.sessions - {id}, others)
      && Bindings(ctxs - {c}, tables.sessions - {id}, tables.callbacks)
      && RegistryShows(entries, tables.callbacks, reg, ids)
    }

    // The fields of abs that fields of this object show directly.
    ghost predicate Scalars(st: State)
      reads `recvdir, `blocksz, `fs, `calls
    {
      st.dir == recvdir && st.bs == blocksz && st.fs == fs && st.calls == calls
    }

    lemma TakeOut(id: u32)
      requires Valid() && id in tables.sessions
      ensures Scalars(abs) && abs.files.Keys == tables.sessions.Keys
      ensures Rest(id, tables.sessions[id], abs.files - {id}, abs.reg, abs.ids, abs.senders)
      ensures tables.sessions[id].fcb != null && abs.files[id] == CtxOf(tables.sessions[id])
      ensures var c := tables.sessions[id];
              && c in ctxs && c.entries in bufs && c.fileid == id && c.entries.Length == c.cap
              && var others: set<object> := tables.Repr + {tables, crc, crc.table} + entries;
                 {this, c, c.entries} !! others
    {
      hide TableSet.Valid;
      hide RegistryShows;
      hide C.Crc32c.Valid;
      SessionsSplit(ctxs, bufs, tables.sessions, abs.files, id);
    }

    lemma PutBack(id: u32, c: Nctx)
      requires id in tables.sessions && tables.sessions[id] == c && id in abs.files && Scalars(abs)
      requires Rest(id, c, abs.files - {id}, abs.reg, abs.ids, abs.senders)
      requires c.fcb != null && abs.files[id] == CtxOf(c)
      ensures Valid()
    {
      hide TableSet.Valid;
      hide RegistryShows;
      hide C.Crc32c.Valid;
      SessionsJoin(ctxs, bufs, tables.sessions, abs.files, id, c);
      BindingsJoin(ctxs, tables.sessions, tables.callbacks, id, c);
    }

    // FILE or END for a live session, up to the completion check.
    method ReceiveInto(ctx: Nctx, m: Message) returns (rv: int)
      requires Valid() && m.Block? && m.fileid in tables.sessions && tables.sessions[m.fileid] == ctx
      requires m.fileid in abs.files && CtxOk(abs.files[m.fileid]) && m.blockseq < abs.files[m.fileid].cap
      modifies `abs, `fs, ctx`nextid, ctx`len, ctx`status, ctx.entries
      ensures Valid()
      ensures var st, c := old(abs), old(abs).files[m.fileid];
              if m.blockseq == c.nextid && PartPath(st, c) !in st.fs then rv == ERR_FILEPATH && abs == st
              else rv == OK && abs == Received(st, m.fileid, m)
    {
      hide Valid;
      hide Rest;
      hide R.Receive;
      hide Path;
      hide PartName;
      hide Received;
      var id := m.fileid;
      TakeOut(id);
      ReceivedIs(abs, id, m);
      var fullpath := Path(recvdir, PartName(ctx.wfname));
      rv := ReceiveBlock(ctx, m.blockseq, m.content, fullpath);
      if rv != OK {
        PutBack(id, ctx);
        return;
      }
      MarkReceived(ctx, m);
    }

    // The status after a block; the session is then where the block brings it.
    method MarkReceived(ctx: Nctx, m: Message)
      requires m.Block? && m.fileid in tables.sessions && tables.sessions[m.fileid] == ctx && ctx.fcb != null
      requires m.fileid in abs.files && CtxOk(abs.files[m.fileid]) && m.blockseq < abs.files[m.fileid].cap
      requires abs.dir == recvdir && abs.bs == blocksz && abs.calls == calls
      requires Rest(m.fileid, ctx, abs.files - {m.fileid}, abs.reg, abs.ids, abs.senders)
      requires var others: set<object> := tables.Repr + {tables, crc, crc.table} + entries; {this, ctx} !! others
      requires fs == Received(abs, m.fileid, m).fs
      requires CtxOf(ctx).(status := None) == Received(abs, m.fileid, m).files[m.fileid].(status := None)
      modifies `abs, ctx`status
      ensures Valid() && abs == Received(old(abs), m.fileid, m)
    {
      hide Valid;
      hide Rest;
      hide R.Receive;
      hide Path;
      hide PartName;
      hide Received;
      ctx.status := Some(if m.last then STATUS_END else STATUS_TRANSFER);
      ReceivedIs(abs, m.fileid, m);
      abs := Received(abs, m.fileid, m);
      PutBack(m.fileid, ctx);
    }

    // The status and the rename at completion.
    method RenamePart(ctx: Nctx, id: u32) returns (rv: int)
      requires Valid() && id in tables.sessions && tables.sessions[id] == ctx && id in abs.files
      modifies `abs, `fs, ctx`status
      ensures Valid()
      ensures var st, c := old(abs), old(abs).files[id].(status := Some(STATUS_FINISH));
              var part := PartPath(st, c);
              && rv == (if part in st.fs then OK else ERR_FILEPATH)
              && abs == st.(files := st.files[id := c],
                            fs := if part in st.fs then (st.fs - {part})[FinalPath(st, c) := st.fs[part]] else st.fs)
    {
      hide Valid;
      hide Rest;
      hide Path;
      TakeOut(id);
      ghost var st := abs;
      ctx.status := Some(STATUS_FINISH);
      rv := FileRename(Path(recvdir, PartName(ctx.wfname)), Path(recvdir, ctx.wfname));
      abs := st.(files := st.files[id := CtxOf(ctx)], fs := fs);
      assert abs.files - {id} == st.files - {id};
      PutBack(id, ctx);
    }

    method HashOf(data: seq<Byte>) returns (h: u32)
      requires Valid()
      modifies crc, crc.table
      ensures Valid() && h == Crc(data)
    {
      hide TableSet.Valid;
      hide C.Crc32c.Valid;
      hide SessionsShow;
      hide RegistryShows;
      hide Bindings;
      hide Crc;
      h := Hash(data);
    }

    // nftp_file_hash
    method FileHash(fpath: Name) returns (rv: int, h: u32)
      requires Valid()
      modifies crc, crc.table
      ensures Valid()
      ensures if fpath in fs then rv == OK && h == Crc(fs[fpath]) else rv == ERR_FILEPATH
    {
      hide Valid;
      hide Crc;
      if fpath !in fs {
        return ERR_FILEPATH, 0;
      }
      rv := OK;
      h := HashOf(fs[fpath]);
    }

    // The callback of a session's entry.
    method RunCallback(ctx: Nctx, id: u32)
      requires Valid() && id in tables.sessions && tables.sessions[id] == ctx && id in abs.files
      modifies `abs, `calls
      ensures Valid()
      ensures abs == old(abs).(calls := old(abs).calls + Called(old(abs).reg, old(abs).files[id].fcb))
    {
      hide TableSet.Valid;
      hide C.Crc32c.Valid;
      hide SessionsShow;
      hide RegistryShows;
      hide Apart;
      hide FindId;
      TakeOut(id);
      hide Rest;
      var i := FindPointer(ctx.fcb);
      EntryFacts(i);
      if ctx.fcb.cb != 0 {
        calls := calls + [(ctx.fcb.cb, ctx.fcb.arg)];
      }
      abs := abs.(calls := calls);
    }

    // Once this session's entry is released, the other sessions are still bound.
    lemma OthersBound(id: u32)
      requires Valid() && G.WellFormed(abs) && id in tables.sessions
      ensures tables.sessions[id].fcb in tables.callbacks && forall c :: c in ctxs ==> c !in tables.Repr
      ensures Bindings(ctxs, tables.sessions - {id}, Kept(tables.callbacks, tables.sessions[id].fcb))
    {
      hide TableSet.Valid;
      hide Crc;
      var fcb := tables.sessions[id].fcb;
      forall i | i in tables.sessions && i != id
        ensures tables.sessions[i].fcb in Kept(tables.callbacks, fcb)
      {
        assert G.Bound(abs.reg, i, abs.files[i].fcb) && G.Bound(abs.reg, id, abs.files[id].fcb);
        KeptHas(tables.callbacks, fcb, tables.sessions[i].fcb);
      }
    }

    lemma EntryFacts(i: nat)
      requires Core() && i < |abs.reg|
      ensures i < |tables.callbacks| && abs.reg[i] == CbOf(tables.callbacks[i])
    {
      hide TableSet.Valid;
    }

    // ht_erase of a session, the bindings of the others being in order.
    method EraseSession(id: u32) returns (rv: int)
      requires Core() && id in tables.sessions && Bindings(ctxs, tables.sessions - {id}, tables.callbacks)
      modifies `abs, tables.Repr
      ensures tables.sessions == old(tables.sessions) - {id} && tables.callbacks == old(tables.callbacks)
      ensures Valid() && fresh(tables.Repr - old(tables.Repr)) && rv == OK
      ensures abs == old(abs).(files := old(abs).files - {id})
    {
      hide TableSet.Valid;
      hide C.Crc32c.Valid;
      hide RegistryShows;
      hide SessionsShow;
      hide Bindings;
      SessionsLess(ctxs, bufs, tables.sessions, abs.files, id);
      rv := tables.EraseFile(id);
      abs := abs.(files := abs.files - {id});
      assert Apart() && tables.Valid() && crc.Valid();
      assert SessionsShow(ctxs, bufs, tables.sessions, abs.files);
      assert RegistryShows(entries, tables.callbacks, abs.reg, abs.ids);
      assert Core();
    }

    // The registry entry and the session of a transfer that is over.
    method Retire(ctx: Nctx, id: u32) returns (rv: int)
      requires Valid() && G.WellFormed(abs) && id in tables.sessions && tables.sessions[id] == ctx && id in abs.files
      modifies `abs, tables.Repr
      ensures Valid() && fresh(tables.Repr - old(tables.Repr)) && rv == OK
      ensures abs == old(abs).(files := old(abs).files - {id}, reg := Released(old(abs).reg, old(abs).files[id].fcb))
    {
      hide Core;
      hide Released;
      hide Bindings;
      hide Kept;
      hide Rest;
      hide G.WellFormed;
      hide RegistryShows;
      hide SessionsShow;
      OthersBound(id);
      TakeOut(id);
      ReleaseEntry(ctx.fcb);
      rv := EraseSession(id);
    }

    // The completion branch.
    method FinishSession(ctx: Nctx, id: u32) returns (rv: int, rmsg: Option<Name>)
      requires Valid() && G.WellFormed(abs) && id in tables.sessions && tables.sessions[id] == ctx && id in abs.files
      modifies `abs, `fs, `calls, ctx`status, crc, crc.table, tables.Repr
      ensures Valid() && fresh(tables.Repr - old(tables.Repr))
      ensures Reply(abs, rv, rmsg) == Finish(old(abs), id)
    {
      hide Core;
      hide Rest;
      hide Bindings;
      hide Called;
      hide Released;
      hide G.WellFormed;
      hide Crc;
      hide Path;
      hide PartName;
      ghost var st := abs;
      TakeOut(id);
      rv := RenamePart(ctx, id);
      if rv != OK {
        return rv, None;
      }
      SameBindings(st, abs, id);
      rmsg := Some(ctx.wfname);
      TakeOut(id);
      var h;
      rv, h := FileHash(Path(recvdir, ctx.wfname));
      if rv != OK {
        return;
      }
      if ctx.hashcode != h {
        return ERR_PROTO, rmsg;
      }
      ghost var renamed := abs;
      RunCallback(ctx, id);
      SameBindings(renamed, abs, id);
      rv := Retire(ctx, id);
    }

    // ht_contains, then ht_lookup.
    method FindSession(id: u32) returns (ctx: Option<Nctx>)
      requires Valid()
      ensures Valid()
      ensures ctx == if id in tables.sessions then Some(tables.sessions[id]) else None
      ensures id in tables.sessions <==> id in abs.files
    {
      hide TableSet.Valid;
      hide C.Crc32c.Valid;
      hide RegistryShows;
      hide Bindings;
      var found := tables.ContainsFile(id);
      if !found {
        return None;
      }
      var c := tables.LookupFile(id);
      return Some(c);
    }

    // The FILE and END branch.
    method HandleBlock(m: Message) returns (rv: int, rmsg: Option<Name>)
      requires m.Block? && m.fileid in abs.files ==>
                 CtxOk(abs.files[m.fileid]) && m.blockseq < abs.files[m.fileid].cap
      requires m.Block? && G.WellFormed(abs) && Valid()
      modifies `abs, `fs, `calls, ctxs, bufs, crc, crc.table, tables.Repr
      ensures Reply(abs, rv, rmsg) == Protocol.HandleBlock(old(abs), m)
      ensures G.WellFormed(abs)
      ensures Valid() && fresh(tables.Repr - old(tables.Repr))
    {
      hide Valid;
      hide Rest;
      hide G.WellFormed;
      hide Received;
      hide Finish;
      hide Path;
      ghost var st := abs;
      BlockPre(st, m);
      rmsg := None;
      var found := FindSession(m.fileid);
      if found.None? {
        return ERR_HT, None;
      }
      TakeOut(m.fileid);
      var ctx := found.value;
      rv := ReceiveInto(ctx, m);
      if rv != OK {
        return;
      }
      ReceivedIs(st, m.fileid, m);
      TakeOut(m.fileid);
      if ctx.nextid == ctx.cap {
        rv, rmsg := FinishSession(ctx, m.fileid);
      }
    }

    // ---- Making messages ----

    method DropSender(key: u32) returns (rv: int)
      requires Valid()
      modifies `abs, tables.Repr
      ensures Valid() && fresh(tables.Repr - old(tables.Repr))
      ensures rv == OK && tables.sessions == old(tables.sessions)
      ensures abs == old(abs).(senders := old(abs).senders - {key})
    {
      hide TableSet.Valid;
      hide C.Crc32c.Valid;
      hide SessionsShow;
      hide RegistryShows;
      hide Bindings;
      rv := tables.EraseSender(key);
      abs := abs.(senders := abs.senders - {key});
      assert Apart() && tables.Valid() && crc.Valid();
    }

    method PutSender(key: u32, fpath: Name) returns (rv: int)
      requires Valid()
      modifies `abs, tables.Repr
      ensures Valid() && fresh(tables.Repr - old(tables.Repr))
      ensures tables.sessions == old(tables.sessions)
      ensures rv == if key in old(abs).senders then HT_UPDATED else HT_INSERTED
      ensures abs == old(abs).(senders := old(abs).senders[key := fpath])
    {
      hide TableSet.Valid;
      hide C.Crc32c.Valid;
      hide SessionsShow;
      hide RegistryShows;
      hide Bindings;
      rv := tables.InsertSender(key, fpath);
      abs := abs.(senders := abs.senders[key := fpath]);
      assert Apart() && tables.Valid() && crc.Valid();
    }

    method FindSender(key: u32) returns (fpath: Option<Name>)
      requires Valid()
      ensures Valid() && fpath == if key in abs.senders then Some(abs.senders[key]) else None
    {
      hide TableSet.Valid;
      hide C.Crc32c.Valid;
      hide SessionsShow;
      hide RegistryShows;
      hide Bindings;
      fpath := tables.LookupSender(key);
    }

    // The sender's path under a file id, replacing any other.
    method AddSender(key: u32, fpath: Name) returns (rv: int)
      requires Valid()
      modifies `abs, tables.Repr
      ensures Valid() && fresh(tables.Repr - old(tables.Repr))
      ensures rv == OK && tables.sessions == old(tables.sessions)
      ensures abs == old(abs).(senders := old(abs).senders[key := fpath])
    {
      hide Valid;
      var was := FindSender(key);
      if was.Some? {
        rv := DropSender(key);
      }
      rv := PutSender(key, fpath);
      assert old(abs).senders[key := fpath] == (old(abs).senders - {key})[key := fpath];
    }

    method MakeHello(fpath: Name, fname: Name, key: int) returns (rv: int, rmsg: Option<seq<Byte>>)
      requires Valid() && abs.bs > 0 && Basename(fpath) == fname && Fits(abs, fpath, TYPE_HELLO, 0)
      modifies `abs, crc, crc.table, tables.Repr
      ensures Valid() && fresh(tables.Repr - old(tables.Repr))
      ensures tables.sessions == old(tables.sessions)
      ensures Reply(abs, rv, rmsg) == Protocol.Maker(old(abs), fpath, TYPE_HELLO, key, 0)
    {
      hide TableSet.Valid;
      hide C.Crc32c.Valid;
      hide SessionsShow;
      hide RegistryShows;
      hide Bindings;
      hide Crc;
      hide Wire;
      hide Basename;
      ShownScalars();
      if fpath !in fs {
        return ERR_FILEPATH, None;
      }
      var blocks := |fs[fpath]| / blocksz + 1;
      if blocks > 0xFFFF {
        return ERR_BLOCKS, None;
      }
      var hashcode;
      rv, hashcode := FileHash(fpath);
      if rv != OK {
        return rv, None;
      }
      var id := HashOf(fname);
      rv, rmsg := HelloBytes(Low8(key), blocks, fname, hashcode);
      var ins := AddSender(id, fpath);
      if ins != OK {
        return ERR_HT, None;
      }
    }

    method MakeBlock(fpath: Name, fname: Name, last: bool, n: int) returns (rv: int, rmsg: Option<seq<Byte>>)
      requires Valid() && abs.bs > 0 && Basename(fpath) == fname
      requires Fits(abs, fpath, if last then TYPE_END else TYPE_FILE, n)
      modifies crc, crc.table
      ensures Valid()
      ensures Reply(abs, rv, rmsg) == Protocol.Maker(abs, fpath, if last then TYPE_END else TYPE_FILE, 0, n)
    {
      hide TableSet.Valid;
      hide C.Crc32c.Valid;
      hide SessionsShow;
      hide RegistryShows;
      hide Bindings;
      hide Crc;
      hide Wire;
      hide Basename;
      hide B.BlockRead;
      ShownScalars();
      if 0 > n {
        return ERR_ID, None;
      }
      var id := HashOf(fname);
      rv, rmsg := ReadAndEncode(FileAt(fs, fpath), blocksz, last, id, n);
    }

    method MakeGiveme(fpath: Name, fname: Name, n: int) returns (rv: int, rmsg: Option<seq<Byte>>)
      requires Valid() && abs.bs > 0 && Basename(fpath) == fname && Fits(abs, fpath, TYPE_GIVEME, n)
      modifies crc, crc.table
      ensures Valid() && Reply(abs, rv, rmsg) == Protocol.Maker(abs, fpath, TYPE_GIVEME, 0, n)
    {
      hide TableSet.Valid;
      hide C.Crc32c.Valid;
      hide SessionsShow;
      hide RegistryShows;
      hide Bindings;
      hide Crc;
      hide Wire;
      hide Basename;
      if 0 > n {
        return ERR_ID, None;
      }
      var id := HashOf(fname);
      rv, rmsg := GivemeBytes(id, Low16(n));
    }

    method MakeAck(fpath: Name, fname: Name, key: int) returns (rv: int, rmsg: Option<seq<Byte>>)
      requires Valid() && abs.bs > 0 && Basename(fpath) == fname && Fits(abs, fpath, TYPE_ACK, 0)
      modifies crc, crc.table
      ensures Valid() && Reply(abs, rv, rmsg) == Protocol.Maker(abs, fpath, TYPE_ACK, key, 0)
    {
      hide TableSet.Valid;
      hide C.Crc32c.Valid;
      hide SessionsShow;
      hide RegistryShows;
      hide Bindings;
      hide Crc;
      hide Wire;
      hide Basename;
      var id := HashOf(fname);
      rv, rmsg := AckBytes(Low8(key), id);
    }

    method MakeNone() returns (rv: int)
      requires Valid()
      ensures Valid() && rv == ERR_TYPE
    {
      hide TableSet.Valid;
      hide C.Crc32c.Valid;
      hide SessionsShow;
      hide RegistryShows;
      hide Bindings;
      rv := EncodeNone();
    }

    // nftp_proto_maker
    method Maker(fpath: Name, kind: Byte, key: int, n: int) returns (rv: int, rmsg: Option<seq<Byte>>)
      requires Valid() && abs.bs > 0 && Fits(abs, fpath, kind, n)
      modifies `abs, crc, crc.table, tables.Repr
      ensures Valid() && fresh(tables.Repr - old(tables.Repr))
      ensures tables.sessions == old(tables.sessions)
      ensures Reply(abs, rv, rmsg) == Protocol.Maker(old(abs), fpath, kind, key, n)
    {
      hide Valid;
      hide Crc;
      hide Wire;
      hide Basename;
      var fname := Basename(fpath);
      if kind == TYPE_HELLO {
        rv, rmsg := MakeHello(fpath, fname, key);
      } else if kind == TYPE_ACK {
        rv, rmsg := MakeAck(fpath, fname, key);
      } else if kind == TYPE_FILE || kind == TYPE_END {
        rv, rmsg := MakeBlock(fpath, fname, kind == TYPE_END, n);
      } else if kind == TYPE_GIVEME {
        rv, rmsg := MakeGiveme(fpath, fname, n);
      } else {
        rv := MakeNone();
        rmsg := None;
      }
    }

    lemma ShownScalars()
      requires Valid()
      ensures Scalars(abs)
    {
      hide TableSet.Valid;
    }

    // ---- GIVEME ----

    // nftp_file_blocks on this file system.
    method BlocksAt(fpath: Name) returns (rv: int, blocks: nat)
      requires Valid() && abs.bs > 0
      ensures Valid()
      ensures if fpath in abs.fs then rv == OK && blocks == B.Count(|abs.fs[fpath]|, abs.bs) else rv == ERR_FILEPATH
    {
      hide TableSet.Valid;
      hide C.Crc32c.Valid;
      hide SessionsShow;
      hide RegistryShows;
      hide Bindings;
      rv, blocks := B.FileBlocks(FileAt(fs, fpath), blocksz);
    }

    // The GIVEME branch.
    method HandleGiveme(m: Message) returns (rv: int, rmsg: Option<seq<Byte>>)
      requires abs.bs > 0 && m.Giveme?
      requires m.fileid in abs.senders ==> Fits(abs, abs.senders[m.fileid], TYPE_FILE, m.blockseq)
      requires Valid()
      modifies `abs, crc, crc.table, tables.Repr
      ensures Reply(abs, rv, rmsg) == Protocol.HandleGiveme(old(abs), m)
      ensures Valid() && fresh(tables.Repr - old(tables.Repr))
    {
      hide Valid;
      hide Crc;
      hide Wire;
      hide Basename;
      hide B.BlockRead;
      var fullpath := FindSender(m.fileid);
      if fullpath.None? {
        return ERR_HT, None;
      }
      var blocks;
      rv, blocks := BlocksAt(fullpath.value);
      if rv != OK {
        return rv, None;
      }
      var made;
      if m.blockseq == blocks - 1 {
        made, rmsg := Maker(fullpath.value, TYPE_END, m.fileid, m.blockseq);
      } else {
        made, rmsg := Maker(fullpath.value, TYPE_FILE, m.fileid, m.blockseq);
      }
      rv := OK;
    }

    // ---- Asking about a transfer, and stopping it ----

    // nftp_proto_recv_status; cap is what the caller's variable held before.
    method RecvStatus(fname: Name, cap: int) returns (rv: int, capacity: int, nextseq: int)
      requires Valid()
      modifies crc, crc.table
      ensures Valid() && Progress(rv, capacity, nextseq) == Protocol.RecvStatus(abs, fname, cap)
    {
      hide Valid;
      hide Rest;
      hide Crc;
      hide Basename;
      var id := HashOf(Basename(fname));
      var found := FindSession(id);
      if found.None? {
        return ERR_HT, cap, -1;
      }
      TakeOut(id);
      return OK, found.value.cap, found.value.nextid;
    }

    // The part file removed.
    method RemovePart(fullpath: Name) returns (rv: int)
      requires Valid()
      modifies `abs, `fs
      ensures Valid() && abs == old(abs).(fs := old(abs).fs - {fullpath})
      ensures rv == if fullpath in old(abs).fs then OK else ERR_FILEPATH
    {
      hide TableSet.Valid;
      hide C.Crc32c.Valid;
      hide SessionsShow;
      hide RegistryShows;
      hide Bindings;
      rv := FileRemove(fullpath);
      abs := abs.(fs := fs);
    }

    // nftp_proto_recv_stop
    method RecvStop(fname: Name) returns (rv: int)
      requires Valid() && G.WellFormed(abs)
      modifies `abs, `fs, crc, crc.table, tables.Repr
      ensures Valid() && fresh(tables.Repr - old(tables.Repr))
      ensures Reply(abs, rv, None) == Protocol.RecvStop(old(abs), fname)
    {
      hide Core;
      hide Rest;
      hide G.WellFormed;
      hide Bindings;
      hide Kept;
      hide Crc;
      hide Basename;
      hide Released;
      hide Path;
      ghost var st := abs;
      var id := HashOf(Basename(fname));
      var found := FindSession(id);
      if found.None? {
        return ERR_HT;
      }
      var ctx := found.value;
      TakeOut(id);
      OthersBound(id);
      BindingsLess(ctxs, tables.sessions, tables.callbacks, id);
      var fullpath := Path(recvdir, PartName(ctx.wfname));
      var fcb := ctx.fcb;
      rv := EraseSession(id);
      if rv != OK {
        return ERR_HT;
      }
      rv := RemovePart(fullpath);
      if rv != OK {
        assert st.fs - {fullpath} == st.fs;
        return;
      }
      ReleaseEntry(fcb);
    }

    // ---- HELLO ----

    // The loop of nftp_file_newname.
    method FreeName(fname: Name) returns (w: Option<Name>)
      ensures w == NewName(fs, recvdir, fname, 1)
    {
      hide Path;
      hide Numbered;
      var i := 1;
      while i < 100
        invariant 1 <= i <= 100 && NewName(fs, recvdir, fname, i) == NewName(fs, recvdir, fname, 1)
      {
        if Path(recvdir, Numbered(fname, i)) !in fs {
          return Some(Numbered(fname, i));
        }
        i := i + 1;
      }
      return None;
    }

    // The iterator loop: the last entry with the name, if there is one.
    method LastEntry(fname: Name) returns (fcb: Option<FileCallback>)
      requires Core()
      ensures var k := LastName(abs.reg, fname);
              fcb == if k.Some? && k.value < |tables.callbacks| then Some(tables.callbacks[k.value]) else None
      ensures |abs.reg| == |tables.callbacks|
    {
      hide TableSet.Valid;
      hide C.Crc32c.Valid;
      hide SessionsShow;
      hide LastName;
      ShownCount();
      var n := tables.CountCallbacks();
      fcb := None;
      var i := 0;
      assert abs.reg[..n] == abs.reg;
      LastNameNone(abs.reg[..0], fname);
      while i < n
        invariant 0 <= i <= n
        invariant var k := LastName(abs.reg[..i], fname);
                  fcb == if k.Some? then Some(tables.callbacks[k.value]) else None
      {
        var f := tables.GetCallback(i);
        if f.fname == fname {
          fcb := Some(f);
        }
        LastNameStep(abs.reg, fname, i);
        i := i + 1;
      }
    }

    // What HELLO does with the registry.
    method BindEntry(fname: Name) returns (fcb: FileCallback)
      requires abs.reg != [] && Valid()
      modifies `abs, `entries, entries, tables.Repr
      ensures (abs, fcb.id) == Bind(old(abs), fname) && fcb in tables.callbacks
      ensures tables.sessions == old(tables.sessions) && ctxs == old(ctxs) && bufs == old(bufs)
      ensures Valid() && fresh(tables.Repr - old(tables.Repr))
      ensures fresh(entries - old(entries))
    {
      hide TableSet.Valid;
      hide C.Crc32c.Valid;
      hide SessionsShow;
      hide RegistryShows;
      hide Bindings;
      hide LastName;
      hide Protocol.Register;
      var last := LastEntry(fname);
      if last.Some? {
        EntryFacts(LastName(abs.reg, fname).value);
        return last.value;
      }
      EntryFacts(0);
      fcb := tables.GetCallback(0);
      var rv := Register(fname, fcb.cb, fcb.arg);
    }

    // ht_insert of a new session.
    method AddSession(ctx: Nctx, id: u32) returns (rv: int)
      requires ctx.fileid == id && ctx.entries.Length == ctx.cap && ctx.fcb != null && ctx.fcb in tables.callbacks
      requires ctx !in ctxs && ctx.entries !in bufs
      requires {ctx, ctx.entries} !! tables.Repr + {this, crc, crc.table}
      requires Valid()
      modifies `abs, `ctxs, `bufs, tables.Repr
      ensures ctx.fcb != null && abs == old(abs).(files := old(abs).files[id := CtxOf(ctx)])
      ensures rv == if id in old(abs).files then HT_UPDATED else HT_INSERTED
      ensures tables.sessions == old(tables.sessions)[id := ctx]
      ensures Valid() && fresh(tables.Repr - old(tables.Repr))
      ensures ctxs == old(ctxs) + {ctx} && bufs == old(bufs) + {ctx.entries}
    {
      hide TableSet.Valid;
      hide C.Crc32c.Valid;
      hide SessionsShow;
      hide RegistryShows;
      hide Bindings;
      ShownKeys();
      SessionsMore(ctxs, bufs, tables.sessions, abs.files, id, ctx);
      BindingsMore(ctxs, tables.sessions, tables.callbacks, id, ctx);
      rv := tables.InsertFile(id, ctx);
      ctxs, bufs := ctxs + {ctx}, bufs + {ctx.entries};
      abs := abs.(files := abs.files[id := CtxOf(ctx)]);
      assert Apart() && tables.Valid() && crc.Valid();
      assert SessionsShow(ctxs, bufs, tables.sessions, abs.files);
      assert RegistryShows(entries, tables.callbacks, abs.reg, abs.ids);
      assert Core();
    }

    // The empty part file.
    method CreatePart(fullpath: Name) returns (rv: int)
      requires Valid()
      modifies `abs, `fs
      ensures Valid() && abs == old(abs).(fs := old(abs).fs[fullpath := []]) && rv == OK
    {
      hide TableSet.Valid;
      hide C.Crc32c.Valid;
      hide SessionsShow;
      hide RegistryShows;
      hide Bindings;
      rv := FileWrite(fullpath, []);
      abs := abs.(fs := fs);
    }

    // The working name.
    method ChooseName(fname: Name) returns (w: Option<Name>)
      requires Valid()
      ensures Valid() && w == WorkingName(abs, fname)
    {
      hide TableSet.Valid;
      hide C.Crc32c.Valid;
      hide SessionsShow;
      hide RegistryShows;
      hide Bindings;
      hide Path;
      if Path(recvdir, fname) in fs {
        w := FreeName(fname);
      } else {
        w := Some(fname);
      }
    }

    // The new context, put into the table.
    method OpenSession(id: u32, blocks: u16, hashcode: u32, fcb: FileCallback, w: Name) returns (rv: int, ctx: Nctx)
      requires fcb in tables.callbacks && Valid()
      modifies `abs, `ctxs, `bufs, tables.Repr
      ensures abs == old(abs).(files := old(abs).files[id :=
                       Ctx(blocks, 0, R.Fresh(blocks).entries, 0, hashcode, fcb.id, w, None)])
      ensures rv == if id in old(abs).files then HT_UPDATED else HT_INSERTED
      ensures id in tables.sessions && tables.sessions[id] == ctx && fresh(ctx)
      ensures Valid() && fresh(tables.Repr - old(tables.Repr))
      ensures fresh(ctxs - old(ctxs)) && fresh(bufs - old(bufs))
    {
      hide TableSet.Valid;
      hide C.Crc32c.Valid;
      hide SessionsShow;
      hide RegistryShows;
      hide Bindings;
      ctx := new Nctx(blocks, id, hashcode);
      ctx.fcb, ctx.wfname := fcb, w;
      assert CtxOf(ctx) == Ctx(blocks, 0, R.Fresh(blocks).entries, 0, hashcode, fcb.id, w, None);
      assert Valid();
      rv := AddSession(ctx, id);
    }

    method SetStatus(ctx: Nctx, id: u32, status: int)
      requires Valid() && id in tables.sessions && tables.sessions[id] == ctx && id in abs.files
      modifies `abs, ctx`status
      ensures Valid() && abs == old(abs).(files := old(abs).files[id := old(abs).files[id].(status := Some(status))])
    {
      hide Valid;
      hide Rest;
      TakeOut(id);
      ghost var st := abs;
      ctx.status := Some(status);
      abs := st.(files := st.files[id := CtxOf(ctx)]);
      assert abs.files - {id} == st.files - {id};
      PutBack(id, ctx);
    }

    // HELLO from the binding of its entry to the insertion of its session.
    method Admit(m: Message, fname: Name, id: u32)
      returns (rv: int, ctx: Nctx, ghost fcb: nat, ghost w: Name, ghost bound: State)
      requires m.Hello? && WorkingName(abs, fname).Some? && abs.reg != []
      requires Valid()
      modifies `abs, `fs, `ctxs, `bufs, `entries, entries, tables.Repr
      ensures Bind(old(abs), fname) == (bound, fcb) && WorkingName(old(abs), fname) == Some(w)
      ensures abs == bound.(fs := bound.fs[Path(bound.dir, PartName(w)) := []],
                            files := bound.files[id :=
                              Ctx(m.blocks, 0, R.Fresh(m.blocks).entries, 0, m.hashcode, fcb, w, None)])
      ensures rv == if id in bound.files then HT_UPDATED else HT_INSERTED
      ensures id in tables.sessions && tables.sessions[id] == ctx && fresh(ctx)
      ensures Valid() && fresh(tables.Repr - old(tables.Repr))
      ensures fresh(ctxs - old(ctxs)) && fresh(bufs - old(bufs)) && fresh(entries - old(entries))
    {
      hide Valid;
      hide Path;
      hide Bind;
      hide WorkingName;
      hide PartName;
      hide R.Fresh;
      ghost var st := abs;
      var entry := BindEntry(fname);
      fcb, bound := entry.id, abs;
      BindScalars(st, fname);
      SameName(st, bound, fname);
      var name := ChooseName(fname);
      w := name.value;
      ShownScalars();
      rv := CreatePart(Path(recvdir, PartName(name.value)));
      rv, ctx := OpenSession(id, m.blocks, m.hashcode, entry, name.value);
    }

    // HELLO's last steps: the status, and the ACK.
    method Answer(ctx: Nctx, id: u32, b: Byte, fname: Name) returns (rmsg: Option<seq<Byte>>)
      requires abs.bs > 0 && |Basename(fname)| < 0x1_0000
      requires id in tables.sessions && tables.sessions[id] == ctx && id in abs.files
      requires Valid()
      modifies `abs, ctx`status, crc, crc.table, tables.Repr
      ensures abs == old(abs).(files := old(abs).files[id := old(abs).files[id].(status := Some(STATUS_HELLO))])
      ensures rmsg == Some(AckWire(b, fname))
      ensures Valid() && fresh(tables.Repr - old(tables.Repr))
    {
      hide Valid;
      hide Owned;
      hide Crc;
      hide Basename;
      hide AckWire;
      hide Protocol.Maker;
      hide Value;
      hide ToByte;
      SetStatus(ctx, id, STATUS_HELLO);
      AckIs(abs, fname, b);
      var made;
      made, rmsg := Maker(fname, TYPE_ACK, Value(b), 0);
    }

    // HELLO once it is not refused.
    method Accept(m: Message, fname: Name, id: u32) returns (rv: int, rmsg: Option<seq<Byte>>)
      requires m.Hello? && m.blocks > 0 && fname == CStr(m.fname) && id == Crc(fname) && |Basename(fname)| < 0x1_0000
      requires WorkingName(abs, fname).Some? && abs.reg != [] && abs.bs > 0 && 0 !in abs.files
      requires Valid()
      modifies `abs, `fs, `ctxs, `bufs, `entries, entries, crc, crc.table, tables.Repr
      ensures Reply(abs, rv, rmsg) == Protocol.HandleHello(old(abs), m)
      ensures Valid() && fresh(tables.Repr - old(tables.Repr))
      ensures fresh(ctxs - old(ctxs)) && fresh(bufs - old(bufs)) && fresh(entries - old(entries))
    {
      hide Valid;
      hide Crc;
      hide CStr;
      hide Basename;
      hide Path;
      hide AckWire;
      hide Bind;
      hide WorkingName;
      hide Protocol.HandleHello;
      hide R.Fresh;
      hide PartName;
      ghost var st := abs;
      ghost var fcb, w, bound;
      var ctx;
      rv, ctx, fcb, w, bound := Admit(m, fname, id);
      HelloIs(st, m, bound, fcb, w, id);
      if rv != OK {
        return ERR_HT, None;
      }
      rmsg := Answer(ctx, id, m.id, fname);
    }

    // The HELLO branch.
    method HandleHello(m: Message) returns (rv: int, rmsg: Option<seq<Byte>>)
      requires m.Hello? && m.blocks > 0 && |m.fname| < 0x1_0000 && WorkingName(abs, CStr(m.fname)).Some?
      requires abs.reg != [] && abs.bs > 0
      requires Valid()
      modifies `abs, `fs, `ctxs, `bufs, `entries, entries, crc, crc.table, tables.Repr
      ensures Reply(abs, rv, rmsg) == Protocol.HandleHello(old(abs), m)
      ensures Valid() && fresh(tables.Repr - old(tables.Repr))
      ensures fresh(ctxs - old(ctxs)) && fresh(bufs - old(bufs)) && fresh(entries - old(entries))
    {
      hide Valid;
      hide Crc;
      hide CStr;
      hide Basename;
      hide WorkingName;
      hide Protocol.HandleHello;
      NameShort(m);
      var fname := CStr(m.fname);
      var id := HashOf(fname);
      var dup := FindSession(0);
      if dup.Some? {
        RefusedIs(abs, m);
        return ERR_HT, None;
      }
      rv, rmsg := Accept(m, fname, id);
    }

    method Decoded(msg: seq<Byte>) returns (parsed: Parsed)
      requires Sized(msg) && Valid()
      ensures Valid() && parsed == Parse(msg)
    {
      hide TableSet.Valid;
      hide C.Crc32c.Valid;
      hide SessionsShow;
      hide RegistryShows;
      hide Bindings;
      hide Parse;
      hide Sized;
      parsed := DecodeFrom(msg);
    }

    // nftp_proto_handler
    method Handler(msg: seq<Byte>) returns (rv: int, rmsg: Option<seq<Byte>>)
      requires Proper(abs) && Sized(msg) && (Parse(msg).Ok? ==> Acceptable(abs, Parse(msg).message))
      requires G.WellFormed(abs)
      requires Valid()
      modifies `abs, `fs, `calls, `ctxs, `bufs, `entries, ctxs, bufs, entries, crc, crc.table, tables.Repr
      ensures Reply(abs, rv, rmsg) == Handle(old(abs), msg)
      ensures G.WellFormed(abs)
      ensures Valid() && fresh(tables.Repr - old(tables.Repr))
      ensures fresh(ctxs - old(ctxs)) && fresh(bufs - old(bufs)) && fresh(entries - old(entries))
    {
      hide Valid;
      hide Sized;
      hide Parse;
      hide G.WellFormed;
      hide Owned;
      hide Protocol.HandleHello;
      hide Protocol.HandleBlock;
      hide Protocol.HandleGiveme;
      HandlePre(abs, msg);
      var parsed := Decoded(msg);
      if parsed.Error? {
        return parsed.code, None;
      }
      var m := parsed.message;
      match m
      case Hello(_, _, _, _) => rv, rmsg := HandleHello(m);
      case Ack(_, _) => rv, rmsg := OK, None;
      case Block(_, _, _, _) => rv, rmsg := HandleBlock(m);
      case Giveme(_, _) => rv, rmsg := HandleGiveme(m);
    }

    lemma ShownKeys()
      requires Valid()
      ensures abs.files.Keys == tables.sessions.Keys
    {
      hide TableSet.Valid;
    }
  }
}
