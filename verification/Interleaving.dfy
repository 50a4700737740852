// Sessions with separate working names do not notice one another, however their messages interleave.
module Interleaving {
  import opened Options
  import opened Status
  import opened Bytes
  import opened Messages
  import opened Names
  import opened Protocol
  import opened Registry
  import opened Transfer
  import R = Reassembly

  // The working name each session was opened with.
  ghost predicate Named(st: State, names: map<u32, Name>) {
    forall id :: id in st.files ==> id in names && st.files[id].wfname == names[id]
  }

  // No working name is another's, nor another's part name.
  ghost predicate Apart(names: map<u32, Name>) {
    forall a, b :: a in names && b in names && a != b ==> names[a] != names[b] && names[a] != PartName(names[b])
  }

  // All there is to see of one session: its context, its part file and its final file.
  datatype View = View(ctx: Option<Ctx>, part: Option<seq<Byte>>, file: Option<seq<Byte>>)

  ghost function See(st: State, id: u32, w: Name): View {
    View(Lookup(st.files, id), Lookup(st.fs, Path(st.dir, PartName(w))), Lookup(st.fs, Path(st.dir, w)))
  }

  ghost predicate Mine(id: u32, msg: seq<Byte>) {
    Sized(msg) && Parse(msg).Ok? && Parse(msg).message.Block? && Parse(msg).message.fileid == id
  }

  // The messages of one session, in order.
  ghost function Project(msgs: seq<seq<Byte>>, id: u32): (ps: seq<seq<Byte>>)
    ensures forall k :: 0 <= k < |ps| ==> ps[k] in msgs
  {
    if msgs == [] then []
    else Project(msgs[..|msgs| - 1], id) + (if Mine(id, msgs[|msgs| - 1]) then [msgs[|msgs| - 1]] else [])
  }

  lemma ReceivedOwn(st: State, st': State, id: u32, w: Name, m: Message)
    requires See(st, id, w) == See(st', id, w) && st.dir == st'.dir
    requires m.Block? && id in st.files && CtxOk(st.files[id]) && m.blockseq < st.files[id].cap
    requires st.files[id].wfname == w
    ensures id in st'.files && See(Received(st, id, m), id, w) == See(Received(st', id, m), id, w)
  {
    hide R.Receive;
    hide Path;
    PathsDiffer(st.dir, w);
    assert Lookup(st.files, id) == Lookup(st'.files, id);
    assert Load(st, st.files[id]) == Load(st', st'.files[id]);
  }

  lemma FinishOwn(st: State, st': State, id: u32, w: Name)
    requires See(st, id, w) == See(st', id, w) && st.dir == st'.dir && id in st.files && st.files[id].wfname == w
    ensures id in st'.files
    ensures var r, r' := Finish(st, id), Finish(st', id);
            See(r.st, id, w) == See(r'.st, id, w) && r.rv == r'.rv && r.rmsg == r'.rmsg
  {
    hide Crc;
    hide Path;
    hide Released;
    hide FindId;
    PathsDiffer(st.dir, w);
    assert Lookup(st.files, id) == Lookup(st'.files, id);
  }

  // A session's own message sees only the session.
  lemma OwnMessage(st: State, st': State, id: u32, w: Name, m: Message)
    requires See(st, id, w) == See(st', id, w) && st.dir == st'.dir
    requires m.Block? && m.fileid == id
    requires id in st.files ==> CtxOk(st.files[id]) && m.blockseq < st.files[id].cap && st.files[id].wfname == w
    ensures id in st'.files ==> CtxOk(st'.files[id]) && m.blockseq < st'.files[id].cap
    ensures var r, r' := HandleBlock(st, m), HandleBlock(st', m);
            See(r.st, id, w) == See(r'.st, id, w) && r.rv == r'.rv && r.rmsg == r'.rmsg
  {
    hide CtxOk;
    hide Path;
    assert Lookup(st.files, id) == Lookup(st'.files, id);
    if id in st.files {
      ReceivedOwn(st, st', id, w, m);
      var s, s' := Received(st, id, m), Received(st', id, m);
      assert st'.files[id] == st.files[id] && s'.dir == s.dir && s.files[id].wfname == w;
      hide Received;
      hide Finish;
      FinishOwn(s, s', id, w);
      assert Lookup(s.files, id) == Lookup(s'.files, id);
    }
  }

  lemma NamesApart(dir: Name, v: Name, w: Name)
    requires v != w && v != PartName(w) && w != PartName(v)
    ensures var ps := {Path(dir, v), Path(dir, PartName(v))}; Path(dir, w) !in ps && Path(dir, PartName(w)) !in ps
  {
    if Path(dir, w) == Path(dir, v) { PathInjective(dir, w, v); }
    if Path(dir, w) == Path(dir, PartName(v)) { PathInjective(dir, w, PartName(v)); }
    if Path(dir, PartName(w)) == Path(dir, v) { PathInjective(dir, PartName(w), v); }
    if Path(dir, PartName(w)) == Path(dir, PartName(v)) {
      PathInjective(dir, PartName(w), PartName(v));
      PartInjective(w, v);
    }
  }

  // Another session's message does not show.
  lemma OtherMessage(st: State, id: u32, w: Name, m: Message)
    requires m.Block? && m.fileid != id
    requires m.fileid in st.files ==>
               var ctx := st.files[m.fileid]; var v := ctx.wfname;
               CtxOk(ctx) && m.blockseq < ctx.cap && v != w && v != PartName(w) && w != PartName(v)
    ensures See(HandleBlock(st, m).st, id, w) == See(st, id, w)
  {
    hide Crc;
    hide Path;
    hide PartName;
    hide R.Receive;
    hide Released;
    hide FindId;
    if m.fileid in st.files {
      NamesApart(st.dir, st.files[m.fileid].wfname, w);
    }
  }

  lemma StillOrdinary(st: State, st': State, msg: seq<Byte>)
    requires Continues(st, st') && Ordinary(st, msg)
    ensures Ordinary(st', msg)
  {
  }

  // After any interleaving, a session stands exactly where its own messages alone would have left it.
  lemma {:induction false} Interleave(st: State, names: map<u32, Name>, id: u32, msgs: seq<seq<Byte>>)
    requires Proper(st) && Named(st, names) && Apart(names) && id in names
    requires forall k :: 0 <= k < |msgs| ==> Ordinary(st, msgs[k])
    ensures See(HandleAll(st, msgs), id, names[id]) == See(HandleAll(st, Project(msgs, id)), id, names[id])
    decreases msgs
  {
    hide See;
    hide Apart;
    hide HandleBlock;
    hide Sized;
    hide Parse;
    hide Continues;
    if msgs == [] {
    } else {
      var n := |msgs| - 1;
      var rest, msg := msgs[..n], msgs[n];
      Interleave(st, names, id, rest);
      assert Ordinary(st, msg);
      InterleaveStep(st, names, id, rest, msg);
      if Mine(id, msg) {
        var ps := Project(rest, id);
        assert Project(msgs, id) == ps + [msg];
        assert (ps + [msg])[..|ps|] == ps;
      } else {
        assert Project(msgs, id) == Project(rest, id);
      }
    }
  }

  // One more message, in the interleaved run and in the session's own.
  lemma InterleaveStep(st: State, names: map<u32, Name>, id: u32, msgs: seq<seq<Byte>>, msg: seq<Byte>)
    requires Proper(st) && Named(st, names) && Apart(names) && id in names
    requires (forall k :: 0 <= k < |msgs| ==> Ordinary(st, msgs[k])) && Ordinary(st, msg)
    requires See(HandleAll(st, msgs), id, names[id]) == See(HandleAll(st, Project(msgs, id)), id, names[id])
    ensures var s, t, w := HandleAll(st, msgs), HandleAll(st, Project(msgs, id)), names[id];
            && Ordinary(s, msg) && Ordinary(t, msg)
            && (Mine(id, msg) ==>
                  && See(Handle(s, msg).st, id, w) == See(Handle(t, msg).st, id, w)
                  && Handle(s, msg).rv == Handle(t, msg).rv && Handle(s, msg).rmsg == Handle(t, msg).rmsg)
            && (!Mine(id, msg) ==> See(Handle(s, msg).st, id, w) == See(s, id, w))
  {
    hide Sized;
    hide Parse;
    hide HandleBlock;
    hide Path;
    var s, t, w := HandleAll(st, msgs), HandleAll(st, Project(msgs, id)), names[id];
    StillOrdinary(st, s, msg);
    StillOrdinary(st, t, msg);
    HandleContinues(s, msg);
    HandleContinues(t, msg);
    if Parse(msg).Ok? && Parse(msg).message.Block? {
      var m := Parse(msg).message;
      if m.fileid == id {
        OwnMessage(s, t, id, w, m);
      } else {
        OtherMessage(s, id, w, m);
      }
    }
  }

  // What a HELLO that is not refused leaves behind.
  lemma HelloEffect(st: State, m: Message)
    requires Proper(st) && m.Hello? && Acceptable(st, m) && 0 !in st.files
    ensures var st', fname := HandleHello(st, m).st, CStr(m.fname);
            var w := WorkingName(st, fname).value;
            var (bound, fcb) := Bind(st, fname);
            && Proper(st') && st'.dir == st.dir && st'.bs == st.bs
            && st'.files.Keys == st.files.Keys + {Crc(fname)}
            && (forall id :: id in st.files && id != Crc(fname) ==> st'.files[id] == st.files[id])
            && st'.files[Crc(fname)].wfname == w && st'.files[Crc(fname)].hashcode == m.hashcode
            && st'.files[Crc(fname)].cap == m.blocks && st'.files[Crc(fname)].fcb == fcb
            && st'.fs == st.fs[Path(st.dir, PartName(w)) := []]
            && Load(st', st'.files[Crc(fname)]) == R.Fresh(m.blocks)
            && st'.reg == bound.reg && st'.ids == bound.ids
            && st'.senders == st.senders && st'.calls == st.calls
  {
    hide Crc;
    hide CStr;
    hide Wire;
    hide Path;
    hide Bind;
    hide WorkingName;
    BindFrame(st, CStr(m.fname));
  }

  // Stopping a transfer just opened, by any path that leads to its file id: the sessions are as before its
  // HELLO, and so are the files exactly when no part file of the working name was there. The registry is as
  // a whole transfer leaves it.
  lemma StopUndoesHello(st: State, m: Message, s: State, f: Name)
    requires Proper(st) && m.Hello? && Acceptable(st, m) && 0 !in st.files && Crc(CStr(m.fname)) !in st.files
    requires s == HandleHello(st, m).st && Crc(Basename(f)) == Crc(CStr(m.fname))
    ensures var r, part := RecvStop(s, f), Path(st.dir, PartName(WorkingName(st, CStr(m.fname)).value));
            && r.rv == OK && r.st.files == st.files
            && r.st.fs == st.fs - {part} && (r.st.fs == st.fs <==> part !in st.fs)
            && r.st.calls == st.calls && r.st.senders == st.senders
            && (WellFormed(st) ==> r.st.reg == RegistryAfter(st, CStr(m.fname)))
  {
    hide Crc;
    hide CStr;
    hide Basename;
    hide Path;
    hide WorkingName;
    hide Released;
    hide R.Fresh;
    hide Bind;
    hide RegistryAfter;
    hide WellFormed;
    HelloEffect(st, m);
    hide HandleHello;
    var part := Path(st.dir, PartName(WorkingName(st, CStr(m.fname)).value));
    assert st.fs[part := []] - {part} == st.fs - {part};
    assert part in st.fs ==> part !in st.fs - {part};
    assert RecvStop(s, f).st.files == st.files;
    if WellFormed(st) {
      BindReleased(st, CStr(m.fname));
    }
  }

  // A HELLO succeeds, and is answered, exactly when neither its own file id nor id 0 is live.
  lemma HelloSucceeds(st: State, m: Message)
    requires Proper(st) && m.Hello? && Acceptable(st, m)
    ensures var r := HandleHello(st, m);
            && (r.rv == OK <==> 0 !in st.files && Crc(CStr(m.fname)) !in st.files)
            && (r.rmsg.Some? <==> r.rv == OK)
  {
    hide Crc;
    hide CStr;
    hide Wire;
    hide Path;
    hide Bind;
  }

  // A HELLO for a transfer under way is reported as an error, yet it starts the transfer over: what had been
  // received survives exactly when id 0 happens to be live, since that is the id the code looks up.
  lemma LiveHello(st: State, m: Message)
    requires Proper(st) && m.Hello? && Acceptable(st, m)
    requires Crc(CStr(m.fname)) in st.files && st.files[Crc(CStr(m.fname))].nextid > 0
    ensures var r, id := HandleHello(st, m), Crc(CStr(m.fname));
            && r.rv == ERR_HT && id in r.st.files
            && (r.st.files[id].nextid == st.files[id].nextid <==> 0 in st.files)
  {
    hide Crc;
    hide CStr;
    hide Wire;
    hide Path;
    hide Bind;
  }

  // Names can come to be shared: once a HELLO has been given a numbered name, a HELLO for that very name
  // writes to it too, since only the part file exists so far.
  lemma SharedName(st: State, m: Message, m': Message, s: State)
    requires Proper(st) && m.Hello? && m'.Hello? && m'.blocks > 0 && Acceptable(st, m)
    requires 0 !in st.files && Crc(CStr(m.fname)) != 0 && Crc(CStr(m.fname)) != Crc(CStr(m'.fname))
    requires Path(st.dir, CStr(m.fname)) in st.fs && WorkingName(st, CStr(m.fname)) == Some(CStr(m'.fname))
    requires s == HandleHello(st, m).st
    ensures Proper(s) && Acceptable(s, m')
    ensures var s', id, id' := HandleHello(s, m').st, Crc(CStr(m.fname)), Crc(CStr(m'.fname));
            && id in s'.files && id' in s'.files && s'.files[id].wfname == s'.files[id'].wfname
            && PartPath(s', s'.files[id]) in s'.fs && s'.fs[PartPath(s', s'.files[id])] == []
  {
    hide Crc;
    hide CStr;
    hide Path;
    hide R.Fresh;
    var w := CStr(m'.fname);
    PathsDiffer(st.dir, w);
    HelloEffect(st, m);
    assert Path(s.dir, w) !in s.fs;
    assert Acceptable(s, m');
    HelloEffect(s, m');
    hide HandleHello;
  }
}
