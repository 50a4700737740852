// Every session over every run of calls: it stands where the blocks since its last HELLO have brought it.
module Runs {
  import opened Options
  import opened Status
  import opened Bytes
  import opened Messages
  import opened Names
  import opened Pieces
  import opened Protocol
  import opened Registry
  import opened Transfer
  import opened Interleaving
  import opened Naming

  // The session failed its hash check: complete, its file under the final name with another checksum.
  ghost predicate Failed(st: State, id: u32, h: seq<R.Delivery>) {
    && id in st.files
    && var ctx := st.files[id];
       && 0 < ctx.cap == |ctx.entries| == ctx.nextid && R.Within(ctx.cap, h) && R.Complete(h, ctx.cap)
       && Lookup(st.fs, PartPath(st, ctx)) == None
       && Lookup(st.fs, FinalPath(st, ctx)) == Some(Concat(R.Commits(h, ctx.cap)))
       && Crc(Concat(R.Commits(h, ctx.cap))) != ctx.hashcode
  }

  // The session stands where the deliveries h have brought it.
  ghost predicate Standing(st: State, id: u32, h: seq<R.Delivery>) {
    && id in st.files
    && (Tracking(st, id, st.files[id].wfname, st.files[id].cap, h) || Failed(st, id, h))
  }

  // The deliveries of a session after one more call.
  ghost function Next(st: State, op: Op, id: u32, h: seq<R.Delivery>): seq<R.Delivery> {
    if op.HandleOp? && Sized(op.msg) && Parse(op.msg).Ok? then
      var m := Parse(op.msg).message;
      if m.Hello? && 0 !in st.files && Crc(CStr(m.fname)) == id then []
      else if m.Block? && m.fileid == id then h + [DeliveryOf(m)]
      else h
    else h
  }

  // The blocks for id among the first n calls, from its last HELLO on.
  ghost function Since(sts: seq<State>, ops: seq<Op>, n: nat, id: u32): seq<R.Delivery>
    requires n <= |ops| && n < |sts|
  {
    if n == 0 then [] else Next(sts[n - 1], ops[n - 1], id, Since(sts, ops, n - 1, id))
  }

  // Every HELLO that is not refused passes the check of its working name.
  ghost predicate Careful(st: State, op: Op)
    requires Proper(st) && Allowed(st, op)
  {
    op.HandleOp? && Parse(op.msg).Ok? && Parse(op.msg).message.Hello? && 0 !in st.files ==>
      Clear(st, CStr(Parse(op.msg).message.fname))
  }

  // A session is known by its context and its two files.
  lemma SeenStands(st: State, st': State, id: u32, h: seq<R.Delivery>)
    requires Standing(st, id, h) && st'.dir == st.dir
    requires See(st', id, st.files[id].wfname) == See(st, id, st.files[id].wfname)
    ensures Standing(st', id, h) && st'.files[id] == st.files[id]
  {
    hide Crc;
    hide Path;
    hide PartName;
    hide R.Run;
    hide R.Complete;
    hide R.Commits;
    hide Concat;
    assert Lookup(st'.files, id) == Lookup(st.files, id);
  }

  lemma StandingBacked(st: State, h: map<u32, seq<R.Delivery>>)
    requires forall id :: id in st.files ==> id in h && Standing(st, id, h[id])
    ensures Backed(st)
  {
    hide Crc;
    hide R.Run;
    hide R.Complete;
    hide R.Commits;
    hide Concat;
    hide Path;
    hide PartName;
    forall a | a in st.files
      ensures OnDisk(st, PartName(st.files[a].wfname)) || OnDisk(st, st.files[a].wfname)
    {
      assert Standing(st, a, h[a]);
    }
  }

  // A block for a session that failed: it is stored, the missing part file is reported, and nothing else.
  lemma FailedStep(st: State, id: u32, h: seq<R.Delivery>, m: Message)
    requires Failed(st, id, h) && m.Block? && m.fileid == id && m.blockseq < st.files[id].cap
    ensures CtxOk(st.files[id])
    ensures Failed(HandleBlock(st, m).st, id, h + [DeliveryOf(m)]) && HandleBlock(st, m).rv == ERR_FILEPATH
  {
    hide Crc;
    hide Concat;
    hide Path;
    hide PartName;
    var h', cap := h + [DeliveryOf(m)], st.files[id].cap;
    assert h'[..|h|] == h;
    R.CommitsKept(h', cap);
    hide R.Commits;
    hide R.Complete;
  }

  // A block that fails the hash check is the one that completes the file.
  lemma FailsComplete(st: State, m: Message)
    requires m.Block? && m.fileid in st.files && CtxOk(st.files[m.fileid]) && m.blockseq < st.files[m.fileid].cap
    requires HandleBlock(st, m).rv == ERR_PROTO
    ensures var r := HandleBlock(st, m);
            m.fileid in r.st.files && CtxOk(r.st.files[m.fileid])
            && r.st.files[m.fileid].nextid == r.st.files[m.fileid].cap == st.files[m.fileid].cap
            && r.st.files[m.fileid].wfname == st.files[m.fileid].wfname
            && r.st.files[m.fileid].hashcode == st.files[m.fileid].hashcode
  {
    hide Crc;
    hide Path;
    hide R.Receive;
    hide Released;
    hide Called;
  }

  // A session's own block.
  lemma OwnBlockStands(st: State, m: Message, h: seq<R.Delivery>)
    requires m.Block? && Standing(st, m.fileid, h) && m.blockseq < st.files[m.fileid].cap
    ensures CtxOk(st.files[m.fileid])
    ensures var st' := HandleBlock(st, m).st; m.fileid in st'.files ==> Standing(st', m.fileid, h + [DeliveryOf(m)])
  {
    hide Crc;
    hide Concat;
    hide Path;
    hide PartName;
    hide Released;
    hide Called;
    hide R.Run;
    hide R.Commits;
    hide R.Complete;
    hide R.IsNext;
    var id, w, cap := m.fileid, st.files[m.fileid].wfname, st.files[m.fileid].cap;
    if Failed(st, id, h) {
      FailedStep(st, id, h, m);
      hide HandleBlock;
    } else {
      BlockStep(st, id, w, cap, h, m);
      if HandleBlock(st, m).rv == ERR_PROTO {
        FailsComplete(st, m);
      }
      hide HandleBlock;
    }
  }

  lemma BlockStands(st: State, m: Message, id: u32, h: seq<R.Delivery>)
    requires Proper(st) && m.Block? && Acceptable(st, m) && LiveApart(st) && (id in st.files ==> Standing(st, id, h))
    ensures var st' := HandleBlock(st, m).st;
            id in st'.files ==> Standing(st', id, if m.fileid == id then h + [DeliveryOf(m)] else h)
  {
    hide Standing;
    hide Path;
    hide PartName;
    if id in st.files && m.fileid == id {
      OwnBlockStands(st, m, h);
      hide HandleBlock;
    } else if id in st.files {
      OtherMessage(st, id, st.files[id].wfname, m);
      BlockFrame(st, m);
      hide HandleBlock;
      SeenStands(st, HandleBlock(st, m).st, id, h);
    } else {
      BlockFrame(st, m);
    }
  }

  lemma BlockFrame(st: State, m: Message)
    requires Proper(st) && m.Block? && Acceptable(st, m)
    ensures var st' := HandleBlock(st, m).st;
            st'.dir == st.dir && forall a :: a in st'.files ==> a in st.files && st'.files[a].wfname == st.files[a].wfname
  {
    hide Crc;
    hide Path;
    hide R.Receive;
    hide Released;
    hide Called;
  }

  lemma HelloStands(st: State, m: Message, id: u32, h: seq<R.Delivery>)
    requires Proper(st) && m.Hello? && Acceptable(st, m) && 0 !in st.files
    requires LiveApart(HandleHello(st, m).st) && (id in st.files ==> Standing(st, id, h))
    ensures var st' := HandleHello(st, m).st;
            id in st'.files ==> Standing(st', id, if Crc(CStr(m.fname)) == id then [] else h)
  {
    hide Crc;
    hide CStr;
    hide Path;
    hide PartName;
    hide WorkingName;
    hide Bind;
    hide Standing;
    HelloEffect(st, m);
    var st', own, w := HandleHello(st, m).st, Crc(CStr(m.fname)), WorkingName(st, CStr(m.fname)).value;
    hide HandleHello;
    if id == own {
      FreshStands(st', id);
    } else if id in st.files {
      var v := st.files[id].wfname;
      NamesApart(st.dir, w, v);
      assert See(st', id, v) == See(st, id, v);
      SeenStands(st, st', id, h);
    }
  }

  lemma FreshStands(st: State, id: u32)
    requires id in st.files && 0 < st.files[id].cap && Load(st, st.files[id]) == R.Fresh(st.files[id].cap)
    requires Path(st.dir, PartName(st.files[id].wfname)) in st.fs
    ensures Standing(st, id, [])
  {
    hide Path;
    assert !R.Delivered([], 0);
  }

  lemma StopStands(st: State, fname: Name, id: u32, h: seq<R.Delivery>)
    requires LiveApart(st) && (id in st.files ==> Standing(st, id, h))
    ensures var st' := RecvStop(st, fname).st; id in st'.files ==> Standing(st', id, h)
  {
    hide Crc;
    hide Basename;
    hide Path;
    hide PartName;
    hide Released;
    hide Standing;
    var st', own := RecvStop(st, fname).st, Crc(Basename(fname));
    if id in st'.files {
      var v := st.files[id].wfname;
      if own in st.files {
        NamesApart(st.dir, st.files[own].wfname, v);
      }
      assert See(st', id, v) == See(st, id, v);
      hide RecvStop;
      SeenStands(st, st', id, h);
    }
  }

  // Sessions only end, and keep their working names.
  ghost predicate Fewer(st: State, st': State) {
    forall a :: a in st'.files ==> a in st.files && st'.files[a].wfname == st.files[a].wfname
  }

  lemma FewerApart(st: State, st': State)
    requires LiveApart(st) && Fewer(st, st')
    ensures LiveApart(st')
  {
  }

  // The calls that have nothing to do with sessions.
  lemma AsideStands(st: State, op: Op, id: u32, h: seq<R.Delivery>)
    requires Proper(st) && Allowed(st, op) && !op.StopOp? && (id in st.files ==> Standing(st, id, h))
    requires op.HandleOp? && Parse(op.msg).Ok? ==> Parse(op.msg).message.Ack? || Parse(op.msg).message.Giveme?
    ensures var st' := Apply(st, op); st'.files == st.files && (id in st'.files ==> Standing(st', id, h))
  {
    hide Standing;
    hide Parse;
    hide Sized;
    hide Wire;
    hide B.BlockRead;
    hide Crc;
    hide Path;
    var st' := Apply(st, op);
    assert st'.files == st.files && st'.fs == st.fs && st'.dir == st.dir;
    hide Apply;
    if id in st.files {
      SeenStands(st, st', id, h);
    }
  }

  // One call leaves names apart, if it is a HELLO given its own name or none at all.
  lemma StepApart(st: State, op: Op)
    requires Proper(st) && Allowed(st, op) && Careful(st, op) && LiveApart(st) && Backed(st)
    ensures LiveApart(Apply(st, op))
  {
    hide LiveApart;
    hide Backed;
    hide Parse;
    hide Sized;
    hide HandleHello;
    hide HandleBlock;
    hide Maker;
    hide Clear;
    hide Crc;
    hide Released;
    if op.HandleOp? && Parse(op.msg).Ok? && Parse(op.msg).message.Hello? && 0 !in st.files {
      HelloKeepsApart(st, Parse(op.msg).message);
    } else {
      StepFewer(st, op);
      FewerApart(st, Apply(st, op));
    }
  }

  lemma StepFewer(st: State, op: Op)
    requires Proper(st) && Allowed(st, op)
    requires op.HandleOp? && Parse(op.msg).Ok? && Parse(op.msg).message.Hello? ==> 0 in st.files
    ensures Fewer(st, Apply(st, op))
  {
    hide Parse;
    hide Sized;
    hide HandleBlock;
    hide Crc;
    hide Wire;
    hide B.BlockRead;
    hide Path;
    hide Released;
    if op.HandleOp? && Parse(op.msg).Ok? && Parse(op.msg).message.Block? {
      BlockFrame(st, Parse(op.msg).message);
    }
  }

  lemma StepStands(st: State, op: Op, id: u32, h: seq<R.Delivery>)
    requires Proper(st) && Allowed(st, op) && LiveApart(st) && LiveApart(Apply(st, op))
    requires id in st.files ==> Standing(st, id, h)
    ensures var st' := Apply(st, op); id in st'.files ==> Standing(st', id, Next(st, op, id, h))
  {
    hide LiveApart;
    hide Standing;
    hide Parse;
    hide Sized;
    hide HandleHello;
    hide HandleBlock;
    hide Crc;
    if op.StopOp? {
      StopStands(st, op.fname, id, h);
    } else if op.HandleOp? && Parse(op.msg).Ok? && Parse(op.msg).message.Hello? {
      if 0 !in st.files {
        HelloStands(st, Parse(op.msg).message, id, h);
      } else {
        RefusedIs(st, Parse(op.msg).message);
      }
    } else if op.HandleOp? && Parse(op.msg).Ok? && Parse(op.msg).message.Block? {
      BlockStands(st, Parse(op.msg).message, id, h);
    } else {
      AsideStands(st, op, id, h);
    }
  }

  lemma RefusedIs(st: State, m: Message)
    requires Proper(st) && m.Hello? && Acceptable(st, m) && 0 in st.files
    ensures HandleHello(st, m).st == st
  {
    hide Crc;
    hide Bind;
    hide WorkingName;
  }

  // What holds after n calls: names are apart, and every session is where its deliveries put it.
  ghost predicate Told(sts: seq<State>, ops: seq<Op>, n: nat)
    requires n <= |ops| && n < |sts|
  {
    && LiveApart(sts[n])
    && forall id :: id in sts[n].files ==> Standing(sts[n], id, Since(sts, ops, n, id))
  }

  // Over every run of calls from a start without sessions, each HELLO passing the check: whatever is
  // registered, made, stopped and sent to other sessions in between, and however often a session is opened
  // again, every live session is the reassembly of the blocks sent to it since its last HELLO, its part file
  // their committed contents, or has been given them all and failed its hash check.
  lemma {:induction false} RunsTrack(sts: seq<State>, ops: seq<Op>, n: nat)
    requires Reachable(sts, ops) && n < |sts| && sts[0].files == map[]
    requires forall k :: 0 <= k < |ops| ==> Careful(sts[k], ops[k])
    ensures Told(sts, ops, n)
  {
    hide Apply;
    hide Allowed;
    hide LiveApart;
    hide Standing;
    hide Careful;
    if n == 0 {
      NoneApart(sts[0]);
    } else {
      var st, op := sts[n - 1], ops[n - 1];
      RunsTrack(sts, ops, n - 1);
      assert sts[n - 1 + 1] == Apply(st, op);
      StandingBacked(st, map id | id in st.files :: Since(sts, ops, n - 1, id));
      StepApart(st, op);
      forall id | id in sts[n].files
        ensures Standing(sts[n], id, Since(sts, ops, n, id))
      {
        StepStands(st, op, id, Since(sts, ops, n - 1, id));
      }
    }
  }

  lemma NoneApart(st: State)
    requires st.files == map[]
    ensures LiveApart(st)
  {
  }

  // After any such run from init, messages may interleave in any way: each session moves on as its own
  // messages alone would take it.
  lemma RunsInterleave(dir: Name, bs: u32, fs: Files, sts: seq<State>, ops: seq<Op>, n: nat,
                       id: u32, msgs: seq<seq<Byte>>)
    requires bs > 0 && Reachable(sts, ops) && n < |sts| && sts[0] == Init(dir, bs, fs)
    requires forall k :: 0 <= k < |ops| ==> Careful(sts[k], ops[k])
    requires id in sts[n].files && forall k :: 0 <= k < |msgs| ==> Ordinary(sts[n], msgs[k])
    ensures Proper(sts[n])
    ensures var st := sts[n]; var w := st.files[id].wfname;
            See(HandleAll(st, msgs), id, w) == See(HandleAll(st, Project(msgs, id)), id, w)
  {
    RunsKeep(dir, bs, fs, sts, ops, n);
    WellFormedProper(sts[n]);
    RunsTrack(sts, ops, n);
    LiveNamesApart(sts[n]);
    assert LiveNames(sts[n])[id] == sts[n].files[id].wfname;
    hide *;
    Interleave(sts[n], LiveNames(sts[n]), id, msgs);
  }
}
