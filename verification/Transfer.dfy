// One transfer from first block to last: the session of src/proto.c tracks its history of deliveries,
// and finishes with the sender's file.
module Transfer {
  import opened Options
  import opened Status
  import opened Bytes
  import opened Messages
  import opened Names
  import opened Pieces
  import opened Protocol
  import R = Reassembly

  // Session id writes to w and stands where the deliveries h, made to a fresh session, have brought it.
  ghost predicate Tracking(st: State, id: u32, w: Name, cap: nat, h: seq<R.Delivery>) {
    && id in st.files && 0 < cap && R.Within(cap, h) && !R.Complete(h, cap)
    && st.files[id].wfname == w
    && Path(st.dir, PartName(w)) in st.fs
    && Load(st, st.files[id]) == R.Run(cap, h)
  }

  // All that a session's own messages can touch.
  ghost predicate SameElsewhere(st: State, st': State, id: u32, w: Name) {
    && st'.dir == st.dir && st'.bs == st.bs && st'.senders == st.senders && st'.ids == st.ids
    && st'.files - {id} == st.files - {id}
    && st'.fs - {Path(st.dir, w), Path(st.dir, PartName(w))} == st.fs - {Path(st.dir, w), Path(st.dir, PartName(w))}
  }

  function DeliveryOf(m: Message): R.Delivery
    requires m.Block?
  {
    R.Delivery(m.blockseq, m.content)
  }

  lemma RunStep(cap: nat, h: seq<R.Delivery>, e: R.Delivery)
    requires R.Within(cap, h) && e.seqno < cap
    ensures R.Within(cap, h + [e]) && R.Run(cap, h + [e]) == R.Receive(R.Run(cap, h), e.seqno, e.content)
  {
    assert (h + [e])[..|h|] == h;
  }

  lemma RunFacts(cap: nat, h: seq<R.Delivery>)
    requires R.Within(cap, h)
    ensures R.Run(cap, h).nextid == cap <==> R.Complete(h, cap)
    ensures R.IsNext(cap, h, R.Run(cap, h).nextid)
    ensures R.Run(cap, h).part == Concat(R.Commits(h, R.Run(cap, h).nextid))
  {
    R.RunTracks(cap, h);
  }

  lemma TrackingOk(st: State, id: u32, w: Name, cap: nat, h: seq<R.Delivery>)
    requires Tracking(st, id, w, cap, h)
    ensures CtxOk(st.files[id]) && st.files[id].cap == cap && st.files[id].nextid < cap
    ensures st.files[id].nextid == R.Run(cap, h).nextid
  {
    RunFacts(cap, h);
    hide R.Run;
    var r := R.Run(cap, h);
    assert R.Sound(r);
  }

  // One more block received: the session is where one more delivery brings it.
  lemma ReceivedTracks(st: State, id: u32, w: Name, cap: nat, h: seq<R.Delivery>, m: Message)
    requires Tracking(st, id, w, cap, h) && m.Block? && m.fileid == id && m.blockseq < cap
    ensures CtxOk(st.files[id]) && st.files[id].cap == cap
    ensures R.Within(cap, h + [DeliveryOf(m)])
    ensures var st' := Received(st, id, m);
            && id in st'.files && SameElsewhere(st, st', id, w)
            && Path(st.dir, PartName(w)) in st'.fs && st'.files[id].wfname == w
            && Load(st', st'.files[id]) == R.Run(cap, h + [DeliveryOf(m)])
            && st'.files[id].hashcode == st.files[id].hashcode && st'.files[id].fcb == st.files[id].fcb
            && st'.reg == st.reg && st'.calls == st.calls
  {
    TrackingOk(st, id, w, cap, h);
    RunStep(cap, h, DeliveryOf(m));
    ReceiveStore(R.Run(cap, h), m.blockseq, m.content);
    hide R.Run;
    hide R.Receive;
  }

  lemma ReceiveStore(r: R.Rx, i: nat, content: seq<Byte>)
    requires R.Sound(r) && i < r.cap
    ensures i != r.nextid ==> R.Receive(r, i, content).part == r.part
  {
  }

  lemma PathsDiffer(dir: Name, w: Name)
    ensures Path(dir, w) != Path(dir, PartName(w))
  {
    assert |Path(dir, w)| != |Path(dir, PartName(w))|;
  }

  // The session is over and its file stands under the working name.
  ghost predicate Closed(st: State, id: u32, w: Name, file: seq<Byte>) {
    && id !in st.files
    && Path(st.dir, PartName(w)) !in st.fs
    && Path(st.dir, w) in st.fs && st.fs[Path(st.dir, w)] == file
  }

  lemma FinishCloses(st: State, id: u32, w: Name)
    requires id in st.files && st.files[id].wfname == w && Path(st.dir, PartName(w)) in st.fs
    ensures var r := Finish(st, id); var file := st.fs[Path(st.dir, PartName(w))];
            && r.rmsg == Some(w) && SameElsewhere(st, r.st, id, w)
            && Path(st.dir, w) in r.st.fs && r.st.fs[Path(st.dir, w)] == file
            && Path(st.dir, PartName(w)) !in r.st.fs
            && (if Crc(file) == st.files[id].hashcode
                then r.rv == OK && id !in r.st.files && r.st.calls == st.calls + Called(st.reg, st.files[id].fcb)
                  && r.st.reg == Released(st.reg, st.files[id].fcb)
                else r.rv == ERR_PROTO && id in r.st.files && r.st.calls == st.calls && r.st.reg == st.reg)
  {
    hide Crc;
    hide Released;
    hide FindId;
    hide Path;
    PathsDiffer(st.dir, w);
  }

  // What one block does to a session in progress: it moves on while some block is missing, and the
  // message that completes the blocks, that very one, renames the file and settles the session.
  lemma BlockStep(st: State, id: u32, w: Name, cap: nat, h: seq<R.Delivery>, m: Message)
    requires Tracking(st, id, w, cap, h) && m.Block? && m.fileid == id && m.blockseq < cap
    ensures CtxOk(st.files[id]) && st.files[id].cap == cap
    ensures var r, h' := HandleBlock(st, m), h + [DeliveryOf(m)];
            SameElsewhere(st, r.st, id, w) &&
            if !R.Complete(h', cap) then
              && r.rv == OK && r.rmsg == None && Tracking(r.st, id, w, cap, h')
              && r.st.files[id].hashcode == st.files[id].hashcode && r.st.files[id].fcb == st.files[id].fcb
              && r.st.reg == st.reg && r.st.calls == st.calls
            else
              var file := Concat(R.Commits(h', cap));
              && r.rmsg == Some(w)
              && Path(st.dir, w) in r.st.fs && r.st.fs[Path(st.dir, w)] == file
              && Path(st.dir, PartName(w)) !in r.st.fs
              && (if Crc(file) == st.files[id].hashcode
                  then r.rv == OK && id !in r.st.files && r.st.calls == st.calls + Called(st.reg, st.files[id].fcb)
                    && r.st.reg == Released(st.reg, st.files[id].fcb)
                  else r.rv == ERR_PROTO && id in r.st.files && r.st.calls == st.calls && r.st.reg == st.reg)
  {
    hide Crc;
    hide Released;
    hide R.Complete;
    hide R.IsNext;
    hide Called;
    var h' := h + [DeliveryOf(m)];
    TrackingOk(st, id, w, cap, h);
    ReceivedTracks(st, id, w, cap, h, m);
    RunFacts(cap, h');
    hide R.Run;
    var st' := Received(st, id, m);
    hide Received;
    hide Finish;
    if R.Complete(h', cap) {
      FinishCloses(st', id, w);
    }
  }

  // ---- Streams ----

  // A message the receiver may be sent at any time: noise, an ACK, or a block in range of its session.
  ghost predicate Ordinary(st: State, msg: seq<Byte>) {
    && Sized(msg)
    && (Parse(msg).Ok? ==>
          var m := Parse(msg).message;
          m.Ack? || (m.Block? && (m.fileid in st.files ==> m.blockseq < st.files[m.fileid].cap)))
  }

  // Sessions may have ended, and the others keep what HELLO gave them.
  ghost predicate Continues(st: State, st': State) {
    && st'.dir == st.dir && st'.bs == st.bs && Proper(st')
    && forall id :: id in st'.files ==>
         && id in st.files && st'.files[id].cap == st.files[id].cap && st'.files[id].wfname == st.files[id].wfname
         && st'.files[id].hashcode == st.files[id].hashcode && st'.files[id].fcb == st.files[id].fcb
  }

  lemma ReceivedContinues(st: State, m: Message)
    requires Proper(st) && m.Block? && m.fileid in st.files && m.blockseq < st.files[m.fileid].cap
    ensures Continues(st, Received(st, m.fileid, m)) && m.fileid in Received(st, m.fileid, m).files
  {
    hide R.Receive;
  }

  lemma FinishContinues(st: State, id: u32)
    requires Proper(st) && id in st.files
    ensures Continues(st, Finish(st, id).st)
  {
    hide Crc;
  }

  lemma HandleContinues(st: State, msg: seq<Byte>)
    requires Proper(st) && Ordinary(st, msg)
    ensures Parse(msg).Ok? ==> Acceptable(st, Parse(msg).message)
    ensures Continues(st, Handle(st, msg).st)
  {
    hide Parse;
    hide Sized;
    hide Finish;
    hide Received;
    if Parse(msg).Ok? && Parse(msg).message.Block? && Parse(msg).message.fileid in st.files {
      var m := Parse(msg).message;
      ReceivedContinues(st, m);
      FinishContinues(Received(st, m.fileid, m), m.fileid);
    }
  }

  // The state after a stream of messages.
  ghost function HandleAll(st: State, msgs: seq<seq<Byte>>): (st': State)
    requires Proper(st) && forall k :: 0 <= k < |msgs| ==> Ordinary(st, msgs[k])
    ensures Continues(st, st')
    decreases msgs
  {
    if msgs == [] then st
    else
      var mid := HandleAll(st, msgs[..|msgs| - 1]);
      assert Ordinary(st, msgs[|msgs| - 1]);
      HandleContinues(mid, msgs[|msgs| - 1]);
      Handle(mid, msgs[|msgs| - 1]).st
  }
}
