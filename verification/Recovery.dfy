// Pulling the missing blocks: read the next block number, send a GIVEME for it, deliver the answer.
module Recovery {
  import opened Options
  import opened Status
  import opened Bytes
  import opened Messages
  import opened Names
  import opened Pieces
  import opened Protocol
  import opened Transfer
  import opened EndToEnd
  import R = Reassembly
  import CrcSpec
  import CrcBurst

  // The sender has announced p, and has it still.
  ghost predicate Serving(snd: State, p: Name) {
    && Sendable(snd, p) && Proper(snd)
    && Crc(Basename(p)) in snd.senders && snd.senders[Crc(Basename(p))] == p
  }

  // The kind of message block n travels in.
  function KindOf(n: nat, count: nat): Byte {
    if n + 1 == count then TYPE_END else TYPE_FILE
  }

  // A GIVEME for block n, made from any path with the file's base name.
  lemma MakesGiveme(st: State, fname: Name, key: int, n: nat)
    requires st.bs > 0 && n < 0x1_0000 && |Basename(fname)| < 0x1_0000
    ensures Fits(st, fname, TYPE_GIVEME, n)
    ensures var r := Maker(st, fname, TYPE_GIVEME, key, n);
            && r.rv == OK && r.st == st && r.rmsg.Some?
            && Sized(r.rmsg.value) && Parse(r.rmsg.value) == Ok(Giveme(Crc(Basename(fname)), n))
  {
    hide Crc;
    hide Basename;
    hide Wire;
    RoundTrip(Giveme(Crc(Basename(fname)), n));
    hide Parse;
    hide Sized;
  }

  // The sender's answer: the block asked for, as END exactly when it is the last.
  lemma Answers(snd: State, p: Name, n: nat)
    requires Serving(snd, p) && n < |BlocksOf(snd, p)|
    ensures Acceptable(snd, Giveme(Crc(Basename(p)), n))
    ensures var r := HandleGiveme(snd, Giveme(Crc(Basename(p)), n));
            && r.rv == OK && r.st == snd && r.rmsg.Some? && Sized(r.rmsg.value)
            && Parse(r.rmsg.value) == Ok(SentBlock(snd, p, n, KindOf(n, |BlocksOf(snd, p)|)))
  {
    hide Crc;
    hide Basename;
    BlockReads(snd, p, n);
    MakesBlock(snd, p, KindOf(n, |BlocksOf(snd, p)|), Crc(Basename(p)), n);
    hide Maker;
    hide Parse;
    hide Sized;
    hide Fits;
  }

  // A session of p's that still misses a block; the receiver knows it by some path with p's base name.
  ghost predicate Missing(snd: State, rcv: State, p: Name, fname: Name) {
    && Serving(snd, p) && Proper(rcv) && Basename(fname) == Basename(p)
    && Crc(Basename(p)) in rcv.files
    && rcv.files[Crc(Basename(p))].cap == |BlocksOf(snd, p)|
    && rcv.files[Crc(Basename(p))].nextid < |BlocksOf(snd, p)|
  }

  // The sender's answer to a request for the next block.
  ghost function Asked(snd: State, rcv: State, p: Name, fname: Name, key: int): (v: seq<Byte>)
    requires Missing(snd, rcv, p, fname)
    ensures var n := rcv.files[Crc(Basename(p))].nextid;
            Sized(v) && Parse(v) == Ok(SentBlock(snd, p, n, KindOf(n, |BlocksOf(snd, p)|)))
  {
    var progress := RecvStatus(rcv, fname, 0);
    MakesGiveme(rcv, fname, key, progress.nextseq);
    var ask := Maker(rcv, fname, TYPE_GIVEME, key, progress.nextseq).rmsg.value;
    Answers(snd, p, progress.nextseq);
    Handle(snd, ask).rmsg.value
  }

  ghost function Round(snd: State, rcv: State, p: Name, fname: Name, key: int): State
    requires Missing(snd, rcv, p, fname)
  {
    Handle(rcv, Asked(snd, rcv, p, fname, key)).st
  }

  // One round delivers the next block: the session closes with the file, or misses strictly less.
  lemma RoundGains(snd: State, rcv: State, p: Name, fname: Name, key: int, w: Name, h: seq<R.Delivery>)
    requires Missing(snd, rcv, p, fname) && Faithful(rcv, Crc(Basename(p)), w, BlocksOf(snd, p), h)
    ensures var id, blocks := Crc(Basename(p)), BlocksOf(snd, p);
            var rcv', n := Round(snd, rcv, p, fname, key), rcv.files[id].nextid;
            var h' := h + [R.Delivery(n, blocks[n])];
            && SameElsewhere(rcv, rcv', id, w)
            && (if R.Complete(h', |blocks|) then Closed(rcv', id, w, snd.fs[p])
                else (Faithful(rcv', id, w, blocks, h') && Missing(snd, rcv', p, fname) && rcv'.files[id].nextid > n))
  {
    hide Crc;
    hide Basename;
    hide Parse;
    hide Sized;
    hide Asked;
    var id, blocks := Crc(Basename(p)), BlocksOf(snd, p);
    var n := rcv.files[id].nextid;
    var m := SentBlock(snd, p, n, KindOf(n, |blocks|));
    var h' := h + [R.Delivery(n, blocks[n])];
    BlocksAreFile(snd, p);
    FaithfulStep(rcv, id, w, blocks, h, m);
    HandleContinues(rcv, Asked(snd, rcv, p, fname, key));
    if !R.Complete(h', |blocks|) {
      NextGrows(rcv, Round(snd, rcv, p, fname, key), id, w, blocks, h, h');
    }
    hide HandleBlock;
    hide Faithful;
    hide Closed;
  }

  lemma NextGrows(st: State, st': State, id: u32, w: Name, blocks: seq<seq<Byte>>,
                  h: seq<R.Delivery>, h': seq<R.Delivery>)
    requires Faithful(st, id, w, blocks, h) && Faithful(st', id, w, blocks, h')
    requires st.files[id].nextid < |blocks|
    requires h' == h + [R.Delivery(st.files[id].nextid, blocks[st.files[id].nextid])]
    ensures st.files[id].nextid < st'.files[id].nextid < |blocks|
  {
    hide Crc;
    hide Concat;
    TrackingOk(st, id, w, |blocks|, h);
    TrackingOk(st', id, w, |blocks|, h');
    RunFacts(|blocks|, h);
    RunFacts(|blocks|, h');
    hide R.Run;
    assert h'[..|h|] == h;
    R.DeliveredStep(h', st'.files[id].nextid);
  }

  // From any session open for the sender's file, however much has been lost, the rounds end: at most
  // cap - nextid of them, each strictly lowering that number, the last closing the session with the file.
  lemma {:induction false} Recovers(snd: State, rcv: State, p: Name, fname: Name, key: int, w: Name, h: seq<R.Delivery>)
    returns (rounds: seq<State>)
    requires Missing(snd, rcv, p, fname) && Faithful(rcv, Crc(Basename(p)), w, BlocksOf(snd, p), h)
    ensures 1 < |rounds| <= |BlocksOf(snd, p)| - rcv.files[Crc(Basename(p))].nextid + 1 && rounds[0] == rcv
    ensures forall k :: 0 <= k < |rounds| - 1 ==>
              Missing(snd, rounds[k], p, fname) && rounds[k + 1] == Round(snd, rounds[k], p, fname, key)
    ensures Closed(rounds[|rounds| - 1], Crc(Basename(p)), w, snd.fs[p])
    ensures SameElsewhere(rcv, rounds[|rounds| - 1], Crc(Basename(p)), w)
    decreases |BlocksOf(snd, p)| - rcv.files[Crc(Basename(p))].nextid
  {
    hide Crc;
    hide Basename;
    hide Round;
    hide Faithful;
    hide Closed;
    hide R.Complete;
    var id, blocks := Crc(Basename(p)), BlocksOf(snd, p);
    var n := rcv.files[id].nextid;
    var h' := h + [R.Delivery(n, blocks[n])];
    var rcv' := Round(snd, rcv, p, fname, key);
    RoundGains(snd, rcv, p, fname, key, w, h);
    hide BlocksOf;
    if R.Complete(h', |blocks|) {
      rounds := [rcv, rcv'];
    } else {
      var rest := Recovers(snd, rcv', p, fname, key, w, h');
      rounds := [rcv] + rest;
      hide Missing;
      assert rounds[|rounds| - 1] == rest[|rest| - 1];
      forall k | 0 <= k < |rounds| - 1
        ensures Missing(snd, rounds[k], p, fname) && rounds[k + 1] == Round(snd, rounds[k], p, fname, key)
      {
        assert k > 0 ==> rounds[k] == rest[k - 1] && rounds[k + 1] == rest[k];
      }
    }
  }

  // ---- Corruption ----

  // A session for file F whose blocks have been altered on the way: if what the completing message leaves
  // differs from F within 32 consecutive bits, the hash check rejects it and the session stays.
  lemma BurstRejected(st: State, id: u32, w: Name, cap: nat, h: seq<R.Delivery>, m: Message, file: seq<Byte>)
    requires Tracking(st, id, w, cap, h) && st.files[id].hashcode == Crc(file)
    requires m.Block? && m.fileid == id && m.blockseq < cap && R.Complete(h + [DeliveryOf(m)], cap)
    requires CrcBurst.DifferInBurst(Concat(R.Commits(h + [DeliveryOf(m)], cap)), file)
    requires Concat(R.Commits(h + [DeliveryOf(m)], cap)) != file
    ensures CtxOk(st.files[id]) && st.files[id].cap == cap
    ensures var r := HandleBlock(st, m);
            r.rv == ERR_PROTO == 11 && id in r.st.files && r.st.calls == st.calls && r.st.reg == st.reg
  {
    hide Concat;
    hide R.Complete;
    hide R.Commits;
    hide CrcBurst.DifferInBurst;
    hide CrcSpec.BitSerialCrc;
    hide Number;
    hide Tracking;
    var left := Concat(R.Commits(h + [DeliveryOf(m)], cap));
    CrcBurst.BurstDetected(left, file);
    CrcDiffers(left, file);
    hide Crc;
    BlockStep(st, id, w, cap, h, m);
    hide HandleBlock;
  }
}
