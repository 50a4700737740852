// The receiver's FILE and END branch of src/proto.c as a function on one session, and what it
// amounts to over every history of deliveries.
module Reassembly {
  import opened Options
  import opened Bytes
  import opened Pieces

  // The reassembly fields of struct nctx, with the part file they feed.
  datatype Rx = Rx(cap: nat, nextid: nat, entries: seq<Option<seq<Byte>>>, len: int, part: seq<Byte>)

  predicate Sound(r: Rx) {
    |r.entries| == r.cap && r.nextid <= r.cap
  }

  // nctx_alloc, and the empty part file of HELLO.
  function Fresh(cap: nat): (r: Rx)
    ensures Sound(r)
  {
    Rx(cap, 0, seq(cap, _ => None), 0, [])
  }

  // The do-while loop: step nextid, and append and drop the buffered block there, while there is one.
  function Drain(r: Rx): (d: Rx)
    requires Sound(r) && r.nextid < r.cap
    ensures Sound(d) && d.cap == r.cap && d.len == r.len && d.nextid > r.nextid
    decreases r.cap - r.nextid
  {
    var n := r.nextid + 1;
    if n >= r.cap || r.entries[n].None? then r.(nextid := n)
    else Drain(r.(nextid := n, part := r.part + r.entries[n].value, entries := r.entries[n := None]))
  }

  // A buffered block that is about to be replaced; an empty one is not noticed.
  predicate Replaces(r: Rx, i: nat)
    requires Sound(r) && i < r.cap
  {
    r.entries[i].Some? && r.entries[i].value != []
  }

  // One FILE or END message, up to the completion check.
  function Receive(r: Rx, i: nat, content: seq<Byte>): (r': Rx)
    requires Sound(r) && i < r.cap
    ensures Sound(r') && r'.cap == r.cap
  {
    if i == r.nextid then
      var d := Drain(r.(part := r.part + content));
      d.(len := d.len + 1)
    else
      r.(entries := r.entries[i := Some(content)], len := r.len + (if Replaces(r, i) then 0 else 1))
  }

  // A delivered block: its number and contents.
  datatype Delivery = Delivery(seqno: nat, content: seq<Byte>)

  ghost predicate Within(cap: nat, h: seq<Delivery>) {
    forall k :: 0 <= k < |h| ==> h[k].seqno < cap
  }

  // The session after the deliveries h, in order.
  function Run(cap: nat, h: seq<Delivery>): (r: Rx)
    requires Within(cap, h)
    ensures Sound(r) && r.cap == cap
    decreases h
  {
    if h == [] then Fresh(cap)
    else
      var e := h[|h| - 1];
      Receive(Run(cap, h[..|h| - 1]), e.seqno, e.content)
  }

  ghost predicate Delivered(h: seq<Delivery>, i: nat) {
    exists k :: 0 <= k < |h| && h[k].seqno == i
  }

  // Every block below n has been delivered.
  ghost predicate Complete(h: seq<Delivery>, n: nat) {
    forall i: nat :: i < n ==> Delivered(h, i)
  }

  // n is the least block number not yet delivered, or cap.
  ghost predicate IsNext(cap: nat, h: seq<Delivery>, n: nat) {
    n <= cap && Complete(h, n) && (n < cap ==> !Delivered(h, n))
  }

  lemma NextUnique(cap: nat, h: seq<Delivery>, m: nat, n: nat)
    requires IsNext(cap, h, m) && IsNext(cap, h, n)
    ensures m == n
  {
  }

  // The contents of the last message for block i.
  function Last(h: seq<Delivery>, i: nat): (c: Option<seq<Byte>>)
    ensures c.Some? <==> Delivered(h, i)
    decreases h
  {
    if h == [] then None
    else if h[|h| - 1].seqno == i then
      assert Delivered(h, i);
      Some(h[|h| - 1].content)
    else
      var g := h[..|h| - 1];
      assert forall k :: 0 <= k < |g| ==> g[k] == h[k];
      Last(g, i)
  }

  // The contents block i was written with: those of the last message for it up to and including the
  // delivery that first made every block up to i available. Later messages for it play no part.
  ghost function Committed(h: seq<Delivery>, i: nat): seq<Byte>
    requires Complete(h, i + 1)
    decreases h
  {
    assert Delivered(h, i);
    var g := h[..|h| - 1];
    if Complete(g, i + 1) then Committed(g, i) else Last(h, i).value
  }

  ghost function Commits(h: seq<Delivery>, n: nat): (cs: seq<seq<Byte>>)
    requires Complete(h, n)
    ensures |cs| == n && forall i :: 0 <= i < n ==> cs[i] == Committed(h, i)
  {
    if n == 0 then [] else Commits(h, n - 1) + [Committed(h, n - 1)]
  }

  lemma {:induction false} DeliveredStep(h: seq<Delivery>, i: nat)
    requires h != []
    ensures Delivered(h, i) <==> Delivered(h[..|h| - 1], i) || h[|h| - 1].seqno == i
  {
    var g := h[..|h| - 1];
    if Delivered(g, i) {
      var k :| 0 <= k < |g| && g[k].seqno == i;
      assert h[k].seqno == i;
    }
    if Delivered(h, i) && h[|h| - 1].seqno != i {
      var k :| 0 <= k < |h| && h[k].seqno == i;
      assert g[k].seqno == i;
    }
  }

  // One drain stops at the first gap, having emptied the slots in between and touched no other.
  lemma {:induction false} DrainStops(r: Rx)
    requires Sound(r) && r.nextid < r.cap
    ensures var d := Drain(r);
            && (d.nextid < r.cap ==> r.entries[d.nextid].None?)
            && (forall i :: r.nextid < i < d.nextid ==> r.entries[i].Some?)
            && (forall i :: 0 <= i < r.cap ==> d.entries[i] == if r.nextid < i < d.nextid then None else r.entries[i])
    decreases r.cap - r.nextid
  {
    var n := r.nextid + 1;
    if n >= r.cap || r.entries[n].None? {
    } else {
      var r' := r.(nextid := n, part := r.part + r.entries[n].value, entries := r.entries[n := None]);
      DrainStops(r');
      forall i | r.nextid < i < Drain(r).nextid
        ensures r.entries[i].Some?
      {
        assert i == n || r'.entries[i].Some?;
      }
    }
  }

  // It appends the blocks of those slots, in order.
  lemma {:induction false} DrainAppends(r: Rx, bs: seq<seq<Byte>>)
    requires Sound(r) && r.nextid < r.cap && |bs| == Drain(r).nextid - r.nextid - 1
    requires forall j :: 0 <= j < |bs| ==> r.entries[r.nextid + 1 + j] == Some(bs[j])
    ensures Drain(r).part == r.part + Concat(bs)
    decreases r.cap - r.nextid
  {
    var n := r.nextid + 1;
    if n >= r.cap || r.entries[n].None? {
      ConcatNone();
    } else {
      var r' := r.(nextid := n, part := r.part + r.entries[n].value, entries := r.entries[n := None]);
      assert bs[0] == r.entries[n].value;
      DrainAppends(r', bs[1..]);
      assert bs == [bs[0]] + bs[1..];
      ConcatCons(bs[0], bs[1..]);
    }
  }

  lemma {:induction false} LastStep(h: seq<Delivery>, i: nat)
    requires h != []
    ensures Last(h, i) == if h[|h| - 1].seqno == i then Some(h[|h| - 1].content) else Last(h[..|h| - 1], i)
  {
  }

  lemma {:induction false} CommitsKept(h: seq<Delivery>, n: nat)
    requires h != [] && Complete(h[..|h| - 1], n)
    ensures Complete(h, n) && Commits(h, n) == Commits(h[..|h| - 1], n)
  {
    forall i: nat | i < n
      ensures Delivered(h, i)
    {
      DeliveredStep(h, i);
    }
  }

  // The state of a session is the history's: nextid is the least block not delivered; every slot past
  // it holds the last message for its block, if there was one; the part file holds the committed blocks.
  ghost predicate Tracks(cap: nat, h: seq<Delivery>, r: Rx) {
    && Sound(r) && r.cap == cap && IsNext(cap, h, r.nextid)
    && (r.nextid < cap ==> r.entries[r.nextid] == None)
    && (forall i :: r.nextid < i < cap ==> r.entries[i] == Last(h, i))
    && r.part == Concat(Commits(h, r.nextid))
  }

  lemma {:induction false} StoreTracks(cap: nat, h: seq<Delivery>, r: Rx)
    requires h != [] && Within(cap, h) && Tracks(cap, h[..|h| - 1], r) && h[|h| - 1].seqno != r.nextid
    ensures Tracks(cap, h, Receive(r, h[|h| - 1].seqno, h[|h| - 1].content))
  {
    hide Last;
    hide Concat;
    var e := h[|h| - 1];
    CommitsKept(h, r.nextid);
    DeliveredStep(h, r.nextid);
    forall i | r.nextid < i < cap
      ensures Receive(r, e.seqno, e.content).entries[i] == Last(h, i)
    {
      LastStep(h, i);
    }
  }

  // The blocks a drain reaches are those committed by the delivery that set it off.
  lemma {:induction false} DrainCommits(cap: nat, h: seq<Delivery>, r: Rx, n: nat)
    requires h != [] && Within(cap, h) && Tracks(cap, h[..|h| - 1], r) && h[|h| - 1].seqno == r.nextid
    requires r.nextid < n <= cap && forall i :: r.nextid < i < n ==> r.entries[i].Some?
    ensures Complete(h, n) && Committed(h, r.nextid) == h[|h| - 1].content
    ensures forall i :: r.nextid < i < n ==> r.entries[i] == Some(Committed(h, i))
    ensures Commits(h, n)[..r.nextid] == Commits(h[..|h| - 1], r.nextid)
  {
    var g := h[..|h| - 1];
    CommitsKept(h, r.nextid);
    forall i: nat | r.nextid <= i < n
      ensures Delivered(h, i) && !Complete(g, i + 1)
    {
      assert i > r.nextid ==> r.entries[i] == Last(g, i);
      DeliveredStep(h, i);
      assert !Delivered(g, r.nextid);
    }
    LastStep(h, r.nextid);
    forall i | r.nextid < i < n
      ensures r.entries[i] == Some(Committed(h, i))
    {
      LastStep(h, i);
    }
  }

  lemma SplitAround<T>(s: seq<T>, k: nat)
    requires k < |s|
    ensures s == s[..k] + [s[k]] + s[k + 1..]
  {
  }

  // The blocks below nextid, the one just come, and the buffered ones that follow it make up the part file.
  lemma {:induction false} AppendConcat(r: Rx, content: seq<Byte>, cs: seq<seq<Byte>>)
    requires Sound(r) && r.nextid < r.cap && |cs| == Drain(r.(part := r.part + content)).nextid
    requires r.part == Concat(cs[..r.nextid]) && cs[r.nextid] == content
    requires forall i :: r.nextid < i < |cs| ==> r.entries[i] == Some(cs[i])
    ensures Drain(r.(part := r.part + content)).part == Concat(cs)
  {
    hide Concat;
    hide Drain;
    var r1, bs := r.(part := r.part + content), cs[r.nextid + 1..];
    SplitAround(cs, r.nextid);
    DrainAppends(r1, bs);
    ConcatSnoc(cs[..r.nextid], content);
    ConcatAppend(cs[..r.nextid] + [content], bs);
  }

  lemma {:induction false} AppendPart(cap: nat, h: seq<Delivery>, r: Rx, d: Rx)
    requires h != [] && Within(cap, h) && Tracks(cap, h[..|h| - 1], r) && h[|h| - 1].seqno == r.nextid
    requires d == Drain(r.(part := r.part + h[|h| - 1].content))
    ensures Complete(h, d.nextid) && d.part == Concat(Commits(h, d.nextid))
  {
    hide Last;
    hide Concat;
    hide Drain;
    hide Committed;
    hide Complete;
    hide Commits;
    DrainStops(r.(part := r.part + h[|h| - 1].content));
    DrainCommits(cap, h, r, d.nextid);
    AppendConcat(r, h[|h| - 1].content, Commits(h, d.nextid));
  }

  lemma {:induction false} AppendTracks(cap: nat, h: seq<Delivery>, r: Rx)
    requires h != [] && Within(cap, h) && Tracks(cap, h[..|h| - 1], r) && h[|h| - 1].seqno == r.nextid
    ensures Tracks(cap, h, Receive(r, h[|h| - 1].seqno, h[|h| - 1].content))
  {
    hide Last;
    hide Concat;
    hide Drain;
    hide Commits;
    var r1 := r.(part := r.part + h[|h| - 1].content);
    var d := Drain(r1);
    AppendPart(cap, h, r, d);
    DrainStops(r1);
    if d.nextid < cap {
      DeliveredStep(h, d.nextid);
      assert d.nextid > r.nextid;
    }
    forall i | d.nextid < i < cap
      ensures d.entries[i] == Last(h, i)
    {
      LastStep(h, i);
    }
  }

  lemma {:induction false} RunTracks(cap: nat, h: seq<Delivery>)
    requires Within(cap, h)
    ensures Tracks(cap, h, Run(cap, h))
    decreases h
  {
    hide Receive;
    if h == [] {
      ConcatNone();
    } else {
      var g := h[..|h| - 1];
      RunTracks(cap, g);
      if h[|h| - 1].seqno == Run(cap, g).nextid {
        AppendTracks(cap, h, Run(cap, g));
      } else {
        StoreTracks(cap, h, Run(cap, g));
      }
    }
  }

  ghost predicate SameBlocks(g: seq<Delivery>, h: seq<Delivery>) {
    forall i :: Delivered(g, i) <==> Delivered(h, i)
  }

  // The order of delivery, and how often a block came, do not show: only which blocks came.
  lemma {:induction false} Confluence(cap: nat, g: seq<Delivery>, h: seq<Delivery>)
    requires Within(cap, g) && Within(cap, h) && SameBlocks(g, h)
    ensures var r, s := Run(cap, g), Run(cap, h);
            r.nextid == s.nextid && forall i :: r.nextid < i < cap ==> (r.entries[i].Some? <==> s.entries[i].Some?)
  {
    RunTracks(cap, g);
    RunTracks(cap, h);
    NextUnique(cap, g, Run(cap, g).nextid, Run(cap, h).nextid);
    hide Run;
    hide Last;
  }

  // Every message for block i carries blocks[i].
  ghost predicate Faithful(blocks: seq<seq<Byte>>, h: seq<Delivery>) {
    forall k :: 0 <= k < |h| ==> h[k].seqno < |blocks| && h[k].content == blocks[h[k].seqno]
  }

  lemma {:induction false} FaithfulLast(blocks: seq<seq<Byte>>, h: seq<Delivery>, i: nat)
    requires Faithful(blocks, h) && Delivered(h, i)
    ensures i < |blocks| && Last(h, i) == Some(blocks[i])
    decreases h
  {
    DeliveredStep(h, i);
    if h[|h| - 1].seqno == i {
    } else {
      FaithfulLast(blocks, h[..|h| - 1], i);
    }
  }

  lemma {:induction false} FaithfulCommitted(blocks: seq<seq<Byte>>, h: seq<Delivery>, i: nat)
    requires Faithful(blocks, h) && Complete(h, i + 1)
    ensures i < |blocks| && Committed(h, i) == blocks[i]
    decreases h
  {
    assert Delivered(h, i);
    var g := h[..|h| - 1];
    if Complete(g, i + 1) {
      FaithfulCommitted(blocks, g, i);
    } else {
      FaithfulLast(blocks, h, i);
    }
  }

  // Whatever was lost, repeated or reordered, the part file is the first nextid blocks.
  lemma {:induction false} PartIsPrefix(blocks: seq<seq<Byte>>, h: seq<Delivery>)
    requires Faithful(blocks, h)
    ensures Within(|blocks|, h)
    ensures var r := Run(|blocks|, h);
            r.part == Concat(blocks[..r.nextid]) && IsNext(|blocks|, h, r.nextid)
  {
    var r := Run(|blocks|, h);
    RunTracks(|blocks|, h);
    hide Run;
    forall i | 0 <= i < r.nextid
      ensures Commits(h, r.nextid)[i] == blocks[i]
    {
      FaithfulCommitted(blocks, h, i);
    }
    assert Commits(h, r.nextid) == blocks[..r.nextid];
  }

  // Two streams of the same true blocks, in any order and number, leave the same part file.
  lemma {:induction false} SamePart(blocks: seq<seq<Byte>>, g: seq<Delivery>, h: seq<Delivery>)
    requires Faithful(blocks, g) && Faithful(blocks, h) && SameBlocks(g, h)
    ensures Within(|blocks|, g) && Within(|blocks|, h)
    ensures Run(|blocks|, g).part == Run(|blocks|, h).part && Run(|blocks|, g).nextid == Run(|blocks|, h).nextid
  {
    PartIsPrefix(blocks, g);
    PartIsPrefix(blocks, h);
    Confluence(|blocks|, g, h);
    hide Run;
  }

  // The session is finished exactly when every block has come, so at the very message that completes them.
  lemma {:induction false} FinishesExactly(cap: nat, h: seq<Delivery>)
    requires h != [] && Within(cap, h)
    ensures Run(cap, h).nextid == cap <==> Complete(h, cap)
    ensures (Run(cap, h[..|h| - 1]).nextid < cap && Run(cap, h).nextid == cap)
       <==> (Complete(h, cap) && !Delivered(h[..|h| - 1], h[|h| - 1].seqno) && !Complete(h[..|h| - 1], cap))
  {
    var g := h[..|h| - 1];
    RunTracks(cap, h);
    RunTracks(cap, g);
    hide Run;
    if Complete(h, cap) && !Complete(g, cap) {
      var i: nat :| i < cap && !Delivered(g, i);
      DeliveredStep(h, i);
    }
  }

  // Bytes once written stay: a longer history only extends the part file.
  lemma {:induction false} WrittenStays(cap: nat, h: seq<Delivery>, n: nat)
    requires Within(cap, h) && n <= |h|
    ensures Run(cap, h[..n]).part <= Run(cap, h).part && Run(cap, h[..n]).nextid <= Run(cap, h).nextid
    decreases |h| - n
  {
    if n == |h| {
      assert h[..n] == h;
    } else {
      WrittenStays(cap, h, n + 1);
      var g, e, r := h[..n + 1], h[n], Run(cap, h[..n]);
      assert g[..|g| - 1] == h[..n];
      if e.seqno == r.nextid {
        DrainExtends(r.(part := r.part + e.content));
      }
    }
  }

  lemma {:induction false} DrainExtends(r: Rx)
    requires Sound(r) && r.nextid < r.cap
    ensures r.part <= Drain(r).part
    decreases r.cap - r.nextid
  {
    var n := r.nextid + 1;
    if n >= r.cap || r.entries[n].None? {
    } else {
      DrainExtends(r.(nextid := n, part := r.part + r.entries[n].value, entries := r.entries[n := None]));
    }
  }

  function Held(entries: seq<Option<seq<Byte>>>): nat {
    if entries == [] then 0 else (if entries[0].Some? then 1 else 0) + Held(entries[1..])
  }

  lemma {:induction false} HeldUpdate(entries: seq<Option<seq<Byte>>>, i: nat, e: Option<seq<Byte>>)
    requires i < |entries|
    ensures Held(entries[i := e]) == Held(entries) - (if entries[i].Some? then 1 else 0) + (if e.Some? then 1 else 0)
  {
    if i > 0 {
      HeldUpdate(entries[1..], i - 1, e);
      assert entries[i := e][1..] == entries[1..][i - 1 := e];
    } else {
      assert entries[i := e][1..] == entries[1..];
    }
  }

  lemma {:induction false} HeldNone(entries: seq<Option<seq<Byte>>>)
    requires forall i :: 0 <= i < |entries| ==> entries[i].None?
    ensures Held(entries) == 0
  {
    if entries == [] {
    } else {
      HeldNone(entries[1..]);
    }
  }

  lemma {:induction false} DrainHeld(r: Rx)
    requires Sound(r) && r.nextid < r.cap
    ensures Drain(r).nextid + Held(Drain(r).entries) == r.nextid + 1 + Held(r.entries)
    decreases r.cap - r.nextid
  {
    var n := r.nextid + 1;
    if n >= r.cap || r.entries[n].None? {
    } else {
      HeldUpdate(r.entries, n, None);
      DrainHeld(r.(nextid := n, part := r.part + r.entries[n].value, entries := r.entries[n := None]));
    }
  }

  // The messages that replace a buffered block of no bytes, which len then counts twice.
  function Recounts(cap: nat, h: seq<Delivery>): nat
    requires Within(cap, h)
    decreases h
  {
    if h == [] then 0
    else
      var g, e := h[..|h| - 1], h[|h| - 1];
      var r := Run(cap, g);
      Recounts(cap, g) + if e.seqno != r.nextid && r.entries[e.seqno] == Some([]) then 1 else 0
  }

  // What len counts, exactly: the blocks appended, the slots in use, and the double counts.
  lemma {:induction false} Accounting(cap: nat, h: seq<Delivery>)
    requires Within(cap, h)
    ensures var r := Run(cap, h); r.len == r.nextid + Held(r.entries) + Recounts(cap, h)
    decreases h
  {
    if h == [] {
      HeldNone(Fresh(cap).entries);
    } else {
      var g, e := h[..|h| - 1], h[|h| - 1];
      var r := Run(cap, g);
      Accounting(cap, g);
      if e.seqno == r.nextid {
        DrainHeld(r.(part := r.part + e.content));
      } else {
        HeldUpdate(r.entries, e.seqno, Some(e.content));
      }
    }
  }

  // How often block i came.
  function Times(h: seq<Delivery>, i: nat): nat {
    if h == [] then 0 else Times(h[..|h| - 1], i) + if h[|h| - 1].seqno == i then 1 else 0
  }

  lemma {:induction false} TimesDelivered(h: seq<Delivery>, i: nat)
    ensures Times(h, i) > 0 <==> Delivered(h, i)
    decreases h
  {
    if h == [] {
    } else {
      TimesDelivered(h[..|h| - 1], i);
      DeliveredStep(h, i);
    }
  }

  // Every buffered block is a true one.
  lemma {:induction false} EntriesTrue(blocks: seq<seq<Byte>>, h: seq<Delivery>)
    requires Faithful(blocks, h)
    ensures Within(|blocks|, h)
    ensures var r := Run(|blocks|, h);
            forall i :: 0 <= i < r.cap && r.entries[i].Some? ==> r.entries[i].value == blocks[i]
    decreases h
  {
    hide Drain;
    if h == [] {
    } else {
      var g, e := h[..|h| - 1], h[|h| - 1];
      EntriesTrue(blocks, g);
      var r := Run(|blocks|, g);
      if e.seqno == r.nextid {
        DrainStops(r.(part := r.part + e.content));
      }
    }
  }

  // Only the last block may be empty, as in a file cut into blocks.
  ghost predicate Filled(blocks: seq<seq<Byte>>) {
    blocks != [] && forall i :: 0 <= i < |blocks| - 1 ==> blocks[i] != []
  }

  lemma {:induction false} StillIncomplete(h: seq<Delivery>, n: nat)
    requires h != [] && !Complete(h, n)
    ensures !Complete(h[..|h| - 1], n)
    ensures IsNext(n, h[..|h| - 1], h[|h| - 1].seqno) ==> h[|h| - 1].seqno + 1 < n
  {
    var i: nat :| i < n && !Delivered(h, i);
    DeliveredStep(h, i);
  }

  // While a file is incomplete, the double counts are the repeats of its last block, if that one is empty.
  lemma {:induction false} RecountsAre(blocks: seq<seq<Byte>>, h: seq<Delivery>)
    requires Filled(blocks) && Faithful(blocks, h) && !Complete(h, |blocks|)
    ensures Within(|blocks|, h)
    ensures var last := |blocks| - 1;
            Recounts(|blocks|, h) == if blocks[last] == [] && Times(h, last) > 0 then Times(h, last) - 1 else 0
    decreases h
  {
    hide Last;
    hide Concat;
    hide Commits;
    hide Complete;
    if h == [] {
    } else {
      var g, last := h[..|h| - 1], |blocks| - 1;
      StillIncomplete(h, |blocks|);
      RecountsAre(blocks, g);
      RunTracks(|blocks|, g);
      EntriesTrue(blocks, g);
      TimesDelivered(g, last);
      hide Run;
    }
  }

  // While a file is incomplete, len is the blocks appended and the slots in use, exactly unless its last
  // block is empty and has come more than once.
  lemma {:induction false} CountsRight(blocks: seq<seq<Byte>>, h: seq<Delivery>)
    requires Filled(blocks) && Faithful(blocks, h) && !Complete(h, |blocks|)
    ensures Within(|blocks|, h)
    ensures var r, last := Run(|blocks|, h), |blocks| - 1;
            r.len == r.nextid + Held(r.entries) <==> blocks[last] != [] || Times(h, last) <= 1
  {
    RecountsAre(blocks, h);
    Accounting(|blocks|, h);
    hide Run;
  }

  // The empty last block of two, sent twice: one slot is in use, and len is 2.
  lemma DoubleCount()
    ensures var h := [Delivery(1, []), Delivery(1, [])];
            Within(2, h) && var r := Run(2, h); r.len == 2 && r.nextid == 0 && Held(r.entries) == 1
  {
    var e := Delivery(1, []);
    var h := [e, e];
    assert h[..1] == [e] && [e][..0] == [];
    var r0 := Fresh(2);
    var r1 := Receive(r0, 1, []);
    assert r0.entries == [None, None] && r1.entries == [None, Some([])];
    assert Run(2, [e]) == r1;
    var r2 := Receive(r1, 1, []);
    assert r2.entries == [None, Some([])];
    assert Run(2, h) == r2;
    var es := r2.entries[1..];
    assert es == [Some([])] && es[1..] == [];
    assert Held(es) == 1 + Held(es[1..]);
    assert Held(r2.entries) == Held(es);
  }
}
