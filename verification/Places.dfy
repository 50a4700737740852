// Which files a call can touch: none outside the receive directory, and in it only those of the session at hand.
module Places {
  import opened Options
  import opened Status
  import opened Bytes
  import opened Messages
  import opened Names
  import opened Protocol
  import opened Registry
  import opened Transfer
  import opened Interleaving

  // A part file in directory dir: the name and ".part".
  ghost function PartIn(dir: Name, w: Name): Name {
    dir + w + [0x2E, 0x70, 0x61, 0x72, 0x74]
  }

  lemma PartInIs(dir: Name, w: Name)
    ensures Path(dir, PartName(w)) == PartIn(dir, w) && Path(dir, w) == dir + w
  {
    assert dir + (w + PART) == dir + w + PART;
  }

  // No file differs but at these paths.
  ghost predicate OnlyAt(st: State, st': State, ps: set<Name>) {
    forall q :: q !in ps ==> Lookup(st'.fs, q) == Lookup(st.fs, q)
  }

  // HELLO makes one file, or empties it: the part file of the working name, in the receive directory.
  lemma HelloPlaces(st: State, m: Message)
    requires Proper(st) && m.Hello? && Acceptable(st, m)
    ensures 0 in st.files ==> HandleHello(st, m).st == st
    ensures 0 !in st.files ==>
              var st', part := HandleHello(st, m).st, PartIn(st.dir, WorkingName(st, CStr(m.fname)).value);
              OnlyAt(st, st', {part}) && Lookup(st'.fs, part) == Some([]) && st'.dir == st.dir
  {
    hide Crc;
    hide CStr;
    hide Path;
    hide PartName;
    hide WorkingName;
    hide Bind;
    hide R.Fresh;
    hide PartIn;
    if 0 !in st.files {
      PartInIs(st.dir, WorkingName(st, CStr(m.fname)).value);
      HelloEffect(st, m);
    }
  }

  // A block touches the part file and the final file of its session, if it has one.
  lemma BlockPlaces(st: State, m: Message)
    requires Proper(st) && m.Block? && Acceptable(st, m)
    ensures HandleBlock(st, m).st.dir == st.dir
    ensures m.fileid !in st.files ==> HandleBlock(st, m) == Reply(st, 17, None)
    ensures m.fileid in st.files ==>
              var w := st.files[m.fileid].wfname; OnlyAt(st, HandleBlock(st, m).st, {st.dir + w, PartIn(st.dir, w)})
  {
    hide Crc;
    hide Path;
    hide PartName;
    hide R.Receive;
    hide Released;
    hide Called;
    hide PartIn;
    if m.fileid in st.files {
      PartInIs(st.dir, st.files[m.fileid].wfname);
    }
  }

  // Stopping ends the session and takes its part file away; the other sessions and files are as they were. What
  // it reports is whether there was a session, and a part file.
  lemma StopPlaces(st: State, fname: Name)
    ensures Crc(Basename(fname)) !in st.files ==> RecvStop(st, fname) == Reply(st, 17, None)
    ensures Crc(Basename(fname)) in st.files ==>
              var r, id := RecvStop(st, fname), Crc(Basename(fname));
              var part := PartIn(st.dir, st.files[id].wfname);
              && OnlyAt(st, r.st, {part}) && part !in r.st.fs && r.st.files == st.files - {id}
              && r.rv == (if part in st.fs then 0 else 2) && r.rmsg == None
              && r.st == st.(fs := r.st.fs, files := r.st.files, reg := r.st.reg)
              && r.st.reg == if r.rv == 0 then Released(st.reg, st.files[id].fcb) else st.reg
  {
    hide Crc;
    hide Basename;
    hide Path;
    hide PartName;
    hide Released;
    hide PartIn;
    if Crc(Basename(fname)) in st.files {
      PartInIs(st.dir, st.files[Crc(Basename(fname))].wfname);
    }
  }

  // Nothing outside the directory differs.
  ghost predicate InsideOnly(st: State, st': State) {
    st'.dir == st.dir && forall q :: Lookup(st'.fs, q) != Lookup(st.fs, q) ==> st.dir <= q
  }

  lemma OnlyInside(st: State, st': State, ps: set<Name>)
    requires st'.dir == st.dir && OnlyAt(st, st', ps) && forall p :: p in ps ==> st.dir <= p
    ensures InsideOnly(st, st')
  {
  }

  // One call of any kind changes no file outside the receive directory.
  lemma StepInside(st: State, op: Op)
    requires Proper(st) && Allowed(st, op)
    ensures InsideOnly(st, Apply(st, op))
  {
    hide Crc;
    hide Basename;
    hide Parse;
    hide Sized;
    hide Wire;
    hide B.BlockRead;
    hide HandleHello;
    hide HandleBlock;
    hide RecvStop;
    hide OnlyAt;
    hide InsideOnly;
    hide WorkingName;
    match op
    case StopOp(fname) =>
      StopPlaces(st, fname);
      var id := Crc(Basename(fname));
      if id in st.files {
        OnlyInside(st, RecvStop(st, fname).st, {PartIn(st.dir, st.files[id].wfname)});
      } else {
        SameInside(st, RecvStop(st, fname).st);
      }
    case HandleOp(msg) =>
      if Parse(msg).Ok? && Parse(msg).message.Hello? {
        HelloInside(st, Parse(msg).message);
      } else if Parse(msg).Ok? && Parse(msg).message.Block? {
        BlockInside(st, Parse(msg).message);
      } else {
        SameInside(st, Handle(st, msg).st);
      }
    case _ => SameInside(st, Apply(st, op));
  }

  lemma SameInside(st: State, st': State)
    requires st'.dir == st.dir && st'.fs == st.fs
    ensures InsideOnly(st, st')
  {
  }

  lemma HelloInside(st: State, m: Message)
    requires Proper(st) && m.Hello? && Acceptable(st, m)
    ensures InsideOnly(st, HandleHello(st, m).st)
  {
    hide Crc;
    hide CStr;
    hide OnlyAt;
    hide InsideOnly;
    hide HandleHello;
    hide WorkingName;
    HelloPlaces(st, m);
    if 0 in st.files {
      SameInside(st, st);
    } else {
      OnlyInside(st, HandleHello(st, m).st, {PartIn(st.dir, WorkingName(st, CStr(m.fname)).value)});
    }
  }

  lemma BlockInside(st: State, m: Message)
    requires Proper(st) && m.Block? && Acceptable(st, m)
    ensures InsideOnly(st, HandleBlock(st, m).st)
  {
    hide OnlyAt;
    hide InsideOnly;
    hide HandleBlock;
    BlockPlaces(st, m);
    if m.fileid in st.files {
      var w := st.files[m.fileid].wfname;
      OnlyInside(st, HandleBlock(st, m).st, {st.dir + w, PartIn(st.dir, w)});
    } else {
      SameInside(st, st);
    }
  }

  // No run of calls, whatever is received in it, makes, changes or removes a file outside the receive directory.
  lemma {:induction false} RunsInside(sts: seq<State>, ops: seq<Op>, n: nat)
    requires Reachable(sts, ops) && n < |sts|
    ensures InsideOnly(sts[0], sts[n])
  {
    hide Apply;
    hide Allowed;
    if n == 0 {
    } else {
      RunsInside(sts, ops, n - 1);
      StepInside(sts[n - 1], ops[n - 1]);
      assert sts[n - 1 + 1] == Apply(sts[n - 1], ops[n - 1]);
    }
  }
}
