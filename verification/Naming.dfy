// When HELLO gives live sessions separate working names, as a check of the state before the call.
module Naming {
  import opened Options
  import opened Bytes
  import opened Messages
  import opened Names
  import opened Protocol
  import opened Transfer
  import opened Interleaving
  import opened Status
  import opened CrcSamples

  // No live session's working name is another's, or another's part name.
  ghost predicate LiveApart(st: State) {
    forall a, b :: a in st.files && b in st.files && a != b ==>
      st.files[a].wfname != st.files[b].wfname && st.files[a].wfname != PartName(st.files[b].wfname)
  }

  ghost predicate OnDisk(st: State, fname: Name) {
    Path(st.dir, fname) in st.fs
  }

  // Every live session has its part file, or, its hash check having failed, its final file.
  ghost predicate Backed(st: State) {
    forall a :: a in st.files ==> OnDisk(st, PartName(st.files[a].wfname)) || OnDisk(st, st.files[a].wfname)
  }

  // Every live session has its part file.
  ghost predicate PartsThere(st: State) {
    forall a :: a in st.files ==> OnDisk(st, PartName(st.files[a].wfname))
  }

  // No part file without its live session.
  ghost predicate PartsOwned(st: State) {
    forall v :: OnDisk(st, PartName(v)) ==> exists a :: a in st.files && st.files[a].wfname == v
  }

  // A part file of name v is not there, or is session id's own.
  ghost predicate Unclaimed(st: State, id: u32, v: Name) {
    OnDisk(st, PartName(v)) ==> id in st.files && st.files[id].wfname == v
  }

  // What a caller can check before a HELLO for fname: nobody else's part file bears the working name it would
  // get, or that name's part name, and the working name is nobody else's part name.
  ghost predicate Clear(st: State, fname: Name)
    requires WorkingName(st, fname).Some?
  {
    var w, id := WorkingName(st, fname).value, Crc(fname);
    && Unclaimed(st, id, w) && Unclaimed(st, id, PartName(w))
    && forall b :: b in st.files && b != id ==> w != PartName(st.files[b].wfname)
  }

  lemma WorkingNameFree(st: State, fname: Name)
    ensures WorkingName(st, fname).Some? ==> !OnDisk(st, WorkingName(st, fname).value)
  {
    hide Path;
  }

  // The name and "_01", "_02" and so on.
  ghost function Suffixed(fname: Name, i: nat): Name
    requires i < 100
  {
    fname + [0x5F, 0x30 + (i / 10) as bv8, 0x30 + (i % 10) as bv8]
  }

  lemma {:induction false} NewNameIs(st: State, fname: Name, from: nat) returns (i: nat)
    requires from <= 100
    ensures from <= i <= 100 && forall j :: from <= j < i ==> st.dir + Suffixed(fname, j) in st.fs
    ensures NewName(st.fs, st.dir, fname, from) == if i < 100 then Some(Suffixed(fname, i)) else None
    ensures i < 100 ==> st.dir + Suffixed(fname, i) !in st.fs
    decreases 100 - from
  {
    if from == 100 {
      i := 100;
    } else {
      assert Numbered(fname, from) == Suffixed(fname, from);
      if st.dir + Suffixed(fname, from) !in st.fs {
        i := from;
      } else {
        i := NewNameIs(st, fname, from + 1);
      }
    }
  }

  // The name a HELLO for fname writes to: fname, if no file of that name is in the directory; else with the least
  // of the numbers 01 to 99 with which none is; else none.
  lemma WorkingNameIs(st: State, fname: Name) returns (i: nat)
    ensures st.dir + fname !in st.fs ==> WorkingName(st, fname) == Some(fname)
    ensures st.dir + fname in st.fs ==> WorkingName(st, fname) == if i < 100 then Some(Suffixed(fname, i)) else None
    ensures 1 <= i <= 100 && (i < 100 ==> st.dir + Suffixed(fname, i) !in st.fs)
    ensures forall j :: 1 <= j < i ==> st.dir + Suffixed(fname, j) in st.fs
  {
    i := NewNameIs(st, fname, 1);
    hide NewName;
  }

  lemma ClearKeeps(st: State, id: u32, w: Name, b: u32)
    requires LiveApart(st) && Backed(st) && !OnDisk(st, w) && b in st.files && b != id
    requires Unclaimed(st, id, w) && Unclaimed(st, id, PartName(w)) && w != PartName(st.files[b].wfname)
    ensures st.files[b].wfname != w && st.files[b].wfname != PartName(w)
  {
    hide OnDisk;
  }

  lemma ApartClears(st: State, st': State, id: u32, v: Name)
    requires PartsOwned(st) && (forall b :: b in st.files && b != id ==> b in st'.files && st'.files[b] == st.files[b])
    requires forall b :: b in st'.files && b != id ==> st'.files[b].wfname != v
    ensures Unclaimed(st, id, v)
  {
    hide OnDisk;
  }

  // Session id, new or opened again, writes to w; the others are as they were.
  ghost predicate Opened(st: State, st': State, id: u32, w: Name) {
    && st'.files.Keys == st.files.Keys + {id} && st'.files[id].wfname == w
    && forall b :: b in st.files && b != id ==> st'.files[b] == st.files[b]
  }

  lemma HelloOpened(st: State, m: Message)
    requires Proper(st) && m.Hello? && Acceptable(st, m) && 0 !in st.files
    ensures Opened(st, HandleHello(st, m).st, Crc(CStr(m.fname)), WorkingName(st, CStr(m.fname)).value)
  {
    hide Crc;
    hide CStr;
    hide Path;
    hide WorkingName;
    hide Bind;
    HelloEffect(st, m);
    hide HandleHello;
  }

  lemma OpenedApart(st: State, st': State, id: u32, w: Name)
    requires Opened(st, st', id, w) && LiveApart(st)
    ensures LiveApart(st') <==> forall b :: b in st.files && b != id ==>
              var v := st.files[b].wfname; v != w && v != PartName(w) && w != PartName(v)
  {
  }

  // HELLO keeps the live working names apart exactly when the check passes, as long as no stray part file
  // lies about; the check is enough in any case. If it fails, two sessions come to write one file, or one
  // session's part file is where another's final file goes.
  lemma HelloKeepsApart(st: State, m: Message)
    requires Proper(st) && m.Hello? && Acceptable(st, m) && 0 !in st.files
    requires LiveApart(st) && Backed(st)
    ensures Clear(st, CStr(m.fname)) ==> LiveApart(HandleHello(st, m).st)
    ensures PartsOwned(st) && LiveApart(HandleHello(st, m).st) ==> Clear(st, CStr(m.fname))
  {
    hide Crc;
    hide CStr;
    hide CtxOk;
    hide WorkingName;
    hide LiveApart;
    hide Backed;
    hide OnDisk;
    hide Unclaimed;
    hide PartsOwned;
    hide PartName;
    var w, id := WorkingName(st, CStr(m.fname)).value, Crc(CStr(m.fname));
    var st' := HandleHello(st, m).st;
    hide HandleHello;
    HelloOpened(st, m);
    OpenedApart(st, st', id, w);
    WorkingNameFree(st, CStr(m.fname));
    if Clear(st, CStr(m.fname)) {
      forall b | b in st.files && b != id
        ensures var v := st.files[b].wfname; v != w && v != PartName(w) && w != PartName(v)
      {
        ClearKeeps(st, id, w, b);
      }
    } else if PartsOwned(st) && LiveApart(st') {
      ApartClears(st, st', id, w);
      ApartClears(st, st', id, PartName(w));
    }
  }

  // For a file that is not being received yet, while every session has its part file, the check is one of the
  // disk alone: two paths must be free.
  lemma ClearOnDisk(st: State, fname: Name)
    requires WorkingName(st, fname).Some? && PartsThere(st) && Crc(fname) !in st.files
    ensures var w := WorkingName(st, fname).value;
            Clear(st, fname) <==> !OnDisk(st, PartName(w)) && !OnDisk(st, PartName(PartName(w)))
  {
    hide Crc;
    hide OnDisk;
    hide WorkingName;
    WorkingNameFree(st, fname);
  }

  // A HELLO for a file that is not being received yet, with no part file on disk but the live sessions' own:
  // names stay apart exactly when two paths are free.
  lemma NewNameApart(st: State, m: Message)
    requires Proper(st) && m.Hello? && Acceptable(st, m) && 0 !in st.files && Crc(CStr(m.fname)) !in st.files
    requires LiveApart(st) && PartsThere(st) && PartsOwned(st)
    ensures var w := WorkingName(st, CStr(m.fname)).value;
            LiveApart(HandleHello(st, m).st)
            <==> Path(st.dir, PartName(w)) !in st.fs && Path(st.dir, PartName(PartName(w))) !in st.fs
  {
    hide Crc;
    hide CStr;
    hide Proper;
    hide WorkingName;
    hide HandleHello;
    hide LiveApart;
    hide PartsOwned;
    hide Clear;
    ClearOnDisk(st, CStr(m.fname));
    HelloKeepsApart(st, m);
  }

  // The live sessions' working names.
  ghost function LiveNames(st: State): (names: map<u32, Name>) {
    map id | id in st.files :: st.files[id].wfname
  }

  // Live names that are apart are what interleaving asks for.
  lemma LiveNamesApart(st: State)
    ensures Named(st, LiveNames(st)) && (Apart(LiveNames(st)) <==> LiveApart(st))
  {
    if Apart(LiveNames(st)) {
      forall a, b | a in st.files && b in st.files && a != b
        ensures st.files[a].wfname != st.files[b].wfname && st.files[a].wfname != PartName(st.files[b].wfname)
      {
        assert LiveNames(st)[a] == st.files[a].wfname && LiveNames(st)[b] == st.files[b].wfname;
      }
    }
  }

  // ---- Inputs on which the check fails and names clash ----

  lemma SampleIds()
    ensures Crc(A) != 0 && Crc(A_PART) != 0 && Crc(A) != Crc(A_01) && Crc(A_PART) != Crc(A)
    ensures CStr(A) == A && CStr(A_01) == A_01 && CStr(A_PART) == A_PART
  {
    CStrWhole(A);
    CStrWhole(A_01);
    CStrWhole(A_PART);
    hide *;
    SamplesDiffer();
    CrcOfNothing();
    CrcDiffers(A, []);
    CrcDiffers(A_PART, []);
    CrcDiffers(A, A_01);
    CrcDiffers(A_PART, A);
  }

  // "a" is on disk: a HELLO for it is given "a_01", and then a HELLO for "a_01" is given "a_01" too.
  lemma NumberedNameShared() returns (st: State, m: Message, m': Message)
    ensures st == Init([], 4, map[A := []]) && m == Hello(1, 1, A, 0) && m' == Hello(2, 1, A_01, 0)
    ensures Proper(st) && Acceptable(st, m)
    ensures var r := HandleHello(st, m); r.rv == OK && Proper(r.st) && Acceptable(r.st, m')
    ensures var r' := HandleHello(HandleHello(st, m).st, m');
            && r'.rv == OK && Crc(A) != Crc(A_01) && r'.st.files.Keys == {Crc(A), Crc(A_01)}
            && r'.st.files[Crc(A)].wfname == r'.st.files[Crc(A_01)].wfname == A_01
  {
    hide Crc;
    hide CStr;
    hide Wire;
    hide Bind;
    hide R.Fresh;
    st, m, m' := Init([], 4, map[A := []]), Hello(1, 1, A, 0), Hello(2, 1, A_01, 0);
    SampleIds();
    assert Numbered(A, 1) == A_01;
    assert Path([], A) == A && Path([], A_01) == A_01;
    assert WorkingName(st, A) == Some(A_01);
    SharedName(st, m, m', HandleHello(st, m).st);
    HelloSucceeds(st, m);
    HelloSucceeds(HandleHello(st, m).st, m');
    HelloEffect(st, m);
    HelloEffect(HandleHello(st, m).st, m');
  }

  // While "a.part" is being received, a HELLO for "a" is given "a": its part file is where the other's final
  // file is to go.
  lemma PartNameTaken() returns (st: State, m: Message, m': Message)
    ensures st == Init([], 4, map[]) && m == Hello(1, 1, A_PART, 0) && m' == Hello(2, 1, A, 0)
    ensures Proper(st) && Acceptable(st, m)
    ensures var r := HandleHello(st, m); r.rv == OK && Proper(r.st) && Acceptable(r.st, m')
    ensures var r' := HandleHello(HandleHello(st, m).st, m');
            && r'.rv == OK && r'.st.files.Keys == {Crc(A), Crc(A_PART)} && Crc(A) != Crc(A_PART)
            && r'.st.files[Crc(A_PART)].wfname == PartName(r'.st.files[Crc(A)].wfname)
  {
    hide Crc;
    hide CStr;
    hide Wire;
    hide Bind;
    hide R.Fresh;
    st, m, m' := Init([], 4, map[]), Hello(1, 1, A_PART, 0), Hello(2, 1, A, 0);
    SampleIds();
    assert PartName(A) == A_PART;
    HelloEffect(st, m);
    var s := HandleHello(st, m).st;
    assert Path([], A) == A && |PartName(A_PART)| != |A|;
    assert Path([], A) !in s.fs;
    HelloSucceeds(st, m);
    HelloSucceeds(s, m');
    HelloEffect(s, m');
  }
}
